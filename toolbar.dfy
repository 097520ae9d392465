/**
 * The per-request CMS toolbar: the flags and language it derives from the
 * request, the choice of the "active" toolbar contributor by matching the
 * resolved view's module path against the registry's dotted keys, the loop that
 * lets every contributor append its items, and the login/logout request hook.
 */
module Toolbar {
  import opened Text

  datatype Option<T> = None | Some(value: T)

  // ---------------------------------------------------------------------------
  // Request-side inputs
  // ---------------------------------------------------------------------------

  /** The user attached to the request. An account is identified by its
      primary key `id` and may have a UserSettings record, whose language is
      `settingsLanguage` (None: no record exists). */
  datatype User =
    | AnonymousUser
    | Account(id: nat, isStaff: bool, settingsLanguage: Option<string>)

  /** The users an authentication form can authenticate: accounts only. */
  type AccountUser = u: User | u.Account? witness Account(0, false, None)

  /** `request.user.is_staff`; anonymous users are never staff. */
  function IsStaff(u: User): bool
  {
    u.Account? && u.isStaff
  }

  /** The language of the user's UserSettings record, None when there is none. */
  function SettingsLanguage(u: User): Option<string>
  {
    if u.Account? then u.settingsLanguage else None
  }

  /** What the toolbar reads from the request. `cmsEdit` is the session's
      `cms_edit` flag (False when absent); `query` holds the names of the query
      parameters (`request.GET`); `loginUser` is the account the POSTed login
      form authenticates, None when the form does not validate. */
  datatype Request = Request(
    httpMethod: string,
    path: string,
    query: set<string>,
    loginUser: Option<AccountUser>,
    user: User,
    cmsEdit: bool,
    languageCode: string)

  /** The project settings the toolbar consults: USE_I18N and LANGUAGE_CODE. */
  datatype Settings = Settings(useI18n: bool, languageCode: string)

  const LogoutMarker: string := "cms-toolbar-logout"
  const LoginMarker: string := "cms-toolbar-login"

  /** The toolbar's derived state as contributors see it when they are asked
      for their items. */
  datatype RequestContext = RequestContext(
    isStaff: bool,
    editMode: bool,
    showToolbar: bool,
    viewName: string,
    language: string,
    request: Request)

  /** A registered contributor, instantiated for `key` and asked to insert its
      items: given the context, the items so far and whether it is the active
      one, it returns the items it appends. */
  type InsertItems<!Item> = (string, RequestContext, seq<Item>, bool) -> seq<Item>

  /** Dictionary keys are pairwise distinct. */
  predicate Distinct(keys: seq<string>)
  {
    forall i, j :: 0 <= i < j < |keys| ==> keys[i] != keys[j]
  }

  /** The keys of the pool's dictionary, in iteration order. */
  type Registry = keys: seq<string> | Distinct(keys) witness []

  /** The toolbar pool: the registered keys in dictionary iteration order, and
      what the contributor registered under each key appends. */
  datatype ToolbarPool<!Item> = ToolbarPool(keys: Registry, insert: InsertItems<Item>)

  /** One call of a contributor's `insert_items`: its key and its `is_active` flag. */
  datatype Invocation = Invocation(key: string, isActive: bool)

  /** The HTTP response the request hook may return. */
  datatype Response = Redirect(location: string)

  /** The toolbar's login form: unbound until a login is POSTed, then bound to
      the submitted data, carrying the account it authenticates (None: the form
      has errors). */
  datatype LoginForm = Unbound | Bound(user: Option<AccountUser>)

  /** The module path of the view the URL resolver finds for `path`, or "" when
      it raises Resolver404 (`resolve` returns None). */
  function ViewName(resolve: string -> Option<string>, path: string): string
  {
    match resolve(path)
    case Some(m) => m
    case None => ""
  }

  /** The request after the framework's logout: the user is anonymous and the
      session, with its `cms_edit` flag, is flushed. */
  function LoggedOut(r: Request): (r': Request)
    ensures !IsStaff(r'.user) && !r'.cmsEdit
    ensures r'.path == r.path && r'.httpMethod == r.httpMethod && r'.query == r.query
  {
    r.(user := AnonymousUser, cmsEdit := false)
  }

  /** The request after the framework's login of account `u`: the user is `u`.
      The session keeps its data when it had no user (a session with no user
      gets a new key) or already belonged to `u`; a session of a different
      account is flushed, `cms_edit` with it. */
  function LoggedIn(r: Request, u: AccountUser): (r': Request)
    ensures r'.user == u
    ensures r'.cmsEdit <==> r.cmsEdit && (r.user == AnonymousUser || r.user.id == u.id)
    ensures r'.path == r.path && r'.httpMethod == r.httpMethod && r'.query == r.query
  {
    var sameSession := r.user.AnonymousUser? || r.user.id == u.id;
    r.(user := u, cmsEdit := sameSession && r.cmsEdit)
  }

  /** Logging in again as the account already logged in changes nothing more. */
  lemma LoginIdempotent(r: Request, u: AccountUser)
    ensures LoggedIn(LoggedIn(r, u), u) == LoggedIn(r, u)
  {
  }

  /** Logging out undoes a login: it ends in the same state as logging out
      straight away. */
  lemma LogoutAfterLogin(r: Request, u: AccountUser)
    ensures LoggedOut(LoggedIn(r, u)) == LoggedOut(r)
  {
  }

  // ---------------------------------------------------------------------------
  // App-key selection
  // ---------------------------------------------------------------------------

  /** `".".join(key.split(".")[:-2])`: all but the last two dotted segments of
      the key, or "" when the key has at most two segments. */
  function AppName(key: string): (name: string)
    ensures |Split(key, '.')| <= 2 ==> name == ""
  {
    var parts := Split(key, '.');
    Join(parts[..if |parts| >= 2 then |parts| - 2 else 0], '.')
  }

  /** A key with more than two segments is its app name, a dot, and its last two
      segments. */
  lemma AppNameIsLeadingSegments(key: string)
    requires |Split(key, '.')| > 2
    ensures var parts := Split(key, '.');
            key == AppName(key) + "." + parts[|parts| - 2] + "." + parts[|parts| - 1]
  {
    var parts := Split(key, '.');
    JoinSplit(key, '.');
    JoinLastTwo(parts, '.');
  }

  /** The app name's own segments are exactly the key's segments but the last two. */
  lemma AppNameSegments(key: string)
    requires |Split(key, '.')| > 2
    ensures var parts := Split(key, '.');
            Split(AppName(key), '.') == parts[..|parts| - 2]
  {
    var parts := Split(key, '.');
    var lead := parts[..|parts| - 2];
    assert forall i :: 0 <= i < |lead| ==> lead[i] == parts[i];
    SplitJoin(lead, '.');
  }

  /** The app name is always a prefix of its key. */
  lemma AppNameIsPrefix(key: string)
    ensures AppName(key) <= key
  {
    if |Split(key, '.')| > 2 {
      AppNameIsLeadingSegments(key);
    }
  }

  /** The app name of `p.x.y`, for segments `x` and `y` without a dot, is `p`
      whatever `p` is. */
  lemma AppNameOfKey(p: string, x: string, y: string)
    requires '.' !in x && '.' !in y
    ensures AppName(p + "." + x + "." + y) == p
  {
    SplitConcat(x, y, '.');
    SplitWithoutSep(x, '.');
    SplitWithoutSep(y, '.');
    assert p + "." + x + "." + y == p + "." + (x + "." + y);
    SplitConcat(p, x + "." + y, '.');
    var parts := Split(p, '.') + [x, y];
    assert parts[..|parts| - 2] == Split(p, '.');
    JoinSplit(p, '.');
  }

  /** A key qualifies for a view when its app name occurs in the view's module
      path (a substring test, not a prefix test). */
  predicate Qualifies(key: string, viewName: string)
  {
    IsSubstring(AppName(key), viewName)
  }

  /** A key with at most two segments has the empty app name, which occurs in
      every view name, the empty one included. */
  lemma ShortKeyQualifies(key: string, viewName: string)
    requires |Split(key, '.')| <= 2
    ensures Qualifies(key, viewName)
  {
    EmptyIsSubstring(viewName);
  }

  /** A view whose module path starts with a key's app name (a view of that
      application's package) qualifies the key. */
  lemma ViewInAppQualifies(key: string, viewName: string)
    requires AppName(key) <= viewName
    ensures Qualifies(key, viewName)
  {
    PrefixIsSubstring(AppName(key), viewName);
  }

  /** When the URL does not resolve, the view name is "", and exactly the keys
      whose app name is empty qualify. */
  lemma EmptyViewQualifies(key: string)
    ensures Qualifies(key, "") <==> AppName(key) == ""
  {
    SubstringOfEmpty(AppName(key));
  }

  /** The `app_key` the selection loop ends with: scanning the keys in order, a
      key replaces the current choice when it qualifies and is strictly longer. */
  function AppKey(keys: seq<string>, viewName: string): string
    decreases |keys|
  {
    if keys == [] then ""
    else
      var prev := AppKey(keys[..|keys| - 1], viewName);
      var key := keys[|keys| - 1];
      if Qualifies(key, viewName) && |key| > |prev| then key else prev
  }

  /** No qualifying key is longer than `r`. */
  predicate LongestQualifying(keys: seq<string>, viewName: string, r: string)
  {
    forall j :: 0 <= j < |keys| && Qualifies(keys[j], viewName) ==> |keys[j]| <= |r|
  }

  /** `r` is "" or a qualifying key such that every qualifying key before it is
      strictly shorter. */
  predicate EarliestOfItsLength(keys: seq<string>, viewName: string, r: string)
  {
    r == "" ||
    exists i :: 0 <= i < |keys| && keys[i] == r && Qualifies(r, viewName) &&
      forall j :: 0 <= j < i && Qualifies(keys[j], viewName) ==> |keys[j]| < |r|
  }

  /** The selection described independently of the loop: the earliest of the
      longest qualifying keys, or "" when no non-empty key qualifies. */
  predicate IsAppKey(keys: seq<string>, viewName: string, r: string)
  {
    LongestQualifying(keys, viewName, r) && EarliestOfItsLength(keys, viewName, r)
  }

  /** The selected key is "" or a registered key; a non-empty selection
      qualifies; and no qualifying key is longer than the selection. */
  lemma {:induction false} AppKeyIsLongestQualifying(keys: seq<string>, viewName: string)
    ensures var r := AppKey(keys, viewName);
            && (r == "" || r in keys)
            && (r != "" ==> Qualifies(r, viewName))
            && LongestQualifying(keys, viewName, r)
    decreases |keys|
  {
    if keys != [] {
      var init := keys[..|keys| - 1];
      AppKeyIsLongestQualifying(init, viewName);
      assert keys == init + [keys[|keys| - 1]];
    }
  }

  /** A qualifying key longer than every qualifying key before it is the
      earliest of its length. */
  lemma EarliestWhenReplaced(init: seq<string>, key: string, viewName: string, prev: string)
    requires LongestQualifying(init, viewName, prev)
    requires Qualifies(key, viewName) && |key| > |prev|
    ensures EarliestOfItsLength(init + [key], viewName, key)
  {
    var keys := init + [key];
    forall j | 0 <= j < |init| && Qualifies(keys[j], viewName)
      ensures |keys[j]| < |key|
    {
      assert keys[j] == init[j];
    }
    assert keys[|init|] == key;
  }

  /** Appending a key keeps an earliest key of its length the earliest. */
  lemma EarliestWhenKept(init: seq<string>, key: string, viewName: string, prev: string)
    requires EarliestOfItsLength(init, viewName, prev)
    ensures EarliestOfItsLength(init + [key], viewName, prev)
  {
    if prev != "" {
      var keys := init + [key];
      var i :| 0 <= i < |init| && init[i] == prev && Qualifies(prev, viewName) &&
        forall j :: 0 <= j < i && Qualifies(init[j], viewName) ==> |init[j]| < |prev|;
      forall j | 0 <= j < i && Qualifies(keys[j], viewName)
        ensures |keys[j]| < |prev|
      {
        assert keys[j] == init[j];
      }
      assert keys[i] == prev;
    }
  }

  /** Among the qualifying keys of the selected key's length, the selected one
      comes first: ties go to the earliest key, as the comparison is strict. */
  lemma {:induction false} AppKeyIsEarliest(keys: seq<string>, viewName: string)
    ensures EarliestOfItsLength(keys, viewName, AppKey(keys, viewName))
    decreases |keys|
  {
    if keys != [] {
      var init, key := keys[..|keys| - 1], keys[|keys| - 1];
      var prev := AppKey(init, viewName);
      assert keys == init + [key];
      if Qualifies(key, viewName) && |key| > |prev| {
        AppKeyIsLongestQualifying(init, viewName);
        EarliestWhenReplaced(init, key, viewName, prev);
      } else {
        AppKeyIsEarliest(init, viewName);
        EarliestWhenKept(init, key, viewName, prev);
      }
    }
  }

  /** The loop's result is the earliest of the longest qualifying keys. */
  lemma AppKeyIsEarliestLongest(keys: seq<string>, viewName: string)
    ensures IsAppKey(keys, viewName, AppKey(keys, viewName))
  {
    AppKeyIsLongestQualifying(keys, viewName);
    AppKeyIsEarliest(keys, viewName);
  }

  /** IsAppKey determines the key: anything that satisfies it is the loop's result. */
  lemma AppKeyUnique(keys: seq<string>, viewName: string, r1: string, r2: string)
    requires IsAppKey(keys, viewName, r1) && IsAppKey(keys, viewName, r2)
    ensures r1 == r2
  {
    if r1 != "" && r2 != "" {
      var i1 :| 0 <= i1 < |keys| && keys[i1] == r1 && Qualifies(r1, viewName) &&
        forall j :: 0 <= j < i1 && Qualifies(keys[j], viewName) ==> |keys[j]| < |r1|;
      var i2 :| 0 <= i2 < |keys| && keys[i2] == r2 && Qualifies(r2, viewName) &&
        forall j :: 0 <= j < i2 && Qualifies(keys[j], viewName) ==> |keys[j]| < |r2|;
      assert i1 == i2;
    }
  }

  /** A non-empty qualifying key strictly longer than every other qualifying
      key is the one selected. */
  lemma StrictlyLongestWins(keys: seq<string>, viewName: string, j: nat)
    requires j < |keys| && keys[j] != "" && Qualifies(keys[j], viewName)
    requires forall i :: 0 <= i < |keys| && i != j && Qualifies(keys[i], viewName) ==> |keys[i]| < |keys[j]|
    ensures AppKey(keys, viewName) == keys[j]
  {
    AppKeyIsEarliestLongest(keys, viewName);
    assert IsAppKey(keys, viewName, keys[j]);
    AppKeyUnique(keys, viewName, AppKey(keys, viewName), keys[j]);
  }

  /** A more specific application beats the application it is nested in:
      when `p.s` occurs in the view name, the key `p.s.x.y` is selected over
      `p.x.y` (for instance `a.b.c.views.toolbar` over `a.b.views.toolbar` for
      the view module `a.b.c.views.index`). */
  lemma MoreSpecificKeyWins(p: string, s: string, x: string, y: string, viewName: string)
    requires '.' !in x && '.' !in y
    requires IsSubstring(p + "." + s, viewName)
    ensures var general, specific := p + "." + x + "." + y, p + "." + s + "." + x + "." + y;
            AppKey([general, specific], viewName) == specific
  {
    var general, specific := p + "." + x + "." + y, p + "." + s + "." + x + "." + y;
    AppNameOfKey(p + "." + s, x, y);
    StrictlyLongestWins([general, specific], viewName, 1);
  }

  /** Of two distinct qualifying keys of the same length, the later one is
      never selected. */
  lemma TieGoesToEarlier(keys: seq<string>, viewName: string, i: nat, j: nat)
    requires Distinct(keys)
    requires i < j < |keys| && Qualifies(keys[i], viewName) && Qualifies(keys[j], viewName)
    requires |keys[i]| == |keys[j]|
    ensures AppKey(keys, viewName) != keys[j]
  {
    AppKeyIsEarliest(keys, viewName);
  }

  /** No key is selected exactly when every qualifying key is the literal "":
      an empty key is never chosen (its length does not exceed 0). */
  lemma AppKeyEmptyIff(keys: seq<string>, viewName: string)
    ensures AppKey(keys, viewName) == "" <==>
            forall j :: 0 <= j < |keys| && Qualifies(keys[j], viewName) ==> keys[j] == ""
  {
    AppKeyIsLongestQualifying(keys, viewName);
  }

  /** A non-empty key with at most two segments makes some key active for every
      view name, including the "" of an unresolved URL. */
  lemma ShortKeyAlwaysSelects(keys: seq<string>, viewName: string, j: nat)
    requires j < |keys| && keys[j] != "" && |Split(keys[j], '.')| <= 2
    ensures AppKey(keys, viewName) != ""
  {
    ShortKeyQualifies(keys[j], viewName);
    AppKeyIsLongestQualifying(keys, viewName);
  }

  /** The first loop of `_get_items`: scans the registry keys in order and
      keeps a key when its app name occurs in the view name and it is longer
      than the key kept so far. */
  method SelectAppKey(keys: seq<string>, viewName: string) returns (appKey: string)
    ensures appKey == AppKey(keys, viewName)
  {
    appKey := "";
    for i := 0 to |keys|
      invariant appKey == AppKey(keys[..i], viewName)
    {
      var key := keys[i];
      assert keys[..i + 1][..i] == keys[..i];
      var appName := AppName(key);
      if IsSubstring(appName, viewName) && |key| > |appKey| {
        appKey := key;
      }
    }
    assert keys[..|keys|] == keys;
  }

  // ---------------------------------------------------------------------------
  // Contributor invocation
  // ---------------------------------------------------------------------------

  /** The item list after the contributors of `keys` have been asked in order,
      starting from the empty list: each sees the items of those before it and
      its own `key == appKey` flag, and its items are appended. */
  function Assemble<Item>(keys: seq<string>, appKey: string, ctx: RequestContext, insert: InsertItems<Item>): seq<Item>
    decreases |keys|
  {
    if keys == [] then []
    else
      var prev := Assemble(keys[..|keys| - 1], appKey, ctx, insert);
      var key := keys[|keys| - 1];
      prev + insert(key, ctx, prev, key == appKey)
  }

  /** The `insert_items` calls made for `keys`, in order: one per key, with its
      `is_active` flag. */
  function Invocations(keys: seq<string>, appKey: string): seq<Invocation>
    decreases |keys|
  {
    if keys == [] then []
    else
      var key := keys[|keys| - 1];
      Invocations(keys[..|keys| - 1], appKey) + [Invocation(key, key == appKey)]
  }

  /** Every registered contributor is called exactly once, in registry order,
      and told it is active exactly when its key is the app key. */
  lemma {:induction false} InvocationsInOrder(keys: seq<string>, appKey: string)
    ensures |Invocations(keys, appKey)| == |keys|
    ensures forall j :: 0 <= j < |keys| ==>
              Invocations(keys, appKey)[j] == Invocation(keys[j], keys[j] == appKey)
    decreases |keys|
  {
    if keys != [] {
      var init := keys[..|keys| - 1];
      InvocationsInOrder(init, appKey);
      assert forall j :: 0 <= j < |init| ==> init[j] == keys[j];
    }
  }

  /** With distinct registry keys at most one contributor is told it is active;
      one is exactly when a key was selected or "" is itself registered. */
  lemma OneActiveContributor(keys: seq<string>, viewName: string)
    requires Distinct(keys)
    ensures var calls := Invocations(keys, AppKey(keys, viewName));
            forall i, j :: 0 <= i < |calls| && 0 <= j < |calls| && calls[i].isActive && calls[j].isActive ==> i == j
    ensures var calls := Invocations(keys, AppKey(keys, viewName));
            (exists i :: 0 <= i < |calls| && calls[i].isActive) <==> (AppKey(keys, viewName) != "" || "" in keys)
  {
    var appKey := AppKey(keys, viewName);
    InvocationsInOrder(keys, appKey);
    AppKeyIsLongestQualifying(keys, viewName);
  }

  /** A registered empty key is never the one the loop picks, yet when no
      non-empty key qualifies its contributor is the one told it is active, since
      its key equals the initial, unchanged `app_key`. */
  lemma EmptyKeyActiveWhenNoneQualifies(keys: seq<string>, viewName: string, j: nat)
    requires j < |keys| && keys[j] == ""
    requires forall i :: 0 <= i < |keys| && Qualifies(keys[i], viewName) ==> keys[i] == ""
    ensures |Invocations(keys, AppKey(keys, viewName))| == |keys|
    ensures Invocations(keys, AppKey(keys, viewName))[j].isActive
  {
    AppKeyEmptyIff(keys, viewName);
    InvocationsInOrder(keys, AppKey(keys, viewName));
  }

  /** Contributors only append: the items after the first `i` contributors are
      a prefix of the final list. */
  lemma {:induction false} AssembleExtends<Item>(keys: seq<string>, appKey: string, ctx: RequestContext,
                                                 insert: InsertItems<Item>, i: nat)
    requires i <= |keys|
    ensures Assemble(keys[..i], appKey, ctx, insert) <= Assemble(keys, appKey, ctx, insert)
    decreases |keys|
  {
    if i < |keys| {
      var init := keys[..|keys| - 1];
      assert init[..i] == keys[..i];
      AssembleExtends(init, appKey, ctx, insert, i);
    } else {
      assert keys[..i] == keys;
    }
  }

  // ---------------------------------------------------------------------------
  // The toolbar object
  // ---------------------------------------------------------------------------

  /** The toolbar built for one request. `pool`, `settings` and `resolve` are the
      process-wide toolbar pool, project settings and URL resolver it consults. */
  class CMSToolbar<Item> {
    var request: Request
    const pool: ToolbarPool<Item>
    const settings: Settings
    const resolve: string -> Option<string>
    var loginForm: LoginForm
    var isStaff: bool
    var editMode: bool
    var showToolbar: bool
    var viewName: string
    var language: string
    var items: seq<Item>

    /** What a contributor is shown of the toolbar. */
    function Context(): RequestContext
      reads this`isStaff, this`editMode, this`showToolbar, this`viewName, this`language, this`request
    {
      RequestContext(isStaff, editMode, showToolbar, viewName, language, request)
    }

    /** The flags, view name and language are those `init` derives from
        request `r`: staff and edit flags, the resolved view, and the language by
        priority (the staff user's settings record, else the request language
        under i18n, else the default). */
    ghost predicate FlagsFrom(r: Request)
      reads this`isStaff, this`editMode, this`showToolbar, this`viewName, this`language
    {
      && isStaff == IsStaff(r.user)
      && editMode == (isStaff && r.cmsEdit)
      && showToolbar == (r.cmsEdit || isStaff)
      && viewName == ViewName(resolve, r.path)
      && language == (if isStaff && SettingsLanguage(r.user).Some? then SettingsLanguage(r.user).value
                      else if settings.useI18n then r.languageCode
                      else settings.languageCode)
    }

    /** Every field `init` sets is what it derives from request `r`; the items
        are the contributors' items for the app key selected for the view. */
    ghost predicate DerivedFrom(r: Request)
      reads this
    {
      && FlagsFrom(r)
      && items == Assemble(pool.keys, AppKey(pool.keys, viewName), Context(), pool.insert)
    }

    /** None of the derived fields has changed since the pre-state. */
    twostate predicate DerivedUnchanged()
      reads this
    {
      && isStaff == old(isStaff) && editMode == old(editMode) && showToolbar == old(showToolbar)
      && viewName == old(viewName) && language == old(language) && items == old(items)
    }

    constructor (request: Request, pool: ToolbarPool<Item>, settings: Settings, resolve: string -> Option<string>)
      ensures this.request == request && this.pool == pool
      ensures this.settings == settings && this.resolve == resolve
      ensures loginForm == Unbound
      ensures DerivedFrom(request)
    {
      this.request := request;
      this.pool := pool;
      this.settings := settings;
      this.resolve := resolve;
      loginForm := Unbound;
      new;
      Init();
    }

    /** Derives the flags, view name, language and items from the request. */
    method Init()
      modifies this
      ensures request == old(request) && loginForm == old(loginForm)
      ensures DerivedFrom(request)
      ensures editMode ==> showToolbar
    {
      var staff := IsStaff(request.user);
      var edit := staff && request.cmsEdit;
      var show := request.cmsEdit || staff;
      var view := ViewName(resolve, request.path);
      var lang := if settings.useI18n then request.languageCode else settings.languageCode;
      var userLanguage := SettingsLanguage(request.user);
      if staff && userLanguage.Some? {
        lang := userLanguage.value;
      }
      isStaff, editMode, showToolbar, viewName, language := staff, edit, show, view, lang;
      assert FlagsFrom(request);
      ghost var calls;
      items, calls := GetItems();
    }

    /** Selects the app key for the current view, then asks every registered
        contributor, in registry order, to append to one shared list. `calls`
        records each `insert_items` call with its `is_active` flag. */
    method GetItems() returns (items: seq<Item>, ghost calls: seq<Invocation>)
      ensures items == Assemble(pool.keys, AppKey(pool.keys, viewName), Context(), pool.insert)
      ensures calls == Invocations(pool.keys, AppKey(pool.keys, viewName))
    {
      var toolbars := pool.keys;
      items := [];
      var appKey := SelectAppKey(toolbars, viewName);
      var ctx := Context();
      calls := [];
      for i := 0 to |toolbars|
        invariant items == Assemble(toolbars[..i], appKey, ctx, pool.insert)
        invariant calls == Invocations(toolbars[..i], appKey)
      {
        var key := toolbars[i];
        assert toolbars[..i + 1][..i] == toolbars[..i];
        var isActive := key == appKey;
        items := items + pool.insert(key, ctx, items, isActive);
        calls := calls + [Invocation(key, isActive)];
      }
      assert toolbars[..|toolbars|] == toolbars;
    }

    /** Handles the toolbar's own login and logout submissions. A non-POST
        request carrying the logout marker logs out and redirects to the same
        path, without re-deriving the toolbar. A POST carrying the login marker
        binds the login form to the submitted data; when it validates, the
        account is logged in, the toolbar is re-derived and the response
        redirects to the same path. Every other request changes nothing. */
    method RequestHook() returns (response: Option<Response>)
      modifies this
      ensures var r := old(request);
        if r.httpMethod != "POST" then
          && loginForm == old(loginForm) && DerivedUnchanged()
          && (if LogoutMarker in r.query then response == Some(Redirect(r.path)) && request == LoggedOut(r)
              else response == None && request == r)
        else if LoginMarker in r.query then
          && loginForm == Bound(r.loginUser)
          && (if r.loginUser.Some? then
                response == Some(Redirect(r.path)) && request == LoggedIn(r, r.loginUser.value) && DerivedFrom(request)
              else response == None && request == r && DerivedUnchanged())
        else
          response == None && request == r && loginForm == old(loginForm) && DerivedUnchanged()
    {
      if request.httpMethod != "POST" {
        response := RequestHookGet();
      } else {
        response := RequestHookPost();
      }
    }

    /** The logout branch of the request hook. */
    method RequestHookGet() returns (response: Option<Response>)
      modifies this`request
      ensures var r := old(request);
        if LogoutMarker in r.query then response == Some(Redirect(r.path)) && request == LoggedOut(r)
        else response == None && request == r
    {
      if LogoutMarker in request.query {
        request := LoggedOut(request);
        response := Some(Redirect(request.path));
      } else {
        response := None;
      }
    }

    /** The login branch of the request hook. */
    method RequestHookPost() returns (response: Option<Response>)
      modifies this
      ensures var r := old(request);
        if LoginMarker in r.query then
          && loginForm == Bound(r.loginUser)
          && (if r.loginUser.Some? then
                response == Some(Redirect(r.path)) && request == LoggedIn(r, r.loginUser.value) && DerivedFrom(request)
              else response == None && request == r && DerivedUnchanged())
        else
          response == None && request == r && loginForm == old(loginForm) && DerivedUnchanged()
    {
      response := None;
      if LoginMarker in request.query {
        loginForm := Bound(request.loginUser);
        if loginForm.user.Some? {
          request := LoggedIn(request, loginForm.user.value);
          Init();
          response := Some(Redirect(request.path));
        }
      }
    }
  }
}
