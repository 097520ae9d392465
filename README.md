# CMS toolbar model

A Dafny model of the per-request CMS toolbar (`CMSToolbar` in
`cms/toolbar/toolbar.py`). It covers three parts of the toolbar:

- **Flag and language derivation** (`init`).
  - `is_staff` comes from the user. `edit_mode` is set when a staff user has the session's `cms_edit` flag. `show_toolbar` is set when either holds.
  - The view name is the module of the resolved view, or "" when the URL does not resolve.
  - The language is chosen in this order: the staff user's UserSettings language, then the request language when USE_I18N is on, then LANGUAGE_CODE.
- **Item assembly** (`_get_items`).
  - The app key is selected from the toolbar pool. It is the longest registered key whose *app name* (the key without its last two dotted segments) occurs as a substring of the view name.
  - Every registered contributor is then asked, in registry order, to append its items to one shared list. Each one is told whether its key is the app key.
- **The request hook** (`request_hook`).
  - A non-POST request with `cms-toolbar-logout` logs out and redirects to the same path. The toolbar is not re-derived.
  - A POST request with `cms-toolbar-login` binds the login form. If the form validates, the account is logged in, the toolbar is re-derived, and the response redirects.
  - Every other request changes nothing.

Files:

- `text.dfy` (module `Text`) models the three Python string operations the
  selection uses: `str.split`, `str.join` and the substring test `in`. It
  proves that split and join are inverse to each other.
- `toolbar.dfy` (module `Toolbar`) defines:
  - the request-side datatypes;
  - the app-name and app-key specification functions, with their lemmas;
  - the contributor-invocation functions;
  - the class `CMSToolbar`. Its methods `Init`, `RequestHook`, `RequestHookGet` and `RequestHookPost` update its fields in place, as the Python methods do. `GetItems` changes nothing and returns the items, as `_get_items` does; `Init` assigns them (line 53).
  - The first loop of `_get_items` is its own method, `SelectAppKey`.

The selection is specified independently of the loop by `IsAppKey`: the
earliest of the longest qualifying keys, or "" when no non-empty key
qualifies. The loop's result (`AppKey`) is proved to satisfy `IsAppKey`, and
`IsAppKey` is proved to determine its key uniquely.

### Edge cases of the selection

- **Ties.** Among equally long qualifying keys, the earliest in iteration
  order is kept, because the comparison on line 64 is strict
  (`AppKeyIsEarliest`, `TieGoesToEarlier`).
- **Unresolved views.** When the URL does not resolve, the view name is ""
  (line 41). A key with at most two segments has the app name "", which
  occurs in every string, the empty one included (lines 63-64). So such a key
  still qualifies, and whenever a non-empty key with at most two segments is
  registered, some non-empty key is selected and its contributor is active
  (`EmptyViewQualifies`, `ShortKeyAlwaysSelects`). The selected key need not
  be the short one: a longer qualifying key, short or with an empty app name,
  wins over it.
- **At most one active contributor.** This holds because the pool's keys are
  dictionary keys and hence distinct (the pool's `Registry` type carries
  `Distinct`, which `OneActiveContributor` requires). A registered literal key "" is never selected. It is still
  told it is active when no non-empty key qualifies, because it equals the
  initial app key (`EmptyKeyActiveWhenNoneQualifies`).

## Model

| member | source | states |
|---|---|---|
| Text.Split | cms/toolbar/toolbar.py:63 | `key.split(".")` yields at least one piece, no piece contains the separator, and there is exactly one piece more than there are separators |
| Text.JoinSplit | cms/toolbar/toolbar.py:63 | re-joining the pieces of a split gives back the original string |
| Text.SplitJoin | cms/toolbar/toolbar.py:63 | splitting a join of separator-free pieces gives back exactly those pieces (with JoinSplit: split and join are inverse) |
| Text.SplitWithoutSep | cms/toolbar/toolbar.py:63 | a string without the separator splits into itself alone |
| Text.SplitConcat | cms/toolbar/toolbar.py:63 | splitting `a + "." + b` gives the pieces of `a` followed by the pieces of `b` |
| Text.JoinAppend | cms/toolbar/toolbar.py:63 | joining two non-empty piece lists puts exactly one separator between their joins |
| Text.JoinLastTwo | cms/toolbar/toolbar.py:63 | a join of three or more pieces is the join of all but the last two, then each of the last two after a separator |
| Text.Join | cms/toolbar/toolbar.py:63 | `".".join(parts)`; described by `JoinSplit`, `SplitJoin` (inverse of `Split`) and `JoinAppend` |
| Text.IsSubstring | cms/toolbar/toolbar.py:64 | Python's `a in b` on strings; described by `EmptyIsSubstring`, `SubstringOfEmpty` and `PrefixIsSubstring` |
| Text.EmptyIsSubstring | cms/toolbar/toolbar.py:64 | `"" in s` holds for every string `s` |
| Text.SubstringOfEmpty | cms/toolbar/toolbar.py:64 | only "" occurs in the empty string |
| Text.PrefixIsSubstring | cms/toolbar/toolbar.py:64 | a prefix of a string occurs in it |
| Toolbar.ViewName | cms/toolbar/toolbar.py:38-41 | the resolved view's module path, "" on Resolver404; `EmptyViewQualifies` describes selection for the "" case |
| Toolbar.LoggedOut | cms/toolbar/toolbar.py:79 | after logout the user is not staff and the session's `cms_edit` flag is gone; path, method and query are kept |
| Toolbar.LoggedIn | cms/toolbar/toolbar.py:87 | after login the request's user is the authenticated account; `cms_edit` survives exactly when the session had no user or belonged to the same account (a different account's session is flushed); path, method and query are kept |
| Toolbar.LoginIdempotent | cms/toolbar/toolbar.py:87 | logging the same account in twice ends in the same request state as logging it in once |
| Toolbar.LogoutAfterLogin | cms/toolbar/toolbar.py:79-87 | logging out after a login ends in the same request state as logging out directly |
| Toolbar.AppName | cms/toolbar/toolbar.py:63 | a key with at most two dotted segments has the empty app name |
| Toolbar.AppNameIsLeadingSegments | cms/toolbar/toolbar.py:63 | a key with more than two segments is its app name, a dot, and its last two segments |
| Toolbar.AppNameSegments | cms/toolbar/toolbar.py:63 | the app name's segments are exactly the key's segments without the last two |
| Toolbar.AppNameIsPrefix | cms/toolbar/toolbar.py:63 | the app name is a prefix of its key |
| Toolbar.AppNameOfKey | cms/toolbar/toolbar.py:63 | the app name of `p.x.y`, where `x` and `y` contain no dot, is `p` |
| Toolbar.ViewInAppQualifies | cms/toolbar/toolbar.py:63-64 | a view whose module path starts with the key's app name qualifies the key |
| Toolbar.ShortKeyQualifies | cms/toolbar/toolbar.py:63-64 | a key with at most two segments qualifies for every view name, the empty one included |
| Toolbar.EmptyViewQualifies | cms/toolbar/toolbar.py:64 | for the view name "" of an unresolved URL (line 41), a key qualifies exactly when its app name is empty |
| Toolbar.AppKey | cms/toolbar/toolbar.py:61-65 | the selection loop's result; described by the loop-free `IsAppKey` through `AppKeyIsEarliestLongest` and `AppKeyUnique` |
| Toolbar.AppKeyIsLongestQualifying | cms/toolbar/toolbar.py:61-65 | the selected app key is "" or a registered key; a non-empty selection qualifies; no qualifying key is longer |
| Toolbar.EarliestWhenReplaced | cms/toolbar/toolbar.py:64-65 | a qualifying key longer than every qualifying key before it is the earliest of its length |
| Toolbar.EarliestWhenKept | cms/toolbar/toolbar.py:64-65 | a key that is earliest among the qualifying keys of its length stays so when a key is appended |
| Toolbar.AppKeyIsEarliest | cms/toolbar/toolbar.py:64-65 | every qualifying key before the selected one is strictly shorter than it |
| Toolbar.AppKeyIsEarliestLongest | cms/toolbar/toolbar.py:61-65 | the loop's result satisfies the loop-free definition `IsAppKey`: the earliest of the longest qualifying keys |
| Toolbar.AppKeyUnique | cms/toolbar/toolbar.py:61-65 | at most one string satisfies `IsAppKey`, so that definition determines the app key |
| Toolbar.StrictlyLongestWins | cms/toolbar/toolbar.py:64-65 | a non-empty qualifying key strictly longer than every other qualifying key is selected |
| Toolbar.MoreSpecificKeyWins | cms/toolbar/toolbar.py:62-65 | when `p.s` occurs in the view name, `p.s.x.y` is selected over `p.x.y` |
| Toolbar.TieGoesToEarlier | cms/toolbar/toolbar.py:64-65 | of two distinct qualifying keys of equal length, the later one is never selected |
| Toolbar.AppKeyEmptyIff | cms/toolbar/toolbar.py:61-65 | no key is selected exactly when every qualifying key is "" |
| Toolbar.ShortKeyAlwaysSelects | cms/toolbar/toolbar.py:61-65 | a registered non-empty key with at most two segments means some key is selected for every view name |
| Toolbar.SelectAppKey | cms/toolbar/toolbar.py:59-65 | the selection loop ends with `AppKey` of the registry keys and view name |
| Toolbar.Invocations | cms/toolbar/toolbar.py:66-68 | the `insert_items` calls of the contributor loop; described by `InvocationsInOrder` and `OneActiveContributor` |
| Toolbar.Assemble | cms/toolbar/toolbar.py:60-69 | the shared item list after the contributor loop; described by `AssembleExtends` and computed by `GetItems` |
| Toolbar.InvocationsInOrder | cms/toolbar/toolbar.py:66-68 | there is one `insert_items` call per registered key, in registry order, and its active flag is `key == app_key` |
| Toolbar.OneActiveContributor | cms/toolbar/toolbar.py:66-68 | with distinct keys at most one contributor is told it is active; one is exactly when a key was selected or "" is registered |
| Toolbar.EmptyKeyActiveWhenNoneQualifies | cms/toolbar/toolbar.py:68 | when no non-empty key qualifies, a registered "" key's contributor is told it is active |
| Toolbar.AssembleExtends | cms/toolbar/toolbar.py:60-69 | the items after the first `i` contributors are a prefix of the final list; contributors only append |
| Toolbar.CMSToolbar.GetItems | cms/toolbar/toolbar.py:55-69 | the items are those the contributors append in registry order, starting from the empty list, each told whether it holds the selected app key; the recorded calls are `Invocations` |
| Toolbar.CMSToolbar.Init | cms/toolbar/toolbar.py:34-53 | sets the staff, edit and show flags, the view name and the prioritised language from the request, and the items from them; edit mode implies the toolbar is shown; request and login form are unchanged |
| Toolbar.CMSToolbar.constructor | cms/toolbar/toolbar.py:29-32 | stores the request, leaves the login form unbound and derives every field as `init` does |
| Toolbar.CMSToolbar.RequestHook | cms/toolbar/toolbar.py:71-75 | non-POST with logout marker: logout and redirect to the path, derived fields unchanged; POST with login marker: form bound, and on a valid form login, re-derivation and redirect, otherwise no response; anything else: nothing changes |
| Toolbar.CMSToolbar.RequestHookGet | cms/toolbar/toolbar.py:77-80 | with the logout marker the user is logged out and the response redirects to the same path; otherwise no response and no change |
| Toolbar.CMSToolbar.RequestHookPost | cms/toolbar/toolbar.py:82-89 | with the login marker the form is bound; a valid form logs the account in, re-derives every field from the new request and redirects; an invalid one returns nothing; without the marker nothing changes |

## Left out

- Django authentication is not modelled. `login`, `logout` and `AuthenticationForm` validation (lines 14-21, 79, 85-87) become abstract state changes:
  - the outcome of form validation is the request's `loginUser` (None: the form has errors);
  - logout makes the user anonymous and flushes the session's `cms_edit` flag;
  - login replaces the user with the authenticated account. The session, `cms_edit` included, is kept when it had no user or belonged to the same account, and flushed when it belonged to a different account.
  Session-key rotation, the session's password-hash check and the rest of the session are not modelled.
- URL resolution (line 39) is a function parameter `resolve`. It returns the view's module path, or None where Django raises Resolver404.
- The `UserSettings` ORM lookup (line 48) is the account's optional `settingsLanguage`. None stands for `DoesNotExist`.
- `force_language` (line 52) and the `request.current_page` read (line 51) are not modelled as framework calls. Neither affects the app-key selection or the flags.
  - Contributors run under the language that `force_language` activates, so their items can depend on it. In the model that language reaches every contributor as `RequestContext.language`.
  - The `current_page` read fills the request's page cache, which contributors can read. That cache is not modelled.
- The global `toolbar_pool` and how it is filled are not modelled. Neither is what each contributor's `insert_items` appends. The pool is a list of keys in dictionary order plus one function that gives each contributor's appended items.
- Toolbar.CMSToolbar.GetItems: a contributor sees the toolbar's derived flags, view name, language and request, and the items appended before it. It does not see the toolbar object itself. Contributors only append: a contributor that reorders or removes items of the shared list is not modelled.
- `HttpResponseRedirect` is reduced to its target path (`Redirect(location)`). "No response" is `None`.
- Character encoding is not modelled. Strings are sequences of characters.
