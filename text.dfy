/**
 * The three Python string operations the toolbar's app-key selection is built
 * from: `s.split(sep)`, `sep.join(parts)` and the substring test `a in b`.
 * Split and Join are proved to be inverse to each other, which is what lets the
 * toolbar reason about "all but the last two dotted segments" of a key.
 */
module Text {

  /** Python's `s.split(sep)` for a one-character separator: the pieces between
      the occurrences of `sep`, so there is always one piece more than there are
      separators (`"".split(".") == [""]`). */
  function Split(s: string, sep: char): (parts: seq<string>)
    ensures |parts| >= 1
    ensures forall i :: 0 <= i < |parts| ==> sep !in parts[i]
    ensures |parts| == Occurrences(s, sep) + 1
    decreases |s|
  {
    if s == [] then [""]
    else
      var rest := Split(s[1..], sep);
      if s[0] == sep then [""] + rest
      else [[s[0]] + rest[0]] + rest[1..]
  }

  /** The number of times `c` occurs in `s`. */
  function Occurrences(s: string, c: char): nat
    decreases |s|
  {
    if s == [] then 0 else (if s[0] == c then 1 else 0) + Occurrences(s[1..], c)
  }

  /** Python's `sep.join(parts)`; the join of no pieces is the empty string. */
  function Join(parts: seq<string>, sep: char): string
    decreases |parts|
  {
    if |parts| == 0 then ""
    else if |parts| == 1 then parts[0]
    else parts[0] + [sep] + Join(parts[1..], sep)
  }

  /** Python's `needle in hay` on strings: `needle` occurs somewhere in `hay`. */
  predicate IsSubstring(needle: string, hay: string)
  {
    exists i :: 0 <= i <= |hay| && needle <= hay[i..]
  }

  /** Joining the pieces of a split gives back the original string. */
  lemma {:induction false} JoinSplit(s: string, sep: char)
    ensures Join(Split(s, sep), sep) == s
    decreases |s|
  {
    if s != [] {
      var rest := Split(s[1..], sep);
      JoinSplit(s[1..], sep);
      if s[0] == sep {
        assert ([""] + rest)[1..] == rest;
      } else {
        var parts := [[s[0]] + rest[0]] + rest[1..];
        assert parts[1..] == rest[1..];
        if |rest| > 1 {
          calc {
            Join(parts, sep);
            [s[0]] + rest[0] + [sep] + Join(rest[1..], sep);
            [s[0]] + Join(rest, sep);
          }
        }
      }
    }
  }

  /** A string without the separator splits into itself alone. */
  lemma {:induction false} SplitWithoutSep(a: string, sep: char)
    requires sep !in a
    ensures Split(a, sep) == [a]
    decreases |a|
  {
    if a != [] {
      SplitWithoutSep(a[1..], sep);
      assert [a[0]] + a[1..] == a;
    }
  }

  /** Splitting at one separator splits each side on its own. */
  lemma {:induction false} SplitConcat(a: string, b: string, sep: char)
    ensures Split(a + [sep] + b, sep) == Split(a, sep) + Split(b, sep)
    decreases |a|
  {
    var s := a + [sep] + b;
    if a == [] {
      assert s[1..] == b;
    } else {
      assert s[1..] == a[1..] + [sep] + b;
      SplitConcat(a[1..], b, sep);
    }
  }

  /** Splitting a join of separator-free pieces gives back those pieces: together
      with JoinSplit this makes Split and Join a bijection between strings and
      non-empty lists of separator-free pieces. */
  lemma {:induction false} SplitJoin(parts: seq<string>, sep: char)
    requires |parts| >= 1
    requires forall i :: 0 <= i < |parts| ==> sep !in parts[i]
    ensures Split(Join(parts, sep), sep) == parts
    decreases |parts|
  {
    if |parts| == 1 {
      SplitWithoutSep(parts[0], sep);
    } else {
      SplitJoin(parts[1..], sep);
      SplitWithoutSep(parts[0], sep);
      SplitConcat(parts[0], Join(parts[1..], sep), sep);
      assert [parts[0]] + parts[1..] == parts;
    }
  }

  /** Joining two non-empty lists of pieces puts one separator between the joins. */
  lemma {:induction false} JoinAppend(a: seq<string>, b: seq<string>, sep: char)
    requires |a| >= 1 && |b| >= 1
    ensures Join(a + b, sep) == Join(a, sep) + [sep] + Join(b, sep)
    decreases |a|
  {
    if |a| > 1 {
      assert (a + b)[1..] == a[1..] + b;
      JoinAppend(a[1..], b, sep);
    }
  }

  /** The join of three or more pieces is the join of all but the last two,
      then the last two, each after a separator. */
  lemma JoinLastTwo(parts: seq<string>, sep: char)
    requires |parts| > 2
    ensures var n := |parts|;
            Join(parts, sep) == Join(parts[..n - 2], sep) + [sep] + parts[n - 2] + [sep] + parts[n - 1]
  {
    var n := |parts|;
    var lead, last := parts[..n - 2], parts[n - 2..];
    assert lead + last == parts;
    JoinAppend(lead, last, sep);
    assert last[1..] == [parts[n - 1]];
    var a, b, c := Join(lead, sep), parts[n - 2], parts[n - 1];
    assert Join(last, sep) == b + [sep] + c;
    assert a + [sep] + (b + [sep] + c) == a + [sep] + b + [sep] + c;
  }

  /** The empty string occurs in every string (`"" in s` is always true). */
  lemma EmptyIsSubstring(hay: string)
    ensures IsSubstring("", hay)
  {
    assert "" <= hay[0..];
  }

  /** Only the empty string occurs in the empty string. */
  lemma SubstringOfEmpty(needle: string)
    ensures IsSubstring(needle, "") <==> needle == ""
  {
    if needle == "" {
      EmptyIsSubstring("");
    }
  }

  /** A prefix of a string occurs in it. */
  lemma PrefixIsSubstring(needle: string, hay: string)
    requires needle <= hay
    ensures IsSubstring(needle, hay)
  {
    assert hay[0..] == hay;
  }
}
