/** The Python built-ins the formatter relies on, over `string` (a sequence of
    characters): `str.isspace`, `str.strip()`, `str.replace(c, '')`,
    `str.split(sep)`, `sep.join(xs)` and `list.reverse()`. */
module Builtins {

  /** Python's `str.isspace()` on one character: the Unicode characters of
      bidirectional class WS, B or S, or of category Zs. */
  predicate IsSpace(c: char) {
    || ('\t' <= c <= '\r')
    || ('\U{1C}' <= c <= '\U{1F}')
    || c == ' ' || c == '\U{85}' || c == '\U{A0}' || c == '\U{1680}'
    || ('\U{2000}' <= c <= '\U{200A}')
    || c == '\U{2028}' || c == '\U{2029}' || c == '\U{202F}' || c == '\U{205F}' || c == '\U{3000}'
  }

  predicate AllSpace(s: string) {
    forall k :: 0 <= k < |s| ==> IsSpace(s[k])
  }

  /** `s.lstrip()`: `s` without its leading whitespace. */
  function TrimStart(s: string): (r: string)
    ensures |r| <= |s|
    ensures r == "" || !IsSpace(r[0])
    decreases |s|
  {
    if |s| > 0 && IsSpace(s[0]) then TrimStart(s[1..]) else s
  }

  /** `s.rstrip()`: `s` without its trailing whitespace. */
  function TrimEnd(s: string): (r: string)
    ensures |r| <= |s|
    ensures r == "" || !IsSpace(r[|r| - 1])
    ensures r == s[..|r|]
    decreases |s|
  {
    if |s| > 0 && IsSpace(s[|s| - 1]) then TrimEnd(s[..|s| - 1]) else s
  }

  /** `s.strip()`: drop the leading and then the trailing whitespace. */
  function Strip(s: string): (r: string)
    ensures |r| <= |s|
    ensures r == "" || (!IsSpace(r[0]) && !IsSpace(r[|r| - 1]))
  {
    TrimEnd(TrimStart(s))
  }

  /** `r` is `s` with a whitespace-only prefix of length `i` and a
      whitespace-only suffix cut off. */
  predicate Trimmed(s: string, r: string, i: nat) {
    && i + |r| <= |s|
    && s[i..i + |r|] == r
    && AllSpace(s[..i])
    && AllSpace(s[i + |r|..])
  }

  /** TrimStart cuts off a whitespace-only prefix. */
  lemma {:induction false} TrimStartCut(s: string)
    ensures TrimStart(s) == s[|s| - |TrimStart(s)|..]
    ensures AllSpace(s[..|s| - |TrimStart(s)|])
    decreases |s|
  {
    if |s| > 0 && IsSpace(s[0]) {
      TrimStartCut(s[1..]);
      var n := |s| - |TrimStart(s)|;
      assert s[1..][..n - 1] == s[1..n];
    }
  }

  /** TrimEnd cuts off a whitespace-only suffix. */
  lemma {:induction false} TrimEndCut(s: string)
    ensures AllSpace(s[|TrimEnd(s)|..])
    decreases |s|
  {
    if |s| > 0 && IsSpace(s[|s| - 1]) {
      TrimEndCut(s[..|s| - 1]);
      var n := |TrimEnd(s)|;
      assert s[..|s| - 1][n..] == s[n..|s| - 1];
    }
  }

  /** Slices of a slice. */
  lemma SubSlices<T>(s: seq<T>, i: nat, j: nat)
    requires i + j <= |s|
    ensures s[i..][..j] == s[i..i + j] && s[i..][j..] == s[i + j..]
  {
  }

  /** Strip removes whitespace from the two ends of `s` and nothing else. */
  lemma StripIsTrim(s: string)
    ensures exists i :: Trimmed(s, Strip(s), i)
  {
    var t := TrimStart(s);
    var r := TrimEnd(t);
    assert r == Strip(s);
    TrimStartCut(s);
    TrimEndCut(t);
    var i := |s| - |t|;
    assert t == s[i..];
    SubSlices(s, i, |r|);
    assert s[i..i + |r|] == r;
    assert AllSpace(s[..i]);
    assert AllSpace(s[i + |r|..]);
    assert Trimmed(s, r, i);
  }

  /** A string without whitespace at either end is left alone by Strip. */
  lemma StripNoEdges(s: string)
    requires s == "" || (!IsSpace(s[0]) && !IsSpace(s[|s| - 1]))
    ensures Strip(s) == s
  {
  }

  /** Stripping twice is stripping once. */
  lemma StripIdempotent(s: string)
    ensures Strip(Strip(s)) == Strip(s)
  {
    StripNoEdges(Strip(s));
  }

  /** One leading blank before a string with no whitespace at its ends is
      all that Strip removes. */
  lemma StripBlankThen(t: string)
    requires t != "" && !IsSpace(t[0]) && !IsSpace(t[|t| - 1])
    ensures Strip(" " + t) == t
  {
    var s := " " + t;
    assert s[1..] == t;
    assert TrimStart(s) == TrimStart(t) == t;
  }

  /** `s.replace(c, '')`: every occurrence of `c` removed. */
  function RemoveChar(s: string, c: char): (r: string)
    ensures c !in r
    ensures c !in s ==> r == s
    decreases |s|
  {
    if |s| == 0 then []
    else (if s[0] == c then [] else [s[0]]) + RemoveChar(s[1..], c)
  }

  /** Removing `c` keeps every other character, each as often as before. */
  lemma {:induction false} RemoveCharCounts(s: string, c: char)
    ensures multiset(RemoveChar(s, c)) == multiset(s)[c := 0]
    decreases |s|
  {
    if |s| > 0 {
      RemoveCharCounts(s[1..], c);
      assert s == [s[0]] + s[1..];
    }
  }

  /** Removing a character adds no character. */
  lemma RemoveCharSubset(s: string, c: char)
    ensures forall d :: d in RemoveChar(s, c) ==> d in s
  {
    var r := RemoveChar(s, c);
    RemoveCharCounts(s, c);
    forall d | d in r ensures d in s {
      assert multiset(r)[d] > 0;
    }
  }

  /** Removing the one occurrence of a character. */
  lemma {:induction false} RemoveCharOnce(a: string, c: char, b: string)
    requires c !in a && c !in b
    ensures RemoveChar(a + [c] + b, c) == a + b
    decreases |a|
  {
    var s := a + [c] + b;
    if a == [] {
      assert s[1..] == b;
    } else {
      assert s[1..] == a[1..] + [c] + b;
      RemoveCharOnce(a[1..], c, b);
      assert [a[0]] + a[1..] == a;
    }
  }

  /** Removing a character from two strings put together removes it from
      each, so the characters kept stay in their order. */
  lemma {:induction false} RemoveCharAppend(a: string, b: string, c: char)
    ensures RemoveChar(a + b, c) == RemoveChar(a, c) + RemoveChar(b, c)
    decreases |a|
  {
    if a != [] {
      var s := a + b;
      var h: string := if a[0] == c then [] else [a[0]];
      assert s[0] == a[0] && s[1..] == a[1..] + b;
      assert RemoveChar(s, c) == h + RemoveChar(a[1..] + b, c);
      assert RemoveChar(a, c) == h + RemoveChar(a[1..], c);
      RemoveCharAppend(a[1..], b, c);
    } else {
      assert a + b == b;
    }
  }

  /** Removing a character from a one-character string. */
  lemma RemoveCharOne(x: char, c: char)
    ensures RemoveChar([x], c) == if x == c then "" else [x]
  {
    assert [x][1..] == [];
  }

  /** `sep` occurs in `s` at index `i`. */
  predicate SepAt(s: string, sep: string, i: nat) {
    i + |sep| <= |s| && s[i..i + |sep|] == sep
  }

  /** `sep` does not occur anywhere in `s`. */
  predicate NoSep(s: string, sep: string) {
    forall i: nat :: i <= |s| ==> !SepAt(s, sep, i)
  }

  /** `s.split(sep)` for a non-empty separator: cut at the leftmost occurrence
      of `sep`, then go on after it; `""` splits into `[""]`. */
  function Split(s: string, sep: string): (r: seq<string>)
    requires sep != ""
    ensures |r| >= 1
    decreases |s|
  {
    if |s| < |sep| then [s]
    else if s[..|sep|] == sep then [""] + Split(s[|sep|..], sep)
    else
      var t := Split(s[1..], sep);
      [[s[0]] + t[0]] + t[1..]
  }

  /** `sep.join(xs)`. */
  function Join(xs: seq<string>, sep: string): string
    decreases |xs|
  {
    if |xs| == 0 then "" else if |xs| == 1 then xs[0] else xs[0] + sep + Join(xs[1..], sep)
  }

  /** Joining after appending one element. */
  lemma {:induction false} JoinSnoc(xs: seq<string>, x: string, sep: string)
    requires xs != []
    ensures Join(xs + [x], sep) == Join(xs, sep) + sep + x
    decreases |xs|
  {
    if |xs| == 1 {
      assert (xs + [x])[1..] == [x];
    } else {
      assert (xs + [x])[1..] == xs[1..] + [x];
      JoinSnoc(xs[1..], x, sep);
    }
  }

  /** Joining an element in front of a non-empty list. */
  lemma JoinCons(x: string, xs: seq<string>, sep: string)
    requires xs != []
    ensures Join([x] + xs, sep) == x + sep + Join(xs, sep)
  {
    assert ([x] + xs)[1..] == xs;
  }

  /** Joining two non-empty lists puts one separator between their joins. */
  lemma {:induction false} JoinAppend(xs: seq<string>, ys: seq<string>, sep: string)
    requires xs != [] && ys != []
    ensures Join(xs + ys, sep) == Join(xs, sep) + sep + Join(ys, sep)
    decreases |xs|
  {
    if |xs| == 1 {
      assert (xs + ys)[1..] == ys;
    } else {
      assert (xs + ys)[1..] == xs[1..] + ys;
      JoinAppend(xs[1..], ys, sep);
    }
  }

  /** Joining a list whose first element was extended at the front. */
  lemma JoinConsFirst(c: char, t: seq<string>, sep: string)
    requires t != []
    ensures Join([[c] + t[0]] + t[1..], sep) == [c] + Join(t, sep)
  {
    var u := [[c] + t[0]] + t[1..];
    if |t| > 1 {
      assert u[1..] == t[1..];
    }
  }

  /** Splitting loses nothing: joining the pieces with the separator gives
      back the string. */
  lemma {:induction false} SplitJoin(s: string, sep: string)
    requires sep != ""
    ensures Join(Split(s, sep), sep) == s
    decreases |s|
  {
    if |s| < |sep| {
    } else if s[..|sep|] == sep {
      var rest := s[|sep|..];
      var t := Split(rest, sep);
      SplitJoin(rest, sep);
      JoinCons("", t, sep);
      assert s == s[..|sep|] + rest;
      assert "" + sep + rest == s;
    } else {
      var t := Split(s[1..], sep);
      SplitJoin(s[1..], sep);
      JoinConsFirst(s[0], t, sep);
      assert s == [s[0]] + s[1..];
    }
  }

  /** The first piece of a split is a prefix of the string. */
  lemma {:induction false} SplitFirstPrefix(s: string, sep: string)
    requires sep != ""
    ensures Split(s, sep)[0] <= s
    decreases |s|
  {
    if |s| >= |sep| && s[..|sep|] != sep {
      SplitFirstPrefix(s[1..], sep);
      assert s == [s[0]] + s[1..];
    }
  }

  /** No piece of a split contains the separator. */
  lemma {:induction false} SplitNoSep(s: string, sep: string)
    requires sep != ""
    ensures forall k :: 0 <= k < |Split(s, sep)| ==> NoSep(Split(s, sep)[k], sep)
    decreases |s|
  {
    var r := Split(s, sep);
    if |s| < |sep| {
    } else if s[..|sep|] == sep {
      SplitNoSep(s[|sep|..], sep);
      assert forall k :: 1 <= k < |r| ==> r[k] == Split(s[|sep|..], sep)[k - 1];
    } else {
      var t := Split(s[1..], sep);
      SplitNoSep(s[1..], sep);
      SplitFirstPrefix(s[1..], sep);
      var p := [s[0]] + t[0];
      assert r[0] == p;
      if |sep| <= |p| {
        assert p[..|sep|] == s[..|sep|];
      }
      NoSepCons(s[0], t[0], sep);
      assert forall k :: 1 <= k < |r| ==> r[k] == t[k];
    }
  }

  /** A character in front of a piece without the separator adds no
      occurrence unless one starts right there. */
  lemma NoSepCons(c: char, p: string, sep: string)
    requires sep != "" && NoSep(p, sep) && !SepAt([c] + p, sep, 0)
    ensures NoSep([c] + p, sep)
  {
    var q := [c] + p;
    forall i: nat | i <= |q| ensures !SepAt(q, sep, i) {
      if i > 0 && i + |sep| <= |q| {
        assert q[i..i + |sep|] == p[i - 1..i - 1 + |sep|];
        assert !SepAt(p, sep, i - 1);
      }
    }
  }

  /** A string in which the separator does not occur is a single piece. */
  lemma {:induction false} SplitWithoutSep(s: string, sep: string)
    requires sep != "" && NoSep(s, sep)
    ensures Split(s, sep) == [s]
    decreases |s|
  {
    if |s| >= |sep| {
      assert !SepAt(s, sep, 0);
      forall i: nat | i <= |s[1..]| ensures !SepAt(s[1..], sep, i) {
        assert !SepAt(s, sep, i + 1);
        if i + |sep| <= |s[1..]| {
          assert s[1..][i..i + |sep|] == s[i + 1..i + 1 + |sep|];
        }
      }
      SplitWithoutSep(s[1..], sep);
      assert [s[0]] + s[1..] == s;
    }
  }

  /** Every character of a piece of a split is a character of the string. */
  lemma {:induction false} SplitChars(s: string, sep: string, k: nat, c: char)
    requires sep != ""
    requires k < |Split(s, sep)| && c in Split(s, sep)[k]
    ensures c in s
    decreases |s|
  {
    if |s| < |sep| {
    } else if s[..|sep|] == sep {
      if k > 0 {
        SplitChars(s[|sep|..], sep, k - 1, c);
      }
    } else {
      var t := Split(s[1..], sep);
      if k == 0 {
        if c != s[0] {
          SplitChars(s[1..], sep, 0, c);
        }
      } else {
        SplitChars(s[1..], sep, k, c);
      }
    }
  }

  /** A separator of one character missing from a string means that character
      is missing from it. */
  lemma NoSepChar(s: string, c: char)
    requires NoSep(s, [c])
    ensures c !in s
  {
    if c in s {
      var i :| 0 <= i < |s| && s[i] == c;
      assert SepAt(s, [c], i);
    }
  }

  /** Splitting on a one-character separator cuts at its first occurrence. */
  lemma {:induction false} SplitAtFirst(a: string, c: char, b: string)
    requires c !in a
    ensures Split(a + [c] + b, [c]) == [a] + Split(b, [c])
    decreases |a|
  {
    var s := a + [c] + b;
    if a == [] {
      assert s[..1] == [c];
      assert s[1..] == b;
    } else {
      assert s[..1] == [a[0]];
      assert s[1..] == a[1..] + [c] + b;
      SplitAtFirst(a[1..], c, b);
      assert [a[0]] + a[1..] == a;
    }
  }

  /** A string without the separator character is a single piece. */
  lemma {:induction false} SplitWithout(s: string, c: char)
    requires c !in s
    ensures Split(s, [c]) == [s]
    decreases |s|
  {
    if |s| >= 1 {
      assert s[..1] == [s[0]];
      SplitWithout(s[1..], c);
      assert [s[0]] + s[1..] == s;
    }
  }

  /** For a one-character separator, splitting undoes joining when no element
      contains that character. */
  lemma {:induction false} JoinSplit(xs: seq<string>, c: char)
    requires xs != []
    requires forall k :: 0 <= k < |xs| ==> c !in xs[k]
    ensures Split(Join(xs, [c]), [c]) == xs
    decreases |xs|
  {
    if |xs| == 1 {
      SplitWithout(xs[0], c);
    } else {
      JoinSplit(xs[1..], c);
      SplitAtFirst(xs[0], c, Join(xs[1..], [c]));
      assert [xs[0]] + xs[1..] == xs;
    }
  }

  /** `list.reverse()`, as the value the list holds afterwards. */
  function Reversed<T>(xs: seq<T>): (r: seq<T>)
    ensures |r| == |xs|
    ensures forall k :: 0 <= k < |xs| ==> r[k] == xs[|xs| - 1 - k]
    decreases |xs|
  {
    if |xs| == 0 then [] else Reversed(xs[1..]) + [xs[0]]
  }

  /** The list built by appending `f(x)` for each `x` of `xs` in turn, as
      the loop of `author_list` does. */
  function Map<A, B>(f: A -> B, xs: seq<A>): (ys: seq<B>)
    ensures |ys| == |xs|
    decreases |xs|
  {
    if |xs| == 0 then [] else Map(f, xs[..|xs| - 1]) + [f(xs[|xs| - 1])]
  }

  /** Mapping one more element of `xs`. */
  lemma MapPrefix<A, B>(f: A -> B, xs: seq<A>, n: nat)
    requires n < |xs|
    ensures Map(f, xs[..n + 1]) == Map(f, xs[..n]) + [f(xs[n])]
  {
    assert xs[..n + 1][..n] == xs[..n];
  }

  /** Element `k` of the mapped list is `f` of element `k`. */
  lemma {:induction false} MapAt<A, B>(f: A -> B, xs: seq<A>)
    ensures forall k :: 0 <= k < |xs| ==> Map(f, xs)[k] == f(xs[k])
    decreases |xs|
  {
    if |xs| > 0 {
      var init := xs[..|xs| - 1];
      MapAt(f, init);
      assert forall k :: 0 <= k < |init| ==> xs[k] == init[k];
    }
  }
}
