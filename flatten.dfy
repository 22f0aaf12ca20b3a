/** py.py `flatten(list, sep)`: a hand-written join that adds the separator
    after every element that is not EQUAL to the last element, so an earlier
    copy of the last element gets no separator either. */
module Flattening {
  import opened Builtins

  /** What the loop appends for one element. */
  function Piece(x: string, last: string, sep: string): string {
    if x != last then x + sep else x
  }

  /** The pieces of `xs` one after the other, when `last` is the list's last
      element. */
  function Glue(xs: seq<string>, last: string, sep: string): string
    decreases |xs|
  {
    if |xs| == 0 then "" else Piece(xs[0], last, sep) + Glue(xs[1..], last, sep)
  }

  /** The value `flatten(xs, sep)` returns. */
  function Flattened(xs: seq<string>, sep: string): string {
    if |xs| == 0 then "" else Glue(xs, xs[|xs| - 1], sep)
  }

  /** Gluing one more element appends its piece. */
  lemma {:induction false} GlueSnoc(xs: seq<string>, x: string, last: string, sep: string)
    ensures Glue(xs + [x], last, sep) == Glue(xs, last, sep) + Piece(x, last, sep)
    decreases |xs|
  {
    if |xs| == 0 {
      assert [x][1..] == [];
    } else {
      assert (xs + [x])[1..] == xs[1..] + [x];
      GlueSnoc(xs[1..], x, last, sep);
    }
  }

  /** The loop of `flatten`: `list[-1]` is only read inside the loop, so an
      empty list gives `""`. */
  method Flatten(xs: seq<string>, sep: string) returns (text: string)
    ensures text == Flattened(xs, sep)
  {
    text := "";
    for i := 0 to |xs|
      invariant xs == [] ==> text == ""
      invariant xs != [] ==> text == Glue(xs[..i], xs[|xs| - 1], sep)
    {
      GlueSnoc(xs[..i], xs[i], xs[|xs| - 1], sep);
      assert xs[..i + 1] == xs[..i] + [xs[i]];
      text := text + xs[i];
      if xs[i] != xs[|xs| - 1] {
        text := text + sep;
      }
    }
    assert xs[..|xs|] == xs;
  }

  /** No element before the last is equal to the last. */
  predicate LastIsUnique(xs: seq<string>) {
    forall k :: 0 <= k < |xs| - 1 ==> xs[k] != xs[|xs| - 1]
  }

  /** Total length of the elements. */
  function TotalLength(xs: seq<string>): nat
    decreases |xs|
  {
    if |xs| == 0 then 0 else |xs[0]| + TotalLength(xs[1..])
  }

  /** Total length of the separators the loop adds: one per element that
      differs from `last`. */
  function SeparatorLength(xs: seq<string>, last: string, sep: string): nat
    decreases |xs|
  {
    if |xs| == 0 then 0 else (if xs[0] != last then |sep| else 0) + SeparatorLength(xs[1..], last, sep)
  }

  lemma {:induction false} TotalLengthSnoc(xs: seq<string>, x: string)
    ensures TotalLength(xs + [x]) == TotalLength(xs) + |x|
    decreases |xs|
  {
    if |xs| == 0 {
      assert [x][1..] == [];
    } else {
      assert (xs + [x])[1..] == xs[1..] + [x];
      TotalLengthSnoc(xs[1..], x);
    }
  }

  /** The total length of `m` separators, that is `m * |sep|`. */
  function SeparatorsLength(m: nat, sep: string): nat {
    if m == 0 then 0 else SeparatorsLength(m - 1, sep) + |sep|
  }

  lemma {:induction false} GlueLength(xs: seq<string>, last: string, sep: string)
    ensures |Glue(xs, last, sep)| == TotalLength(xs) + SeparatorLength(xs, last, sep)
    decreases |xs|
  {
    if |xs| > 0 {
      GlueLength(xs[1..], last, sep);
    }
  }

  lemma {:induction false} JoinLength(xs: seq<string>, sep: string)
    requires xs != []
    ensures |Join(xs, sep)| == TotalLength(xs) + SeparatorsLength(|xs| - 1, sep)
    decreases |xs|
  {
    if |xs| > 1 {
      JoinLength(xs[1..], sep);
    } else {
      assert xs[1..] == [];
    }
  }

  /** An element equal to `last` means a separator fewer than elements. */
  lemma {:induction false} SeparatorBound(xs: seq<string>, last: string, sep: string, k: nat)
    ensures SeparatorLength(xs, last, sep) <= SeparatorsLength(|xs|, sep)
    ensures k < |xs| && xs[k] == last && sep != "" ==> SeparatorLength(xs, last, sep) < SeparatorsLength(|xs|, sep)
    decreases |xs|
  {
    if |xs| > 0 {
      SeparatorBound(xs[1..], last, sep, if k > 0 then k - 1 else 0);
    }
  }

  /** When no element equals `last`, every element is followed by a
      separator. */
  lemma {:induction false} GlueAllSeparated(xs: seq<string>, last: string, sep: string)
    requires xs != []
    requires forall k :: 0 <= k < |xs| ==> xs[k] != last
    ensures Glue(xs, last, sep) == Join(xs, sep) + sep
    decreases |xs|
  {
    if |xs| == 1 {
      assert xs[1..] == [];
    } else {
      GlueAllSeparated(xs[1..], last, sep);
    }
  }

  /** `flatten` agrees with `sep.join` exactly when the separator is empty or
      no element before the last equals the last; in particular it is `""` on
      the empty list. */
  lemma FlattenedIsJoin(xs: seq<string>, sep: string)
    ensures Flattened([], sep) == ""
    ensures Flattened(xs, sep) == Join(xs, sep) <==> sep == "" || LastIsUnique(xs)
  {
    if xs != [] {
      var n := |xs|;
      var last := xs[n - 1];
      var init := xs[..n - 1];
      assert init + [last] == xs;
      GlueSnoc(init, last, last, sep);
      assert Flattened(xs, sep) == Glue(init, last, sep) + last;
      if LastIsUnique(xs) && n > 1 {
        GlueAllSeparated(init, last, sep);
        JoinSnoc(init, last, sep);
      }
      if n > 1 && !LastIsUnique(xs) {
        var k :| 0 <= k < n - 1 && xs[k] == last;
        if sep != "" {
          GlueLength(init, last, sep);
          JoinLength(xs, sep);
          SeparatorBound(init, last, sep, k);
          TotalLengthSnoc(init, last);
          assert |Flattened(xs, sep)| < |Join(xs, sep)|;
        } else {
          GlueEmptySep(xs, last);
        }
      }
    }
  }

  /** With an empty separator the loop only concatenates. */
  lemma {:induction false} GlueEmptySep(xs: seq<string>, last: string)
    ensures Glue(xs, last, "") == Join(xs, "")
    decreases |xs|
  {
    if |xs| > 1 {
      GlueEmptySep(xs[1..], last);
    } else if |xs| == 1 {
      assert xs[1..] == [];
    }
  }

  /** The quirk: a repeated last element loses its separator. */
  lemma FlattenedRepeatedLast()
    ensures Flattened(["a", "b", "a"], " ") == "ab a"
    ensures Join(["a", "b", "a"], " ") == "a b a"
  {
    var xs := ["a", "b", "a"];
    assert xs[..2] == ["a", "b"];
    assert xs[..2][..1] == ["a"];
    assert ["a"][..0] == [];
    assert Glue(["a"], "a", " ") == "a";
    assert Glue(["a", "b"], "a", " ") == "a" + "b ";
    assert Glue(xs, "a", " ") == "a" + "b " + "a";
    assert xs[1..] == ["b", "a"];
    assert xs[1..][1..] == ["a"];
  }

  /** What the loop does to three elements. */
  lemma FlattenedThree(a: string, b: string, c: string, sep: string)
    ensures Flattened([a, b, c], sep) == Piece(a, c, sep) + Piece(b, c, sep) + c
  {
    var xs := [a, b, c];
    assert xs[1..] == [b, c] && xs[1..][1..] == [c] && [c][1..] == [];
    assert Glue([c], c, sep) == c;
    assert Glue([b, c], c, sep) == Piece(b, c, sep) + c;
  }

  /** Three elements whose last also comes first: the first copy gets no
      separator. */
  lemma FlattenedRepeatedFirst(a: string, b: string, sep: string)
    requires a != b
    ensures Flattened([a, b, a], sep) == a + b + sep + a
  {
    FlattenedThree(a, b, a, sep);
    assert Piece(a, a, sep) == a;
    assert Piece(b, a, sep) == b + sep;
  }

  /** Three elements with an empty one in the middle: two separators meet. */
  lemma FlattenedEmptyMiddle(a: string, c: string, sep: string)
    requires a != c && c != ""
    ensures Flattened([a, "", c], sep) == a + sep + sep + c
  {
    FlattenedThree(a, "", c, sep);
    assert Piece(a, c, sep) == a + sep;
    assert Piece("", c, sep) == sep;
  }

  /** Every character of the result is a character of the separator or of
      some element. */
  lemma {:induction false} GlueChars(xs: seq<string>, last: string, sep: string, c: char)
    requires c in Glue(xs, last, sep)
    ensures c in sep || exists k :: 0 <= k < |xs| && c in xs[k]
    decreases |xs|
  {
    if c in Piece(xs[0], last, sep) {
      assert c in xs[0] || c in sep;
    } else {
      GlueChars(xs[1..], last, sep, c);
      if c !in sep {
        var k :| 0 <= k < |xs[1..]| && c in xs[1..][k];
        assert xs[k + 1] == xs[1..][k];
      }
    }
  }

  lemma FlattenedChars(xs: seq<string>, sep: string, c: char)
    requires c in Flattened(xs, sep)
    ensures c in sep || exists k :: 0 <= k < |xs| && c in xs[k]
  {
    GlueChars(xs, xs[|xs| - 1], sep, c);
  }
}
