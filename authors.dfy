/** The author list of an entry (py.py `author_list`) and the author line
    built from it (py.py `authors`). */
module AuthorLines {
  import opened Wrappers
  import opened Builtins
  import opened Records
  import opened Flattening

  /** The separator between authors in a BibTeX author field. */
  const AndSep := " and "

  /** The suffix of a cut-off author line. */
  const EtAl := ", _et al._"

  /** One `"Last, First"` piece as a display name: split on commas, reverse
      the parts, flatten them with a blank and strip the result. */
  function DisplayName(piece: string): string {
    Strip(Flattened(Reversed(Split(piece, ",")), " "))
  }

  /** The pieces of a cleaned author field. */
  function AuthorPieces(author: Option<string>): seq<string> {
    Split(Clean(author), AndSep)
  }

  /** The display names of `pieces`, in order. */
  function DisplayNames(pieces: seq<string>): (names: seq<string>)
    ensures |names| == |pieces|
  {
    Map(DisplayName, pieces)
  }

  /** Name `k` is the display name of piece `k`. */
  lemma DisplayNamesAt(pieces: seq<string>)
    ensures forall k :: 0 <= k < |pieces| ==> DisplayNames(pieces)[k] == DisplayName(pieces[k])
  {
    MapAt(DisplayName, pieces);
  }

  /** The list `author_list(row)` returns. */
  function AuthorNames(author: Option<string>): seq<string> {
    DisplayNames(AuthorPieces(author))
  }

  /** The body of the loop in `author_list`: split the piece on commas,
      reverse the parts in place (modelled as the list's new value), flatten
      them with a blank and strip. */
  method FixName(each: string) returns (display: string)
    ensures display == DisplayName(each)
  {
    var name := Split(each, ",");
    name := Reversed(name);
    var flat := Flatten(name, " ");
    display := Strip(flat);
  }

  /** `author_list(row)`: one display name per `" and "`-separated piece. */
  method AuthorList(r: Record) returns (fixedList: seq<string>)
    ensures fixedList == AuthorNames(r.author)
  {
    var list := Split(Clean(r.author), AndSep);
    fixedList := [];
    for i := 0 to |list|
      invariant fixedList == DisplayNames(list[..i])
    {
      var display := FixName(list[i]);
      MapPrefix(DisplayName, list, i);
      fixedList := fixedList + [display];
    }
    assert list[..|list|] == list;
  }

  /** One name per `" and "`-separated piece of the cleaned field, in the
      order of the field; at least one, and the pieces joined back with
      `" and "` are the cleaned field. */
  lemma AuthorNamesInOrder(author: Option<string>)
    ensures |AuthorNames(author)| == |AuthorPieces(author)| >= 1
    ensures forall k :: 0 <= k < |AuthorPieces(author)| ==>
      AuthorNames(author)[k] == DisplayName(AuthorPieces(author)[k])
    ensures Join(AuthorPieces(author), AndSep) == Clean(author)
  {
    SplitJoin(Clean(author), AndSep);
    DisplayNamesAt(AuthorPieces(author));
  }

  /** A missing or empty author field gives one empty name, not an empty
      list. */
  lemma AuthorNamesOfNothing()
    ensures AuthorNames(None) == [""]
    ensures AuthorNames(Some("")) == [""]
    ensures AuthorNames(Some("{}")) == [""]
  {
    assert Clean(Some("{}")) == "";
    assert Split("", AndSep) == [""];
    assert Split("", ",") == [""];
    assert Reversed([""]) == [""];
    assert Flattened([""], " ") == "";
    StripNoEdges("");
  }

  /** `"Last, First"` becomes `"First Last"` when neither part has a comma or
      whitespace at its ends. */
  lemma DisplayNameLastFirst(last: string, first: string)
    requires last != "" && first != ""
    requires ',' !in last && ',' !in first
    requires !IsSpace(last[0]) && !IsSpace(last[|last| - 1])
    requires !IsSpace(first[0]) && !IsSpace(first[|first| - 1])
    ensures DisplayName(last + ", " + first) == first + " " + last
  {
    var given := " " + first;
    assert last + ", " + first == last + [','] + given;
    SplitWithout(given, ',');
    SplitAtFirst(last, ',', given);
    var parts := [last, given];
    assert Split(last + ", " + first, ",") == parts;
    var rev := Reversed(parts);
    assert rev == [given, last];
    assert given != last by { assert given[0] == ' '; }
    assert rev[1..] == [last];
    assert [last][1..] == [];
    assert Glue([last], last, " ") == last;
    assert Flattened(rev, " ") == given + " " + last;
    var name := first + " " + last;
    assert given + " " + last == " " + name;
    StripBlankThen(name);
  }

  /** Splits at a multi-character separator whose first occurrence is right
      after `a`. */
  lemma {:induction false} SplitAtSep(a: string, sep: string, b: string)
    requires sep != ""
    requires forall i: nat :: i < |a| ==> !SepAt(a + sep + b, sep, i)
    ensures Split(a + sep + b, sep) == [a] + Split(b, sep)
    decreases |a|
  {
    var s := a + sep + b;
    if a == [] {
      assert s[..|sep|] == sep;
      assert s[|sep|..] == b;
    } else {
      assert !SepAt(s, sep, 0);
      assert s[1..] == a[1..] + sep + b;
      forall i: nat | i < |a[1..]| ensures !SepAt(s[1..], sep, i) {
        assert !SepAt(s, sep, i + 1);
        if i + |sep| <= |s[1..]| {
          assert s[i + 1..i + 1 + |sep|] == s[1..][i..i + |sep|];
        }
      }
      SplitAtSep(a[1..], sep, b);
      assert [a[0]] + a[1..] == a;
    }
  }

  /** A name part as a typical author field has it: not empty, and without
      commas, braces or whitespace. */
  predicate PlainWord(w: string) {
    && w != ""
    && forall k :: 0 <= k < |w| ==> w[k] != ',' && w[k] != '{' && w[k] != '}' && !IsSpace(w[k])
  }

  /** The entry `last, first`. */
  function Entry(last: string, first: string): string {
    last + ", " + first
  }

  /** The only whitespace in an entry of plain words is the blank after its
      comma, and it has no braces. */
  lemma EntryChars(last: string, first: string)
    requires PlainWord(last) && PlainWord(first)
    ensures var e := Entry(last, first);
      forall k :: 0 <= k < |e| ==>
        && e[k] != '{' && e[k] != '}'
        && (IsSpace(e[k]) <==> k == |last| + 1)
        && (k > |last| + 1 ==> e[k] == first[k - |last| - 2])
  {
    var e := Entry(last, first);
    forall k | 0 <= k < |e|
      ensures e[k] != '{' && e[k] != '}'
      ensures IsSpace(e[k]) <==> k == |last| + 1
      ensures k > |last| + 1 ==> e[k] == first[k - |last| - 2]
    {
      if k < |last| {
        assert e[k] == last[k];
      } else if k > |last| + 1 {
        assert e[k] == first[k - |last| - 2];
      }
    }
  }

  /** `" and "` does not occur in an entry of plain words. */
  lemma EntryNoSep(last: string, first: string)
    requires PlainWord(last) && PlainWord(first)
    ensures NoSep(Entry(last, first), AndSep)
  {
    var e := Entry(last, first);
    EntryChars(last, first);
    forall i: nat | i <= |e| ensures !SepAt(e, AndSep, i) {
      if i + 5 <= |e| {
        assert e[i..i + 5][0] == e[i] && e[i..i + 5][4] == e[i + 4];
      }
    }
  }

  /** After an entry whose first name is not `"and"`, the first `" and "` is
      the one that follows the entry. */
  lemma EntryThenSep(last: string, first: string, rest: string)
    requires PlainWord(last) && PlainWord(first) && first != "and"
    ensures forall i: nat :: i < |Entry(last, first)| ==>
      !SepAt(Entry(last, first) + AndSep + rest, AndSep, i)
  {
    var e := Entry(last, first);
    var s := e + AndSep + rest;
    EntryChars(last, first);
    forall i: nat | i < |e| ensures !SepAt(s, AndSep, i) {
      var w := s[i..i + 5];
      assert w[0] == s[i] == e[i];
      if i != |last| + 1 {
        assert w[0] != AndSep[0];
      } else if i + 4 < |e| {
        assert w[4] == s[i + 4] == e[i + 4];
        assert w[4] != AndSep[4];
      } else if i + 4 > |e| {
        assert w[4] == AndSep[i + 4 - |e|];
        assert w[4] != AndSep[4];
      } else {
        assert w[1..4] == first by {
          forall k | 0 <= k < 3 ensures w[1..4][k] == first[k] {
            assert w[1..4][k] == w[1 + k] == s[i + 1 + k];
            assert s[i + 1 + k] == e[i + 1 + k];
          }
        }
        assert AndSep[1..4] == "and";
        assert w[1..4] != AndSep[1..4];
      }
    }
  }

  /** An author field of two entries of plain words gives the two names
      first-name-first, in order. The one exception is a first name `"and"`
      in the first entry, which `" and "` would split at. */
  lemma AuthorNamesTwo(last1: string, first1: string, last2: string, first2: string)
    requires PlainWord(last1) && PlainWord(first1) && PlainWord(last2) && PlainWord(first2)
    requires first1 != "and"
    ensures AuthorNames(Some(Entry(last1, first1) + AndSep + Entry(last2, first2)))
      == [first1 + " " + last1, first2 + " " + last2]
  {
    var p1 := Entry(last1, first1);
    var p2 := Entry(last2, first2);
    AuthorPiecesTwo(last1, first1, last2, first2);
    DisplayNamesPair(p1, p2);
    DisplayNameLastFirst(last1, first1);
    DisplayNameLastFirst(last2, first2);
  }

  /** Example: two authors, in order, first names first. */
  lemma AuthorNamesExample(field: string)
    requires field == "Smith, John and Doe, Jane"
    ensures AuthorNames(Some(field)) == ["John Smith", "Jane Doe"]
  {
    assert field == Entry("Smith", "John") + AndSep + Entry("Doe", "Jane");
    assert "John" + " " + "Smith" == "John Smith";
    assert "Jane" + " " + "Doe" == "Jane Doe";
    AuthorNamesTwo("Smith", "John", "Doe", "Jane");
  }

  lemma AuthorPiecesTwo(last1: string, first1: string, last2: string, first2: string)
    requires PlainWord(last1) && PlainWord(first1) && PlainWord(last2) && PlainWord(first2)
    requires first1 != "and"
    ensures AuthorPieces(Some(Entry(last1, first1) + AndSep + Entry(last2, first2)))
      == [Entry(last1, first1), Entry(last2, first2)]
  {
    SplitTwo(last1, first1, last2, first2);
    CleanTwo(last1, first1, last2, first2);
  }

  lemma SplitTwo(last1: string, first1: string, last2: string, first2: string)
    requires PlainWord(last1) && PlainWord(first1) && PlainWord(last2) && PlainWord(first2)
    requires first1 != "and"
    ensures Split(Entry(last1, first1) + AndSep + Entry(last2, first2), AndSep)
      == [Entry(last1, first1), Entry(last2, first2)]
  {
    var p1 := Entry(last1, first1);
    var p2 := Entry(last2, first2);
    EntryThenSep(last1, first1, p2);
    SplitAtSep(p1, AndSep, p2);
    EntryNoSep(last2, first2);
    SplitWithoutSep(p2, AndSep);
  }

  lemma CleanTwo(last1: string, first1: string, last2: string, first2: string)
    requires PlainWord(last1) && PlainWord(first1) && PlainWord(last2) && PlainWord(first2)
    ensures var s := Entry(last1, first1) + AndSep + Entry(last2, first2);
      Clean(Some(s)) == s
  {
    var p1 := Entry(last1, first1);
    var p2 := Entry(last2, first2);
    EntryChars(last1, first1);
    EntryChars(last2, first2);
    assert '{' !in p1 && '}' !in p1 && '{' !in p2 && '}' !in p2;
    assert '{' !in p1 + AndSep + p2 && '}' !in p1 + AndSep + p2;
  }

  lemma DisplayNamesPair(a: string, b: string)
    ensures DisplayNames([a, b]) == [DisplayName(a), DisplayName(b)]
  {
    DisplayNamesAt([a, b]);
  }

  /** Where Python's `al[:k]` stops, for any integer `k`. */
  function SliceEnd(len: nat, k: int): (e: nat)
    ensures e <= len
  {
    if k >= len then len else if k >= 0 then k else if len + k >= 0 then len + k else 0
  }

  /** The author line of a list of names: all of them when there are at most
      `max`, otherwise the first `etal` names and `", _et al._"`. */
  function AuthorLine(al: seq<string>, max: int, etal: int): string {
    if |al| <= max then Flattened(al, ", ")
    else Flattened(al[..SliceEnd(|al|, etal)], ", ") + EtAl
  }

  /** `authors(row, max, etal)`. */
  function Authors(r: Record, max: int := 10, etal: int := 3): string {
    AuthorLine(AuthorNames(r.author), max, etal)
  }

  /** Up to `max` names: no suffix, and with no earlier name equal to the last
      one the line is the names joined with `", "`. */
  lemma AuthorLineFull(al: seq<string>, max: int, etal: int)
    requires |al| <= max
    ensures AuthorLine(al, max, etal) == Flattened(al, ", ")
    ensures LastIsUnique(al) ==> AuthorLine(al, max, etal) == Join(al, ", ")
  {
    FlattenedIsJoin(al, ", ");
  }

  /** More than `max` names: the first `etal` of them (all of them when there
      are fewer) and the et-al suffix. */
  lemma AuthorLineCut(al: seq<string>, max: int, etal: nat)
    requires |al| > max
    ensures var shown := if etal <= |al| then al[..etal] else al;
      && AuthorLine(al, max, etal) == Flattened(shown, ", ") + EtAl
      && (LastIsUnique(shown) ==> AuthorLine(al, max, etal) == Join(shown, ", ") + EtAl)
  {
    var shown := if etal <= |al| then al[..etal] else al;
    assert al[..SliceEnd(|al|, etal)] == shown;
    FlattenedIsJoin(shown, ", ");
  }

  /** A negative `etal` counts from the end, as Python slices do: all names
      but the last `-etal`, and none at all when `-etal` exceeds their
      number, which leaves only the suffix. */
  lemma AuthorLineNegative(al: seq<string>, max: int, etal: int)
    requires |al| > max && etal < 0
    ensures -|al| <= etal ==> AuthorLine(al, max, etal) == Flattened(al[..|al| + etal], ", ") + EtAl
    ensures etal < -|al| ==> AuthorLine(al, max, etal) == EtAl
  {
    if etal < -|al| {
      assert al[..SliceEnd(|al|, etal)] == [];
    }
  }

  /** Example: five authors, at most three in full, two shown. */
  lemma AuthorLineFiveCutToTwo(al: seq<string>)
    requires |al| == 5 && al[0] != al[1]
    ensures AuthorLine(al, 3, 2) == al[0] + ", " + al[1] + EtAl
  {
    AuthorLineCut(al, 3, 2);
    var shown := al[..2];
    assert shown[1..] == [al[1]];
    assert Join(shown, ", ") == al[0] + ", " + al[1];
  }
}
