/** The name of the file an entry is written to (py.py `file_name`):
    `YYYY-MM-01-<slug>.md`, where the slug is the cleaned title without
    commas, full stops and slashes, its blank-separated words glued with
    `flatten(.., '_')`. */
module FileNames {
  import opened Wrappers
  import opened Builtins
  import opened Records
  import opened Dates
  import opened Flattening

  /** The cleaned title with every `,`, `.` and `/` removed. */
  function SlugSource(title: Option<string>): (t: string)
    ensures ',' !in t && '.' !in t && '/' !in t && '{' !in t && '}' !in t
  {
    var noComma := RemoveChar(Clean(title), ',');
    var noStop := RemoveChar(noComma, '.');
    var noSlash := RemoveChar(noStop, '/');
    RemoveCharSubset(Clean(title), ',');
    RemoveCharSubset(noComma, '.');
    RemoveCharSubset(noStop, '/');
    noSlash
  }

  /** The words of the title: the pieces of `t.split(' ')`. */
  function Words(title: Option<string>): seq<string> {
    Split(SlugSource(title), " ")
  }

  /** The slug `flatten(l, '_')`. */
  function Slug(title: Option<string>): string {
    Flattened(Words(title), "_")
  }

  /** The value `file_name(row)` returns, or the error `yyyymmdd` raises. */
  function FileNameOf(r: Record): Result<string, DateError> {
    match DateKey(r)
    case Err(e) => Err(e)
    case Ok(d) => Ok(d + "-" + Slug(r.title) + ".md")
  }

  /** An ASCII letter or digit. */
  predicate IsAlnum(c: char) {
    ('a' <= c <= 'z') || ('A' <= c <= 'Z') || ('0' <= c <= '9')
  }

  /** `''.join(e for e in each if e.isalnum())`. */
  function AlnumOnly(s: string): (r: string)
    ensures forall k :: 0 <= k < |r| ==> IsAlnum(r[k])
    decreases |s|
  {
    if |s| == 0 then ""
    else (if IsAlnum(s[0]) then [s[0]] else "") + AlnumOnly(s[1..])
  }

  /** Filtering two words put together filters each, so every letter and
      digit is kept, in order. */
  lemma {:induction false} AlnumOnlyAppend(a: string, b: string)
    ensures AlnumOnly(a + b) == AlnumOnly(a) + AlnumOnly(b)
    decreases |a|
  {
    if a != [] {
      var s := a + b;
      assert s[0] == a[0] && s[1..] == a[1..] + b;
      AlnumOnlyAppend(a[1..], b);
    } else {
      assert a + b == b;
    }
  }

  /** One character is kept exactly when it is a letter or a digit. */
  lemma AlnumOnlyOne(x: char)
    ensures AlnumOnly([x]) == if IsAlnum(x) then [x] else ""
  {
    assert [x][1..] == [];
  }

  /** `file_name(row)`. Its loop over the words only rebinds the loop
      variable, so the filtered word is dropped and the list `l` that is
      flattened is the unfiltered split. */
  method FileName(r: Record) returns (name: Result<string, DateError>)
    ensures name == FileNameOf(r)
  {
    var t := RemoveChar(RemoveChar(RemoveChar(Clean(r.title), ','), '.'), '/');
    var l := Split(t, " ");
    for i := 0 to |l| {
      var each := l[i];
      each := AlnumOnly(each);
    }
    var title := Flatten(l, "_");
    var date := DateKey(r);
    match date {
      case Err(e) => name := Err(e);
      case Ok(d) => name := Ok(d + "-" + title + ".md");
    }
  }

  /** A file name exists exactly when the date key does; it is the date key,
      a dash, the slug and `.md`. */
  lemma FileNameShape(r: Record)
    ensures FileNameOf(r).Ok? <==> DateKey(r).Ok?
    ensures FileNameOf(r).Err? ==> FileNameOf(r).error == DateKey(r).error
    ensures FileNameOf(r).Ok? ==>
      var name := FileNameOf(r).value;
      var d := DateKey(r).value;
      && name[..|d| + 1] == d + "-"
      && name[|name| - 3..] == ".md"
      && name[|d| + 1..|name| - 3] == Slug(r.title)
  {
    if DateKey(r).Ok? {
      NameParts(DateKey(r).value, Slug(r.title));
    }
  }

  /** Where the date key and the slug sit in a file name. */
  lemma NameParts(d: string, slug: string)
    ensures var name := d + "-" + slug + ".md";
      && name[..|d| + 1] == d + "-"
      && name[|name| - 3..] == ".md"
      && name[|d| + 1..|name| - 3] == slug
  {
    var name := d + "-" + slug + ".md";
    assert name == (d + "-") + slug + ".md";
  }

  /** The slug has no comma, full stop, slash, brace or blank: blanks became
      the cut points of the words and the rest were removed. */
  lemma SlugChars(title: Option<string>)
    ensures var s := Slug(title);
      ',' !in s && '.' !in s && '/' !in s && '{' !in s && '}' !in s && ' ' !in s
  {
    var t := SlugSource(title);
    var ws := Words(title);
    SplitNoSep(t, " ");
    forall c | c in Slug(title)
      ensures c != ',' && c != '.' && c != '/' && c != '{' && c != '}' && c != ' '
    {
      FlattenedChars(ws, "_", c);
      if c != '_' {
        var k :| 0 <= k < |ws| && c in ws[k];
        SplitChars(t, " ", k, c);
        NoSepChar(ws[k], ' ');
      }
    }
  }

  /** When the last word occurs only once, the slug is the words joined with
      `_`, and the words joined back with blanks are the cleaned title. */
  lemma SlugJoin(title: Option<string>)
    requires LastIsUnique(Words(title))
    ensures Slug(title) == Join(Words(title), "_")
    ensures Join(Words(title), " ") == SlugSource(title)
  {
    FlattenedIsJoin(Words(title), "_");
    SplitJoin(SlugSource(title), " ");
  }

  /** The words of a title that is plain words separated by single blanks. */
  lemma WordsOfJoin(title: Option<string>, ws: seq<string>)
    requires ws != []
    requires forall k :: 0 <= k < |ws| ==> ' ' !in ws[k]
    requires SlugSource(title) == Join(ws, " ")
    ensures Words(title) == ws
  {
    JoinSplit(ws, ' ');
  }

  /** A word of a title without blanks, braces or the characters the slug
      drops. */
  predicate TitleWord(w: string) {
    && w != ""
    && forall k :: 0 <= k < |w| ==>
      w[k] != ' ' && w[k] != ',' && w[k] != '.' && w[k] != '/' && w[k] != '{' && w[k] != '}'
  }

  lemma TitleWordMisses(w: string)
    requires TitleWord(w)
    ensures ' ' !in w && ',' !in w && '.' !in w && '/' !in w && '{' !in w && '}' !in w
  {
    forall c | c in w ensures c != ' ' && c != ',' && c != '.' && c != '/' && c != '{' && c != '}' {
      var k :| 0 <= k < |w| && w[k] == c;
    }
  }

  /** The cleaning of a title `"w1 w2, w3."`. */
  lemma SentenceSource(w1: string, w2: string, w3: string)
    requires TitleWord(w1) && TitleWord(w2) && TitleWord(w3)
    ensures SlugSource(Some(w1 + " " + w2 + ", " + w3 + ".")) == w1 + " " + w2 + " " + w3
  {
    var t := w1 + " " + w2 + ", " + w3 + ".";
    var plain := w1 + " " + w2 + " " + w3;
    SentenceBraces(w1, w2, w3);
    SentenceComma(w1, w2, w3);
    SentenceStop(w1, w2, w3);
    assert '/' !in plain;
  }

  lemma SentenceBraces(w1: string, w2: string, w3: string)
    requires TitleWord(w1) && TitleWord(w2) && TitleWord(w3)
    ensures var t := w1 + " " + w2 + ", " + w3 + ".";
      Clean(Some(t)) == t
    ensures '/' !in w1 + " " + w2 + " " + w3
  {
    TitleWordMisses(w1);
    TitleWordMisses(w2);
    TitleWordMisses(w3);
    var t := w1 + " " + w2 + ", " + w3 + ".";
    assert '{' !in t && '}' !in t;
  }

  lemma SentenceComma(w1: string, w2: string, w3: string)
    requires TitleWord(w1) && TitleWord(w2) && TitleWord(w3)
    ensures RemoveChar(w1 + " " + w2 + ", " + w3 + ".", ',') == w1 + " " + w2 + " " + w3 + "."
  {
    TitleWordMisses(w1);
    TitleWordMisses(w2);
    TitleWordMisses(w3);
    var head := w1 + " " + w2;
    var rest := " " + w3 + ".";
    assert w1 + " " + w2 + ", " + w3 + "." == head + [','] + rest;
    assert ',' !in head && ',' !in rest;
    RemoveCharOnce(head, ',', rest);
    assert head + rest == w1 + " " + w2 + " " + w3 + ".";
  }

  lemma SentenceStop(w1: string, w2: string, w3: string)
    requires TitleWord(w1) && TitleWord(w2) && TitleWord(w3)
    ensures RemoveChar(w1 + " " + w2 + " " + w3 + ".", '.') == w1 + " " + w2 + " " + w3
  {
    TitleWordMisses(w1);
    TitleWordMisses(w2);
    TitleWordMisses(w3);
    var plain := w1 + " " + w2 + " " + w3;
    assert plain + "." == plain + ['.'] + "";
    assert '.' !in plain;
    RemoveCharOnce(plain, '.', "");
  }

  lemma JoinThree(a: string, b: string, c: string, sep: string)
    ensures Join([a, b, c], sep) == a + sep + b + sep + c
  {
    assert [a, b, c][1..] == [b, c];
    assert [b, c][1..] == [c];
    assert Join([b, c], sep) == b + sep + c;
    assert a + sep + (b + sep + c) == a + sep + b + sep + c;
  }

  /** The slug of a title `"w1 w2, w3."` whose last word differs from the
      other two: the three words joined with `_`. */
  lemma SentenceSlug(w1: string, w2: string, w3: string)
    requires TitleWord(w1) && TitleWord(w2) && TitleWord(w3)
    requires w3 != w1 && w3 != w2
    ensures Slug(Some(w1 + " " + w2 + ", " + w3 + ".")) == w1 + "_" + w2 + "_" + w3
  {
    var ws := [w1, w2, w3];
    JoinThree(w1, w2, w3, " ");
    JoinThree(w1, w2, w3, "_");
    TitleWordMisses(w1);
    TitleWordMisses(w2);
    TitleWordMisses(w3);
    SentenceSource(w1, w2, w3);
    WordsOfJoin(Some(w1 + " " + w2 + ", " + w3 + "."), ws);
    FlattenedIsJoin(ws, "_");
  }

  /** A title that is its words with the given blanks between them is left
      alone by the cleaning. */
  lemma PlainSource(t: string)
    requires ',' !in t && '.' !in t && '/' !in t && '{' !in t && '}' !in t
    ensures SlugSource(Some(t)) == t
  {
  }

  /** The slug of a title that is words joined by single blanks, none of the
      words holding a character the cleaning removes. */
  lemma SlugOfWords(t: string, ws: seq<string>)
    requires ws != [] && t == Join(ws, " ")
    requires forall k :: 0 <= k < |ws| ==> ' ' !in ws[k]
    requires ',' !in t && '.' !in t && '/' !in t && '{' !in t && '}' !in t
    ensures Slug(Some(t)) == Flattened(ws, "_")
  {
    PlainSource(t);
    WordsOfJoin(Some(t), ws);
  }

  /** The quirk of `flatten` in a slug: a title whose last word also comes
      first loses the underscore after that first word, as in
      `"the cat the"` giving `"thecat_the"`. */
  lemma SlugRepeatedWord(w1: string, w2: string)
    requires TitleWord(w1) && TitleWord(w2) && w1 != w2
    ensures Slug(Some(w1 + " " + w2 + " " + w1)) == w1 + w2 + "_" + w1
  {
    TitleWordMisses(w1);
    TitleWordMisses(w2);
    var t := w1 + " " + w2 + " " + w1;
    JoinThree(w1, w2, w1, " ");
    SlugOfWords(t, [w1, w2, w1]);
    FlattenedRepeatedFirst(w1, w2, "_");
  }

  /** Two blanks in a row make an empty word, so the slug gets two
      underscores there. */
  lemma SlugDoubleBlank(w1: string, w2: string)
    requires TitleWord(w1) && TitleWord(w2) && w1 != w2
    ensures Slug(Some(w1 + " " + " " + w2)) == w1 + "_" + "_" + w2
  {
    TitleWordMisses(w1);
    TitleWordMisses(w2);
    var t := w1 + " " + " " + w2;
    JoinThree(w1, "", w2, " ");
    assert w1 + " " + "" + " " + w2 == t;
    SlugOfWords(t, [w1, "", w2]);
    FlattenedEmptyMiddle(w1, w2, "_");
  }

  /** The file name of an entry with a recognised month `m`. */
  lemma FileNameWithMonth(r: Record, m: nat)
    requires r.month.Some? && MonthNumber(r.month.value) == Some(m)
    ensures FileNameOf(r) == Ok(r.year + "-" + TwoDigits(m) + "-01" + "-" + Slug(r.title) + ".md")
  {
    DateKeyWithMonth(r, m);
  }

  /** The slug of an example title. */
  lemma SlugExample()
    ensures Slug(Some("A Test, Paper.")) == "A_Test_Paper"
  {
    assert "A Test, Paper." == "A" + " " + "Test" + ", " + "Paper" + ".";
    assert "A" + "_" + "Test" + "_" + "Paper" == "A_Test_Paper";
    SentenceSlug("A", "Test", "Paper");
  }

  /** Example: `"A Test, Paper."` from March 2022. */
  lemma FileNameExample(r: Record)
    requires r.title == Some("A Test, Paper.") && r.year == "2022" && r.month == Some("Mar")
    ensures FileNameOf(r) == Ok("2022-03-01-A_Test_Paper.md")
  {
    assert "2022" + "-" + "03" + "-01" + "-" + "A_Test_Paper" + ".md" == "2022-03-01-A_Test_Paper.md";
    assert TwoDigits(3) == "03";
    assert IsAbbreviation("Mar", Abbreviations[2]);
    assert MonthNumber("Mar") == Some(3);
    SlugExample();
    FileNameWithMonth(r, 3);
  }
}
