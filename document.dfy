/** The text of the page written for one entry (py.py lines 85-95): a YAML
    front matter with the title, then the citation, the two links, the
    author line in italics and the abstract, separated by blank lines. */
module Documents {
  import opened Wrappers
  import opened Builtins
  import opened Records
  import opened AuthorLines
  import opened Citation
  import opened Dates
  import opened FileNames

  /** A line break. */
  const NL := "\n"

  /** The fixed start of the front matter: three lines. */
  const Header := "---" + NL + "usemathjax: true" + NL + "layout: publication" + NL

  /** The page text of an entry: its cleaned title, citation, DOI link, arXiv
      link, author line (at most ten names, otherwise the first three) and
      abstract, laid out by `Page`. */
  function Document(r: Record): string {
    Page(Clean(r.title), Reference(r), Doi(r), ArXiv(r), Authors(r, 10), r.abstractText)
  }

  /** The lines of the page, for parts without line breaks. */
  function PageLines(title: string, ref: string, doi: string, arx: string, names: string, abs: string): seq<string> {
    ["---", "usemathjax: true", "layout: publication", "title: " + title, "---", "",
     ref, "", doi, "", arx, "", "_" + names + "_", "", "", abs, "", ""]
  }

  /** The page built from its parts, in the order `py.py` appends them. */
  function Page(title: string, ref: string, doi: string, arx: string, names: string, abs: string): string {
    Header + "title: " + title + "\n---\n\n"
    + (ref + "\n\n")
    + (doi + "\n\n")
    + (arx + "\n\n")
    + ("_" + names + "_\n\n\n")
    + (abs + "\n\n")
  }

  /** The front matter as lines. */
  function FrontLines(title: string): seq<string> {
    ["---", "usemathjax: true", "layout: publication", "title: " + title, "---", ""]
  }

  /** Six lines joined, with a final line break. */
  lemma JoinSix(a: string, b: string, c: string, d: string, e: string, f: string)
    ensures Join([a, b, c, d, e, f], NL) + NL
      == (a + NL + b + NL + c + NL) + d + (NL + e + NL + f + NL)
  {
    var xs := [a, b, c, d, e, f];
    assert xs == [a] + ([b] + ([c] + ([d] + ([e] + [f]))));
    JoinCons(e, [f], NL);
    JoinCons(d, [e] + [f], NL);
    JoinCons(c, [d] + ([e] + [f]), NL);
    JoinCons(b, [c] + ([d] + ([e] + [f])), NL);
    JoinCons(a, [b] + ([c] + ([d] + ([e] + [f]))), NL);
  }

  lemma FrontIsJoin(title: string)
    ensures Header + "title: " + title + "\n---\n\n" == Join(FrontLines(title), NL) + NL
  {
    assert "\n---\n\n" == NL + "---" + NL + "" + NL;
    assert Header + "title: " + title + "\n---\n\n" == Header + ("title: " + title) + "\n---\n\n";
    JoinSix("---", "usemathjax: true", "layout: publication", "title: " + title, "---", "");
  }

  /** `x` followed by a blank line is the two lines `x` and `""`. */
  lemma ParagraphIsJoin(x: string)
    ensures x + "\n\n" == Join([x, ""], NL) + NL
  {
    assert [x, ""][1..] == [""];
  }

  /** `x` followed by two blank lines is the lines `x`, `""` and `""`. */
  lemma LongParagraphIsJoin(x: string)
    ensures x + "\n\n" == Join([x, "", ""], NL)
    ensures x + "\n\n\n" == Join([x, "", ""], NL) + NL
  {
    assert [x, "", ""][1..] == ["", ""];
    assert ["", ""][1..] == [""];
  }

  /** Adding a block of lines that ends in a line break. */
  lemma AppendBlock(text: string, xs: seq<string>, block: string, ys: seq<string>)
    requires xs != [] && ys != []
    requires text == Join(xs, NL) + NL && block == Join(ys, NL) + NL
    ensures text + block == Join(xs + ys, NL) + NL
  {
    JoinAppend(xs, ys, NL);
  }

  /** The page is its lines joined with line breaks. */
  lemma PageIsJoin(title: string, ref: string, doi: string, arx: string, names: string, abs: string)
    ensures Page(title, ref, doi, arx, names, abs) == Join(PageLines(title, ref, doi, arx, names, abs), NL)
  {
    var f := FrontLines(title);
    var b1, b2, b3 := [ref, ""], [doi, ""], [arx, ""];
    var b4, b5 := ["_" + names + "_", "", ""], [abs, "", ""];
    var front := Header + "title: " + title + "\n---\n\n";
    var p1, p2, p3 := ref + "\n\n", doi + "\n\n", arx + "\n\n";
    var p4, p5 := "_" + names + "_\n\n\n", abs + "\n\n";
    FrontIsJoin(title);
    ParagraphIsJoin(ref);
    ParagraphIsJoin(doi);
    ParagraphIsJoin(arx);
    LongParagraphIsJoin("_" + names + "_");
    assert p4 == ("_" + names + "_") + "\n\n\n";
    LongParagraphIsJoin(abs);
    AppendBlock(front, f, p1, b1);
    AppendBlock(front + p1, f + b1, p2, b2);
    AppendBlock(front + p1 + p2, f + b1 + b2, p3, b3);
    AppendBlock(front + p1 + p2 + p3, f + b1 + b2 + b3, p4, b4);
    JoinAppend(f + b1 + b2 + b3 + b4, b5, NL);
    PageLinesBlocks(title, ref, doi, arx, names, abs);
  }

  lemma PageLinesBlocks(title: string, ref: string, doi: string, arx: string, names: string, abs: string)
    ensures PageLines(title, ref, doi, arx, names, abs)
      == FrontLines(title) + [ref, ""] + [doi, ""] + [arx, ""] + ["_" + names + "_", "", ""] + [abs, "", ""]
  {
  }

  /** The lines of a page whose parts have no line breaks. */
  lemma PageLinesSplit(title: string, ref: string, doi: string, arx: string, names: string, abs: string)
    requires '\n' !in title && '\n' !in ref && '\n' !in doi && '\n' !in arx && '\n' !in names && '\n' !in abs
    ensures Split(Page(title, ref, doi, arx, names, abs), NL) == PageLines(title, ref, doi, arx, names, abs)
  {
    PageIsJoin(title, ref, doi, arx, names, abs);
    var ls := PageLines(title, ref, doi, arx, names, abs);
    forall k | 0 <= k < |ls| ensures '\n' !in ls[k] {
    }
    JoinSplit(ls, '\n');
  }

  /** The page of an entry: its lines are the front matter with the cleaned
      title, the citation, the DOI link, the arXiv link, the author line in
      italics and the abstract, each followed by a blank line, and one more
      blank line after the author line. */
  lemma DocumentLines(r: Record)
    requires '\n' !in Clean(r.title) && '\n' !in Reference(r) && '\n' !in Doi(r)
    requires '\n' !in ArXiv(r) && '\n' !in Authors(r, 10) && '\n' !in r.abstractText
    ensures Split(Document(r), NL)
      == PageLines(Clean(r.title), Reference(r), Doi(r), ArXiv(r), Authors(r, 10), r.abstractText)
  {
    PageLinesSplit(Clean(r.title), Reference(r), Doi(r), ArXiv(r), Authors(r, 10), r.abstractText);
  }

  /** A file the script writes: its name under `./out/` and its text. */
  datatype OutputFile = OutputFile(name: string, text: string)

  /** The page text of one entry, built step by step as the script does. */
  method PageText(r: Record) returns (text: string)
    ensures text == Document(r)
  {
    text := Header + "title: " + Clean(r.title) + "\n---\n\n";
    text := text + (Reference(r) + "\n\n");
    text := text + (Doi(r) + "\n\n");
    text := text + (ArXiv(r) + "\n\n");
    text := text + ("_" + Authors(r, 10) + "_\n\n\n");
    text := text + (r.abstractText + "\n\n");
  }

  /** `file` is what the script writes for entry `r`. */
  predicate WrittenFor(r: Record, file: OutputFile) {
    FileNameOf(r) == Ok(file.name) && file.text == Document(r)
  }

  /** A relation that holds element by element keeps holding when one more
      related pair is added. */
  lemma PairwiseSnoc<A, B>(xs: seq<A>, ys: seq<B>, y: B, rel: (A, B) -> bool)
    requires |ys| < |xs|
    requires forall k :: 0 <= k < |ys| ==> rel(xs[k], ys[k])
    requires rel(xs[|ys|], y)
    ensures forall k :: 0 <= k < |ys| + 1 ==> rel(xs[k], (ys + [y])[k])
  {
  }

  /** What a run over `rows` leaves behind: the files written, in order, one
      per entry; and either no error, when every entry was written, or the
      date-key error of the first entry that was not. */
  predicate PublishOutcome(rows: seq<Record>, files: seq<OutputFile>, failure: Option<DateError>) {
    && |files| <= |rows|
    && (forall k :: 0 <= k < |files| ==> WrittenFor(rows[k], files[k]))
    && (failure.None? ==> |files| == |rows|)
    && (failure.Some? ==> |files| < |rows| && FileNameOf(rows[|files|]) == Err(failure.value))
  }

  /** The loop over the (already sorted) entries: each gets its file name and
      page text, in order. The first entry whose date key fails stops the
      script with that error; the files before it have been written. */
  method Publish(rows: seq<Record>) returns (files: seq<OutputFile>, failure: Option<DateError>)
    ensures PublishOutcome(rows, files, failure)
  {
    files := [];
    failure := None;
    var i := 0;
    while i < |rows|
      invariant 0 <= i <= |rows| && |files| == i
      invariant forall k :: 0 <= k < i ==> WrittenFor(rows[k], files[k])
      decreases |rows| - i
    {
      var fname := FileName(rows[i]);
      if fname.Err? {
        failure := Some(fname.error);
        return;
      }
      var text := PageText(rows[i]);
      var file := OutputFile(fname.value, text);
      assert WrittenFor(rows[i], file);
      PairwiseSnoc(rows, files, file, WrittenFor);
      files := files + [file];
      i := i + 1;
    }
  }

  /** A run is determined by its input: two runs over the same entries write
      the same files and end the same way. */
  lemma PublishDeterministic(rows: seq<Record>, files1: seq<OutputFile>, failure1: Option<DateError>,
                             files2: seq<OutputFile>, failure2: Option<DateError>)
    requires PublishOutcome(rows, files1, failure1) && PublishOutcome(rows, files2, failure2)
    ensures files1 == files2 && failure1 == failure2
  {
    if |files1| < |files2| {
      assert false;
    }
    if |files2| < |files1| {
      assert false;
    }
    forall k | 0 <= k < |files1| ensures files1[k] == files2[k] {
      assert WrittenFor(rows[k], files1[k]) && WrittenFor(rows[k], files2[k]);
    }
  }
}
