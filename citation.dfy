/** The citation line of an entry (py.py `reference`) and its two links
    (py.py `arXiv` and `doi`). */
module Citation {
  import opened Wrappers
  import opened Builtins
  import opened Records

  /** The citation of a published entry: journal, volume in bold, pages and
      the year in parentheses. */
  function Published(journal: string, vol: string, pp: string, year: string): string {
    journal + " **" + vol + "**, " + pp + " (" + year + ")"
  }

  /** The citation of an entry with neither volume and pages nor an eprint:
      the stripped journal and the year, stripped once more. */
  function Unpublished(journal: string, year: string): string {
    Strip(Strip(journal) + " (" + year + ")")
  }

  /** `reference(row)`: the journal with volume and pages when the entry has
      both, else the arXiv identifier, else the journal and the year. The
      volume and the pages are used as they are, without cleaning. */
  function Reference(r: Record): string {
    var journal := Clean(r.journal);
    var arx := Clean(r.eprint);
    if r.volume.Some? && r.pages.Some? then
      Published(journal, r.volume.value, r.pages.value, r.year)
    else if arx != "" then
      ArXivLabel + arx
    else
      Unpublished(journal, r.year)
  }

  /** Where the parts of a published citation sit: the journal first, the
      volume in bold after it, the year in parentheses at the end. */
  lemma PublishedParts(j: string, v: string, pp: string, y: string)
    ensures var c := Published(j, v, pp, y);
      && c[..|j|] == j
      && c[|j|..|j| + 3 + |v|] == " **" + v
      && c[|c| - |y| - 1..] == y + ")"
  {
    var c := Published(j, v, pp, y);
    var head := j + " **" + v;
    var middle := "**, " + pp + " (";
    assert c == head + middle + (y + ")");
    assert c == j + (" **" + v) + (middle + (y + ")"));
  }

  /** The outer `strip()` of the last case only removes the blank that is left
      in front when the journal is blank: the citation is the stripped
      journal, a blank and the year in parentheses, or only the latter. */
  lemma UnpublishedShape(journal: string, year: string)
    ensures Unpublished(journal, year) ==
      if Strip(journal) == "" then "(" + year + ")" else Strip(journal) + " (" + year + ")"
  {
    var j := Strip(journal);
    var tail := "(" + year + ")";
    assert j + " (" + year + ")" == j + " " + tail;
    ReferenceFallback(j, tail);
  }

  /** Stripping a blank-joined pair whose parts have no whitespace at their
      ends. */
  lemma ReferenceFallback(j: string, tail: string)
    requires j == "" || (!IsSpace(j[0]) && !IsSpace(j[|j| - 1]))
    requires tail != "" && !IsSpace(tail[0]) && !IsSpace(tail[|tail| - 1])
    ensures Strip(j + " " + tail) == if j == "" then tail else j + " " + tail
  {
    if j == "" {
      assert j + " " + tail == " " + tail;
      StripBlankThen(tail);
    } else {
      var s := j + " " + tail;
      assert s[0] == j[0] && s[|s| - 1] == tail[|tail| - 1];
      StripNoEdges(s);
    }
  }

  /** A published entry's citation is the cleaned journal, the volume in
      bold, the pages and the year in parentheses; so it starts with the
      journal, shows the volume in bold after it, and ends with the year. */
  lemma ReferencePublished(r: Record)
    requires r.volume.Some? && r.pages.Some?
    ensures Reference(r) ==
      Clean(r.journal) + " **" + r.volume.value + "**, " + r.pages.value + " (" + r.year + ")"
    ensures var c := Reference(r);
      var j := Clean(r.journal);
      var v := r.volume.value;
      && c[..|j|] == j
      && c[|j|..|j| + 3 + |v|] == " **" + v
      && c[|c| - |r.year| - 1..] == r.year + ")"
  {
    PublishedParts(Clean(r.journal), r.volume.value, r.pages.value, r.year);
  }

  /** An entry without volume and pages but with an eprint is cited by its
      arXiv identifier. */
  lemma ReferenceEprint(r: Record)
    requires !(r.volume.Some? && r.pages.Some?) && Clean(r.eprint) != ""
    ensures Reference(r) == ArXivLabel + Clean(r.eprint)
    ensures Reference(r)[..|ArXivLabel|] == ArXivLabel
  {
  }

  /** An entry with neither is cited by its journal and year. */
  lemma ReferenceOther(r: Record)
    requires !(r.volume.Some? && r.pages.Some?) && Clean(r.eprint) == ""
    ensures var j := Strip(Clean(r.journal));
      Reference(r) == if j == "" then "(" + r.year + ")" else j + " (" + r.year + ")"
  {
    UnpublishedShape(Clean(r.journal), r.year);
  }

  /** The markdown link `[caption id](url id)`. */
  function MarkdownLink(caption: string, url: string, id: string): string {
    "[" + caption + id + "](" + url + id + ")"
  }

  /** Reads the identifier back out of a markdown link with the given caption
      and address prefix, if the text is one. */
  function LinkId(link: string, caption: string, url: string): (id: Option<string>)
    ensures id.Some? ==> MarkdownLink(caption, url, id.value) == link
  {
    var fixed := |caption| + |url| + 4;
    if |link| < fixed || (|link| - fixed) % 2 != 0 then None
    else
      var n := (|link| - fixed) / 2;
      var candidate := link[1 + |caption|..1 + |caption| + n];
      if MarkdownLink(caption, url, candidate) == link then Some(candidate) else None
  }

  /** LinkId recovers the identifier a link was built from. */
  lemma LinkIdOfLink(caption: string, url: string, id: string)
    ensures LinkId(MarkdownLink(caption, url, id), caption, url) == Some(id)
  {
    var link := MarkdownLink(caption, url, id);
    assert |link| == |caption| + |url| + 4 + 2 * |id|;
    assert link[1 + |caption|..1 + |caption| + |id|] == id;
  }

  const ArXivLabel := "arXiv:"
  const ArXivUrl := "http://arxiv.org/abs/"
  const DoiLabel := "doi:"
  const DoiUrl := "http://dx.doi.org/"

  /** `arXiv(row)`: nothing for an entry without an eprint, otherwise a link
      to the arXiv abstract page. */
  function ArXiv(r: Record): (link: string)
    ensures link == "" <==> Clean(r.eprint) == ""
    ensures link != "" ==> LinkId(link, ArXivLabel, ArXivUrl) == Some(Clean(r.eprint))
  {
    var ident := Clean(r.eprint);
    if ident == "" then ""
    else
      LinkIdOfLink(ArXivLabel, ArXivUrl, ident);
      MarkdownLink(ArXivLabel, ArXivUrl, ident)
  }

  /** `doi(row)`: nothing for an entry without a DOI, otherwise a link through
      the DOI resolver. */
  function Doi(r: Record): (link: string)
    ensures link == "" <==> Clean(r.doi) == ""
    ensures link != "" ==> LinkId(link, DoiLabel, DoiUrl) == Some(Clean(r.doi))
  {
    var ident := Clean(r.doi);
    if ident == "" then ""
    else
      LinkIdOfLink(DoiLabel, DoiUrl, ident);
      MarkdownLink(DoiLabel, DoiUrl, ident)
  }

  /** Two entries get the same arXiv link exactly when their cleaned
      identifiers agree, and the same for DOI links. */
  lemma LinksIdentify(r1: Record, r2: Record)
    ensures ArXiv(r1) == ArXiv(r2) <==> Clean(r1.eprint) == Clean(r2.eprint)
    ensures Doi(r1) == Doi(r2) <==> Clean(r1.doi) == Clean(r2.doi)
  {
  }

  /** When the entry is not published but has an eprint, its citation is the
      visible text of its arXiv link. */
  lemma ReferenceIsArXivLabel(r: Record)
    requires !(r.volume.Some? && r.pages.Some?) && Clean(r.eprint) != ""
    ensures ArXiv(r) == "[" + Reference(r) + "](" + ArXivUrl + Clean(r.eprint) + ")"
  {
    var id := Clean(r.eprint);
    assert Reference(r) == ArXivLabel + id;
    assert ArXiv(r) == MarkdownLink(ArXivLabel, ArXivUrl, id);
    LinkCaption(ArXivLabel, ArXivUrl, id);
  }

  /** The visible text of a link is its caption followed by the
      identifier. */
  lemma LinkCaption(caption: string, url: string, id: string)
    ensures MarkdownLink(caption, url, id) == "[" + (caption + id) + "](" + url + id + ")"
  {
  }

  /** Example: a published entry. */
  lemma ReferencePublishedExample(r: Record)
    ensures (r.journal == Some("Phys Rev") && r.volume == Some("12") && r.pages == Some("345")
             && r.year == "2021") ==> Reference(r) == "Phys Rev **12**, 345 (2021)"
  {
    PublishedExample();
    var j := "Phys Rev";
    assert '{' !in j && '}' !in j;
    if r.journal == Some(j) && r.volume == Some("12") && r.pages == Some("345") {
      ReferencePublished(r);
    }
  }

  /** Example: an entry with an eprint and without volume or pages. */
  lemma ReferenceEprintExample(r: Record)
    ensures !(r.volume.Some? && r.pages.Some?) && r.eprint == Some("1234.5678") ==>
      Reference(r) == "arXiv:1234.5678"
  {
    var id := "1234.5678";
    assert '{' !in id && '}' !in id;
    assert ArXivLabel + id == "arXiv:1234.5678";
  }

  /** The citation of volume 12, pages 345 of Phys Rev in 2021. */
  lemma PublishedExample()
    ensures Published("Phys Rev", "12", "345", "2021") == "Phys Rev **12**, 345 (2021)"
  {
  }
}
