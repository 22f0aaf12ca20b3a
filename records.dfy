/** A bibliography entry, as one row of the table built from the BibTeX file,
    and the cleaning applied to its text fields (py.py `clean`). */
module Records {
  import opened Wrappers
  import opened Builtins

  /** One entry. A field the entry lacks (pandas' NaN) is `None`. The year is
      rendered with `str()` wherever it is used and is taken as given text;
      the abstract is taken as given text likewise. */
  datatype Record = Record(
    title: Option<string>,
    author: Option<string>,
    journal: Option<string>,
    volume: Option<string>,
    pages: Option<string>,
    year: string,
    month: Option<string>,
    doi: Option<string>,
    eprint: Option<string>,
    abstractText: string)

  /** `clean(text)`: a missing field reads as the empty string, a present one
      loses every `{` and `}`. */
  function Clean(field: Option<string>): (r: string)
    ensures field.None? ==> r == ""
    ensures '{' !in r && '}' !in r
    ensures field.Some? && '{' !in field.value && '}' !in field.value ==> r == field.value
  {
    match field
    case None => ""
    case Some(text) =>
      var open := RemoveChar(text, '{');
      RemoveCharSubset(open, '}');
      RemoveChar(open, '}')
  }

  /** Every character other than a brace stays, as often as before. */
  lemma CleanCounts(text: string)
    ensures multiset(Clean(Some(text))) == multiset(text)['{' := 0]['}' := 0]
  {
    RemoveCharCounts(text, '{');
    RemoveCharCounts(RemoveChar(text, '{'), '}');
  }

  /** Cleaning two texts put together cleans each, so the characters that
      are kept stay in their order. */
  lemma CleanAppend(a: string, b: string)
    ensures Clean(Some(a + b)) == Clean(Some(a)) + Clean(Some(b))
  {
    RemoveCharAppend(a, b, '{');
    RemoveCharAppend(RemoveChar(a, '{'), RemoveChar(b, '{'), '}');
  }

  /** Cleaning one character drops it if it is a brace and keeps it
      otherwise. */
  lemma CleanOne(x: char)
    ensures Clean(Some([x])) == if x == '{' || x == '}' then "" else [x]
  {
    RemoveCharOne(x, '{');
    if x != '{' {
      RemoveCharOne(x, '}');
    }
  }

  /** Cleaning a cleaned field changes nothing. */
  lemma CleanIdempotent(field: Option<string>)
    ensures Clean(Some(Clean(field))) == Clean(field)
  {
  }
}
