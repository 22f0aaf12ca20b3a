# pybib publication pages, modelled in Dafny

`py.py` turns the entries of a BibTeX bibliography into one markdown page
per publication for a static site. For each entry it derives:

- a file name `YYYY-MM-01-<slug>.md`, from the date key (year and month)
  and the title;
- a citation line: journal, volume in bold, pages and year; or the arXiv
  identifier; or the journal and year;
- markdown links to the DOI resolver and to the arXiv abstract page;
- an author line, which lists at most ten names and otherwise the first
  three and "_et al._".

The page is a YAML front matter with the title, then these lines and
the abstract, separated by blank lines.

This project models that formatting layer and proves properties of it.

Modules, one per part of the script:

- `Wrappers`: `Option` and `Result`.
- `Builtins`: the Python string and list built-ins used, over `seq<char>`:
  - `str.isspace`, `strip`, `replace(c, '')`, `split(sep)` and `sep.join`;
  - `list.reverse` as the value the list holds afterwards;
  - `Map`, the list an append loop builds by applying one function to each
    element in turn (as `author_list` does).
- `Records`: one bibliography entry, with a missing field (pandas' NaN) as
  `None`, and `clean`.
- `Dates`: `yyyymmdd` and its inner `month`. Month names are read the way
  `strptime(name, "%b")` reads them: one of the twelve three-letter
  abbreviations in full, with only ASCII case ignored (the matched text is
  looked up after `str.lower()`).
- `Flattening`: the hand-written join `flatten`. It adds the separator
  after every element that is not equal to the last one, so an earlier copy
  of the last element gets no separator either. This behaviour is kept
  as written and proved.
- `AuthorLines`: `author_list` and `authors`.
- `Citation`: `reference`, `arXiv` and `doi`.
- `FileNames`: `file_name`. Its loop over the words keeps only the
  letters and digits of each word, then throws the result away, so it has
  no effect; the model keeps that loop and that behaviour.
- `Documents`: the page text the script assembles, and the loop over the
  entries that names and fills one file per entry.

The pieces of the script that work step by step are methods, each proved
against a function that says what they compute:

- `flatten`, `author_list` and `file_name`;
- the assembly of the page text;
- the loop over the entries.

## Model

| member | source | states |
|---|---|---|
| Records.Clean | py.py:8-11 | a missing field cleans to `""`; the result has no `{` or `}`; a brace-free field is unchanged |
| Records.CleanCounts | py.py:11 | every character other than a brace keeps its count, and no brace is left |
| Records.CleanAppend | py.py:11 | cleaning a concatenation is the concatenation of the cleaned parts, so the kept characters stay in order |
| Records.CleanOne | py.py:11 | one character cleans to nothing if it is a brace and to itself otherwise; with `Records.CleanAppend` this fixes the text exactly |
| Records.CleanIdempotent | py.py:8-11 | cleaning a cleaned field changes nothing |
| Builtins.Strip | py.py:31 | the result has no whitespace at either end and is no longer than the input |
| Builtins.StripIsTrim | py.py:46 | `strip` removes a whitespace-only prefix and a whitespace-only suffix and keeps the middle as it is |
| Builtins.StripNoEdges | py.py:31 | a string with no whitespace at its ends is left alone |
| Builtins.StripIdempotent | py.py:31 | stripping twice is stripping once |
| Builtins.RemoveChar | py.py:11 | the removed character no longer occurs; a string without it is unchanged |
| Builtins.RemoveCharCounts | py.py:11 | every other character keeps its count |
| Builtins.RemoveCharAppend | py.py:11 | removing a character from a concatenation removes it from each part, keeping the order of the rest |
| Builtins.RemoveCharOne | py.py:11 | a one-character string loses the character if it is the one removed and stays as it is otherwise |
| Builtins.RemoveCharOnce | py.py:64 | removing a character that occurs once closes the gap it leaves |
| Builtins.Split | py.py:41 | a split always has at least one piece |
| Builtins.SplitJoin | py.py:41 | joining the pieces with the separator gives back the string |
| Builtins.SplitNoSep | py.py:41 | no piece contains the separator |
| Builtins.JoinSplit | py.py:65 | for a one-character separator, splitting undoes joining pieces free of it |
| Builtins.Reversed | py.py:45 | element `k` of the reversed list is element `n-1-k` of the list |
| Builtins.MapAt | py.py:43-46 | element `k` of a mapped list is the function of element `k` |
| Dates.Month | py.py:14-16 | `month(name)`: the two digits of the matched month, or `UnknownMonth` with the name; characterised by `Dates.TwoDigits` and `Dates.DateKeyWithMonth` |
| Dates.MonthNumber | py.py:15 | a month number 1..12 whose abbreviation the name matches, or none exactly when no abbreviation matches |
| Dates.TwoDigits | py.py:16 | two decimal digits whose value is the month |
| Dates.DateKey | py.py:13-18 | `yyyymmdd(row)`: `year-01-01` without a month, `year-MM-01` with a recognised one, the month's error otherwise; characterised by `Dates.DateKeyRoundTrip`, `Dates.DateKeyNoMonth` and `Dates.DateKeyWithMonth` |
| Dates.DateKeyRoundTrip | py.py:13-18 | the key fails exactly for a present, unrecognised month; otherwise it is `year-MM-01`, and the year and the month (1 when missing) read back from it |
| Dates.DateKeyNoMonth | py.py:17-18 | no month gives `year-01-01` |
| Dates.DateKeyWithMonth | py.py:14-18 | a recognised month `m` gives `year-MM-01` with `MM` its two digits |
| Dates.MonthNumberAnyCase | py.py:15 | `Jul` and `JUL` are both July |
| Dates.MonthNumberLongS | py.py:15 | `\u017Fep` (long s for `s`) is refused: the lower-cased match must be in the table of abbreviations |
| Dates.MonthNumberRefuses | py.py:15 | `Abc` is refused, and so is the full name `July` |
| Dates.DateKeyExamples | py.py:13-18 | 2020 with no month is `2020-01-01`, July 2019 is `2019-07-01`, `Abc` fails with that name |
| Flattening.Flattened | py.py:33-38 | `flatten(list, sep)` as a value: each element, then the separator unless it equals the last element; characterised by `Flattening.FlattenedIsJoin`, `Flattening.GlueLength` and `Flattening.FlattenedChars` |
| Flattening.Flatten | py.py:33-38 | the loop returns `Flattened(xs, sep)` |
| Flattening.FlattenedIsJoin | py.py:33-38 | `flatten` of an empty list is `""`; it equals `sep.join` exactly when the separator is empty or no earlier element equals the last |
| Flattening.GlueLength | py.py:35-37 | the length is the elements' lengths plus one separator per element that differs from the last |
| Flattening.SeparatorBound | py.py:37 | an element equal to the last costs a separator |
| Flattening.GlueAllSeparated | py.py:37 | when no element equals the last one, every element is followed by the separator |
| Flattening.FlattenedRepeatedLast | py.py:37 | `flatten(["a","b","a"], " ")` is `"ab a"` where the join is `"a b a"` |
| Flattening.FlattenedThree | py.py:35-37 | what the loop appends for three elements |
| Flattening.FlattenedRepeatedFirst | py.py:37 | a first element equal to the last gets no separator |
| Flattening.FlattenedEmptyMiddle | py.py:37 | an empty element between two different ones leaves two separators in a row |
| Flattening.FlattenedChars | py.py:33-38 | every character of the result comes from the separator or from an element |
| AuthorLines.DisplayName | py.py:44-46 | one piece split at commas, reversed, flattened with blanks and stripped; characterised by `AuthorLines.DisplayNameLastFirst` |
| AuthorLines.FixName | py.py:44-46 | the loop body gives the display name of the piece |
| AuthorLines.AuthorNames | py.py:40-47 | `author_list(row)` as a value: the display names of the `" and "`-pieces of the cleaned field; characterised by `AuthorLines.AuthorNamesInOrder` and `AuthorLines.AuthorNamesOfNothing` |
| AuthorLines.AuthorList | py.py:40-47 | the loop returns the display names of the `" and "`-pieces of the cleaned field |
| AuthorLines.DisplayNamesAt | py.py:43-46 | name `k` is the display name of piece `k` |
| AuthorLines.AuthorNamesInOrder | py.py:40-47 | one name per piece, in order, at least one; the pieces joined with `" and "` are the cleaned field |
| AuthorLines.AuthorNamesOfNothing | py.py:41 | a missing, empty or `{}` author field gives one empty name |
| AuthorLines.DisplayNameLastFirst | py.py:44-46 | `"Last, First"` becomes `"First Last"` |
| AuthorLines.SplitAtSep | py.py:41 | the split cuts at the first occurrence of the separator |
| AuthorLines.EntryNoSep | py.py:41 | `" and "` does not occur in one `"Last, First"` entry of plain words |
| AuthorLines.EntryThenSep | py.py:41 | after an entry whose first name is not `and`, the first `" and "` is the one after the entry |
| AuthorLines.AuthorPiecesTwo | py.py:41 | two entries joined with `" and "` split into those two entries |
| AuthorLines.AuthorNamesTwo | py.py:40-47 | two plain entries give the two names first-name-first, in order |
| AuthorLines.AuthorNamesExample | py.py:40-47 | `"Smith, John and Doe, Jane"` gives `["John Smith", "Jane Doe"]` |
| AuthorLines.AuthorLine | py.py:58-61 | all names flattened with `", "` when there are at most `max`, else the first `etal` and `", _et al._"`; characterised by `AuthorLines.AuthorLineFull`, `AuthorLines.AuthorLineCut` and `AuthorLines.AuthorLineNegative` |
| AuthorLines.Authors | py.py:56-61 | `authors(row, max, etal)`: the author line of the entry's names, with defaults 10 and 3; characterised through `AuthorLines.AuthorLine` and `AuthorLines.AuthorLineFiveCutToTwo` |
| AuthorLines.SliceEnd | py.py:61 | the end of `al[:k]` lies within the list |
| AuthorLines.AuthorLineFull | py.py:58-59 | up to `max` names: all of them, with no suffix, and the `", "`-join when the last name is unique |
| AuthorLines.AuthorLineCut | py.py:60-61 | more than `max` names: the first `etal` (all when fewer) and `", _et al._"` |
| AuthorLines.AuthorLineNegative | py.py:61 | a negative `etal` keeps all but the last `-etal` names, and none when `-etal` exceeds their number, leaving only `", _et al._"` |
| AuthorLines.AuthorLineFiveCutToTwo | py.py:56-61 | five names, at most three, two shown: the first two joined with `", "` and the suffix |
| Citation.Reference | py.py:20-31 | `reference(row)`: the published form, else `arXiv:` and the identifier, else the journal and the year; characterised by `Citation.ReferencePublished`, `Citation.ReferenceEprint` and `Citation.ReferenceOther` |
| Citation.PublishedParts | py.py:27 | a published citation starts with the journal, then the volume in bold, and ends with the year in parentheses |
| Citation.ReferencePublished | py.py:20-27 | an entry with volume and pages is cited as the cleaned journal, `" **"`, the volume, `"**, "`, the pages, `" ("`, the year and `")"`, with volume and pages as given; so it starts with the journal and ends with the year in parentheses |
| Citation.ReferenceEprint | py.py:28-29 | otherwise an entry with an eprint is cited as `arXiv:` and its identifier |
| Citation.ReferenceOther | py.py:30-31 | otherwise the citation is the stripped journal, a blank and the year in parentheses, or only the year part when the journal is blank |
| Citation.UnpublishedShape | py.py:31 | the outer `strip` only removes the blank that a blank journal leaves in front |
| Citation.ReferenceFallback | py.py:31 | stripping a blank-joined pair whose parts have no whitespace at their ends |
| Citation.PublishedExample | py.py:27 | journal `Phys Rev`, volume 12, pages 345 and year 2021 give `Phys Rev **12**, 345 (2021)` |
| Citation.ReferencePublishedExample | py.py:20-27 | an entry with journal `Phys Rev`, volume 12, pages 345 and year 2021 is cited `Phys Rev **12**, 345 (2021)` |
| Citation.ReferenceEprintExample | py.py:25-29 | an entry without both volume and pages and with eprint `1234.5678` is cited `arXiv:1234.5678` |
| Citation.LinkId | py.py:53 | an identifier read from a link rebuilds that link |
| Citation.LinkIdOfLink | py.py:53 | reading the identifier back out of a link gives the identifier it was built from |
| Citation.ArXiv | py.py:49-53 | empty exactly when the cleaned eprint is empty; otherwise a link from which the cleaned eprint is read back |
| Citation.Doi | py.py:71-74 | empty exactly when the cleaned DOI is empty; otherwise a link from which the cleaned DOI is read back |
| Citation.LinksIdentify | py.py:49-74 | two entries get the same link exactly when their cleaned identifiers agree |
| Citation.ReferenceIsArXivLabel | py.py:28-53 | for an eprint-only entry the citation is the visible text of its arXiv link |
| FileNames.Slug | py.py:64-68 | the title cleaned, rid of `,`, `.` and `/`, split at blanks and flattened with `_`; characterised by `FileNames.SlugChars` and `FileNames.SlugJoin` |
| FileNames.FileNameOf | py.py:63-69 | `file_name(row)` as a value: the date key, a dash, the slug and `.md`; characterised by `FileNames.FileNameShape` |
| FileNames.SlugSource | py.py:64 | the cleaned title has no `,`, `.`, `/` or braces |
| FileNames.AlnumOnly | py.py:67 | only letters and digits are kept |
| FileNames.AlnumOnlyAppend | py.py:67 | filtering a concatenation filters each part, so the letters and digits kept stay in order |
| FileNames.AlnumOnlyOne | py.py:67 | a single character is kept exactly when it is a letter or a digit; with `FileNames.AlnumOnlyAppend` every letter and digit is kept |
| FileNames.FileName | py.py:63-69 | the method returns `FileNameOf(r)`: the discarded filtering changes nothing |
| FileNames.FileNameShape | py.py:63-69 | a name exists exactly when the date key does, with the same error; it is the key, a dash, the slug and `.md` |
| FileNames.SlugChars | py.py:64-68 | the slug has no comma, full stop, slash, brace or blank |
| FileNames.SlugJoin | py.py:64-68 | with a unique last word the slug is the words joined with `_`, and the words joined with blanks give back the cleaned title |
| FileNames.WordsOfJoin | py.py:65 | the words of a title of blank-free words joined by blanks are those words |
| FileNames.SentenceSource | py.py:64 | `"w1 w2, w3."` cleans to `"w1 w2 w3"` |
| FileNames.SentenceSlug | py.py:64-68 | `"w1 w2, w3."` with `w3` unlike the others gives `w1_w2_w3` |
| FileNames.SlugOfWords | py.py:64-68 | a title of plain words joined by single blanks flattens those words with `_` |
| FileNames.SlugRepeatedWord | py.py:68 | a title whose last word also comes first loses the underscore after the first word |
| FileNames.SlugDoubleBlank | py.py:65-68 | two blanks in a row give two underscores |
| FileNames.FileNameWithMonth | py.py:63-69 | the file name of an entry with recognised month `m` |
| FileNames.SlugExample | py.py:64-68 | `"A Test, Paper."` gives `A_Test_Paper` |
| FileNames.FileNameExample | py.py:63-69 | `"A Test, Paper."` from March 2022 gives `2022-03-01-A_Test_Paper.md` |
| Documents.Document | py.py:85-95 | the page text of an entry, laid out by `Documents.Page`; characterised by `Documents.DocumentLines` |
| Documents.PageText | py.py:89-95 | the appended text is `Document(r)` |
| Documents.PageIsJoin | py.py:85-95 | the page is its eighteen lines joined with line breaks |
| Documents.PageLinesSplit | py.py:85-95 | a page whose parts have no line breaks splits back into those lines |
| Documents.DocumentLines | py.py:85-95 | the lines of an entry's page: front matter with the cleaned title, citation, DOI link, arXiv link, italic author line and abstract, each followed by a blank line and one more after the author line |
| Documents.Publish | py.py:87-95 | one file per entry, in order, with its file name and page text, up to the first entry whose date key fails, whose error ends the run |
| Documents.PublishDeterministic | py.py:87-95 | two runs over the same entries write the same files and end the same way |

## Left out

- Reading `bib.bib` with `bibtexparser` (py.py:76-77) is not modelled. The entries are given as `Record` values.
- Building and sorting the pandas table (py.py:79-83) is not modelled. `Publish` takes the entries in an order already chosen.
- `print(fname)` and the file writes under `./out/` (py.py:96-98) are not modelled. `Publish` returns the names and texts it would write, and the I/O errors of a missing output directory are not modelled.
- A column missing from the whole table is not modelled. Pandas would raise `KeyError` for it; every `Record` has every field.
- The year and the abstract are text, as `str()` renders them. A NaN year or abstract, which renders as `nan`, is not modelled apart from that text.
- Locales other than C are not modelled. Month names are the twelve English abbreviations; other locales' names are not modelled.
- `strptime`'s `ValueError` becomes `Dates.UnknownMonth`, and `Publish` stops at the first one, as the uncaught exception stops the script.
- A second page layout, which puts an author-prefixed reference after the abstract, is not part of `py.py`.
- The unused `import math` is not modelled.
- FixName: `name.reverse()` reverses a fresh local list in place. It is modelled as the list's new value, because nothing else refers to that list.
- FileNames.IsAlnum: only ASCII letters and digits count, not Python's Unicode `isalnum`. The filtered word is discarded, so this does not change any result.
- Builtins.IsSpace: whitespace is the fixed set of characters Python's `str.isspace` accepts, written out.
