/** The date key `YYYY-MM-01` of an entry (py.py `yyyymmdd` and its inner
    `month`), with month names parsed as `datetime.strptime(name, "%b")` does
    in the C locale. */
module Dates {
  import opened Wrappers
  import opened Records

  /** `strptime` raised `ValueError`: the month text is not an abbreviation. */
  datatype DateError = UnknownMonth(name: string)

  /** The C locale's abbreviated month names, lower-cased as `strptime`
      stores them; index `k` is month `k + 1`. */
  const Abbreviations: seq<string> :=
    ["jan", "feb", "mar", "apr", "may", "jun", "jul", "aug", "sep", "oct", "nov", "dec"]

  /** A character of the input stands for a lower-case ASCII letter of an
      abbreviation: the letter itself or its upper-case form. `strptime` looks
      the matched text up after `str.lower()`, so a character that only the
      case-insensitive pattern accepts (the long s U+017F for `s`) is still
      refused. */
  predicate SameLetter(c: char, p: char) {
    || c == p
    || ('a' <= p <= 'z' && c as int == p as int - 32)
  }

  /** `name` is the whole of the abbreviation `abbr`, up to case; `strptime`
      refuses trailing text ("unconverted data remains"). */
  predicate IsAbbreviation(name: string, abbr: string) {
    && |name| == 3 && |abbr| == 3
    && SameLetter(name[0], abbr[0])
    && SameLetter(name[1], abbr[1])
    && SameLetter(name[2], abbr[2])
  }

  /** The month number of the first abbreviation from index `k` on that
      `name` matches. */
  function MonthFrom(name: string, k: nat): (m: Option<nat>)
    requires k <= |Abbreviations|
    ensures m.Some? ==> k < m.value <= 12 && IsAbbreviation(name, Abbreviations[m.value - 1])
    ensures m.None? ==> forall j :: k <= j < 12 ==> !IsAbbreviation(name, Abbreviations[j])
    decreases 12 - k
  {
    if k == |Abbreviations| then None
    else if IsAbbreviation(name, Abbreviations[k]) then Some(k + 1)
    else MonthFrom(name, k + 1)
  }

  /** `strptime(name, "%b").month`, or `None` where `strptime` raises. */
  function MonthNumber(name: string): (m: Option<nat>)
    ensures m.Some? ==> 1 <= m.value <= 12 && IsAbbreviation(name, Abbreviations[m.value - 1])
    ensures m.None? <==> forall j :: 0 <= j < 12 ==> !IsAbbreviation(name, Abbreviations[j])
  {
    MonthFrom(name, 0)
  }

  function DigitValue(c: char): int {
    c as int - '0' as int
  }

  predicate IsDigit(c: char) {
    '0' <= c <= '9'
  }

  /** `f'{m:02}'` for a month number. */
  function TwoDigits(m: nat): (r: string)
    requires m < 100
    ensures |r| == 2 && IsDigit(r[0]) && IsDigit(r[1])
    ensures DigitValue(r[0]) * 10 + DigitValue(r[1]) == m
  {
    [('0' as int + m / 10) as char, ('0' as int + m % 10) as char]
  }

  /** The inner `month(month_name)`: the two-digit month, or the parse
      error. */
  function Month(name: string): Result<string, DateError> {
    match MonthNumber(name)
    case None => Err(UnknownMonth(name))
    case Some(m) => Ok(TwoDigits(m))
  }

  /** `yyyymmdd(row)`: `"01"` stands for a missing month. */
  function DateKey(r: Record): Result<string, DateError> {
    var mon := if r.month.None? then Ok("01") else Month(r.month.value);
    match mon
    case Err(e) => Err(e)
    case Ok(mm) => Ok(r.year + "-" + mm + "-01")
  }

  /** The month an entry is filed under: January when it has none. */
  function MonthOf(r: Record): Option<nat> {
    if r.month.None? then Some(1) else MonthNumber(r.month.value)
  }

  /** Reading a date key back: the year is all but its last six characters. */
  function KeyYear(key: string): string
    requires |key| >= 6
  {
    key[..|key| - 6]
  }

  /** Reading a date key back: the month is the two digits before `-01`. */
  function KeyMonth(key: string): int
    requires |key| >= 6
  {
    DigitValue(key[|key| - 5]) * 10 + DigitValue(key[|key| - 4])
  }

  /** The date key fails exactly for a present month that is not an
      abbreviation; otherwise it is `year-MM-01` with MM the month (01 for a
      missing one), and the year and month can be read back from it. */
  lemma DateKeyRoundTrip(r: Record)
    ensures DateKey(r).Err? <==> MonthOf(r).None?
    ensures DateKey(r).Err? ==> DateKey(r).error == UnknownMonth(r.month.value)
    ensures DateKey(r).Ok? ==>
      var key := DateKey(r).value;
      && |key| == |r.year| + 6
      && key[|r.year|] == '-' && key[|key| - 3..] == "-01"
      && IsDigit(key[|key| - 5]) && IsDigit(key[|key| - 4])
      && KeyYear(key) == r.year
      && KeyMonth(key) == MonthOf(r).value
      && 1 <= KeyMonth(key) <= 12
  {
    if DateKey(r).Ok? {
      var key := DateKey(r).value;
      var mm := if r.month.None? then "01" else TwoDigits(MonthOf(r).value);
      assert key == r.year + "-" + mm + "-01";
      assert key[|key| - 5] == mm[0] && key[|key| - 4] == mm[1];
    }
  }

  /** Without a month the key is the first of January. */
  lemma DateKeyNoMonth(r: Record)
    requires r.month.None?
    ensures DateKey(r) == Ok(r.year + "-01-01")
  {
    assert r.year + "-" + "01" + "-01" == r.year + "-01-01";
  }

  /** With a recognised month the key shows it in two digits. */
  lemma DateKeyWithMonth(r: Record, m: nat)
    requires r.month.Some? && MonthNumber(r.month.value) == Some(m)
    ensures DateKey(r) == Ok(r.year + "-" + TwoDigits(m) + "-01")
  {
  }

  /** Month names as `strptime` reads them: in any case. */
  lemma MonthNumberAnyCase()
    ensures MonthNumber("Jul") == Some(7)
    ensures MonthNumber("JUL") == Some(7)
  {
    assert IsAbbreviation("Jul", Abbreviations[6]);
    assert IsAbbreviation("JUL", Abbreviations[6]);
  }

  /** The long s U+017F is refused in place of `s`: the pattern accepts it,
      but its lower-case form is not in the table of abbreviations. */
  lemma MonthNumberLongS()
    ensures MonthNumber("\U{17F}ep") == None
  {
  }

  /** What `strptime` refuses: an unknown abbreviation, and a full month name
      (trailing text). */
  lemma MonthNumberRefuses()
    ensures MonthNumber("Abc") == None
    ensures MonthNumber("July") == None
  {
  }

  /** Examples: no month is January, "Jul" is July, an
      unknown abbreviation fails. */
  lemma DateKeyExamples(r: Record)
    ensures DateKey(r.(year := "2020", month := None)) == Ok("2020-01-01")
    ensures DateKey(r.(year := "2019", month := Some("Jul"))) == Ok("2019-07-01")
    ensures DateKey(r.(month := Some("Abc"))) == Err(UnknownMonth("Abc"))
  {
    assert "2020" + "-01-01" == "2020-01-01";
    assert TwoDigits(7) == "07";
    assert "2019" + "-" + "07" + "-01" == "2019-07-01";
    MonthNumberAnyCase();
    MonthNumberRefuses();
    DateKeyNoMonth(r.(year := "2020", month := None));
    DateKeyWithMonth(r.(year := "2019", month := Some("Jul")), 7);
  }
}
