/**
 * The shared helpers of the ingestion scripts (scripts/utils.py): reading a
 * German `DD.MM.YYYY` date and normalising whitespace in scraped text.
 */
module ScriptUtils {
  import opened Wrappers
  import opened Seqs
  import opened Strings

  // ---------------------------------------------------------------------------
  // Calendar dates

  /** A calendar date as Python's `datetime` holds it (the time of day is always midnight here). */
  datatype Date = Date(year: int, month: int, day: int)

  predicate IsLeapYear(y: int) {
    y % 4 == 0 && (y % 100 != 0 || y % 400 == 0)
  }

  function DaysInMonth(y: int, m: int): int
    requires 1 <= m <= 12
  {
    if m == 2 then (if IsLeapYear(y) then 29 else 28)
    else if m == 4 || m == 6 || m == 9 || m == 11 then 30
    else 31
  }

  /** The dates `datetime` accepts: years 1 to 9999 of the proleptic Gregorian calendar. */
  predicate IsValidDate(d: Date) {
    1 <= d.year <= 9999 && 1 <= d.month <= 12 && 1 <= d.day <= DaysInMonth(d.year, d.month)
  }

  // ---------------------------------------------------------------------------
  // parse_german_date

  /** The characters the regular expression `[^\d.]` does not remove. */
  predicate IsDateChar(c: char) {
    IsDigit(c) || c == '.'
  }

  function KeepDateChars(s: string): string {
    Filter(IsDateChar, s)
  }

  /** What `%d` matches before a literal dot: `1`-`9`, or two digits from `01` to `31`. */
  predicate IsDayField(f: string) {
    1 <= |f| <= 2 && AllDigits(f) && 1 <= DecimalValue(f) <= 31
  }

  /** What `%m` matches before a literal dot: `1`-`9`, or two digits from `01` to `12`. */
  predicate IsMonthField(f: string) {
    1 <= |f| <= 2 && AllDigits(f) && 1 <= DecimalValue(f) <= 12
  }

  /** What `%Y` matches at the end of the text: exactly four digits. */
  predicate IsYearField(f: string) {
    |f| == 4 && AllDigits(f)
  }

  /**
   * `datetime.strptime(s, '%d.%m.%Y')` on a text of digits and dots: three
   * dot-separated fields of the right shapes, then the calendar check of
   * `datetime`; every failure is the `ValueError` that becomes `None`.
   */
  function StrptimeDayMonthYear(s: string): (r: Option<Date>)
    ensures r.Some? ==> IsValidDate(r.value)
  {
    var fields := SplitOn(s, '.');
    if |fields| == 3 && IsDayField(fields[0]) && IsMonthField(fields[1]) && IsYearField(fields[2]) then
      var d := Date(DecimalValue(fields[2]), DecimalValue(fields[1]), DecimalValue(fields[0]));
      if IsValidDate(d) then Some(d) else None
    else
      None
  }

  /** `parse_german_date`; `None` as input is the `AttributeError` case. */
  function ParseGermanDate(input: Option<string>): (r: Option<Date>)
    ensures input.None? ==> r.None?
    ensures r.Some? ==> IsValidDate(r.value)
  {
    match input
    case None => None
    case Some(s) => StrptimeDayMonthYear(KeepDateChars(Strip(s)))
  }

  /** The `DD.MM.YYYY` rendering of a date. */
  function FormatGermanDate(d: Date): string
    requires d.day >= 1 && d.month >= 1 && d.year >= 1
  {
    ZeroPad(NatToDecimal(d.day), 2) + "." + ZeroPad(NatToDecimal(d.month), 2) + "." + NatToDecimal(d.year)
  }

  /** The `strip` step is redundant: whitespace is not a date character. */
  lemma StripIrrelevant(s: string)
    ensures KeepDateChars(Strip(s)) == KeepDateChars(s)
  {
    var i, j := StripBounds(s);
    KeepDateCharsOfInner(s, i, j);
  }

  /** Whitespace around the slice `s[i..j]` holds no date character. */
  lemma KeepDateCharsOfInner(s: string, i: nat, j: nat)
    requires i <= j <= |s| && AllWhitespace(s[..i]) && AllWhitespace(s[j..])
    ensures KeepDateChars(s[i..j]) == KeepDateChars(s)
  {
    SplitThree(s, i, j);
    KeepDateCharsOfPadded(s[..i], s[i..j], s[j..]);
  }

  lemma KeepDateCharsOfPadded(lead: string, m: string, tail: string)
    requires AllWhitespace(lead) && AllWhitespace(tail)
    ensures KeepDateChars(lead + m + tail) == KeepDateChars(m)
  {
    FilterAppend(IsDateChar, lead + m, tail);
    FilterAppend(IsDateChar, lead, m);
    FilterNone(IsDateChar, lead);
    FilterNone(IsDateChar, tail);
  }

  /** Only the digits and dots of the input decide the result. */
  lemma OnlyDateCharsMatter(s: string, t: string)
    requires KeepDateChars(s) == KeepDateChars(t)
    ensures ParseGermanDate(Some(s)) == ParseGermanDate(Some(t))
  {
    StripIrrelevant(s);
    StripIrrelevant(t);
  }

  /** Text around the date that holds no digit and no dot, such as surrounding whitespace, is ignored. */
  lemma SurroundingsIgnored(before: string, s: string, after: string)
    requires forall i :: 0 <= i < |before| ==> !IsDateChar(before[i])
    requires forall i :: 0 <= i < |after| ==> !IsDateChar(after[i])
    ensures ParseGermanDate(Some(before + s + after)) == ParseGermanDate(Some(s))
  {
    FilterAppend(IsDateChar, before + s, after);
    FilterAppend(IsDateChar, before, s);
    FilterNone(IsDateChar, before);
    FilterNone(IsDateChar, after);
    OnlyDateCharsMatter(before + s + after, s);
  }

  /** A one- or two-digit number rendered with a leading zero as needed is a two-digit field of that value. */
  lemma PaddedField(n: nat)
    requires 1 <= n <= 99
    ensures |ZeroPad(NatToDecimal(n), 2)| == 2
    ensures AllDigits(ZeroPad(NatToDecimal(n), 2))
    ensures DecimalValue(ZeroPad(NatToDecimal(n), 2)) == n
  {
    NatToDecimalLength(n);
    ZeroPadValue(NatToDecimal(n), 2);
    DecimalRoundTrip(n);
  }

  /** Three digit fields joined by dots pass the cleaning steps untouched. */
  lemma JoinedFieldsClean(dd: string, mm: string, yyyy: string)
    requires dd != [] && yyyy != [] && AllDigits(dd) && AllDigits(mm) && AllDigits(yyyy)
    ensures KeepDateChars(Strip(dd + "." + mm + "." + yyyy)) == dd + "." + mm + "." + yyyy
  {
    var f := dd + "." + mm + "." + yyyy;
    assert f[0] == dd[0] && f[|f| - 1] == yyyy[|yyyy| - 1];
    StripUnchanged(f);
    assert forall i :: 0 <= i < |f| ==> IsDateChar(f[i]);
    FilterAll(IsDateChar, f);
  }

  /** Three digit fields joined by dots split back into those fields. */
  lemma JoinedFieldsSplit(dd: string, mm: string, yyyy: string)
    requires AllDigits(dd) && AllDigits(mm) && AllDigits(yyyy)
    ensures SplitOn(dd + "." + mm + "." + yyyy, '.') == [dd, mm, yyyy]
  {
    assert dd + "." + mm + "." + yyyy == dd + ['.'] + (mm + ['.'] + yyyy);
    assert '.' !in dd && '.' !in mm && '.' !in yyyy;
    SplitOnField(dd, '.', mm + ['.'] + yyyy);
    SplitOnField(mm, '.', yyyy);
    SplitOnWhole(yyyy, '.');
  }

  /** Well-shaped fields are read as the date they denote, which the calendar then accepts or not. */
  lemma StrptimeOfFields(dd: string, mm: string, yyyy: string, d: Date)
    requires IsDayField(dd) && IsMonthField(mm) && IsYearField(yyyy)
    requires d == Date(DecimalValue(yyyy), DecimalValue(mm), DecimalValue(dd))
    ensures StrptimeDayMonthYear(dd + "." + mm + "." + yyyy) == if IsValidDate(d) then Some(d) else None
  {
    JoinedFieldsSplit(dd, mm, yyyy);
  }

  /**
   * Reading back a rendered date: for any day 1-31, month 1-12 and four-digit
   * year the result is the date itself when the calendar has it, and `None`
   * when it does not (31.02, 29.02 outside leap years, 31.04, ...).
   */
  lemma ParseFormatRoundTrip(d: Date)
    requires 1 <= d.day <= 31 && 1 <= d.month <= 12 && 1000 <= d.year <= 9999
    ensures ParseGermanDate(Some(FormatGermanDate(d))) == if IsValidDate(d) then Some(d) else None
  {
    PaddedField(d.day);
    PaddedField(d.month);
    YearField(d.year);
    ParseOfFields(ZeroPad(NatToDecimal(d.day), 2), ZeroPad(NatToDecimal(d.month), 2), NatToDecimal(d.year), d);
  }

  lemma YearField(year: nat)
    requires 1000 <= year <= 9999
    ensures IsYearField(NatToDecimal(year)) && DecimalValue(NatToDecimal(year)) == year
  {
    NatToDecimalLength(year);
    DecimalRoundTrip(year);
  }

  /** Parsing three well-shaped fields joined by dots reads the date they denote. */
  lemma ParseOfFields(dd: string, mm: string, yyyy: string, d: Date)
    requires IsDayField(dd) && IsMonthField(mm) && IsYearField(yyyy)
    requires d == Date(DecimalValue(yyyy), DecimalValue(mm), DecimalValue(dd))
    ensures ParseGermanDate(Some(dd + "." + mm + "." + yyyy)) == if IsValidDate(d) then Some(d) else None
  {
    var f := dd + "." + mm + "." + yyyy;
    JoinedFieldsClean(dd, mm, yyyy);
    StrptimeOfFields(dd, mm, yyyy, d);
    assert ParseGermanDate(Some(f)) == StrptimeDayMonthYear(f);
  }

  /** A day the month does not have is rejected rather than rolled over. */
  lemma ThirtyFirstOfFebruaryRejected(year: int)
    requires 1000 <= year <= 9999
    ensures ParseGermanDate(Some(FormatGermanDate(Date(year, 2, 31)))) == None
  {
    ParseFormatRoundTrip(Date(year, 2, 31));
  }

  // ---------------------------------------------------------------------------
  // clean_text

  /**
   * `clean_text`: `""` for a missing or empty text, otherwise the text
   * stripped, with every remaining whitespace run replaced by one space.
   */
  function CleanText(text: Option<string>): (r: string)
    ensures text.None? || text.value == "" ==> r == ""
    ensures r == [] || (!IsWhitespace(r[0]) && !IsWhitespace(r[|r| - 1]))
    ensures IsCollapsed(r)
  {
    if text.None? || text.value == "" then ""
    else
      CollapseWhitespaceFacts(Strip(text.value));
      CollapseWhitespace(Strip(text.value))
  }

  /** Cleaning a cleaned text changes nothing. */
  lemma CleanTextIdempotent(text: Option<string>)
    ensures CleanText(Some(CleanText(text))) == CleanText(text)
  {
    var r := CleanText(text);
    if r != "" {
      StripUnchanged(r);
      CollapseCollapsed(r);
    }
  }

  /** `clean_text` of a text is the same as `' '.join(text.split())`: its words joined by single spaces. */
  lemma CleanTextIsJoinedWords(s: string)
    ensures CleanText(Some(s)) == Join(" ", SplitWhitespace(s))
  {
    if s == "" {
      SplitWhitespaceEmpty(s);
    } else {
      CollapseStrippedIsJoinedWords(s);
    }
  }

  /** Cleaning keeps every non-whitespace character, in order: only whitespace is dropped or replaced. */
  lemma CleanTextKeepsNonWhitespace(s: string)
    ensures NonWhitespace(CleanText(Some(s))) == NonWhitespace(s)
  {
    if s != "" {
      StripKeepsNonWhitespace(s);
      CollapseKeepsNonWhitespace(Strip(s));
    }
  }
}
