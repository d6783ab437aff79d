/**
 * The experience form's date codec (client/src/components/ExperienceForm.js):
 * `flipDateFormat` turns the value of an `<input type="month">`, a machine
 * month "YYYY-MM", into the display form "MonthName YYYY", and
 * `convertDateFormat` turns a display form back into a machine month. The
 * machine form is the "valid month string" of section 2.3.5.1 of the HTML
 * Standard: four or more ASCII digits for a year above zero, a hyphen, and
 * two digits for a month from 01 to 12.
 *
 * Both functions are modelled with the JavaScript semantics of what they
 * call, including what `undefined` turns into inside a template literal, so
 * the quirks of the code are part of the model: `flipDateFormat("")` is
 * "undefined " and an unknown month name converts to month "00".
 */
module DateCodec {
  import opened Wrappers
  import opened JsString

  /** The month table both functions hold, January first. */
  const MonthNames: seq<string> := [
    "January", "February", "March", "April", "May", "June", "July",
    "August", "September", "October", "November", "December"
  ]

  // ---------------------------------------------------------------------
  // Machine month strings
  // ---------------------------------------------------------------------

  /** Two digits denoting a month from 1 to 12. */
  predicate IsMonthDigits(mm: string) {
    |mm| == 2 && AllDigits(mm) && 1 <= DigitsValue(mm) <= 12
  }

  /** Four or more digits denoting a year above zero. */
  predicate IsYearDigits(y: string) {
    |y| >= 4 && AllDigits(y) && DigitsValue(y) > 0
  }

  function YearOf(s: string): string
    requires |s| >= 3
  {
    s[..|s| - 3]
  }

  function MonthOf(s: string): string
    requires |s| >= 2
  {
    s[|s| - 2..]
  }

  /** A valid month string in the sense of the HTML Standard. */
  predicate IsValidMonthString(s: string) {
    |s| >= 7 && s[|s| - 3] == '-' && IsYearDigits(YearOf(s)) && IsMonthDigits(MonthOf(s))
  }

  /**
   * A valid month string with a four-digit year: the "YYYY-MM" form that the
   * ISO date format of `Date` parses and whose string order is its date order.
   */
  predicate IsIsoMonthString(s: string) {
    IsValidMonthString(s) && |s| == 7
  }

  function MonthNumber(s: string): nat
    requires IsValidMonthString(s)
  {
    DigitsValue(MonthOf(s))
  }

  /** Months elapsed since January of year 0: the position of `s` on the calendar. */
  function MonthOrdinal(s: string): nat
    requires IsValidMonthString(s)
  {
    DigitsValue(YearOf(s)) * 12 + MonthNumber(s) - 1
  }

  lemma SplitMonthString(s: string)
    requires IsValidMonthString(s)
    ensures s == YearOf(s) + "-" + MonthOf(s)
    ensures '-' !in YearOf(s) && ' ' !in YearOf(s)
  {
    assert forall i :: 0 <= i < |YearOf(s)| ==> IsDigit(YearOf(s)[i]);
  }

  // ---------------------------------------------------------------------
  // The month table
  // ---------------------------------------------------------------------

  /**
   * What the codec needs of the table: every name is a non-empty word of
   * letters (no space, no hyphen, no white space at its start), and the
   * names are pairwise different, so `indexOf` finds each at its own place.
   */
  lemma MonthNameFacts(k: nat)
    requires k < 12
    ensures MonthNames[k] != [] && !IsWhiteSpace(MonthNames[k][0])
    ensures ' ' !in MonthNames[k] && '-' !in MonthNames[k]
    ensures IndexOf(MonthNames, MonthNames[k]) == k
  {
    MonthNameStart(k);
    MonthNameWord(k);
    MonthNameIndex(k);
  }

  lemma MonthNameStart(k: nat)
    requires k < 12
    ensures MonthNames[k] != [] && !IsWhiteSpace(MonthNames[k][0])
    ensures 'A' <= MonthNames[k][0] <= 'Z'
  {
  }

  lemma MonthNameWord(k: nat)
    requires k < 12
    ensures ' ' !in MonthNames[k] && '-' !in MonthNames[k]
  {
    assert forall c :: c in MonthNames[k] ==> 'A' <= c <= 'z';
  }

  lemma MonthNameIndex(k: nat)
    requires k < 12
    ensures IndexOf(MonthNames, MonthNames[k]) == k
  {
    var names := MonthNames;
    var i := IndexOf(names, names[k]);
    if i < k {
      MonthNamesDistinct(i, k);
    }
  }

  lemma MonthNamesDistinct(i: nat, j: nat)
    requires i < j < 12
    ensures MonthNames[i] != MonthNames[j]
  {
    var a, b := MonthNames[i], MonthNames[j];
    assert |a| != |b| || a[0] != b[0] || a[2] != b[2];
  }

  // ---------------------------------------------------------------------
  // flipDateFormat
  // ---------------------------------------------------------------------

  /** `monthNames[n - 1]`: undefined for NaN and for any number outside 1..12. */
  function MonthText(n: Option<int>): Option<string> {
    if n.Some? && 1 <= n.value <= 12 then Some(MonthNames[n.value - 1]) else None
  }

  /**
   * `flipDateFormat(inputDate)`: the first two pieces of the input split at
   * "-" are the year and the month; the month is parsed with `parseInt` and
   * looked up in the table; the result is "<month text> <year>".
   */
  function FlipDateFormat(inputDate: string): string {
    var parts := Split(inputDate, '-');
    var year := parts[0];
    var month := if |parts| > 1 then Some(parts[1]) else None;
    OrUndefined(MonthText(ParseInt(OrUndefined(month)))) + " " + year
  }

  /** A machine month is shown as its month's name followed by its year. */
  lemma {:induction false} FlipMonth(y: string, mm: string)
    requires '-' !in y && IsMonthDigits(mm)
    ensures FlipDateFormat(y + "-" + mm) == MonthNames[DigitsValue(mm) - 1] + " " + y
  {
    assert '-' !in mm by {
      assert forall i :: 0 <= i < |mm| ==> IsDigit(mm[i]);
    }
    SplitFirst(y, '-', mm);
    SplitNone(mm, '-');
    var parts := Split(y + "-" + mm, '-');
    assert parts == [y, mm];
    ParseIntDigits(mm);
    var n := DigitsValue(mm);
    var text := MonthNames[n - 1];
    assert MonthText(ParseInt(OrUndefined(Some(mm)))) == Some(text);
    assert OrUndefined(Some(text)) == text;
    assert FlipDateFormat(y + "-" + mm) == OrUndefined(Some(text)) + " " + y;
  }

  /**
   * A string with no hyphen has no month piece: the month text is undefined
   * and the whole string is taken for the year.
   */
  lemma {:induction false} FlipNoHyphen(w: string)
    requires '-' !in w
    ensures FlipDateFormat(w) == "undefined " + w
  {
    SplitNone(w, '-');
    ParseIntNoDigit("undefined");
  }

  /** The unguarded empty input gives "undefined ". */
  lemma FlipEmpty()
    ensures FlipDateFormat("") == "undefined "
  {
    FlipNoHyphen("");
  }

  /** What the display form of a valid month string looks like. */
  lemma {:induction false} FlipShape(s: string)
    requires IsValidMonthString(s)
    ensures var d := FlipDateFormat(s);
      d == MonthNames[MonthNumber(s) - 1] + " " + YearOf(s)
      && d != [] && !IsWhiteSpace(d[0]) && !IsWhiteSpace(d[|d| - 1]) && '-' !in d
  {
    SplitMonthString(s);
    var y, k := YearOf(s), MonthNumber(s) - 1;
    FlipMonth(y, MonthOf(s));
    DisplayShape(k, y);
  }

  lemma DisplayShape(k: nat, y: string)
    requires k < 12 && IsYearDigits(y)
    ensures var d := MonthNames[k] + " " + y;
      d != [] && !IsWhiteSpace(d[0]) && !IsWhiteSpace(d[|d| - 1]) && '-' !in d
  {
    MonthNameStart(k);
    MonthNameWord(k);
    var d := MonthNames[k] + " " + y;
    assert d[0] == MonthNames[k][0];
    assert d[|d| - 1] == y[|y| - 1] && IsDigit(y[|y| - 1]);
    assert '-' !in y by {
      assert forall i :: 0 <= i < |y| ==> IsDigit(y[i]);
    }
  }

  // ---------------------------------------------------------------------
  // convertDateFormat
  // ---------------------------------------------------------------------

  /** A month number zero-padded to two digits, as the template literals build it. */
  function PaddedMonth(n: nat): string {
    if n < 10 then "0" + NatToString(n) else NatToString(n)
  }

  /** The word before the first space of a display date. */
  function MonthWord(inputDate: string): string {
    Split(inputDate, ' ')[0]
  }

  /** The piece after the first space, when there is one: the year. */
  function YearPiece(inputDate: string): Option<string> {
    var parts := Split(inputDate, ' ');
    if |parts| > 1 then Some(parts[1]) else None
  }

  /**
   * `convertDateFormat(inputDate)`: "" stays ""; otherwise the first two
   * pieces of the input split at " " are the month name and the year, the
   * name's 1-based position in the table (0 when absent) is zero-padded, and
   * the result is "<year>-<padded month>".
   */
  function ConvertDateFormat(inputDate: string): (r: string)
    ensures r == "" <==> inputDate == ""
  {
    if inputDate == "" then ""
    else
      var monthNumeric := IndexOf(MonthNames, MonthWord(inputDate)) + 1;
      OrUndefined(YearPiece(inputDate)) + "-" + PaddedMonth(monthNumeric)
  }

  /**
   * The month part of a converted non-empty string is two digits denoting
   * the 1-based table position of its first word (0 when it is absent).
   */
  lemma ConvertMonthPart(inputDate: string)
    requires inputDate != ""
    ensures var r := ConvertDateFormat(inputDate);
      && |r| >= 3 && r[|r| - 3] == '-'
      && |MonthOf(r)| == 2 && AllDigits(MonthOf(r))
      && DigitsValue(MonthOf(r)) == IndexOf(MonthNames, MonthWord(inputDate)) + 1
  {
    var n := IndexOf(MonthNames, MonthWord(inputDate)) + 1;
    PaddedMonthDigits(n);
    var r := ConvertDateFormat(inputDate);
    assert r == OrUndefined(YearPiece(inputDate)) + "-" + PaddedMonth(n);
    assert MonthOf(r) == PaddedMonth(n);
  }

  /** Before the hyphen stands the year piece, "undefined" when there is none. */
  lemma ConvertYearPart(inputDate: string)
    requires inputDate != ""
    ensures var r := ConvertDateFormat(inputDate);
      |r| >= 3 && r[..|r| - 3] == OrUndefined(YearPiece(inputDate))
  {
    var n := IndexOf(MonthNames, MonthWord(inputDate)) + 1;
    PaddedMonthDigits(n);
    PrefixBeforeMonth(OrUndefined(YearPiece(inputDate)), PaddedMonth(n));
  }

  lemma PrefixBeforeMonth(y: string, p: string)
    requires |p| == 2
    ensures var r := y + "-" + p; |r| >= 3 && r[..|r| - 3] == y
  {
    var r := y + "-" + p;
    assert r[..|y|] == y;
  }

  /**
   * So the month part is always one of "00".."12": "00" exactly when the
   * first word is not a month name, and otherwise that name's position.
   */
  lemma ConvertMonthNames(inputDate: string)
    requires inputDate != ""
    ensures var r := ConvertDateFormat(inputDate);
      && |r| >= 3 && r[|r| - 3] == '-'
      && var m := MonthOf(r);
      && |m| == 2 && AllDigits(m) && DigitsValue(m) <= 12
      && (DigitsValue(m) == 0 <==> MonthWord(inputDate) !in MonthNames)
      && (DigitsValue(m) > 0 ==> MonthNames[DigitsValue(m) - 1] == MonthWord(inputDate))
  {
    ConvertMonthPart(inputDate);
  }

  /** For 0..12 the padding gives exactly two digits denoting the number. */
  lemma PaddedMonthDigits(n: nat)
    requires n <= 12
    ensures |PaddedMonth(n)| == 2 && AllDigits(PaddedMonth(n)) && DigitsValue(PaddedMonth(n)) == n
  {
    var p := PaddedMonth(n);
    assert Pow10(1) == 10;
    if n >= 10 {
      assert p == [DigitChar(1), DigitChar(n % 10)];
    } else {
      assert p == ['0', DigitChar(n)];
    }
    TwoDigitsValue(p);
  }

  lemma TwoDigitsValue(p: string)
    requires |p| == 2 && AllDigits(p)
    ensures DigitsValue(p) == DigitValue(p[0]) * 10 + DigitValue(p[1])
  {
    var q := p[1..];
    assert q[1..] == [];
    assert DigitsValue(q) == DigitValue(q[0]) * Pow10(0) + DigitsValue(q[1..]);
    assert Pow10(1) == 10;
  }

  /** Padding the number two month digits denote gives back those digits. */
  lemma PaddedMonthOf(mm: string)
    requires IsMonthDigits(mm)
    ensures PaddedMonth(DigitsValue(mm)) == mm
  {
    var n := DigitsValue(mm);
    PaddedMonthDigits(n);
    DigitsCompare(PaddedMonth(n), mm);
  }

  /** A table name and a year convert to "<year>-<two-digit position>". */
  lemma {:induction false} ConvertMonth(k: nat, y: string)
    requires k < 12 && ' ' !in y
    ensures ConvertDateFormat(MonthNames[k] + " " + y) == y + "-" + PaddedMonth(k + 1)
    ensures IsMonthDigits(PaddedMonth(k + 1)) && DigitsValue(PaddedMonth(k + 1)) == k + 1
  {
    MonthNameFacts(k);
    SplitFirst(MonthNames[k], ' ', y);
    SplitNone(y, ' ');
    PaddedMonthDigits(k + 1);
  }

  /** A word that is not a month name, followed by a year, converts to month "00". */
  lemma {:induction false} ConvertUnknownMonth(w: string, y: string)
    requires w !in MonthNames && ' ' !in w && ' ' !in y
    ensures ConvertDateFormat(w + " " + y) == y + "-00"
  {
    SplitFirst(w, ' ', y);
    SplitNone(y, ' ');
    assert Split(w + " " + y, ' ') == [w, y];
    assert IndexOf(MonthNames, w) == -1;
    var r := ConvertDateFormat(w + " " + y);
    assert r == y + "-" + PaddedMonth(0);
    ZeroMonth(y);
  }

  /** Month number 0 pads to "00". */
  lemma ZeroMonth(y: string)
    ensures y + "-" + PaddedMonth(0) == y + "-00"
  {
    assert PaddedMonth(0) == "00";
    assert y + "-" + "00" == y + "-00";
  }

  /** A single word has no year piece: the year prints as "undefined". */
  lemma {:induction false} ConvertSingleWord(w: string)
    requires w != "" && ' ' !in w
    ensures ConvertDateFormat(w) == "undefined" + "-" + PaddedMonth(IndexOf(MonthNames, w) + 1)
  {
    NoYearPiece(w);
    ConvertWithoutYear(w, w);
  }

  /** An input whose split has no year piece converts with the year "undefined". */
  lemma ConvertWithoutYear(inputDate: string, w: string)
    requires inputDate != "" && MonthWord(inputDate) == w && YearPiece(inputDate) == None
    ensures ConvertDateFormat(inputDate) == "undefined" + "-" + PaddedMonth(IndexOf(MonthNames, w) + 1)
  {
    UndefinedDash(PaddedMonth(IndexOf(MonthNames, w) + 1));
  }

  /** A word without a space is its own month word and has no year piece. */
  lemma NoYearPiece(w: string)
    requires ' ' !in w
    ensures MonthWord(w) == w && YearPiece(w) == None
  {
    SplitNone(w, ' ');
  }

  /** The year of a missing piece prints as "undefined". */
  lemma UndefinedDash(p: string)
    ensures OrUndefined(None) + "-" + p == "undefined" + "-" + p
  {
  }

  /**
   * A single word that is no month name converts to "undefined-00": this is
   * what the end of a "... - Present" range turns into.
   */
  lemma {:induction false} ConvertLoneNonMonth(w: string)
    requires w != "" && ' ' !in w && w !in MonthNames
    ensures ConvertDateFormat(w) == "undefined-00"
  {
    ConvertSingleWord(w);
    assert IndexOf(MonthNames, w) + 1 == 0;
    UndefinedZeroMonth();
  }

  /** Month number 0 with no year prints as "undefined-00". */
  lemma UndefinedZeroMonth()
    ensures "undefined" + "-" + PaddedMonth(0) == "undefined-00"
  {
    assert PaddedMonth(0) == "00";
  }

  /** A word whose first letter starts no month name ("Present", "undefined") is not in the table. */
  lemma NotAMonthInitial(w: string)
    requires w != [] && w[0] !in "JFMASOND"
    ensures w !in MonthNames && IndexOf(MonthNames, w) == -1
  {
    forall k | 0 <= k < 12 ensures MonthNames[k] != w {
      assert MonthNames[k][0] in "JFMASOND";
    }
  }

  // ---------------------------------------------------------------------
  // Round trips
  // ---------------------------------------------------------------------

  /**
   * Machine form to display form and back: for a month 01..12 and a year
   * with no hyphen and no space, converting the flipped string gives the
   * original.
   */
  lemma {:induction false} MachineRoundTrip(y: string, mm: string)
    requires '-' !in y && ' ' !in y && IsMonthDigits(mm)
    ensures ConvertDateFormat(FlipDateFormat(y + "-" + mm)) == y + "-" + mm
  {
    FlipMonth(y, mm);
    ConvertMonth(DigitsValue(mm) - 1, y);
    PaddedMonthOf(mm);
  }

  /** Display form to machine form and back, for a table name and such a year. */
  lemma {:induction false} DisplayRoundTrip(k: nat, y: string)
    requires k < 12 && '-' !in y && ' ' !in y
    ensures FlipDateFormat(ConvertDateFormat(MonthNames[k] + " " + y)) == MonthNames[k] + " " + y
  {
    ConvertMonth(k, y);
    FlipMonth(y, PaddedMonth(k + 1));
  }

  /** Every value an `<input type="month">` can hold survives the round trip. */
  lemma {:induction false} MonthStringRoundTrip(s: string)
    requires IsValidMonthString(s)
    ensures ConvertDateFormat(FlipDateFormat(s)) == s
  {
    SplitMonthString(s);
    MachineRoundTrip(YearOf(s), MonthOf(s));
  }

  // ---------------------------------------------------------------------
  // String order against date order
  // ---------------------------------------------------------------------

  /**
   * For "YYYY-MM" strings with four-digit years, the string order `<` that
   * the validator uses is exactly the calendar order.
   */
  lemma {:induction false} IsoOrderIsChronological(a: string, b: string)
    requires IsIsoMonthString(a) && IsIsoMonthString(b)
    ensures LexLess(a, b) <==> MonthOrdinal(a) < MonthOrdinal(b)
  {
    SplitMonthString(a);
    SplitMonthString(b);
    var ya, yb, ma, mb := YearOf(a), YearOf(b), MonthOf(a), MonthOf(b);
    LexLessConcat(ya, "-" + ma, yb, "-" + mb);
    assert ya + ("-" + ma) == a && yb + ("-" + mb) == b;
    LexLessConcat("-", ma, "-", mb);
    DigitsCompare(ya, yb);
    DigitsCompare(ma, mb);
    OrdinalOrder(DigitsValue(ya), DigitsValue(ma) - 1, DigitsValue(yb), DigitsValue(mb) - 1);
  }

  lemma OrdinalOrder(y: nat, m: nat, y': nat, m': nat)
    requires m < 12 && m' < 12
    ensures y * 12 + m < y' * 12 + m' <==> y < y' || (y == y' && m < m')
  {
    if y < y' {
      assert y * 12 + 12 <= y' * 12;
    } else if y' < y {
      assert y' * 12 + 12 <= y * 12;
    }
  }

  /**
   * Past year 9999 the string order is not the calendar order: January
   * 10000 sorts before December 9999.
   */
  lemma FiveDigitYearsMisorder()
    ensures IsValidMonthString("10000-01") && IsValidMonthString("9999-12")
    ensures LexLess("10000-01", "9999-12")
    ensures MonthOrdinal("10000-01") > MonthOrdinal("9999-12")
  {
    var a, b := "10000-01", "9999-12";
    JanuaryTenThousand();
    DecemberNineThousand();
    assert a[0] == '1' && b[0] == '9';
  }

  lemma JanuaryTenThousand()
    ensures IsValidMonthString("10000-01") && MonthOrdinal("10000-01") >= Pow10(4) * 12
  {
    var a := "10000-01";
    assert YearOf(a) == "10000" && MonthOf(a) == "01";
    PaddedMonthDigits(1);
    assert PaddedMonth(1) == "01";
    assert DigitsValue("10000") >= Pow10(4) by {
      assert "10000"[1..] == "0000";
    }
  }

  lemma DecemberNineThousand()
    ensures IsValidMonthString("9999-12") && MonthOrdinal("9999-12") < Pow10(4) * 12
  {
    var b := "9999-12";
    assert YearOf(b) == "9999" && MonthOf(b) == "12";
    PaddedMonthDigits(12);
    assert PaddedMonth(12) == "12";
    DigitsValueBound("9999");
  }

}
