/**
 * The experience-entry editor (client/src/components/ExperienceForm.js).
 *
 * The form keeps five pieces of state (company, title, the start and end
 * months as machine strings "YYYY-MM", and the "present" flag). Every
 * handler overwrites one piece and reports the rebuilt entry
 * `{company, title, date}` to the parent with the form's index, where the
 * date is the display range "<start> - <end or Present>". An effect
 * initialises the state from the entry the parent passes in, splitting its
 * date at "-"; another derives two validity flags and pushes them to the
 * parent.
 */
module Experience {
  import opened Wrappers
  import opened JsString
  import opened DateCodec

  /** An experience entry as the parent holds it. */
  datatype Experience = Experience(company: string, title: string, date: string)

  /** One call of `updateExperience(newExperience, index)`. */
  datatype Update = Update(experience: Experience, index: int)

  /** The two flags the validation effect pushes through `setIsValid` and `setIsValidPresent`. */
  datatype Flags = Flags(isValid: bool, isValidPresent: bool)

  // ---------------------------------------------------------------------
  // The date range string
  // ---------------------------------------------------------------------

  /**
   * The display range an entry is meant to carry, rebuilt from the three
   * pieces of state: "<start> - Present" when the entry is ongoing,
   * "<start> - <end>" otherwise.
   */
  function DateRange(startDate: string, endDate: string, isPresent: bool): string {
    FlipDateFormat(startDate) + " - " + (if isPresent then "Present" else FlipDateFormat(endDate))
  }

  /**
   * The initialisation effect's reading of an entry's date: "" gives two
   * empty months; otherwise the first two pieces of the date split at "-"
   * are trimmed and converted to machine months. A non-empty date without
   * a hyphen has no second piece, and `end.trim()` throws; that is `None`.
   */
  function SplitDateRange(date: string): (r: Option<(string, string)>)
    ensures r.None? <==> date != "" && '-' !in date
  {
    if date == "" then Some(("", ""))
    else
      var parts := Split(date, '-');
      assert |parts| == 1 ==> date == parts[0];
      assert |parts| >= 2 ==> date == parts[0] + ['-'] + Join(parts[1..], '-');
      if |parts| < 2 then None
      else Some((ConvertDateFormat(Trim(parts[0])), ConvertDateFormat(Trim(parts[1]))))
  }

  /** Splitting a range whose two sides hold no hyphen, with " - " between them. */
  lemma {:induction false} SplitRangeAt(a: string, b: string)
    requires '-' !in a && '-' !in b
    ensures SplitDateRange(a + " - " + b) ==
      Some((ConvertDateFormat(Trim(a + " ")), ConvertDateFormat(Trim(" " + b))))
  {
    assert a + " - " + b == (a + " ") + ['-'] + (" " + b);
    SplitFirst(a + " ", '-', " " + b);
    SplitNone(" " + b, '-');
  }

  /** The left side of a rebuilt range reads back as the start month. */
  lemma {:induction false} StartSideReadsBack(startDate: string)
    requires IsValidMonthString(startDate)
    ensures ConvertDateFormat(Trim(FlipDateFormat(startDate) + " ")) == startDate
  {
    var a := FlipDateFormat(startDate);
    FlipShape(startDate);
    TrimPadded("", a, " ");
    assert "" + a + " " == a + " ";
    MonthStringRoundTrip(startDate);
  }

  /** The right side of a rebuilt range reads back as the end month. */
  lemma {:induction false} EndSideReadsBack(endDate: string)
    requires IsValidMonthString(endDate)
    ensures ConvertDateFormat(Trim(" " + FlipDateFormat(endDate))) == endDate
  {
    var b := FlipDateFormat(endDate);
    FlipShape(endDate);
    TrimPadded(" ", b, "");
    assert " " + b + "" == " " + b;
    MonthStringRoundTrip(endDate);
  }

  /**
   * A range rebuilt from two valid months reads back as those months: the
   * initialisation effect undoes what the handlers report.
   */
  lemma {:induction false} RangeRoundTrip(startDate: string, endDate: string)
    requires IsValidMonthString(startDate) && IsValidMonthString(endDate)
    ensures SplitDateRange(DateRange(startDate, endDate, false)) == Some((startDate, endDate))
  {
    var a, b := FlipDateFormat(startDate), FlipDateFormat(endDate);
    assert DateRange(startDate, endDate, false) == a + " - " + b;
    FlipShape(startDate);
    FlipShape(endDate);
    SplitRangeAt(a, b);
    StartSideReadsBack(startDate);
    EndSideReadsBack(endDate);
  }

  /** A lone word with white space around it that is no month name reads back as "undefined-00". */
  lemma {:induction false} PaddedWordReadsBack(pre: string, w: string, post: string)
    requires AllWhiteSpace(pre) && AllWhiteSpace(post) && IsLoneNonMonth(w)
    ensures ConvertDateFormat(Trim(pre + w + post)) == "undefined-00"
  {
    TrimPadded(pre, w, post);
    NotAMonthInitial(w);
    ConvertLoneNonMonth(w);
  }

  /** A single word without white space or hyphen that starts no month name. */
  predicate IsLoneNonMonth(w: string) {
    && w != [] && w[0] !in "JFMASOND" && !IsWhiteSpace(w[0]) && !IsWhiteSpace(w[|w| - 1])
    && ' ' !in w && '-' !in w
  }

  /** The right side of a range holding such a word, with spaces after it. */
  lemma {:induction false} EndWordReadsBack(w: string, post: string)
    requires IsLoneNonMonth(w) && AllWhiteSpace(post) && '-' !in post
    ensures '-' !in w + post
    ensures ConvertDateFormat(Trim(" " + (w + post))) == "undefined-00"
  {
    var b := w + post;
    forall i | 0 <= i < |b| ensures b[i] != '-' {
      if i < |w| { assert b[i] == w[i]; } else { assert b[i] == post[i - |w|]; }
    }
    assert " " + w + post == " " + b;
    PaddedWordReadsBack(" ", w, post);
  }

  /** A range whose right side is such a word, padded with spaces, reads back with end "undefined-00". */
  lemma {:induction false} WordEndReadsBack(a: string, w: string, post: string)
    requires '-' !in a && IsLoneNonMonth(w) && AllWhiteSpace(post) && '-' !in post
    ensures SplitDateRange(a + " - " + (w + post)) == Some((ConvertDateFormat(Trim(a + " ")), "undefined-00"))
  {
    EndWordReadsBack(w, post);
    SplitRangeAt(a, w + post);
  }

  /** A rebuilt range whose end is such a word reads back as the start month and "undefined-00". */
  lemma {:induction false} WordEndRange(startDate: string, w: string, post: string)
    requires IsValidMonthString(startDate) && IsLoneNonMonth(w) && AllWhiteSpace(post) && '-' !in post
    ensures SplitDateRange(FlipDateFormat(startDate) + " - " + (w + post)) == Some((startDate, "undefined-00"))
  {
    FlipShape(startDate);
    WordEndReadsBack(FlipDateFormat(startDate), w, post);
    StartSideReadsBack(startDate);
  }

  /** The end text of an ongoing range. */
  lemma PresentWord()
    ensures IsLoneNonMonth("Present") && AllWhiteSpace("") && '-' !in ""
  {
  }

  /** The end text of a range whose end month was never set. */
  lemma UnsetEndWord()
    ensures FlipDateFormat("") == "undefined" + " "
    ensures IsLoneNonMonth("undefined") && AllWhiteSpace(" ") && '-' !in " "
  {
    FlipEmpty();
    UndefinedWord();
  }

  lemma UndefinedWord()
    ensures "undefined " == "undefined" + " "
    ensures IsLoneNonMonth("undefined") && AllWhiteSpace(" ") && '-' !in " "
  {
  }

  /**
   * An ongoing entry does not read back: its "Present" end converts to
   * "undefined-00", and the present flag is not restored.
   */
  lemma {:induction false} PresentRangeReadsBack(startDate: string, endDate: string)
    requires IsValidMonthString(startDate)
    ensures SplitDateRange(DateRange(startDate, endDate, true)) == Some((startDate, "undefined-00"))
  {
    assert DateRange(startDate, endDate, true) == FlipDateFormat(startDate) + " - " + ("Present" + "");
    PresentWord();
    WordEndRange(startDate, "Present", "");
  }

  /**
   * A range whose end was never set carries "undefined " for the end, which
   * reads back as "undefined-00" rather than "".
   */
  lemma {:induction false} UnsetEndReadsBack(startDate: string)
    requires IsValidMonthString(startDate)
    ensures SplitDateRange(DateRange(startDate, "", false)) == Some((startDate, "undefined-00"))
  {
    UnsetEndWord();
    WordEndRange(startDate, "undefined", " ");
  }

  // ---------------------------------------------------------------------
  // Validation
  // ---------------------------------------------------------------------

  /**
   * `new Date(startDate) > new Date()`, with the current time given as its
   * month `now`: only a four-digit "YYYY-MM" parses as a date (any other
   * string is an invalid date, which compares false), and the first instant
   * of a month is later than now exactly when the month is later than the
   * current month.
   */
  predicate StartsAfter(startDate: string, now: string)
    requires IsIsoMonthString(now)
  {
    IsIsoMonthString(startDate) && MonthOrdinal(startDate) > MonthOrdinal(now)
  }

  /**
   * The validation effect: `isValid` is false exactly when `endDate <
   * startDate` as strings, and `isValidPresent` is false exactly when the
   * entry is ongoing and starts after now. An empty start is before every
   * end; an empty end with a start set is invalid; a finished entry is
   * always valid as to "present".
   */
  function Validity(startDate: string, endDate: string, isPresent: bool, now: string): (f: Flags)
    requires IsIsoMonthString(now)
    ensures f.isValid <==> !LexLess(endDate, startDate)
    ensures startDate == "" ==> f.isValid
    ensures startDate != "" && endDate == "" ==> !f.isValid
    ensures f.isValidPresent <==> !(isPresent && StartsAfter(startDate, now))
    ensures !isPresent ==> f.isValidPresent
    ensures !IsIsoMonthString(startDate) ==> f.isValidPresent
  {
    Flags(!LexLess(endDate, startDate), !(isPresent && StartsAfter(startDate, now)))
  }

  /**
   * For two months an `<input type="month">` produces with four-digit
   * years, `isValid` holds exactly when the end is not earlier on the
   * calendar than the start.
   */
  lemma ValidMeansChronological(startDate: string, endDate: string, isPresent: bool, now: string)
    requires IsIsoMonthString(now) && IsIsoMonthString(startDate) && IsIsoMonthString(endDate)
    ensures Validity(startDate, endDate, isPresent, now).isValid
        <==> MonthOrdinal(startDate) <= MonthOrdinal(endDate)
  {
    IsoOrderIsChronological(endDate, startDate);
  }

  /** The string order decides validity consistently: a range and its reverse are not both invalid. */
  lemma ValidityAntisymmetric(a: string, b: string, now: string)
    requires IsIsoMonthString(now)
    ensures Validity(a, b, false, now).isValid || Validity(b, a, false, now).isValid
  {
    LexLessAsymmetric(a, b);
  }

  // ---------------------------------------------------------------------
  // The form
  // ---------------------------------------------------------------------

  class ExperienceForm {
    /** The position of this entry in the parent's list. */
    const index: int

    var company: string
    var title: string
    var startDate: string
    var endDate: string
    var isPresent: bool

    /** The flags last pushed to the parent by the validation effect. */
    var isValid: bool
    var isValidPresent: bool

    /** Every call made to `updateExperience`, oldest first. */
    var updates: seq<Update>

    /**
     * A freshly mounted form: empty state; the validation effect of the
     * first render pushes `true` for both flags, which is what `Validity`
     * gives for empty dates that are not ongoing, whatever the time.
     */
    constructor (index: int)
      ensures this.index == index
      ensures company == "" && title == "" && startDate == "" && endDate == "" && !isPresent
      ensures isValid && isValidPresent && updates == []
    {
      this.index := index;
      company, title, startDate, endDate, isPresent := "", "", "", "", false;
      isValid, isValidPresent := true, true;
      updates := [];
    }

    /** The entry the form's state describes, with the date rebuilt from its three pieces. */
    function Entry(): Experience
      reads this
    {
      Experience(company, title, DateRange(startDate, endDate, isPresent))
    }

    /** The date of the most recent report to the parent. */
    function LastReportedDate(): string
      reads this
      requires updates != []
    {
      updates[|updates| - 1].experience.date
    }

    /**
     * The initialisation effect (run when the `experience` prop changes):
     * copies company and title and splits the date into the two machine
     * months. `ok` is false when the date has no hyphen and the effect
     * throws after setting company and title.
     */
    method Initialize(experience: Option<Experience>) returns (ok: bool)
      modifies this`company, this`title, this`startDate, this`endDate
      ensures experience.None? ==> (ok && company == old(company) && title == old(title)
        && startDate == old(startDate) && endDate == old(endDate))
      ensures experience.Some? ==> company == experience.value.company && title == experience.value.title
      ensures experience.Some? ==> (ok <==> SplitDateRange(experience.value.date).Some?)
      ensures experience.Some? && ok ==> SplitDateRange(experience.value.date) == Some((startDate, endDate))
      ensures !ok ==> startDate == old(startDate) && endDate == old(endDate)
    {
      ok := true;
      if experience.Some? {
        company := experience.value.company;
        title := experience.value.title;
        var range := SplitDateRange(experience.value.date);
        if range.Some? {
          startDate, endDate := range.value.0, range.value.1;
        } else {
          ok := false;
        }
      }
    }

    /** The validation effect, with the current month `now`. */
    method ValidationEffect(now: string)
      requires IsIsoMonthString(now)
      modifies this`isValid, this`isValidPresent
      ensures Flags(isValid, isValidPresent) == Validity(startDate, endDate, isPresent, now)
    {
      isValidPresent := !(isPresent && StartsAfter(startDate, now));
      isValid := !LexLess(endDate, startDate);
    }

    /**
     * `handleExperienceChange(e, field)`: a new start month reports the range
     * with "Present" or the flipped end; a new end month reports the flipped
     * start and end (the end input is shown only when the entry is not
     * ongoing); any other field changes nothing.
     */
    method HandleExperienceChange(value: string, field: string)
      modifies this`startDate, this`endDate, this`updates
      ensures field == "startDate" ==> (startDate == value && endDate == old(endDate)
        && updates == old(updates) + [Update(Entry(), index)])
      ensures field == "endDate" ==> (endDate == value && startDate == old(startDate)
        && updates == old(updates) + [Update(Experience(company, title,
             FlipDateFormat(startDate) + " - " + FlipDateFormat(value)), index)])
      ensures field == "endDate" && !isPresent ==> updates[|updates| - 1] == Update(Entry(), index)
      ensures field != "startDate" && field != "endDate" ==>
        startDate == old(startDate) && endDate == old(endDate) && updates == old(updates)
    {
      if field == "startDate" {
        startDate := value;
        var date := FlipDateFormat(value) + " - " + (if isPresent then "Present" else FlipDateFormat(endDate));
        updates := updates + [Update(Experience(company, title, date), index)];
      } else if field == "endDate" {
        endDate := value;
        var date := FlipDateFormat(startDate) + " - " + FlipDateFormat(value);
        updates := updates + [Update(Experience(company, title, date), index)];
      }
    }

    /**
     * `handleCompanyChange(value)` as written: the reported date flips the
     * company name where the start month belongs, and ignores the present
     * flag.
     */
    method HandleCompanyChange(value: string)
      modifies this`company, this`updates
      ensures company == value
      ensures updates == old(updates) + [Update(Experience(value, title,
        FlipDateFormat(value) + " - " + FlipDateFormat(endDate)), index)]
    {
      company := value;
      var date := FlipDateFormat(value) + " - " + FlipDateFormat(endDate);
      updates := updates + [Update(Experience(value, title, date), index)];
    }

    /** `handleCompanyChange(value)` as intended: the entry is reported with its own date range. */
    method HandleCompanyChangeCorrected(value: string)
      modifies this`company, this`updates
      ensures company == value
      ensures updates == old(updates) + [Update(Entry(), index)]
    {
      company := value;
      updates := updates + [Update(Experience(value, title, DateRange(startDate, endDate, isPresent)), index)];
    }

    /**
     * `handleTitleChange(value)` as written: the reported date uses the end
     * month even when the entry is ongoing; it is the entry's own range only
     * when the entry is not ongoing.
     */
    method HandleTitleChange(value: string)
      modifies this`title, this`updates
      ensures title == value
      ensures updates == old(updates) + [Update(Experience(company, value,
        FlipDateFormat(startDate) + " - " + FlipDateFormat(endDate)), index)]
      ensures !isPresent ==> updates[|updates| - 1] == Update(Entry(), index)
    {
      title := value;
      var date := FlipDateFormat(startDate) + " - " + FlipDateFormat(endDate);
      updates := updates + [Update(Experience(company, value, date), index)];
      if !isPresent {
        assert date == DateRange(startDate, endDate, isPresent);
        assert Entry() == Experience(company, value, date);
      }
    }

    /** `handleTitleChange(value)` as intended: the entry is reported with its own date range. */
    method HandleTitleChangeCorrected(value: string)
      modifies this`title, this`updates
      ensures title == value
      ensures updates == old(updates) + [Update(Entry(), index)]
    {
      title := value;
      updates := updates + [Update(Experience(company, value, DateRange(startDate, endDate, isPresent)), index)];
    }

    /**
     * `handlePresentCheckboxChange(e)`: stores the new checked state and
     * reports the range built from the negation of the old flag. A checkbox
     * change always flips the flag, so the report is the entry's own range.
     */
    method HandlePresentCheckboxChange(checked: bool)
      modifies this`isPresent, this`updates
      ensures isPresent == checked
      ensures updates == old(updates) + [Update(Experience(company, title,
        FlipDateFormat(startDate) + " - " + (if !old(isPresent) then "Present" else FlipDateFormat(endDate))), index)]
      ensures checked == !old(isPresent) ==> updates[|updates| - 1] == Update(Entry(), index)
    {
      var wasPresent := isPresent;
      isPresent := checked;
      var date := FlipDateFormat(startDate) + " - " + (if !wasPresent then "Present" else FlipDateFormat(endDate));
      updates := updates + [Update(Experience(company, title, date), index)];
    }
  }

  // ---------------------------------------------------------------------
  // The two handler defects, on concrete input
  // ---------------------------------------------------------------------

  /**
   * A settled entry (a start and an end month, not ongoing) whose company
   * is then edited: the report carries "undefined <name>" where the start
   * month belongs, so it differs from the form's own range.
   */
  method CompanyChangeCounterexample(form: ExperienceForm, name: string) returns (reported: string, intended: string)
    requires IsValidMonthString(form.startDate) && IsValidMonthString(form.endDate) && !form.isPresent
    requires '-' !in name
    modifies form
    ensures form.updates != [] && reported == form.LastReportedDate() && intended == form.Entry().date
    ensures reported == "undefined " + name + " - " + FlipDateFormat(form.endDate)
    ensures intended == FlipDateFormat(form.startDate) + " - " + FlipDateFormat(form.endDate)
    ensures reported != intended
  {
    form.HandleCompanyChange(name);
    reported := form.LastReportedDate();
    intended := form.Entry().date;
    FlippedNameIsNoMonth(form.startDate, name, FlipDateFormat(form.endDate));
  }

  /** A display month starts with a capital month initial, never with "undefined". */
  lemma {:induction false} FlippedNameIsNoMonth(startDate: string, name: string, e: string)
    requires IsValidMonthString(startDate)
    requires '-' !in name
    ensures FlipDateFormat(name) + " - " + e == "undefined " + name + " - " + e
    ensures "undefined " + name + " - " + e != FlipDateFormat(startDate) + " - " + e
  {
    FlipNoHyphen(name);
    var k := MonthNumber(startDate) - 1;
    var shown := FlipDateFormat(startDate);
    FlipShape(startDate);
    MonthNameStart(k);
    assert shown[0] == MonthNames[k][0];
    LeadDiffers("undefined " + name, shown, e);
  }

  lemma LeadDiffers(x: string, y: string, e: string)
    requires x != [] && y != [] && x[0] != y[0]
    ensures x + " - " + e != y + " - " + e
  {
    assert (x + " - " + e)[0] == x[0];
    assert (y + " - " + e)[0] == y[0];
  }

  /**
   * An ongoing entry whose title is then edited: the report ends in the
   * flipped end month ("undefined " when none was picked) where the form's
   * own range ends in "Present".
   */
  method TitleChangeCounterexample(form: ExperienceForm, title: string) returns (reported: string, intended: string)
    requires form.isPresent
    modifies form
    ensures form.updates != [] && reported == form.LastReportedDate() && intended == form.Entry().date
    ensures reported == FlipDateFormat(form.startDate) + " - " + FlipDateFormat(form.endDate)
    ensures intended == FlipDateFormat(form.startDate) + " - " + "Present"
    ensures form.endDate == "" ==> reported == FlipDateFormat(form.startDate) + " - " + "undefined "
    ensures reported != intended
  {
    form.HandleTitleChange(title);
    reported := form.LastReportedDate();
    intended := form.Entry().date;
    FlipEmpty();
    FlipHasSpace(form.endDate);
    var a := FlipDateFormat(form.startDate) + " - ";
    assert reported[|a|..] == FlipDateFormat(form.endDate);
    assert intended[|a|..] == "Present";
  }

  /** A flipped date always holds the space between month text and year, which "Present" lacks. */
  lemma FlipHasSpace(d: string)
    ensures ' ' in FlipDateFormat(d) && FlipDateFormat(d) != "Present"
  {
    var parts := Split(d, '-');
    var text := OrUndefined(MonthText(ParseInt(OrUndefined(if |parts| > 1 then Some(parts[1]) else None))));
    assert FlipDateFormat(d) == text + " " + parts[0];
    SpacedIsNotPresent(text, parts[0]);
  }

  lemma SpacedIsNotPresent(a: string, b: string)
    ensures ' ' in a + " " + b && a + " " + b != "Present"
  {
    assert (a + " " + b)[|a|] == ' ';
    assert ' ' !in "Present";
  }
}
