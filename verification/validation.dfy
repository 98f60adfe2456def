/** The field validators of the planner (js/utils/validation.js). Each anchored
    pattern is written down twice: literally, as a `Regex.Re` value, and as a
    character-level predicate that the application calls. A lemma per pattern proves
    that the two accept the same strings. */
module Validation {
  import opened Wrappers
  import opened JsChars
  import opened Decimal
  import opened Regex

  // ---------------------------------------------------------------------------
  // The patterns, transcribed.

  /** `[ -]` */
  predicate IsTagSeparator(c: char) {
    c == ' ' || c == '-'
  }

  /** title: `^\S(?:.*\S)?$` */
  const TitlePattern: Re :=
    Cat(Class(IsNonSpace), Opt(Cat(Star(Class(IsDotChar)), Class(IsNonSpace))))

  /** `\d{1,2}` */
  const OneOrTwoDigits: Re := Cat(Class(IsDigit), Opt(Class(IsDigit)))

  /** `[1-9]\d*` */
  const WholePart: Re := Cat(Class(IsNonZeroDigit), Star(Class(IsDigit)))

  /** `.\d{1,2}`, where the unescaped `.` is any character but a line terminator */
  const FractionPart: Re := Cat(Class(IsDotChar), OneOrTwoDigits)

  /** duration: `^([1-9]\d*)(.\d{1,2})?$` */
  const DurationPattern: Re := Cat(WholePart, Opt(FractionPart))

  /** `(0[1-9]|1[0-2])` */
  const MonthPattern: Re :=
    Alt(Cat(Lit('0'), Range('1', '9')), Cat(Lit('1'), Range('0', '2')))

  /** `(0[1-9]|[12]\d|3[01])` */
  const DayPattern: Re :=
    Alt(Alt(Cat(Lit('0'), Range('1', '9')), Cat(Range('1', '2'), Class(IsDigit))),
        Cat(Lit('3'), Range('0', '1')))

  /** date: `^\d{4}-(0[1-9]|1[0-2])-(0[1-9]|[12]\d|3[01])$` */
  const DatePattern: Re :=
    Cat(Repeat(Class(IsDigit), 4), Cat(Lit('-'), Cat(MonthPattern, Cat(Lit('-'), DayPattern))))

  /** `(?:[ -][A-Za-z]+)*` */
  const TagGroups: Re := Star(Cat(Class(IsTagSeparator), Plus(Class(IsAsciiLetter))))

  /** tag: `^[A-Za-z]+(?:[ -][A-Za-z]+)*$` */
  const TagPattern: Re := Cat(Plus(Class(IsAsciiLetter)), TagGroups)

  // ---------------------------------------------------------------------------
  // Title

  /** `validateTitle`: non-empty, neither end is whitespace, and no line terminator anywhere. */
  predicate ValidateTitle(s: string) {
    && |s| >= 1
    && IsNonSpace(s[0]) && IsNonSpace(s[|s| - 1])
    && forall i :: 0 <= i < |s| ==> IsDotChar(s[i])
  }

  lemma TitlePatternIff(s: string)
    ensures Matches(TitlePattern, s) <==> ValidateTitle(s)
  {
    var tail := Cat(Star(Class(IsDotChar)), Class(IsNonSpace));
    CatClass(IsNonSpace, Opt(tail), s);
    if |s| >= 1 {
      var t := s[1..];
      CatClassLast(Star(Class(IsDotChar)), IsNonSpace, t);
      if |t| >= 1 {
        StarClass(IsDotChar, t[..|t| - 1]);
        assert forall i :: 1 <= i < |s| - 1 ==> s[i] == t[..|t| - 1][i - 1];
        assert s[|s| - 1] == t[|t| - 1];
      }
      LineTerminatorIsSpace(s[0]);
      LineTerminatorIsSpace(s[|s| - 1]);
    }
  }

  // ---------------------------------------------------------------------------
  // Duration

  /** A fractional part starting at index `k`: digits from index 1 up to `k`, then one
      character other than a line terminator at `k`, then digits to the end. */
  predicate FractionAt(s: string, k: int) {
    && 1 <= k < |s|
    && (forall i :: 1 <= i < k ==> IsDigit(s[i]))
    && IsDotChar(s[k])
    && (forall i :: k < i < |s| ==> IsDigit(s[i]))
  }

  /** The string test of `validateDuration`: a digit 1-9, then digits, then optionally
      any one character that is not a line terminator followed by one or two digits. */
  predicate DurationTextOk(s: string) {
    && |s| >= 1
    && IsNonZeroDigit(s[0])
    && ((forall i :: 1 <= i < |s| ==> IsDigit(s[i])) || FractionAt(s, |s| - 2) || FractionAt(s, |s| - 3))
  }

  lemma WholePartIff(u: string)
    ensures Matches(WholePart, u) <==>
      |u| >= 1 && IsNonZeroDigit(u[0]) && forall i :: 1 <= i < |u| ==> IsDigit(u[i])
  {
    CatClass(IsNonZeroDigit, Star(Class(IsDigit)), u);
    if |u| >= 1 {
      StarClass(IsDigit, u[1..]);
      assert forall i :: 1 <= i < |u| ==> u[i] == u[1..][i - 1];
    }
  }

  lemma FractionPartIff(v: string)
    ensures Matches(FractionPart, v) <==>
      (|v| == 2 || |v| == 3) && IsDotChar(v[0]) && forall i :: 1 <= i < |v| ==> IsDigit(v[i])
  {
    CatClass(IsDotChar, OneOrTwoDigits, v);
    if |v| >= 1 {
      var w := v[1..];
      CatClass(IsDigit, Opt(Class(IsDigit)), w);
      if |w| >= 1 {
        assert Matches(Opt(Class(IsDigit)), w[1..]) <==> |w| == 1 || (|w| == 2 && IsDigit(w[1]));
      }
      assert forall i :: 1 <= i < |v| ==> v[i] == w[i - 1];
    }
  }

  lemma DurationPatternIff(s: string)
    ensures Matches(DurationPattern, s) <==> DurationTextOk(s)
  {
    if Matches(DurationPattern, s) {
      DurationPatternSound(s);
    }
    if DurationTextOk(s) {
      DurationPatternComplete(s);
    }
  }

  lemma DurationPatternSound(s: string)
    requires Matches(DurationPattern, s)
    ensures DurationTextOk(s)
  {
    var k :| 0 <= k <= |s| && Matches(WholePart, s[..k]) && Matches(Opt(FractionPart), s[k..]);
    WholePartIff(s[..k]);
    assert forall i :: 0 <= i < k ==> s[i] == s[..k][i];
    if k < |s| {
      var v := s[k..];
      assert v != [] && Matches(Alt(FractionPart, Epsilon), v);
      assert Matches(FractionPart, v);
      FractionPartIff(v);
      assert forall i :: 0 <= i < |v| ==> v[i] == s[k + i];
      assert FractionAt(s, k);
    }
  }

  lemma DurationPatternComplete(s: string)
    requires DurationTextOk(s)
    ensures Matches(DurationPattern, s)
  {
    var k := if forall i :: 1 <= i < |s| ==> IsDigit(s[i]) then |s|
             else if FractionAt(s, |s| - 2) then |s| - 2 else |s| - 3;
    var u := s[..k];
    var v := s[k..];
    assert forall i :: 0 <= i < |u| ==> u[i] == s[i];
    assert forall i :: 0 <= i < |v| ==> v[i] == s[k + i];
    WholePartIff(u);
    assert Matches(WholePart, u);
    if k < |s| {
      FractionPartIff(v);
      assert Matches(FractionPart, v);
    }
    assert Matches(Opt(FractionPart), v);
    assert 0 <= k <= |s| && Matches(WholePart, s[..k]) && Matches(Opt(FractionPart), s[k..]);
  }

  /** `validateDuration(d)`, which tests `String(d)`. */
  predicate ValidateDuration(d: Num) {
    DurationTextOk(NumberToString(d))
  }

  /** On the numbers this program produces, the duration test accepts exactly the
      positive integers: `0`, negatives and `NaN` are refused. */
  lemma DurationAcceptsPositive(d: Num)
    ensures ValidateDuration(d) <==> d.Int? && d.value > 0
  {
    if d.Int? && d.value > 0 {
      var s := ToDecimal(d.value);
      assert forall i :: 1 <= i < |s| ==> IsDigit(s[i]);
    }
  }

  // ---------------------------------------------------------------------------
  // Date

  /** Two decimal digits read as a number. */
  function TwoDigitValue(hi: char, lo: char): nat
    requires IsDigit(hi) && IsDigit(lo)
  {
    10 * DigitValue(hi) + DigitValue(lo)
  }

  /** The syntactic part of `validateDate`: `YYYY-MM-DD` with month 01-12 and day 01-31. */
  predicate DateSyntaxOk(s: string) {
    && |s| == 10
    && (forall i :: 0 <= i < 10 && i != 4 && i != 7 ==> IsDigit(s[i]))
    && s[4] == '-' && s[7] == '-'
    && 1 <= TwoDigitValue(s[5], s[6]) <= 12
    && 1 <= TwoDigitValue(s[8], s[9]) <= 31
  }

  lemma MonthPatternIff(t: string)
    ensures Matches(MonthPattern, t) <==>
      |t| == 2 && IsDigit(t[0]) && IsDigit(t[1]) && 1 <= TwoDigitValue(t[0], t[1]) <= 12
  {
    CatClass(Lit('0').accepts, Range('1', '9'), t);
    CatClass(Lit('1').accepts, Range('0', '2'), t);
  }

  lemma DayPatternIff(t: string)
    ensures Matches(DayPattern, t) <==>
      |t| == 2 && IsDigit(t[0]) && IsDigit(t[1]) && 1 <= TwoDigitValue(t[0], t[1]) <= 31
  {
    CatClass(Lit('0').accepts, Range('1', '9'), t);
    CatClass(Range('1', '2').accepts, Class(IsDigit), t);
    CatClass(Lit('3').accepts, Range('0', '1'), t);
  }

  lemma DatePatternIff(s: string)
    ensures Matches(DatePattern, s) <==> DateSyntaxOk(s)
  {
    var rest := Cat(Lit('-'), Cat(MonthPattern, Cat(Lit('-'), DayPattern)));
    RepeatWidth(Class(IsDigit), 4);
    CatFixed(Repeat(Class(IsDigit), 4), rest, s);
    if |s| >= 4 {
      RepeatClass(IsDigit, 4, s[..4]);
      DateRestIff(s[4..]);
      assert forall i :: 0 <= i < 4 ==> s[..4][i] == s[i];
      assert forall i :: 4 <= i < |s| ==> s[4..][i - 4] == s[i];
    }
  }

  /** `-MM-DD` */
  lemma DateRestIff(t: string)
    ensures Matches(Cat(Lit('-'), Cat(MonthPattern, Cat(Lit('-'), DayPattern))), t) <==>
      && |t| == 6 && t[0] == '-' && t[3] == '-'
      && IsDigit(t[1]) && IsDigit(t[2]) && 1 <= TwoDigitValue(t[1], t[2]) <= 12
      && IsDigit(t[4]) && IsDigit(t[5]) && 1 <= TwoDigitValue(t[4], t[5]) <= 31
  {
    var day := Cat(Lit('-'), DayPattern);
    CatClass(Lit('-').accepts, Cat(MonthPattern, day), t);
    if |t| >= 1 {
      var t1 := t[1..];
      assert Width(MonthPattern) == Some(2);
      CatFixed(MonthPattern, day, t1);
      if |t1| >= 2 {
        MonthPatternIff(t1[..2]);
        DashDayIff(t1[2..]);
        assert t1[..2] == t[1..3];
      }
    }
  }

  /** `-DD` */
  lemma DashDayIff(t: string)
    ensures Matches(Cat(Lit('-'), DayPattern), t) <==>
      |t| == 3 && t[0] == '-' && IsDigit(t[1]) && IsDigit(t[2]) && 1 <= TwoDigitValue(t[1], t[2]) <= 31
  {
    CatClass(Lit('-').accepts, DayPattern, t);
    if |t| >= 1 {
      DayPatternIff(t[1..]);
    }
  }

  /** `validateDate`: the syntactic test first; only a string that passes it is handed
      to the calendar check (`new Date(s)` yielding a valid date), which is a parameter. */
  predicate ValidateDate(s: string, calendar: string -> bool) {
    DateSyntaxOk(s) && calendar(s)
  }

  // ---------------------------------------------------------------------------
  // Tag

  /** `validateTag`: letters and single separators, starting and ending with a letter,
      every separator preceded by a letter (so no separator is doubled). */
  predicate ValidateTag(s: string) {
    && |s| >= 1
    && IsAsciiLetter(s[0]) && IsAsciiLetter(s[|s| - 1])
    && (forall i :: 0 <= i < |s| ==> IsAsciiLetter(s[i]) || IsTagSeparator(s[i]))
    && (forall i :: 0 < i < |s| && IsTagSeparator(s[i]) ==> IsAsciiLetter(s[i - 1]))
  }

  /** A valid tag is its first word, then nothing or a separator and a valid tag. */
  lemma SplitTag(s: string)
    requires ValidateTag(s)
    ensures var k := RunEnd(s, 0, IsAsciiLetter);
      k >= 1 && (k == |s| || (IsTagSeparator(s[k]) && ValidateTag(s[k + 1..])))
  {
    var k := RunEnd(s, 0, IsAsciiLetter);
    if k < |s| {
      var t := s[k + 1..];
      assert k + 1 < |s|;
      assert !IsTagSeparator(s[k + 1]);
      assert forall i :: 0 <= i < |t| ==> t[i] == s[k + 1 + i];
    }
  }

  lemma JoinTag(s: string, k: nat)
    requires 1 <= k <= |s|
    requires forall i :: 0 <= i < k ==> IsAsciiLetter(s[i])
    requires k == |s| || (IsTagSeparator(s[k]) && ValidateTag(s[k + 1..]))
    ensures ValidateTag(s)
  {
    if k < |s| {
      var t := s[k + 1..];
      assert forall i :: k + 1 <= i < |s| ==> s[i] == t[i - k - 1];
    }
  }

  /** `[ -][A-Za-z]+` */
  lemma GroupIff(w: string)
    ensures Matches(Cat(Class(IsTagSeparator), Plus(Class(IsAsciiLetter))), w) <==>
      |w| >= 2 && IsTagSeparator(w[0]) && forall i :: 1 <= i < |w| ==> IsAsciiLetter(w[i])
  {
    CatClass(IsTagSeparator, Plus(Class(IsAsciiLetter)), w);
    if |w| >= 1 {
      PlusClass(IsAsciiLetter, w[1..]);
      assert forall i :: 1 <= i < |w| ==> w[i] == w[1..][i - 1];
    }
  }

  lemma {:induction false} TagGroupsIff(s: string)
    ensures Matches(TagGroups, s) <==> s == [] || (IsTagSeparator(s[0]) && ValidateTag(s[1..]))
    decreases |s|
  {
    if s != [] {
      if Matches(TagGroups, s) {
        TagGroupsSound(s);
      }
      if IsTagSeparator(s[0]) && ValidateTag(s[1..]) {
        TagGroupsComplete(s);
      }
    }
  }

  lemma {:induction false} TagGroupsSound(s: string)
    requires s != [] && Matches(TagGroups, s)
    ensures IsTagSeparator(s[0]) && ValidateTag(s[1..])
    decreases |s|, 0
  {
    var group := Cat(Class(IsTagSeparator), Plus(Class(IsAsciiLetter)));
    var k :| 0 < k <= |s| && Matches(group, s[..k]) && Matches(TagGroups, s[k..]);
    GroupIff(s[..k]);
    TagGroupsIff(s[k..]);
    var t := s[1..];
    assert forall i :: 0 <= i < k - 1 ==> t[i] == s[..k][i + 1];
    if k < |s| {
      assert t[k..] == s[k..][1..];
    }
    JoinTag(t, k - 1);
  }

  lemma {:induction false} TagGroupsComplete(s: string)
    requires s != [] && IsTagSeparator(s[0]) && ValidateTag(s[1..])
    ensures Matches(TagGroups, s)
    decreases |s|, 0
  {
    var group := Cat(Class(IsTagSeparator), Plus(Class(IsAsciiLetter)));
    var t := s[1..];
    var k := RunEnd(t, 0, IsAsciiLetter);
    SplitTag(t);
    TagGroupsIff(t[k..]);
    if k < |t| {
      assert t[k..][1..] == t[k + 1..];
    }
    var w := s[..k + 1];
    GroupIff(w);
    assert forall i :: 0 <= i < k ==> w[i + 1] == t[i];
    assert Matches(group, w);
    assert s[k + 1..] == t[k..];
    assert Matches(TagGroups, s[k + 1..]);
  }

  lemma TagPatternIff(s: string)
    ensures Matches(TagPattern, s) <==> ValidateTag(s)
  {
    if Matches(TagPattern, s) {
      TagPatternSound(s);
    }
    if ValidateTag(s) {
      TagPatternComplete(s);
    }
  }

  lemma TagPatternSound(s: string)
    requires Matches(TagPattern, s)
    ensures ValidateTag(s)
  {
    var k :| 0 <= k <= |s| && Matches(Plus(Class(IsAsciiLetter)), s[..k]) && Matches(TagGroups, s[k..]);
    PlusClass(IsAsciiLetter, s[..k]);
    TagGroupsIff(s[k..]);
    assert forall i :: 0 <= i < k ==> s[i] == s[..k][i];
    if k < |s| {
      assert s[k..][1..] == s[k + 1..];
    }
    JoinTag(s, k);
  }

  lemma TagPatternComplete(s: string)
    requires ValidateTag(s)
    ensures Matches(TagPattern, s)
  {
    var k := RunEnd(s, 0, IsAsciiLetter);
    SplitTag(s);
    PlusClass(IsAsciiLetter, s[..k]);
    TagGroupsIff(s[k..]);
    if k < |s| {
      assert s[k..][1..] == s[k + 1..];
    }
    assert Matches(Plus(Class(IsAsciiLetter)), s[..k]);
    assert Matches(TagGroups, s[k..]);
  }

  // ---------------------------------------------------------------------------
  // Whole task

  /** The fields `validateTask` reads. `duration` is whatever number the caller holds. */
  datatype Draft = Draft(title: string, duration: Num, tag: string, dueDate: string)

  /** The four failures `validateTask` reports, in the order its checks run. */
  datatype FieldError = TitleError | DurationError | DateError | TagError {

    /** The message pushed onto the error list. */
    function Message(): string {
      match this
      case TitleError => "Invalid title format"
      case DurationError => "Invalid duration"
      case DateError => "Invalid date format"
      case TagError => "Invalid tag format"
    }

    /** Position of the check in `validateTask`. */
    function Rank(): nat {
      match this
      case TitleError => 0
      case DurationError => 1
      case DateError => 2
      case TagError => 3
    }
  }

  /** What `validateTask` returns. */
  datatype Verdict = Verdict(isValid: bool, errors: seq<FieldError>)

  /** A check that returns false pushes its error. */
  function ErrorIf(ok: bool, e: FieldError): seq<FieldError> {
    if ok then [] else [e]
  }

  /** `validateTask`: all four checks run, none short-circuits the others; each failure
      pushes its message, in the order title, duration, date, tag. */
  function ValidateTask(d: Draft, calendar: string -> bool): (v: Verdict)
    ensures v.isValid <==> v.errors == []
    ensures TitleError in v.errors <==> !ValidateTitle(d.title)
    ensures DurationError in v.errors <==> !ValidateDuration(d.duration)
    ensures DateError in v.errors <==> !ValidateDate(d.dueDate, calendar)
    ensures TagError in v.errors <==> !ValidateTag(d.tag)
    ensures forall i, j :: 0 <= i < j < |v.errors| ==> v.errors[i].Rank() < v.errors[j].Rank()
    ensures |v.errors| <= 4
  {
    var titleOk := ValidateTitle(d.title);
    var durationOk := ValidateDuration(d.duration);
    var dateOk := ValidateDate(d.dueDate, calendar);
    var tagOk := ValidateTag(d.tag);
    var errors := Errors(titleOk, durationOk, dateOk, tagOk);
    ErrorsListFailures(titleOk, durationOk, dateOk, tagOk);
    Verdict(|errors| == 0, errors)
  }

  /** The error list for the outcomes of the four checks. */
  function Errors(titleOk: bool, durationOk: bool, dateOk: bool, tagOk: bool): seq<FieldError> {
    ErrorIf(titleOk, TitleError) + ErrorIf(durationOk, DurationError)
    + ErrorIf(dateOk, DateError) + ErrorIf(tagOk, TagError)
  }

  /** Each failed check contributes its error, once and in check order. */
  lemma ErrorsListFailures(titleOk: bool, durationOk: bool, dateOk: bool, tagOk: bool)
    ensures var e := Errors(titleOk, durationOk, dateOk, tagOk);
      && (e == [] <==> titleOk && durationOk && dateOk && tagOk)
      && (TitleError in e <==> !titleOk) && (DurationError in e <==> !durationOk)
      && (DateError in e <==> !dateOk) && (TagError in e <==> !tagOk)
      && (forall i, j :: 0 <= i < j < |e| ==> e[i].Rank() < e[j].Rank())
      && |e| <= 4
  {
  }

  /** The submit path trims the title first; `trim` and `\S` use the same whitespace,
      so a trimmed title is refused only when nothing is left or a line terminator
      remains inside it. */
  lemma TrimmedTitleIff(raw: string)
    ensures ValidateTitle(Trim(raw)) <==>
      Trim(raw) != [] && forall i :: 0 <= i < |Trim(raw)| ==> !IsLineTerminator(Trim(raw)[i])
  {
  }

  // ---------------------------------------------------------------------------
  // `duplicateWords: /\b(\w+)\s+\1\b/` with `test`

  /** The pattern matches `t` starting at `i`, with the captured word ending at `j` and
      the whitespace ending at `k`: the regular-expression meaning, including the
      backreference and both word boundaries. */
  ghost predicate DuplicateMatch(t: string, i: int, j: int, k: int) {
    && 0 <= i < j < k && k + (j - i) <= |t|
    && IsWordBoundary(t, i)
    && (forall x :: i <= x < j ==> IsWordChar(t[x]))
    && (forall x :: j <= x < k ==> IsSpace(t[x]))
    && t[k..k + (j - i)] == t[i..j]
    && IsWordBoundary(t, k + (j - i))
  }

  /** Character-level test at one start position: a whole word begins at `i`, is followed
      by a run of whitespace, and then by the same characters ending at a word boundary. */
  predicate DuplicateStartsAt(t: string, i: nat)
    requires i <= |t|
  {
    && i < |t| && IsWordChar(t[i]) && (i == 0 || !IsWordChar(t[i - 1]))
    && var j := RunEnd(t, i, IsWordChar);
       var k := RunEnd(t, j, IsSpace);
       var w := j - i;
       k > j && k + w <= |t| && t[k..k + w] == t[i..j] && (k + w == |t| || !IsWordChar(t[k + w]))
  }

  lemma DuplicateStartsAtIff(t: string, i: nat)
    requires i <= |t|
    ensures DuplicateStartsAt(t, i) <==> exists j, k :: DuplicateMatch(t, i, j, k)
  {
    if DuplicateStartsAt(t, i) {
      DuplicateStartsAtSound(t, i);
    }
    if exists j, k :: DuplicateMatch(t, i, j, k) {
      var j, k :| DuplicateMatch(t, i, j, k);
      DuplicateStartsAtComplete(t, i, j, k);
    }
  }

  lemma DuplicateStartsAtSound(t: string, i: nat)
    requires i <= |t| && DuplicateStartsAt(t, i)
    ensures DuplicateMatch(t, i, RunEnd(t, i, IsWordChar), RunEnd(t, RunEnd(t, i, IsWordChar), IsSpace))
  {
    var j := RunEnd(t, i, IsWordChar);
    var k := RunEnd(t, j, IsSpace);
    var w := j - i;
    assert t[k..k + w][w - 1] == t[i..j][w - 1];
    assert t[k + w - 1] == t[j - 1];
  }

  lemma DuplicateStartsAtComplete(t: string, i: nat, j: int, k: int)
    requires i <= |t| && DuplicateMatch(t, i, j, k)
    ensures DuplicateStartsAt(t, i)
  {
    var w := j - i;
    WordCharIsNotSpace(t[j]);
    RunEndUnique(t, i, IsWordChar, j);
    assert t[k..k + w][0] == t[i..j][0];
    assert t[k] == t[i];
    WordCharIsNotSpace(t[k]);
    RunEndUnique(t, j, IsSpace, k);
    assert t[k..k + w][w - 1] == t[i..j][w - 1];
    assert t[k + w - 1] == t[j - 1];
  }

  /** `hasDuplicateWords`: some whole word is followed, after whitespace, by the same word
      (case-sensitive) ending at a word boundary. The pattern has no `g` flag, so the
      test keeps no state between calls. */
  method HasDuplicateWords(t: string) returns (found: bool)
    ensures found <==> exists i, j, k :: DuplicateMatch(t, i, j, k)
  {
    var i := 0;
    while i < |t|
      invariant 0 <= i <= |t|
      invariant forall i', j, k :: 0 <= i' < i ==> !DuplicateMatch(t, i', j, k)
    {
      DuplicateStartsAtIff(t, i);
      if DuplicateStartsAt(t, i) {
        return true;
      }
      i := i + 1;
    }
    return false;
  }

  // ---------------------------------------------------------------------------
  // `timeFormat: /\b\d{2}:\d{2}\b/` with `String.prototype.match`

  /** The pattern matches the five characters of `t` starting at `i`. */
  ghost predicate TimeMatchAt(t: string, i: int) {
    && 0 <= i && i + 5 <= |t|
    && IsWordBoundary(t, i)
    && IsDigit(t[i]) && IsDigit(t[i + 1]) && t[i + 2] == ':' && IsDigit(t[i + 3]) && IsDigit(t[i + 4])
    && IsWordBoundary(t, i + 5)
  }

  /** Character-level test at one start position. */
  predicate TimeTokenAt(t: string, i: nat) {
    && i + 5 <= |t|
    && (i == 0 || !IsWordChar(t[i - 1]))
    && IsDigit(t[i]) && IsDigit(t[i + 1]) && t[i + 2] == ':' && IsDigit(t[i + 3]) && IsDigit(t[i + 4])
    && (i + 5 == |t| || !IsWordChar(t[i + 5]))
  }

  /** `extractTimeTokens`: without the `g` flag `match` returns only the leftmost match
      (or `null`, which the caller turns into an empty list). */
  method ExtractTimeTokens(t: string) returns (tokens: seq<string>)
    ensures |tokens| <= 1
    ensures tokens == [] <==> forall i :: 0 <= i <= |t| ==> !TimeMatchAt(t, i)
    ensures tokens != [] ==> exists i :: 
      && TimeMatchAt(t, i) && tokens[0] == t[i..i + 5]
      && forall i' :: 0 <= i' < i ==> !TimeMatchAt(t, i')
  {
    var i := 0;
    while i + 5 <= |t|
      invariant 0 <= i
      invariant forall i' :: 0 <= i' < i ==> !TimeMatchAt(t, i')
    {
      assert TimeMatchAt(t, i) <==> TimeTokenAt(t, i);
      if TimeTokenAt(t, i) {
        return [t[i..i + 5]];
      }
      i := i + 1;
    }
    return [];
  }

  // ---------------------------------------------------------------------------
  // Examples

  /** The unescaped `.` in the duration pattern lets any character separate the fraction. */
  lemma DurationTextExamples()
    ensures DurationTextOk("90") && DurationTextOk("1x25") && DurationTextOk("1.5")
    ensures !DurationTextOk("0") && !DurationTextOk("05") && !DurationTextOk("-5")
    ensures !DurationTextOk("NaN") && !DurationTextOk("1.234")
  {
    assert FractionAt("1x25", 1);
    assert FractionAt("1.5", 1);
    var long := "1.234";
    assert long[1] == '.' && !IsDigit(long[1]);
    assert !FractionAt(long, 2) && !FractionAt(long, 3);
  }

  /** A task every check accepts. */
  lemma ValidTaskExample(calendar: string -> bool)
    requires calendar("2024-03-15")
    ensures ValidateTask(Draft("Study", Int(90), "School Work", "2024-03-15"), calendar) == Verdict(true, [])
  {
    var title, tag, date := "Study", "School Work", "2024-03-15";
    assert ValidateTitle(title);
    DurationAcceptsPositive(Int(90));
    assert DateSyntaxOk(date) by {
      assert date[5] == '0' && date[6] == '3' && date[8] == '1' && date[9] == '5';
    }
    assert ValidateTag(tag) by {
      assert forall i :: 0 <= i < |tag| ==> IsAsciiLetter(tag[i]) || i == 6;
    }
  }

  /** A task every check refuses: all four errors, in order; the date passes the
      syntactic test and is left to the calendar check. */
  lemma InvalidTaskExample(calendar: string -> bool)
    requires !calendar("2024-02-30")
    ensures DateSyntaxOk("2024-02-30")
    ensures ValidateTask(Draft(" Study", Int(-5), "School123", "2024-02-30"), calendar)
         == Verdict(false, [TitleError, DurationError, DateError, TagError])
  {
    DurationAcceptsPositive(Int(-5));
    var tag := "School123";
    assert !IsAsciiLetter(tag[|tag| - 1]);
  }
}
