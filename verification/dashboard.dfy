/** The values `updateDashboard` (js/app.js) computes before it writes them into the page:
    the task count, the total duration in the chosen unit, the most used tag and the
    five most recently created tasks, together with the duration text of each recent
    task. */
module Dashboard {
  import opened Wrappers
  import opened JsChars
  import opened Decimal
  import opened StableSort
  import opened Storage

  // ---------------------------------------------------------------------------
  // Durations as text

  /** `formatDurationHrsMins`: whole hours and the remaining minutes, each with its
      unit; the unit takes an `s` when the hours exceed one, when the minutes exceed
      one, and below an hour whenever the minutes are not exactly one. */
  function FormatHrsMins(mins: int): string {
    if mins >= 60 then HrsMinsText(mins / 60, mins % 60)
    else ToDecimal(mins) + " min" + (if mins != 1 then "s" else "")
  }

  /** The text for `h` hours and `m` minutes past them. */
  function HrsMinsText(h: int, m: int): string {
    var hours := ToDecimal(h) + " hr" + (if h > 1 then "s" else "");
    if m == 0 then hours else hours + " " + ToDecimal(m) + " min" + (if m > 1 then "s" else "")
  }

  /** The first space at or after `from`, or the end of `s`. */
  function SpaceFrom(s: string, from: nat): (e: nat)
    requires from <= |s|
    ensures from <= e <= |s|
    decreases |s| - from
  {
    if from == |s| || s[from] == ' ' then from else SpaceFrom(s, from + 1)
  }

  lemma {:induction false} SpaceFromIs(s: string, from: nat, e: nat)
    requires from <= e <= |s|
    requires forall i :: from <= i < e ==> s[i] != ' '
    requires e == |s| || s[e] == ' '
    ensures SpaceFrom(s, from) == e
    decreases e - from
  {
    if from < e {
      SpaceFromIs(s, from + 1, e);
    }
  }

  /** `s` cut at every space. */
  function Words(s: string): (w: seq<string>)
    ensures |w| >= 1
    decreases |s|
  {
    var k := SpaceFrom(s, 0);
    if k == |s| then [s] else [s[..k]] + Words(s[k + 1..])
  }

  predicate NoSpace(s: string) {
    forall i :: 0 <= i < |s| ==> s[i] != ' '
  }

  lemma WordsOfWord(a: string)
    requires NoSpace(a)
    ensures Words(a) == [a]
  {
    SpaceFromIs(a, 0, |a|);
  }

  lemma WordsCons(a: string, b: string)
    requires NoSpace(a)
    ensures Words(a + " " + b) == [a] + Words(b)
  {
    var s := a + " " + b;
    SpaceFromIs(s, 0, |a|);
    assert s[..|a|] == a;
    assert s[|a| + 1..] == b;
  }

  /** The unit word: the plural (the unit and `s`) exactly when `n` is not one. */
  function UnitWord(n: int, unit: string): string {
    unit + (if n == 1 then "" else "s")
  }

  /** `"<n> <unit>"` with the plural exactly when `n` is not one. */
  function Quantity(n: int, unit: string): string {
    ToDecimal(n) + " " + UnitWord(n, unit)
  }

  /** Reads a number and its unit word, accepting the singular unit only for 1 and
      the plural only for every other number. */
  function ParseCount(number: string, word: string, unit: string): Option<int> {
    match ParseDecimal(number)
    case Some(v) => if word == UnitWord(v, unit) then Some(v) else None
    case None => None
  }

  /** One quantity: minutes below an hour, or whole hours. */
  function ParseSingle(number: string, word: string): Option<int> {
    match ParseCount(number, word, "min")
    case Some(m) => if m < 60 then Some(m) else None
    case None =>
      match ParseCount(number, word, "hr")
      case Some(h) => if h >= 1 then Some(60 * h) else None
      case None => None
  }

  /** Hours followed by the minutes past them. */
  function ParsePair(hours: Option<int>, minutes: Option<int>): Option<int> {
    if hours.Some? && minutes.Some? && hours.value >= 1 && 1 <= minutes.value < 60 then
      Some(60 * hours.value + minutes.value)
    else None
  }

  /** Reads a duration text back into minutes: `"<m> min(s)"` below an hour,
      `"<h> hr(s)"` for whole hours, `"<h> hr(s) <m> min(s)"` otherwise. */
  function ParseHrsMins(s: string): Option<int> {
    var w := Words(s);
    if |w| == 2 then ParseSingle(w[0], w[1])
    else if |w| == 4 then ParsePair(ParseCount(w[0], w[1], "hr"), ParseCount(w[2], w[3], "min"))
    else None
  }

  lemma CountRoundTrip(n: int, unit: string)
    ensures ParseCount(ToDecimal(n), UnitWord(n, unit), unit) == Some(n)
  {
    DecimalRoundTrip(n);
  }

  /** An hours word is never read as minutes. */
  lemma HoursAreNotMinutes(number: string, h: int)
    ensures ParseCount(number, UnitWord(h, "hr"), "min") == None
  {
    match ParseDecimal(number)
    case Some(v) =>
      assert UnitWord(h, "hr")[0] == 'h' && UnitWord(v, "min")[0] == 'm';
    case None =>
  }

  lemma QuantityWords(n: int, unit: string)
    requires NoSpace(unit)
    ensures Words(Quantity(n, unit)) == [ToDecimal(n), UnitWord(n, unit)]
  {
    var d := ToDecimal(n);
    assert NoSpace(d);
    WordsCons(d, UnitWord(n, unit));
    WordsOfWord(UnitWord(n, unit));
  }

  lemma QuantityThenWords(n: int, unit: string, rest: string)
    requires NoSpace(unit)
    ensures Words(Quantity(n, unit) + " " + rest) == [ToDecimal(n), UnitWord(n, unit)] + Words(rest)
  {
    var d := ToDecimal(n);
    assert NoSpace(d);
    TwoWordsThen(d, UnitWord(n, unit), rest);
  }

  lemma TwoWordsThen(d: string, u: string, rest: string)
    requires NoSpace(d) && NoSpace(u)
    ensures Words(d + " " + u + " " + rest) == [d, u] + Words(rest)
  {
    assert d + " " + u + " " + rest == d + " " + (u + " " + rest);
    WordsCons(d, u + " " + rest);
    WordsCons(u, rest);
  }

  lemma MixedWords(h: int, m: int)
    ensures Words(Quantity(h, "hr") + " " + Quantity(m, "min")) ==
      [ToDecimal(h), UnitWord(h, "hr"), ToDecimal(m), UnitWord(m, "min")]
  {
    assert NoSpace("hr") && NoSpace("min");
    QuantityThenWords(h, "hr", Quantity(m, "min"));
    QuantityWords(m, "min");
    PairsJoin(ToDecimal(h), UnitWord(h, "hr"), ToDecimal(m), UnitWord(m, "min"));
  }

  lemma PairsJoin(a: string, b: string, c: string, d: string)
    ensures [a, b] + [c, d] == [a, b, c, d]
  {
  }

  /** The source's plural conditions (`h > 1`, `m > 1`, `mins !== 1`) agree with the
      plain rule "plural unless one" on the numbers each of them sees. */
  lemma FormatIsQuantities(mins: int)
    ensures FormatHrsMins(mins) == HoursAndMinutes(mins)
  {
    if mins >= 60 {
      if mins % 60 == 0 {
        FormatWholeHours(mins);
      } else {
        FormatMixed(mins);
      }
    } else {
      assert ToDecimal(mins) + " min" + (if mins != 1 then "s" else "") == Quantity(mins, "min");
    }
  }

  lemma FormatWholeHours(mins: int)
    requires mins >= 60 && mins % 60 == 0
    ensures FormatHrsMins(mins) == Quantity(mins / 60, "hr")
  {
    var h := mins / 60;
    assert h >= 1;
    assert ToDecimal(h) + " hr" + (if h > 1 then "s" else "") == Quantity(h, "hr");
  }

  lemma HrsMinsTextIsQuantities(h: int, m: int)
    requires h >= 1 && m >= 1
    ensures HrsMinsText(h, m) == Quantity(h, "hr") + (" " + Quantity(m, "min"))
  {
    var hs := if h > 1 then "s" else "";
    var ms := if m > 1 then "s" else "";
    assert UnitWord(h, "hr") == "hr" + hs;
    assert UnitWord(m, "min") == "min" + ms;
    Regroup(ToDecimal(h), hs, ToDecimal(m), ms);
  }

  /** `formatDurationHrsMins` appends the pieces one by one; the quantities group them. */
  lemma Regroup(a: string, hs: string, b: string, ms: string)
    ensures a + " hr" + hs + " " + b + " min" + ms == (a + " " + ("hr" + hs)) + (" " + (b + " " + ("min" + ms)))
  {
  }

  lemma FormatMixed(mins: int)
    requires mins >= 60 && mins % 60 != 0
    ensures FormatHrsMins(mins) == Quantity(mins / 60, "hr") + (" " + Quantity(mins % 60, "min"))
  {
    HrsMinsTextIsQuantities(mins / 60, mins % 60);
  }

  lemma RoundTripBelowAnHour(mins: int)
    requires mins < 60
    ensures ParseHrsMins(Quantity(mins, "min")) == Some(mins)
  {
    QuantityWords(mins, "min");
    CountRoundTrip(mins, "min");
  }

  lemma RoundTripWholeHours(h: int)
    requires h >= 1
    ensures ParseHrsMins(Quantity(h, "hr")) == Some(60 * h)
  {
    QuantityWords(h, "hr");
    CountRoundTrip(h, "hr");
    HoursAreNotMinutes(ToDecimal(h), h);
  }

  lemma RoundTripMixed(h: int, m: int)
    requires h >= 1 && 1 <= m < 60
    ensures ParseHrsMins(Quantity(h, "hr") + " " + Quantity(m, "min")) == Some(60 * h + m)
  {
    MixedWords(h, m);
    CountRoundTrip(h, "hr");
    CountRoundTrip(m, "min");
  }

  /** The text of `mins` as whole hours and the minutes past them. */
  function HoursAndMinutes(mins: int): string {
    if mins >= 60 then
      Quantity(mins / 60, "hr") + (if mins % 60 == 0 then "" else " " + Quantity(mins % 60, "min"))
    else Quantity(mins, "min")
  }

  lemma HoursAndMinutesRoundTrip(mins: int)
    ensures ParseHrsMins(HoursAndMinutes(mins)) == Some(mins)
  {
    if mins >= 60 {
      var h, m := mins / 60, mins % 60;
      var text := HoursAndMinutes(mins);
      assert text == Quantity(h, "hr") + (if m == 0 then "" else " " + Quantity(m, "min"));
      DivMod60(mins);
      HoursAndMinutesOver(h, m, text);
      assert 60 * h + m == mins;
    } else {
      RoundTripBelowAnHour(mins);
    }
  }

  lemma HoursAndMinutesOver(h: int, m: int, text: string)
    requires h >= 1 && 0 <= m < 60
    requires text == Quantity(h, "hr") + (if m == 0 then "" else " " + Quantity(m, "min"))
    ensures ParseHrsMins(text) == Some(60 * h + m)
  {
    if m == 0 {
      assert text == Quantity(h, "hr");
      RoundTripWholeHours(h);
    } else {
      assert text == Quantity(h, "hr") + " " + Quantity(m, "min");
      RoundTripMixed(h, m);
    }
  }

  lemma DivMod60(mins: int)
    requires mins >= 60
    ensures mins == 60 * (mins / 60) + mins % 60 && mins / 60 >= 1 && 0 <= mins % 60 < 60
  {
  }

  /** `formatDurationHrsMins` loses nothing: the text reads back as the minutes it
      was made from, with every unit correctly singular or plural. */
  lemma FormatHrsMinsRoundTrip(mins: int)
    ensures ParseHrsMins(FormatHrsMins(mins)) == Some(mins)
  {
    FormatIsQuantities(mins);
    HoursAndMinutesRoundTrip(mins);
  }

  lemma FormatHrsMinsExamplesBelowAnHour()
    ensures FormatHrsMins(0) == "0 mins" && FormatHrsMins(1) == "1 min" && FormatHrsMins(45) == "45 mins"
  {
    assert ToDecimal(0) == "0";
    assert FormatHrsMins(0) == "0 mins";
    assert ToDecimal(1) == "1";
    assert FormatHrsMins(1) == "1 min";
    assert ToDecimal(45) == "45" by { assert NatDigits(4) == "4"; }
  }

  lemma FormatHrsMinsExamplesWholeHours()
    ensures FormatHrsMins(60) == "1 hr" && FormatHrsMins(120) == "2 hrs"
  {
    assert ToDecimal(1) == "1" && ToDecimal(2) == "2";
  }

  lemma FormatHrsMinsExamplesMixed()
    ensures FormatHrsMins(61) == "1 hr 1 min" && FormatHrsMins(125) == "2 hrs 5 mins"
  {
    assert ToDecimal(1) == "1";
    assert HrsMinsText(1, 1) == "1 hr 1 min";
    assert ToDecimal(2) == "2" && ToDecimal(5) == "5";
    assert HrsMinsText(2, 5) == "2 hrs 5 mins";
  }

  // ---------------------------------------------------------------------------
  // Most used tag

  /** One entry of the tag-count object: a tag and how many tasks carry it. */
  datatype TagCount = TagCount(tag: string, count: nat)

  function CountKey(e: TagCount): int {
    e.count
  }

  /** Where `tag` is among the object's keys. */
  function IndexOfTag(counts: seq<TagCount>, tag: string): (r: Option<nat>)
    ensures r.None? <==> forall i :: 0 <= i < |counts| ==> counts[i].tag != tag
    ensures r.Some? ==> r.value < |counts| && counts[r.value].tag == tag
  {
    if counts == [] then None
    else if counts[0].tag == tag then Some(0)
    else match IndexOfTag(counts[1..], tag)
      case None => None
      case Some(i) => Some(i + 1)
  }

  /** `acc[tag] = (acc[tag] || 0) + 1`: a new key goes last, as string keys of an
      object keep their insertion order. */
  function Bump(counts: seq<TagCount>, tag: string): seq<TagCount> {
    match IndexOfTag(counts, tag)
    case None => counts + [TagCount(tag, 1)]
    case Some(i) => counts[i := counts[i].(count := counts[i].count + 1)]
  }

  /** `Object.entries(tasks.reduce(...))`: the tag counts in insertion order. */
  function Tally(tasks: seq<Task>): seq<TagCount>
    decreases |tasks|
  {
    if tasks == [] then [] else Bump(Tally(tasks[..|tasks| - 1]), tasks[|tasks| - 1].tag)
  }

  /** How many tasks carry `tag`. */
  function Occurrences(tasks: seq<Task>, tag: string): nat
    decreases |tasks|
  {
    if tasks == [] then 0
    else Occurrences(tasks[..|tasks| - 1], tag) + (if tasks[|tasks| - 1].tag == tag then 1 else 0)
  }

  /** The position of the first task carrying `tag`, or the length when none does. */
  function FirstIndex(tasks: seq<Task>, tag: string): (k: nat)
    ensures k <= |tasks|
    ensures forall l :: 0 <= l < k ==> tasks[l].tag != tag
    ensures k < |tasks| ==> tasks[k].tag == tag
  {
    if tasks == [] then 0
    else if tasks[0].tag == tag then 0
    else FirstIndex(tasks[1..], tag) + 1
  }

  lemma FirstIndexOfExtension(tasks: seq<Task>, x: Task, tag: string)
    ensures FirstIndex(tasks + [x], tag) ==
      if FirstIndex(tasks, tag) < |tasks| then FirstIndex(tasks, tag)
      else if x.tag == tag then |tasks| else |tasks| + 1
  {
    var k := FirstIndex(tasks, tag);
    var k' := FirstIndex(tasks + [x], tag);
    if k < |tasks| {
      assert (tasks + [x])[k].tag == tag;
      assert k' <= k;
    } else {
      assert forall l :: 0 <= l < |tasks| ==> (tasks + [x])[l].tag != tag;
      assert k' >= |tasks|;
      if x.tag == tag {
        assert (tasks + [x])[|tasks|].tag == tag;
      }
    }
  }

  lemma {:induction false} AbsentTagOccursNever(tasks: seq<Task>, tag: string)
    requires FirstIndex(tasks, tag) == |tasks|
    ensures Occurrences(tasks, tag) == 0
    decreases |tasks|
  {
    if tasks != [] {
      var p := tasks[..|tasks| - 1];
      assert tasks == p + [tasks[|tasks| - 1]];
      FirstIndexOfExtension(p, tasks[|tasks| - 1], tag);
      AbsentTagOccursNever(p, tag);
    }
  }

  /** What the tag-count object is: one entry per distinct tag, in the order of each
      tag's first task, holding the number of tasks with that tag. */
  ghost predicate TallyOf(counts: seq<TagCount>, tasks: seq<Task>) {
    && DistinctTags(counts)
    && CountsOccurrences(counts, tasks)
    && CoversTags(counts, tasks)
    && InFirstSeenOrder(counts, tasks)
  }

  ghost predicate DistinctTags(counts: seq<TagCount>) {
    forall i, j :: 0 <= i < j < |counts| ==> counts[i].tag != counts[j].tag
  }

  ghost predicate CountsOccurrences(counts: seq<TagCount>, tasks: seq<Task>) {
    forall i :: 0 <= i < |counts| ==>
      counts[i].count == Occurrences(tasks, counts[i].tag) && FirstIndex(tasks, counts[i].tag) < |tasks|
  }

  ghost predicate CoversTags(counts: seq<TagCount>, tasks: seq<Task>) {
    forall k :: 0 <= k < |tasks| ==> IndexOfTag(counts, tasks[k].tag).Some?
  }

  ghost predicate InFirstSeenOrder(counts: seq<TagCount>, tasks: seq<Task>) {
    forall i, j :: 0 <= i < j < |counts| ==>
      FirstIndex(tasks, counts[i].tag) < FirstIndex(tasks, counts[j].tag)
  }

  lemma BumpExisting(counts: seq<TagCount>, p: seq<Task>, x: Task)
    requires TallyOf(counts, p)
    requires IndexOfTag(counts, x.tag).Some?
    ensures TallyOf(Bump(counts, x.tag), p + [x])
  {
    var i := IndexOfTag(counts, x.tag).value;
    BumpKnown(counts, x.tag, i);
    BumpedCounts(counts, p, x, i);
    BumpedOrder(counts, p, x, i);
    BumpExistingCovers(counts, p, x);
  }

  /** Bumping a known tag adds one to its entry and keeps every tag. */
  lemma BumpKnown(counts: seq<TagCount>, tag: string, i: nat)
    requires IndexOfTag(counts, tag) == Some(i)
    ensures Bump(counts, tag) == counts[i := counts[i].(count := counts[i].count + 1)]
    ensures forall j :: 0 <= j < |counts| ==> Bump(counts, tag)[j].tag == counts[j].tag
  {
  }

  /** Adding one to the entry of the new task's tag counts the longer list. */
  lemma BumpedCounts(counts: seq<TagCount>, p: seq<Task>, x: Task, i: nat)
    requires i < |counts| && counts[i].tag == x.tag
    requires DistinctTags(counts)
    requires CountsOccurrences(counts, p)
    ensures CountsOccurrences(counts[i := counts[i].(count := counts[i].count + 1)], p + [x])
  {
    var r := counts[i := counts[i].(count := counts[i].count + 1)];
    forall j | 0 <= j < |r|
      ensures r[j].count == Occurrences(p + [x], r[j].tag) && FirstIndex(p + [x], r[j].tag) < |p + [x]|
    {
      assert j != i ==> counts[j].tag != x.tag;
      BumpedEntry(counts, p, x, i, j);
    }
  }

  /** One entry after bumping the known tag at `i`: the count of the longer list and
      the same first task. */
  lemma BumpedEntry(counts: seq<TagCount>, p: seq<Task>, x: Task, i: nat, j: nat)
    requires i < |counts| && counts[i].tag == x.tag
    requires j < |counts|
    requires counts[j].count == Occurrences(p, counts[j].tag) && FirstIndex(p, counts[j].tag) < |p|
    requires j != i ==> counts[j].tag != x.tag
    ensures var r := counts[i := counts[i].(count := counts[i].count + 1)];
      && r[j].count == Occurrences(p + [x], r[j].tag)
      && FirstIndex(p + [x], r[j].tag) == FirstIndex(p, counts[j].tag)
  {
    OccurrencesOfExtension(p, x, counts[j].tag);
    FirstIndexOfExtension(p, x, counts[j].tag);
  }

  lemma OccurrencesOfExtension(tasks: seq<Task>, x: Task, tag: string)
    ensures Occurrences(tasks + [x], tag) == Occurrences(tasks, tag) + (if x.tag == tag then 1 else 0)
  {
    assert (tasks + [x])[..|tasks|] == tasks;
  }

  /** Bumping an existing entry changes no tag and no first task, so the order holds. */
  lemma BumpedOrder(counts: seq<TagCount>, p: seq<Task>, x: Task, i: nat)
    requires i < |counts|
    requires CountsOccurrences(counts, p)
    requires InFirstSeenOrder(counts, p)
    ensures InFirstSeenOrder(counts[i := counts[i].(count := counts[i].count + 1)], p + [x])
  {
    var r := counts[i := counts[i].(count := counts[i].count + 1)];
    forall j, k | 0 <= j < k < |r|
      ensures FirstIndex(p + [x], r[j].tag) < FirstIndex(p + [x], r[k].tag)
    {
      FirstIndexOfExtension(p, x, counts[j].tag);
      FirstIndexOfExtension(p, x, counts[k].tag);
    }
  }

  lemma BumpExistingCovers(counts: seq<TagCount>, p: seq<Task>, x: Task)
    requires CoversTags(counts, p)
    requires IndexOfTag(counts, x.tag).Some?
    ensures CoversTags(Bump(counts, x.tag), p + [x])
  {
    var ts := p + [x];
    var i := IndexOfTag(counts, x.tag).value;
    var r := Bump(counts, x.tag);
    assert r == counts[i := counts[i].(count := counts[i].count + 1)];
    forall k | 0 <= k < |ts|
      ensures IndexOfTag(r, ts[k].tag).Some?
    {
      if k < |p| {
        assert ts[k] == p[k];
        var j := IndexOfTag(counts, p[k].tag).value;
        assert r[j].tag == p[k].tag;
      } else {
        assert r[i].tag == x.tag;
      }
    }
  }

  lemma NewTagAbsent(counts: seq<TagCount>, p: seq<Task>, tag: string)
    requires CoversTags(counts, p)
    requires IndexOfTag(counts, tag).None?
    ensures FirstIndex(p, tag) == |p| && Occurrences(p, tag) == 0
  {
    AbsentTagOccursNever(p, tag);
  }

  lemma BumpNewCounts(counts: seq<TagCount>, p: seq<Task>, x: Task)
    requires TallyOf(counts, p)
    requires IndexOfTag(counts, x.tag).None?
    ensures CountsOccurrences(counts + [TagCount(x.tag, 1)], p + [x])
    ensures InFirstSeenOrder(counts + [TagCount(x.tag, 1)], p + [x])
  {
    var ts := p + [x];
    var r := counts + [TagCount(x.tag, 1)];
    BumpNewLast(counts, p, x);
    forall j | 0 <= j < |r|
      ensures r[j].count == Occurrences(ts, r[j].tag)
      ensures FirstIndex(ts, r[j].tag) == if j < |counts| then FirstIndex(p, r[j].tag) else |p|
      ensures j < |counts| ==> FirstIndex(p, r[j].tag) < |p|
    {
      if j < |counts| {
        assert r[j] == counts[j];
        BumpNewOld(counts, p, x, j);
      } else {
        assert r[j] == TagCount(x.tag, 1);
      }
    }
    assert CountsOccurrences(r, ts);
    forall i, j | 0 <= i < j < |r|
      ensures FirstIndex(ts, r[i].tag) < FirstIndex(ts, r[j].tag)
    {
      if j < |counts| {
        assert r[i] == counts[i] && r[j] == counts[j];
      }
    }
  }

  /** The new entry counts the one task carrying the new tag, which is the last one. */
  lemma BumpNewLast(counts: seq<TagCount>, p: seq<Task>, x: Task)
    requires CoversTags(counts, p)
    requires IndexOfTag(counts, x.tag).None?
    ensures Occurrences(p + [x], x.tag) == 1 && FirstIndex(p + [x], x.tag) == |p|
  {
    var ts := p + [x];
    assert ts[..|ts| - 1] == p;
    NewTagAbsent(counts, p, x.tag);
    FirstIndexOfExtension(p, x, x.tag);
  }

  /** An old entry keeps its count and first task: its tag is not the new one. */
  lemma BumpNewOld(counts: seq<TagCount>, p: seq<Task>, x: Task, j: nat)
    requires TallyOf(counts, p)
    requires IndexOfTag(counts, x.tag).None?
    requires j < |counts|
    ensures Occurrences(p + [x], counts[j].tag) == counts[j].count
    ensures FirstIndex(p + [x], counts[j].tag) == FirstIndex(p, counts[j].tag) < |p|
  {
    var ts := p + [x];
    assert ts[..|ts| - 1] == p;
    assert counts[j].tag != x.tag;
    FirstIndexOfExtension(p, x, counts[j].tag);
  }

  lemma BumpNewCovers(counts: seq<TagCount>, p: seq<Task>, x: Task)
    requires CoversTags(counts, p)
    ensures CoversTags(counts + [TagCount(x.tag, 1)], p + [x])
  {
    var ts := p + [x];
    var r := counts + [TagCount(x.tag, 1)];
    forall k | 0 <= k < |ts|
      ensures IndexOfTag(r, ts[k].tag).Some?
    {
      if k < |p| {
        assert ts[k] == p[k];
        var j := IndexOfTag(counts, p[k].tag).value;
        assert r[j].tag == p[k].tag;
      } else {
        assert r[|counts|].tag == x.tag;
      }
    }
  }

  lemma BumpNew(counts: seq<TagCount>, p: seq<Task>, x: Task)
    requires TallyOf(counts, p)
    requires IndexOfTag(counts, x.tag).None?
    ensures TallyOf(Bump(counts, x.tag), p + [x])
  {
    assert Bump(counts, x.tag) == counts + [TagCount(x.tag, 1)];
    BumpNewCounts(counts, p, x);
    BumpNewCovers(counts, p, x);
  }

  /** The reduce at js/app.js:135-138 builds exactly the tag-count object. */
  lemma {:induction false} TallyIsTallyOf(tasks: seq<Task>)
    ensures TallyOf(Tally(tasks), tasks)
    decreases |tasks|
  {
    if tasks != [] {
      var p := tasks[..|tasks| - 1];
      var x := tasks[|tasks| - 1];
      assert tasks == p + [x];
      TallyIsTallyOf(p);
      if IndexOfTag(Tally(p), x.tag).Some? {
        BumpExisting(Tally(p), p, x);
      } else {
        BumpNew(Tally(p), p, x);
      }
    }
  }

  /** The tag the dashboard shows: the first entry of the tag counts sorted by
      descending count; `None` when there is no entry (the page then shows `-`). */
  function MostUsedTag(tasks: seq<Task>): Option<string> {
    var counts := Tally(tasks);
    if counts == [] then None else Some(SortDescending(counts, CountKey)[0].tag)
  }

  lemma TallyEmptyIffNoTasks(tasks: seq<Task>)
    ensures Tally(tasks) == [] <==> tasks == []
  {
    if tasks != [] {
      TallyIsTallyOf(tasks);
      assert IndexOfTag(Tally(tasks), tasks[0].tag).Some?;
    }
  }

  /** A task's tag compared with the tag of the first entry of largest count. */
  lemma FirstMaxEntryWins(tasks: seq<Task>, k: nat)
    requires k < |tasks|
    ensures var counts := Tally(tasks); var t := counts[FirstMaxIndex(counts, CountKey)].tag;
      && Occurrences(tasks, tasks[k].tag) <= Occurrences(tasks, t)
      && (Occurrences(tasks, tasks[k].tag) == Occurrences(tasks, t) ==>
            FirstIndex(tasks, t) <= FirstIndex(tasks, tasks[k].tag))
  {
    TallyIsTallyOf(tasks);
    FirstMaxEntryOf(Tally(tasks), tasks, k);
  }

  lemma FirstMaxEntryOf(counts: seq<TagCount>, tasks: seq<Task>, k: nat)
    requires TallyOf(counts, tasks) && k < |tasks|
    ensures counts != [] && var t := counts[FirstMaxIndex(counts, CountKey)].tag;
      && Occurrences(tasks, tasks[k].tag) <= Occurrences(tasks, t)
      && (Occurrences(tasks, tasks[k].tag) == Occurrences(tasks, t) ==>
            FirstIndex(tasks, t) <= FirstIndex(tasks, tasks[k].tag))
  {
    var i := IndexOfTag(counts, tasks[k].tag).value;
    var m := FirstMaxIndex(counts, CountKey);
    assert CountKey(counts[i]) <= CountKey(counts[m]);
    if CountKey(counts[i]) == CountKey(counts[m]) {
      assert i >= m;
    }
  }

  /** The most used tag is missing exactly when there are no tasks; otherwise it is the
      tag of some task, no tag is carried by more tasks, and of the tags carried by as
      many tasks it is the one whose first task comes first. */
  lemma MostUsedTagIsFirstMostFrequent(tasks: seq<Task>)
    ensures MostUsedTag(tasks).None? <==> tasks == []
    ensures tasks != [] ==> var t := MostUsedTag(tasks).value;
      && FirstIndex(tasks, t) < |tasks|
      && (forall k :: 0 <= k < |tasks| ==> Occurrences(tasks, tasks[k].tag) <= Occurrences(tasks, t))
      && (forall k :: 0 <= k < |tasks| && Occurrences(tasks, tasks[k].tag) == Occurrences(tasks, t) ==>
            FirstIndex(tasks, t) <= FirstIndex(tasks, tasks[k].tag))
  {
    TallyEmptyIffNoTasks(tasks);
    if tasks != [] {
      var counts := Tally(tasks);
      TallyIsTallyOf(tasks);
      var m := FirstMaxIndex(counts, CountKey);
      SortHeadIsFirstMax(counts, CountKey);
      var t := counts[m].tag;
      assert MostUsedTag(tasks) == Some(t);
      assert FirstIndex(tasks, t) < |tasks|;
      forall k | 0 <= k < |tasks|
        ensures Occurrences(tasks, tasks[k].tag) <= Occurrences(tasks, t)
        ensures Occurrences(tasks, tasks[k].tag) == Occurrences(tasks, t) ==>
          FirstIndex(tasks, t) <= FirstIndex(tasks, tasks[k].tag)
      {
        FirstMaxEntryWins(tasks, k);
      }
    }
  }

  ghost predicate ExampleTags(tasks: seq<Task>) {
    && |tasks| == 5
    && tasks[0].tag == "A" && tasks[1].tag == "B" && tasks[2].tag == "A"
    && tasks[3].tag == "C" && tasks[4].tag == "B"
  }

  lemma ExampleOccurrences(tasks: seq<Task>)
    requires ExampleTags(tasks)
    ensures Occurrences(tasks, "A") == 2 && Occurrences(tasks, "B") == 2 && Occurrences(tasks, "C") == 1
  {
    var p4, p3, p2, p1 := tasks[..4], tasks[..3], tasks[..2], tasks[..1];
    assert p4[..3] == p3 && p3[..2] == p2 && p2[..1] == p1 && p1[..0] == [];
    assert Occurrences(p1, "A") == 1 && Occurrences(p1, "B") == 0 && Occurrences(p1, "C") == 0;
    assert Occurrences(p2, "A") == 1 && Occurrences(p2, "B") == 1 && Occurrences(p2, "C") == 0;
    assert Occurrences(p3, "A") == 2 && Occurrences(p3, "B") == 1 && Occurrences(p3, "C") == 0;
    assert Occurrences(p4, "A") == 2 && Occurrences(p4, "B") == 1 && Occurrences(p4, "C") == 1;
  }

  /** With the tags A, B, A, C, B, A and B tie and A is shown, because its first task
      comes first. */
  lemma MostUsedTagExample(tasks: seq<Task>)
    requires ExampleTags(tasks)
    ensures MostUsedTag(tasks) == Some("A")
  {
    MostUsedTagIsFirstMostFrequent(tasks);
    var t := MostUsedTag(tasks).value;
    assert tasks[0].tag == "A";
    ExampleWinner(tasks, t);
  }

  /** Among the example's tags only A beats or ties A and comes no later. */
  lemma ExampleWinner(tasks: seq<Task>, t: string)
    requires ExampleTags(tasks)
    requires FirstIndex(tasks, t) < |tasks|
    requires Occurrences(tasks, "A") <= Occurrences(tasks, t)
    requires Occurrences(tasks, "A") == Occurrences(tasks, t) ==> FirstIndex(tasks, t) <= FirstIndex(tasks, "A")
    ensures t == "A"
  {
    ExampleOccurrences(tasks);
    var k := FirstIndex(tasks, t);
    assert tasks[k].tag == t;
    assert FirstIndex(tasks, "A") == 0;
  }

  // ---------------------------------------------------------------------------
  // Total duration

  /** `tasks.reduce((sum, task) => sum + task.duration, 0)` */
  function TotalMinutes(tasks: seq<Task>): int
    decreases |tasks|
  {
    if tasks == [] then 0 else TotalMinutes(tasks[..|tasks| - 1]) + tasks[|tasks| - 1].duration
  }

  lemma {:induction false} TotalMinutesAppend(a: seq<Task>, b: seq<Task>)
    ensures TotalMinutes(a + b) == TotalMinutes(a) + TotalMinutes(b)
    decreases |b|
  {
    if b == [] {
      assert a + b == a;
    } else {
      assert (a + b)[..|a + b| - 1] == a + b[..|b| - 1];
      TotalMinutesAppend(a, b[..|b| - 1]);
    }
  }

  lemma {:induction false} TotalMinutesReplace(tasks: seq<Task>, i: nat, t: Task)
    requires i < |tasks|
    ensures TotalMinutes(tasks[i := t]) == TotalMinutes(tasks) - tasks[i].duration + t.duration
  {
    assert tasks == tasks[..i] + [tasks[i]] + tasks[i + 1..];
    assert tasks[i := t] == tasks[..i] + [t] + tasks[i + 1..];
    TotalMinutesAppend(tasks[..i] + [tasks[i]], tasks[i + 1..]);
    TotalMinutesAppend(tasks[..i] + [t], tasks[i + 1..]);
    TotalMinutesAppend(tasks[..i], [tasks[i]]);
    TotalMinutesAppend(tasks[..i], [t]);
    assert TotalMinutes([tasks[i]]) == tasks[i].duration by { assert [tasks[i]][..0] == []; }
    assert TotalMinutes([t]) == t.duration by { assert [t][..0] == []; }
  }

  /** Adding a task raises the total by its duration; an update changes it by the
      difference between the new and the old duration of the task it replaces. */
  lemma TotalAfterAddAndUpdate(slot: Slot, f: Fields, id: string, p: Patch, now: int)
    ensures TotalMinutes(GetTasks(AddTask(slot, f, now).slot)) == TotalMinutes(GetTasks(slot)) + f.duration
    ensures var u := UpdateTask(slot, id, p, now);
      u.task.Some? ==>
        TotalMinutes(GetTasks(u.slot)) == TotalMinutes(GetTasks(slot))
          - GetTasks(slot)[FindIndex(GetTasks(slot), id).value].duration + u.task.value.duration
  {
    var tasks := GetTasks(slot);
    var added := GetTasks(AddTask(slot, f, now).slot);
    assert added[..|added| - 1] == tasks;
    var u := UpdateTask(slot, id, p, now);
    if u.task.Some? {
      var i := FindIndex(tasks, id).value;
      assert GetTasks(u.slot) == tasks[i := u.task.value];
      TotalMinutesReplace(tasks, i, u.task.value);
    }
  }

  /** The unit chosen in the settings: `localStorage.getItem(...) || 'minutes'`, then
      hours only for exactly `'hours'`. */
  datatype DurationUnit = Minutes | Hours

  function DurationUnitOf(stored: Option<string>): (u: DurationUnit)
    ensures u == Hours <==> stored == Some("hours")
  {
    match stored
    case Some(v) => if v == "hours" then Hours else Minutes
    case None => Minutes
  }

  function Abs(x: int): nat {
    if x < 0 then -x else x
  }

  /** Six hundred times the distance between `h` hundredths of an hour and `total`
      minutes. */
  function RoundingError(total: int, h: int): nat {
    Abs(6 * h - 10 * total)
  }

  /** `toFixed(2)` of `minutes / 60` for `minutes >= 0`, in hundredths: the nearest
      hundredth (there is never a tie, since `10 * minutes` is even). */
  function RoundedHundredths(minutes: nat): (n: nat)
    ensures forall m :: RoundingError(minutes, n) <= RoundingError(minutes, m)
  {
    var n := (10 * minutes + 3) / 6;
    var r := (10 * minutes + 3) % 6;
    assert 10 * minutes - 6 * n == r - 3;
    forall m
      ensures RoundingError(minutes, n) <= RoundingError(minutes, m)
    {
      assert 6 * m - 10 * minutes == 6 * (m - n) - (r - 3);
      if m > n {
        assert 6 * (m - n) >= 6;
      } else if m < n {
        assert 6 * (m - n) <= -6;
      }
    }
    n
  }

  /** The digits `toFixed(2)` writes for `n` hundredths. */
  function FixedTwo(n: nat): string {
    NatDigits(n / 100) + "." + TwoDigits(n % 100)
  }

  /** The two digits of a number below a hundred, with a leading zero. */
  function TwoDigits(q: nat): string
    requires q < 100
  {
    [DigitChar(q / 10), DigitChar(q % 10)]
  }

  /** The dashboard's total: `"<total> mins"`, or in hours `"<total / 60> hrs"` when
      that is whole and the value rounded to two decimals otherwise (`toFixed` puts the
      minus sign in front of the rounded magnitude). */
  function TotalDurationText(total: int, unit: DurationUnit): string {
    match unit
    case Minutes => ToDecimal(total) + " mins"
    case Hours => HoursNumber(total) + " hrs"
  }

  /** The number of hours the dashboard writes for `total` minutes. */
  function HoursNumber(total: int): string {
    if total % 60 == 0 then ToDecimal(total / 60)
    else (if total < 0 then "-" else "") + FixedTwo(RoundedHundredths(Abs(total)))
  }

  /** Reads `"<digits>"` or `"<digits>.<two digits>"` as hundredths. */
  function ParseUnsignedHundredths(u: string): Option<int> {
    if |u| >= 4 && u[|u| - 3] == '.' && AllRadixDigits(u[..|u| - 3], 10) && AllRadixDigits(u[|u| - 2..], 10) then
      Some(100 * Value(u[..|u| - 3], 10) + Value(u[|u| - 2..], 10))
    else if |u| >= 1 && AllRadixDigits(u, 10) then Some(100 * Value(u, 10))
    else None
  }

  /** Reads a decimal number with at most two decimals, and an optional minus sign, as
      hundredths. */
  function ParseHundredths(s: string): Option<int> {
    if |s| >= 2 && s[0] == '-' then
      match ParseUnsignedHundredths(s[1..])
      case Some(v) => Some(-v)
      case None => None
    else ParseUnsignedHundredths(s)
  }

  /** Reads the dashboard's total back: minutes, or hundredths of an hour. */
  function ParseTotalText(text: string, unit: DurationUnit): Option<int> {
    var w := Words(text);
    if |w| != 2 then None
    else match unit
      case Minutes => if w[1] == "mins" then ParseDecimal(w[0]) else None
      case Hours => if w[1] == "hrs" then ParseHundredths(w[0]) else None
  }

  lemma TwoDigitsValue(q: nat)
    requires q < 100
    ensures AllRadixDigits(TwoDigits(q), 10) && Value(TwoDigits(q), 10) == q
  {
    DigitPairValue(q / 10, q % 10);
  }

  lemma DigitPairValue(a: nat, b: nat)
    requires a < 10 && b < 10
    ensures var t := [DigitChar(a), DigitChar(b)];
      AllRadixDigits(t, 10) && Value(t, 10) == 10 * a + b
  {
    var t := [DigitChar(a), DigitChar(b)];
    assert t[..1] == [DigitChar(a)];
    assert [DigitChar(a)][..0] == [];
    assert Value([DigitChar(a)], 10) == RadixDigitValue(DigitChar(a), 10) == a;
    assert Value(t, 10) == 10 * Value([DigitChar(a)], 10) + RadixDigitValue(DigitChar(b), 10);
  }

  lemma FixedTwoRoundTrip(n: nat)
    ensures ParseUnsignedHundredths(FixedTwo(n)) == Some(n)
  {
    var u := FixedTwo(n);
    var head := NatDigits(n / 100);
    var tail := TwoDigits(n % 100);
    assert u == head + "." + tail;
    assert u[..|u| - 3] == head;
    assert u[|u| - 2..] == tail;
    TwoDigitsValue(n % 100);
    assert 100 * (n / 100) + n % 100 == n;
  }

  lemma WholeRoundTrip(k: int)
    ensures ParseHundredths(ToDecimal(k)) == Some(100 * k)
  {
    var s := ToDecimal(k);
    if k < 0 {
      var d := NatDigits(-k);
      assert s == "-" + d && s[1..] == d;
      DigitsAsHundredths(d);
    } else {
      DigitsAsHundredths(NatDigits(k));
    }
  }

  /** Digits without a point read as that many whole hundreds of hundredths. */
  lemma DigitsAsHundredths(d: string)
    requires |d| >= 1 && AllRadixDigits(d, 10)
    ensures ParseUnsignedHundredths(d) == Some(100 * Value(d, 10))
  {
    if |d| >= 4 {
      assert IsRadixDigit(d[|d| - 3], 10);
    }
  }

  lemma RoundedRoundTrip(total: int)
    requires total % 60 != 0
    ensures var n := RoundedHundredths(Abs(total));
      ParseHundredths((if total < 0 then "-" else "") + FixedTwo(n)) == Some(if total < 0 then -(n as int) else n)
  {
    var n := RoundedHundredths(Abs(total));
    FixedTwoRoundTrip(n);
    if total < 0 {
      assert ("-" + FixedTwo(n))[1..] == FixedTwo(n);
    } else {
      assert "" + FixedTwo(n) == FixedTwo(n);
    }
  }

  /** The dashboard's total reads back as the total in minutes, and in hours as the
      hundredth of an hour nearest to it (the exact value when it is whole). */
  lemma TotalDurationTextReadsBack(total: int)
    ensures ParseTotalText(TotalDurationText(total, Minutes), Minutes) == Some(total)
    ensures var h := ParseTotalText(TotalDurationText(total, Hours), Hours);
      && h.Some?
      && (forall m :: RoundingError(total, h.value) <= RoundingError(total, m))
      && (total % 60 == 0 ==> 60 * h.value == 100 * total)
  {
    MinutesTextReadsBack(total);
    var h := HoursTextReadsBack(total);
    HoursNumberIsNearest(total, h);
  }

  lemma TwoWords(a: string, b: string)
    requires NoSpace(a) && NoSpace(b)
    ensures Words(a + " " + b) == [a, b]
  {
    WordsCons(a, b);
    WordsOfWord(b);
  }

  lemma MinutesTextReadsBack(total: int)
    ensures ParseTotalText(TotalDurationText(total, Minutes), Minutes) == Some(total)
  {
    var d := ToDecimal(total);
    assert NoSpace(d);
    assert TotalDurationText(total, Minutes) == d + " " + "mins";
    TwoWords(d, "mins");
    DecimalRoundTrip(total);
  }

  /** The hours text reads back as whatever `HoursNumber` reads as. */
  lemma HoursTextReadsBack(total: int) returns (h: int)
    ensures ParseHundredths(HoursNumber(total)) == Some(h)
    ensures ParseTotalText(TotalDurationText(total, Hours), Hours) == Some(h)
  {
    h := HoursNumberValue(total);
    HoursNumberNoSpace(total);
    HoursWordsReadBack(HoursNumber(total), h);
  }

  lemma HoursWordsReadBack(d: string, h: int)
    requires NoSpace(d) && ParseHundredths(d) == Some(h)
    ensures ParseTotalText(d + " hrs", Hours) == Some(h)
  {
    assert d + " hrs" == d + " " + "hrs";
    TwoWords(d, "hrs");
  }

  lemma HoursNumberNoSpace(total: int)
    ensures NoSpace(HoursNumber(total))
  {
    if total % 60 == 0 {
      assert NoSpace(ToDecimal(total / 60));
    } else {
      NoSpaceFixed(total);
    }
  }

  lemma NoSpaceFixed(total: int)
    ensures NoSpace((if total < 0 then "-" else "") + FixedTwo(RoundedHundredths(Abs(total))))
  {
    var n := RoundedHundredths(Abs(total));
    var q := n % 100;
    assert NoSpace(NatDigits(n / 100));
    assert NoSpace(TwoDigits(q));
  }

  /** What `HoursNumber` reads back as, in hundredths. */
  lemma HoursNumberValue(total: int) returns (h: int)
    ensures ParseHundredths(HoursNumber(total)) == Some(h)
    ensures total % 60 == 0 ==> h == 100 * (total / 60)
    ensures total % 60 != 0 ==> var n := RoundedHundredths(Abs(total)); h == if total < 0 then -(n as int) else n
  {
    if total % 60 == 0 {
      WholeRoundTrip(total / 60);
      h := 100 * (total / 60);
    } else {
      RoundedRoundTrip(total);
      var n := RoundedHundredths(Abs(total));
      h := if total < 0 then -(n as int) else n;
    }
  }

  lemma HoursNumberIsNearest(total: int, h: int)
    requires ParseHundredths(HoursNumber(total)) == Some(h)
    ensures forall m :: RoundingError(total, h) <= RoundingError(total, m)
    ensures total % 60 == 0 ==> 60 * h == 100 * total
  {
    var h' := HoursNumberValue(total);
    assert h' == h;
    if total % 60 == 0 {
      assert 60 * (100 * (total / 60)) == 100 * total;
      assert RoundingError(total, h) == 0;
    } else {
      var n := RoundedHundredths(Abs(total));
      if total < 0 {
        forall m
          ensures RoundingError(total, -(n as int)) <= RoundingError(total, m)
        {
          assert RoundingError(total, m) == RoundingError(Abs(total), -m);
        }
      }
    }
  }

  lemma TotalDurationTextExamples()
    ensures TotalDurationText(125, Hours) == "2.08 hrs"
    ensures TotalDurationText(120, Hours) == "2 hrs"
    ensures TotalDurationText(125, Minutes) == "125 mins"
  {
    RoundedExample();
    assert ToDecimal(2) == "2";
    assert ToDecimal(125) == "125" by {
      assert NatDigits(1) == "1";
      assert NatDigits(12) == "12";
    }
  }

  /** 125 minutes are 2.0833… hours, written `2.08`. */
  lemma RoundedExample()
    ensures FixedTwo(RoundedHundredths(125)) == "2.08"
  {
    assert RoundedHundredths(125) == 208;
    assert NatDigits(2) == "2";
    assert TwoDigits(8) == "08";
  }

  // ---------------------------------------------------------------------------
  // Recent activity

  function CreatedKey(t: Task): int {
    t.createdAt
  }

  function Min(a: int, b: int): int {
    if a < b then a else b
  }

  /** `[...tasks].sort((a, b) => new Date(b.createdAt) - new Date(a.createdAt)).slice(0, 5)` */
  function RecentTasks(tasks: seq<Task>): seq<Task> {
    SortDescending(tasks, CreatedKey)[..Min(5, |tasks|)]
  }

  /** The recent tasks are the first five (or all) tasks, newest first: taken from the
      list, and none left out newer than one taken. */
  lemma RecentTasksAreNewest(tasks: seq<Task>)
    ensures var r := RecentTasks(tasks);
      && |r| == Min(5, |tasks|)
      && multiset(r) <= multiset(tasks)
      && SortedDesc(r, CreatedKey)
      && (forall x, i :: x in multiset(tasks) - multiset(r) && 0 <= i < |r| ==> x.createdAt <= r[i].createdAt)
  {
    RecentTasksFromList(tasks);
    RecentTasksNewestFirst(tasks);
    RecentTasksNoneNewerLeftOut(tasks);
  }

  lemma RecentTasksFromList(tasks: seq<Task>)
    ensures |RecentTasks(tasks)| == Min(5, |tasks|) && multiset(RecentTasks(tasks)) <= multiset(tasks)
  {
    var sorted := SortDescending(tasks, CreatedKey);
    var m := Min(5, |tasks|);
    assert sorted == sorted[..m] + sorted[m..];
    assert multiset(sorted) == multiset(sorted[..m]) + multiset(sorted[m..]);
  }

  lemma RecentTasksNewestFirst(tasks: seq<Task>)
    ensures SortedDesc(RecentTasks(tasks), CreatedKey)
  {
    var sorted := SortDescending(tasks, CreatedKey);
    var r := RecentTasks(tasks);
    forall i, j | 0 <= i < j < |r|
      ensures CreatedKey(r[i]) >= CreatedKey(r[j])
    {
      assert r[i] == sorted[i] && r[j] == sorted[j];
    }
  }

  lemma RecentTasksNoneNewerLeftOut(tasks: seq<Task>)
    ensures var r := RecentTasks(tasks);
      forall x, i :: x in multiset(tasks) - multiset(r) && 0 <= i < |r| ==> x.createdAt <= r[i].createdAt
  {
    var m := Min(5, |tasks|);
    var sorted := SortDescending(tasks, CreatedKey);
    assert RecentTasks(tasks) == sorted[..m];
    SplitMultiset(sorted, m);
    DroppedNotNewer(sorted, m);
  }

  lemma SplitMultiset(s: seq<Task>, m: nat)
    requires m <= |s|
    ensures multiset(s) - multiset(s[..m]) == multiset(s[m..])
  {
    assert s == s[..m] + s[m..];
  }

  lemma DroppedNotNewer(sorted: seq<Task>, m: nat)
    requires m <= |sorted|
    requires SortedDesc(sorted, CreatedKey)
    ensures forall x, i :: x in multiset(sorted[m..]) && 0 <= i < m ==> x.createdAt <= sorted[..m][i].createdAt
  {
    var rest := sorted[m..];
    forall x: Task, i | x in multiset(rest) && 0 <= i < m
      ensures x.createdAt <= sorted[..m][i].createdAt
    {
      var j :| 0 <= j < |rest| && rest[j] == x;
      assert sorted[m + j] == x;
      assert CreatedKey(sorted[i]) >= CreatedKey(sorted[m + j]);
    }
  }

  /** Tasks created at the same time appear among the recent ones in list order. */
  lemma RecentTasksKeepListOrder(tasks: seq<Task>, v: int)
    ensures WithKey(RecentTasks(tasks), CreatedKey, v) <= WithKey(tasks, CreatedKey, v)
  {
    TopOfSortIsStable(tasks, CreatedKey, Min(5, |tasks|), v);
  }

  // ---------------------------------------------------------------------------
  // The dashboard

  datatype Summary = Summary(taskCount: nat, totalDuration: string, mostUsedTag: string, recent: seq<Task>)

  /** Everything `updateDashboard` puts on the page, from the stored tasks and the
      stored unit setting. */
  function Summarize(slot: Slot, storedUnit: Option<string>): (d: Summary)
    ensures d.taskCount == |GetTasks(slot)|
    ensures GetTasks(slot) == [] ==> d.mostUsedTag == "-"
    ensures GetTasks(slot) != [] ==> MostUsedTag(GetTasks(slot)) == Some(d.mostUsedTag)
    ensures |d.recent| == Min(5, |GetTasks(slot)|)
  {
    var tasks := GetTasks(slot);
    MostUsedTagIsFirstMostFrequent(tasks);
    Summary(
      |tasks|,
      TotalDurationText(TotalMinutes(tasks), DurationUnitOf(storedUnit)),
      match MostUsedTag(tasks) case None => "-" case Some(t) => t,
      RecentTasks(tasks))
  }
}
