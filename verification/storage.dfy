/** The task store (js/utils/storage.js): one storage key holding the whole task list,
    read, changed and written back in full by every operation. The key's content is a
    pure value here and each operation returns the new content; the clock and the JSON
    parser and serialiser are parameters. */
module Storage {
  import opened Wrappers
  import opened JsChars
  import opened Decimal

  /** A stored task. Timestamps are readings of the clock (the program stores the ISO
      8601 text of `new Date()`, whose order is the order of the instants). */
  datatype Task = Task(
    id: string, title: string, duration: int, tag: string, dueDate: string,
    createdAt: int, updatedAt: int)

  /** The fields a caller hands to `addTask`. */
  datatype Fields = Fields(title: string, duration: int, tag: string, dueDate: string)

  /** The object handed to `updateTask`: `None` is a key the object does not have. */
  datatype Patch = Patch(
    title: Option<string>, duration: Option<int>, tag: Option<string>, dueDate: Option<string>)

  /** The content of the storage key: `None` while the key is absent. JSON is taken to
      round-trip, so the key holds the list itself. */
  type Slot = Option<seq<Task>>

  /** `getTasks`: the stored list, or the empty list while nothing is stored. */
  function GetTasks(slot: Slot): seq<Task> {
    slot.GetOr([])
  }

  /** `saveTasks`: overwrites the key with the whole list. */
  function SaveTasks(tasks: seq<Task>): Slot {
    Some(tasks)
  }

  lemma SaveThenGet(tasks: seq<Task>)
    ensures GetTasks(SaveTasks(tasks)) == tasks
  {
  }

  // ---------------------------------------------------------------------------
  // Ids

  /** The id `addTask` gives the `n`-th task: `rec_` and `n` padded to three digits. */
  function RecordId(n: nat): string {
    "rec_" + PadStart(ToDecimal(n), 3, '0')
  }

  /** Reads the number back out of an id of the form `rec_` followed by digits. */
  function RecordNumber(id: string): Option<nat> {
    if |id| >= 5 && id[..4] == "rec_" && AllRadixDigits(id[4..], 10) then Some(Value(id[4..], 10))
    else None
  }

  lemma RecordIdRoundTrip(n: nat)
    ensures RecordNumber(RecordId(n)) == Some(n)
  {
    var d := ToDecimal(n);
    var p := PadStart(d, 3, '0');
    var id := RecordId(n);
    assert id[4..] == p;
    assert id[..4] == "rec_";
    var z := p[..|p| - |d|];
    assert p == z + d;
    LeadingZerosValue(z, d);
  }

  /** Different counts give different ids. */
  lemma RecordIdInjective(m: nat, n: nat)
    ensures RecordId(m) == RecordId(n) ==> m == n
  {
    RecordIdRoundTrip(m);
    RecordIdRoundTrip(n);
  }

  lemma RecordIdExamples()
    ensures RecordId(1) == "rec_001" && RecordId(42) == "rec_042" && RecordId(1000) == "rec_1000"
  {
    RecordIdOne();
    RecordIdFortyTwo();
    RecordIdThousand();
  }

  lemma RecordIdOne()
    ensures RecordId(1) == "rec_001"
  {
    assert ToDecimal(1) == "1";
    assert PadStart("1", 3, '0') == "001";
  }

  lemma RecordIdFortyTwo()
    ensures RecordId(42) == "rec_042"
  {
    assert NatDigits(4) == "4";
    assert ToDecimal(42) == "42";
    assert PadStart("42", 3, '0') == "042";
  }

  lemma RecordIdThousand()
    ensures RecordId(1000) == "rec_1000"
  {
    assert NatDigits(1) == "1";
    assert NatDigits(10) == "10";
    assert NatDigits(100) == "100";
    assert ToDecimal(1000) == "1000";
  }

  // ---------------------------------------------------------------------------
  // Add

  datatype Added = Added(slot: Slot, task: Task)

  /** `addTask`: the new task's id comes from the current count (not from the largest
      id), both timestamps are the clock reading, and the task is appended. */
  function AddTask(slot: Slot, f: Fields, now: int): (r: Added)
    ensures var before := GetTasks(slot); var after := GetTasks(r.slot);
      && r.slot.Some?
      && |after| == |before| + 1
      && after[..|before|] == before
      && after[|before|] == r.task
    ensures r.task.id == RecordId(|GetTasks(slot)| + 1)
    ensures r.task.createdAt == r.task.updatedAt == now
    ensures r.task.title == f.title && r.task.duration == f.duration
    ensures r.task.tag == f.tag && r.task.dueDate == f.dueDate
  {
    var tasks := GetTasks(slot);
    var task := Task(RecordId(|tasks| + 1), f.title, f.duration, f.tag, f.dueDate, now, now);
    Added(SaveTasks(tasks + [task]), task)
  }

  /** Every task's id is `idOf` of its 1-based position. */
  ghost predicate NumberedBy(tasks: seq<Task>, idOf: nat -> string) {
    forall i :: 0 <= i < |tasks| ==> tasks[i].id == idOf(i + 1)
  }

  /** Every task's id is the one `addTask` gives at its position. */
  ghost predicate NumberedByPosition(tasks: seq<Task>) {
    NumberedBy(tasks, RecordId)
  }

  /** No task in the list carries `id`. */
  predicate NoTaskHasId(tasks: seq<Task>, id: string) {
    forall i :: 0 <= i < |tasks| ==> tasks[i].id != id
  }

  ghost predicate UniqueIds(tasks: seq<Task>) {
    forall i, j :: 0 <= i < j < |tasks| ==> tasks[i].id != tasks[j].id
  }

  lemma NumberedIdsAreUnique(tasks: seq<Task>)
    requires NumberedByPosition(tasks)
    ensures UniqueIds(tasks)
  {
    forall m: nat, n: nat | RecordId(m) == RecordId(n)
      ensures m == n
    {
      RecordIdInjective(m, n);
    }
    InjectiveNumberingIsUnique(tasks, RecordId);
  }

  /** Numbering by an injective id function gives distinct ids. */
  lemma InjectiveNumberingIsUnique(tasks: seq<Task>, idOf: nat -> string)
    requires NumberedBy(tasks, idOf)
    requires forall m: nat, n: nat :: idOf(m) == idOf(n) ==> m == n
    ensures UniqueIds(tasks)
  {
  }

  /** `addTask` keeps every earlier task at its position and puts the new one last. */
  lemma AddedElements(slot: Slot, f: Fields, now: int)
    ensures var before := GetTasks(slot); var r := AddTask(slot, f, now); var after := GetTasks(r.slot);
      forall i :: 0 <= i < |after| ==> after[i] == if i < |before| then before[i] else r.task
  {
    var before := GetTasks(slot);
    var r := AddTask(slot, f, now);
    var after := GetTasks(r.slot);
    forall i | 0 <= i < |before|
      ensures after[i] == before[i]
    {
      assert after[i] == after[..|before|][i];
    }
  }

  /** Appending the task numbered for the next position keeps a list numbered. */
  lemma AppendKeepsNumbering(before: seq<Task>, after: seq<Task>, idOf: nat -> string)
    requires NumberedBy(before, idOf) && |after| == |before| + 1
    requires forall i :: 0 <= i < |before| ==> after[i] == before[i]
    requires after[|before|].id == idOf(|before| + 1)
    ensures NumberedBy(after, idOf)
  {
  }

  lemma AddKeepsNumbering(slot: Slot, f: Fields, now: int)
    requires NumberedByPosition(GetTasks(slot))
    ensures NumberedByPosition(GetTasks(AddTask(slot, f, now).slot))
  {
    var before := GetTasks(slot);
    var r := AddTask(slot, f, now);
    AddedElements(slot, f, now);
    AppendKeepsNumbering(before, GetTasks(r.slot), RecordId);
  }

  /** Adds one task per element of `fs`, in order. */
  function AddAll(slot: Slot, fs: seq<Fields>, now: int): Slot
    decreases |fs|
  {
    if fs == [] then slot else AddAll(AddTask(slot, fs[0], now).slot, fs[1..], now)
  }

  /** Starting from any list numbered by position (the empty one included), adds alone
      keep the numbering, so `n` adds to an absent key give `rec_001` … `rec_n`, all
      distinct. */
  lemma {:induction false} AddAllKeepsNumbering(slot: Slot, fs: seq<Fields>, now: int)
    requires NumberedByPosition(GetTasks(slot))
    ensures var after := GetTasks(AddAll(slot, fs, now));
      |after| == |GetTasks(slot)| + |fs| && NumberedByPosition(after) && UniqueIds(after)
    decreases |fs|
  {
    if fs == [] {
      NumberedIdsAreUnique(GetTasks(slot));
    } else {
      AddKeepsNumbering(slot, fs[0], now);
      AddAllKeepsNumbering(AddTask(slot, fs[0], now).slot, fs[1..], now);
    }
  }

  // ---------------------------------------------------------------------------
  // Update

  /** `findIndex` by id: the first position whose task has the id. */
  function FindIndex(tasks: seq<Task>, id: string): (r: Option<nat>)
    ensures r.None? <==> NoTaskHasId(tasks, id)
    ensures r.Some? ==> r.value < |tasks| && tasks[r.value].id == id
    ensures r.Some? ==> forall i :: 0 <= i < r.value ==> tasks[i].id != id
  {
    if tasks == [] then None
    else if tasks[0].id == id then Some(0)
    else match FindIndex(tasks[1..], id)
      case None => None
      case Some(i) => Some(i + 1)
  }

  /** `{ ...task, ...patch }` with the patch's `updatedAt` set to the clock reading. */
  function Merge(t: Task, p: Patch, now: int): Task {
    t.(title := p.title.GetOr(t.title), duration := p.duration.GetOr(t.duration),
       tag := p.tag.GetOr(t.tag), dueDate := p.dueDate.GetOr(t.dueDate), updatedAt := now)
  }

  datatype Updated = Updated(slot: Slot, task: Option<Task>)

  /** `updateTask`: `null` and no write when no task has the id; otherwise only the
      first task with the id is replaced by the merge, and the list is written back. */
  function UpdateTask(slot: Slot, id: string, p: Patch, now: int): (r: Updated)
    ensures r.task.None? <==> NoTaskHasId(GetTasks(slot), id)
    ensures r.task.None? ==> r.slot == slot
    ensures r.task.Some? ==>
      var before := GetTasks(slot); var after := GetTasks(r.slot); var i := FindIndex(before, id).value;
      && r.slot.Some?
      && |after| == |before|
      && after[i] == r.task.value
      && (forall j :: 0 <= j < |before| && j != i ==> after[j] == before[j])
  {
    var tasks := GetTasks(slot);
    match FindIndex(tasks, id)
    case None => Updated(slot, None)
    case Some(i) =>
      var merged := Merge(tasks[i], p, now);
      Updated(SaveTasks(tasks[i := merged]), Some(merged))
  }

  /** The merged task: same id and creation time, patched fields replaced, the others
      kept, and `updatedAt` set to the clock reading. */
  lemma UpdatedTaskIsMerge(slot: Slot, id: string, p: Patch, now: int)
    requires UpdateTask(slot, id, p, now).task.Some?
    ensures var prev := GetTasks(slot)[FindIndex(GetTasks(slot), id).value];
      var t := UpdateTask(slot, id, p, now).task.value;
      && t.id == id == prev.id && t.createdAt == prev.createdAt && t.updatedAt == now
      && (p.title.Some? ==> t.title == p.title.value) && (p.title.None? ==> t.title == prev.title)
      && (p.duration.Some? ==> t.duration == p.duration.value) && (p.duration.None? ==> t.duration == prev.duration)
      && (p.tag.Some? ==> t.tag == p.tag.value) && (p.tag.None? ==> t.tag == prev.tag)
      && (p.dueDate.Some? ==> t.dueDate == p.dueDate.value) && (p.dueDate.None? ==> t.dueDate == prev.dueDate)
  {
  }

  lemma UpdateKeepsNumbering(slot: Slot, id: string, p: Patch, now: int)
    requires NumberedByPosition(GetTasks(slot))
    ensures NumberedByPosition(GetTasks(UpdateTask(slot, id, p, now).slot))
  {
    var before := GetTasks(slot);
    var u := UpdateTask(slot, id, p, now);
    if u.task.Some? {
      var after := GetTasks(u.slot);
      var k := FindIndex(before, id).value;
      UpdatedTaskIsMerge(slot, id, p, now);
      forall i | 0 <= i < |after|
        ensures after[i].id == RecordId(i + 1)
      {
        if i == k {
          assert after[i].id == before[k].id;
        } else {
          assert after[i] == before[i];
        }
      }
    }
  }

  // ---------------------------------------------------------------------------
  // Delete

  /** `tasks.filter(task => task.id !== id)` */
  function WithoutId(tasks: seq<Task>, id: string): seq<Task> {
    if tasks == [] then []
    else (if tasks[0].id == id then [] else [tasks[0]]) + WithoutId(tasks[1..], id)
  }

  /** `deleteTask`: writes back the list without the tasks having the id. */
  function DeleteTask(slot: Slot, id: string): Slot {
    SaveTasks(WithoutId(GetTasks(slot), id))
  }

  /** `a` is `b` with some elements left out, the rest in the same order. */
  ghost predicate IsSubsequence<T>(a: seq<T>, b: seq<T>)
    decreases |b|
  {
    if b == [] then a == []
    else (a != [] && a[0] == b[0] && IsSubsequence(a[1..], b[1..])) || IsSubsequence(a, b[1..])
  }

  lemma {:induction false} WithoutIdCounts(tasks: seq<Task>, id: string)
    ensures forall t :: multiset(WithoutId(tasks, id))[t] == if t.id == id then 0 else multiset(tasks)[t]
  {
    if tasks != [] {
      WithoutIdCounts(tasks[1..], id);
      assert tasks == [tasks[0]] + tasks[1..];
    }
  }

  lemma {:induction false} WithoutIdKeepsOrder(tasks: seq<Task>, id: string)
    ensures IsSubsequence(WithoutId(tasks, id), tasks)
  {
    if tasks != [] {
      WithoutIdKeepsOrder(tasks[1..], id);
      if tasks[0].id != id {
        assert WithoutId(tasks, id)[1..] == WithoutId(tasks[1..], id);
      } else {
        assert WithoutId(tasks, id) == WithoutId(tasks[1..], id);
      }
    }
  }

  lemma {:induction false} WithoutIdMembers(tasks: seq<Task>, id: string)
    ensures forall x :: x in WithoutId(tasks, id) ==> x in tasks && x.id != id
  {
    if tasks != [] {
      WithoutIdMembers(tasks[1..], id);
    }
  }

  /** `deleteTask` removes every task with the id, not only the first, keeps every other
      task with its multiplicity and in its order, and writes even when nothing matched
      (so an absent key becomes an empty list). */
  lemma DeleteRemovesAllMatches(slot: Slot, id: string)
    ensures var after := GetTasks(DeleteTask(slot, id));
      && DeleteTask(slot, id).Some?
      && (forall t :: multiset(after)[t] == if t.id == id then 0 else multiset(GetTasks(slot))[t])
      && IsSubsequence(after, GetTasks(slot))
      && NoTaskHasId(after, id)
  {
    WithoutIdCounts(GetTasks(slot), id);
    WithoutIdKeepsOrder(GetTasks(slot), id);
    WithoutIdMembers(GetTasks(slot), id);
  }

  lemma {:induction false} WithoutAbsentId(tasks: seq<Task>, id: string)
    requires NoTaskHasId(tasks, id)
    ensures WithoutId(tasks, id) == tasks
  {
    if tasks != [] {
      WithoutAbsentId(tasks[1..], id);
    }
  }

  /** Deleting an id no task has leaves the list as it was. */
  lemma DeleteAbsentId(slot: Slot, id: string)
    requires NoTaskHasId(GetTasks(slot), id)
    ensures GetTasks(DeleteTask(slot, id)) == GetTasks(slot)
  {
    WithoutAbsentId(GetTasks(slot), id);
  }

  lemma WithoutMiddle(a: Task, b: Task, c: Task, id: string)
    requires a.id != id && b.id == id && c.id != id
    ensures WithoutId([a, b, c], id) == [a, c]
  {
    assert [c][1..] == [];
    assert WithoutId([c], id) == [c];
    assert [b, c][1..] == [c];
    assert WithoutId([b, c], id) == [c];
    assert [a, b, c][1..] == [b, c];
    assert WithoutId([a, b, c], id) == [a] + [c];
  }

  /** Because ids come from the count, three adds, deleting `rec_002` and one more add
      leave two tasks with id `rec_003`: ids stay unique only while nothing is deleted. */
  lemma DeleteThenAddRepeatsId(f: Fields, now: int)
    ensures var s3 := AddAll(None, [f, f, f], now);
      var s4 := AddTask(DeleteTask(s3, RecordId(2)), f, now).slot;
      var after := GetTasks(s4);
      |after| == 3 && after[1].id == after[2].id == RecordId(3) && !UniqueIds(after)
  {
    var s3 := AddAll(None, [f, f, f], now);
    AddAllKeepsNumbering(None, [f, f, f], now);
    var ts := GetTasks(s3);
    DeleteSecondOfThree(s3);
    AddAfterDelete(DeleteTask(s3, RecordId(2)), ts[2], f, now);
  }

  /** Of three tasks numbered by position, deleting `rec_002` leaves the first and third. */
  lemma DeleteSecondOfThree(slot: Slot)
    requires |GetTasks(slot)| == 3 && NumberedByPosition(GetTasks(slot))
    ensures var ts := GetTasks(slot); GetTasks(DeleteTask(slot, RecordId(2))) == [ts[0], ts[2]]
  {
    var ts := GetTasks(slot);
    assert ts == [ts[0], ts[1], ts[2]];
    RecordIdInjective(1, 2);
    RecordIdInjective(3, 2);
    WithoutMiddle(ts[0], ts[1], ts[2], RecordId(2));
  }

  lemma AddAfterDelete(slot: Slot, last: Task, f: Fields, now: int)
    requires |GetTasks(slot)| == 2 && GetTasks(slot)[1] == last && last.id == RecordId(3)
    ensures var after := GetTasks(AddTask(slot, f, now).slot);
      |after| == 3 && after[1].id == after[2].id == RecordId(3) && !UniqueIds(after)
  {
    var r := AddTask(slot, f, now);
    var after := GetTasks(r.slot);
    assert after[1] == after[..2][1] == last;
    assert after[2] == r.task;
  }

  // ---------------------------------------------------------------------------
  // Timestamps

  ghost predicate CreatedNotAfterUpdated(tasks: seq<Task>) {
    forall i :: 0 <= i < |tasks| ==> tasks[i].createdAt <= tasks[i].updatedAt
  }

  /** With a clock that never reads earlier than any stored creation time, add and
      update keep `createdAt <= updatedAt` (update never moves `createdAt`), and so does
      delete, whatever the clock. */
  lemma AddKeepsTimestampsOrdered(slot: Slot, f: Fields, now: int)
    requires CreatedNotAfterUpdated(GetTasks(slot))
    ensures CreatedNotAfterUpdated(GetTasks(AddTask(slot, f, now).slot))
  {
    AddedElements(slot, f, now);
  }

  lemma UpdateKeepsTimestampsOrdered(slot: Slot, id: string, p: Patch, now: int)
    requires CreatedNotAfterUpdated(GetTasks(slot))
    requires forall i :: 0 <= i < |GetTasks(slot)| ==> GetTasks(slot)[i].createdAt <= now
    ensures CreatedNotAfterUpdated(GetTasks(UpdateTask(slot, id, p, now).slot))
  {
  }

  lemma DeleteKeepsTimestampsOrdered(slot: Slot, id: string)
    requires CreatedNotAfterUpdated(GetTasks(slot))
    ensures CreatedNotAfterUpdated(GetTasks(DeleteTask(slot, id)))
  {
    WithoutIdMembers(GetTasks(slot), id);
  }

  // ---------------------------------------------------------------------------
  // Import and export

  /** What `JSON.parse` produced: an array (read as tasks) or any other value. */
  datatype Json = JArray(items: seq<Task>) | JOther

  datatype Imported = Imported(slot: Slot, ok: bool)

  /** `importData` (replace mode): `parse` returns `None` where `JSON.parse` throws. An
      array replaces the whole list; anything else is refused without a write. */
  function ImportData(slot: Slot, text: string, parse: string -> Option<Json>): (r: Imported)
    ensures r.ok <==> parse(text).Some? && parse(text).value.JArray?
    ensures r.ok ==> GetTasks(r.slot) == parse(text).value.items && r.slot.Some?
    ensures !r.ok ==> r.slot == slot
  {
    match parse(text)
    case Some(JArray(items)) => Imported(SaveTasks(items), true)
    case _ => Imported(slot, false)
  }

  /** `exportData`: the serialised list (pretty-printing is the serialiser's business). */
  function ExportData(slot: Slot, serialise: seq<Task> -> string): string {
    serialise(GetTasks(slot))
  }

  /** Exporting one store and importing the text into any store reproduces the list,
      given a parser that reads back what the serialiser writes. */
  lemma ExportImportRoundTrip(
    source: Slot, target: Slot, parse: string -> Option<Json>, serialise: seq<Task> -> string)
    requires parse(serialise(GetTasks(source))) == Some(JArray(GetTasks(source)))
    ensures var r := ImportData(target, ExportData(source, serialise), parse);
      r.ok && GetTasks(r.slot) == GetTasks(source)
  {
  }
}
