/** The decision `handleTaskSubmit` (js/app.js) makes when the task form is submitted:
    read and normalise the fields, validate them, then refuse with the error messages,
    update the task being edited, or add a new task. */
module Submit {
  import opened Wrappers
  import opened JsChars
  import opened Decimal
  import opened Validation
  import opened Storage

  /** The form's raw field values, and the id of the task being edited when the form
      was opened for one (`form.dataset.taskId`, absent for a new task). */
  datatype Form = Form(title: string, duration: string, tag: string, dueDate: string, taskId: Option<string>)

  /** The text fields trimmed and the duration read by `parseInt`. After trimming, a
      title is refused only when nothing is left or a line terminator remains inside
      it; a duration passes exactly when `parseInt` reads a positive integer from the
      field. */
  function DraftOf(form: Form): (d: Draft)
    ensures d.title == Trim(form.title) && d.tag == Trim(form.tag) && d.dueDate == Trim(form.dueDate)
    ensures d.duration == ParseInt(form.duration)
    ensures ValidateTitle(d.title) <==>
      Trim(form.title) != [] && forall i :: 0 <= i < |Trim(form.title)| ==> !IsLineTerminator(Trim(form.title)[i])
    ensures ValidateDuration(d.duration) <==>
      ParseInt(form.duration).Int? && ParseInt(form.duration).value > 0
  {
    TrimmedTitleIff(form.title);
    DurationAcceptsPositive(ParseInt(form.duration));
    Draft(Trim(form.title), ParseInt(form.duration), Trim(form.tag), Trim(form.dueDate))
  }

  /** `if (form.dataset.taskId)`: an edit only for a present, non-empty id. */
  predicate IsEdit(form: Form) {
    form.taskId.Some? && form.taskId.value != ""
  }

  /** `errors.join('\n')` */
  function Join(lines: seq<string>, sep: string): string {
    if lines == [] then ""
    else if |lines| == 1 then lines[0]
    else lines[0] + sep + Join(lines[1..], sep)
  }

  function Messages(errors: seq<FieldError>): seq<string> {
    seq(|errors|, i requires 0 <= i < |errors| => errors[i].Message())
  }

  datatype Submitted = Submitted(slot: Slot, alert: Option<string>)

  /** `handleTaskSubmit`: `now` is the clock reading `addTask` or `updateTask` takes and
      `calendar` the date-parsing half of `validateDate`. */
  function HandleTaskSubmit(slot: Slot, form: Form, calendar: string -> bool, now: int): (r: Submitted)
    ensures var v := ValidateTask(DraftOf(form), calendar);
      && (r.alert.Some? <==> !v.isValid)
      && (r.alert.Some? ==> r.slot == slot && r.alert.value == Join(Messages(v.errors), "\n"))
    ensures r.alert.None? ==> var d := DraftOf(form);
      && d.duration.Int? && d.duration.value > 0
      && (IsEdit(form) ==>
            r.slot == UpdateTask(slot, form.taskId.value,
              Patch(Some(d.title), Some(d.duration.value), Some(d.tag), Some(d.dueDate)), now).slot)
      && (!IsEdit(form) ==>
            r.slot == AddTask(slot, Fields(d.title, d.duration.value, d.tag, d.dueDate), now).slot)
  {
    var d := DraftOf(form);
    var v := ValidateTask(d, calendar);
    if !v.isValid then Submitted(slot, Some(Join(Messages(v.errors), "\n")))
    else
      DurationAcceptsPositive(d.duration);
      var minutes := d.duration.value;
      if IsEdit(form) then
        var p := Patch(Some(d.title), Some(minutes), Some(d.tag), Some(d.dueDate));
        Submitted(UpdateTask(slot, form.taskId.value, p, now).slot, None)
      else
        Submitted(AddTask(slot, Fields(d.title, minutes, d.tag, d.dueDate), now).slot, None)
  }

  /** A stored task whose fields all pass the validators. */
  ghost predicate ValidRecord(t: Task, calendar: string -> bool) {
    && ValidateTitle(t.title) && t.duration > 0
    && ValidateDate(t.dueDate, calendar) && ValidateTag(t.tag)
  }

  ghost predicate AllValid(tasks: seq<Task>, calendar: string -> bool) {
    forall i :: 0 <= i < |tasks| ==> ValidRecord(tasks[i], calendar)
  }

  lemma AddKeepsTasksValid(slot: Slot, f: Fields, calendar: string -> bool, now: int)
    requires AllValid(GetTasks(slot), calendar)
    requires ValidateTitle(f.title) && f.duration > 0 && ValidateDate(f.dueDate, calendar) && ValidateTag(f.tag)
    ensures AllValid(GetTasks(AddTask(slot, f, now).slot), calendar)
  {
    var after := GetTasks(AddTask(slot, f, now).slot);
    assert ValidRecord(after[|after| - 1], calendar);
  }

  lemma UpdateKeepsTasksValid(slot: Slot, id: string, p: Patch, calendar: string -> bool, now: int)
    requires AllValid(GetTasks(slot), calendar)
    requires p.title.Some? && ValidateTitle(p.title.value) && p.duration.Some? && p.duration.value > 0
    requires p.dueDate.Some? && ValidateDate(p.dueDate.value, calendar) && p.tag.Some? && ValidateTag(p.tag.value)
    ensures AllValid(GetTasks(UpdateTask(slot, id, p, now).slot), calendar)
  {
    var u := UpdateTask(slot, id, p, now);
    if u.task.Some? {
      UpdatedTaskIsMerge(slot, id, p, now);
      assert ValidRecord(u.task.value, calendar);
    }
  }

  /** Submitting the form never stores a task that fails validation: a list of valid
      tasks stays valid, whether the submit is refused, adds or updates. */
  lemma SubmitKeepsTasksValid(slot: Slot, form: Form, calendar: string -> bool, now: int)
    requires AllValid(GetTasks(slot), calendar)
    ensures AllValid(GetTasks(HandleTaskSubmit(slot, form, calendar, now).slot), calendar)
  {
    var d := DraftOf(form);
    var v := ValidateTask(d, calendar);
    if v.isValid {
      DurationAcceptsPositive(d.duration);
      var minutes := d.duration.value;
      if IsEdit(form) {
        UpdateKeepsTasksValid(slot, form.taskId.value,
          Patch(Some(d.title), Some(minutes), Some(d.tag), Some(d.dueDate)), calendar, now);
      } else {
        AddKeepsTasksValid(slot, Fields(d.title, minutes, d.tag, d.dueDate), calendar, now);
      }
    }
  }

  /** A valid submit adds exactly one task when it is not an edit; an edit keeps the
      number of tasks, and with an id no task has it leaves the list as it was. */
  lemma SubmitChangesCountByAddOnly(slot: Slot, form: Form, calendar: string -> bool, now: int)
    ensures var r := HandleTaskSubmit(slot, form, calendar, now);
      && (r.alert.None? && !IsEdit(form) ==> |GetTasks(r.slot)| == |GetTasks(slot)| + 1)
      && (r.alert.None? && IsEdit(form) ==> |GetTasks(r.slot)| == |GetTasks(slot)|)
      && (IsEdit(form) && NoTaskHasId(GetTasks(slot), form.taskId.value) ==> r.slot == slot)
  {
  }
}
