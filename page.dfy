/** The state of the medicine page component and its event handlers: the
    reminder list, the add/edit modal with its draft form and weekday
    selection, and the pending delete confirmation. Each handler is a method
    that replaces the state fields the component's setters replace. */
module Page {
  import opened Optional
  import opened Text
  import opened Weekdays
  import opened Reminders
  import opened Scheduler

  /** `modalMode`: `null`, `'add'` or `'edit'`. */
  datatype ModalMode = Closed | Add | Edit

  class MedicinPage {
    var medicines: seq<Reminder>
    var modalMode: ModalMode
    /** The id of the entry the edit modal works on (`null` outside it). */
    var editingId: Option<Id>
    /** The id whose delete confirmation is shown (`null` when none is). */
    var confirmId: Option<Id>
    var activeDays: seq<int>
    var form: Draft

    /** The list keeps its invariant, the draft days are a day set, and an
        edited id is held exactly while the edit modal is open. */
    ghost predicate Valid()
      reads this
    {
      && StoreInvariant(medicines)
      && DaySet(activeDays)
      && (modalMode == Edit <==> editingId.Some?)
    }

    /** The component's initial state. */
    constructor ()
      ensures Valid()
      ensures medicines == [] && modalMode == Closed && editingId == None && confirmId == None
      ensures activeDays == AllDays && form == EmptyForm
    {
      medicines := [];
      modalMode := Closed;
      editingId := None;
      confirmId := None;
      activeDays := AllDays;
      form := EmptyForm;
    }

    /** The header's "all done" (`remainingCount === 0`): every entry is taken. */
    function AllDone(): (done: bool)
      reads this
      ensures done <==> forall k :: 0 <= k < |medicines| ==> medicines[k].taken
      ensures done <==> TakenCount(medicines) == |medicines|
    {
      AllDoneIff(medicines);
      RemainingCount(medicines) == 0
    }

    /** `openAdd`: an empty draft with every day selected, in add mode. */
    method OpenAdd()
      requires Valid()
      modifies this
      ensures Valid()
      ensures form == EmptyForm && activeDays == AllDays
      ensures editingId == None && modalMode == Add
      ensures medicines == old(medicines) && confirmId == old(confirmId)
    {
      form := EmptyForm;
      activeDays := AllDays;
      editingId := None;
      modalMode := Add;
    }

    /** `openEdit(med)` for an entry of the list: the draft is loaded from it and
        its id becomes the edited id. */
    method OpenEdit(med: Reminder)
      requires Valid() && med in medicines
      modifies this
      ensures Valid()
      ensures form == Draft(med.name, med.dose, med.time) && activeDays == med.days
      ensures editingId == Some(med.id) && modalMode == Edit
      ensures medicines == old(medicines) && confirmId == old(confirmId)
    {
      form := Draft(med.name, med.dose, med.time);
      activeDays := med.days;
      editingId := Some(med.id);
      modalMode := Edit;
    }

    /** `closeModal` (also Cancel and a click on the backdrop): the modal
        closes; the draft is left as it is. */
    method CloseModal()
      requires Valid()
      modifies this
      ensures Valid()
      ensures modalMode == Closed && editingId == None
      ensures medicines == old(medicines) && confirmId == old(confirmId)
      ensures form == old(form) && activeDays == old(activeDays)
    {
      modalMode := Closed;
      editingId := None;
    }

    /** Typing in the name field. */
    method SetName(name: string)
      requires Valid()
      modifies this
      ensures Valid()
      ensures form == old(form).(name := name)
      ensures medicines == old(medicines) && modalMode == old(modalMode) && editingId == old(editingId)
      ensures confirmId == old(confirmId) && activeDays == old(activeDays)
    {
      form := form.(name := name);
    }

    /** Typing in the dose field. */
    method SetDose(dose: string)
      requires Valid()
      modifies this
      ensures Valid()
      ensures form == old(form).(dose := dose)
      ensures medicines == old(medicines) && modalMode == old(modalMode) && editingId == old(editingId)
      ensures confirmId == old(confirmId) && activeDays == old(activeDays)
    {
      form := form.(dose := dose);
    }

    /** Picking a time in the time field. */
    method SetTime(time: TimeOfDay)
      requires Valid()
      modifies this
      ensures Valid()
      ensures form == old(form).(time := time)
      ensures medicines == old(medicines) && modalMode == old(modalMode) && editingId == old(editingId)
      ensures confirmId == old(confirmId) && activeDays == old(activeDays)
    {
      form := form.(time := time);
    }

    /** `toggleDay(i)` for one of the seven day buttons: day `i` flips in the
        draft selection, every other day keeps its state. */
    method ToggleDay(i: int)
      requires Valid() && 0 <= i < DaysInWeek
      modifies this
      ensures Valid()
      ensures activeDays == Weekdays.ToggleDay(old(activeDays), i)
      ensures i in activeDays <==> i !in old(activeDays)
      ensures forall d :: d != i ==> (d in activeDays <==> d in old(activeDays))
      ensures medicines == old(medicines) && modalMode == old(modalMode) && editingId == old(editingId)
      ensures confirmId == old(confirmId) && form == old(form)
    {
      ToggleDayKeepsDaySet(activeDays, i);
      ToggleDayFlipsOnlyI(activeDays, i);
      activeDays := Weekdays.ToggleDay(activeDays, i);
    }

    /** `saveMedicine`. A blank name (empty after trim) changes nothing and
        keeps the modal open. Otherwise in edit mode the edited entry takes the
        draft and the selected days; in any other mode a new entry with id
        `freshId` (`Date.now()`) is appended and, when its time is later today,
        a reminder alarm is returned. Either way the modal then closes.
        `nowMs` is the clock reading in milliseconds since local midnight. */
    method SaveMedicine(freshId: Id, nowMs: int) returns (alarm: Option<Alarm>)
      requires Valid()
      requires modalMode != Edit ==> !HasId(medicines, freshId)
      modifies this
      ensures Valid()
      ensures form == old(form) && activeDays == old(activeDays) && confirmId == old(confirmId)
      ensures IsBlank(form.name) ==>
        medicines == old(medicines) && modalMode == old(modalMode)
        && editingId == old(editingId) && alarm == None
      ensures !IsBlank(form.name) ==> modalMode == Closed && editingId == None
      ensures !IsBlank(form.name) && old(modalMode) == Edit ==>
        medicines == EditList(old(medicines), old(editingId).value, form, activeDays)
        && alarm == None
      ensures !IsBlank(form.name) && old(modalMode) != Edit ==>
        medicines == old(medicines) + [NewReminder(freshId, form, activeDays)]
        && alarm == ReminderAlarm(form, nowMs)
    {
      TrimEmptyIffBlank(form.name);
      alarm := None;
      if Trim(form.name) == [] {
        return;
      }
      if modalMode == Edit {
        EditKeepsInvariant(medicines, editingId.value, form, activeDays);
        medicines := EditList(medicines, editingId.value, form, activeDays);
      } else {
        AddKeepsInvariant(medicines, freshId, form, activeDays);
        medicines := medicines + [NewReminder(freshId, form, activeDays)];
        alarm := ReminderAlarm(form, nowMs);
      }
      CloseModal();
    }

    /** `toggleTaken(id)`, with `stamp` the local "HH:MM" of the click. */
    method ToggleTaken(id: Id, stamp: string)
      requires Valid()
      modifies this
      ensures Valid()
      ensures medicines == ToggleList(old(medicines), id, stamp)
      ensures modalMode == old(modalMode) && editingId == old(editingId)
      ensures confirmId == old(confirmId) && form == old(form) && activeDays == old(activeDays)
    {
      ToggleKeepsInvariant(medicines, id, stamp);
      medicines := ToggleList(medicines, id, stamp);
    }

    /** The trash button: `setConfirmId(med.id)` opens the confirmation. */
    method RequestDelete(id: Id)
      requires Valid()
      modifies this
      ensures Valid()
      ensures confirmId == Some(id)
      ensures medicines == old(medicines) && modalMode == old(modalMode) && editingId == old(editingId)
      ensures form == old(form) && activeDays == old(activeDays)
    {
      confirmId := Some(id);
    }

    /** Cancel (or a click on the backdrop) of the confirmation:
        `setConfirmId(null)`. */
    method CancelDelete()
      requires Valid()
      modifies this
      ensures Valid()
      ensures confirmId == None
      ensures medicines == old(medicines) && modalMode == old(modalMode) && editingId == old(editingId)
      ensures form == old(form) && activeDays == old(activeDays)
    {
      confirmId := None;
    }

    /** `deleteMedicine`: every entry with the pending id is filtered out and
        the confirmation closes. `removed` is the entry the "deleted" message
        names, looked up before the removal. With no pending id nothing is
        removed (no id equals `null`). */
    method DeleteMedicine() returns (removed: Option<Reminder>)
      requires Valid()
      modifies this
      ensures Valid()
      ensures confirmId == None
      ensures old(confirmId).Some? ==>
        medicines == RemoveId(old(medicines), old(confirmId).value)
        && removed == Find(old(medicines), old(confirmId).value)
      ensures old(confirmId).None? ==> medicines == old(medicines) && removed == None
      ensures modalMode == old(modalMode) && editingId == old(editingId)
      ensures form == old(form) && activeDays == old(activeDays)
    {
      removed := None;
      if confirmId.Some? {
        var id := confirmId.value;
        removed := Find(medicines, id);
        RemoveKeepsInvariant(medicines, id);
        medicines := RemoveId(medicines, id);
      }
      confirmId := None;
    }
  }

  /** A usage scenario over the handlers, not a model of any one of them: add
      "Waran" at 07:00, mark it taken at 08:14, change its dose, delete it. Its
      assertions are what a caller concludes from the handlers' contracts
      alone. */
  method WaranScenario(id: Id)
  {
    var page := new MedicinPage();
    page.OpenAdd();
    page.SetName("Waran");
    page.SetDose("5mg");
    assert !IsBlank("Waran") by { assert !IsWhiteSpace("Waran"[0]); }
    var alarm := page.SaveMedicine(id, 7 * MsPerHour);
    assert page.medicines == [Reminder(id, "Waran", "5mg", TimeOfDay(8, 0), AllDays, false, None)];
    assert alarm == Some(Alarm(MsPerHour, "Waran", "5mg"));
    assert page.modalMode == Closed;

    page.ToggleTaken(id, "08:14");
    assert page.medicines[0].taken && page.medicines[0].takenAt == Some("08:14");

    page.OpenEdit(page.medicines[0]);
    page.SetDose("10mg");
    alarm := page.SaveMedicine(id, 9 * MsPerHour);
    assert page.medicines[0].dose == "10mg" && page.medicines[0].taken;
    assert alarm == None;

    page.RequestDelete(id);
    ghost var before := page.medicines;
    var removed := page.DeleteMedicine();
    RemoveUnique(before, 0, id);
    assert page.medicines == [];
  }
}
