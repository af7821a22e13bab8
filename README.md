# Medicine reminder page — a Dafny model

This project models the medication-reminder manager of the "Stoppa Proppen"
web app: the `MedicinPage` component in `frontend/src/pages/MedicinPage.jsx`.
The component keeps an in-memory list of reminders. Each reminder has an id,
a name, a dose, a time of day, a set of weekdays, a taken flag and the time it
was taken. Around that list sit three things:

- an add/edit modal with a draft form and a weekday selection;
- a delete confirmation;
- a one-shot timer that reminds the user later the same day.

The model has one module per concern:

- `Optional` is the `null`-able value.
- `Text` is JavaScript's `trim` and the blank-name test.
- `Weekdays` is the day toggle.
- `Reminders` holds the list transforms and the counts. They are pure
  functions, like the `map`/`filter` expressions of the source.
- `Scheduler` computes the delay and applies the guard.
- `Page` holds the class `MedicinPage`. Its fields are the component's state
  variables: `medicines`, `modalMode`, `editingId`, `confirmId`, `activeDays`
  and `form`. Its methods are the event handlers. Each replaces the fields
  that the handler's setters replace, and says how the new state relates to
  the old one.

The class invariant `Valid()` includes the list invariant. That invariant says
that ids are unique, that `takenAt` is set exactly when `taken` is, that no
saved name is blank, and that every `days` list is a duplicate-free list of
indices 0..6. It also says that the draft's days are a day set, and that an
edited id is held exactly while the edit modal is open. Every handler keeps
`Valid()`.

Inputs that come from the clock are parameters:

- the fresh id (`Date.now()`);
- the "taken at" stamp (the locale-formatted "HH:MM");
- the current time in milliseconds since local midnight.

A time of day is an integer hour and minute.

The model follows the code as written:

- `deleteMedicine` filters out every entry with the pending id. It removes
  exactly one entry because ids are unique, which is proved as a lemma.
- `openEdit` takes the entry object itself from the rendered list.
- The `else` branch of `saveMedicine` adds a reminder in any mode other than
  `'edit'`, including a closed modal.
- Closing the modal keeps the draft. Only `openAdd` and `openEdit` reset it.

## Model

| member | source | states |
|---|---|---|
| Page.MedicinPage.constructor | frontend/src/pages/MedicinPage.jsx:682-700 | initial state: empty list, no modal, no edited or pending id, all seven days selected, the empty form |
| Page.MedicinPage.AllDone | frontend/src/pages/MedicinPage.jsx:822 | the header says "all done" exactly when every entry is taken, i.e. when the taken count equals the list length |
| Page.MedicinPage.OpenAdd | frontend/src/pages/MedicinPage.jsx:708-713 | draft becomes `{'' , '', 08:00}`, days 0..6, no edited id, mode add; list and pending delete untouched |
| Page.MedicinPage.OpenEdit | frontend/src/pages/MedicinPage.jsx:717-722 | draft loaded with the entry's name, dose and time, days with its days, edited id is its id, mode edit; nothing else changes |
| Page.MedicinPage.CloseModal | frontend/src/pages/MedicinPage.jsx:725-728 | mode closed and no edited id; list, draft, days and pending delete untouched |
| Page.MedicinPage.SetName | frontend/src/pages/MedicinPage.jsx:921 | only the draft's name changes |
| Page.MedicinPage.SetDose | frontend/src/pages/MedicinPage.jsx:932 | only the draft's dose changes |
| Page.MedicinPage.SetTime | frontend/src/pages/MedicinPage.jsx:942 | only the draft's time changes |
| Page.MedicinPage.ToggleDay | frontend/src/pages/MedicinPage.jsx:800-803 | day `i` is selected afterwards iff it was not before, every other day keeps its membership, the selection stays a day set, nothing else changes |
| Page.MedicinPage.SaveMedicine | frontend/src/pages/MedicinPage.jsx:732-770 | blank name: nothing changes and the modal stays open; edit mode: the list is the edit of the edited id; otherwise exactly one new untaken entry (fresh id, draft fields, selected days) is appended and the alarm is the scheduler's decision; after a save the modal is closed with no edited id; the invariant is kept |
| Page.MedicinPage.ToggleTaken | frontend/src/pages/MedicinPage.jsx:774-785 | the list becomes the taken-toggle of the id; modal, draft and pending delete untouched; the invariant (taken iff stamped) is kept |
| Page.MedicinPage.RequestDelete | frontend/src/pages/MedicinPage.jsx:868 | the pending delete id is set; nothing else changes |
| Page.MedicinPage.CancelDelete | frontend/src/pages/MedicinPage.jsx:980 | the pending delete id is cleared; nothing else changes |
| Page.MedicinPage.DeleteMedicine | frontend/src/pages/MedicinPage.jsx:790-796 | with a pending id, the list loses the entries with that id and `removed` is the first entry with it, looked up before removal; with none, the list is unchanged; the pending id is cleared either way; the invariant is kept |
| Text.TrimStart | frontend/src/pages/MedicinPage.jsx:733 | the result is a suffix of the input, starts with a non-space or is empty, and only white space was removed |
| Text.TrimEnd | frontend/src/pages/MedicinPage.jsx:733 | the result is a prefix of the input, ends with a non-space or is empty, and only white space was removed |
| Text.Trim | frontend/src/pages/MedicinPage.jsx:733 | `form.name.trim()` is a slice of the name with only white space before and after it, and it neither starts nor ends with white space: trim removes the leading and trailing white space and nothing else |
| Text.TrimIsInnerSlice | frontend/src/pages/MedicinPage.jsx:733 | that slice is unique: any slice of the name with only white space before and after it and no white space at its ends is exactly `name.trim()` |
| Text.TrimEmptyIffBlank | frontend/src/pages/MedicinPage.jsx:733 | `!name.trim()` holds exactly when the name is empty or all white space |
| Weekdays.Without | frontend/src/pages/MedicinPage.jsx:802 | `filter(d => d !== i)` keeps exactly the days other than `i`, never grows, and is the identity when `i` is absent |
| Weekdays.ToggleDay | frontend/src/pages/MedicinPage.jsx:801-802 | the updater switches day `i` (present afterwards iff absent before) and keeps every other day's membership |
| Weekdays.WithoutKeepsNoDuplicates | frontend/src/pages/MedicinPage.jsx:802 | filtering a duplicate-free list leaves it duplicate-free |
| Weekdays.WithoutAppend | frontend/src/pages/MedicinPage.jsx:802 | filtering out a day just appended restores the list |
| Weekdays.ToggleDayFlipsOnlyI | frontend/src/pages/MedicinPage.jsx:800-803 | after the toggle `i` is in the list iff it was not; other days keep their membership |
| Weekdays.ToggleDayKeepsDaySet | frontend/src/pages/MedicinPage.jsx:800-803 | toggling a day index 0..6 keeps the selection duplicate-free and within 0..6 |
| Weekdays.ToggleDayTwice | frontend/src/pages/MedicinPage.jsx:800-803 | toggling twice restores membership; from "off" it restores the same list |
| Reminders.AddKeepsInvariant | frontend/src/pages/MedicinPage.jsx:746-751 | appending a fresh-id, untaken, non-blank entry keeps ids unique and the list invariant, and the new id is present |
| Reminders.NewReminder | frontend/src/pages/MedicinPage.jsx:746-750 | `newMed` starts untaken with no stamp, and is well formed when the name is not blank and the days are a day set |
| Reminders.EditList | frontend/src/pages/MedicinPage.jsx:737-741 | same length; ids, taken and takenAt of every entry kept; entries with another id identical; the entry with the id takes the draft's name, dose, time and the days |
| Reminders.Revise | frontend/src/pages/MedicinPage.jsx:739 | the spread keeps the entry's id, taken and takenAt, and keeps it well formed under a non-blank name and a day set |
| Reminders.EditAbsentIsNoop | frontend/src/pages/MedicinPage.jsx:737-741 | editing an id not in the list leaves the list unchanged |
| Reminders.EditKeepsInvariant | frontend/src/pages/MedicinPage.jsx:737-741 | an edit with a non-blank name and a day set keeps the list invariant |
| Reminders.ToggleList | frontend/src/pages/MedicinPage.jsx:774-785 | same length; other entries identical; an untaken entry with the id becomes taken with the given stamp, a taken one untaken with no stamp; its other fields kept |
| Reminders.Toggled | frontend/src/pages/MedicinPage.jsx:776-783 | the callback flips `taken`, always leaves takenAt set iff taken, and keeps id, name, dose, time and days |
| Reminders.ToggleAbsentIsNoop | frontend/src/pages/MedicinPage.jsx:774-785 | toggling an id not in the list leaves the list unchanged |
| Reminders.ToggleKeepsInvariant | frontend/src/pages/MedicinPage.jsx:774-785 | toggling keeps "takenAt set iff taken" and the rest of the list invariant |
| Reminders.ToggleTwice | frontend/src/pages/MedicinPage.jsx:774-785 | toggling twice restores every taken flag, and restores an initially untaken entry exactly |
| Reminders.ToggleUntakenCounts | frontend/src/pages/MedicinPage.jsx:774-785 | with unique ids, marking an untaken entry taken raises the taken count by one and lowers the remaining count by one |
| Reminders.Find | frontend/src/pages/MedicinPage.jsx:791 | finds an entry iff one has the id; the result is the first entry of the list with that id |
| Reminders.RemoveId | frontend/src/pages/MedicinPage.jsx:792 | the result holds exactly the entries whose id differs, and is no longer than the input |
| Reminders.RemoveAppend | frontend/src/pages/MedicinPage.jsx:792 | the filter distributes over concatenation, so relative order is preserved |
| Reminders.RemoveAbsentIsNoop | frontend/src/pages/MedicinPage.jsx:792 | deleting an id not in the list leaves the list unchanged |
| Reminders.RemoveUnique | frontend/src/pages/MedicinPage.jsx:792 | with unique ids, deleting the id of entry k yields the list with exactly entry k cut out, one shorter |
| Reminders.RemoveKeepsUniqueIds | frontend/src/pages/MedicinPage.jsx:792 | deleting keeps ids unique |
| Reminders.RemoveKeepsInvariant | frontend/src/pages/MedicinPage.jsx:792 | deleting keeps the list invariant |
| Reminders.TakenCount | frontend/src/pages/MedicinPage.jsx:703 | the taken count is at most the list length |
| Reminders.RemainingCount | frontend/src/pages/MedicinPage.jsx:704 | the remaining count is at most the list length |
| Reminders.CountsPartition | frontend/src/pages/MedicinPage.jsx:703-704 | taken count plus remaining count equals the list length |
| Reminders.AllDoneIff | frontend/src/pages/MedicinPage.jsx:822 | remaining count is zero iff every entry is taken iff the taken count is the list length |
| Scheduler.ReminderAlarm | frontend/src/pages/MedicinPage.jsx:754-763 | an alarm is armed iff 0 < time-of-day − now < 24 h; its delay is that difference and it carries the draft's name and dose |
| Scheduler.TimeOfDayMs | frontend/src/pages/MedicinPage.jsx:755-756 | `setHours(h, min, 0, 0)` of a valid time lies within the day, and hour and minute are recovered from it by division |
| Scheduler.MsUntil | frontend/src/pages/MedicinPage.jsx:757 | waiting `msUntil` from now reaches the reminder's time; for a valid time and clock reading it is less than a day in either direction |
| Scheduler.ArmedIffLaterToday | frontend/src/pages/MedicinPage.jsx:754-763 | for a valid time and clock reading: armed iff the time is still ahead today, it fires exactly at that time, and the 24 h bound never bites |
| Scheduler.NineOClockExamples | frontend/src/pages/MedicinPage.jsx:759 | at 09:00 a reminder for 08:00 arms nothing; one for 10:00 arms a one-hour timer |

## Left out

- Toasts (`toast`, `ToastContainer`) and the firing of `setTimeout` are left
  out. `SaveMedicine` returns the alarm it would arm: its delay, and the name
  and dose captured at that moment. It does not track armed timers. So the
  model does not show that a pending alarm survives a later edit or delete of
  its reminder.
- Clock and locale calls are parameters, not computations. This covers
  `Date.now()`, `new Date()`, `toLocaleTimeString`, `getTodayName` and
  `getDateString`. The taken stamp is any string the caller supplies.
- Scheduler.ReminderAlarm: the clock reading is milliseconds since local
  midnight. Days with a daylight-saving change are not modelled; on such days
  `setHours` shifts the real difference by an hour.
- The "HH:MM" string and its parsing by `split(':').map(Number)` are not
  modelled. Times are an integer hour and minute. A cleared time field parses
  to NaN, which silently suppresses the alarm. That case is outside the model.
- Page.MedicinPage.SaveMedicine: requires the fresh id to be absent from the
  list whenever the add branch can run. The source's `Date.now()` does not
  guarantee this: two adds in the same millisecond would collide.
- Page.MedicinPage.OpenEdit: requires the entry to be in the list. The page
  only calls it on an entry it is rendering.
- Page.MedicinPage.ToggleDay: requires 0 <= i < 7. The page only calls it
  from the seven day buttons.
- Rendering is not modelled. This covers the today and tomorrow lists, the
  summary text and the icons. It also covers the test `{confirmId && ...}`
  that shows the delete dialog; that test would hide the dialog for an id of
  0.
- React's batching of state updates is not modelled. Each handler applies its
  updates in one step, in the order the handler makes them.
- The login page, landing page, layout, navbar, theme, global styles and
  routing are not part of this model. They hold only markup, styles and
  navigation.
