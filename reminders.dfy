/** The reminder list of the medicine page and the pure list transforms its
    handlers apply: append on add, `map` on edit and on taken-toggle, `filter`
    on delete, and the two derived counts. */
module Reminders {
  import opened Optional
  import opened Text
  import opened Weekdays

  /** A reminder id: the millisecond timestamp `Date.now()` gave at creation. */
  type Id = nat

  /** A reminder time "HH:MM", as hour and minute. */
  datatype TimeOfDay = TimeOfDay(hour: int, minute: int)

  /** One list entry `{id, name, dose, time, days, taken, takenAt}`. */
  datatype Reminder = Reminder(
    id: Id,
    name: string,
    dose: string,
    time: TimeOfDay,
    days: seq<int>,
    taken: bool,
    takenAt: Option<string>)

  /** The draft `form` of the add/edit modal. */
  datatype Draft = Draft(name: string, dose: string, time: TimeOfDay)

  /** `EMPTY_FORM`: `{name: '', dose: '', time: '08:00'}`. */
  const EmptyForm: Draft := Draft("", "", TimeOfDay(8, 0))

  predicate HasId(s: seq<Reminder>, id: Id)
  {
    exists k :: 0 <= k < |s| && s[k].id == id
  }

  predicate UniqueIds(s: seq<Reminder>)
  {
    forall a, b :: 0 <= a < b < |s| ==> s[a].id != s[b].id
  }

  /** `takenAt` is present exactly when the entry is marked taken. */
  predicate TakenCoupled(m: Reminder)
  {
    m.taken <==> m.takenAt.Some?
  }

  /** What every saved entry satisfies: the taken stamp agrees with `taken`, the
      name is not blank and the days are a set of day indices. */
  predicate WellFormed(m: Reminder)
  {
    TakenCoupled(m) && !IsBlank(m.name) && DaySet(m.days)
  }

  predicate StoreInvariant(s: seq<Reminder>)
  {
    UniqueIds(s) && forall k :: 0 <= k < |s| ==> WellFormed(s[k])
  }

  // ---------------------------------------------------------------- add

  /** `newMed`: a fresh entry built from the draft and the selected days. It
      starts untaken with no stamp, and it is well formed whenever the name is
      not blank and the days are a day set. */
  function NewReminder(id: Id, d: Draft, days: seq<int>): (m: Reminder)
    ensures !m.taken && TakenCoupled(m)
    ensures !IsBlank(d.name) && DaySet(days) ==> WellFormed(m)
  {
    Reminder(id, d.name, d.dose, d.time, days, false, None)
  }

  /** `[...prev, newMed]` keeps the store invariant when the id is fresh, the
      name is not blank and the days are a day set. */
  lemma AddKeepsInvariant(s: seq<Reminder>, id: Id, d: Draft, days: seq<int>)
    requires StoreInvariant(s) && !HasId(s, id)
    requires !IsBlank(d.name) && DaySet(days)
    ensures StoreInvariant(s + [NewReminder(id, d, days)])
    ensures HasId(s + [NewReminder(id, d, days)], id)
  {
    var r := s + [NewReminder(id, d, days)];
    assert r[|s|].id == id;
    forall a, b | 0 <= a < b < |r| ensures r[a].id != r[b].id {
      if b == |s| {
        assert s[a].id != id;
      }
    }
  }

  // ---------------------------------------------------------------- edit

  /** `{...m, name, dose, time, days}`: the entry keeps its id and its taken
      state, and stays well formed under a non-blank name and a day set. */
  function Revise(m: Reminder, d: Draft, days: seq<int>): (r: Reminder)
    ensures r.id == m.id && r.taken == m.taken && r.takenAt == m.takenAt
    ensures WellFormed(m) && !IsBlank(d.name) && DaySet(days) ==> WellFormed(r)
  {
    m.(name := d.name, dose := d.dose, time := d.time, days := days)
  }

  /** The edit branch of saving: `prev.map(m => m.id === editingId ? {...} : m)`.
      Only the entries with the edited id change, and of those only name,
      dose, time and days; ids, taken state, length and order are kept. */
  function EditList(s: seq<Reminder>, id: Id, d: Draft, days: seq<int>): (r: seq<Reminder>)
    ensures |r| == |s|
    ensures forall k :: 0 <= k < |s| ==>
      r[k].id == s[k].id && r[k].taken == s[k].taken && r[k].takenAt == s[k].takenAt
    ensures forall k :: 0 <= k < |s| && s[k].id != id ==> r[k] == s[k]
    ensures forall k :: 0 <= k < |s| && s[k].id == id ==>
      r[k].name == d.name && r[k].dose == d.dose && r[k].time == d.time && r[k].days == days
  {
    if s == [] then []
    else [if s[0].id == id then Revise(s[0], d, days) else s[0]] + EditList(s[1..], id, d, days)
  }

  /** Editing an id that is not in the list changes nothing. */
  lemma EditAbsentIsNoop(s: seq<Reminder>, id: Id, d: Draft, days: seq<int>)
    requires !HasId(s, id)
    ensures EditList(s, id, d, days) == s
  {
    var r := EditList(s, id, d, days);
    forall k | 0 <= k < |s| ensures r[k] == s[k] {
      assert s[k].id != id;
    }
  }

  /** An edit with a non-blank name and a day set keeps the store invariant. */
  lemma EditKeepsInvariant(s: seq<Reminder>, id: Id, d: Draft, days: seq<int>)
    requires StoreInvariant(s) && !IsBlank(d.name) && DaySet(days)
    ensures StoreInvariant(EditList(s, id, d, days))
  {
    var r := EditList(s, id, d, days);
    forall k | 0 <= k < |r| ensures WellFormed(r[k]) {
      assert WellFormed(s[k]);
    }
  }

  // ---------------------------------------------------------------- toggle taken

  /** One entry after `toggleTaken`: an untaken entry becomes taken, stamped with
      `stamp`; a taken entry becomes untaken and loses its stamp. */
  function Toggled(m: Reminder, stamp: string): (r: Reminder)
    ensures r.taken == !m.taken && TakenCoupled(r)
    ensures r.id == m.id && r.name == m.name && r.dose == m.dose
      && r.time == m.time && r.days == m.days
  {
    if !m.taken then m.(taken := true, takenAt := Some(stamp))
    else m.(taken := false, takenAt := None)
  }

  /** `toggleTaken(id)`: `prev.map(...)` that toggles the entries with that id,
      stamping newly taken ones with `stamp` (the local "HH:MM" the handler
      formats from the clock); all other entries are untouched. */
  function ToggleList(s: seq<Reminder>, id: Id, stamp: string): (r: seq<Reminder>)
    ensures |r| == |s|
    ensures forall k :: 0 <= k < |s| && s[k].id != id ==> r[k] == s[k]
    ensures forall k :: 0 <= k < |s| && s[k].id == id ==>
      r[k].taken == !s[k].taken
      && r[k].takenAt == (if s[k].taken then None else Some(stamp))
      && r[k] == s[k].(taken := r[k].taken, takenAt := r[k].takenAt)
  {
    if s == [] then []
    else [if s[0].id == id then Toggled(s[0], stamp) else s[0]] + ToggleList(s[1..], id, stamp)
  }

  /** Toggling an id that is not in the list changes nothing. */
  lemma ToggleAbsentIsNoop(s: seq<Reminder>, id: Id, stamp: string)
    requires !HasId(s, id)
    ensures ToggleList(s, id, stamp) == s
  {
    var r := ToggleList(s, id, stamp);
    forall k | 0 <= k < |s| ensures r[k] == s[k] {
      assert s[k].id != id;
    }
  }

  /** Toggling keeps the store invariant, in particular "`takenAt` is set iff
      `taken`". */
  lemma ToggleKeepsInvariant(s: seq<Reminder>, id: Id, stamp: string)
    requires StoreInvariant(s)
    ensures StoreInvariant(ToggleList(s, id, stamp))
  {
    var r := ToggleList(s, id, stamp);
    forall k | 0 <= k < |r| ensures WellFormed(r[k]) {
      assert WellFormed(s[k]);
    }
  }

  /** Toggling twice restores every entry's taken flag, and restores the entry
      itself when it started untaken. */
  lemma ToggleTwice(s: seq<Reminder>, id: Id, stamp1: string, stamp2: string)
    requires forall k :: 0 <= k < |s| ==> TakenCoupled(s[k])
    ensures var r := ToggleList(ToggleList(s, id, stamp1), id, stamp2);
      |r| == |s|
      && (forall k :: 0 <= k < |s| ==> r[k].taken == s[k].taken)
      && (forall k :: 0 <= k < |s| && !s[k].taken ==> r[k] == s[k])
  {
    var r1 := ToggleList(s, id, stamp1);
    var r := ToggleList(r1, id, stamp2);
    forall k | 0 <= k < |s| && !s[k].taken ensures r[k] == s[k] {
      assert TakenCoupled(s[k]);
    }
  }

  // ---------------------------------------------------------------- delete

  /** `prev.filter(m => m.id !== confirmId)`: keeps exactly the entries with
      another id. */
  function RemoveId(s: seq<Reminder>, id: Id): (r: seq<Reminder>)
    ensures forall m :: m in r <==> m in s && m.id != id
    ensures |r| <= |s|
  {
    if s == [] then []
    else (if s[0].id != id then [s[0]] else []) + RemoveId(s[1..], id)
  }

  /** `medicines.find(m => m.id === confirmId)`: the first entry with that id. */
  function Find(s: seq<Reminder>, id: Id): (r: Option<Reminder>)
    ensures r.Some? <==> HasId(s, id)
    ensures r.Some? ==> r.value in s && r.value.id == id
    ensures r.Some? ==>
      exists k :: 0 <= k < |s| && s[k] == r.value && (forall j :: 0 <= j < k ==> s[j].id != id)
  {
    if s == [] then None
    else if s[0].id == id then Some(s[0])
    else
      var r := Find(s[1..], id);
      assert forall j :: 0 <= j < |s| - 1 ==> s[1..][j] == s[j + 1];
      r
  }

  lemma {:induction false} RemoveAppend(a: seq<Reminder>, b: seq<Reminder>, id: Id)
    ensures RemoveId(a + b, id) == RemoveId(a, id) + RemoveId(b, id)
  {
    if a == [] {
      assert a + b == b;
    } else {
      assert (a + b)[0] == a[0];
      assert (a + b)[1..] == a[1..] + b;
      RemoveAppend(a[1..], b, id);
    }
  }

  /** Deleting an id that is not in the list changes nothing. */
  lemma {:induction false} RemoveAbsentIsNoop(s: seq<Reminder>, id: Id)
    requires !HasId(s, id)
    ensures RemoveId(s, id) == s
  {
    if s != [] {
      assert s[0].id != id;
      assert !HasId(s[1..], id) by {
        forall k | 0 <= k < |s| - 1 ensures s[1..][k].id != id {
          assert s[1..][k] == s[k + 1];
        }
      }
      RemoveAbsentIsNoop(s[1..], id);
      assert s == [s[0]] + s[1..];
    }
  }

  /** With unique ids, no entry other than `k` carries `k`'s id. */
  lemma OnlyEntryWithId(s: seq<Reminder>, k: nat)
    requires UniqueIds(s) && k < |s|
    ensures !HasId(s[..k], s[k].id) && !HasId(s[k + 1..], s[k].id)
  {
    forall j | 0 <= j < k ensures s[..k][j].id != s[k].id {
      assert s[..k][j] == s[j];
    }
    var b := s[k + 1..];
    forall j | 0 <= j < |b| ensures b[j].id != s[k].id {
      assert b[j] == s[k + 1 + j];
    }
  }

  lemma RemoveSingleMatch(m: Reminder, id: Id)
    requires m.id == id
    ensures RemoveId([m], id) == []
  {
    assert RemoveId([m], id) == [] + RemoveId([], id);
  }

  /** With unique ids, deleting the id of entry `k` removes exactly that entry:
      the others stay, in their order, and the length drops by one. */
  lemma RemoveUnique(s: seq<Reminder>, k: nat, id: Id)
    requires UniqueIds(s) && k < |s| && s[k].id == id
    ensures RemoveId(s, id) == s[..k] + s[k + 1..]
    ensures |RemoveId(s, id)| == |s| - 1
  {
    var a, b := s[..k], s[k + 1..];
    assert s == a + ([s[k]] + b);
    OnlyEntryWithId(s, k);
    calc {
      RemoveId(s, id);
      { RemoveAppend(a, [s[k]] + b, id); }
      RemoveId(a, id) + RemoveId([s[k]] + b, id);
      { RemoveAppend([s[k]], b, id); }
      RemoveId(a, id) + (RemoveId([s[k]], id) + RemoveId(b, id));
      { RemoveSingleMatch(s[k], id); }
      RemoveId(a, id) + RemoveId(b, id);
      { RemoveAbsentIsNoop(a, id); RemoveAbsentIsNoop(b, id); }
      a + b;
    }
  }

  /** Deleting keeps ids unique. */
  lemma {:induction false} RemoveKeepsUniqueIds(s: seq<Reminder>, id: Id)
    requires UniqueIds(s)
    ensures UniqueIds(RemoveId(s, id))
  {
    if s != [] {
      var rest := RemoveId(s[1..], id);
      RemoveKeepsUniqueIds(s[1..], id);
      if s[0].id != id {
        HeadIdNotInTail(s);
        PrependKeepsUniqueIds(s[0], rest);
      } else {
        assert RemoveId(s, id) == rest;
      }
    }
  }

  /** In a list with unique ids no later entry shares the first entry's id. */
  lemma HeadIdNotInTail(s: seq<Reminder>)
    requires UniqueIds(s) && s != []
    ensures forall m :: m in s[1..] ==> m.id != s[0].id
  {
    forall m | m in s[1..] ensures m.id != s[0].id {
      var j :| 0 <= j < |s| - 1 && s[1..][j] == m;
      assert s[j + 1] == m;
    }
  }

  /** Putting an entry in front of a list with unique ids keeps the ids
      unique when no entry of the list has its id. */
  lemma PrependKeepsUniqueIds(m: Reminder, s: seq<Reminder>)
    requires UniqueIds(s) && forall x :: x in s ==> x.id != m.id
    ensures UniqueIds([m] + s)
  {
    var r := [m] + s;
    forall a, b | 0 <= a < b < |r| ensures r[a].id != r[b].id {
      if a == 0 {
        assert r[b] == s[b - 1];
      } else {
        assert r[a] == s[a - 1] && r[b] == s[b - 1];
      }
    }
  }

  lemma RemoveKeepsInvariant(s: seq<Reminder>, id: Id)
    requires StoreInvariant(s)
    ensures StoreInvariant(RemoveId(s, id))
  {
    var r := RemoveId(s, id);
    RemoveKeepsUniqueIds(s, id);
    forall k | 0 <= k < |r| ensures WellFormed(r[k]) {
      assert r[k] in s;
      var j :| 0 <= j < |s| && s[j] == r[k];
      assert WellFormed(s[j]);
    }
  }

  // ---------------------------------------------------------------- counts

  /** `medicines.filter(m => m.taken).length`. */
  function TakenCount(s: seq<Reminder>): (n: nat)
    ensures n <= |s|
  {
    if s == [] then 0 else (if s[0].taken then 1 else 0) + TakenCount(s[1..])
  }

  /** `medicines.filter(m => !m.taken).length`. */
  function RemainingCount(s: seq<Reminder>): (n: nat)
    ensures n <= |s|
  {
    if s == [] then 0 else (if s[0].taken then 0 else 1) + RemainingCount(s[1..])
  }

  /** Every entry is counted exactly once: taken plus remaining is the length. */
  lemma {:induction false} CountsPartition(s: seq<Reminder>)
    ensures TakenCount(s) + RemainingCount(s) == |s|
  {
    if s != [] {
      CountsPartition(s[1..]);
    }
  }

  /** The header says "all done" (`remainingCount === 0`) exactly when every
      entry is taken, i.e. when the taken count is the whole list. */
  lemma {:induction false} AllDoneIff(s: seq<Reminder>)
    ensures RemainingCount(s) == 0 <==> forall k :: 0 <= k < |s| ==> s[k].taken
    ensures RemainingCount(s) == 0 <==> TakenCount(s) == |s|
  {
    CountsPartition(s);
    if s != [] {
      AllDoneIff(s[1..]);
      assert forall k :: 1 <= k < |s| ==> s[k] == s[1..][k - 1];
    }
  }

  /** With unique ids, marking an untaken entry as taken moves exactly one
      entry from "remaining" to "taken". */
  lemma {:induction false} ToggleUntakenCounts(s: seq<Reminder>, k: nat, stamp: string)
    requires UniqueIds(s) && k < |s| && !s[k].taken
    ensures TakenCount(ToggleList(s, s[k].id, stamp)) == TakenCount(s) + 1
    ensures RemainingCount(ToggleList(s, s[k].id, stamp)) == RemainingCount(s) - 1
  {
    var id := s[k].id;
    var r := ToggleList(s, id, stamp);
    assert r == [r[0]] + ToggleList(s[1..], id, stamp);
    assert UniqueIds(s[1..]) by {
      forall a, b | 0 <= a < b < |s| - 1 ensures s[1..][a].id != s[1..][b].id {
        assert s[1..][a] == s[a + 1] && s[1..][b] == s[b + 1];
      }
    }
    if k == 0 {
      assert !HasId(s[1..], id) by {
        forall j | 0 <= j < |s| - 1 ensures s[1..][j].id != id {
          assert s[1..][j] == s[j + 1];
        }
      }
      ToggleAbsentIsNoop(s[1..], id, stamp);
    } else {
      assert s[1..][k - 1] == s[k];
      ToggleUntakenCounts(s[1..], k - 1, stamp);
    }
  }
}
