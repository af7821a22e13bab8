/** The weekday selection of the reminder form: a list of day indices
    0..6 (Monday first) that the day buttons toggle. */
module Weekdays {

  /** Number of day buttons (Mån .. Sön). */
  const DaysInWeek: int := 7

  /** Every day selected: the selection a new form starts with. */
  const AllDays: seq<int> := [0, 1, 2, 3, 4, 5, 6]

  predicate NoDuplicates(s: seq<int>)
  {
    forall a, b :: 0 <= a < b < |s| ==> s[a] != s[b]
  }

  /** A well-formed selection: a set of day indices, written as a list. */
  predicate DaySet(s: seq<int>)
  {
    NoDuplicates(s) && forall k :: 0 <= k < |s| ==> 0 <= s[k] < DaysInWeek
  }

  /** `days.filter(d => d !== i)`: drops every occurrence of `i` and keeps the
      other days in their order. */
  function Without(days: seq<int>, i: int): (r: seq<int>)
    ensures forall d :: d in r <==> d in days && d != i
    ensures |r| <= |days|
    ensures i !in days ==> r == days
  {
    if days == [] then []
    else (if days[0] != i then [days[0]] else []) + Without(days[1..], i)
  }

  /** `prev.includes(i) ? prev.filter(d => d !== i) : [...prev, i]`: the
      selection with day `i` switched, and nothing else. */
  function ToggleDay(days: seq<int>, i: int): (r: seq<int>)
    ensures i in r <==> i !in days
    ensures forall d :: d != i ==> (d in r <==> d in days)
  {
    if i in days then Without(days, i) else days + [i]
  }

  lemma {:induction false} WithoutKeepsNoDuplicates(days: seq<int>, i: int)
    requires NoDuplicates(days)
    ensures NoDuplicates(Without(days, i))
  {
    if days != [] {
      var rest := Without(days[1..], i);
      WithoutKeepsNoDuplicates(days[1..], i);
      if days[0] != i {
        assert days[0] !in days[1..];
        assert days[0] !in rest;
        assert Without(days, i) == [days[0]] + rest;
      } else {
        assert Without(days, i) == rest;
      }
    }
  }

  /** After the toggle, `i` is selected exactly when it was not before, and
      every other day keeps its selection. */
  lemma ToggleDayFlipsOnlyI(days: seq<int>, i: int)
    ensures i in ToggleDay(days, i) <==> i !in days
    ensures forall d :: d != i ==> (d in ToggleDay(days, i) <==> d in days)
  {
  }

  /** The toggle keeps the selection a set of day indices. */
  lemma ToggleDayKeepsDaySet(days: seq<int>, i: int)
    requires DaySet(days) && 0 <= i < DaysInWeek
    ensures DaySet(ToggleDay(days, i))
  {
    var r := ToggleDay(days, i);
    if i in days {
      WithoutKeepsNoDuplicates(days, i);
      forall k | 0 <= k < |r| ensures 0 <= r[k] < DaysInWeek {
        assert r[k] in r;
      }
    } else {
      assert r == days + [i];
      assert r[|days|] == i;
    }
  }

  /** Toggling the same day twice restores the selection as a set; when the day
      was off, it restores the very same list. */
  lemma ToggleDayTwice(days: seq<int>, i: int)
    ensures forall d :: d in ToggleDay(ToggleDay(days, i), i) <==> d in days
    ensures i !in days ==> ToggleDay(ToggleDay(days, i), i) == days
  {
    ToggleDayFlipsOnlyI(days, i);
    ToggleDayFlipsOnlyI(ToggleDay(days, i), i);
    if i !in days {
      WithoutAppend(days, i);
    }
  }

  /** Dropping the day just appended gives back the list it was appended to. */
  lemma {:induction false} WithoutAppend(days: seq<int>, i: int)
    requires i !in days
    ensures Without(days + [i], i) == days
  {
    if days == [] {
      assert Without([i], i) == [] + Without([], i);
    } else {
      assert (days + [i])[1..] == days[1..] + [i];
      WithoutAppend(days[1..], i);
      assert days == [days[0]] + days[1..];
    }
  }
}
