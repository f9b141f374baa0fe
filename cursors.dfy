/** The selection arbitration of one finger cursor: a dwell-timer table
    driven by trigger enter, stay and exit events, a commit queue grouped by
    priority, and the once-per-frame pass that toggles at most one candidate
    and empties the queue. */
module Cursors {
  import opened Selectables
  import opened CommitQueue

  /** The engine's clock reading; it is stored and never computed with. */
  type Timestamp = real

  /** The timer table after a trigger enter or stay event on `s`, where
      `valid` is the candidate's validity at that moment. */
  function AfterContact(timers: map<Selectable, Timestamp>, s: Selectable, valid: bool, now: Timestamp)
    : (r: map<Selectable, Timestamp>)
    ensures !valid ==> s !in r
    ensures valid ==> s in r && r[s] == (if s in timers then timers[s] else now)
    ensures r - {s} == timers - {s}
  {
    if !valid then timers - {s}
    else if s !in timers then timers[s := now]
    else timers
  }

  /** Repeated contact does not restart a timer: a second enter or stay
      event with the same validity, at any later time, changes nothing. */
  lemma RepeatedContactKeepsTimer(timers: map<Selectable, Timestamp>, s: Selectable, valid: bool,
                                  first: Timestamp, later: Timestamp)
    ensures AfterContact(AfterContact(timers, s, valid, first), s, valid, later)
         == AfterContact(timers, s, valid, first)
  {
  }

  /** Clearing a timer removes that key only; clearing an absent key, or
      clearing twice, changes nothing. */
  lemma ClearIsIdempotent(timers: map<Selectable, Timestamp>, s: Selectable)
    ensures s !in timers ==> timers - {s} == timers
    ensures (timers - {s}) - {s} == timers - {s}
    ensures forall x :: x != s && x in timers ==> x in timers - {s} && (timers - {s})[x] == timers[x]
  {
  }

  class FingerCursorTrigger {
    /** Candidates in valid contact, with the time their contact began. */
    var selectionTimers: map<Selectable, Timestamp>
    /** The commit queue, in iteration order (highest priority first). */
    var selected: seq<Bucket>

    ghost predicate Valid()
      reads this
    {
      Descending(selected)
    }

    /** The commit queue as a dictionary from priority to list. */
    ghost function Queue(): map<int, seq<Selectable>>
      reads this
    {
      AsMap(selected)
    }

    constructor ()
      ensures Valid()
      ensures selectionTimers == map[] && selected == []
    {
      selectionTimers := map[];
      selected := [];
    }

    /** A trigger enter event: an invalid candidate loses its timer; a valid
        untimed one is timed from `now`; a timed one keeps its start time. */
    method OnTriggerEnter(s: Selectable, now: Timestamp)
      requires Valid()
      modifies this`selectionTimers
      ensures Valid()
      ensures selectionTimers == AfterContact(old(selectionTimers), s, IsValid(s), now)
    {
      if !IsValid(s) {
        ClearCursorTimer(s);
      } else if s !in selectionTimers {
        selectionTimers := selectionTimers[s := now];
      }
    }

    /** A trigger stay event has the same effect as an enter event. */
    method OnTriggerStay(s: Selectable, now: Timestamp)
      requires Valid()
      modifies this`selectionTimers
      ensures Valid()
      ensures selectionTimers == AfterContact(old(selectionTimers), s, IsValid(s), now)
    {
      OnTriggerEnter(s, now);
    }

    /** A trigger exit event clears the candidate's timer. */
    method OnTriggerExit(s: Selectable)
      requires Valid()
      modifies this`selectionTimers
      ensures Valid()
      ensures selectionTimers == old(selectionTimers) - {s}
    {
      ClearCursorTimer(s);
    }

    /** Removes the candidate's timer if it has one. */
    method ClearCursorTimer(s: Selectable)
      requires Valid()
      modifies this`selectionTimers
      ensures Valid()
      ensures selectionTimers == old(selectionTimers) - {s}
    {
      if s in selectionTimers {
        selectionTimers := selectionTimers - {s};
      }
    }

    /** Commits a candidate: its timer is dropped and it is appended to the
        list for its current priority, which is created when absent. */
    method SetSelected(s: Selectable)
      requires Valid()
      modifies this
      ensures Valid()
      ensures selectionTimers == old(selectionTimers) - {s}
      ensures Queue() == old(Queue())[s.priority :=
                (if s.priority in old(Queue()) then old(Queue())[s.priority] else []) + [s]]
      ensures Committed(selected) == old(Committed(selected)) + {s}
    {
      selectionTimers := selectionTimers - {s};
      if s.priority !in AsMap(selected) {
        InsertBucketKeepsOrder(selected, s.priority);
        InsertBucketAddsKey(selected, s.priority);
        selected := InsertBucket(selected, s.priority);
      }
      AppendAtExtendsList(selected, s.priority, s);
      selected := AppendAt(selected, s.priority, s);
    }

    /** The arbitration pass: finds the first valid candidate, scanning the
        lists from the highest priority down and each list in commit order,
        empties every list, then inverts the winner's selection flag. */
    method ProcessSelected()
      requires Valid()
      modifies this`selected, Committed(selected)
      ensures Valid()
      ensures selectionTimers == old(selectionTimers)
      ensures selected == Drained(old(selected))
      ensures Queue().Keys == old(Queue()).Keys
      ensures forall p :: p in Queue() ==> Queue()[p] == []
      ensures Committed(selected) == {}
      ensures forall c :: old(allocated(c)) && c in old(Committed(selected)) ==>
                c.isSelected == (if old(Winner(selected)) == Some(c) then !old(c.isSelected) else old(c.isSelected))
      ensures forall c :: old(allocated(c)) && c in old(Committed(selected)) ==>
                c.priority == old(c.priority) && c.isInteractable == old(c.isInteractable)
                && c.isSelectable == old(c.isSelectable)
    {
      ghost var buckets := selected;
      ghost var winner := Winner(selected);
      var hasFirstSelected := false;
      var firstSelected: Selectable? := null;
      ghost var wi, wj := 0, 0;

      for i := 0 to |selected|
        invariant !hasFirstSelected
        invariant forall k, l :: 0 <= k < i && 0 <= l < |selected[k].items| ==> !IsValid(selected[k].items[l])
      {
        var items := selected[i].items;
        for j := 0 to |items|
          invariant !hasFirstSelected
          invariant forall l :: 0 <= l < j ==> !IsValid(items[l])
        {
          if IsValid(items[j]) {
            hasFirstSelected := true;
            firstSelected := items[j];
            wi, wj := i, j;
            break;
          }
        }
        if hasFirstSelected {
          break;
        }
      }
      assert hasFirstSelected ==> WinnerAt(buckets) == Some((wi, wj)) && winner.Some? && winner.value == firstSelected;
      assert !hasFirstSelected ==> winner.None?;

      for i := 0 to |selected|
        modifies this`selected
        invariant |selected| == |buckets|
        invariant forall k :: 0 <= k < i ==> selected[k] == Bucket(buckets[k].priority, [])
        invariant forall k :: i <= k < |selected| ==> selected[k] == buckets[k]
      {
        selected := selected[i := Bucket(selected[i].priority, [])];
      }
      assert selected == Drained(buckets);
      DrainedEmptiesEveryList(buckets);

      if hasFirstSelected {
        CommittedAt(buckets, wi, wj);
        firstSelected.SetSelected(!firstSelected.isSelected);
      }
    }

    /** The once-per-frame entry point: the arbitration pass. */
    method ProcessPriorityLists()
      requires Valid()
      modifies this`selected, Committed(selected)
      ensures Valid()
      ensures selectionTimers == old(selectionTimers)
      ensures selected == Drained(old(selected))
      ensures Queue().Keys == old(Queue()).Keys
      ensures forall p :: p in Queue() ==> Queue()[p] == []
      ensures Committed(selected) == {}
      ensures forall c :: old(allocated(c)) && c in old(Committed(selected)) ==>
                c.isSelected == (if old(Winner(selected)) == Some(c) then !old(c.isSelected) else old(c.isSelected))
      ensures forall c :: old(allocated(c)) && c in old(Committed(selected)) ==>
                c.priority == old(c.priority) && c.isInteractable == old(c.isInteractable)
                && c.isSelectable == old(c.isSelectable)
    {
      ProcessSelected();
    }
  }
}
