# Finger-cursor selection arbitration and closed ranges

This project is a Dafny model of two pieces of a Unity experiment on
touch-based selection.

**The selection arbitration of a finger cursor.** The C# class
`FingerCursorTriggerISelectable<T>` keeps two pieces of state:

- a dwell-timer table, from candidate to the time its valid contact began;
- a commit queue, a sorted dictionary from priority to the list of
  candidates committed at that priority, iterated from the highest priority
  down.

Trigger enter, stay and exit events maintain the timer table. `SetSelected`
commits a candidate. Once per frame `ProcessPriorityLists` runs the
arbitration pass `ProcessSelected`, which does three things:

- it finds the first candidate that is currently interactable and
  selectable, scanning the buckets from the highest priority down and each
  list in commit order;
- it empties every list and keeps the keys;
- it inverts that one candidate's selection flag.

**The generic closed interval `Range<T>`.** Its constructor rejects a
minimum above the maximum. Value containment is inclusive at both ends. A
range contains another when it contains both of the other's endpoints.

The model is split into these modules:

- `Selectables` (selectables.dfy): the candidate as a class with its four
  fields, and the validity check.
- `CommitQueue` (commit_queue.dfy): the sorted dictionary.
  - It is a sequence of `Bucket(priority, items)` in iteration order, with
    strictly descending keys.
  - Its view as a map is `AsMap`.
  - Adding a key (`InsertBucket`) and appending to a list (`AppendAt`) are
    pure functions.
  - `WinnerAt`/`Winner` are the reference definitions of the arbitration
    result.
- `Cursors` (cursors.dfy): the class `FingerCursorTrigger`.
  - Its fields are `selectionTimers: map<Selectable, Timestamp>` and
    `selected: seq<Bucket>`.
  - Its methods update those fields in place.
  - `ProcessSelected` keeps the source's nested scan loops, `hasFirstSelected`
    flag and `break`s, and its clearing loop. It is proved against `Winner`
    and `Drained`.
- `Ranges` (ranges.dfy): the range as a datatype.
  - `compare(a, b)` stands for `a.CompareTo(b)`.
  - Results are stated for any comparison that is reflexive and transitive,
    and for `int`.
- `Scenarios` (scenarios.dfy): two client walks through one cursor's events,
  written using only the operations' contracts.

The code does not keep the invariant "a candidate is never in the timer
table and in a commit list at once": a candidate committed by `SetSelected`
and then touched again in the same frame gets a new timer while it still
waits in its list. `Scenarios.CommittedCandidateCanBeTimedAgain` walks
through that sequence.

## Model

| member | source | states |
|---|---|---|
| Cursors.FingerCursorTrigger.constructor | Assets/Scripts/Inputs/Cursors/FingerCursorTriggerISelectable.cs:12-13 | A new cursor has no timers and an empty commit queue |
| Selectables.IsValid | Assets/Scripts/Inputs/Cursors/FingerCursorTriggerISelectable.cs:45-48 | Holds exactly when the candidate is both interactable and selectable, read from its current fields |
| Cursors.AfterContact | Assets/Scripts/Inputs/Cursors/FingerCursorTriggerISelectable.cs:23-33 | After contact with an invalid candidate, it has no timer. After contact with a valid one, it has a timer: its old start time if it was already timed, otherwise `now`. Every other entry is unchanged, so an exit after any contact leaves the table as if the candidate had never been timed |
| Cursors.FingerCursorTrigger.OnTriggerEnter | Assets/Scripts/Inputs/Cursors/FingerCursorTriggerISelectable.cs:23-33 | The new timer table is `AfterContact` of the old one, taking the candidate's validity at the moment of the event |
| Cursors.FingerCursorTrigger.OnTriggerStay | Assets/Scripts/Inputs/Cursors/FingerCursorTriggerISelectable.cs:35-38 | A stay event has exactly the effect of an enter event |
| Cursors.RepeatedContactKeepsTimer | Assets/Scripts/Inputs/Cursors/FingerCursorTriggerISelectable.cs:29-32 | A second contact with the same validity, at any later time, leaves the table as the first contact left it: timers are never restarted |
| Cursors.FingerCursorTrigger.OnTriggerExit | Assets/Scripts/Inputs/Cursors/FingerCursorTriggerISelectable.cs:40-43 | An exit event removes the candidate's timer and nothing else |
| Cursors.FingerCursorTrigger.ClearCursorTimer | Assets/Scripts/Inputs/Cursors/FingerCursorTriggerISelectable.cs:50-56 | Removes the candidate's timer if present; the table is otherwise unchanged |
| Cursors.ClearIsIdempotent | Assets/Scripts/Inputs/Cursors/FingerCursorTriggerISelectable.cs:50-56 | Clearing an untimed candidate changes nothing, clearing twice is clearing once, and every other entry keeps its time |
| Cursors.FingerCursorTrigger.SetSelected | Assets/Scripts/Inputs/Cursors/FingerCursorTriggerISelectable.cs:58-67 | Drops the candidate's timer and appends it to the end of the list for its priority, creating an empty list first when the key is absent. Every other key and list is unchanged, the keys stay strictly descending, and the set of committed candidates grows by exactly that one |
| CommitQueue.InsertBucket | Assets/Scripts/Inputs/Cursors/FingerCursorTriggerISelectable.cs:64 | Adding a key gives one more bucket; the new first bucket is either the added empty one or the old first bucket |
| CommitQueue.AppendAt | Assets/Scripts/Inputs/Cursors/FingerCursorTriggerISelectable.cs:66 | Appending keeps the number of buckets and the key at every position |
| CommitQueue.InsertBucketKeepsOrder | Assets/Scripts/Inputs/Cursors/FingerCursorTriggerISelectable.cs:13 | Adding an absent key to the descending dictionary keeps the keys strictly descending |
| CommitQueue.InsertBucketAddsKey | Assets/Scripts/Inputs/Cursors/FingerCursorTriggerISelectable.cs:62-65 | Adding an absent key maps it to an empty list, leaves every other key's list alone and commits no one |
| CommitQueue.AppendAtExtendsList | Assets/Scripts/Inputs/Cursors/FingerCursorTriggerISelectable.cs:66 | Appending at an existing key puts the candidate at the end of that key's list only, and adds exactly that candidate to the committed set |
| CommitQueue.AsMapLookup | Assets/Scripts/Inputs/Cursors/FingerCursorTriggerISelectable.cs:13 | In descending order, every bucket's list is what the dictionary holds for its key, and every key belongs to some bucket |
| CommitQueue.CommittedAt | Assets/Scripts/Inputs/Cursors/FingerCursorTriggerISelectable.cs:74-76 | Every candidate the scan visits is a committed candidate |
| CommitQueue.FirstValid | Assets/Scripts/Inputs/Cursors/FingerCursorTriggerISelectable.cs:76-84 | The index found is a valid candidate's, and no valid candidate comes before it. None is found only when the list has no valid candidate |
| CommitQueue.WinnerAt | Assets/Scripts/Inputs/Cursors/FingerCursorTriggerISelectable.cs:71-90 | The position found holds a valid candidate, and every valid candidate sits in a later bucket or later in the same list. None is found only when no candidate is valid |
| CommitQueue.Winner | Assets/Scripts/Inputs/Cursors/FingerCursorTriggerISelectable.cs:71-90 | The candidate the scan finds: when there is one it is committed and valid; when there is none, no committed candidate is valid |
| CommitQueue.WinnerByPriority | Assets/Scripts/Inputs/Cursors/FingerCursorTriggerISelectable.cs:71-90 | The winner is the valid candidate at the highest key holding one, first in that key's list. No valid candidate in a higher bucket is skipped |
| CommitQueue.WinnerIsFirstValidByPriority | Assets/Scripts/Inputs/Cursors/FingerCursorTriggerISelectable.cs:71-90 | Any winner is a valid committed candidate, and every valid committed candidate has a lower key or comes later in the same list |
| CommitQueue.NoWinnerIffNoneValid | Assets/Scripts/Inputs/Cursors/FingerCursorTriggerISelectable.cs:71-90 | There is no winner exactly when no committed candidate is valid |
| CommitQueue.Drained | Assets/Scripts/Inputs/Cursors/FingerCursorTriggerISelectable.cs:92-95 | The cleared dictionary has the same buckets with the same keys in the same order, and every list is empty |
| CommitQueue.DrainedEmptiesEveryList | Assets/Scripts/Inputs/Cursors/FingerCursorTriggerISelectable.cs:92-95 | Clearing every list keeps the keys and their order, leaves every list empty and commits no one |
| Cursors.FingerCursorTrigger.ProcessSelected | Assets/Scripts/Inputs/Cursors/FingerCursorTriggerISelectable.cs:69-101 | The selection flag of the `Winner` found before clearing is inverted; no other candidate's flag, priority or validity changes. Every list is empty, the keys persist, the keys stay descending, and the timer table is untouched, whether or not there was a winner |
| Cursors.FingerCursorTrigger.ProcessPriorityLists | Assets/Scripts/Inputs/Cursors/FingerCursorTriggerISelectable.cs:17-21 | The per-frame entry point has the effect of one arbitration pass |
| Selectables.Selectable.SetSelected | Assets/Scripts/Inputs/Cursors/FingerCursorTriggerISelectable.cs:97-100 | Setting a candidate's selection flag sets that flag to the given value and changes nothing else of the candidate |
| Ranges.IsValidRange | Assets/Scripts/Utilities/Range.cs:70-76 | Holds exactly when compare(minimum, maximum) <= 0, the condition under which `CheckValidity` does not throw |
| Ranges.ContainsValue | Assets/Scripts/Utilities/Range.cs:55-58 | Holds exactly when compare(minimum, v) <= 0 and compare(v, maximum) <= 0, inclusive at both ends |
| Ranges.ContainsRange | Assets/Scripts/Utilities/Range.cs:65-68 | Holds exactly when the range contains both the other range's minimum and its maximum |
| Ranges.NewRange | Assets/Scripts/Utilities/Range.cs:28-33 | Construction fails exactly when the minimum compares above the maximum (the `CheckValidity` at :70-76). Otherwise it keeps both bounds and the range is valid |
| Ranges.ConstructedRangeContainsBounds | Assets/Scripts/Utilities/Range.cs:55-58 | A range the constructor accepts contains its minimum and its maximum |
| Ranges.ContainsRangeIsInclusion | Assets/Scripts/Utilities/Range.cs:65-68 | For a valid inner range, checking both endpoints is the same as checking that every value of the inner range lies in the outer one |
| Ranges.ContainsRangeReflexive | Assets/Scripts/Utilities/Range.cs:65-68 | A valid range contains itself |
| Ranges.ContainsValueThroughRange | Assets/Scripts/Utilities/Range.cs:55-68 | A value of a contained range lies in the containing range |
| Ranges.ContainsRangeTransitive | Assets/Scripts/Utilities/Range.cs:65-68 | Range containment is transitive |
| Ranges.IntRangeContainment | Assets/Scripts/Utilities/Range.cs:55-58 | On integers the comparison is lawful, containment is `minimum <= v <= maximum` inclusive at both ends, and construction succeeds exactly when `minimum <= maximum` |

## Left out

- The base class `CursorTriggerIInteractable` and its `ProcessPriorityLists`, called first at FingerCursorTriggerISelectable.cs:19, are not part of this model. They are treated as a call with no effect on this class's state.
- The `Collider other` argument of the trigger events is unused by this logic and is dropped. How Unity physics generates trigger events is outside the model: events are method calls in any order.
- `Time.time` is a parameter `now` of type `Timestamp` (a `real`). It is only stored, so float rounding and the clock itself are not modelled.
- The sorted dictionary and the lists are modelled by their contents and iteration order: a sequence of buckets with strictly descending keys. `DescendingComparer<int>` is not part of this model. Its name is taken to mean iteration from the highest key down. Tree balancing and list capacity are not modelled.
- In the source, the lists are reference objects that `Clear()` empties in place; the model gives each bucket an empty list value. No other code can hold those lists, so aliasing of them is not modelled.
- `Dictionary.Add` throwing on a duplicate key is not modelled: both calls (FingerCursorTriggerISelectable.cs:31 and :64) are guarded by a key check.
- The class is abstract (FingerCursorTriggerISelectable.cs:8), so every instance belongs to a subclass, which is not part of this model. `IsValid` is virtual (:45). `ProcessPriorityLists`, `OnTriggerEnter`, `OnTriggerStay` and `OnTriggerExit` are overrides (:17, :23, :35, :40) and may be overridden again. The model uses their definitions in this class, and the call at :37 goes to this class's `OnTriggerEnter`. A subclass that overrides a handler, for instance to call the protected `SetSelected` on contact, can change the timer table and the commit queue beyond these contracts.
- Two cursor pipelines toggling the same candidate in one frame is an interaction between instances and is not modelled.
- The candidate type `T : ISelectable` is modelled as the class `Selectable` with the four properties the cursor reads (`Priority`, `IsInteractable`, `IsSelectable`, `IsSelected`) and the `SetSelected` it calls (:99). Other members of `ISelectable` are not part of this model.
- `T` is assumed to be a reference type. The constraint `T : ISelectable` (FingerCursorTriggerISelectable.cs:8) also admits a struct. For a struct, :81 copies the element, so the toggle at :99 changes only the local copy, and the timer table at :12 is keyed by value equality. The model gives every candidate object identity and does not capture these struct semantics.
- Selectables.Selectable.SetSelected: the implementation of `ISelectable.SetSelected` is not part of this model. It is assumed to set `IsSelected` to its argument and change nothing else.
- Null candidates, null ranges and null bounds are excluded by the model's non-null types. In the source they throw: `IsValid(null)` throws a NullReferenceException (:47, reached from :25); `ContainsKey(null)` and `Remove(null)` throw an ArgumentNullException (:52, :60); a null range passed to `ContainsRange` throws at Range.cs:67; a null minimum throws at Range.cs:72.
- Range's virtual members (Range.cs:19, :24, :55, :65, :70) are modelled by their base definitions. Subclass overrides are not part of this model, including an override of `CheckValidity`, which the constructor calls at :32. `NewRange`, the containment predicates and the reflexivity and transitivity lemmas are statements about the base class only.
- `Range.ToString` depends on the string formatting of `T`, so it is not modelled.
- The protected parameterless `Range` constructor and the protected setters are never used by this code to break validity, so ranges are values built by `NewRange` or by the `Range` datatype directly.
- The exception thrown by `CheckValidity` is modelled as the error value `Err(ArgumentOutOfRange)`.
- The loggers (ParticipantLogger.cs, ExperimentDetailsLogger.cs) write CSV rows through file I/O, wall-clock timing and float distances, so they are not modelled.
