/** Client walks through one cursor's frames, using only the contracts of
    the cursor's operations. */
module Scenarios {
  import opened Selectables
  import opened Cursors

  /** Enter, stay, then exit before any commit: the timer keeps its first
      time and is then gone. A later enter while invalid leaves no timer. */
  method ContactWithoutCommit(t1: Timestamp, t2: Timestamp) {
    var d := new Selectable(1, true, true, false);
    var cursor := new FingerCursorTrigger();
    cursor.OnTriggerEnter(d, t1);
    assert cursor.selectionTimers == map[d := t1];
    cursor.OnTriggerStay(d, t2);
    assert cursor.selectionTimers[d] == t1;
    cursor.OnTriggerExit(d);
    assert cursor.selectionTimers == map[];

    d.isInteractable := false;
    cursor.OnTriggerEnter(d, t2);
    assert d !in cursor.selectionTimers;
  }

  /** A candidate committed and then touched again in the same frame is
      both timed and queued: committing does not keep it out of the timer
      table afterwards. */
  method CommittedCandidateCanBeTimedAgain(t: Timestamp) {
    var e := new Selectable(3, true, true, false);
    var cursor := new FingerCursorTrigger();
    assert cursor.Queue() == map[];
    cursor.SetSelected(e);
    assert [] + [e] == [e];
    cursor.OnTriggerEnter(e, t);
    assert e in cursor.selectionTimers && cursor.Queue()[3] == [e];
  }
}
