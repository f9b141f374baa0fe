/** Selection candidates: the objects a finger cursor can select. */
module Selectables {

  /** A selection candidate. Candidates are created and owned outside the
      cursor; the cursor only holds references to them. */
  class Selectable {
    var priority: int
    var isInteractable: bool
    var isSelectable: bool
    var isSelected: bool

    constructor (priority: int, isInteractable: bool, isSelectable: bool, isSelected: bool)
      ensures this.priority == priority && this.isInteractable == isInteractable
      ensures this.isSelectable == isSelectable && this.isSelected == isSelected
    {
      this.priority := priority;
      this.isInteractable := isInteractable;
      this.isSelectable := isSelectable;
      this.isSelected := isSelected;
    }

    /** Sets the selection flag, and nothing else. */
    method SetSelected(value: bool)
      modifies this`isSelected
      ensures isSelected == value
    {
      isSelected := value;
    }
  }

  /** The cursor's validity check: a candidate may be timed, or win an
      arbitration pass, only while it is both interactable and selectable.
      It is read afresh at every use, never cached. */
  predicate IsValid(s: Selectable)
    reads s
  {
    s.isInteractable && s.isSelectable
  }
}
