/**
 * The external write-once cell that the extension is implemented for
 * (`once_cell::unsync::OnceCell`, `once_cell::sync::OnceCell` and the two
 * standard-library cells). Only its documented contract is modelled: `set`
 * stores a value iff the cell is empty and otherwise hands the value back in
 * `Err`, and `get` returns the slot.
 */
module Cell {
  import opened Wrappers

  /** The cell's slot after a call to `set`, and what that call returned. */
  datatype Transition<T> = Transition(slot: Option<T>, result: Result<(), T>)

  /** The contract of the native `set(value)`, as a function of the slot before the call. */
  function SetTransition<T>(slot: Option<T>, value: T): (t: Transition<T>)
    ensures t.slot.Some?
    ensures t.result.Ok? <==> slot.None?
    ensures t.result.Ok? ==> t.slot == Some(value)
    ensures t.result.Err? ==> t.slot == slot && t.result.error == value
  {
    if slot.None? then Transition(Some(value), Ok(())) else Transition(slot, Err(value))
  }

  class OnceCell<T> {
    /** `None` while the cell is empty, `Some(v)` once `v` has been stored. */
    var slot: Option<T>

    /** The crate's `OnceCell::new()`: an empty cell. */
    constructor ()
      ensures slot == None
    {
      slot := None;
    }

    /** The native `set`: succeeds iff the cell is empty; on failure the cell is unchanged. */
    method Set(value: T) returns (r: Result<(), T>)
      modifies this
      ensures Transition(slot, r) == SetTransition(old(slot), value)
      ensures old(slot).Some? ==> slot == old(slot)
    {
      if slot.None? {
        slot := Some(value);
        r := Ok(());
      } else {
        r := Err(value);
      }
    }

    /** The native `get`: the current contents of the slot. */
    function Get(): Option<T>
      reads this
    {
      slot
    }
  }
}
