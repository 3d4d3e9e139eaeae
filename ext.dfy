/**
 * The `OnceCellExt` extension: `set_or`, `set_or_else`, `is_some` and
 * `is_none`, written once over the abstract cell and delegating to its native
 * `set` and `get`.
 */
module OnceCellExt {
  import opened Wrappers
  import opened Cell
  import ExtSpec

  /** `set_or`: `self.set(value).map_err(|_| error)`. */
  method SetOr<T, E>(cell: OnceCell<T>, value: T, error: E) returns (r: Result<(), E>)
    modifies cell
    ensures ExtSpec.Step(cell.slot, r, 0) == ExtSpec.SetOr(old(cell.slot), value, error)
    ensures old(cell.slot).None? ==> r == Ok(()) && cell.slot == Some(value)
    ensures old(cell.slot).Some? ==> r == Err(error) && cell.slot == old(cell.slot)
  {
    var res := cell.Set(value);
    r := res.MapErr(_ => error);
  }

  /**
   * The error closure `F: FnOnce() -> E` handed to `set_or_else`. The ghost
   * field `calls` counts how many times it has been invoked.
   */
  class Thunk<E> {
    const f: () -> E
    ghost var calls: nat

    constructor (f: () -> E)
      ensures this.f == f && calls == 0
    {
      this.f := f;
      calls := 0;
    }

    /** Invokes the closure: yields `f()` and records one more evaluation. */
    method Call() returns (e: E)
      modifies this
      ensures e == f() && calls == old(calls) + 1
    {
      e := f();
      calls := calls + 1;
    }
  }

  /**
   * `set_or_else`: `self.set(value).map_err(|_| error())`. The closure is
   * invoked inside the error arm of `map_err`, so only when `set` fails.
   */
  method SetOrElse<T, E>(cell: OnceCell<T>, value: T, error: Thunk<E>) returns (r: Result<(), E>)
    modifies cell, error
    ensures old(error.calls) <= error.calls
    ensures ExtSpec.Step(cell.slot, r, error.calls - old(error.calls)) == ExtSpec.SetOrElse(old(cell.slot), value, error.f)
    ensures old(cell.slot).None? ==> r == Ok(()) && cell.slot == Some(value) && error.calls == old(error.calls)
    ensures old(cell.slot).Some? ==> r == Err(error.f()) && cell.slot == old(cell.slot) && error.calls == old(error.calls) + 1
  {
    var res := cell.Set(value);
    match res {
      case Ok(_) =>
        r := Ok(());
      case Err(_) =>
        var e := error.Call();
        r := Err(e);
    }
  }

  /** `is_some`: `self.get().is_some()`; true exactly when the cell holds a value. */
  function IsSome<T>(cell: OnceCell<T>): (b: bool)
    reads cell
    ensures b <==> cell.slot != None
  {
    cell.Get().Some?
  }

  /** `is_none`: `self.get().is_none()`; always the negation of `is_some`. */
  function IsNone<T>(cell: OnceCell<T>): (b: bool)
    reads cell
    ensures b == !IsSome(cell)
  {
    cell.Get().None?
  }

  /**
   * The queries agree with the write operations: the cell is occupied exactly
   * when `set_or` and `set_or_else` would fail, whatever value is offered.
   */
  lemma QueriesPredictWrites<T, E>(cell: OnceCell<T>, value: T, error: E, makeError: () -> E)
    ensures IsSome(cell) <==> ExtSpec.SetOr(cell.slot, value, error).result.Err?
    ensures IsNone(cell) <==> ExtSpec.SetOrElse(cell.slot, value, makeError).result.Ok?
  {
  }
}
