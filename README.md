# once-cell-ext in Dafny

A model of the `OnceCellExt<T>` extension trait: four methods added to
write-once cells (`std::lazy::OnceCell`, `SyncOnceCell`,
`once_cell::unsync::OnceCell`, `once_cell::sync::OnceCell`) by one
macro-generated body.

- `set_or(value, error)` runs the cell's native `set` and, when the cell is
  already occupied, reports the caller's `error` instead of the native
  failure (which hands the rejected value back).
- `set_or_else(value, f)` does the same, but builds the error by calling `f`,
  and only on failure.
- `is_some()` and `is_none()` ask the native `get` whether the cell holds a
  value.

Files:

- `wrappers.dfy` (module `Wrappers`): `Option`, `Result`, and `Result::map_err`,
  plain and in a counted form that also reports, from the arm that applies the
  closure, how many times the closure was applied.
- `cell.dfy` (module `Cell`): the external cell, reduced to its documented
  contract. `SetTransition` is the contract of the native `set`: it stores the
  value iff the slot is empty, and otherwise leaves the slot alone and returns
  `Err(value)`. Class `OnceCell` holds the slot as a mutable `Option` field.
  It has a constructor (the crate's `OnceCell::new`, an empty cell), the
  method `Set` and the function `Get`. `Get` returns the slot and carries no
  contract of its own.
- `ext_spec.dfy` (module `ExtSpec`): `set_or` and `set_or_else` as functions
  from the slot before the call to the slot after it, the result, and the
  number of times the error thunk was evaluated. It also runs any sequence
  of such calls (`Run`) and proves the single-write property about that run.
- `ext.dfy` (module `OnceCellExt`): the four trait methods over a `OnceCell`.
  `SetOr` and `SetOrElse` are methods that `modifies` the cell and delegate
  to `Set` as the source does. The error closure of `set_or_else` is an
  object of class `Thunk`, whose ghost field `calls` goes up by one each time
  its `Call` method invokes the closure. `SetOrElse` calls it only in the
  error arm, so its contract fixes exactly when the closure runs: `calls` is
  unchanged on an empty cell and goes up by one on an occupied one.
  `IsSome` and `IsNone` are functions that read the cell through `Get`.
  Being functions, they cannot change it.

Each method's contract equates one call on a `OnceCell` with one step of
`ExtSpec` on the old slot. So a sequence of `SetOr`/`SetOrElse` calls on a
freshly constructed (empty) `OnceCell` leaves the slot and returns the
results that `ExtSpec.Run(None, calls)` computes, and `ExtSpec.SingleWrite`
applies to it.

## Model

| member | source | states |
|---|---|---|
| `Wrappers.Result.MapErr` | src/lib.rs:16 | `map_err` keeps an `Ok` and maps only the error of an `Err` |
| `Wrappers.Result.MapErrCounted` | src/lib.rs:23 | the counted `map_err` returns the same result as `map_err`; it applies its closure once on `Err` and not at all on `Ok` |
| `Cell.SetTransition` | src/lib.rs:16 | native `set`: afterwards the cell is occupied; success iff it was empty; on success it holds exactly the value; on failure the slot is unchanged and the rejected value comes back in `Err` |
| `Cell.OnceCell.constructor` | src/lib.rs:42-44 | a cell of the types the extension is implemented for starts empty |
| `Cell.OnceCell.Set` | src/lib.rs:16 | the in-place `set` changes the slot and returns as `SetTransition` says; an occupied slot is not changed |
| `ExtSpec.SetOr` | src/lib.rs:15-17 | on an empty cell: `Ok(())`, and the cell holds exactly `value`; on an occupied cell: `Err(error)` with the caller's own error, the old value kept, and the rejected value dropped; the cell is occupied afterwards; no thunk runs |
| `ExtSpec.SetOrElse` | src/lib.rs:19-24 | as `SetOr`, with the error `Err(f())`; the step's thunk count, taken from the counted `map_err` that applies `f`, is 1 on an occupied cell and 0 on an empty one |
| `ExtSpec.SetOrElseAgreesWithSetOr` | src/lib.rs:15-24 | with a thunk yielding `e`, `set_or_else` leaves the same slot and returns the same result as `set_or` with `e` |
| `ExtSpec.RunOnOccupied` | src/lib.rs:15-24 | on an occupied cell, any sequence of `set_or`/`set_or_else` calls all fail, each with its own error; the stored value never changes; each lazy call evaluates its thunk once |
| `ExtSpec.SingleWrite` | src/lib.rs:15-24 | from an empty cell, in any sequence of calls only the first succeeds and the cell ends holding its value; every later call fails with its own error; only later lazy calls evaluate their thunks |
| `OnceCellExt.SetOr` | src/lib.rs:15-17 | the method on the cell: the new slot and result are those of `ExtSpec.SetOr` on the old slot (`Ok` and stored iff empty, else `Err(error)` and unchanged) |
| `OnceCellExt.Thunk.constructor` | src/lib.rs:19-21 | the error closure `F: FnOnce() -> E` starts with no evaluations recorded |
| `OnceCellExt.Thunk.Call` | src/lib.rs:23 | invoking the closure yields `f()` and records exactly one more evaluation |
| `OnceCellExt.SetOrElse` | src/lib.rs:19-24 | the method on the cell: on an empty cell it returns `Ok(())`, stores `value` and never invokes the closure; on an occupied cell it returns `Err(f())`, leaves the slot unchanged and invokes the closure exactly once; slot, result and number of evaluations match `ExtSpec.SetOrElse` on the old slot |
| `OnceCellExt.IsSome` | src/lib.rs:26-28 | true iff the cell holds a value |
| `OnceCellExt.IsNone` | src/lib.rs:30-32 | always the negation of `is_some` |
| `OnceCellExt.QueriesPredictWrites` | src/lib.rs:26-32 | `is_some` holds iff `set_or` would fail; `is_none` holds iff `set_or_else` would succeed, for any value, error or thunk |

## Left out

- The four concrete cell types and the macro that stamps the body out for each (src/lib.rs:12-14, 37-44): the body is the same for all of them, so it is modelled once over one abstract cell.
- Thread safety of `SyncOnceCell` and `once_cell::sync::OnceCell`, and racing writers: the extension adds no synchronisation of its own, and concurrency is not modelled.
- The `feature(once_cell)` and `cfg(feature = "std")` gating (src/lib.rs:1, 37): this is build configuration.
- The internals of the external `set` and `get`: only their documented contract is modelled (`set` fails without side effects when the cell is full and returns the value in `Err`; `get` returns the slot).
- Rust's borrowing: `get` returns a reference to the value; the model returns the value itself.
- A stand-alone write-once container with `new`/`into_inner`/`peek`/`peek_mut`/`From` constructors does not exist in src/lib.rs, so it is not modelled. The only constructor here is the external cell's `new`, used to start from an empty cell.
- Side effects of the error closure other than being invoked are not modelled; the `Thunk` object records only the number of invocations.
- ExtSpec.SetOrElse: in the pure model a closure application is not observable, so its thunk count is the count reported by the arm of the counted `map_err` that applies `f`; the observable laziness promise is stated by `OnceCellExt.SetOrElse` on a `Thunk` object.
