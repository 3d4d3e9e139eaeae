/**
 * The extension methods `set_or` and `set_or_else` as functions of the
 * cell's slot, and what follows from them over any sequence of calls.
 */
module ExtSpec {
  import opened Wrappers
  import Cell

  /** The slot after one extension call, its result, and how many times the error thunk ran. */
  datatype Step<T, E> = Step(slot: Option<T>, result: Result<(), E>, thunkCalls: nat)

  /** `set_or`: the native `set`, with its "already set" error replaced by `error`. */
  function SetOr<T, E>(slot: Option<T>, value: T, error: E): (r: Step<T, E>)
    ensures r.slot.Some?
    ensures r.result.Ok? <==> slot.None?
    ensures slot.None? ==> r.slot == Some(value)
    ensures slot.Some? ==> r.slot == slot && r.result == Err(error)
    ensures r.thunkCalls == 0
  {
    var t := Cell.SetTransition(slot, value);
    Step(t.slot, t.result.MapErr(_ => error), 0)
  }

  /** `set_or_else`: as `set_or`, but the error is built by `makeError` and only on failure. */
  function SetOrElse<T, E>(slot: Option<T>, value: T, makeError: () -> E): (r: Step<T, E>)
    ensures r.slot.Some?
    ensures r.result.Ok? <==> slot.None?
    ensures slot.None? ==> r.slot == Some(value) && r.thunkCalls == 0
    ensures slot.Some? ==> r.slot == slot && r.result == Err(makeError()) && r.thunkCalls == 1
  {
    var t := Cell.SetTransition(slot, value);
    var (res, calls) := t.result.MapErrCounted(_ => makeError());
    Step(t.slot, res, calls)
  }

  /** With a thunk that yields `error`, `set_or_else` behaves as `set_or` apart from the thunk count. */
  lemma SetOrElseAgreesWithSetOr<T, E>(slot: Option<T>, value: T, error: E, makeError: () -> E)
    requires makeError() == error
    ensures SetOrElse(slot, value, makeError).slot == SetOr(slot, value, error).slot
    ensures SetOrElse(slot, value, makeError).result == SetOr(slot, value, error).result
  {
  }

  /** One call of the extension, with its arguments. */
  datatype Call<T, E> =
    | SetOrCall(value: T, error: E)
    | SetOrElseCall(value: T, makeError: () -> E)

  function Apply<T, E>(slot: Option<T>, c: Call<T, E>): Step<T, E>
  {
    match c
    case SetOrCall(v, e) => SetOr(slot, v, e)
    case SetOrElseCall(v, f) => SetOrElse(slot, v, f)
  }

  /** The error a call reports when the cell is already occupied. */
  function ErrorOf<T, E>(c: Call<T, E>): E
  {
    match c
    case SetOrCall(_, e) => e
    case SetOrElseCall(_, f) => f()
  }

  /** The number of lazy (`set_or_else`) calls in `calls`. */
  function LazyCount<T, E>(calls: seq<Call<T, E>>): nat
  {
    if |calls| == 0 then 0 else (if calls[0].SetOrElseCall? then 1 else 0) + LazyCount(calls[1..])
  }

  /** The final slot, every call's result in order, and the total number of thunk evaluations. */
  datatype Trace<T, E> = Trace(slot: Option<T>, results: seq<Result<(), E>>, thunkCalls: nat)

  function Run<T, E>(slot: Option<T>, calls: seq<Call<T, E>>): Trace<T, E>
    decreases |calls|
  {
    if |calls| == 0 then Trace(slot, [], 0)
    else
      var s := Apply(slot, calls[0]);
      var rest := Run(s.slot, calls[1..]);
      Trace(rest.slot, [s.result] + rest.results, s.thunkCalls + rest.thunkCalls)
  }

  /**
   * On an occupied cell every call fails with its own error, the stored value
   * never changes, and every lazy call evaluates its thunk exactly once.
   */
  lemma {:induction false} RunOnOccupied<T, E>(slot: Option<T>, calls: seq<Call<T, E>>)
    requires slot.Some?
    ensures Run(slot, calls).slot == slot
    ensures |Run(slot, calls).results| == |calls|
    ensures forall i :: 0 <= i < |calls| ==> Run(slot, calls).results[i] == Err(ErrorOf(calls[i]))
    ensures Run(slot, calls).thunkCalls == LazyCount(calls)
    decreases |calls|
  {
    if |calls| > 0 {
      RunOnOccupied(slot, calls[1..]);
      var rest := Run(slot, calls[1..]);
      forall i | 0 <= i < |calls|
        ensures Run(slot, calls).results[i] == Err(ErrorOf(calls[i]))
      {
        if i > 0 {
          assert Run(slot, calls).results[i] == rest.results[i - 1];
          assert calls[1..][i - 1] == calls[i];
        }
      }
    }
  }

  /**
   * Single write: from an empty cell the first call succeeds and stores its
   * value, every later call fails with its own error and leaves that value in
   * place, and only the later lazy calls evaluate their thunks.
   */
  lemma {:induction false} SingleWrite<T, E>(calls: seq<Call<T, E>>)
    ensures |Run(None, calls).results| == |calls|
    ensures |calls| == 0 ==> Run(None, calls).slot == None
    ensures |calls| > 0 ==> Run(None, calls).results[0] == Ok(())
    ensures |calls| > 0 ==> Run(None, calls).slot == Some(calls[0].value)
    ensures forall i :: 1 <= i < |calls| ==> Run(None, calls).results[i] == Err(ErrorOf(calls[i]))
    ensures forall i :: 0 <= i < |calls| && Run(None, calls).results[i].Ok? ==> i == 0
    ensures |calls| > 0 ==> Run(None, calls).thunkCalls == LazyCount(calls[1..])
  {
    if |calls| > 0 {
      var s := Apply(None, calls[0]);
      RunOnOccupied(s.slot, calls[1..]);
      var r := Run(None, calls);
      forall i | 1 <= i < |calls|
        ensures r.results[i] == Err(ErrorOf(calls[i]))
      {
        assert r.results[i] == Run(s.slot, calls[1..]).results[i - 1];
        assert calls[1..][i - 1] == calls[i];
      }
    }
  }
}
