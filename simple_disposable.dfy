/**
 * SimpleDisposable: a one-shot wrapper around a caller-supplied action.
 *
 * The class below follows the code as written. Its `IsDisposed` answers
 * `_action != null`, so the guard `!IsDisposed` in Dispose only lets the
 * exchange run when nothing is held: the wrapped action is never invoked.
 * The pure functions describe one Dispose call as written and as evidently
 * intended, and the lemmas state what any number of calls does.
 */
module SimpleDisposables {
  import opened Base

  /** A delegate supplied by the caller. Invoking it runs code outside the model, so it is only recorded. */
  datatype Action = Action(id: nat)

  /** What Dispose calls leave behind: the `_action` field, and the actions invoked, in order. */
  datatype Effect = Effect(held: Option<Action>, invoked: seq<Action>)

  /** The actions a held reference yields when invoked through `?.Invoke()`: none for null. */
  function Invocations(held: Option<Action>): (r: seq<Action>)
  {
    match held
    case None => []
    case Some(a) => [a]
  }

  /** `Interlocked.Exchange(ref _action, null)?.Invoke()`: take the held action out, leave null, invoke what was taken. */
  function TakeAndInvoke(held: Option<Action>): (r: Effect)
  {
    Effect(None, Invocations(held))
  }

  /** One Dispose call as written: the exchange runs only when `!IsDisposed`, that is when nothing is held. */
  function DisposeAsWritten(held: Option<Action>): (r: Effect)
  {
    if held.None? then TakeAndInvoke(held) else Effect(held, [])
  }

  /** One Dispose call as evidently intended: the exchange runs while an action is still held. */
  function DisposeIntended(held: Option<Action>): (r: Effect)
  {
    if held.Some? then TakeAndInvoke(held) else Effect(held, [])
  }

  /** `n` consecutive Dispose calls as written, starting from `held`. */
  function DisposeRepeatedAsWritten(held: Option<Action>, n: nat): (r: Effect)
    decreases n
  {
    if n == 0 then Effect(held, [])
    else
      var first := DisposeAsWritten(held);
      var rest := DisposeRepeatedAsWritten(first.held, n - 1);
      Effect(rest.held, first.invoked + rest.invoked)
  }

  /** `n` consecutive Dispose calls as evidently intended, starting from `held`. */
  function DisposeRepeatedIntended(held: Option<Action>, n: nat): (r: Effect)
    decreases n
  {
    if n == 0 then Effect(held, [])
    else
      var first := DisposeIntended(held);
      var rest := DisposeRepeatedIntended(first.held, n - 1);
      Effect(rest.held, first.invoked + rest.invoked)
  }

  /** As written, one Dispose call changes nothing and invokes nothing, whatever is held. */
  lemma DisposeAsWrittenIsNoOp(held: Option<Action>)
    ensures DisposeAsWritten(held) == Effect(held, [])
  {
  }

  /** As written, any number of Dispose calls leave `_action` as it was and invoke nothing. */
  lemma {:induction false} DisposeRepeatedAsWrittenIsNoOp(held: Option<Action>, n: nat)
    ensures DisposeRepeatedAsWritten(held, n) == Effect(held, [])
    decreases n
  {
    if n > 0 {
      DisposeAsWrittenIsNoOp(held);
      DisposeRepeatedAsWrittenIsNoOp(held, n - 1);
    }
  }

  /** The discrepancy: a held action survives Dispose as written, while the intended Dispose invokes it. */
  lemma HeldActionIsNeverInvoked(a: Action)
    ensures DisposeAsWritten(Some(a)).held == Some(a)
    ensures DisposeAsWritten(Some(a)).invoked == []
    ensures DisposeIntended(Some(a)) == Effect(None, [a])
  {
  }

  /** Intended: once nothing is held, further Dispose calls invoke nothing. */
  lemma {:induction false} DisposeRepeatedIntendedWhenEmpty(n: nat)
    ensures DisposeRepeatedIntended(None, n) == Effect(None, [])
    decreases n
  {
    if n > 0 {
      DisposeRepeatedIntendedWhenEmpty(n - 1);
    }
  }

  /** Intended: one or more Dispose calls leave nothing held and invoke the held action exactly once. */
  lemma {:induction false} DisposeRepeatedIntendedInvokesOnce(held: Option<Action>, n: nat)
    requires n >= 1
    ensures DisposeRepeatedIntended(held, n) == Effect(None, Invocations(held))
  {
    DisposeRepeatedIntendedWhenEmpty(n - 1);
  }

  /** The wrapper object. `invoked` records every invocation of an action, in order. */
  class SimpleDisposable {
    var action: Option<Action>
    ghost var invoked: seq<Action>

    /** Stores the action unchecked: a null action is accepted. */
    constructor (a: Option<Action>)
      ensures action == a && invoked == []
    {
      action := a;
      invoked := [];
    }

    /** The factory: the same state as the constructor, on a new object. */
    static method Create(a: Option<Action>) returns (d: SimpleDisposable)
      ensures fresh(d)
      ensures d.action == a && d.invoked == []
    {
      d := new SimpleDisposable(a);
    }

    /** The property as written: true exactly while an action is still held. */
    predicate IsDisposed()
      reads this
      ensures IsDisposed() <==> action != None
    {
      action != None
    }

    /**
     * Dispose as written. The exchange is guarded by `!IsDisposed`, so it only
     * ever swaps null for null: nothing changes and nothing is invoked.
     */
    method Dispose()
      modifies this
      ensures action == DisposeAsWritten(old(action)).held
      ensures invoked == old(invoked) + DisposeAsWritten(old(action)).invoked
      ensures action == old(action) && invoked == old(invoked)
    {
      if !IsDisposed() {
        var taken := action;
        action := None;
        invoked := invoked + Invocations(taken);
      }
    }
  }
}
