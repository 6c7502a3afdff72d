/**
 * CompositeDisposable: the container object, with the fields the code updates
 * in place. Every method is proved to do what the matching function of
 * CompositeSpec says, so the lemmas there carry over to the object.
 */
module CompositeDisposables {
  import opened Base
  import Spec = CompositeSpec
  import SimpleDisposables

  class CompositeDisposable {
    /** `_disposables`: the stored list; None once Clear has exchanged it for null. */
    var disposables: Option<seq<Spec.Entry>>
    /** The `Disposed` property, which also has a public setter. */
    var disposed: bool
    /** Every Dispose call this composite made on a member, in order. */
    ghost var calls: seq<Spec.Member>

    function State(): Spec.State
      reads this
    {
      Spec.State(disposables, disposed)
    }

    /** `new CompositeDisposable()`: an empty list, not disposed. */
    constructor ()
      ensures State() == Spec.Initial() && calls == []
    {
      disposables := Some([]);
      disposed := false;
      calls := [];
    }

    /** Stores the given entries as they are, not disposed. */
    constructor Holding(entries: seq<Spec.Entry>)
      ensures State() == Spec.State(Some(entries), false) && calls == []
    {
      disposables := Some(entries);
      disposed := false;
      calls := [];
    }

    /** `new CompositeDisposable(IEnumerable<IDisposable>)`: null throws; entries, null ones included, are kept in order. */
    static method FromEnumerable(ds: Option<seq<Spec.Entry>>) returns (r: Result<CompositeDisposable, Exception>)
      ensures r.Failure? <==> Spec.Construct(ds).Failure?
      ensures r.Failure? ==> r.error == Spec.Construct(ds).error
      ensures r.Success? ==> fresh(r.value) && r.value.State() == Spec.Construct(ds).value && r.value.calls == []
    {
      if ds.None? {
        return Failure(ArgumentNull("disposables"));
      }
      var c := new CompositeDisposable.Holding(ds.value);
      r := Success(c);
    }

    /** `new CompositeDisposable(params IDisposable[])`: a null array throws; its entries are copied in order. */
    static method FromArray(ds: array?<Spec.Entry>) returns (r: Result<CompositeDisposable, Exception>)
      ensures r.Failure? <==> ds == null
      ensures r.Failure? ==> r.error == ArgumentNull("disposables")
      ensures r.Success? ==> fresh(r.value) && ds != null && r.value.State() == Spec.State(Some(ds[..]), false)
      ensures r.Success? ==> r.value.calls == []
    {
      if ds == null {
        return Failure(ArgumentNull("disposables"));
      }
      var c := new CompositeDisposable.Holding(ds[..]);
      r := Success(c);
    }

    /** Add(IDisposable). */
    method Add(d: Option<Spec.Member>) returns (outcome: Outcome)
      modifies this
      ensures var step := Spec.Add(old(State()), d);
        outcome == step.outcome && State() == step.next && calls == old(calls) + step.calls
    {
      if d.None? {
        return Threw(ArgumentNull("disposable"));
      }
      if disposed {
        calls := calls + [d.value];
      } else {
        if disposables.None? {
          return Threw(NullReference);
        }
        disposables := Some(disposables.value + [d]);
      }
      outcome := Done;
    }

    /** Add(Action): null throws; otherwise a new wrapper around the action is added and returned. */
    method AddAction(a: Option<SimpleDisposables.Action>) returns (r: Result<SimpleDisposables.SimpleDisposable, Exception>)
      modifies this
      ensures a.None? ==> r == Failure(ArgumentNull("action")) && State() == old(State()) && calls == old(calls)
      ensures r.Success? ==> fresh(r.value) && r.value.action == a && r.value.invoked == []
      ensures r.Success? ==>
        var step := Spec.Add(old(State()), Some(Spec.Wrapper(r.value)));
        step.outcome == Done && State() == step.next && calls == old(calls) + step.calls
      ensures a.Some? && r.Failure? ==>
        r.error == NullReference && State() == old(State()) && calls == old(calls)
      ensures a.Some? ==> (r.Failure? <==> !old(disposed) && old(disposables).None?)
    {
      if a.None? {
        return Failure(ArgumentNull("action"));
      }
      var wrapper := new SimpleDisposables.SimpleDisposable(a);
      var outcome := Add(Some(Spec.Wrapper(wrapper)));
      if outcome.Threw? {
        return Failure(outcome.exception);
      }
      r := Success(wrapper);
    }

    /** Clear: exchange the list for null, then call Dispose on each detached entry in order. */
    method Clear() returns (outcome: Outcome)
      modifies this
      ensures var step := Spec.Clear(old(State()));
        outcome == step.outcome && State() == step.next && calls == old(calls) + step.calls
    {
      var detached := disposables;
      disposables := None;
      if detached.None? {
        return Threw(NullReference);
      }
      var es := detached.value;
      var i := 0;
      while i < |es|
        invariant 0 <= i <= |es|
        invariant disposables == None && disposed == old(disposed)
        invariant calls + Spec.DisposeEach(es[i..]).calls == old(calls) + Spec.DisposeEach(es).calls
        invariant Spec.DisposeEach(es[i..]).outcome == Spec.DisposeEach(es).outcome
      {
        assert es[i..][0] == es[i] && es[i..][1..] == es[i + 1..];
        match es[i] {
          case None =>
            return Threw(NullReference);
          case Some(m) =>
            calls := calls + [m];
        }
        i := i + 1;
      }
      outcome := Done;
    }

    /** Dispose: clear unless already disposed, then set the flag (not reached when Clear throws). */
    method Dispose() returns (outcome: Outcome)
      modifies this
      ensures var step := Spec.Dispose(old(State()));
        outcome == step.outcome && State() == step.next && calls == old(calls) + step.calls
    {
      if !disposed {
        outcome := Clear();
        if outcome.Threw? {
          return;
        }
      }
      disposed := true;
      outcome := Done;
    }

    /** GetEnumerator: a copy of the current list; LINQ's `ToArray` rejects a null list. */
    method GetEnumerator() returns (r: Result<seq<Spec.Entry>, Exception>)
      ensures r == Spec.Enumerate(State())
      ensures r.Success? ==> Some(r.value) == disposables
    {
      if disposables.None? {
        return Failure(ArgumentNull("source"));
      }
      r := Success(disposables.value);
    }

    /** IsDisposed: the `Disposed` flag, whatever set it. */
    predicate IsDisposed()
      reads this
      ensures IsDisposed() == disposed
    {
      disposed
    }

    /** The public setter of `Disposed`. */
    method SetDisposed(value: bool)
      modifies this
      ensures State() == Spec.SetDisposed(old(State()), value) && calls == old(calls)
    {
      disposed := value;
    }
  }

  /**
   * A client: three actions added to a new composite, then Dispose twice. The
   * composite calls Dispose once on each wrapper, in insertion order, and
   * enumerating it afterwards throws.
   */
  method ThreeActionsThenDispose(a1: SimpleDisposables.Action, a2: SimpleDisposables.Action, a3: SimpleDisposables.Action)
  {
    var c := new CompositeDisposable();
    var r1 := c.AddAction(Some(a1));
    var r2 := c.AddAction(Some(a2));
    var r3 := c.AddAction(Some(a3));
    var ws := [Spec.Wrapper(r1.value), Spec.Wrapper(r2.value), Spec.Wrapper(r3.value)];
    assert c.State() == Spec.State(Some(Spec.Wrap(ws)), false) by {
      assert [] + [Some(ws[0])] == [Some(ws[0])];
      assert [Some(ws[0])] + [Some(ws[1])] == [Some(ws[0]), Some(ws[1])];
      assert ws[1..][1..][1..] == [] && ws[1..][1..][0] == ws[2] && ws[1..][0] == ws[1];
      assert Spec.Wrap(ws[1..][1..]) == [Some(ws[2])] + Spec.Wrap(ws[1..][1..][1..]) == [Some(ws[2])];
      assert Spec.Wrap(ws[1..]) == [Some(ws[1])] + Spec.Wrap(ws[1..][1..]) == [Some(ws[1]), Some(ws[2])];
      assert [Some(ws[0]), Some(ws[1])] + [Some(ws[2])] == Spec.Wrap(ws);
    }
    assert c.calls == [];
    Spec.MembersOfWrap(ws);
    Spec.WrapNoNulls(ws);
    assert [] + Spec.Wrap(ws) == Spec.Wrap(ws);
    Spec.DisposeReleasesAllInOrder(c.State());
    var o := c.Dispose();
    assert o == Done && c.disposed && c.calls == ws;
    o := c.Dispose();
    assert c.calls == ws;
    var e := c.GetEnumerator();
    assert e == Failure(ArgumentNull("source"));
  }
}
