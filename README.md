# Disposables: a verified model of the composite disposal container

This project models the core of the Disposables library, a small C# library
for deterministic resource release. The core has two parts:

- `CompositeDisposable` holds a list of `IDisposable` members and a `Disposed`
  flag. It supports `Add(IDisposable)`, `Add(Action)`, `Clear`, `Dispose`,
  snapshot enumeration and `IsDisposed`.
- `SimpleDisposable` is a one-shot wrapper around an `Action`, which
  `Add(Action)` uses to turn an action into a member.

The model follows the code as written, which differs from what the names
promise in three places:

- `SimpleDisposable.IsDisposed` is `_action != null`. So the guard
  `!IsDisposed` in `Dispose` only lets the exchange run when nothing is held,
  and the wrapped action is never invoked.
- `Clear` exchanges the list for `null`, not for an empty list. After it, on a
  composite that is not disposed, `Add`, `Clear` and `Dispose` throw
  `NullReferenceException`. Enumeration throws `ArgumentNullException`
  (parameter `source`), because its `ToArray` is LINQ's extension method,
  which checks its argument. `Dispose` throws from `Clear` before it reaches
  `Disposed = true`.
- `Disposed` has a public setter. Setting it to true first makes `Dispose`
  skip `Clear`: `Dispose` then disposes none of the held members, and they
  stay held until an explicit `Clear`, which does not read the flag.

Two more edge cases of the code are modelled:

- Both list constructors copy their input unchecked, so a list can hold
  `null` entries. `Clear` disposes the entries in order up to the first null,
  then throws. The members after that null are neither disposed nor held.
- Enumeration after a `Dispose` that ran `Clear` throws
  `ArgumentNullException`, because the list is null at that point. It does
  not return an empty snapshot.

Where the library's own doc comments suggest otherwise, the model follows the
code. `CompositeDisposable.cs:65-66` describes `Clear` as disposing the list,
with nothing saying it leaves the composite unusable. `SimpleDisposable.cs:6`
describes the wrapper as the disposable pattern around an action, which would
run the action once.

Files:

- `base.dfy`: `Option` (a nullable reference), `Result`, the two exceptions
  (`ArgumentNull`, `NullReference`) and `Outcome`.
- `simple_disposable.dfy`: the `SimpleDisposable` class. Beside it are pure
  functions for one `Dispose` call, both as written and as evidently
  intended, and lemmas about any number of calls.
- `composite_spec.dfy`: the composite as a state machine over values
  (`State`, `Step`). It has one function per operation, a `Run` over
  sequences of calls, and the lemmas.
- `composite_disposable.dfy`: the `CompositeDisposable` class. Its fields are
  updated in place, and every method is proved to match its function in
  `CompositeSpec`. A ghost `calls` log records each `Dispose` call the
  composite makes on a member. The named constructor `Holding` stores a given
  list; the two list-taking factories, `FromEnumerable` and `FromArray`, use
  it once their null check passes. The client method `ThreeActionsThenDispose`
  adds three actions to a new composite and disposes it twice, showing what a
  caller can conclude from the contracts alone.

Members are opaque. A member is `Foreign(id)` (any other `IDisposable`) or
`Wrapper(d)` (a `SimpleDisposable` made by `Add(Action)`). A null reference is
`None`. `Interlocked.Exchange` is modelled as a plain read followed by a write.

## Model

| member | source | states |
|---|---|---|
| `SimpleDisposables.SimpleDisposable.constructor` | src/Disposables/Disposables/SimpleDisposable.cs:14 | stores the action unchecked (null accepted); nothing invoked yet |
| `SimpleDisposables.SimpleDisposable.Create` | src/Disposables/Disposables/SimpleDisposable.cs:12 | returns a new wrapper in the same state as the constructor gives |
| `SimpleDisposables.SimpleDisposable.IsDisposed` | src/Disposables/Disposables/SimpleDisposable.cs:24 | true exactly while an action is still held, the reverse of its name |
| `SimpleDisposables.SimpleDisposable.Dispose` | src/Disposables/Disposables/SimpleDisposable.cs:16-22 | follows the as-written step, so the field is unchanged and nothing is invoked, whether or not an action is held |
| `SimpleDisposables.DisposeAsWrittenIsNoOp` | src/Disposables/Disposables/SimpleDisposable.cs:18-21 | one call as written leaves `_action` as it was and invokes nothing, in both cases of the guard |
| `SimpleDisposables.DisposeRepeatedAsWrittenIsNoOp` | src/Disposables/Disposables/SimpleDisposable.cs:16-24 | any number of calls leave `_action` unchanged and invoke nothing, so the action is invoked zero times |
| `SimpleDisposables.HeldActionIsNeverInvoked` | src/Disposables/Disposables/SimpleDisposable.cs:18-24 | a held action survives `Dispose` as written, while the intended guard would invoke it and leave null |
| `SimpleDisposables.DisposeRepeatedIntendedWhenEmpty` | src/Disposables/Disposables/SimpleDisposable.cs:20 | with the intended guard, once nothing is held, further calls invoke nothing |
| `SimpleDisposables.DisposeRepeatedIntendedInvokesOnce` | src/Disposables/Disposables/SimpleDisposable.cs:20 | with the intended guard, one or more calls take the action out and invoke it exactly once |
| `CompositeSpec.InitialIsEmpty` | src/Disposables/Disposables/CompositeDisposable.cs:18-20 | a new composite has an empty list, holds nothing, enumerates to empty and is not disposed |
| `CompositeSpec.ConstructKeepsOrder` | src/Disposables/Disposables/CompositeDisposable.cs:22-36 | a null input throws `ArgumentNullException("disposables")`, and only it does; otherwise every entry is kept in order and the composite is not disposed |
| `CompositeSpec.AddNullThrows` | src/Disposables/Disposables/CompositeDisposable.cs:40 | `Add(null)` throws `ArgumentNullException("disposable")` and changes neither the list nor the flag |
| `CompositeSpec.AddWhenActiveAppends` | src/Disposables/Disposables/CompositeDisposable.cs:41-48 | on an active composite `Add` appends at the end, keeps every earlier entry at its position, and disposes nothing |
| `CompositeSpec.AddWhenDisposedDisposesAtOnce` | src/Disposables/Disposables/CompositeDisposable.cs:41-44 | on a disposed composite `Add` disposes the member at once, exactly once, and leaves the state unchanged |
| `CompositeSpec.AddAllAppends` | src/Disposables/Disposables/CompositeDisposable.cs:41-48 | a run of adds to an active composite stores the members after the existing entries, in order, disposing none |
| `CompositeSpec.DisposeEachNoNulls` | src/Disposables/Disposables/CompositeDisposable.cs:68 | the `ForEach` over a list without nulls disposes every member once, in list order, and completes |
| `CompositeSpec.DisposeEachStopsAtNull` | src/Disposables/Disposables/CompositeDisposable.cs:68 | the `ForEach` disposes exactly the members before the first null entry, then throws `NullReferenceException` |
| `CompositeSpec.DisposeReleasesAllInOrder` | src/Disposables/Disposables/CompositeDisposable.cs:70-77 | the first `Dispose` clears once, disposing each held member exactly once in insertion order, then the list is null and the flag true |
| `CompositeSpec.DisposeIdempotent` | src/Disposables/Disposables/CompositeDisposable.cs:70-77 | after a `Dispose` that completed, another disposes no member and changes nothing |
| `CompositeSpec.EnumerateIsSnapshot` | src/Disposables/Disposables/CompositeDisposable.cs:79 | enumeration yields the current entries in insertion order and changes nothing; on a null list it throws `ArgumentNullException("source")` |
| `CompositeSpec.AddsThenDisposeReleasesEachOnceInOrder` | src/Disposables/Disposables/CompositeDisposable.cs:38-77 | adds into a new composite followed by `Dispose` dispose every added member exactly once, in insertion order, leaving the composite disposed |
| `CompositeSpec.StepConserves` | src/Disposables/Disposables/CompositeDisposable.cs:38-85 | every call keeps the list free of nulls and neither loses nor duplicates a member (held + handed over = disposed + still held) |
| `CompositeSpec.RunConserves` | src/Disposables/Disposables/CompositeDisposable.cs:38-85 | from a list without null entries, over any sequence of calls, with exceptions caught, no member is silently dropped and none is disposed more often than it was handed over |
| `CompositeSpec.NullEntryStrandsLaterMembers` | src/Disposables/Disposables/CompositeDisposable.cs:29-35 | with the first null entry at any position, `Dispose` disposes exactly the members before it, throws before the flag is set, and every later member is neither disposed nor held |
| `CompositeSpec.SetDisposedSkipsRelease` | src/Disposables/Disposables/CompositeDisposable.cs:70-85 | after the public setter sets `Disposed`, `Dispose` disposes nothing and the held members stay held |
| `CompositeSpec.ClearReleasesAllInOrder` | src/Disposables/Disposables/CompositeDisposable.cs:68 | on a list without nulls, `Clear` disposes every held member exactly once, in insertion order, and leaves the list null and the flag as it was |
| `CompositeSpec.ClearIgnoresDisposedFlag` | src/Disposables/Disposables/CompositeDisposable.cs:68 | `Clear` does not read the flag: after the setter sets it, an explicit `Clear` still disposes every held member once, in order |
| `CompositeSpec.ClearBreaksActiveComposite` | src/Disposables/Disposables/CompositeDisposable.cs:68 | after `Clear` on an active composite, the list is null; `Add`, `Clear` and `Dispose` then throw `NullReferenceException`, enumeration throws `ArgumentNullException("source")`, and `Dispose` leaves the flag false |
| `CompositeSpec.ClearIntendedKeepsCompositeUsable` | src/Disposables/Disposables/CompositeDisposable.cs:65-68 | a `Clear` that exchanged for an empty list would dispose every held member once, in order, and leave the composite active for the next `Add`; it throws only on a list already null, which it never leaves |
| `CompositeDisposables.CompositeDisposable.constructor` | src/Disposables/Disposables/CompositeDisposable.cs:18-20 | a new object with an empty list, not disposed, no member disposed |
| `CompositeDisposables.CompositeDisposable.FromEnumerable` | src/Disposables/Disposables/CompositeDisposable.cs:22-30 | a null sequence throws `ArgumentNullException`; otherwise a new object holds the entries in order, null entries included |
| `CompositeDisposables.CompositeDisposable.FromArray` | src/Disposables/Disposables/CompositeDisposable.cs:32-36 | a null array throws `ArgumentNullException`; otherwise a new object holds a copy of the array's entries in order |
| `CompositeDisposables.CompositeDisposable.Add` | src/Disposables/Disposables/CompositeDisposable.cs:38-49 | the outcome, the new list and flag, and the member disposals logged are those of the `Add` step |
| `CompositeDisposables.CompositeDisposable.AddAction` | src/Disposables/Disposables/CompositeDisposable.cs:56-63 | a null action throws; otherwise a new wrapper holding the action is added through `Add` and the same wrapper is returned; it throws only when `Add` does (an active composite with a null list) |
| `CompositeDisposables.CompositeDisposable.Clear` | src/Disposables/Disposables/CompositeDisposable.cs:68 | the loop leaves the list null and logs `Dispose` on each detached entry in order up to a null entry, as the `Clear` step says |
| `CompositeDisposables.CompositeDisposable.Dispose` | src/Disposables/Disposables/CompositeDisposable.cs:70-77 | outcome, new state and logged disposals are those of the `Dispose` step |
| `CompositeDisposables.CompositeDisposable.GetEnumerator` | src/Disposables/Disposables/CompositeDisposable.cs:79 | returns a copy of the current entries, or `ArgumentNullException("source")` on a null list; nothing changes |
| `CompositeDisposables.CompositeDisposable.IsDisposed` | src/Disposables/Disposables/CompositeDisposable.cs:83 | always equals the `Disposed` flag |
| `CompositeDisposables.CompositeDisposable.SetDisposed` | src/Disposables/Disposables/CompositeDisposable.cs:85 | sets the flag and nothing else; no member is disposed |

## Findings

| source | as written | input that shows it | evidently intended | confidence | as-written member | corrected member |
|---|---|---|---|---|---|---|
| src/Disposables/Disposables/SimpleDisposable.cs:18-24 | `IsDisposed` is `_action != null`, so `Dispose` runs the exchange only when nothing is held | `new SimpleDisposable(a)` with `a` non-null, then `Dispose()`: `a` is not invoked, and no later call invokes it | `Dispose` takes the action out and invokes it exactly once | not executed | `SimpleDisposables.DisposeRepeatedAsWrittenIsNoOp` | `SimpleDisposables.DisposeRepeatedIntendedInvokesOnce` |
| src/Disposables/Disposables/CompositeDisposable.cs:68 | `Clear` exchanges the list for `null` | `new CompositeDisposable()`, `Clear()`, then `Add(d)`: it throws `NullReferenceException`; `Dispose()` throws too and `Disposed` stays false | `Clear` exchanges for an empty list, so the composite stays usable | not executed | `CompositeSpec.ClearBreaksActiveComposite` | `CompositeSpec.ClearIntendedKeepsCompositeUsable` |

The two `SimpleDisposable` and `CompositeDisposable` classes implement the
code as written. The corrected `Dispose` step (`DisposeIntended`) and the
corrected `Clear` step (`ClearIntended`) are pure functions beside them. The
intended properties are proved about those functions.

## Left out

- Concurrency: the atomicity of `Interlocked.Exchange` and the race between
  the `Disposed` check and the append in `Add`. Every operation is modelled as
  sequential, and the exchange is a read followed by a write.
- The effects of a member's own `Dispose`. These are calls into code the model
  does not see, so the composite only records each call in its ghost `calls`
  log. This includes wrappers made by `Add(Action)`. What a wrapper's
  `Dispose` does is modelled by `SimpleDisposable.Dispose`: as written, it
  does nothing.
- Exceptions thrown by a member's `Dispose` during `Clear`. Member disposal is
  assumed not to throw.
- The invocation of an action: the model only records it in the wrapper's
  ghost `invoked` log.
- `CancellationDisposable`: every member delegates to
  `CancellationTokenSource`, which is not part of this model.
- `SupressGarbageCollection`: it depends on a type `Simple` that is not part of
  this model, and it calls the runtime's `GC.SuppressFinalize`.
- The non-generic `IEnumerable.GetEnumerator` (CompositeDisposable.cs:81). It
  only forwards to the generic one.
- The internals of `ImmutableList` and of the enumerator. The list is a
  `seq`, and enumeration returns the copied sequence.
