/** useAsync.ts: the lifecycle of one wrapped asynchronous call.

    `execute` cannot wait inside Dafny, so each call is split at its
    `await` into two steps: Begin (the synchronous part up to the call of
    the wrapped function) and Settle (what happens when the promise
    resolves or rejects). Overlapping calls are interleavings of these
    steps; nothing guards a Settle against a newer Begin. */
module UseAsync {
  import opened Wrappers

  datatype Status = Idle | Pending | Success | Error

  /** The record the hook keeps in React state and replaces as a whole on
      every `setState`. */
  datatype AsyncState<T, E> = AsyncState(
    status: Status,
    data: Option<T>,
    error: Option<E>,
    isLoading: bool,
    isSuccess: bool,
    isError: bool)

  /** The three flags agree with `status`. */
  predicate FlagsAgree<T, E>(s: AsyncState<T, E>) {
    && s.isLoading == (s.status == Pending)
    && s.isSuccess == (s.status == Success)
    && s.isError == (s.status == Error)
  }

  /** `data` is present only on success and `error` only on error. */
  predicate PayloadAgrees<T, E>(s: AsyncState<T, E>) {
    && s.data.Some? == (s.status == Success)
    && s.error.Some? == (s.status == Error)
  }

  predicate WellFormed<T, E>(s: AsyncState<T, E>) {
    FlagsAgree(s) && PayloadAgrees(s)
  }

  /** How the promise returned by the wrapped function settles. */
  datatype Outcome<T, E> = Resolved(value: T) | Rejected(reason: E)

  /** The state the hook is created in. */
  function IdleState<T, E>(): (s: AsyncState<T, E>)
    ensures WellFormed(s) && s.status == Idle
  {
    AsyncState(Idle, None, None, false, false, false)
  }

  /** The state every `execute` writes before it awaits. */
  function PendingState<T, E>(): (s: AsyncState<T, E>)
    ensures WellFormed(s) && s.status == Pending
  {
    AsyncState(Pending, None, None, true, false, false)
  }

  /** The state written when the awaited promise settles. */
  function SettledState<T, E>(o: Outcome<T, E>): (s: AsyncState<T, E>)
    ensures WellFormed(s)
    ensures o.Resolved? ==> s.status == Success && s.data == Some(o.value)
    ensures o.Rejected? ==> s.status == Error && s.error == Some(o.reason)
  {
    match o
    case Resolved(v) => AsyncState(Success, Some(v), None, false, true, false)
    case Rejected(e) => AsyncState(Error, None, Some(e), false, false, true)
  }

  /** The arguments a call passes to the wrapped function: its own when it
      was given at least one, else those captured when the hook was
      created. */
  function ArgsToUse<A>(executeArgs: seq<A>, captured: seq<A>): (r: seq<A>)
    ensures executeArgs != [] ==> r == executeArgs
    ensures executeArgs == [] ==> r == captured
  {
    if |executeArgs| > 0 then executeArgs else captured
  }

  // ---------------------------------------------------------------------
  // Traces of Begin and Settle steps

  datatype Event<T, E> = Begin | Settle(outcome: Outcome<T, E>)

  /** One step. The state before the step is not consulted: neither step
      has a guard. */
  function Step<T, E>(s: AsyncState<T, E>, ev: Event<T, E>): (r: AsyncState<T, E>)
    ensures WellFormed(r)
    ensures ev.Begin? ==> r == PendingState()
    ensures ev.Settle? ==> r == SettledState(ev.outcome)
  {
    match ev
    case Begin => PendingState()
    case Settle(o) => SettledState(o)
  }

  /** The state after replaying `evs` from `s`. */
  function Run<T, E>(s: AsyncState<T, E>, evs: seq<Event<T, E>>): (r: AsyncState<T, E>)
    ensures WellFormed(s) ==> WellFormed(r)
    ensures evs != [] ==> WellFormed(r) && r.status != Idle
    decreases |evs|
  {
    if evs == [] then s else Run(Step(s, evs[0]), evs[1..])
  }

  lemma {:induction false} RunSnoc<T, E>(s: AsyncState<T, E>, evs: seq<Event<T, E>>, ev: Event<T, E>)
    ensures Run(s, evs + [ev]) == Step(Run(s, evs), ev)
    decreases |evs|
  {
    if evs == [] {
      assert [ev][1..] == [];
    } else {
      assert (evs + [ev])[1..] == evs[1..] + [ev];
      RunSnoc(Step(s, evs[0]), evs[1..], ev);
    }
  }

  /** Last write wins: whatever ran before, the state after a Settle is the
      one that Settle writes. */
  lemma LastSettleWins<T, E>(s: AsyncState<T, E>, evs: seq<Event<T, E>>, o: Outcome<T, E>)
    ensures Run(s, evs + [Settle(o)]) == SettledState(o)
  {
    RunSnoc(s, evs, Settle(o));
  }

  /** The race of overlapping calls: a first call that settles after a
      second one overwrites the second one's newer result. */
  lemma StaleResultOverwritesNewer<T, E>(older: Outcome<T, E>, newer: Outcome<T, E>)
    ensures Run(IdleState(), [Begin, Begin, Settle(newer), Settle(older)]) == SettledState(older)
  {
    var evs: seq<Event<T, E>> := [Begin, Begin, Settle(newer)];
    assert evs + [Settle(older)] == [Begin, Begin, Settle(newer), Settle(older)];
    LastSettleWins(IdleState(), evs, older);
  }

  /** The number of calls begun and not yet settled. */
  function InFlight<T, E>(evs: seq<Event<T, E>>): int {
    if evs == [] then 0
    else InFlight(evs[..|evs| - 1]) + (if evs[|evs| - 1].Begin? then 1 else -1)
  }

  /** Every Settle answers an earlier Begin. */
  ghost predicate Paired<T, E>(evs: seq<Event<T, E>>) {
    forall k :: 0 <= k <= |evs| ==> InFlight(evs[..k]) >= 0
  }

  /** While the state says pending, some call is in flight. */
  lemma {:induction false} PendingImpliesInFlight<T, E>(evs: seq<Event<T, E>>)
    requires Paired(evs)
    ensures Run(IdleState(), evs).status == Pending ==> InFlight(evs) > 0
  {
    if evs != [] {
      var pre := evs[..|evs| - 1];
      assert evs == pre + [evs[|evs| - 1]];
      RunSnoc(IdleState(), pre, evs[|evs| - 1]);
      assert InFlight(pre) >= 0;
    }
  }

  /** The converse does not hold: once the first of two overlapping calls
      settles, isLoading is false although the second is still running. */
  lemma LoadingClearedWhileCallInFlight<T, E>(o: Outcome<T, E>)
    ensures InFlight([Begin, Begin, Settle(o)]) == 1
    ensures !Run(IdleState(), [Begin, Begin, Settle(o)]).isLoading
  {
    var evs: seq<Event<T, E>> := [Begin, Begin, Settle(o)];
    assert evs[..2] == [Begin, Begin];
    assert evs[..2][..1] == [Begin];
    assert evs[..2][..1][..0] == [];
    assert InFlight(evs[..2][..1]) == 1;
    assert InFlight(evs[..2]) == 2;
    LastSettleWins(IdleState(), [Begin, Begin], o);
    assert [Begin, Begin] + [Settle(o)] == evs;
  }

  // ---------------------------------------------------------------------
  // The hook

  class AsyncOperation<T, E, A> {
    /** Whether the mount effect starts a call. */
    const immediate: bool
    /** The arguments given when the hook was created. */
    const args: seq<A>
    var state: AsyncState<T, E>
    /** The Begin and Settle steps taken so far. */
    ghost var history: seq<Event<T, E>>

    /** The state is the replay of the steps taken since creation. */
    ghost predicate Valid()
      reads this
    {
      state == Run(IdleState(), history)
    }

    constructor (immediate: bool, args: seq<A>)
      ensures Valid() && history == []
      ensures this.immediate == immediate && this.args == args
      ensures state == IdleState()
    {
      this.immediate := immediate;
      this.args := args;
      state := IdleState();
      history := [];
    }

    /** The synchronous part of `execute`: choose the arguments, write the
        pending state, and hand the arguments to the wrapped function. */
    method Begin(executeArgs: seq<A>) returns (argsToUse: seq<A>)
      requires Valid()
      modifies this
      ensures Valid() && history == old(history) + [Event.Begin]
      ensures state == PendingState()
      ensures argsToUse == ArgsToUse(executeArgs, args)
    {
      argsToUse := ArgsToUse(executeArgs, args);
      RunSnoc(IdleState(), history, Event.Begin);
      state := PendingState();
      history := history + [Event.Begin];
    }

    /** The part of `execute` after its `await`: write the settled state
        and hand the outcome back to the caller, who receives the value or
        has the rejection rethrown. Nothing checks that this call is still
        the latest one. */
    method Settle(outcome: Outcome<T, E>) returns (result: Outcome<T, E>)
      requires Valid()
      modifies this
      ensures Valid() && history == old(history) + [Event.Settle(outcome)]
      ensures state == SettledState(outcome)
      ensures result == outcome
    {
      RunSnoc(IdleState(), history, Event.Settle(outcome));
      state := SettledState(outcome);
      history := history + [Event.Settle(outcome)];
      result := outcome;
    }

    /** The mount effect: with `immediate` it begins a call with no
        arguments of its own, so the captured ones are used. */
    method Mount() returns (started: Option<seq<A>>)
      requires Valid()
      modifies this
      ensures Valid()
      ensures immediate ==> started == Some(args) && state == PendingState()
                            && history == old(history) + [Event.Begin]
      ensures !immediate ==> started == None && state == old(state) && history == old(history)
    {
      if immediate {
        var used := Begin([]);
        started := Some(used);
      } else {
        started := None;
      }
    }
  }
}
