/**
 The counters of open terminals and log streams, in every interleaving of their handlers.
 Each step is one atomic operation on a counter.
 */
module Slots {

  const MAX_TERMINAL_SESSIONS := 20

  /** One past the largest `u32`. */
  const U32_LIMIT := 0x1_0000_0000

  /**
   The terminal counter. A handler holds a slot from its `fetch_add` to its release: either it saw
   fewer than 20 and was admitted, or it is on its way to the 503 response. The last two fields are
   kept for the proofs: what resets took off the counter, and how many releases found it at 0.
   */
  datatype State = State(
    counter: nat,
    admitted: set<nat>,
    turnedAway: set<nat>,
    cleared: nat,
    saturated: nat)

  const START := State(0, {}, {}, 0, 0)

  function Holders(st: State): set<nat> {
    st.admitted + st.turnedAway
  }

  /** `Acquire` is the `fetch_add`, `Release` every saturating decrement, `Reset` the swap of `kill_terminals`. */
  datatype Event = Acquire(id: nat) | Release(id: nat) | Reset

  predicate Enabled(st: State, e: Event) {
    match e
    case Acquire(id) => id !in Holders(st) && |Holders(st)| + 1 < U32_LIMIT
    case Release(id) => id in Holders(st)
    case Reset => true
  }

  function Step(st: State, e: Event): State
    requires Enabled(st, e)
  {
    match e
    case Acquire(id) =>
      var counter := (st.counter + 1) % U32_LIMIT;
      if st.counter < MAX_TERMINAL_SESSIONS then st.(counter := counter, admitted := st.admitted + {id})
      else st.(counter := counter, turnedAway := st.turnedAway + {id})
    case Release(id) =>
      State(if st.counter == 0 then 0 else st.counter - 1, st.admitted - {id}, st.turnedAway - {id},
            st.cleared, if st.counter == 0 then st.saturated + 1 else st.saturated)
    case Reset => st.(counter := 0, cleared := st.cleared + st.counter)
  }

  predicate Legal(st: State, es: seq<Event>)
    decreases |es|
  {
    es == [] || (Enabled(st, es[0]) && Legal(Step(st, es[0]), es[1..]))
  }

  function Run(st: State, es: seq<Event>): State
    requires Legal(st, es)
    decreases |es|
  {
    if es == [] then st else Run(Step(st, es[0]), es[1..])
  }

  /**
   Conservation: holders that the counter does not show were taken off by a reset, and those resets
   are made good by saturated releases. Admission keeps the admitted within what resets allow.
   */
  predicate Balanced(st: State) {
    && st.admitted !! st.turnedAway
    && |Holders(st)| + st.saturated == st.counter + st.cleared
    && st.saturated <= st.cleared
    && |st.admitted| <= MAX_TERMINAL_SESSIONS + st.cleared - st.saturated
  }

  lemma SizeAdd(s: set<nat>, x: nat)
    requires x !in s
    ensures |s + {x}| == |s| + 1
  {
  }

  lemma SizeRemove(s: set<nat>, x: nat)
    ensures |s - {x}| == if x in s then |s| - 1 else |s|
  {
    if x in s {
      assert s == (s - {x}) + {x};
    } else {
      assert s - {x} == s;
    }
  }

  lemma SizeSubset(a: set<nat>, b: set<nat>)
    requires a <= b
    ensures |a| <= |b|
  {
    if a != {} {
      var x :| x in a;
      SizeRemove(a, x);
      SizeRemove(b, x);
      SizeSubset(a - {x}, b - {x});
    }
  }

  lemma AcquireHolds(st: State, id: nat)
    requires Enabled(st, Acquire(id)) && st.admitted !! st.turnedAway
    ensures var next := Step(st, Acquire(id));
            && |Holders(next)| == |Holders(st)| + 1
            && next.admitted !! next.turnedAway
            && |next.admitted| == if st.counter < MAX_TERMINAL_SESSIONS then |st.admitted| + 1 else |st.admitted|
  {
    var next := Step(st, Acquire(id));
    assert Holders(next) == Holders(st) + {id};
    SizeAdd(Holders(st), id);
    SizeAdd(st.admitted, id);
  }

  lemma AcquireBalanced(st: State, id: nat)
    requires Balanced(st) && Enabled(st, Acquire(id))
    ensures Balanced(Step(st, Acquire(id)))
  {
    var next := Step(st, Acquire(id));
    AcquireHolds(st, id);
    SizeSubset(next.admitted, Holders(next));
    SizeSubset(st.admitted, Holders(st));
    hide Holders;
  }

  lemma ReleaseBalanced(st: State, id: nat)
    requires Balanced(st) && Enabled(st, Release(id))
    ensures Balanced(Step(st, Release(id)))
  {
    var next := Step(st, Release(id));
    assert Holders(next) == Holders(st) - {id};
    SizeRemove(Holders(st), id);
    SizeRemove(st.admitted, id);
    SizeSubset(next.admitted, Holders(next));
  }

  lemma StepBalanced(st: State, e: Event)
    requires Balanced(st) && Enabled(st, e)
    ensures Balanced(Step(st, e))
  {
    match e
    case Acquire(id) => AcquireBalanced(st, id);
    case Release(id) => ReleaseBalanced(st, id);
    case Reset =>
  }

  lemma {:induction false} RunBalanced(st: State, es: seq<Event>)
    requires Balanced(st) && Legal(st, es)
    ensures Balanced(Run(st, es))
    decreases |es|
  {
    if es == [] {
    } else {
      StepBalanced(st, es[0]);
      RunBalanced(Step(st, es[0]), es[1..]);
    }
  }

  /** Without resets nothing is cleared, and no release finds the counter at 0. */
  lemma {:induction false} NothingCleared(st: State, es: seq<Event>)
    requires Balanced(st) && st.cleared == 0 && Legal(st, es) && Reset !in es
    ensures Run(st, es).cleared == 0
    decreases |es|
  {
    if es == [] {
    } else {
      assert es[0] in es && forall e <- es[1..] :: e in es;
      StepBalanced(st, es[0]);
      NothingCleared(Step(st, es[0]), es[1..]);
    }
  }

  /**
   In every interleaving without resets: the counter equals the number of handlers holding a slot,
   no release has saturated, and at most 20 are admitted.
   */
  lemma CounterIsExact(es: seq<Event>)
    requires Legal(START, es) && Reset !in es
    ensures var st := Run(START, es);
            st.counter == |Holders(st)| && st.saturated == 0 && |st.admitted| <= 20
  {
    RunBalanced(START, es);
    NothingCleared(START, es);
  }

  /** With resets in between: the counter never exceeds the holders, and only resets let more than 20 in. */
  lemma CounterWithResets(es: seq<Event>)
    requires Legal(START, es)
    ensures var st := Run(START, es);
            && st.counter <= |Holders(st)|
            && |st.admitted| <= 20 + (st.cleared - st.saturated)
            && |Holders(st)| - st.counter == st.cleared - st.saturated
  {
    RunBalanced(START, es);
  }

  /** The counter equals the handlers holding a slot. */
  predicate Exact(st: State) {
    st.admitted !! st.turnedAway && st.counter == |Holders(st)|
  }

  /** It does so in every state of a run. */
  predicate ExactThroughout(st: State, es: seq<Event>)
    requires Legal(st, es)
    decreases |es|
  {
    Exact(st) && (es != [] ==> ExactThroughout(Step(st, es[0]), es[1..]))
  }

  /** Every reset of a run comes when no handler holds a slot. */
  predicate ResetsWhenIdle(st: State, es: seq<Event>)
    requires Legal(st, es)
    decreases |es|
  {
    es != [] ==> (es[0].Reset? ==> Holders(st) == {}) && ResetsWhenIdle(Step(st, es[0]), es[1..])
  }

  lemma AcquireExact(st: State, id: nat)
    requires Exact(st) && Enabled(st, Acquire(id))
    ensures Exact(Step(st, Acquire(id)))
  {
    AcquireHolds(st, id);
    assert |Holders(st)| + 1 < U32_LIMIT;
    hide Holders;
  }

  lemma ReleaseHolds(st: State, id: nat)
    requires Enabled(st, Release(id))
    ensures |Holders(Step(st, Release(id)))| == |Holders(st)| - 1
  {
    assert Holders(Step(st, Release(id))) == Holders(st) - {id};
    SizeRemove(Holders(st), id);
  }

  lemma ReleaseExact(st: State, id: nat)
    requires Exact(st) && Enabled(st, Release(id))
    ensures Exact(Step(st, Release(id)))
  {
    ReleaseHolds(st, id);
    hide Holders;
  }

  lemma ResetExact(st: State)
    requires Exact(st)
    ensures Exact(Step(st, Reset)) <==> Holders(st) == {}
  {
    assert Holders(Step(st, Reset)) == Holders(st);
    NoneHeld(Holders(st));
    hide Holders;
  }

  lemma NoneHeld(s: set<nat>)
    ensures |s| == 0 <==> s == {}
  {
  }

  lemma StepExact(st: State, e: Event)
    requires Exact(st) && Enabled(st, e)
    ensures Exact(Step(st, e)) <==> (e.Reset? ==> Holders(st) == {})
  {
    hide *;
    match e
    case Acquire(id) => AcquireExact(st, id);
    case Release(id) => ReleaseExact(st, id);
    case Reset => ResetExact(st);
  }

  /** The counter is exact in every state if and only if every reset comes when no handler holds a slot. */
  lemma {:induction false} ExactExactly(st: State, es: seq<Event>)
    requires Exact(st) && Legal(st, es)
    ensures ExactThroughout(st, es) <==> ResetsWhenIdle(st, es)
    decreases |es|
  {
    if es == [] {
    } else {
      hide Exact, Step, Enabled, Holders;
      StepExact(st, es[0]);
      if Exact(Step(st, es[0])) {
        ExactExactly(Step(st, es[0]), es[1..]);
      }
    }
  }

  lemma AdmittedStep(st: State, e: Event)
    requires Exact(st) && Enabled(st, e) && (e.Reset? ==> Holders(st) == {}) && |st.admitted| <= MAX_TERMINAL_SESSIONS
    ensures Exact(Step(st, e)) && |Step(st, e).admitted| <= MAX_TERMINAL_SESSIONS
  {
    StepExact(st, e);
    match e
    case Acquire(id) =>
      AcquireHolds(st, id);
      SizeSubset(st.admitted, Holders(st));
    case Release(id) => SizeRemove(st.admitted, id);
    case Reset =>
  }

  /** With such resets at most 20 handlers are ever admitted. */
  lemma {:induction false} IdleResetsKeepLimit(st: State, es: seq<Event>)
    requires Exact(st) && |st.admitted| <= 20 && Legal(st, es) && ResetsWhenIdle(st, es)
    ensures Exact(Run(st, es)) && |Run(st, es).admitted| <= 20
    decreases |es|
  {
    if es == [] {
    } else {
      AdmittedStep(st, es[0]);
      hide Exact, Step, Enabled, Holders;
      IdleResetsKeepLimit(Step(st, es[0]), es[1..]);
    }
  }

  lemma {:induction false} RunPush(st: State, es: seq<Event>, e: Event)
    requires Legal(st, es) && Enabled(Run(st, es), e)
    ensures Legal(st, es + [e]) && Run(st, es + [e]) == Step(Run(st, es), e)
    decreases |es|
  {
    if es == [] {
      assert [e][1..] == [];
    } else {
      assert (es + [e])[1..] == es[1..] + [e];
      hide Enabled, Step;
      RunPush(Step(st, es[0]), es[1..], e);
    }
  }

  /** Handlers that arrive one by one, with the counter reset after each. */
  function Alternating(n: nat): seq<Event> {
    if n == 0 then [] else Alternating(n - 1) + [Acquire(n - 1)] + [Reset]
  }

  function Upto(n: nat): (s: set<nat>)
    ensures |s| == n && forall i: nat :: i in s <==> i < n
  {
    if n == 0 then {} else Upto(n - 1) + {n - 1}
  }

  lemma AdmitOne(n: nat)
    requires n + 1 < U32_LIMIT
    ensures var st, next := State(0, Upto(n), {}, n, 0), State(1, Upto(n + 1), {}, n, 0);
            && Enabled(st, Acquire(n)) && Step(st, Acquire(n)) == next
            && Enabled(next, Reset) && Step(next, Reset) == State(0, Upto(n + 1), {}, n + 1, 0)
  {
    assert Holders(State(0, Upto(n), {}, n, 0)) == Upto(n);
    assert Upto(n + 1) == Upto(n) + {n};
    assert 1 % U32_LIMIT == 1;
  }

  lemma NoneAdmitted()
    ensures Alternating(0) == [] && Legal(START, []) && Run(START, []) == START == State(0, Upto(0), {}, 0, 0)
  {
  }

  lemma AlternatingLast(n: nat)
    requires n > 0
    ensures Alternating(n) == Alternating(n - 1) + [Acquire(n - 1)] + [Reset]
  {
  }

  /** With resets the limit holds for no number: each of these handlers is admitted, and none has left. */
  lemma {:induction false} ResetsAdmitAll(n: nat)
    requires n < U32_LIMIT
    ensures Legal(START, Alternating(n))
    ensures Run(START, Alternating(n)) == State(0, Upto(n), {}, n, 0) && |Run(START, Alternating(n)).admitted| == n
  {
    hide *;
    if n == 0 {
      NoneAdmitted();
    } else {
      var es := Alternating(n - 1);
      ResetsAdmitAll(n - 1);
      AdmitOne(n - 1);
      AlternatingLast(n);
      RunPush(START, es, Acquire(n - 1));
      RunPush(START, es + [Acquire(n - 1)], Reset);
    }
  }

  /**
   Without resets a handler is admitted if and only if fewer than 20 hold a slot. Handlers being
   turned away count, so one may be refused although fewer than 20 are admitted.
   */
  lemma AdmittedExactly(es: seq<Event>, id: nat)
    requires Legal(START, es) && Reset !in es && Enabled(Run(START, es), Acquire(id))
    ensures var st := Run(START, es);
            id in Step(st, Acquire(id)).admitted <==> |Holders(st)| < 20
  {
    CounterIsExact(es);
  }

  // ---- Log streams ------------------------------------------------------------------

  /** The stream counter and the streams alive: between the increment and the drop of the guard. */
  datatype Streams = Streams(counter: nat, live: set<nat>)

  /** `Open` is the increment in `handle_stream`; `Close` the decrement of the guard, or of a failed spawn. */
  datatype StreamEvent = Open(id: nat) | Close(id: nat)

  predicate StreamEnabled(st: Streams, e: StreamEvent) {
    match e
    case Open(id) => id !in st.live && |st.live| + 1 < USIZE_LIMIT
    case Close(id) => id in st.live
  }

  const USIZE_LIMIT := 0x1_0000_0000_0000_0000

  /** Plain wrapping arithmetic, as `fetch_add` and `fetch_sub` do it. */
  function StreamStep(st: Streams, e: StreamEvent): Streams {
    match e
    case Open(id) => Streams((st.counter + 1) % USIZE_LIMIT, st.live + {id})
    case Close(id) => Streams((st.counter + USIZE_LIMIT - 1) % USIZE_LIMIT, st.live - {id})
  }

  predicate StreamLegal(st: Streams, es: seq<StreamEvent>)
    decreases |es|
  {
    es == [] || (StreamEnabled(st, es[0]) && StreamLegal(StreamStep(st, es[0]), es[1..]))
  }

  function StreamRun(st: Streams, es: seq<StreamEvent>): Streams
    decreases |es|
  {
    if es == [] then st else StreamRun(StreamStep(st, es[0]), es[1..])
  }

  lemma StreamStepExact(st: Streams, e: StreamEvent)
    requires st.counter == |st.live| < USIZE_LIMIT && StreamEnabled(st, e)
    ensures var next := StreamStep(st, e); next.counter == |next.live| < USIZE_LIMIT
  {
    match e
    case Open(id) => SizeAdd(st.live, id);
    case Close(id) => SizeRemove(st.live, id);
  }

  /** In every interleaving the counter equals the number of live streams, so a decrement never wraps. */
  lemma {:induction false} StreamCounterIsExact(st: Streams, es: seq<StreamEvent>)
    requires st.counter == |st.live| < 0x1_0000_0000_0000_0000 && StreamLegal(st, es)
    ensures var end := StreamRun(st, es); end.counter == |end.live| && forall id <- end.live :: end.counter >= 1
    decreases |es|
  {
    if es == [] {
      forall id | id in st.live
        ensures st.counter >= 1
      {
        SizeRemove(st.live, id);
      }
    } else {
      hide StreamEnabled, StreamStep;
      StreamStepExact(st, es[0]);
      StreamCounterIsExact(StreamStep(st, es[0]), es[1..]);
    }
  }
}
