/** CSyncQueue: pushBackEv and popFrontEv as steps of threads that share one monitor. A wait
    gives the monitor up and takes it back before it returns; it may return at any time. */
module SyncQueue {
  import opened Options

  type Thread = nat

  /** The queue holds pointers. */
  type Event = nat

  datatype Code = Ok | ErrQueueEmpty | ErrQueueLength | ErrTimeout | ErrSystem

  /** Where a thread stands. */
  datatype Place =
    | Outside
    | PushEnter(ev: Event, wait: bool)
    | PushTest(ev: Event, wait: bool)
    | PushWaits(ev: Event)
    | PushAwake(ev: Event, result: Code)
    | PushStore(ev: Event, waited: bool)
    | PushLeave(code: Code)
    | PopEnter(wait: bool)
    | PopTest(wait: bool)
    | PopWaits
    | PopAwake(result: Code)
    | PopTake
    | PopLeave(code: Code, got: seq<Event>)
  {
    /** Between lock and unlock, and not waiting. */
    predicate HoldsMonitor() {
      PushTest? || PushAwake? || PushStore? || PushLeave? || PopTest? || PopAwake? || PopTake? || PopLeave?
    }
  }

  datatype Holder = Nobody | Held(owner: Thread)

  /** pushed and popped list the events whose push or pop took effect; waits counts the pushes
      that took effect after waiting. */
  datatype State = State(queue: seq<Event>, maxLen: int, holder: Holder, places: map<Thread, Place>,
                            pushed: seq<Event>, popped: seq<Event>, waits: nat)
  {
    function PlaceOf(t: Thread): Place { if t in places then places[t] else Outside }

    function Move(t: Thread, p: Place): State { this.(places := places[t := p]) }
  }

  datatype Action =
    | CallPush(t: Thread, ev: Event, wait: bool)
    | CallPop(t: Thread, wait: bool)
    | Lock(t: Thread)
    | Test(t: Thread)
    | Wake(t: Thread, result: Code)
    | AfterWait(t: Thread)
    | Store(t: Thread)
    | Take(t: Thread)
    | Unlock(t: Thread)

  function Init(maxLen: int): State { State([], maxLen, Nobody, map[], [], [], 0) }

  /** What CSynchronized::wait returns. */
  predicate IsWaitResult(code: Code) { code.Ok? || code.ErrTimeout? || code.ErrSystem? }

  /** The state after an action, if the thread can take it. */
  function Apply(s: State, a: Action): Option<State> {
    match a
    case CallPush(t, ev, wait) => if s.PlaceOf(t).Outside? then Some(s.Move(t, PushEnter(ev, wait))) else None
    case CallPop(t, wait) => if s.PlaceOf(t).Outside? then Some(s.Move(t, PopEnter(wait))) else None
    case Lock(t) => if s.holder.Held? then None else ApplyLock(s, t)
    case Test(t) => ApplyTest(s, t)
    case Wake(t, result) => if s.holder.Held? || !IsWaitResult(result) then None else ApplyWake(s, t, result)
    case AfterWait(t) => ApplyAfterWait(s, t)
    case Store(t) =>
      (match s.PlaceOf(t)
       case PushStore(ev, waited) =>
         Some(s.(queue := s.queue + [ev], pushed := s.pushed + [ev], waits := s.waits + if waited then 1 else 0)
               .Move(t, PushLeave(Ok)))
       case _ => None)
    case Take(t) =>
      if s.PlaceOf(t).PopTake? && s.queue != [] then
        Some(s.(queue := s.queue[1..], popped := s.popped + [s.queue[0]]).Move(t, PopLeave(Ok, [s.queue[0]])))
      else None
    case Unlock(t) =>
      if s.PlaceOf(t).PushLeave? || s.PlaceOf(t).PopLeave? then Some(s.(holder := Nobody).Move(t, Outside)) else None
  }

  function ApplyLock(s: State, t: Thread): Option<State> {
    match s.PlaceOf(t)
    case PushEnter(ev, wait) => Some(s.(holder := Held(t)).Move(t, PushTest(ev, wait)))
    case PopEnter(wait) => Some(s.(holder := Held(t)).Move(t, PopTest(wait)))
    case _ => None
  }

  /** The capacity is tested once, emptiness again after every wait. */
  function ApplyTest(s: State, t: Thread): Option<State> {
    match s.PlaceOf(t)
    case PushTest(ev, wait) =>
      Some(if |s.queue| < s.maxLen then s.Move(t, PushStore(ev, false))
           else if wait then s.(holder := Nobody).Move(t, PushWaits(ev))
           else s.Move(t, PushLeave(ErrQueueLength)))
    case PopTest(wait) =>
      Some(if s.queue != [] then s.Move(t, PopTake)
           else if wait then s.(holder := Nobody).Move(t, PopWaits)
           else s.Move(t, PopLeave(ErrQueueEmpty, [])))
    case _ => None
  }

  function ApplyWake(s: State, t: Thread, result: Code): Option<State> {
    match s.PlaceOf(t)
    case PushWaits(ev) => Some(s.(holder := Held(t)).Move(t, PushAwake(ev, result)))
    case PopWaits => Some(s.(holder := Held(t)).Move(t, PopAwake(result)))
    case _ => None
  }

  function ApplyAfterWait(s: State, t: Thread): Option<State> {
    match s.PlaceOf(t)
    case PushAwake(ev, result) => Some(s.Move(t, if result.Ok? then PushStore(ev, true) else PushLeave(ErrSystem)))
    case PopAwake(result) => Some(s.Move(t, if result.Ok? then PopTest(true) else PopLeave(result, [])))
    case _ => None
  }

  function Run(s: State, actions: seq<Action>): Option<State>
    decreases |actions|
  {
    if actions == [] then Some(s)
    else
      match Apply(s, actions[0])
      case None => None
      case Some(s') => Run(s', actions[1..])
  }

  // ---------------------------------------------------------------- the invariant

  function Capacity(maxLen: int): nat { if maxLen < 0 then 0 else maxLen }

  /** Only the holder is inside; what it found out about the queue is still true. */
  predicate PlaceIsRight(s: State, t: Thread) {
    (s.PlaceOf(t).HoldsMonitor() <==> s.holder == Held(t)) &&
    (s.PlaceOf(t).PopTake? ==> s.queue != []) &&
    (s.PlaceOf(t).PushStore? && !s.PlaceOf(t).waited ==> |s.queue| < s.maxLen)
  }

  ghost predicate Invariant(s: State) {
    s.popped + s.queue == s.pushed && |s.queue| <= Capacity(s.maxLen) + s.waits &&
    forall t: Thread :: PlaceIsRight(s, t)
  }

  lemma InitIsRight(maxLen: int)
    ensures Invariant(Init(maxLen))
  {
  }

  /** Every step keeps the invariant. */
  lemma StepKeepsInvariant(s: State, a: Action)
    requires Invariant(s) && Apply(s, a).Some?
    ensures Invariant(Apply(s, a).value) && Apply(s, a).value.maxLen == s.maxLen
  {
    var s' := Apply(s, a).value;
    assert PlaceIsRight(s, a.t);
    forall t: Thread
      ensures PlaceIsRight(s', t)
    {
      assert PlaceIsRight(s, t);
    }
    if a.Store? {
      assert s.popped + (s.queue + [s.PlaceOf(a.t).ev]) == s.popped + s.queue + [s.PlaceOf(a.t).ev];
    }
    if a.Take? {
      assert s.popped + [s.queue[0]] + s.queue[1..] == s.popped + s.queue;
    }
  }

  /** Whatever the threads do, in whatever order: the popped events followed by the queued ones
      are the pushed ones, and the queue exceeds the capacity at most by the number of pushes
      that went through after a wait. */
  lemma {:induction false} RunsAreRight(s: State, actions: seq<Action>)
    requires Invariant(s) && Run(s, actions).Some?
    ensures Invariant(Run(s, actions).value) && Run(s, actions).value.maxLen == s.maxLen
    decreases |actions|
  {
    hide Apply, Invariant;
    if actions != [] {
      StepKeepsInvariant(s, actions[0]);
      RunsAreRight(Apply(s, actions[0]).value, actions[1..]);
    }
  }

  lemma QueueIsFifo(maxLen: int, actions: seq<Action>)
    requires Run(Init(maxLen), actions).Some?
    ensures var s := Run(Init(maxLen), actions).value;
            s.popped + s.queue == s.pushed && |s.queue| <= Capacity(maxLen) + s.waits
  {
    hide Run;
    InitIsRight(maxLen);
    RunsAreRight(Init(maxLen), actions);
  }

  /** A thread that is about to pop finds an event: front and pop never meet an empty queue. */
  lemma PopFindsAnEvent(maxLen: int, actions: seq<Action>, t: Thread)
    requires Run(Init(maxLen), actions).Some?
    ensures var s := Run(Init(maxLen), actions).value;
            s.PlaceOf(t).PopTake? ==> s.queue != [] && Apply(s, Take(t)).Some?
  {
    hide Run;
    InitIsRight(maxLen);
    RunsAreRight(Init(maxLen), actions);
    assert PlaceIsRight(Run(Init(maxLen), actions).value, t);
  }

  /** No two threads are between lock and unlock. */
  lemma OneInside(maxLen: int, actions: seq<Action>, t: Thread, u: Thread)
    requires Run(Init(maxLen), actions).Some?
    ensures var s := Run(Init(maxLen), actions).value;
            s.PlaceOf(t).HoldsMonitor() && s.PlaceOf(u).HoldsMonitor() ==> t == u
  {
    hide Run;
    InitIsRight(maxLen);
    RunsAreRight(Init(maxLen), actions);
    var s := Run(Init(maxLen), actions).value;
    assert PlaceIsRight(s, t) && PlaceIsRight(s, u);
  }

  // ---------------------------------------------------------------- what a call returns

  /** The call a thread has made last. */
  function LastCall(actions: seq<Action>, t: Thread): Option<Action>
    decreases |actions|
  {
    if actions == [] then None
    else
      var a := actions[|actions| - 1];
      if (a.CallPush? || a.CallPop?) && a.t == t then Some(a) else LastCall(actions[..|actions| - 1], t)
  }

  /** What the last wait of a thread has returned. */
  function LastWake(actions: seq<Action>, t: Thread): Option<Code>
    decreases |actions|
  {
    if actions == [] then None
    else
      var a := actions[|actions| - 1];
      if a.Wake? && a.t == t then Some(a.result) else LastWake(actions[..|actions| - 1], t)
  }

  /** Where a thread stands goes with the call it has made; the code it leaves with says what
      happened, and what it found out about the queue is still true. */
  predicate Agrees(s: State, t: Thread, call: Option<Action>, wake: Option<Code>) {
    match s.PlaceOf(t)
    case Outside => true
    case PushEnter(ev, wait) => call == Some(CallPush(t, ev, wait))
    case PushTest(ev, wait) => call == Some(CallPush(t, ev, wait))
    case PushWaits(ev) => call == Some(CallPush(t, ev, true))
    case PushAwake(ev, result) => call == Some(CallPush(t, ev, true)) && IsWaitResult(result) && wake == Some(result)
    case PushStore(ev, waited) => call == Some(CallPush(t, ev, true)) || (!waited && call == Some(CallPush(t, ev, false)))
    case PushLeave(code) => call.Some? && call.value.CallPush? && PushReturns(s, call.value.ev, call.value.wait, wake, code)
    case PopEnter(wait) => call == Some(CallPop(t, wait))
    case PopTest(wait) => call == Some(CallPop(t, wait))
    case PopWaits => call == Some(CallPop(t, true))
    case PopAwake(result) => call == Some(CallPop(t, true)) && IsWaitResult(result) && wake == Some(result)
    case PopTake => call.Some? && call.value.CallPop?
    case PopLeave(code, got) => call.Some? && call.value.CallPop? && PopReturns(s, call.value.wait, wake, code, got)
  }

  /** VOS_OK with the event at the end of the queue; VOS_ERR_QUE_LEN only without waiting, from a
      full queue; VOS_ERR_SYS for a wait that failed in any way. */
  predicate PushReturns(s: State, ev: Event, wait: bool, wake: Option<Code>, code: Code) {
    match code
    case Ok => s.queue != [] && s.queue[|s.queue| - 1] == ev
    case ErrQueueLength => !wait && |s.queue| >= s.maxLen
    case ErrSystem => wait && wake.Some? && !wake.value.Ok?
    case _ => false
  }

  /** VOS_OK with the event popped last; VOS_ERR_QUE_EMPTY only without waiting, from an empty
      queue; any other code as the wait has returned it. */
  predicate PopReturns(s: State, wait: bool, wake: Option<Code>, code: Code, got: seq<Event>) {
    match code
    case Ok => s.popped != [] && got == [s.popped[|s.popped| - 1]]
    case ErrQueueEmpty => !wait && s.queue == [] && got == []
    case ErrQueueLength => false
    case _ => wait && wake == Some(code) && got == []
  }

  ghost predicate AllAgree(s: State, actions: seq<Action>) {
    forall t: Thread :: Agrees(s, t, LastCall(actions, t), LastWake(actions, t))
  }

  lemma LastCallStep(actions: seq<Action>, a: Action, t: Thread)
    ensures LastCall(actions + [a], t) == if (a.CallPush? || a.CallPop?) && a.t == t then Some(a) else LastCall(actions, t)
    ensures LastWake(actions + [a], t) == if a.Wake? && a.t == t then Some(a.result) else LastWake(actions, t)
  {
    assert (actions + [a])[..|actions|] == actions;
  }

  /** A step of another thread leaves what a thread may return as it is. */
  lemma OtherStaysAgreed(s: State, a: Action, t: Thread, call: Option<Action>, wake: Option<Code>)
    requires Invariant(s) && Apply(s, a).Some? && a.t != t && Agrees(s, t, call, wake)
    ensures Agrees(Apply(s, a).value, t, call, wake)
  {
    assert PlaceIsRight(s, t) && PlaceIsRight(s, a.t);
  }

  lemma OwnStepAgrees(s: State, a: Action, call: Option<Action>, wake: Option<Code>)
    requires Invariant(s) && Apply(s, a).Some? && Agrees(s, a.t, call, wake)
    ensures Agrees(Apply(s, a).value, a.t, if a.CallPush? || a.CallPop? then Some(a) else call, if a.Wake? then Some(a.result) else wake)
  {
    assert PlaceIsRight(s, a.t);
  }

  lemma StepAgrees(s: State, before: seq<Action>, a: Action)
    requires Invariant(s) && Apply(s, a).Some? && AllAgree(s, before)
    ensures AllAgree(Apply(s, a).value, before + [a])
  {
    hide Apply, Agrees, Invariant, LastCall, LastWake;
    forall t: Thread
      ensures Agrees(Apply(s, a).value, t, LastCall(before + [a], t), LastWake(before + [a], t))
    {
      LastCallStep(before, a, t);
      var call, wake := LastCall(before, t), LastWake(before, t);
      assert Agrees(s, t, call, wake);
      if t == a.t { OwnStepAgrees(s, a, call, wake); } else { OtherStaysAgreed(s, a, t, call, wake); }
    }
  }

  lemma {:induction false} RunsAgree(s: State, before: seq<Action>, actions: seq<Action>)
    requires Invariant(s) && Run(s, actions).Some? && AllAgree(s, before)
    ensures AllAgree(Run(s, actions).value, before + actions)
    decreases |actions|
  {
    hide Apply, AllAgree, Invariant;
    if actions == [] {
      assert before + actions == before;
    } else {
      StepKeepsInvariant(s, actions[0]);
      StepAgrees(s, before, actions[0]);
      RunsAgree(Apply(s, actions[0]).value, before + [actions[0]], actions[1..]);
      assert before + [actions[0]] + actions[1..] == before + actions;
    }
  }

  /** Over all interleavings: a pop that may wait never leaves with VOS_ERR_QUE_EMPTY, nor a push that
      may wait with VOS_ERR_QUE_LEN; without waiting these codes are right about the queue, and VOS_OK
      goes with the event that was pushed or popped. */
  lemma CodesAreRight(maxLen: int, actions: seq<Action>, t: Thread)
    requires Run(Init(maxLen), actions).Some?
    ensures var s, call, wake := Run(Init(maxLen), actions).value, LastCall(actions, t), LastWake(actions, t);
            match s.PlaceOf(t)
            case PushLeave(code) => call.Some? && call.value.CallPush? && PushReturns(s, call.value.ev, call.value.wait, wake, code)
            case PopLeave(code, got) => call.Some? && call.value.CallPop? && PopReturns(s, call.value.wait, wake, code, got)
            case _ => true
  {
    hide Run, Invariant, PushReturns, PopReturns;
    InitIsRight(maxLen);
    NobodyAgrees(maxLen);
    RunsAgree(Init(maxLen), [], actions);
    assert [] + actions == actions;
    assert Agrees(Run(Init(maxLen), actions).value, t, LastCall(actions, t), LastWake(actions, t));
  }

  lemma NobodyAgrees(maxLen: int)
    ensures AllAgree(Init(maxLen), [])
  {
  }

  // ---------------------------------------------------------------- pushes that do not wait

  predicate NoWaitingPush(actions: seq<Action>) {
    forall i :: 0 <= i < |actions| ==> actions[i].CallPush? ==> !actions[i].wait
  }

  /** No thread is in a push that may wait. */
  ghost predicate NobodyWaits(s: State) {
    s.waits == 0 && forall t: Thread :: PushesAtOnce(s, t)
  }

  predicate PushesAtOnce(s: State, t: Thread) {
    match s.PlaceOf(t)
    case PushEnter(_, wait) => !wait
    case PushTest(_, wait) => !wait
    case PushWaits(_) => false
    case PushAwake(_, _) => false
    case PushStore(_, waited) => !waited
    case _ => true
  }

  lemma StepsAtOnce(s: State, a: Action)
    requires NobodyWaits(s) && (a.CallPush? ==> !a.wait) && Apply(s, a).Some?
    ensures NobodyWaits(Apply(s, a).value)
  {
    var s' := Apply(s, a).value;
    assert PushesAtOnce(s, a.t);
    forall t: Thread
      ensures PushesAtOnce(s', t)
    {
      assert PushesAtOnce(s, t);
    }
  }

  lemma {:induction false} RunsAtOnce(s: State, actions: seq<Action>)
    requires NobodyWaits(s) && NoWaitingPush(actions) && Run(s, actions).Some?
    ensures NobodyWaits(Run(s, actions).value)
    decreases |actions|
  {
    hide Apply, NobodyWaits;
    if actions != [] {
      StepsAtOnce(s, actions[0]);
      var rest := actions[1..];
      assert forall i :: 0 <= i < |rest| ==> rest[i] == actions[i + 1];
      RunsAtOnce(Apply(s, actions[0]).value, rest);
    }
  }

  /** If no push waits, the queue never exceeds its maximal length. */
  lemma NoWaitIsBounded(maxLen: int, actions: seq<Action>)
    requires NoWaitingPush(actions) && Run(Init(maxLen), actions).Some?
    ensures |Run(Init(maxLen), actions).value.queue| <= Capacity(maxLen)
  {
    hide Run;
    QueueIsFifo(maxLen, actions);
    assert NobodyWaits(Init(maxLen)) by { assert forall t: Thread :: PushesAtOnce(Init(maxLen), t); }
    RunsAtOnce(Init(maxLen), actions);
  }

  // ---------------------------------------------------------------- a push that waited

  lemma {:induction false} RunSplit(s: State, first: seq<Action>, second: seq<Action>)
    requires Run(s, first).Some?
    ensures Run(s, first + second) == Run(Run(s, first).value, second)
    decreases |first|
  {
    if first == [] {
      assert first + second == second;
    } else {
      RunSplit(Apply(s, first[0]).value, first[1..], second);
      assert (first + second)[1..] == first[1..] + second;
    }
  }

  lemma RunFirst(s: State, a: Action, rest: seq<Action>)
    ensures Run(s, [a] + rest) == if Apply(s, a).None? then None else Run(Apply(s, a).value, rest)
  {
    assert ([a] + rest)[1..] == rest;
  }

  ghost predicate OthersStay(s: State, r: State, t: Thread) {
    forall u: Thread :: u != t ==> r.PlaceOf(u) == s.PlaceOf(u)
  }

  /** Two states that differ in nothing but the queue, and in no other thread than t, which is outside. */
  ghost predicate SameButQueue(s: State, r: State, t: Thread) {
    r.maxLen == s.maxLen && r.holder == s.holder && r.waits == s.waits && r.PlaceOf(t).Outside? &&
    OthersStay(s, r, t)
  }

  function PushActions(t: Thread, ev: Event): seq<Action> {
    [CallPush(t, ev, false)] + ([Lock(t)] + ([Test(t)] + ([Store(t)] + ([Unlock(t)] + []))))
  }

  function PopActions(t: Thread): seq<Action> {
    [CallPop(t, true)] + ([Lock(t)] + ([Test(t)] + ([Take(t)] + ([Unlock(t)] + []))))
  }

  lemma RunFive(s: State, a1: Action, a2: Action, a3: Action, a4: Action, a5: Action,
                s1: State, s2: State, s3: State, s4: State, s5: State)
    requires Apply(s, a1) == Some(s1) && Apply(s1, a2) == Some(s2) && Apply(s2, a3) == Some(s3)
    requires Apply(s3, a4) == Some(s4) && Apply(s4, a5) == Some(s5)
    ensures Run(s, [a1] + ([a2] + ([a3] + ([a4] + ([a5] + []))))) == Some(s5)
  {
    hide Run, Apply;
    RunFirst(s, a1, [a2] + ([a3] + ([a4] + ([a5] + []))));
    RunFirst(s1, a2, [a3] + ([a4] + ([a5] + [])));
    RunFirst(s2, a3, [a4] + ([a5] + []));
    RunFirst(s3, a4, [a5] + []);
    RunFirst(s4, a5, []);
    NoMoreActions(s5);
  }

  lemma NoMoreActions(s: State)
    ensures Run(s, []) == Some(s)
  {
  }

  /** A push that finds room. */
  lemma PushGoesThrough(s: State, t: Thread, ev: Event)
    requires s.PlaceOf(t).Outside? && s.holder == Nobody && |s.queue| < s.maxLen
    ensures Run(s, PushActions(t, ev)).Some?
    ensures SameButQueue(s, Run(s, PushActions(t, ev)).value, t)
    ensures Run(s, PushActions(t, ev)).value.queue == s.queue + [ev]
  {
    hide Run;
    var s1 := Apply(s, CallPush(t, ev, false)).value;
    assert s1.PlaceOf(t) == PushEnter(ev, false) && s1.holder == Nobody && s1.queue == s.queue;
    var s2 := Apply(s1, Lock(t)).value;
    assert s2.PlaceOf(t) == PushTest(ev, false) && s2.queue == s.queue;
    var s3 := Apply(s2, Test(t)).value;
    assert s3.PlaceOf(t) == PushStore(ev, false) && s3.queue == s.queue;
    var s4 := Apply(s3, Store(t)).value;
    assert s4.PlaceOf(t).PushLeave? && s4.queue == s.queue + [ev];
    var s5 := Apply(s4, Unlock(t)).value;
    RunFive(s, CallPush(t, ev, false), Lock(t), Test(t), Store(t), Unlock(t), s1, s2, s3, s4, s5);
  }

  /** A pop that finds an event. */
  lemma PopGoesThrough(s: State, t: Thread)
    requires s.PlaceOf(t).Outside? && s.holder == Nobody && s.queue != []
    ensures Run(s, PopActions(t)).Some?
    ensures SameButQueue(s, Run(s, PopActions(t)).value, t)
    ensures Run(s, PopActions(t)).value.queue == s.queue[1..]
  {
    hide Run;
    var s1 := Apply(s, CallPop(t, true)).value;
    var s2 := Apply(s1, Lock(t)).value;
    var s3 := Apply(s2, Test(t)).value;
    var s4 := Apply(s3, Take(t)).value;
    var s5 := Apply(s4, Unlock(t)).value;
    RunFive(s, CallPop(t, true), Lock(t), Test(t), Take(t), Unlock(t), s1, s2, s3, s4, s5);
  }

  function WaitActions(t: Thread, ev: Event): seq<Action> {
    [CallPush(t, ev, true)] + ([Lock(t)] + ([Test(t)] + []))
  }

  function ResumeActions(t: Thread): seq<Action> {
    [Wake(t, Ok)] + ([AfterWait(t)] + ([Store(t)] + ([Unlock(t)] + [])))
  }

  /** A push that finds the queue full and waits. */
  lemma PushStartsToWait(s: State, t: Thread, ev: Event)
    requires s.PlaceOf(t).Outside? && s.holder == Nobody && |s.queue| >= s.maxLen
    ensures Run(s, WaitActions(t, ev)).Some?
    ensures var r := Run(s, WaitActions(t, ev)).value;
            r.PlaceOf(t) == PushWaits(ev) && t in r.places && r.queue == s.queue && r.maxLen == s.maxLen &&
            r.waits == s.waits && r.holder == Nobody && OthersStay(s, r, t)
  {
    hide Run;
    var s1 := Apply(s, CallPush(t, ev, true)).value;
    var s2 := Apply(s1, Lock(t)).value;
    var s3 := Apply(s2, Test(t)).value;
    RunFirst(s, CallPush(t, ev, true), [Lock(t)] + ([Test(t)] + []));
    RunFirst(s1, Lock(t), [Test(t)] + []);
    RunFirst(s2, Test(t), []);
    NoMoreActions(s3);
  }

  /** After the wait it pushes without another test. */
  lemma PushResumes(s: State, t: Thread, ev: Event)
    requires s.PlaceOf(t) == PushWaits(ev) && s.holder == Nobody
    ensures Run(s, ResumeActions(t)).Some?
    ensures var r := Run(s, ResumeActions(t)).value;
            r.PlaceOf(t).Outside? && r.queue == s.queue + [ev] && r.waits == s.waits + 1 &&
            r.maxLen == s.maxLen && r.holder == Nobody && OthersStay(s, r, t)
  {
    hide Run;
    var s1 := Apply(s, Wake(t, Ok)).value;
    var s2 := Apply(s1, AfterWait(t)).value;
    assert s2.PlaceOf(t) == PushStore(ev, true);
    var s3 := Apply(s2, Store(t)).value;
    var s4 := Apply(s3, Unlock(t)).value;
    RunFirst(s, Wake(t, Ok), [AfterWait(t)] + ([Store(t)] + ([Unlock(t)] + [])));
    RunFirst(s1, AfterWait(t), [Store(t)] + ([Unlock(t)] + []));
    RunFirst(s2, Store(t), [Unlock(t)] + []);
    RunFirst(s3, Unlock(t), []);
    NoMoreActions(s4);
  }

  // ---------------------------------------------------------------- when the queue is bounded

  /** A state between two calls: every thread is outside. */
  ghost predicate Quiet(s: State, maxLen: int, length: nat, waits: nat) {
    s.maxLen == maxLen && |s.queue| == length && s.waits == waits && s.holder == Nobody &&
    forall t: Thread :: s.PlaceOf(t).Outside?
  }

  ghost predicate Reaches(maxLen: int, actions: seq<Action>, length: nat, waits: nat) {
    Run(Init(maxLen), actions).Some? && Quiet(Run(Init(maxLen), actions).value, maxLen, length, waits)
  }

  /** One thread pushes without waiting until the queue is full. */
  function FillActions(n: nat): seq<Action> {
    if n == 0 then [] else FillActions(n - 1) + PushActions(1, 10)
  }

  lemma {:induction false} QueueFills(maxLen: int, n: nat)
    requires n <= Capacity(maxLen)
    ensures Reaches(maxLen, FillActions(n), n, 0)
  {
    hide PushActions, Run, Quiet;
    if n == 0 {
      NoMoreActions(Init(maxLen));
      assert Quiet(Init(maxLen), maxLen, 0, 0) by { AtRest(maxLen); }
    } else {
      QueueFills(maxLen, n - 1);
      PushKeepsQuiet(Run(Init(maxLen), FillActions(n - 1)).value, maxLen, n - 1);
      RunSplit(Init(maxLen), FillActions(n - 1), PushActions(1, 10));
    }
  }

  lemma AtRest(maxLen: int)
    ensures Quiet(Init(maxLen), maxLen, 0, 0)
  {
  }

  lemma PushKeepsQuiet(s: State, maxLen: int, length: nat)
    requires Quiet(s, maxLen, length, 0) && length < maxLen
    ensures Run(s, PushActions(1, 10)).Some? && Quiet(Run(s, PushActions(1, 10)).value, maxLen, length + 1, 0)
  {
    hide PushActions, Run;
    PushGoesThrough(s, 1, 10);
  }

  /** n pushes that find the queue full, wait and go through. */
  function WaitingActions(n: nat): seq<Action> {
    if n == 0 then [] else WaitingActions(n - 1) + (WaitActions(2, 20) + ResumeActions(2))
  }

  lemma WaitAndResume(s: State, length: nat, waits: nat)
    requires Quiet(s, s.maxLen, length, waits) && length >= s.maxLen
    ensures Run(s, WaitActions(2, 20) + ResumeActions(2)).Some?
    ensures Quiet(Run(s, WaitActions(2, 20) + ResumeActions(2)).value, s.maxLen, length + 1, waits + 1)
  {
    hide Run, WaitActions, ResumeActions;
    PushStartsToWait(s, 2, 20);
    var r := Run(s, WaitActions(2, 20)).value;
    PushResumes(r, 2, 20);
    RunSplit(s, WaitActions(2, 20), ResumeActions(2));
  }

  /** The bound of QueueIsFifo is reached for every maximal length and every number of pushes
      that waited. */
  lemma {:induction false} BoundIsReached(maxLen: int, n: nat)
    ensures Reaches(maxLen, FillActions(Capacity(maxLen)) + WaitingActions(n), Capacity(maxLen) + n, n)
  {
    hide Run, Quiet, WaitActions, ResumeActions;
    var fill := FillActions(Capacity(maxLen));
    if n == 0 {
      QueueFills(maxLen, Capacity(maxLen));
      assert fill + [] == fill;
    } else {
      BoundIsReached(maxLen, n - 1);
      var before := fill + WaitingActions(n - 1);
      var s := Run(Init(maxLen), before).value;
      QuietLength(s, maxLen, Capacity(maxLen) + (n - 1), n - 1);
      WaitAndResume(s, Capacity(maxLen) + (n - 1), n - 1);
      RunSplit(Init(maxLen), before, WaitActions(2, 20) + ResumeActions(2));
      assert before + (WaitActions(2, 20) + ResumeActions(2)) == fill + WaitingActions(n);
    }
  }

  lemma QuietLength(s: State, maxLen: int, length: nat, waits: nat)
    requires Quiet(s, maxLen, length, waits)
    ensures s.maxLen == maxLen && |s.queue| == length
  {
  }

  /** Pushes wait only if the flag is set. */
  predicate MayDo(waiting: bool, actions: seq<Action>) { waiting || NoWaitingPush(actions) }

  ghost predicate KeepsTheBound(maxLen: int, actions: seq<Action>) {
    Run(Init(maxLen), actions).Some? ==> |Run(Init(maxLen), actions).value.queue| <= Capacity(maxLen)
  }

  /** For every maximal length: the queue is bounded by it in all runs if and only if no push
      may wait. */
  lemma BoundedExactly(maxLen: int, waiting: bool)
    ensures (forall actions :: MayDo(waiting, actions) ==> KeepsTheBound(maxLen, actions)) <==> !waiting
  {
    hide Run;
    if waiting {
      BoundIsReached(maxLen, 1);
      assert !KeepsTheBound(maxLen, FillActions(Capacity(maxLen)) + WaitingActions(1));
    } else {
      forall actions | MayDo(waiting, actions)
        ensures KeepsTheBound(maxLen, actions)
      {
        if Run(Init(maxLen), actions).Some? { NoWaitIsBounded(maxLen, actions); }
      }
    }
  }

  /** Thread 1 fills the queue; thread 2 waits; thread 3 pops, and before thread 2 has the monitor
      back, thread 4 pushes: then thread 2 pushes as well. */
  function Overtaking(maxLen: nat): seq<Action> {
    FillActions(maxLen) + WaitActions(2, 20) + PopActions(3) + PushActions(4, 11) + ResumeActions(2)
  }

  /** The wait ends because of a pop, and still a queue of any positive length is exceeded. */
  lemma CapacityIsExceeded(maxLen: nat)
    requires maxLen > 0
    ensures Run(Init(maxLen), Overtaking(maxLen)).Some?
    ensures |Run(Init(maxLen), Overtaking(maxLen)).value.queue| == maxLen + 1
  {
    hide Run, PushActions, PopActions, WaitActions, ResumeActions;
    var s0 := Init(maxLen);
    QueueFills(maxLen, maxLen);
    var a1 := FillActions(maxLen);
    var s1 := Run(s0, a1).value;
    PushStartsToWait(s1, 2, 20);
    RunSplit(s0, a1, WaitActions(2, 20));
    var a2 := a1 + WaitActions(2, 20);
    var s2 := Run(s0, a2).value;
    PopGoesThrough(s2, 3);
    RunSplit(s0, a2, PopActions(3));
    var a3 := a2 + PopActions(3);
    var s3 := Run(s0, a3).value;
    PushGoesThrough(s3, 4, 11);
    RunSplit(s0, a3, PushActions(4, 11));
    var a4 := a3 + PushActions(4, 11);
    var s4 := Run(s0, a4).value;
    PushResumes(s4, 2, 20);
    RunSplit(s0, a4, ResumeActions(2));
  }
}
