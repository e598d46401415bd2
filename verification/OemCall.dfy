/** RilInterface.synchronousOemCall: any number of caller threads and one completion thread meeting
    over per-call monitors and two maps keyed by call id. Steps interleave freely. */
module OemCall {
  import opened Bytes

  type Outcome = nat

  /** Where a caller stands, by the line it is about to execute. */
  datatype CallerAt =
    | Begun          // has its id; about to put its lock into mLockMap
    | Registered     // about to enter synchronized(lock)
    | Locked         // about to invoke the RIL, holding the monitor
    | Invoked        // about to wait, holding the monitor
    | Waiting        // in the wait set, monitor released
    | Notified       // notified; has to get the monitor back
    | Woken          // out of the monitor; about to remove its lock
    | Unregistered   // about to get its result
    | Collected      // about to remove its result
    | Done
    | Interrupted    // InterruptedException caught; about to remove its lock
    | GaveUp         // returned false

  /** The completion thread inside onCallComplete(id, outcome). */
  datatype CompleterAt =
    | Idle
    | Looking(id: nat, outcome: Outcome)
    | Found(id: nat, outcome: Outcome)
    | Stored(id: nat)
    | Notifying(id: nat)
    | Leaving(id: nat)

  datatype Holder = Caller | Completer

  /** outstanding holds calls the RIL has yet to answer; answers and returned are history. A returned
      None is a null result, which the caller would dereference. */
  datatype State = State(
    callers: map<nat, CallerAt>,
    completer: CompleterAt,
    lockMap: set<nat>,
    resultMap: map<nat, Outcome>,
    monitors: map<nat, Holder>,
    outstanding: set<nat>,
    answers: map<nat, Outcome>,
    returned: map<nat, Option<Outcome>>)

  const Start: State := State(map[], Idle, {}, map[], map[], {}, map[], map[])

  datatype Action =
    | Begin(id: nat) | Register(id: nat) | EnterMonitor(id: nat) | Invoke(id: nat) | Wait(id: nat)
    | Reacquire(id: nat) | Unregister(id: nat) | Collect(id: nat) | Clear(id: nat)
    | Interrupt(id: nat) | Abandon(id: nat)
    | TakeAnswer(id: nat, outcome: Outcome) | LookUp | Store | EnterNotify | Notify | Leave

  predicate IsAt(st: State, id: nat, at: CallerAt) {
    id in st.callers && st.callers[id] == at
  }

  predicate Enabled(st: State, a: Action) {
    match a
    case Begin(id) => id !in st.callers
    case Register(id) => IsAt(st, id, Begun)
    case EnterMonitor(id) => IsAt(st, id, Registered) && id !in st.monitors
    case Invoke(id) => IsAt(st, id, Locked)
    case Wait(id) => IsAt(st, id, Invoked)
    case Reacquire(id) => IsAt(st, id, Notified) && id !in st.monitors
    case Unregister(id) => IsAt(st, id, Woken)
    case Collect(id) => IsAt(st, id, Unregistered)
    case Clear(id) => IsAt(st, id, Collected)
    case Interrupt(id) => IsAt(st, id, Waiting) && id !in st.monitors
    case Abandon(id) => IsAt(st, id, Interrupted)
    case TakeAnswer(id, _) => st.completer == Idle && id in st.outstanding
    case LookUp => st.completer.Looking?
    case Store => st.completer.Found?
    case EnterNotify => st.completer.Stored? && st.completer.id !in st.monitors
    case Notify => st.completer.Notifying?
    case Leave => st.completer.Leaving?
  }

  function Next(st: State, a: Action): State
    requires Enabled(st, a)
  {
    match a
    case Begin(id) => st.(callers := st.callers[id := Begun])
    case Register(id) => st.(callers := st.callers[id := Registered], lockMap := st.lockMap + {id})
    case EnterMonitor(id) => st.(callers := st.callers[id := Locked], monitors := st.monitors[id := Caller])
    case Invoke(id) => st.(callers := st.callers[id := Invoked], outstanding := st.outstanding + {id})
    case Wait(id) => st.(callers := st.callers[id := Waiting], monitors := st.monitors - {id})
    case Reacquire(id) => st.(callers := st.callers[id := Woken])
    case Unregister(id) => st.(callers := st.callers[id := Unregistered], lockMap := st.lockMap - {id})
    case Collect(id) =>
      st.(callers := st.callers[id := Collected],
          returned := st.returned[id := if id in st.resultMap then Some(st.resultMap[id]) else None])
    case Clear(id) => st.(callers := st.callers[id := Done], resultMap := st.resultMap - {id})
    case Interrupt(id) => st.(callers := st.callers[id := Interrupted])
    case Abandon(id) => st.(callers := st.callers[id := GaveUp], lockMap := st.lockMap - {id})
    case TakeAnswer(id, o) =>
      st.(completer := Looking(id, o), outstanding := st.outstanding - {id}, answers := st.answers[id := o])
    case LookUp =>
      st.(completer := if st.completer.id in st.lockMap then Found(st.completer.id, st.completer.outcome) else Idle)
    case Store =>
      st.(completer := Stored(st.completer.id), resultMap := st.resultMap[st.completer.id := st.completer.outcome])
    case EnterNotify =>
      st.(completer := Notifying(st.completer.id), monitors := st.monitors[st.completer.id := Completer])
    case Notify =>
      st.(completer := Leaving(st.completer.id),
          callers := if IsAt(st, st.completer.id, Waiting) then st.callers[st.completer.id := Notified] else st.callers)
    case Leave => st.(completer := Idle, monitors := st.monitors - {st.completer.id})
  }

  /** The completion thread is working on id and has not notified its caller yet. */
  predicate Answering(st: State, id: nat) {
    st.completer != Idle && !st.completer.Leaving? && st.completer.id == id
  }

  predicate Stocked(st: State, id: nat) {
    id in st.resultMap && id in st.answers && st.resultMap[id] == st.answers[id]
  }

  /** What must hold of call id, given where its caller stands. */
  ghost predicate CallInv(st: State, id: nat) {
    && (id in st.monitors && st.monitors[id] == Caller <==> IsAt(st, id, Locked) || IsAt(st, id, Invoked))
    && (id in st.monitors && st.monitors[id] == Completer <==> (st.completer.Notifying? || st.completer.Leaving?) && st.completer.id == id)
    && (id in st.resultMap ==> Stocked(st, id))
    && (id in st.returned ==> id in st.answers && st.returned[id] == Some(st.answers[id]))
    && (if id !in st.callers then
          id !in st.lockMap && id !in st.resultMap && id !in st.outstanding && !Answering(st, id) && id !in st.returned
          && (st.completer.Leaving? ==> st.completer.id != id)
        else match st.callers[id]
          case Begun => id !in st.lockMap && Unasked(st, id)
          case Registered => id in st.lockMap && Unasked(st, id)
          case Locked => id in st.lockMap && Unasked(st, id)
          case Invoked => id in st.lockMap && Asked(st, id) && id !in st.returned
          case Waiting => id in st.lockMap && Asked(st, id) && id !in st.returned
          case Notified => id in st.lockMap && Served(st, id) && id !in st.returned
          case Woken => id in st.lockMap && Served(st, id) && id !in st.returned
          case Unregistered => id !in st.lockMap && Served(st, id) && id !in st.returned
          case Collected => id !in st.lockMap && Served(st, id)
          case Done => id !in st.lockMap && id !in st.resultMap && id !in st.outstanding && !Answering(st, id)
          case Interrupted => id in st.lockMap && Orphaned(st, id) && id !in st.returned
          case GaveUp => id !in st.lockMap && Orphaned(st, id) && id !in st.returned)
  }

  ghost predicate Unasked(st: State, id: nat) {
    id !in st.resultMap && id !in st.outstanding && !Answering(st, id) && id !in st.returned
    && (st.completer.Leaving? ==> st.completer.id != id)
  }

  /** The completion thread carries this call's own answer. */
  ghost predicate UnderWay(st: State, id: nat) {
    && id in st.answers
    && (st.completer.Looking? || st.completer.Found? ==> st.completer.outcome == st.answers[id] && id !in st.resultMap)
  }

  /** No lost wakeup: until the caller is notified, its answer is still on the way to it. */
  ghost predicate Asked(st: State, id: nat) {
    && ((id in st.outstanding) != Answering(st, id))
    && (st.completer.Leaving? ==> st.completer.id != id)
    && (id in st.outstanding ==> id !in st.resultMap)
    && (Answering(st, id) ==> UnderWay(st, id) && (st.completer.Stored? || st.completer.Notifying? ==> id in st.resultMap))
  }

  ghost predicate Served(st: State, id: nat) {
    Stocked(st, id) && id !in st.outstanding && !Answering(st, id)
  }

  /** An interrupted call: its answer may still arrive, and find its lock or not. */
  ghost predicate Orphaned(st: State, id: nat) {
    && (id in st.outstanding ==> !Answering(st, id) && id !in st.resultMap)
    && (Answering(st, id) ==> UnderWay(st, id))
  }

  ghost predicate Inv(st: State) {
    forall id :: CallInv(st, id)
  }

  /** A step concerns one call. */
  function Subject(st: State, a: Action): nat
    requires Enabled(st, a)
  {
    match a
    case LookUp => st.completer.id
    case Store => st.completer.id
    case EnterNotify => st.completer.id
    case Notify => st.completer.id
    case Leave => st.completer.id
    case _ => a.id
  }

  predicate ByCompleter(a: Action) {
    a.TakeAnswer? || a.LookUp? || a.Store? || a.EnterNotify? || a.Notify? || a.Leave?
  }

  lemma CallerKeepsItsCall(st: State, a: Action)
    requires Enabled(st, a) && CallInv(st, Subject(st, a)) && !ByCompleter(a)
    ensures CallInv(Next(st, a), Subject(st, a))
  {
  }

  lemma CompleterKeepsItsCall(st: State, a: Action)
    requires Enabled(st, a) && CallInv(st, Subject(st, a)) && ByCompleter(a)
    ensures CallInv(Next(st, a), Subject(st, a))
  {
  }

  /** Everything recorded about call id, the completion thread apart, is the same in both states. */
  ghost predicate SameFor(st: State, st': State, id: nat) {
    && (id in st'.callers <==> id in st.callers) && (id in st.callers ==> st'.callers[id] == st.callers[id])
    && (id in st'.lockMap <==> id in st.lockMap)
    && (id in st'.resultMap <==> id in st.resultMap) && (id in st.resultMap ==> st'.resultMap[id] == st.resultMap[id])
    && (id in st'.monitors <==> id in st.monitors) && (id in st.monitors ==> st'.monitors[id] == st.monitors[id])
    && (id in st'.outstanding <==> id in st.outstanding)
    && (id in st'.answers <==> id in st.answers) && (id in st.answers ==> st'.answers[id] == st.answers[id])
    && (id in st'.returned <==> id in st.returned) && (id in st.returned ==> st'.returned[id] == st.returned[id])
  }

  lemma OthersUnchanged(st: State, a: Action, id: nat)
    requires Enabled(st, a) && id != Subject(st, a) && !ByCompleter(a)
    ensures SameFor(st, Next(st, a), id) && Next(st, a).completer == st.completer
  {
  }

  lemma CallInvFrame(st: State, st': State, id: nat)
    requires CallInv(st, id) && SameFor(st, st', id) && st'.completer == st.completer
    ensures CallInv(st', id)
  {
  }

  lemma CallersKeepOthers(st: State, a: Action, id: nat)
    requires Enabled(st, a) && CallInv(st, id) && id != Subject(st, a) && !ByCompleter(a)
    ensures CallInv(Next(st, a), id)
  {
    OthersUnchanged(st, a, id);
    hide Next, Enabled, CallInv, SameFor;
    CallInvFrame(st, Next(st, a), id);
  }

  lemma CompleterKeepsOthers(st: State, a: Action, id: nat)
    requires Enabled(st, a) && CallInv(st, id) && id != Subject(st, a) && ByCompleter(a)
    ensures CallInv(Next(st, a), id)
  {
  }

  lemma NextKeepsInv(st: State, a: Action)
    requires Inv(st) && Enabled(st, a)
    ensures Inv(Next(st, a))
  {
    hide CallInv;
    forall id ensures CallInv(Next(st, a), id) {
      assert CallInv(st, id) && CallInv(st, Subject(st, a));
      if ByCompleter(a) {
        if id == Subject(st, a) { CompleterKeepsItsCall(st, a); } else { CompleterKeepsOthers(st, a, id); }
      } else {
        if id == Subject(st, a) { CallerKeepsItsCall(st, a); } else { CallersKeepOthers(st, a, id); }
      }
    }
  }

  ghost predicate Reaches(st: State, as_: seq<Action>, st': State)
    decreases |as_|
  {
    if as_ == [] then st' == st
    else Enabled(st, as_[0]) && Reaches(Next(st, as_[0]), as_[1..], st')
  }

  lemma {:induction false} RunKeepsInv(st: State, as_: seq<Action>, st': State)
    requires Inv(st) && Reaches(st, as_, st')
    ensures Inv(st')
    decreases |as_|
  {
    hide Inv, Next, Enabled;
    if as_ != [] {
      NextKeepsInv(st, as_[0]);
      RunKeepsInv(Next(st, as_[0]), as_[1..], st');
    }
  }

  /** Over every interleaving of any number of callers, interrupts included: every result collected is
      the answer to the caller's own call (never null); a finished call has no lock registered; and while
      a caller waits its answer is on the way: with the RIL, or in the completion thread's hands. */
  lemma Safety(as_: seq<Action>, st: State, id: nat)
    requires Reaches(Start, as_, st)
    ensures id in st.returned ==> id in st.answers && st.returned[id] == Some(st.answers[id])
    ensures id in st.lockMap ==> id in st.callers && st.callers[id] !in {Done, GaveUp}
    ensures id in st.resultMap ==> id in st.callers && st.callers[id] != Done
    ensures IsAt(st, id, Woken) ==> id in st.resultMap && id in st.answers && st.resultMap[id] == st.answers[id]
    ensures IsAt(st, id, Waiting) ==> id in st.outstanding || Answering(st, id)
  {
    RunKeepsInv(Start, as_, st);
    assert CallInv(st, id);
  }

  /* What the maps hold. */

  ghost predicate InProgress(st: State, id: nat) {
    id in st.callers && st.callers[id] !in {Done, Interrupted, GaveUp}
  }

  ghost predicate Interrupts(as_: seq<Action>) {
    exists i :: 0 <= i < |as_| && as_[i].Interrupt?
  }

  lemma NoGivingUpStep(st: State, a: Action, id: nat)
    requires Enabled(st, a) && !a.Interrupt? && !IsAt(st, id, Interrupted) && !IsAt(st, id, GaveUp)
    ensures !IsAt(Next(st, a), id, Interrupted) && !IsAt(Next(st, a), id, GaveUp)
  {
  }

  lemma {:induction false} NobodyGaveUp(st: State, as_: seq<Action>, st': State, id: nat)
    requires Reaches(st, as_, st') && !Interrupts(as_) && !IsAt(st, id, Interrupted) && !IsAt(st, id, GaveUp)
    ensures !IsAt(st', id, Interrupted) && !IsAt(st', id, GaveUp)
    decreases |as_|
  {
    if as_ != [] {
      assert !as_[0].Interrupt?;
      assert forall i :: 0 <= i < |as_| - 1 ==> as_[1..][i] == as_[i + 1];
      NoGivingUpStep(st, as_[0], id);
      hide Next, Enabled;
      NobodyGaveUp(Next(st, as_[0]), as_[1..], st', id);
    }
  }

  /** On every run without interrupts both maps hold entries only for calls in progress. */
  lemma MapsHoldCallsInProgress(as_: seq<Action>, st: State, id: nat)
    requires Reaches(Start, as_, st) && !Interrupts(as_) && (id in st.lockMap || id in st.resultMap)
    ensures InProgress(st, id)
  {
    RunKeepsInv(Start, as_, st);
    assert CallInv(st, id);
    NobodyGaveUp(Start, as_, st, id);
  }

  /** The result of a call that gave up is on file, or about to be: the completion thread looked its lock
      up in time. */
  predicate Leaking(st: State, id: nat) {
    id in st.resultMap || (st.completer.Found? && st.completer.id == id)
  }

  lemma LeakingStep(st: State, a: Action, id: nat)
    requires CallInv(st, id) && IsAt(st, id, GaveUp) && Enabled(st, a)
    ensures IsAt(Next(st, a), id, GaveUp) && (Leaking(Next(st, a), id) <==> Leaking(st, id))
  {
  }

  /** With interrupts, the exact condition: once the completion thread is not at work on it, a call that
      gave up leaves its result on file if and only if, when it gave up, that thread had already stored
      the result or found the lock to store it under. */
  lemma {:induction false} LeaksIff(st: State, as_: seq<Action>, st': State, id: nat)
    requires Inv(st) && IsAt(st, id, GaveUp) && Reaches(st, as_, st') && !Answering(st', id)
    ensures IsAt(st', id, GaveUp)
    ensures id in st'.resultMap <==> id in st.resultMap || (st.completer.Found? && st.completer.id == id)
    decreases |as_|
  {
    if as_ != [] {
      assert CallInv(st, id);
      NextKeepsInv(st, as_[0]);
      LeakingStep(st, as_[0], id);
      hide Inv, CallInv, Next, Enabled;
      LeaksIff(Next(st, as_[0]), as_[1..], st', id);
    }
  }

  /** A whole schedule, from the start: the interrupt falls after the lock was looked up (early) or after
      the result was stored, and before the caller is notified. */
  function LeakingSchedule(id: nat, outcome: Outcome, early: bool): seq<Action> {
    [Begin(id), Register(id), EnterMonitor(id), Invoke(id), Wait(id), TakeAnswer(id, outcome), LookUp] +
    if early then [Interrupt(id), Abandon(id), Store] else [Store, Interrupt(id), Abandon(id)]
  }

  /** A result left behind by an interrupted call is never removed. */
  lemma {:induction false} LeakIsPermanent(st: State, as_: seq<Action>, st': State, id: nat)
    requires Reaches(st, as_, st') && IsAt(st, id, GaveUp) && id in st.resultMap
    ensures IsAt(st', id, GaveUp) && id in st'.resultMap
    decreases |as_|
  {
    if as_ != [] {
      LeakIsPermanent(Next(st, as_[0]), as_[1..], st', id);
    }
  }

  lemma ReachesCons(st: State, a: Action, rest: seq<Action>, st': State)
    requires Enabled(st, a) && Reaches(Next(st, a), rest, st')
    ensures Reaches(st, [a] + rest, st')
  {
    assert ([a] + rest)[1..] == rest;
  }

  lemma {:induction false} ReachesConcat(a: State, p: seq<Action>, b: State, q: seq<Action>, c: State)
    requires Reaches(a, p, b) && Reaches(b, q, c)
    ensures Reaches(a, p + q, c)
    decreases |p|
  {
    if p == [] {
      assert p + q == q;
    } else {
      assert (p + q)[0] == p[0] && (p + q)[1..] == p[1..] + q;
      ReachesConcat(Next(a, p[0]), p[1..], b, q, c);
    }
  }

  /** A single call, in its monitor; waiting; and with its lock just found by the completion thread. */
  function JustLocked(id: nat): State {
    State(map[id := Locked], Idle, {id}, map[], map[id := Caller], {}, map[], map[])
  }

  function JustWaiting(id: nat): State {
    State(map[id := CallerAt.Waiting], Idle, {id}, map[], map[], {id}, map[], map[])
  }

  function JustFound(id: nat, outcome: Outcome): State {
    State(map[id := CallerAt.Waiting], Found(id, outcome), {id}, map[], map[], {}, map[id := outcome], map[])
  }

  lemma LockedIsReachable(id: nat)
    ensures Reaches(Start, [Begin(id), Register(id), EnterMonitor(id)], JustLocked(id))
  {
    hide Reaches;
    var s1 := Next(Start, Begin(id));
    var s2 := Next(s1, Register(id));
    var s3 := Next(s2, EnterMonitor(id));
    assert s3 == JustLocked(id);
    ReachesThree(Start, Begin(id), s1, Register(id), s2, EnterMonitor(id), s3);
  }

  lemma FoundIsReachable(id: nat, outcome: Outcome)
    ensures Reaches(JustLocked(id), [Invoke(id), Wait(id)] + [TakeAnswer(id, outcome), LookUp], JustFound(id, outcome))
  {
    hide Reaches;
    var s1 := Next(JustLocked(id), Invoke(id));
    assert Next(s1, Wait(id)) == JustWaiting(id);
    ReachesTwo(JustLocked(id), Invoke(id), s1, Wait(id), JustWaiting(id));
    var s2 := Next(JustWaiting(id), TakeAnswer(id, outcome));
    assert Next(s2, LookUp) == JustFound(id, outcome);
    ReachesTwo(JustWaiting(id), TakeAnswer(id, outcome), s2, LookUp, JustFound(id, outcome));
    hide Next, Enabled;
    ReachesConcat(JustLocked(id), [Invoke(id), Wait(id)], JustWaiting(id), [TakeAnswer(id, outcome), LookUp], JustFound(id, outcome));
  }

  lemma ReachesTwo(s0: State, a: Action, s1: State, b: Action, s2: State)
    requires Enabled(s0, a) && Next(s0, a) == s1 && Enabled(s1, b) && Next(s1, b) == s2
    ensures Reaches(s0, [a, b], s2)
  {
    hide Next, Enabled;
    ReachesCons(s1, b, [], s2);
    ReachesCons(s0, a, [b], s2);
  }

  lemma ReachesThree(s0: State, a: Action, s1: State, b: Action, s2: State, c: Action, s3: State)
    requires Enabled(s0, a) && Next(s0, a) == s1 && Enabled(s1, b) && Next(s1, b) == s2 && Enabled(s2, c) && Next(s2, c) == s3
    ensures Reaches(s0, [a, b, c], s3)
  {
    hide Next, Enabled;
    ReachesTwo(s1, b, s2, c, s3);
    ReachesCons(s0, a, [b, c], s3);
  }

  function JustNotified(id: nat, outcome: Outcome): State {
    State(map[id := CallerAt.Notified], Idle, {id}, map[id := outcome], map[], {}, map[id := outcome], map[])
  }

  lemma NotifiedIsReachable(id: nat, outcome: Outcome)
    ensures Reaches(JustFound(id, outcome), [Store, EnterNotify] + [Notify, Leave], JustNotified(id, outcome))
  {
    hide Reaches;
    var s1 := Next(JustFound(id, outcome), Store);
    var s2 := Next(s1, EnterNotify);
    var s3 := Next(s2, Notify);
    assert Next(s3, Leave) == JustNotified(id, outcome);
    ReachesTwo(JustFound(id, outcome), Store, s1, EnterNotify, s2);
    ReachesTwo(s2, Notify, s3, Leave, JustNotified(id, outcome));
    hide Next, Enabled;
    ReachesConcat(JustFound(id, outcome), [Store, EnterNotify], s2, [Notify, Leave], JustNotified(id, outcome));
  }

  lemma DoneIsReachable(id: nat, outcome: Outcome) returns (st: State)
    ensures Reaches(JustNotified(id, outcome), [Reacquire(id), Unregister(id)] + [Collect(id), Clear(id)], st)
    ensures st == State(map[id := Done], Idle, {}, map[], map[], {}, map[id := outcome], map[id := Some(outcome)])
  {
    hide Reaches;
    var s1 := Next(JustNotified(id, outcome), Reacquire(id));
    var s2 := Next(s1, Unregister(id));
    var s3 := Next(s2, Collect(id));
    st := Next(s3, Clear(id));
    ReachesTwo(JustNotified(id, outcome), Reacquire(id), s1, Unregister(id), s2);
    ReachesTwo(s2, Collect(id), s3, Clear(id), st);
    assert st.callers == map[id := Done] && st.resultMap == map[] && st.lockMap == {};
    hide Next, Enabled;
    ReachesConcat(JustNotified(id, outcome), [Reacquire(id), Unregister(id)], s2, [Collect(id), Clear(id)], st);
  }

  /** A whole call, from the start to its result, with both maps empty again. */
  lemma CallRuns(id: nat, outcome: Outcome) returns (st: State)
    ensures Reaches(Start, [Begin(id), Register(id), EnterMonitor(id)] + ([Invoke(id), Wait(id)] + [TakeAnswer(id, outcome), LookUp]
                           + ([Store, EnterNotify] + [Notify, Leave] + ([Reacquire(id), Unregister(id)] + [Collect(id), Clear(id)]))), st)
    ensures st == State(map[id := Done], Idle, {}, map[], map[], {}, map[id := outcome], map[id := Some(outcome)])
  {
    LockedIsReachable(id);
    FoundIsReachable(id, outcome);
    NotifiedIsReachable(id, outcome);
    st := DoneIsReachable(id, outcome);
    hide Next, Enabled, Reaches, JustLocked, JustFound, JustNotified;
    var p2, p3 := [Invoke(id), Wait(id)] + [TakeAnswer(id, outcome), LookUp], [Store, EnterNotify] + [Notify, Leave];
    var p4 := [Reacquire(id), Unregister(id)] + [Collect(id), Clear(id)];
    ReachesConcat(JustFound(id, outcome), p3, JustNotified(id, outcome), p4, st);
    ReachesConcat(JustLocked(id), p2, JustFound(id, outcome), p3 + p4, st);
    ReachesConcat(Start, [Begin(id), Register(id), EnterMonitor(id)], JustLocked(id), p2 + (p3 + p4), st);
  }

  lemma LeakingEnd(id: nat, outcome: Outcome, early: bool) returns (st: State)
    ensures var end := if early then [Interrupt(id), Abandon(id), Store] else [Store, Interrupt(id), Abandon(id)];
            Reaches(JustFound(id, outcome), end, st)
    ensures IsAt(st, id, GaveUp) && id in st.resultMap
  {
    var s0 := JustFound(id, outcome);
    var p := if early then [Interrupt(id), Abandon(id), Store] else [Store, Interrupt(id), Abandon(id)];
    var s1 := Next(s0, p[0]);
    var s2 := Next(s1, p[1]);
    st := Next(s2, p[2]);
    ReachesThree(s0, p[0], s1, p[1], s2, p[2], st);
  }

  /** Interrupts do leave results behind for good: the schedule is a run, at its end the call has given up
      with its result on file, and the result is there after every further run. */
  lemma InterruptLeaks(id: nat, outcome: Outcome, early: bool) returns (st: State)
    ensures Reaches(Start, LeakingSchedule(id, outcome, early), st)
    ensures IsAt(st, id, GaveUp) && id in st.resultMap
    ensures forall later, st' :: Reaches(st, later, st') ==> id in st'.resultMap
  {
    LockedIsReachable(id);
    FoundIsReachable(id, outcome);
    st := LeakingEnd(id, outcome, early);
    hide Next, Enabled, JustFound, JustLocked;
    var begin, found := [Begin(id), Register(id), EnterMonitor(id)], [Invoke(id), Wait(id)] + [TakeAnswer(id, outcome), LookUp];
    var end := if early then [Interrupt(id), Abandon(id), Store] else [Store, Interrupt(id), Abandon(id)];
    ReachesConcat(Start, begin, JustLocked(id), found, JustFound(id, outcome));
    ReachesConcat(Start, begin + found, JustFound(id, outcome), end, st);
    assert LeakingSchedule(id, outcome, early) == begin + found + end;
    forall later, st' | Reaches(st, later, st') ensures id in st'.resultMap {
      LeakIsPermanent(st, later, st', id);
    }
  }

  /** The step the completion thread takes next. */
  function CompleterStep(c: CompleterAt): Action
    requires c != Idle
  {
    match c
    case Looking(_, _) => LookUp
    case Found(_, _) => Store
    case Stored(_) => EnterNotify
    case Notifying(_) => Notify
    case Leaving(_) => Leave
  }

  /* No lost wakeup and no deadlock. */

  /** The step that gets the completion thread on: its own, or that of the caller, on its way into wait,
      that holds the monitor it needs. */
  function Unblocking(st: State): Action
    requires st.completer != Idle
  {
    var c := st.completer;
    if c.Stored? && IsAt(st, c.id, Locked) then Invoke(c.id)
    else if c.Stored? && IsAt(st, c.id, Invoked) then Wait(c.id)
    else CompleterStep(c)
  }

  /** A bound on the steps until the completion thread is idle. */
  function Remaining(st: State): nat {
    match st.completer
    case Idle => 0
    case Leaving(_) => 1
    case Notifying(_) => 2
    case Stored(id) => if IsAt(st, id, Locked) then 5 else if IsAt(st, id, Invoked) then 4 else 3
    case Found(_, _) => 6
    case Looking(_, _) => 7
  }

  /** The caller waits, or has been notified. */
  predicate Asleep(st: State, id: nat) {
    IsAt(st, id, Waiting) || IsAt(st, id, Notified)
  }

  /** The completion thread is never stuck, and serving another call does not touch this caller's. */
  lemma UnblockingStep(st: State, id: nat)
    requires Inv(st) && st.completer != Idle && Asleep(st, id)
    ensures Enabled(st, Unblocking(st))
    ensures var s1 := Next(st, Unblocking(st));
            && Remaining(s1) < Remaining(st) && Asleep(s1, id)
            && (id in s1.outstanding <==> id in st.outstanding)
            && (id in st.answers ==> id in s1.answers && s1.answers[id] == st.answers[id])
  {
    assert CallInv(st, id) && CallInv(st, st.completer.id);
  }

  /** From any state in which a caller sleeps, at most seven steps make the completion thread idle. */
  lemma {:induction false} Drain(st: State, id: nat) returns (as_: seq<Action>, st': State)
    requires Inv(st) && Asleep(st, id)
    ensures Reaches(st, as_, st') && |as_| <= Remaining(st) && Inv(st') && st'.completer == Idle
    ensures Asleep(st', id) && (id in st'.outstanding <==> id in st.outstanding)
    ensures id in st.answers ==> id in st'.answers && st'.answers[id] == st.answers[id]
    decreases Remaining(st)
  {
    as_, st' := [], st;
    if st.completer != Idle {
      var a := Unblocking(st);
      UnblockingStep(st, id);
      NextKeepsInv(st, a);
      hide Inv, Next, Enabled, Unblocking, Remaining;
      as_, st' := Drain(Next(st, a), id);
      ReachesCons(st, a, as_, st');
      as_ := [a] + as_;
    }
  }

  /** The completion thread, idle, takes up this call's answer and delivers it. */
  lemma Serve(st: State, id: nat, outcome: Outcome) returns (as_: seq<Action>, st': State)
    requires Inv(st) && IsAt(st, id, Waiting) && st.completer == Idle
    ensures Reaches(st, as_, st') && |as_| <= 8 && Inv(st') && st'.completer == Idle && IsAt(st', id, Notified)
    ensures id in st.outstanding && id in st'.answers && st'.answers[id] == outcome
  {
    assert CallInv(st, id);
    var s1 := Next(st, TakeAnswer(id, outcome));
    NextKeepsInv(st, TakeAnswer(id, outcome));
    as_, st' := Drain(s1, id);
    assert CallInv(st', id);
    ReachesCons(st, TakeAnswer(id, outcome), as_, st');
    as_ := [TakeAnswer(id, outcome)] + as_;
  }

  /** A notified caller gets its monitor back and collects its own answer. */
  lemma CollectSteps(st: State, id: nat) returns (st': State)
    requires Inv(st) && IsAt(st, id, Notified) && st.completer == Idle
    ensures Reaches(st, [Reacquire(id), Unregister(id), Collect(id)], st') && IsAt(st', id, Collected)
    ensures id in st.answers && id in st'.returned && st'.returned[id] == Some(st.answers[id])
  {
    assert CallInv(st, id);
    hide Inv;
    var s1 := Next(st, Reacquire(id));
    var s2 := Next(s1, Unregister(id));
    st' := Next(s2, Collect(id));
    hide CallInv, Reaches;
    ReachesThree(st, Reacquire(id), s1, Unregister(id), s2, Collect(id), st');
  }

  lemma WaitsIffOutstanding(st: State, id: nat)
    requires Inv(st) && st.completer == Idle && Asleep(st, id)
    ensures IsAt(st, id, Waiting) <==> id in st.outstanding
  {
    assert CallInv(st, id);
  }

  /** The completion thread is idle: it serves this caller if that is still to do, and the caller collects. */
  lemma Deliver(st: State, id: nat, outcome: Outcome) returns (as_: seq<Action>, st': State)
    requires Inv(st) && st.completer == Idle && Asleep(st, id)
    ensures Reaches(st, as_, st') && |as_| <= 11 && IsAt(st', id, Collected)
    ensures id in st.outstanding || id in st.answers
    ensures id in st'.returned && st'.returned[id] == Some(if id in st.outstanding then outcome else st.answers[id])
  {
    WaitsIffOutstanding(st, id);
    hide Inv, CallInv, Next, Enabled, Reaches;
    if IsAt(st, id, Waiting) {
      var notified: State;
      as_, notified := Serve(st, id, outcome);
      st' := CollectSteps(notified, id);
      ReachesConcat(st, as_, notified, [Reacquire(id), Unregister(id), Collect(id)], st');
      as_ := as_ + [Reacquire(id), Unregister(id), Collect(id)];
    } else {
      as_ := [Reacquire(id), Unregister(id), Collect(id)];
      st' := CollectSteps(st, id);
    }
  }

  /** From every reachable wait, whatever the completion thread is doing for whom and however many other
      callers there are, at most 18 steps bring this caller to its own answer: the one already under
      way, or the one the RIL gives. */
  lemma EveryWaitCanEnd(before: seq<Action>, st: State, id: nat, outcome: Outcome) returns (as_: seq<Action>, st': State)
    requires Reaches(Start, before, st) && IsAt(st, id, Waiting)
    ensures Reaches(st, as_, st') && |as_| <= 18 && IsAt(st', id, Collected)
    ensures id in st.outstanding || id in st.answers
    ensures id in st'.returned && st'.returned[id] == Some(if id in st.outstanding then outcome else st.answers[id])
  {
    RunKeepsInv(Start, before, st);
    assert id in st.outstanding || id in st.answers by { assert CallInv(st, id); }
    hide Inv, CallInv, Next, Enabled, Reaches;
    var first, idle := Drain(st, id);
    var second;
    second, st' := Deliver(idle, id, outcome);
    ReachesConcat(st, first, idle, second, st');
    as_ := first + second;
  }

  /** The completion thread, idle or not, can get on. */
  lemma WaitingIsNotStuck(as_: seq<Action>, st: State, id: nat, outcome: Outcome)
    requires Reaches(Start, as_, st) && IsAt(st, id, Waiting)
    ensures if st.completer == Idle then Enabled(st, TakeAnswer(id, outcome)) else Enabled(st, Unblocking(st))
  {
    RunKeepsInv(Start, as_, st);
    assert CallInv(st, id);
    if st.completer != Idle { UnblockingStep(st, id); }
  }
}
