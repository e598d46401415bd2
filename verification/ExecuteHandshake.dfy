/** RIL::execute against the worker thread: a recursive mutex and a semaphore, as interleaved steps of
    one requester thread and the IPC worker. */
module ExecuteHandshake {
  import opened Bytes

  type Reply = nat

  datatype Thread = Requester | Worker

  /** A recursive mutex: who holds it, how deep. */
  datatype Mutex = Mutex(owner: Option<Thread>, depth: nat) {
    predicate Available(t: Thread) {
      owner == None || owner == Some(t)
    }

    function Lock(t: Thread): Mutex
      requires Available(t)
    {
      Mutex(Some(t), depth + 1)
    }

    function Unlock(): Mutex
      requires depth > 0
    {
      if depth == 1 then Mutex(None, 0) else Mutex(owner, depth - 1)
    }
  }

  /** Where the requester stands: outside, inside a handler, or at a line of execute. */
  datatype RequesterAt =
    | Outside
    | InHandler
    | Unlocked(id: nat)    // unlockRIL done
    | Waiting(id: nat)     // message submitted, in m_executeSemaphore.take()
    | Taken(id: nat)       // semaphore taken, about to lockRIL

  datatype WorkerAt =
    | Dispatching
    | Completing(id: nat)  // onExecutionComplete has stored the reply, about to give()
    | Entering             // an asynchronous completion or unsolicited handler, about to lock
    | Inside               // that handler, holding the mutex

  /** inFlight holds the messages not yet completed; true marks those subscribed by execute. slot is the
      ExecutionData on the requester's stack. replies and returned are history. */
  datatype State = State(
    mutex: Mutex,
    semaphore: nat,
    requester: RequesterAt,
    worker: WorkerAt,
    inFlight: map<nat, bool>,
    slot: Option<Reply>,
    replies: map<nat, Reply>,
    returned: seq<(nat, Reply)>)

  datatype Action =
    | EnterHandler | LeaveHandler | SubmitAsync(asyncId: nat)
    | ExecuteUnlock(newId: nat) | ExecuteSubmit | ExecuteTake | ExecuteLock
    | CompleteSync(syncId: nat, reply: Reply) | Give
    | BeginAsync(doneId: nat) | BeginUnsolicited | WorkerLock | WorkerUnlock

  predicate Fresh(st: State, id: nat) {
    id !in st.inFlight && id !in st.replies
  }

  predicate Enabled(st: State, a: Action) {
    match a
    case EnterHandler => st.requester == Outside && st.mutex.Available(Requester)
    case LeaveHandler => st.requester == InHandler && st.mutex.depth > 0
    case SubmitAsync(id) => st.requester == InHandler && Fresh(st, id)
    case ExecuteUnlock(id) => st.requester == InHandler && st.mutex.depth > 0 && Fresh(st, id)
    case ExecuteSubmit => st.requester.Unlocked?
    case ExecuteTake => st.requester.Waiting? && st.semaphore > 0
    case ExecuteLock => st.requester.Taken? && st.mutex.Available(Requester) && st.slot.Some?
    case CompleteSync(id, _) => st.worker == Dispatching && id in st.inFlight && st.inFlight[id]
    case Give => st.worker.Completing?
    case BeginAsync(id) => st.worker == Dispatching && id in st.inFlight && !st.inFlight[id]
    case BeginUnsolicited => st.worker == Dispatching
    case WorkerLock => st.worker == Entering && st.mutex.Available(Worker)
    case WorkerUnlock => st.worker == Inside && st.mutex.depth > 0
  }

  function Next(st: State, a: Action): State
    requires Enabled(st, a)
  {
    match a
    case EnterHandler => st.(mutex := st.mutex.Lock(Requester), requester := InHandler)
    case LeaveHandler => st.(mutex := st.mutex.Unlock(), requester := Outside)
    case SubmitAsync(id) => st.(inFlight := st.inFlight[id := false])
    case ExecuteUnlock(id) => st.(mutex := st.mutex.Unlock(), requester := Unlocked(id), slot := None)
    case ExecuteSubmit => st.(inFlight := st.inFlight[st.requester.id := true], requester := Waiting(st.requester.id))
    case ExecuteTake => st.(semaphore := st.semaphore - 1, requester := Taken(st.requester.id))
    case ExecuteLock =>
      st.(mutex := st.mutex.Lock(Requester), requester := InHandler,
          returned := st.returned + [(st.requester.id, st.slot.value)])
    case CompleteSync(id, reply) =>
      st.(inFlight := st.inFlight - {id}, slot := Some(reply), replies := st.replies[id := reply], worker := Completing(id))
    case Give => st.(semaphore := st.semaphore + 1, worker := Dispatching)
    case BeginAsync(id) => st.(inFlight := st.inFlight - {id}, worker := Entering)
    case BeginUnsolicited => st.(worker := Entering)
    case WorkerLock => st.(mutex := st.mutex.Lock(Worker), worker := Inside)
    case WorkerUnlock => st.(mutex := st.mutex.Unlock(), worker := Dispatching)
  }

  const Start: State := State(Mutex(None, 0), 0, Outside, Dispatching, map[], None, map[], [])

  /** The mutex is held, once, by whoever is inside; the semaphore and the slot carry the reply of the
      one execution under way. */
  ghost predicate Inv(st: State) {
    && st.mutex == (if st.requester == InHandler then Mutex(Some(Requester), 1)
                    else if st.worker == Inside then Mutex(Some(Worker), 1) else Mutex(None, 0))
    && !(st.requester == InHandler && st.worker == Inside)
    && (forall id :: id in st.inFlight && st.inFlight[id] ==> st.requester == Waiting(id))
    && (forall id :: id in st.inFlight ==> id !in st.replies)
    && (st.requester.Unlocked? ==> st.requester.id !in st.replies && st.requester.id !in st.inFlight)
    && Handshake(st)
    && (forall i :: 0 <= i < |st.returned| ==> st.returned[i].0 in st.replies && st.replies[st.returned[i].0] == st.returned[i].1)
  }

  /** The three stages of a wait: in flight, stored but not given, given but not taken. */
  ghost predicate Handshake(st: State) {
    match st.requester
    case Waiting(id) =>
      || (id in st.inFlight && st.inFlight[id] && st.semaphore == 0 && !st.worker.Completing?)
      || (Answered(st, id) && st.semaphore == 0 && st.worker == Completing(id))
      || (Answered(st, id) && st.semaphore == 1 && !st.worker.Completing?)
    case Taken(id) => Answered(st, id) && st.semaphore == 0 && !st.worker.Completing?
    case _ => st.semaphore == 0 && !st.worker.Completing?
  }

  ghost predicate Answered(st: State, id: nat) {
    id !in st.inFlight && id in st.replies && st.slot == Some(st.replies[id])
  }

  lemma NextKeepsInv(st: State, a: Action)
    requires Inv(st) && Enabled(st, a)
    ensures Inv(Next(st, a))
  {
  }

  /** st' is reached from st by a run of enabled steps. */
  ghost predicate Reaches(st: State, as_: seq<Action>, st': State)
    decreases |as_|
  {
    if as_ == [] then st' == st
    else Enabled(st, as_[0]) && Reaches(Next(st, as_[0]), as_[1..], st')
  }

  lemma {:induction false} RunKeepsInv(st: State, as_: seq<Action>, st': State)
    requires Inv(st) && Reaches(st, as_, st')
    ensures Inv(st')
    decreases |as_|
  {
    if as_ != [] {
      NextKeepsInv(st, as_[0]);
      RunKeepsInv(Next(st, as_[0]), as_[1..], st');
    }
  }

  /** Over every interleaving: a requester waiting on the semaphore does not hold the mutex, so a worker
      handler about to enter can; every execute that returned got the reply to its own message, with
      the mutex held exactly once again; and the semaphore never counts past one. */
  lemma Safety(as_: seq<Action>, st: State)
    requires Reaches(Start, as_, st)
    ensures st.requester.Waiting? ==> st.mutex.owner != Some(Requester) && (st.worker == Entering ==> Enabled(st, WorkerLock))
    ensures st.requester == InHandler ==> st.mutex == Mutex(Some(Requester), 1)
    ensures forall i :: 0 <= i < |st.returned| ==> st.returned[i].0 in st.replies && st.replies[st.returned[i].0] == st.returned[i].1
    ensures st.semaphore <= 1
  {
    RunKeepsInv(Start, as_, st);
  }

  /** The worker's way out of its current handler, if it is in one. */
  function UnblockSteps(st: State): seq<Action> {
    if st.worker == Entering then [WorkerLock, WorkerUnlock]
    else if st.worker == Inside then [WorkerUnlock] else []
  }

  /** What the worker has still to do about the reply, if the modem answers `reply`. */
  function AnswerSteps(st: State, reply: Reply): seq<Action>
    requires st.requester.Waiting?
  {
    if st.semaphore > 0 then []
    else if st.worker.Completing? then [Give] else [CompleteSync(st.requester.id, reply), Give]
  }

  /** What is left to do before execute returns. */
  function Schedule(st: State, reply: Reply): seq<Action>
    requires st.requester.Waiting?
  {
    UnblockSteps(st) + (AnswerSteps(st, reply) + [ExecuteTake, ExecuteLock])
  }

  /** No deadlock: from every reachable wait, at most six steps bring execute back into its handler
      with the reply to its message, whatever the worker was doing. */
  lemma ExecuteCanReturn(as_: seq<Action>, st: State, reply: Reply) returns (st': State)
    requires Reaches(Start, as_, st) && st.requester.Waiting?
    ensures |Schedule(st, reply)| <= 6
    ensures Reaches(st, Schedule(st, reply), st') && st'.requester == InHandler
    ensures |st'.returned| == |st.returned| + 1 && st'.returned[|st.returned|].0 == st.requester.id
    ensures st.requester.id in st.inFlight ==> st'.returned[|st.returned|].1 == reply
  {
    RunKeepsInv(Start, as_, st);
    hide Inv, Next, Enabled, Reaches;
    var last := [ExecuteTake, ExecuteLock];
    var s1 := Unblock(st, UnblockSteps(st));
    var s2 := Answer(s1, AnswerSteps(st, reply), reply);
    st' := TakeAndLock(s2, last);
    ReachesConcat(s1, AnswerSteps(st, reply), s2, last, st');
    ReachesConcat(st, UnblockSteps(st), s1, AnswerSteps(st, reply) + last, st');
  }

  /** The worker leaves its handler. */
  lemma Unblock(st: State, unblock: seq<Action>) returns (s1: State)
    requires Inv(st) && st.requester.Waiting?
    requires unblock == UnblockSteps(st)
    ensures Reaches(st, unblock, s1) && Inv(s1) && s1.requester == st.requester && s1.returned == st.returned
    ensures s1.inFlight == st.inFlight && s1.semaphore == st.semaphore
    ensures s1.worker == if st.worker in {Entering, Inside} then Dispatching else st.worker
  {
    s1 := st;
    if st.worker == Entering {
      NextKeepsInv(s1, WorkerLock);
      s1 := Next(s1, WorkerLock);
      assert unblock[1..] == [WorkerUnlock];
    }
    if s1.worker == Inside {
      NextKeepsInv(s1, WorkerUnlock);
      var s2 := Next(s1, WorkerUnlock);
      assert [WorkerUnlock][1..] == [] && Reaches(s2, [], s2) && Reaches(s1, [WorkerUnlock], s2);
      s1 := s2;
    }
  }

  /** The worker stores the reply and gives the semaphore, as far as that is still to do. */
  lemma Answer(st: State, answer: seq<Action>, reply: Reply) returns (s1: State)
    requires Inv(st) && st.requester.Waiting? && st.worker !in {Entering, Inside}
    requires answer == AnswerSteps(st, reply)
    ensures Reaches(st, answer, s1) && Inv(s1) && s1.requester == st.requester && s1.returned == st.returned
    ensures s1.semaphore == 1 && s1.worker == Dispatching && s1.slot.Some?
    ensures st.requester.id in st.inFlight ==> s1.slot == Some(reply)
  {
    s1 := st;
    if st.semaphore == 0 && !st.worker.Completing? {
      NextKeepsInv(s1, CompleteSync(st.requester.id, reply));
      s1 := Next(s1, CompleteSync(st.requester.id, reply));
      assert answer[1..] == [Give];
    }
    if s1.worker.Completing? {
      NextKeepsInv(s1, Give);
      var s2 := Next(s1, Give);
      assert [Give][1..] == [] && Reaches(s2, [], s2) && Reaches(s1, [Give], s2);
      s1 := s2;
    }
  }

  /** The requester takes the semaphore and locks again. */
  lemma TakeAndLock(st: State, last: seq<Action>) returns (s1: State)
    requires Inv(st) && st.requester.Waiting? && st.worker == Dispatching && st.semaphore == 1 && st.slot.Some?
    requires last == [ExecuteTake, ExecuteLock]
    ensures Reaches(st, last, s1) && s1.requester == InHandler
    ensures s1.returned == st.returned + [(st.requester.id, st.slot.value)]
  {
    var s0 := Next(st, ExecuteTake);
    s1 := Next(s0, ExecuteLock);
    assert last[1..] == [ExecuteLock] && last[1..][1..] == [];
    assert Reaches(s1, [], s1) && Reaches(s0, last[1..], s1);
  }

  lemma {:induction false} ReachesConcat(a: State, p: seq<Action>, b: State, q: seq<Action>, c: State)
    requires Reaches(a, p, b) && Reaches(b, q, c)
    ensures Reaches(a, p + q, c)
    decreases |p|
  {
    if p == [] {
      assert p + q == q;
    } else {
      assert (p + q)[0] == p[0] && (p + q)[1..] == p[1..] + q;
      ReachesConcat(Next(a, p[0]), p[1..], b, q, c);
    }
  }

  /* The interleavings are real. */

  lemma ReachesCons(st: State, a: Action, rest: seq<Action>, st': State)
    requires Enabled(st, a) && Reaches(Next(st, a), rest, st')
    ensures Reaches(st, [a] + rest, st')
  {
    assert ([a] + rest)[1..] == rest;
  }

  lemma ReachesThree(s0: State, a: Action, b: Action, c: Action)
    requires Enabled(s0, a) && Enabled(Next(s0, a), b) && Enabled(Next(Next(s0, a), b), c)
    ensures Reaches(s0, [a, b, c], Next(Next(Next(s0, a), b), c))
  {
    var s1 := Next(s0, a);
    var s2 := Next(s1, b);
    var s3 := Next(s2, c);
    hide Next, Enabled;
    assert Reaches(s3, [], s3);
    ReachesCons(s2, c, [], s3);
    ReachesCons(s1, b, [c], s3);
    ReachesCons(s0, a, [b, c], s3);
  }

  /** The requester has submitted an asynchronous message and left the handler for execute. */
  lemma IntoExecute(asyncId: nat, id: nat) returns (st: State)
    requires asyncId != id
    ensures Reaches(Start, [EnterHandler, SubmitAsync(asyncId), ExecuteUnlock(id)], st)
    ensures st == State(Mutex(None, 0), 0, Unlocked(id), Dispatching, map[asyncId := false], None, map[], [])
  {
    hide Reaches;
    ReachesThree(Start, EnterHandler, SubmitAsync(asyncId), ExecuteUnlock(id));
    st := Next(Next(Next(Start, EnterHandler), SubmitAsync(asyncId)), ExecuteUnlock(id));
  }

  /** While the requester waits, the worker completes the asynchronous message, holding the mutex. */
  lemma CompletesMeanwhile(asyncId: nat, id: nat) returns (st: State)
    requires asyncId != id
    ensures var s0 := State(Mutex(None, 0), 0, Unlocked(id), Dispatching, map[asyncId := false], None, map[], []);
            Reaches(s0, [ExecuteSubmit, BeginAsync(asyncId), WorkerLock], st)
    ensures st == State(Mutex(Some(Worker), 1), 0, Waiting(id), Inside, map[id := true], None, map[], [])
  {
    hide Reaches;
    var s0 := State(Mutex(None, 0), 0, Unlocked(id), Dispatching, map[asyncId := false], None, map[], []);
    ReachesThree(s0, ExecuteSubmit, BeginAsync(asyncId), WorkerLock);
    st := Next(Next(Next(s0, ExecuteSubmit), BeginAsync(asyncId)), WorkerLock);
    assert st.inFlight == map[id := true];
  }

  /** It leaves, and stores the reply to the waiting requester. */
  lemma RepliesThen(id: nat, reply: Reply) returns (st: State)
    ensures var s0 := State(Mutex(Some(Worker), 1), 0, Waiting(id), Inside, map[id := true], None, map[], []);
            Reaches(s0, [WorkerUnlock, CompleteSync(id, reply), Give], st)
    ensures st == State(Mutex(None, 0), 1, Waiting(id), Dispatching, map[], Some(reply), map[id := reply], [])
  {
    hide Reaches;
    var s0 := State(Mutex(Some(Worker), 1), 0, Waiting(id), Inside, map[id := true], None, map[], []);
    ReachesThree(s0, WorkerUnlock, CompleteSync(id, reply), Give);
    st := Next(Next(Next(s0, WorkerUnlock), CompleteSync(id, reply)), Give);
    assert st.inFlight == map[];
  }

  lemma ReturnsThen(id: nat, reply: Reply) returns (st: State)
    ensures var s0 := State(Mutex(None, 0), 1, Waiting(id), Dispatching, map[], Some(reply), map[id := reply], []);
            Reaches(s0, [ExecuteTake, ExecuteLock, LeaveHandler], st)
    ensures st == State(Mutex(None, 0), 0, Outside, Dispatching, map[], Some(reply), map[id := reply], [(id, reply)])
  {
    hide Reaches;
    var s0 := State(Mutex(None, 0), 1, Waiting(id), Dispatching, map[], Some(reply), map[id := reply], []);
    ReachesThree(s0, ExecuteTake, ExecuteLock, LeaveHandler);
    st := Next(Next(Next(s0, ExecuteTake), ExecuteLock), LeaveHandler);
  }

  /** A whole run: a handler submits an asynchronous message and executes another; the worker takes the
      mutex and completes the first while the requester waits, then replies; execute returns that reply and
      the handler ends with the mutex free and nothing in flight. */
  lemma ExecuteWhileWorkerRuns(asyncId: nat, id: nat, reply: Reply) returns (st: State)
    requires asyncId != id
    ensures Reaches(Start, [EnterHandler, SubmitAsync(asyncId), ExecuteUnlock(id)] + ([ExecuteSubmit, BeginAsync(asyncId), WorkerLock]
                           + ([WorkerUnlock, CompleteSync(id, reply), Give] + [ExecuteTake, ExecuteLock, LeaveHandler])), st)
    ensures st == State(Mutex(None, 0), 0, Outside, Dispatching, map[], Some(reply), map[id := reply], [(id, reply)])
  {
    hide Next, Enabled, Reaches;
    var a := IntoExecute(asyncId, id);
    var b := CompletesMeanwhile(asyncId, id);
    var c := RepliesThen(id, reply);
    st := ReturnsThen(id, reply);
    var p2, p3, p4 := [ExecuteSubmit, BeginAsync(asyncId), WorkerLock], [WorkerUnlock, CompleteSync(id, reply), Give], [ExecuteTake, ExecuteLock, LeaveHandler];
    ReachesConcat(b, p3, c, p4, st);
    ReachesConcat(a, p2, b, p3 + p4, st);
    ReachesConcat(Start, [EnterHandler, SubmitAsync(asyncId), ExecuteUnlock(id)], a, p2 + (p3 + p4), st);
  }
}
