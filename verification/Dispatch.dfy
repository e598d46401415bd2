/** Asynchronous RIL requests from the handler to their answer: the control pipe, the engine behind it
    and the completion functions, as interleaved steps of the requester and the worker thread. */
module Dispatch {
  import opened Bytes
  import opened Engine
  import opened EngineTheorems

  datatype Errno = Success | RadioNotAvailable | GenericFailure | PasswordIncorrect

  datatype RadioState = Unavailable | Off | Ready

  /** The requests that are answered by a completion function. */
  datatype Kind =
    | QueryAvailableNetworks
    | SetBandMode
    | SetPreferredNetworkType
    | SetNetworkSelection(plmnLength: nat)
    | RadioPower(wellFormed: bool, on: bool)

  datatype Request = Request(token: nat, kind: Kind)

  datatype Decision = AnswerNow(errno: Errno) | Post | PowerOffSynchronously

  /** What handle() and the request's handler do with it. */
  function Decide(r: Request, radio: RadioState, shutdown: bool): Decision {
    if radio == Unavailable || (radio == Off && !r.kind.RadioPower?) then AnswerNow(RadioNotAvailable)
    else match r.kind
      case SetNetworkSelection(n) => if n > 6 then AnswerNow(GenericFailure) else Post
      case RadioPower(wellFormed, on) =>
        if !wellFormed then AnswerNow(GenericFailure)
        else if (on && radio != Off) || (!on && radio == Off) then AnswerNow(Success)
        else if on || !shutdown then Post
        else PowerOffSynchronously
      case _ => Post
  }

  /** completeGenCommand: one answer, whichever branch is taken. */
  function GenCommandErrno(reply: Reply): Errno {
    if !reply.CommandComplete? then GenericFailure
    else if reply.status == 0x8000 then Success
    else if reply.status == 0x0010 then PasswordIncorrect
    else GenericFailure
  }

  /** The calls of Request::complete that a completion function makes on a reply. Others than the five
      answer no RIL request. */
  function CompletionCalls(f: CompletionFunction, reply: Reply): (calls: seq<Errno>)
    ensures |calls| == if f == OtherDone then 0 else 1
  {
    match f
    case OtherDone => []
    case NetworkScanDone => if reply.PlmnList? then [Success] else [GenericFailure]
    case _ => [GenCommandErrno(reply)]
  }

  function FunctionOf(k: Kind): CompletionFunction {
    match k
    case QueryAvailableNetworks => NetworkScanDone
    case SetBandMode => BandModeDone
    case SetPreferredNetworkType => NetworkModeDone
    case SetNetworkSelection(_) => PlmnSelectionDone
    case RadioPower(_, _) => PhonePowerDone
  }

  function MessageFor(r: Request): Message {
    Message(r.token, Some(Subscriber(FunctionOf(r.kind), r.token)), false, Some([]))
  }

  /** A call of Request::complete. */
  datatype Answer = Answer(token: nat, errno: Errno)

  /** pipe holds messages written to the control pipe; handled, early and posted record what the
      requester did; answers are all calls of Request::complete, in order. */
  datatype World = World(
    pipe: seq<Message>,
    engine: State,
    handled: seq<Request>,
    early: seq<Answer>,
    posted: seq<Message>,
    answers: seq<Answer>)

  datatype Action =
    | Handle(request: Request, radio: RadioState, shutdown: bool)
    | PostOther(message: Message)
    | ReadPipe
    | ReadSocket(frame: Received)

  const Start: World := World([], Initial, [], [], [], [])

  /** The message's completion function answers a RIL request. */
  predicate ForRequest(m: Message) {
    m.subscriber.Some? && m.subscriber.value.function_ != OtherDone
  }

  /** The tokens such messages stand for. */
  function Subscribers(ms: seq<Message>): seq<nat> {
    if ms == [] then []
    else Subscribers(ms[..|ms| - 1]) + if ForRequest(ms[|ms| - 1]) then [ms[|ms| - 1].subscriber.value.argument] else []
  }

  /** What Message::complete does: it calls the completion function, if there is one, which answers its
      request. (A null reply it would dereference; only a message that fails to marshal gets one.) */
  function AnswersTo(c: Completion): seq<Answer> {
    if c.request.subscriber.None? || c.reply.None? then []
    else
      var calls := CompletionCalls(c.request.subscriber.value.function_, c.reply.value);
      seq(|calls|, i requires 0 <= i < |calls| => Answer(c.request.subscriber.value.argument, calls[i]))
  }

  function AnswersOf(cs: seq<Completion>): seq<Answer> {
    if cs == [] then [] else AnswersOf(cs[..|cs| - 1]) + AnswersTo(cs[|cs| - 1])
  }

  function TokensOf(as_: seq<Answer>): (ts: seq<nat>)
    ensures |ts| == |as_| && forall i :: 0 <= i < |as_| ==> ts[i] == as_[i].token
  {
    seq(|as_|, i requires 0 <= i < |as_| => as_[i].token)
  }

  /** The engine takes one event; each of its new completions runs its completion function. */
  function EngineStep(w: World, ev: Event): World
    requires Inv(w.engine)
  {
    DoneGrows(w.engine, ev);
    var next := Step(w.engine, ev);
    w.(engine := next, answers := w.answers + AnswersOf(next.done[|w.engine.done|..]))
  }

  function Act(w: World, a: Action): World
    requires Inv(w.engine)
  {
    match a
    case Handle(r, radio, shutdown) =>
      var w1 := w.(handled := w.handled + [r]);
      (match Decide(r, radio, shutdown)
       case AnswerNow(errno) => w1.(early := w.early + [Answer(r.token, errno)], answers := w.answers + [Answer(r.token, errno)])
       case _ => w1.(pipe := w.pipe + [MessageFor(r)], posted := w.posted + [MessageFor(r)]))
    case PostOther(m) =>
      if ForRequest(m) then w else w.(pipe := w.pipe + [m], posted := w.posted + [m])
    case ReadPipe => if w.pipe == [] then w else EngineStep(w.(pipe := w.pipe[1..]), Submit(w.pipe[0]))
    case ReadSocket(frame) => EngineStep(w, Receive(frame))
  }

  /** Only a message that fails to marshal is completed without a reply. */
  ghost predicate Explained(st: State) {
    forall c :: c in st.done && c.reply.None? ==> c.request.payload.None?
  }

  /** Everything posted is in exactly one place; the answers are the early ones and those the completion
      functions gave. */
  ghost predicate Accounted(w: World) {
    && Inv(w.engine) && Explained(w.engine)
    && multiset(w.pipe) + Held(w.engine) == multiset(w.posted)
    && multiset(TokensOf(w.answers)) == multiset(TokensOf(w.early)) + multiset(TokensOf(AnswersOf(w.engine.done)))
    && forall x :: x in w.answers ==> x in w.early || x in AnswersOf(w.engine.done)
  }

  /** Each handled request was answered at once or posted; nobody else posts in its name. */
  ghost predicate Traced(w: World) {
    && multiset(Tokens(w.handled)) == multiset(TokensOf(w.early)) + multiset(Subscribers(w.posted))
    && (forall m :: m in w.posted && ForRequest(m) ==> exists r :: r in w.handled && m == MessageFor(r))
  }

  function Tokens(rs: seq<Request>): seq<nat> {
    if rs == [] then [] else Tokens(rs[..|rs| - 1]) + [rs[|rs| - 1].token]
  }

  lemma {:induction false} AnswersConcat(a: seq<Completion>, b: seq<Completion>)
    ensures AnswersOf(a + b) == AnswersOf(a) + AnswersOf(b)
    decreases |b|
  {
    hide AnswersTo;
    if b == [] {
      assert a + b == a;
    } else {
      assert (a + b)[..|a + b| - 1] == a + b[..|b| - 1];
      AnswersConcat(a, b[..|b| - 1]);
    }
  }

  lemma TokensConcat(a: seq<Answer>, b: seq<Answer>)
    ensures TokensOf(a + b) == TokensOf(a) + TokensOf(b)
  {
  }

  lemma StillExplained(st: State, ev: Event)
    requires Inv(st) && Explained(st)
    ensures Explained(Step(st, ev))
  {
    forall c | c in Step(st, ev).done && c.reply.None? ensures c.request.payload.None? {
      DoneStep(st, ev, c);
    }
  }

  lemma EngineStepAccounted(w: World, ev: Event, m: seq<Message>)
    requires Inv(w.engine) && Explained(w.engine) && m == Submitted([ev])
    requires multiset(w.pipe) + multiset(m) + Held(w.engine) == multiset(w.posted)
    requires multiset(TokensOf(w.answers)) == multiset(TokensOf(w.early)) + multiset(TokensOf(AnswersOf(w.engine.done)))
    requires forall x :: x in w.answers ==> x in w.early || x in AnswersOf(w.engine.done)
    ensures Accounted(EngineStep(w, ev))
  {
    hide Held, Step, Submitted, Inv, Explained, AnswersOf, TokensOf;
    StepKeepsInv(w.engine, ev);
    StillExplained(w.engine, ev);
    StepConserves(w.engine, ev);
    DoneGrows(w.engine, ev);
    SubmittedOne(ev);
    var was, now := w.engine.done, Step(w.engine, ev).done;
    assert now == was + now[|was|..];
    AnswersConcat(was, now[|was|..]);
    TokensConcat(AnswersOf(was), AnswersOf(now[|was|..]));
    TokensConcat(w.answers, AnswersOf(now[|was|..]));
  }

  lemma ReadPipeAccounted(w: World)
    requires Accounted(w) && w.pipe != []
    ensures Accounted(EngineStep(w.(pipe := w.pipe[1..]), Submit(w.pipe[0])))
  {
    hide Held, EngineStep, AnswersOf, TokensOf, Inv, Explained;
    assert w.pipe == [w.pipe[0]] + w.pipe[1..];
    SubmittedOne(Submit(w.pipe[0]));
    EngineStepAccounted(w.(pipe := w.pipe[1..]), Submit(w.pipe[0]), [w.pipe[0]]);
  }

  lemma HandleAccounted(w: World, r: Request, radio: RadioState, shutdown: bool)
    requires Accounted(w)
    ensures Accounted(Act(w, Handle(r, radio, shutdown)))
  {
    hide Held, AnswersOf, TokensOf, Inv, Explained, Decide, MessageFor;
    var d := Decide(r, radio, shutdown);
    if d.AnswerNow? {
      var x := Answer(r.token, d.errno);
      TokensConcat(w.answers, [x]);
      TokensConcat(w.early, [x]);
    }
  }

  lemma PostAccounted(w: World, m: Message)
    requires Accounted(w)
    ensures Accounted(Act(w, PostOther(m)))
  {
    hide Held, AnswersOf, TokensOf, Inv, Explained;
  }

  lemma FrameAccounted(w: World, f: Received)
    requires Accounted(w)
    ensures Accounted(Act(w, ReadSocket(f)))
  {
    hide Held, EngineStep, AnswersOf, TokensOf, Inv, Explained;
    SubmittedOne(Receive(f));
    EngineStepAccounted(w, Receive(f), []);
  }

  lemma ActAccounted(w: World, a: Action)
    requires Accounted(w)
    ensures Accounted(Act(w, a))
  {
    AccountedInv(w);
    hide Accounted, EngineStep, Inv, Decide, MessageFor;
    match a
    case Handle(r, radio, shutdown) => HandleAccounted(w, r, radio, shutdown);
    case PostOther(m) => PostAccounted(w, m);
    case ReadPipe => if w.pipe != [] { ReadPipeAccounted(w); }
    case ReadSocket(f) => FrameAccounted(w, f);
  }

  lemma PostTraced(w: World, m: Message, handled: seq<Request>)
    requires Traced(w) && (ForRequest(m) ==> exists r :: r in handled && m == MessageFor(r))
    requires forall r :: r in w.handled ==> r in handled
    requires multiset(Tokens(handled)) ==
             multiset(Tokens(w.handled)) + if ForRequest(m) then multiset{m.subscriber.value.argument} else multiset{}
    ensures Traced(w.(handled := handled, posted := w.posted + [m]))
  {
    var posted := w.posted + [m];
    assert posted[..|w.posted|] == w.posted;
    forall x | x in posted && ForRequest(x) ensures exists q :: q in handled && x == MessageFor(q) {
      if x in w.posted {
        var q :| q in w.handled && x == MessageFor(q);
        assert q in handled;
      }
    }
  }

  lemma HandleTraced(w: World, r: Request)
    requires Traced(w)
    ensures Traced(w.(handled := w.handled + [r], posted := w.posted + [MessageFor(r)]))
  {
    var handled := w.handled + [r];
    assert handled[..|w.handled|] == w.handled && r in handled;
    hide Traced, Subscribers;
    PostTraced(w, MessageFor(r), handled);
  }

  /** Traced reads only the three logs. */
  lemma TracedFrame(w: World, v: World)
    requires Traced(w) && v.handled == w.handled && v.early == w.early && v.posted == w.posted
    ensures Traced(v)
  {
  }

  lemma ActTraced(w: World, a: Action)
    requires Inv(w.engine) && Traced(w)
    ensures Traced(Act(w, a))
  {
    hide Inv, Step, Traced, Subscribers, Tokens, TokensOf, AnswersOf;
    match a
    case Handle(r, radio, shutdown) =>
      if Decide(r, radio, shutdown).AnswerNow? { AnswerTraced(w, r, Decide(r, radio, shutdown).errno); }
      HandleTraced(w, r);
      TracedFrame(w.(handled := w.handled + [r], posted := w.posted + [MessageFor(r)]),
                  w.(handled := w.handled + [r], posted := w.posted + [MessageFor(r)], pipe := w.pipe + [MessageFor(r)]));
    case PostOther(m) =>
      if !ForRequest(m) {
        PostTraced(w, m, w.handled);
        TracedFrame(w.(handled := w.handled, posted := w.posted + [m]), Act(w, a));
      }
    case _ => TracedFrame(w, Act(w, a));
  }

  lemma AnswerTraced(w: World, r: Request, errno: Errno)
    requires Traced(w)
    ensures var x := Answer(r.token, errno);
            Traced(w.(handled := w.handled + [r], early := w.early + [x], answers := w.answers + [x]))
  {
    assert (w.handled + [r])[..|w.handled|] == w.handled;
    TokensConcat(w.early, [Answer(r.token, errno)]);
    assert TokensOf([Answer(r.token, errno)]) == [r.token];
  }

  /** The world after a run of interleaved actions. */
  function Acts(w: World, as_: seq<Action>): (r: World)
    requires Accounted(w)
    ensures Accounted(r)
    decreases |as_|
  {
    if as_ == [] then w
    else
      ActAccounted(w, as_[0]);
      Acts(Act(w, as_[0]), as_[1..])
  }

  lemma StartAccounted()
    ensures Accounted(Start) && Traced(Start)
  {
    InitialIsEmpty();
  }

  lemma {:induction false} ActsTraced(w: World, as_: seq<Action>)
    requires Accounted(w) && Traced(w)
    ensures Traced(Acts(w, as_))
    decreases |as_|
  {
    hide Act, Accounted, Traced;
    if as_ != [] {
      ActAccounted(w, as_[0]);
      assert Inv(w.engine) by { AccountedInv(w); }
      ActTraced(w, as_[0]);
      ActsTraced(Act(w, as_[0]), as_[1..]);
    }
  }

  lemma AccountedInv(w: World)
    requires Accounted(w)
    ensures Inv(w.engine)
  {
  }

  /** Messages standing for t, when only m does, are the occurrences of m. */
  lemma {:induction false} SubscriberCount(ms: seq<Message>, t: nat, m: Message)
    requires Names(m, t) && forall x :: x in ms && Names(x, t) ==> x == m
    ensures multiset(Subscribers(ms))[t] == multiset(ms)[m]
  {
    if ms != [] {
      var front := ms[..|ms| - 1];
      assert ms == front + [ms[|ms| - 1]];
      SubscriberCount(front, t, m);
      var last := ms[|ms| - 1];
      assert Names(last, t) <==> last == m;
      assert multiset(ms) == multiset(front) + multiset{last};
      assert Subscribers(ms) == Subscribers(front) + if ForRequest(last) then [last.subscriber.value.argument] else [];
    }
  }

  predicate Names(m: Message, t: nat) {
    ForRequest(m) && m.subscriber.value.argument == t
  }

  /** Since every completion function answers once, completed messages and answers match. */
  lemma {:induction false} OneAnswerEach(cs: seq<Completion>)
    requires forall c :: c in cs && ForRequest(c.request) ==> c.reply.Some?
    ensures TokensOf(AnswersOf(cs)) == Subscribers(Requests(cs))
  {
    if cs != [] {
      var front, last := cs[..|cs| - 1], cs[|cs| - 1];
      OneAnswerEach(front);
      TokensConcat(AnswersOf(front), AnswersTo(last));
      assert Requests(cs)[..|Requests(cs)| - 1] == Requests(front);
      assert TokensOf(AnswersTo(last)) == if ForRequest(last.request) then [last.request.subscriber.value.argument] else [];
    }
  }

  lemma {:induction false} AnswerHasCompletion(cs: seq<Completion>, x: Answer) returns (c: Completion)
    requires x in AnswersOf(cs)
    ensures c in cs && c.request in Requests(cs) && Names(c.request, x.token) && c.reply.Some?
    ensures CompletionCalls(c.request.subscriber.value.function_, c.reply.value) == [x.errno]
  {
    var front, last := cs[..|cs| - 1], cs[|cs| - 1];
    if x in AnswersOf(front) {
      c := AnswerHasCompletion(front, x);
    } else {
      c := last;
    }
  }

  lemma {:induction false} RequestsOf(cs: seq<Completion>)
    ensures forall c :: c in cs ==> c.request in Requests(cs)
  {
    if cs != [] { RequestsOf(cs[..|cs| - 1]); }
  }

  lemma {:induction false} EventsAreEvents(wire: seq<Sent>)
    ensures forall m :: m in EventsOnWire(wire) ==> m.event
  {
    if wire != [] { EventsAreEvents(wire[..|wire| - 1]); }
  }

  /** A token that occurs once belongs to one request. */
  lemma {:induction false} TokenOwner(rs: seq<Request>, a: Request, b: Request)
    requires a in rs && b in rs && a.token == b.token && multiset(Tokens(rs))[a.token] == 1
    ensures a == b
  {
    var front, last := rs[..|rs| - 1], rs[|rs| - 1];
    assert rs == front + [last];
    if last.token == a.token {
      if a in front { TokenPresent(front, a); }
      if b in front { TokenPresent(front, b); }
    } else {
      TokenOwner(front, a, b);
    }
  }

  lemma {:induction false} TokenPresent(rs: seq<Request>, a: Request)
    requires a in rs
    ensures multiset(Tokens(rs))[a.token] >= 1
  {
    var front, last := rs[..|rs| - 1], rs[|rs| - 1];
    assert rs == front + [last];
    if a in front { TokenPresent(front, a); }
  }

  /** Over every interleaving, a request handled under a token of its own is, at every moment, in
      exactly one of the control pipe, the overflow queue, the air, or the answers, exactly once; and an
      answer it got later is the right one for the reply to its own message. */
  lemma AnsweredExactlyOnce(as_: seq<Action>, r: Request)
    requires Accounted(Start)
    requires r in Acts(Start, as_).handled && multiset(Tokens(Acts(Start, as_).handled))[r.token] == 1
    ensures var w := Acts(Start, as_);
            var m := MessageFor(r);
            && multiset(w.pipe)[m] + multiset(w.engine.queue)[m] + InAir(w.engine.inAir, LAST + 1)[m]
               + multiset(TokensOf(w.answers))[r.token] == 1
            && forall x :: x in w.answers && x.token == r.token ==> x in w.early || AnswersItsReply(w, r, x.errno)
  {
    StartAccounted();
    ActsTraced(Start, as_);
    OnePlace(Acts(Start, as_), r);
  }

  /** The engine completed r's message with a reply, and errno is the answer to it: success for an operator
      list, if one was asked for, or else for a command completed with status 0x8000; a wrong password for
      status 0x0010, not for a network scan; a failure in every other case. */
  ghost predicate AnswersItsReply(w: World, r: Request, errno: Errno) {
    exists reply :: Completion(MessageFor(r), Some(reply)) in w.engine.done && ErrnoOf(r.kind, reply, errno)
  }

  predicate ErrnoOf(k: Kind, reply: Reply, errno: Errno) {
    && (errno == Success <==> if k == QueryAvailableNetworks then reply == PlmnList else reply == CommandComplete(0x8000))
    && (errno == PasswordIncorrect <==> k != QueryAvailableNetworks && reply == CommandComplete(0x0010))
    && (errno == GenericFailure <==> errno != Success && errno != PasswordIncorrect)
  }

  lemma CallsInErrnos(k: Kind, reply: Reply, errno: Errno)
    requires CompletionCalls(FunctionOf(k), reply) == [errno]
    ensures ErrnoOf(k, reply, errno)
  {
  }

  /** Nobody but r's message stands for r's token, and it marshals. */
  lemma OnlyItsMessage(w: World, r: Request)
    requires Traced(w) && r in w.handled && multiset(Tokens(w.handled))[r.token] == 1
    ensures forall x :: x in w.posted && Names(x, r.token) ==> x == MessageFor(r)
    ensures forall x :: x in w.posted && ForRequest(x) ==> x.payload.Some?
  {
    hide Tokens;
    forall x | x in w.posted && Names(x, r.token) ensures x == MessageFor(r) {
      var q :| q in w.handled && x == MessageFor(q);
      TokenOwner(w.handled, q, r);
    }
  }

  lemma DoneWasPosted(w: World, x: Message)
    requires Accounted(w) && x in Requests(w.engine.done)
    ensures x in w.posted
  {
    hide InAir, Requests, EventsOnWire, AnswersOf, TokensOf, Inv;
    HeldCount(w.engine, x);
    assert multiset(Requests(w.engine.done))[x] > 0;
    assert (multiset(w.pipe) + Held(w.engine))[x] == multiset(w.posted)[x];
  }

  lemma OnePlace(w: World, r: Request)
    requires Accounted(w) && Traced(w) && r in w.handled && multiset(Tokens(w.handled))[r.token] == 1
    ensures var m := MessageFor(r);
            multiset(w.pipe)[m] + multiset(w.engine.queue)[m] + InAir(w.engine.inAir, LAST + 1)[m]
              + multiset(TokensOf(w.answers))[r.token] == 1
    ensures forall x :: x in w.answers && x.token == r.token ==> x in w.early || AnswersItsReply(w, r, x.errno)
  {
    hide InAir, Requests, EventsOnWire, Subscribers, Tokens, Inv, AnswersOf, TokensOf, CompletionCalls, Held;
    var m, t, done := MessageFor(r), r.token, Requests(w.engine.done);
    OnlyItsMessage(w, r);
    forall x | x in done ensures x in w.posted { DoneWasPosted(w, x); }
    RequestsOf(w.engine.done);
    OneAnswerEach(w.engine.done);
    SubscriberCount(w.posted, t, m);
    SubscriberCount(done, t, m);
    HeldCount(w.engine, m);
    EventsAreEvents(w.engine.wire);
    assert (multiset(w.pipe) + Held(w.engine))[m] == multiset(w.posted)[m];
    forall x | x in w.answers && x.token == t && x !in w.early ensures AnswersItsReply(w, r, x.errno) {
      var c := AnswerHasCompletion(w.engine.done, x);
      assert c.request == m && c == Completion(m, Some(c.reply.value));
      CallsInErrnos(r.kind, c.reply.value, x.errno);
    }
  }

  /* Early answers. */

  /** What becomes of a request, by outcome. */
  lemma DecidedIff(r: Request, radio: RadioState, shutdown: bool)
    ensures var d, k := Decide(r, radio, shutdown), r.kind;
            && (d == AnswerNow(RadioNotAvailable) <==> radio == Unavailable || (radio == Off && !k.RadioPower?))
            && (d == AnswerNow(GenericFailure) <==>
                  || (radio == Ready && k.SetNetworkSelection? && k.plmnLength > 6)
                  || (radio != Unavailable && k.RadioPower? && !k.wellFormed))
            && (d == AnswerNow(Success) <==> k.RadioPower? && k.wellFormed && radio == if k.on then Ready else Off)
            && (d == PowerOffSynchronously <==> radio == Ready && k.RadioPower? && k.wellFormed && !k.on && shutdown)
            && (d == Post <==>
                  || (radio == Ready && !k.RadioPower? && (k.SetNetworkSelection? ==> k.plmnLength <= 6))
                  || (k.RadioPower? && k.wellFormed && ((k.on && radio == Off) || (!k.on && radio == Ready && !shutdown))))
  {
  }

  /** x answers at once the request handled by the action: the radio is not available, or off for anything
      but a power request; the PLMN is too long, or the power request malformed; or the radio already is in
      the state asked for. */
  ghost predicate AnsweredAtOnce(a: Action, x: Answer) {
    && a.Handle? && a.request.token == x.token
    && var k := a.request.kind;
       match x.errno
       case RadioNotAvailable => a.radio == Unavailable || (a.radio == Off && !k.RadioPower?)
       case GenericFailure =>
         || (a.radio == Ready && k.SetNetworkSelection? && k.plmnLength > 6)
         || (a.radio != Unavailable && k.RadioPower? && !k.wellFormed)
       case Success => k.RadioPower? && k.wellFormed && a.radio == if k.on then Ready else Off
       case PasswordIncorrect => false
  }

  /** Over every interleaving each early answer was right when it was given. */
  lemma {:induction false} EarlyAnswersAreRight(w: World, as_: seq<Action>, x: Answer)
    requires Accounted(w) && x in Acts(w, as_).early
    ensures x in w.early || exists i :: 0 <= i < |as_| && AnsweredAtOnce(as_[i], x)
    decreases |as_|
  {
    AccountedInv(w);
    hide Accounted, Inv, Act;
    if as_ != [] {
      ActAccounted(w, as_[0]);
      EarlyAnswersAreRight(Act(w, as_[0]), as_[1..], x);
      if x in Act(w, as_[0]).early {
        if x !in w.early {
          EarlyStep(w, as_[0], x);
        }
      } else {
        var i :| 0 <= i < |as_| - 1 && AnsweredAtOnce(as_[1..][i], x);
        assert as_[1..][i] == as_[i + 1];
      }
    }
  }

  lemma EarlyStep(w: World, a: Action, x: Answer)
    requires Inv(w.engine) && x in Act(w, a).early && x !in w.early
    ensures AnsweredAtOnce(a, x)
  {
    if a.Handle? { DecidedIff(a.request, a.radio, a.shutdown); }
  }

  /* The pipe and the engine behind it. */

  /** What the engine sees of an action: the message at the front of the pipe when it is read, a frame. */
  function EventsOf(w: World, a: Action): seq<Event> {
    match a
    case ReadPipe => if w.pipe == [] then [] else [Submit(w.pipe[0])]
    case ReadSocket(f) => [Receive(f)]
    case _ => []
  }

  function EngineEvents(w: World, as_: seq<Action>): seq<Event>
    requires Accounted(w)
    decreases |as_|
  {
    if as_ == [] then []
    else
      ActAccounted(w, as_[0]);
      EventsOf(w, as_[0]) + EngineEvents(Act(w, as_[0]), as_[1..])
  }

  lemma EngineStepFrame(w: World, ev: Event)
    requires Inv(w.engine)
    ensures var v := EngineStep(w, ev); v.engine == Step(w.engine, ev) && v.pipe == w.pipe && v.posted == w.posted
  {
  }

  lemma PipeStep(w: World, a: Action)
    requires Inv(w.engine)
    ensures var v := Act(w, a);
            && w.posted <= v.posted
            && v.engine == Run(w.engine, EventsOf(w, a))
            && Submitted(EventsOf(w, a)) + v.pipe == w.pipe + v.posted[|w.posted|..]
  {
    hide Inv, Step, EngineStep, Decide, MessageFor, Submitted, Run;
    NothingRuns(w.engine);
    match a
    case ReadPipe =>
      if w.pipe != [] {
        EngineStepFrame(w.(pipe := w.pipe[1..]), Submit(w.pipe[0]));
        SubmittedOne(Submit(w.pipe[0]));
        RunsOnce(w.engine, Submit(w.pipe[0]));
      }
    case ReadSocket(f) =>
      EngineStepFrame(w, Receive(f));
      SubmittedOne(Receive(f));
      RunsOnce(w.engine, Receive(f));
    case _ =>
  }

  lemma RunsOnce(st: State, ev: Event)
    requires Inv(st)
    ensures Run(st, [ev]) == Step(st, ev)
  {
    StepKeepsInv(st, ev);
    hide Step;
    assert [ev][1..] == [] && Run(Step(st, ev), []) == Step(st, ev);
  }

  /** The control pipe is first in, first out, and behind it runs the engine: over every interleaving the
      messages it was submitted, followed by those still in the pipe, are those posted, in order. So what
      holds of the engine over every run of events holds of it here. */
  lemma {:induction false} PipeIsFifo(w: World, as_: seq<Action>)
    requires Accounted(w)
    ensures var v, evs := Acts(w, as_), EngineEvents(w, as_);
            && w.posted <= v.posted
            && v.engine == Run(w.engine, evs)
            && Submitted(evs) + v.pipe == w.pipe + v.posted[|w.posted|..]
    decreases |as_|
  {
    AccountedInv(w);
    hide Accounted, Act, Run, Submitted, Inv;
    if as_ == [] {
      NothingRuns(w.engine);
      assert [] + w.pipe == w.pipe + w.posted[|w.posted|..];
    } else {
      var u, v := Act(w, as_[0]), Acts(w, as_);
      ActAccounted(w, as_[0]);
      PipeStep(w, as_[0]);
      PipeIsFifo(u, as_[1..]);
      var now, later := EventsOf(w, as_[0]), EngineEvents(u, as_[1..]);
      hide EventsOf;
      RunConcat(w.engine, now, later);
      SubmittedConcat(now, later);
      QueueTwice(Submitted(now), Submitted(later), w.pipe, u.pipe, v.pipe, w.posted, u.posted, v.posted);
    }
  }

  lemma QueueTwice<T>(out1: seq<T>, out2: seq<T>, q0: seq<T>, q1: seq<T>, q2: seq<T>, in0: seq<T>, in1: seq<T>, in2: seq<T>)
    requires in0 <= in1 <= in2
    requires out1 + q1 == q0 + in1[|in0|..] && out2 + q2 == q1 + in2[|in1|..]
    ensures out1 + out2 + q2 == q0 + in2[|in0|..]
  {
    assert in2[|in0|..] == in1[|in0|..] + in2[|in1|..];
    AppendAssoc(out1, out2, q2);
    AppendAssoc(out1, q1, in2[|in1|..]);
    AppendAssoc(q0, in1[|in0|..], in2[|in1|..]);
  }

  lemma NothingRuns(st: State)
    requires Inv(st)
    ensures Run(st, []) == st && Submitted([]) == []
  {
  }
}
