/** What the request engine keeps over every run: conservation of messages, the right reply for each
    request, FIFO order while the pool is exhausted, and cyclic fairness of allocation. */
module EngineTheorems {
  import opened Bytes
  import opened Engine

  /* Conservation. */

  function OnWire(wire: seq<Sent>): seq<Message> {
    if wire == [] then [] else OnWire(wire[..|wire| - 1]) + [wire[|wire| - 1].message]
  }

  /** The events among the frames sent; the engine forgets them as soon as they are out. */
  function EventsOnWire(wire: seq<Sent>): seq<Message> {
    if wire == [] then []
    else
      var last := wire[|wire| - 1].message;
      EventsOnWire(wire[..|wire| - 1]) + if last.event then [last] else []
  }

  function Requests(done: seq<Completion>): seq<Message> {
    if done == [] then [] else Requests(done[..|done| - 1]) + [done[|done| - 1].request]
  }

  /** The messages in air under the numbers below `upto`. */
  function InAir(air: map<nat, Message>, upto: nat): multiset<Message> {
    if upto == 0 then multiset{}
    else InAir(air, upto - 1) + if upto - 1 in air then multiset{air[upto - 1]} else multiset{}
  }

  /** Every place a message can be. */
  function Held(st: State): multiset<Message> {
    multiset(st.queue) + InAir(st.inAir, LAST + 1) + multiset(Requests(st.done)) + multiset(EventsOnWire(st.wire))
  }

  lemma {:induction false} InAirAdd(air: map<nat, Message>, n: nat, m: Message, upto: nat)
    requires n !in air
    ensures InAir(air[n := m], upto) == InAir(air, upto) + if n < upto then multiset{m} else multiset{}
  {
    if upto > 0 { InAirAdd(air, n, m, upto - 1); }
  }

  lemma InAirRemove(air: map<nat, Message>, n: nat, upto: nat)
    requires n in air && n < upto
    ensures InAir(air, upto) == InAir(air - {n}, upto) + multiset{air[n]}
  {
    InAirAdd(air - {n}, n, air[n], upto);
    assert (air - {n})[n := air[n]] == air;
  }

  lemma SendConserves(st: State, m: Message)
    requires Inv(st) && st.cursor.At? && m.payload.Some?
    ensures Held(Send(st, m)) == Held(st) + multiset{m}
  {
    hide Advance, InAir, Requests;
    assert Send(st, m).wire[..|st.wire|] == st.wire;
    if !m.event { InAirAdd(st.inAir, st.cursor.n, m, LAST + 1); }
  }

  lemma SubmitConserves(st: State, m: Message)
    requires Inv(st)
    ensures Held(DoSubmit(st, m)) == Held(st) + multiset{m}
  {
    hide Send, InAir, EventsOnWire;
    if st.free != {} && m.payload.Some? {
      SendConserves(st, m);
    } else if st.free != {} {
      assert DoSubmit(st, m).done[..|st.done|] == st.done;
    }
  }

  /** Taking the head of the queue to submit it again. */
  lemma DequeueConserves(st: State)
    requires Inv(st) && st.queue != []
    ensures Inv(st.(queue := st.queue[1..]))
    ensures Held(DoSubmit(st.(queue := st.queue[1..]), st.queue[0])) == Held(st)
  {
    hide InAir, Requests, EventsOnWire, DoSubmit;
    var popped := st.(queue := st.queue[1..]);
    assert st.queue == [st.queue[0]] + popped.queue;
    assert Held(st) == Held(popped) + multiset{st.queue[0]};
    SubmitConserves(popped, st.queue[0]);
  }

  /** Moving a message from the air to the completions, around any step that conserves. */
  lemma CompleteConserves(st: State, aseq: nat, next: State, reply: Reply)
    requires aseq in st.inAir && aseq <= LAST
    requires Held(next) == Held(st.(free := st.free + {aseq}, inAir := st.inAir - {aseq}))
    ensures Held(next.(done := next.done + [Completion(st.inAir[aseq], Some(reply))])) == Held(st)
  {
    hide InAir, EventsOnWire;
    var c := Completion(st.inAir[aseq], Some(reply));
    var freed := st.(free := st.free + {aseq}, inAir := st.inAir - {aseq});
    InAirRemove(st.inAir, aseq, LAST + 1);
    assert Held(st) == Held(freed) + multiset{c.request};
    assert (next.done + [c])[..|next.done|] == next.done;
    assert Held(next.(done := next.done + [c])) == Held(next) + multiset{c.request};
  }

  lemma ReplyConserves(st: State, aseq: nat, reply: Reply)
    requires Inv(st) && aseq in st.inAir
    ensures Held(DoReply(st, aseq, reply)) == Held(st)
  {
    hide DoSubmit;
    var freed := st.(free := st.free + {aseq}, inAir := st.inAir - {aseq});
    assert aseq in freed.free;
    var begun := freed.(cursor := NextFree(freed.free, 0));
    var next :=
      if st.cursor != End then freed
      else if begun.queue == [] then begun
      else DoSubmit(begun.(queue := begun.queue[1..]), begun.queue[0]);
    assert Held(next) == Held(freed) by {
      if st.cursor == End && begun.queue != [] {
        DequeueConserves(begun);
      }
      assert Held(begun) == Held(freed);
    }
    hide Held;
    CompleteConserves(st, aseq, next, reply);
  }

  lemma StepConserves(st: State, ev: Event)
    requires Inv(st)
    ensures Held(Step(st, ev)) == Held(st) + if ev.Submit? then multiset{ev.message} else multiset{}
  {
    hide Held, DoSubmit, DoReply;
    match ev
    case Submit(m) => SubmitConserves(st, m);
    case Receive(f) =>
      if f.message.Some? && f.kind == Response && f.aseq in st.inAir {
        ReplyConserves(st, f.aseq, f.message.value);
      } else {
        UnsolicitedConserves(st, f);
      }
  }

  lemma UnsolicitedConserves(st: State, f: Received)
    requires Inv(st) && !(f.message.Some? && f.kind == Response && f.aseq in st.inAir)
    ensures Held(DoReceive(st, f)) == Held(st)
  {
  }

  function Submitted(evs: seq<Event>): seq<Message> {
    if evs == [] then [] else (if evs[0].Submit? then [evs[0].message] else []) + Submitted(evs[1..])
  }

  /** Over every run nothing is lost and nothing duplicated: queue, air, completions and sent events
      hold exactly what was submitted. */
  lemma {:induction false} NothingLostOrDuplicated(st: State, evs: seq<Event>)
    requires Inv(st)
    ensures Held(Run(st, evs)) == Held(st) + multiset(Submitted(evs))
    decreases |evs|
  {
    hide Held, Step;
    if evs != [] {
      StepConserves(st, evs[0]);
      StepKeepsInv(st, evs[0]);
      NothingLostOrDuplicated(Step(st, evs[0]), evs[1..]);
    }
  }

  lemma InitialIsEmpty()
    ensures Inv(Initial) && Held(Initial) == multiset{}
  {
    NoneInAir(LAST + 1);
  }

  lemma {:induction false} NoneInAir(upto: nat)
    ensures InAir(map[], upto) == multiset{}
  {
    if upto > 0 { NoneInAir(upto - 1); }
  }

  lemma HeldCount(st: State, m: Message)
    ensures Held(st)[m] == multiset(st.queue)[m] + InAir(st.inAir, LAST + 1)[m] + multiset(Requests(st.done))[m]
                             + multiset(EventsOnWire(st.wire))[m]
  {
  }

  /** So a message submitted once is, at every moment, in exactly one place exactly once. */
  lemma ExactlyOnePlace(evs: seq<Event>, m: Message)
    requires multiset(Submitted(evs))[m] == 1
    ensures Inv(Initial)
    ensures var st := Run(Initial, evs);
            multiset(st.queue)[m] + InAir(st.inAir, LAST + 1)[m] + multiset(Requests(st.done))[m]
              + multiset(EventsOnWire(st.wire))[m] == 1
  {
    InitialIsEmpty();
    hide Held, InAir, Run, Requests, EventsOnWire, Submitted;
    NothingLostOrDuplicated(Initial, evs);
    HeldCount(Run(Initial, evs), m);
  }

  /* The reply of a request. */

  /** A frame that would complete whatever is in air under n. */
  predicate Answers(ev: Event, n: nat) {
    ev.Receive? && ev.frame.message.Some? && ev.frame.kind == Response && ev.frame.aseq == n
  }

  lemma StepKeepsInAir(st: State, ev: Event, n: nat)
    requires Inv(st) && n in st.inAir && !Answers(ev, n)
    ensures n in Step(st, ev).inAir && Step(st, ev).inAir[n] == st.inAir[n]
  {
  }

  lemma {:induction false} StaysInAir(st: State, evs: seq<Event>, n: nat)
    requires Inv(st) && n in st.inAir && forall i :: 0 <= i < |evs| ==> !Answers(evs[i], n)
    ensures n in Run(st, evs).inAir && Run(st, evs).inAir[n] == st.inAir[n]
    decreases |evs|
  {
    if evs != [] {
      StepKeepsInAir(st, evs[0], n);
      StepKeepsInv(st, evs[0]);
      StaysInAir(Step(st, evs[0]), evs[1..], n);
    }
  }

  /** A message sent under n is completed by the first later response with aseq n that decodes, with
      that response, whatever else happens in between; and it is in air no longer. */
  lemma FirstReplyCompletes(st: State, between: seq<Event>, n: nat, reply: Reply)
    requires Inv(st) && n in st.inAir && forall i :: 0 <= i < |between| ==> !Answers(between[i], n)
    ensures var before := Run(st, between);
            var after := Step(before, Receive(Received(Response, n, Some(reply))));
            && n in before.inAir && before.inAir[n] == st.inAir[n]
            && after.done != [] && after.done[|after.done| - 1] == Completion(st.inAir[n], Some(reply))
  {
    StaysInAir(st, between, n);
  }

  /** Conversely every new completion is the answer to the frame just received for the message in
      air under its aseq, or the failure of a message that does not marshal. */
  lemma CompletionsHaveACause(st: State, ev: Event, i: nat)
    requires Inv(st) && |st.done| <= i < |Step(st, ev).done|
    ensures var c := Step(st, ev).done[i];
            if c.reply.None? then c.request.payload.None?
            else ev.Receive? && Answers(ev, ev.frame.aseq) && ev.frame.aseq in st.inAir
                 && c == Completion(st.inAir[ev.frame.aseq], ev.frame.message)
  {
  }

  /** A message is in air under the number its frame carried. */
  lemma SentUnderItsNumber(st: State, m: Message)
    requires Inv(st) && st.free != {} && m.payload.Some? && !m.event
    ensures var after := DoSubmit(st, m);
            var n := st.cursor.n;
            after.wire == st.wire + [Sent(n, m)] && n !in st.inAir && n in after.inAir && after.inAir[n] == m
  {
  }

  /** What a step that sends a frame does: the cursor's number went out, or, out of the queue, the only
      free one. */
  lemma SendingStep(st: State, ev: Event)
    requires Inv(st)
    ensures var s1 := Step(st, ev);
            || (s1.wire == st.wire && st.free <= s1.free && (st.cursor.At? ==> s1.cursor == st.cursor))
            || (exists m :: st.cursor.At? && s1.wire == st.wire + [Sent(st.cursor.n, m)] && s1.free >= st.free - {st.cursor.n}
                            && (s1.free != {} ==> s1.cursor == Advance(st.free, st.cursor.n)))
            || (exists n: nat, m :: st.free == {} && s1.wire == st.wire + [Sent(n, m)] && s1.free <= {n} && Answers(ev, n))
  {
  }

  /* The whole history of a request. */

  /** Step a of the run sent m under n. */
  ghost predicate SentBy(evs: seq<Event>, a: nat, n: nat, m: Message)
    requires Inv(Initial) && a < |evs|
  {
    Run(Initial, evs[..a + 1]).wire == Run(Initial, evs[..a]).wire + [Sent(n, m)]
  }

  /** Between steps a and b nothing answered n. */
  ghost predicate Quiet(evs: seq<Event>, a: nat, b: nat, n: nat)
    requires b <= |evs|
  {
    forall k :: a < k < b ==> !Answers(evs[k], n)
  }

  /** m was sent under n by some step, and nothing has answered n since. */
  ghost predicate Outstanding(evs: seq<Event>, n: nat, m: Message)
    requires Inv(Initial)
  {
    exists a: nat :: a < |evs| && SentBy(evs, a, n, m) && Quiet(evs, a, |evs|, n)
  }

  /** c is the completion of a message sent by step a under n, by the answer to n that step b received,
      the first one after a. */
  ghost predicate AnsweredBy(evs: seq<Event>, c: Completion, n: nat, a: nat, b: nat)
    requires Inv(Initial)
  {
    && a < b < |evs| && SentBy(evs, a, n, c.request)
    && Quiet(evs, a, b, n) && Answers(evs[b], n) && evs[b].frame.message == c.reply
  }

  /** What one step does to the messages in air: those not answered stay, and new ones were just sent. */
  lemma InAirStep(st: State, ev: Event, n: nat)
    requires Inv(st) && n in Step(st, ev).inAir
    ensures (n in st.inAir && Step(st, ev).inAir[n] == st.inAir[n] && !Answers(ev, n))
            || Step(st, ev).wire == st.wire + [Sent(n, Step(st, ev).inAir[n])]
  {
  }

  /** The last frame numbered n carried the message now in air under n. */
  ghost predicate Tagged(st: State, n: nat)
    requires n in st.inAir
  {
    exists i :: 0 <= i < |st.wire| && st.wire[i] == Sent(n, st.inAir[n]) && forall k :: i < k < |st.wire| ==> st.wire[k].mseq != n
  }

  lemma TaggedStep(st: State, ev: Event, n: nat)
    requires Inv(st) && n in Step(st, ev).inAir && (n in st.inAir ==> Tagged(st, n))
    ensures Tagged(Step(st, ev), n)
  {
    InAirStep(st, ev, n);
    SendingStep(st, ev);
    var s1 := Step(st, ev);
    hide Step;
    if n in st.inAir && s1.inAir[n] == st.inAir[n] && !Answers(ev, n) {
      var i :| 0 <= i < |st.wire| && st.wire[i] == Sent(n, st.inAir[n]) && forall k :: i < k < |st.wire| ==> st.wire[k].mseq != n;
      assert s1.wire[i] == st.wire[i];
    } else {
      assert s1.wire[|st.wire|] == Sent(n, s1.inAir[n]);
    }
  }

  /** Over every run the number of a message in air is that of its own frame, and no later frame has it. */
  lemma {:induction false} LastFrameIsInAir(st: State, evs: seq<Event>, n: nat)
    requires Inv(st) && (n in st.inAir ==> Tagged(st, n)) && n in Run(st, evs).inAir
    ensures Tagged(Run(st, evs), n)
    decreases |evs|
  {
    if evs != [] {
      StepKeepsInv(st, evs[0]);
      if n in Step(st, evs[0]).inAir { TaggedStep(st, evs[0], n); }
      hide Step, Tagged;
      LastFrameIsInAir(Step(st, evs[0]), evs[1..], n);
    }
  }

  lemma SentByExtend(evs: seq<Event>, ev: Event, a: nat, n: nat, m: Message)
    requires Inv(Initial) && a < |evs|
    ensures SentBy(evs + [ev], a, n, m) <==> SentBy(evs, a, n, m)
  {
    assert (evs + [ev])[..a + 1] == evs[..a + 1] && (evs + [ev])[..a] == evs[..a];
  }

  lemma OutstandingExtend(evs: seq<Event>, ev: Event, n: nat, m: Message)
    requires Inv(Initial) && Outstanding(evs, n, m) && !Answers(ev, n)
    ensures Outstanding(evs + [ev], n, m)
  {
    var a: nat :| a < |evs| && SentBy(evs, a, n, m) && Quiet(evs, a, |evs|, n);
    SentByExtend(evs, ev, a, n, m);
    assert Quiet(evs + [ev], a, |evs + [ev]|, n);
  }

  lemma OutstandingNow(evs: seq<Event>, ev: Event, n: nat, m: Message)
    requires Inv(Initial) && Run(Initial, evs + [ev]).wire == Run(Initial, evs).wire + [Sent(n, m)]
    ensures Outstanding(evs + [ev], n, m)
  {
    assert (evs + [ev])[..|evs| + 1] == evs + [ev] && (evs + [ev])[..|evs|] == evs;
    assert SentBy(evs + [ev], |evs|, n, m) && Quiet(evs + [ev], |evs|, |evs + [ev]|, n);
  }

  /** Over every run from the start, each message in air was sent under its number, immediately or from
      the queue, and its number has not been answered since. */
  lemma {:induction false} InAirUnderItsNumber(evs: seq<Event>, n: nat)
    requires Inv(Initial) && n in Run(Initial, evs).inAir
    ensures Outstanding(evs, n, Run(Initial, evs).inAir[n])
    decreases |evs|
  {
    if evs != [] {
      var before, ev := evs[..|evs| - 1], evs[|evs| - 1];
      assert evs == before + [ev];
      RunSnoc(Initial, before, ev);
      var st := Run(Initial, before);
      InAirStep(st, ev, n);
      hide Run, Step, SentBy, Outstanding, Quiet;
      if n in st.inAir && Step(st, ev).inAir[n] == st.inAir[n] && !Answers(ev, n) {
        InAirUnderItsNumber(before, n);
        OutstandingExtend(before, ev, n, st.inAir[n]);
      } else {
        OutstandingNow(before, ev, n, Step(st, ev).inAir[n]);
      }
    }
  }

  lemma AnsweredExtend(evs: seq<Event>, ev: Event, c: Completion, n: nat, a: nat, b: nat)
    requires Inv(Initial) && AnsweredBy(evs, c, n, a, b)
    ensures AnsweredBy(evs + [ev], c, n, a, b)
  {
    SentByExtend(evs, ev, a, n, c.request);
    hide SentBy;
  }

  lemma AnsweredNow(evs: seq<Event>, ev: Event, n: nat, m: Message) returns (a: nat)
    requires Inv(Initial) && Outstanding(evs, n, m) && Answers(ev, n)
    ensures AnsweredBy(evs + [ev], Completion(m, ev.frame.message), n, a, |evs|)
  {
    a :| a < |evs| && SentBy(evs, a, n, m) && Quiet(evs, a, |evs|, n);
    SentByExtend(evs, ev, a, n, m);
    hide SentBy;
  }

  /** And each completion with a reply has its cause in the run: some step sent the request under a
      number n, and its reply is the first answer to n received after that. A completion without a reply
      is that of a message that does not marshal. */
  lemma {:induction false} CompletedByFirstAnswer(evs: seq<Event>, c: Completion)
    requires Inv(Initial) && c in Run(Initial, evs).done
    ensures if c.reply.Some? then exists n: nat, a: nat, b: nat :: AnsweredBy(evs, c, n, a, b) else c.request.payload.None?
    decreases |evs|
  {
    if evs != [] {
      var before, ev := evs[..|evs| - 1], evs[|evs| - 1];
      assert evs == before + [ev];
      RunSnoc(Initial, before, ev);
      var st := Run(Initial, before);
      DoneStep(st, ev, c);
      hide Run, Step, AnsweredBy, Outstanding;
      if c in st.done {
        CompletedByFirstAnswer(before, c);
        if c.reply.Some? {
          var n: nat, a: nat, b: nat :| AnsweredBy(before, c, n, a, b);
          AnsweredExtend(before, ev, c, n, a, b);
        }
      } else if c.reply.Some? {
        var n := ev.frame.aseq;
        InAirUnderItsNumber(before, n);
        var a := AnsweredNow(before, ev, n, st.inAir[n]);
      }
    }
  }

  lemma DoneStep(st: State, ev: Event, c: Completion)
    requires Inv(st) && c in Step(st, ev).done
    ensures c in st.done || (if c.reply.None? then c.request.payload.None?
                             else ev.Receive? && Answers(ev, ev.frame.aseq) && ev.frame.aseq in st.inAir
                                  && c == Completion(st.inAir[ev.frame.aseq], ev.frame.message))
  {
    var i :| 0 <= i < |Step(st, ev).done| && Step(st, ev).done[i] == c;
    if i >= |st.done| {
      CompletionsHaveACause(st, ev, i);
    } else {
      DoneGrows(st, ev);
    }
  }

  lemma DoneGrows(st: State, ev: Event)
    requires Inv(st)
    ensures st.done <= Step(st, ev).done
  {
  }

  /* Unsolicited messages. */

  /** The messages of frames that decode and are indications or notifications, in order. */
  function Unsolicited(evs: seq<Event>): seq<Reply> {
    if evs == [] then []
    else
      (match evs[0]
       case Submit(_) => []
       case Receive(f) => if f.message.Some? && (f.kind == Indication || f.kind == Notification) then [f.message.value] else [])
      + Unsolicited(evs[1..])
  }

  lemma DeliveredByStep(st: State, ev: Event)
    requires Inv(st)
    ensures Step(st, ev).delivered == st.delivered + Unsolicited([ev])
  {
    assert [ev][1..] == [];
  }

  /** Over every run exactly these are delivered: responses, matched or not, unknown kinds, frames that do
      not decode and submissions deliver nothing. */
  lemma {:induction false} DeliveredAreUnsolicited(st: State, evs: seq<Event>)
    requires Inv(st)
    ensures Run(st, evs).delivered == st.delivered + Unsolicited(evs)
    decreases |evs|
  {
    hide Step;
    if evs != [] {
      DeliveredByStep(st, evs[0]);
      StepKeepsInv(st, evs[0]);
      DeliveredAreUnsolicited(Step(st, evs[0]), evs[1..]);
      assert [evs[0]][1..] == [] && Unsolicited([evs[0]]) + Unsolicited(evs[1..]) == Unsolicited(evs);
      AppendAssoc(st.delivered, Unsolicited([evs[0]]), Unsolicited(evs[1..]));
    }
  }

  /* Order. */

  /** A message that will hold a number once it is sent. */
  predicate Plain(m: Message) {
    !m.event && m.payload.Some?
  }

  function Marshalled(ms: seq<Message>): seq<Message> {
    if ms == [] then [] else (if ms[0].payload.Some? then [ms[0]] else []) + Marshalled(ms[1..])
  }

  /** What has left, followed by what is waiting to leave. */
  function Line(st: State): seq<Message> {
    OnWire(st.wire) + Marshalled(st.queue)
  }

  /** A message that can be sent is submitted while a number is free and another one waits. */
  predicate Overtakes(st: State, ev: Event) {
    ev.Submit? && ev.message.payload.Some? && st.free != {} && Marshalled(st.queue) != []
  }

  ghost predicate NobodyOvertakes(st: State, evs: seq<Event>)
    requires Inv(st)
    decreases |evs|
  {
    StepsKeepInv(st);
    evs == [] || (!Overtakes(st, evs[0]) && NobodyOvertakes(Step(st, evs[0]), evs[1..]))
  }

  /** Whoever overtakes is another message than the first one waiting. */
  ghost predicate OvertakersDiffer(st: State, evs: seq<Event>)
    requires Inv(st)
    decreases |evs|
  {
    StepsKeepInv(st);
    evs == [] ||
    ((Overtakes(st, evs[0]) ==> evs[0].message != Marshalled(st.queue)[0]) && OvertakersDiffer(Step(st, evs[0]), evs[1..]))
  }

  lemma {:induction false} MarshalledConcat(a: seq<Message>, b: seq<Message>)
    ensures Marshalled(a + b) == Marshalled(a) + Marshalled(b)
    decreases |a|
  {
    if a == [] {
      assert a + b == b;
    } else {
      assert (a + b)[0] == a[0] && (a + b)[1..] == a[1..] + b;
      MarshalledConcat(a[1..], b);
    }
  }

  lemma MarshalledOne(m: Message)
    ensures Marshalled([m]) == if m.payload.Some? then [m] else []
  {
    assert [m][1..] == [];
  }

  lemma OnWireSnoc(wire: seq<Sent>, s: Sent)
    ensures OnWire(wire + [s]) == OnWire(wire) + [s.message]
  {
    assert (wire + [s])[..|wire|] == wire;
  }

  lemma LineAfterSubmit(st: State, m: Message)
    requires Inv(st)
    ensures var after := DoSubmit(st, m);
            && OnWire(after.wire) == (if st.free != {} && m.payload.Some? then OnWire(st.wire) + [m] else OnWire(st.wire))
            && Marshalled(after.queue) == (if st.free == {} then Marshalled(st.queue) + Marshalled([m]) else Marshalled(st.queue))
  {
    MarshalledConcat(st.queue, [m]);
    hide Marshalled;
    if st.free != {} && m.payload.Some? {
      OnWireSnoc(st.wire, Sent(st.cursor.n, m));
    }
  }

  /** A reply that frees the only number: what was waiting first is submitted with that number free. */
  lemma ReplyTakesHead(st: State, aseq: nat, reply: Reply) returns (popped: State)
    requires Inv(st) && aseq in st.inAir && st.cursor == End && st.queue != []
    ensures Inv(popped) && popped.free == {aseq} && popped.cursor == At(aseq)
    ensures popped.wire == st.wire && popped.queue == st.queue[1..]
    ensures var after := DoReply(st, aseq, reply);
            && after.wire == DoSubmit(popped, st.queue[0]).wire && after.queue == DoSubmit(popped, st.queue[0]).queue
            && after.free == DoSubmit(popped, st.queue[0]).free
  {
    assert st.free + {aseq} == {aseq} && NextFree({aseq}, 0) == At(aseq);
    popped := st.(free := {aseq}, inAir := st.inAir - {aseq}, cursor := At(aseq), queue := st.queue[1..]);
    hide DoSubmit;
  }

  lemma ReplyOnlyFrees(st: State, aseq: nat, reply: Reply)
    requires Inv(st) && aseq in st.inAir && (st.cursor != End || st.queue == [])
    ensures DoReply(st, aseq, reply).wire == st.wire && DoReply(st, aseq, reply).queue == st.queue
  {
  }

  /** A reply moves at most the first message waiting from the queue to the wire. */
  lemma LineAfterReply(st: State, aseq: nat, reply: Reply)
    requires Inv(st) && aseq in st.inAir
    ensures Line(DoReply(st, aseq, reply)) == Line(st) && OnWire(st.wire) <= OnWire(DoReply(st, aseq, reply).wire)
  {
    hide Marshalled, OnWire, DoSubmit, DoReply;
    if st.cursor == End && st.queue != [] {
      var m, rest := st.queue[0], st.queue[1..];
      var popped := ReplyTakesHead(st, aseq, reply);
      LineAfterSubmit(popped, m);
      assert st.queue == [m] + rest;
      MarshalledConcat([m], rest);
      MarshalledOne(m);
    } else {
      ReplyOnlyFrees(st, aseq, reply);
    }
  }

  /** Every step but an overtaking one appends the submitted message to the line. */
  lemma LineStep(st: State, ev: Event)
    requires Inv(st)
    ensures OnWire(st.wire) <= OnWire(Step(st, ev).wire)
    ensures Overtakes(st, ev) ==> OnWire(Step(st, ev).wire) == OnWire(st.wire) + [ev.message]
    ensures !Overtakes(st, ev) ==> Line(Step(st, ev)) == Line(st) + Marshalled(Submitted([ev]))
  {
    hide Marshalled, OnWire, DoSubmit, DoReply, Submitted, Inv;
    SubmittedOne(ev);
    NoneMarshalled();
    match ev
    case Submit(m) =>
      LineAfterSubmit(st, m);
      MarshalledOne(m);
      AppendAssoc(OnWire(st.wire), Marshalled(st.queue), Marshalled([m]));
    case Receive(f) =>
      if f.message.Some? && f.kind == Response && f.aseq in st.inAir {
        LineAfterReply(st, f.aseq, f.message.value);
      }
  }

  lemma SubmittedOne(ev: Event)
    ensures Submitted([ev]) == if ev.Submit? then [ev.message] else []
  {
    assert [ev][1..] == [];
  }

  lemma {:induction false} WireGrows(st: State, evs: seq<Event>)
    requires Inv(st)
    ensures OnWire(st.wire) <= OnWire(Run(st, evs).wire)
    decreases |evs|
  {
    hide Step, OnWire;
    if evs != [] {
      LineStep(st, evs[0]);
      StepKeepsInv(st, evs[0]);
      WireGrows(Step(st, evs[0]), evs[1..]);
    }
  }

  lemma MarshalledCons(evs: seq<Event>)
    requires evs != []
    ensures Marshalled(Submitted(evs)) == Marshalled(Submitted([evs[0]])) + Marshalled(Submitted(evs[1..]))
  {
    SubmittedOne(evs[0]);
    MarshalledConcat(Submitted([evs[0]]), Submitted(evs[1..]));
  }

  /** The order theorem: over every run, however replies interleave, frames leave in submission order,
      those still waiting last, if and only if nobody overtakes. */
  lemma {:induction false} OrderKeptIff(st: State, evs: seq<Event>)
    requires Inv(st) && OvertakersDiffer(st, evs)
    ensures Line(Run(st, evs)) == Line(st) + Marshalled(Submitted(evs)) <==> NobodyOvertakes(st, evs)
    decreases |evs|
  {
    hide Step, OnWire, Marshalled, Submitted;
    if evs == [] {
      NoneMarshalled();
    } else {
      var s1 := Step(st, evs[0]);
      StepKeepsInv(st, evs[0]);
      LineStep(st, evs[0]);
      MarshalledCons(evs);
      if Overtakes(st, evs[0]) {
        WireGrows(s1, evs[1..]);
        var w := OnWire(st.wire);
        assert Line(Run(st, evs))[|w|] == evs[0].message;
        assert (Line(st) + Marshalled(Submitted(evs)))[|w|] == Marshalled(st.queue)[0];
      } else {
        OrderKeptIff(s1, evs[1..]);
        AppendAssoc(Line(st), Marshalled(Submitted([evs[0]])), Marshalled(Submitted(evs[1..])));
      }
    }
  }

  lemma NoneMarshalled()
    ensures Marshalled(Submitted([])) == [] && Marshalled([]) == []
  {
  }

  predicate Distinct(ms: seq<Message>) {
    forall i, j :: 0 <= i < j < |ms| ==> ms[i] != ms[j]
  }

  lemma DistinctWithout(a: seq<Message>, m: Message, b: seq<Message>)
    requires Distinct(a + [m] + b)
    ensures Distinct(a + b) && m !in a
  {
    var s := a + [m] + b;
    forall i, j | 0 <= i < j < |a + b| ensures (a + b)[i] != (a + b)[j] {
      assert (a + b)[i] == s[if i < |a| then i else i + 1] && (a + b)[j] == s[if j < |a| then j else j + 1];
    }
    assert s[|a|] == m && forall i :: 0 <= i < |a| ==> s[i] == a[i];
  }

  lemma {:induction false} MarshalledFrom(ms: seq<Message>)
    ensures forall m :: m in Marshalled(ms) ==> m in ms
  {
    if ms != [] { MarshalledFrom(ms[1..]); }
  }

  lemma QueueStep(st: State, ev: Event)
    requires Inv(st)
    ensures match ev
            case Submit(m) => Step(st, ev).queue in {st.queue, st.queue + [m]}
            case Receive(_) => Step(st, ev).queue == st.queue || (st.queue != [] && Step(st, ev).queue == st.queue[1..])
  {
    if ev.Receive? && ev.frame.message.Some? && ev.frame.kind == Response && ev.frame.aseq in st.inAir {
      hide DoSubmit, DoReply;
      if st.cursor == End && st.queue != [] {
        var popped := ReplyTakesHead(st, ev.frame.aseq, ev.frame.message.value);
        SubmitFree(popped, st.queue[0]);
      } else {
        ReplyOnlyFrees(st, ev.frame.aseq, ev.frame.message.value);
      }
    }
  }

  lemma SubmitFree(st: State, m: Message)
    requires Inv(st) && st.free != {}
    ensures DoSubmit(st, m).queue == st.queue
  {
  }

  lemma DistinctStep(st: State, evs: seq<Event>)
    requires Inv(st) && evs != [] && Distinct(st.queue + Submitted(evs))
    ensures Distinct(Step(st, evs[0]).queue + Submitted(evs[1..]))
    ensures Overtakes(st, evs[0]) ==> evs[0].message != Marshalled(st.queue)[0]
  {
    var q, later := st.queue, Submitted(evs[1..]);
    QueueStep(st, evs[0]);
    MarshalledFrom(q);
    match evs[0]
    case Submit(m) =>
      assert Submitted(evs) == [m] + later;
      hide Step, Inv, Marshalled, Submitted, Distinct;
      AppendAssoc(q, [m], later);
      DistinctWithout(q, m, later);
    case Receive(f) =>
      assert Submitted(evs) == later;
      hide Step, Inv, Marshalled, Submitted, Distinct;
      if q != [] { DistinctTail(q, later); }
  }

  lemma DistinctTail(q: seq<Message>, later: seq<Message>)
    requires q != [] && Distinct(q + later)
    ensures Distinct(q[1..] + later)
  {
    assert q + later == [] + [q[0]] + (q[1..] + later) && [] + (q[1..] + later) == q[1..] + later;
    DistinctWithout([], q[0], q[1..] + later);
  }

  /** Messages that are all different objects satisfy the hypothesis. */
  lemma {:induction false} DistinctMessagesDiffer(st: State, evs: seq<Event>)
    requires Inv(st) && Distinct(st.queue + Submitted(evs))
    ensures OvertakersDiffer(st, evs)
    decreases |evs|
  {
    hide Step, Distinct, Submitted, Overtakes;
    if evs != [] {
      DistinctStep(st, evs);
      StepKeepsInv(st, evs[0]);
      DistinctMessagesDiffer(Step(st, evs[0]), evs[1..]);
    }
  }

  /** Only plain messages are submitted while no number is free. */
  ghost predicate PlainWhenExhausted(st: State, evs: seq<Event>)
    requires Inv(st)
    decreases |evs|
  {
    StepsKeepInv(st);
    evs == [] ||
    ((evs[0].Submit? && st.free == {} ==> Plain(evs[0].message)) && PlainWhenExhausted(Step(st, evs[0]), evs[1..]))
  }

  /** Nothing waits while a number is free, and only plain messages wait. */
  ghost predicate Orderly(st: State) {
    (st.queue != [] ==> st.free == {}) && forall i :: 0 <= i < |st.queue| ==> Plain(st.queue[i])
  }

  lemma OrderlyStep(st: State, ev: Event)
    requires Inv(st) && Orderly(st)
    requires ev.Submit? && st.free == {} ==> Plain(ev.message)
    ensures Orderly(Step(st, ev)) && !Overtakes(st, ev)
  {
    if ev.Receive? && ev.frame.message.Some? && ev.frame.kind == Response && ev.frame.aseq in st.inAir && st.free == {} {
      var n := ev.frame.aseq;
      assert st.free + {n} == {n} && NextFree({n}, 0) == At(n);
    }
  }

  /** So on runs that submit only plain messages while no number is free, an empty or full house of plain
      messages stays one, and nobody overtakes. */
  lemma {:induction false} PlainNeverOvertakes(st: State, evs: seq<Event>)
    requires Inv(st) && Orderly(st) && PlainWhenExhausted(st, evs)
    ensures Orderly(Run(st, evs)) && NobodyOvertakes(st, evs) && OvertakersDiffer(st, evs)
    decreases |evs|
  {
    hide Step, Orderly, Overtakes, Marshalled;
    if evs != [] {
      OrderlyStep(st, evs[0]);
      StepKeepsInv(st, evs[0]);
      PlainNeverOvertakes(Step(st, evs[0]), evs[1..]);
    }
  }

  lemma {:induction false} PlainIsMarshalled(ms: seq<Message>)
    requires forall i :: 0 <= i < |ms| ==> Plain(ms[i])
    ensures Marshalled(ms) == ms
  {
    if ms != [] {
      PlainIsMarshalled(ms[1..]);
      assert ms == [ms[0]] + ms[1..];
    }
  }

  /** The submission order so far, as wire then queue. */
  function Order(st: State): seq<Message> {
    OnWire(st.wire) + st.queue
  }

  /** FIFO under exhaustion: on those runs the wire followed by the queue is the sequence of all
      marshallable submissions. */
  lemma FramesLeaveInOrder(st: State, evs: seq<Event>)
    requires Inv(st) && Orderly(st) && PlainWhenExhausted(st, evs)
    ensures Orderly(Run(st, evs))
    ensures Order(Run(st, evs)) == Order(st) + Marshalled(Submitted(evs))
  {
    PlainNeverOvertakes(st, evs);
    OrderKeptIff(st, evs);
    PlainIsMarshalled(st.queue);
    PlainIsMarshalled(Run(st, evs).queue);
  }

  /** When a number comes free with messages waiting, the pool stays exhausted if and only if the
      message taken from the queue is plain. */
  lemma QueueDrainsIffPlain(st: State, aseq: nat, reply: Reply)
    requires Inv(st) && st.free == {} && aseq in st.inAir && |st.queue| >= 2
    ensures DoReply(st, aseq, reply).free == {} <==> Plain(st.queue[0])
    ensures DoReply(st, aseq, reply).queue == st.queue[1..]
  {
  }

  /** And then a later submission overtakes what is still waiting. */
  lemma WaitingMessageOvertaken(st: State, aseq: nat, reply: Reply, late: Message)
    requires Inv(st) && st.free == {} && aseq in st.inAir && |st.queue| >= 2
    requires !Plain(st.queue[0]) && late.payload.Some?
    ensures Inv(DoReply(st, aseq, reply))
    ensures var after := DoSubmit(DoReply(st, aseq, reply), late);
            after.queue == st.queue[1..] && after.wire != [] && after.wire[|after.wire| - 1].message == late
  {
  }

  /* A run from the start on which order is lost. */

  function Numbered(k: nat): Message {
    Message(k, None, false, Some([]))
  }

  /** k plain submissions. */
  function Submissions(k: nat): seq<Event> {
    if k == 0 then [] else Submissions(k - 1) + [Submit(Numbered(k - 1))]
  }

  lemma ExhaustsStep(st: State, k: nat)
    requires k <= LAST && (forall n :: n in st.free <==> k <= n <= LAST) && st.queue == [] && st.cursor == At(k)
    ensures st.free != {}
    ensures var after := DoSubmit(st, Numbered(k));
            && (forall n :: n in after.free <==> k + 1 <= n <= LAST)
            && after.queue == [] && after.cursor == if k < LAST then At(k + 1) else End
  {
    assert k in st.free;
    if k < LAST {
      assert k + 1 in st.free && k + 1 in st.free - {k};
      assert Advance(st.free, k) == At(k + 1);
    } else {
      assert st.free == {k};
    }
    hide Advance;
  }

  lemma {:induction false} Exhausts(k: nat)
    requires Inv(Initial) && k <= LAST + 1
    ensures var st := Run(Initial, Submissions(k));
            && (forall n :: n in st.free <==> k <= n <= LAST)
            && st.queue == [] && st.cursor == if k <= LAST then At(k) else End
  {
    if k == 0 {
      assert 0 in Initial.free;
    } else {
      Exhausts(k - 1);
      RunSnoc(Initial, Submissions(k - 1), Submit(Numbered(k - 1)));
      var st := Run(Initial, Submissions(k - 1));
      hide Run, Submissions;
      ExhaustsStep(st, k - 1);
    }
  }

  /** 255 requests, an event, one more request, and a reply. */
  function LosingStart(event: Message, waiting: Message): seq<Event> {
    Submissions(LAST + 1) + [Submit(event)] + [Submit(waiting)] + [Receive(Received(Response, 0, Some(OtherMessage(0))))]
  }

  lemma LosingStep(st: State, event: Message, waiting: Message, reply: Reply)
    requires Inv(st) && st.free == {} && st.queue == [] && event.event && event.payload.Some?
    ensures Inv(DoSubmit(st, event)) && Inv(DoSubmit(DoSubmit(st, event), waiting))
    ensures var s2 := DoSubmit(DoSubmit(st, event), waiting);
            0 in s2.inAir && DoReply(s2, 0, reply).queue == [waiting] && DoReply(s2, 0, reply).free == {0}
  {
    SubmitKeepsInv(st, event);
    SubmitKeepsInv(DoSubmit(st, event), waiting);
    assert {0} == st.free + {0} && NextFree({0}, 0) == At(0);
  }

  /** The event left the queue without using the number that came free, and the request behind it waits. */
  lemma EventStrandsQueue(event: Message, waiting: Message)
    requires Inv(Initial) && event.event && event.payload.Some?
    ensures Run(Initial, LosingStart(event, waiting)).queue == [waiting] && Run(Initial, LosingStart(event, waiting)).free == {0}
  {
    var e0, reply := Submissions(LAST + 1), OtherMessage(0);
    Exhausts(LAST + 1);
    var s0 := Run(Initial, e0);
    assert s0.free == {};
    LosingStep(s0, event, waiting, reply);
    RunSnoc(Initial, e0, Submit(event));
    RunSnoc(Initial, e0 + [Submit(event)], Submit(waiting));
    RunSnoc(Initial, e0 + [Submit(event)] + [Submit(waiting)], Receive(Received(Response, 0, Some(reply))));
    hide Run, Submissions, DoSubmit, DoReply;
  }

  /** One event is enough: from the initial state, order is lost whatever the event and the two plain
      messages behind it are. The last message submitted leaves before the one submitted before it. */
  lemma EventBreaksOrder(event: Message, waiting: Message, late: Message)
    requires Inv(Initial) && event.event && event.payload.Some? && Plain(waiting) && Plain(late) && waiting != late
    ensures var evs := LosingStart(event, waiting) + [Submit(late)];
            var st := Run(Initial, evs);
            && st.queue == [waiting] && st.wire != [] && st.wire[|st.wire| - 1].message == late
            && Line(st) != Line(Initial) + Marshalled(Submitted(evs))
  {
    hide Run, Submissions, LosingStart, Line, Submitted, Marshalled;
    EventStrandsQueue(event, waiting);
    RunSnoc(Initial, LosingStart(event, waiting), Submit(late));
    LosingLine(Run(Initial, LosingStart(event, waiting)), LosingStart(event, waiting), waiting, late);
  }

  lemma LosingLine(st: State, before: seq<Event>, waiting: Message, late: Message)
    requires Inv(st) && st.queue == [waiting] && st.free != {} && Plain(waiting) && Plain(late) && waiting != late
    ensures var after := DoSubmit(st, late);
            && after.queue == [waiting] && after.wire != [] && after.wire[|after.wire| - 1].message == late
            && Line(after) != Line(Initial) + Marshalled(Submitted(before + [Submit(late)]))
  {
    SubmittedConcat(before, [Submit(late)]);
    SubmittedOne(Submit(late));
    MarshalledConcat(Submitted(before), [late]);
    MarshalledOne(late);
    MarshalledOne(waiting);
    var expected := Line(Initial) + Marshalled(Submitted(before + [Submit(late)]));
    var line := Line(DoSubmit(st, late));
    assert expected[|expected| - 1] == late && line[|line| - 1] == waiting;
  }

  lemma {:induction false} SubmittedConcat(a: seq<Event>, b: seq<Event>)
    ensures Submitted(a + b) == Submitted(a) + Submitted(b)
    decreases |a|
  {
    if a == [] {
      assert a + b == b;
    } else {
      assert (a + b)[0] == a[0] && (a + b)[1..] == a[1..] + b;
      SubmittedConcat(a[1..], b);
    }
  }

  /* Cyclic fairness. */

  /** Steps forward, 1..255, from number a to number b around the circle 0..254. */
  function Ahead(a: nat, b: nat): int {
    if b > a then b - a else b - a + LAST + 1
  }

  /** From a, the cursor's number c is reached no later than x. */
  predicate NotPast(a: nat, c: nat, x: nat) {
    Ahead(a, c) <= Ahead(a, x)
  }

  /** Since frame `from`, x was sent with no frame numbered n before it. */
  ghost predicate HadItsTurn(st: State, from: nat, n: nat, x: nat) {
    exists k :: from <= k < |st.wire| && st.wire[k].mseq == x && forall j :: from <= j < k ==> st.wire[j].mseq != n
  }

  /** Since frame `from`, neither x nor n was sent, x is free, and the cursor comes to x before n. */
  ghost predicate Due(st: State, from: nat, n: nat, x: nat) {
    && x in st.free && st.cursor.At? && NotPast(n, st.cursor.n, x)
    && from <= |st.wire| && forall k :: from <= k < |st.wire| ==> st.wire[k].mseq != x && st.wire[k].mseq != n
  }

  lemma AdvanceNotPast(free: set<nat>, n: nat, x: nat)
    requires x in free && n in free && n != x && forall k :: k in free ==> k <= LAST
    ensures Advance(free, n).At? && NotPast(n, Advance(free, n).n, x)
  {
  }

  lemma TurnStep(st: State, ev: Event, from: nat, n: nat, x: nat)
    requires Inv(st) && n <= LAST && x <= LAST && n != x && (Due(st, from, n, x) || HadItsTurn(st, from, n, x))
    ensures Due(Step(st, ev), from, n, x) || HadItsTurn(Step(st, ev), from, n, x)
  {
    var s1 := Step(st, ev);
    SendingStep(st, ev);
    if HadItsTurn(st, from, n, x) {
      var k :| from <= k < |st.wire| && st.wire[k].mseq == x && forall j :: from <= j < k ==> st.wire[j].mseq != n;
      assert s1.wire[k] == st.wire[k] && forall j :: from <= j < k ==> s1.wire[j] == st.wire[j];
    } else if s1.wire != st.wire {
      var c := st.cursor.n;
      assert s1.wire[|st.wire|].mseq == c && forall j :: from <= j < |st.wire| ==> s1.wire[j] == st.wire[j];
      if c != x { AdvanceNotPast(st.free, c, x); }
    }
  }

  lemma {:induction false} TurnRun(st: State, evs: seq<Event>, from: nat, n: nat, x: nat)
    requires Inv(st) && n <= LAST && x <= LAST && n != x && (Due(st, from, n, x) || HadItsTurn(st, from, n, x))
    ensures var r := Run(st, evs); Due(r, from, n, x) || HadItsTurn(r, from, n, x)
    decreases |evs|
  {
    hide Step, Due, HadItsTurn;
    if evs != [] {
      TurnStep(st, evs[0], from, n, x);
      StepKeepsInv(st, evs[0]);
      TurnRun(Step(st, evs[0]), evs[1..], from, n, x);
    }
  }

  /** Allocation is cyclically fair: take any step that sends a frame numbered n and leaves x free. Over
      every run from there, x is sent before n is sent again. */
  lemma AllocationIsFair(st: State, ev: Event, evs: seq<Event>, n: nat, x: nat, j: nat)
    requires Inv(st) && Inv(Step(st, ev)) && x in Step(st, ev).free && x != n
    requires |Step(st, ev).wire| == |st.wire| + 1 && Step(st, ev).wire[|st.wire|].mseq == n
    requires |st.wire| < j < |Run(Step(st, ev), evs).wire| && Run(Step(st, ev), evs).wire[j].mseq == n
    ensures exists k :: |st.wire| < k < j && Run(Step(st, ev), evs).wire[k].mseq == x
  {
    var s1 := Step(st, ev);
    SendingStep(st, ev);
    AdvanceNotPast(st.free, n, x);
    assert Due(s1, |s1.wire|, n, x);
    TurnRun(s1, evs, |s1.wire|, n, x);
  }
}
