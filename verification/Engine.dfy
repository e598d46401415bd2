/** The IPC request engine: sequence numbers 0..254, a cyclic allocation cursor, messages in air and an
    overflow queue. States are values here; class IPCSocketHandler below updates them in place. */
module Engine {
  import opened Bytes

  const LAST: nat := 0xFE

  /** The completion functions messages are subscribed with, and the argument passed to them. */
  datatype CompletionFunction = NetworkScanDone | BandModeDone | NetworkModeDone | PlmnSelectionDone | PhonePowerDone | OtherDone

  datatype Subscriber = Subscriber(function_: CompletionFunction, argument: nat)

  /** A message object: who is subscribed to its completion, whether its request type is EVENT, and
      what it marshals to (None if marshalling fails). */
  datatype Message = Message(id: nat, subscriber: Option<Subscriber>, event: bool, payload: Option<seq<Byte>>)

  /** A decoded message, as far as the completion functions tell messages apart. */
  datatype Reply = PlmnList | CommandComplete(status: nat) | OtherMessage(content: nat)

  /** A frame sent: the sequence number it carried and its message. */
  datatype Sent = Sent(mseq: nat, message: Message)

  /** A call of Message::complete; None is the null reply of a failed marshalling. */
  datatype Completion = Completion(request: Message, reply: Option<Reply>)

  /** A std::set iterator over the free numbers. */
  datatype Cursor = End | At(n: nat)

  datatype State = State(
    free: set<nat>,
    inAir: map<nat, Message>,
    queue: seq<Message>,
    cursor: Cursor,
    wire: seq<Sent>,
    done: seq<Completion>,
    delivered: seq<Reply>)

  datatype ResponseType = Indication | Response | Notification | Unknown

  /** A received frame: its header fields, and its message if the factory knew it and it decoded. */
  datatype Received = Received(kind: ResponseType, aseq: nat, message: Option<Reply>)

  datatype Event = Submit(message: Message) | Receive(frame: Received)

  /** The smallest free number from `from` on: lower_bound, and ++ of an iterator. */
  function NextFree(free: set<nat>, from: nat): (c: Cursor)
    ensures c.At? ==> c.n in free && from <= c.n <= LAST && forall k :: from <= k < c.n ==> k !in free
    ensures c.End? ==> forall k :: from <= k <= LAST ==> k !in free
    decreases LAST + 1 - from
  {
    if from > LAST then End else if from in free then At(from) else NextFree(free, from + 1)
  }

  /** ++ with wrap-around at the end of the set. */
  function Advance(free: set<nat>, n: nat): Cursor {
    if NextFree(free, n + 1) == End then NextFree(free, 0) else NextFree(free, n + 1)
  }

  const Initial: State := State(set n: nat | 0 <= n <= LAST, map[], [], At(0), [], [], [])

  function Send(st: State, m: Message): State
    requires st.cursor.At? && m.payload.Some?
  {
    var n := st.cursor.n;
    var next := Advance(st.free, n);
    var sent := st.(wire := st.wire + [Sent(n, m)]);
    if m.event then sent.(cursor := next)
    else sent.(free := st.free - {n}, inAir := st.inAir[n := m], cursor := if st.free == {n} then End else next)
  }

  function DoSubmit(st: State, m: Message): State
    requires st.free != {} ==> st.cursor.At?
  {
    if st.free == {} then st.(queue := st.queue + [m])
    else if m.payload.None? then st.(done := st.done + [Completion(m, None)])
    else Send(st, m)
  }

  /** A decoded response to the message in air under aseq. */
  function DoReply(st: State, aseq: nat, reply: Reply): State
    requires aseq in st.inAir && aseq <= LAST
  {
    var freed := st.(free := st.free + {aseq}, inAir := st.inAir - {aseq});
    var next :=
      if st.cursor != End then freed
      else
        var begun := freed.(cursor := NextFree(freed.free, 0));
        if begun.queue == [] then begun
        else DoSubmit(begun.(queue := begun.queue[1..]), begun.queue[0]);
    next.(done := next.done + [Completion(st.inAir[aseq], Some(reply))])
  }

  function DoReceive(st: State, frame: Received): State
    requires Inv(st)
  {
    if frame.message.None? then st
    else match frame.kind
      case Indication => st.(delivered := st.delivered + [frame.message.value])
      case Notification => st.(delivered := st.delivered + [frame.message.value])
      case Response => if frame.aseq in st.inAir then DoReply(st, frame.aseq, frame.message.value) else st
      case Unknown => st
  }

  /** Free numbers and numbers in air partition 0..254; the cursor stands on a free number, if any. */
  ghost predicate Inv(st: State) {
    && (forall n :: n in st.free || n in st.inAir ==> n <= LAST)
    && (forall n :: 0 <= n <= LAST ==> (n in st.free <==> n !in st.inAir))
    && (st.cursor == End <==> st.free == {})
    && (st.cursor.At? ==> st.cursor.n in st.free)
  }

  function Step(st: State, ev: Event): State
    requires Inv(st)
  {
    match ev
    case Submit(m) => DoSubmit(st, m)
    case Receive(frame) => DoReceive(st, frame)
  }

  lemma SubmitKeepsInv(st: State, m: Message)
    requires Inv(st)
    ensures Inv(DoSubmit(st, m))
  {
  }

  lemma ReplyKeepsInv(st: State, aseq: nat, reply: Reply)
    requires Inv(st) && aseq in st.inAir
    ensures Inv(DoReply(st, aseq, reply))
  {
    var freed := st.(free := st.free + {aseq}, inAir := st.inAir - {aseq});
    assert aseq in freed.free;
    if st.cursor == End {
      var begun := freed.(cursor := NextFree(freed.free, 0));
      assert Inv(begun);
      if begun.queue != [] {
        SubmitKeepsInv(begun.(queue := begun.queue[1..]), begun.queue[0]);
      }
    }
  }

  lemma StepKeepsInv(st: State, ev: Event)
    requires Inv(st)
    ensures Inv(Step(st, ev))
  {
    match ev
    case Submit(m) => SubmitKeepsInv(st, m);
    case Receive(f) =>
      if f.message.Some? && f.kind == Response && f.aseq in st.inAir {
        ReplyKeepsInv(st, f.aseq, f.message.value);
      }
  }

  /** The engine after a run of events. */
  function Run(st: State, evs: seq<Event>): (r: State)
    requires Inv(st)
    ensures Inv(r)
    decreases |evs|
  {
    StepsKeepInv(st);
    if evs == [] then st else Run(Step(st, evs[0]), evs[1..])
  }

  lemma StepsKeepInv(st: State)
    requires Inv(st)
    ensures forall ev :: Inv(Step(st, ev))
  {
    forall ev ensures Inv(Step(st, ev)) { StepKeepsInv(st, ev); }
  }

  lemma {:induction false} RunConcat(st: State, a: seq<Event>, b: seq<Event>)
    requires Inv(st)
    ensures Run(st, a + b) == Run(Run(st, a), b)
    decreases |a|
  {
    hide Step;
    if a == [] {
      assert a + b == b;
    } else {
      StepKeepsInv(st, a[0]);
      assert (a + b)[1..] == a[1..] + b;
      RunConcat(Step(st, a[0]), a[1..], b);
    }
  }

  /** A run's last step. */
  lemma RunSnoc(st: State, evs: seq<Event>, ev: Event)
    requires Inv(st)
    ensures Run(st, evs + [ev]) == Step(Run(st, evs), ev)
  {
    hide Step;
    RunConcat(st, evs, [ev]);
    var before := Run(st, evs);
    StepKeepsInv(before, ev);
    assert [ev][1..] == [] && Run(Step(before, ev), []) == Step(before, ev);
  }

  /** The handler of the IPC channel, updating its tables in place. */
  class IPCSocketHandler {
    var freeSequenceNumbers: set<nat>
    var messagesInAir: map<nat, Message>
    var messageQueue: seq<Message>
    var allocationCursor: Cursor
    /** Frames handed to sendData, calls of complete, and messages delivered unsolicited. */
    var wire: seq<Sent>
    var completions: seq<Completion>
    var delivered: seq<Reply>

    ghost function Abs(): State
      reads this
    {
      State(freeSequenceNumbers, messagesInAir, messageQueue, allocationCursor, wire, completions, delivered)
    }

    ghost predicate Valid()
      reads this
    {
      Inv(Abs())
    }

    constructor ()
      ensures Valid() && Abs() == Initial
      ensures forall n :: n in freeSequenceNumbers <==> 0 <= n <= 254
      ensures allocationCursor == At(0) && messagesInAir == map[] && messageQueue == []
    {
      freeSequenceNumbers, messagesInAir, messageQueue := {}, map[], [];
      allocationCursor, wire, completions, delivered := End, [], [], [];
      new;
      var i := 0;
      while i <= LAST
        invariant i <= LAST + 1 && forall n: nat :: n in freeSequenceNumbers <==> n < i
        invariant messagesInAir == map[] && messageQueue == [] && wire == [] && completions == [] && delivered == []
      {
        freeSequenceNumbers := freeSequenceNumbers + {i};
        i := i + 1;
      }
      assert 0 in freeSequenceNumbers && freeSequenceNumbers == Initial.free;
      allocationCursor := NextFree(freeSequenceNumbers, 0);
    }

    method Submit(message: Message)
      requires Valid()
      modifies this
      ensures Valid() && Abs() == DoSubmit(old(Abs()), message)
    {
      SubmitKeepsInv(Abs(), message);
      if |freeSequenceNumbers| == 0 {
        messageQueue := messageQueue + [message];
        return;
      }
      if message.payload.None? {
        completions := completions + [Completion(message, None)];
        return;
      }
      var val := allocationCursor.n;
      allocationCursor := NextFree(freeSequenceNumbers, val + 1);
      if allocationCursor == End {
        allocationCursor := NextFree(freeSequenceNumbers, 0);
      }
      wire := wire + [Sent(val, message)];
      if !message.event {
        freeSequenceNumbers := freeSequenceNumbers - {val};
        if freeSequenceNumbers == {} {
          allocationCursor := End;
        }
        messagesInAir := messagesInAir[val := message];
      }
    }

    /** The RESP branch, for a number in air: the freed number goes to the queue's head before the
        answered request is completed. */
    method HandleResponse(aseq: nat, message: Reply)
      requires Valid() && aseq in messagesInAir
      modifies this
      ensures Valid() && Abs() == DoReply(old(Abs()), aseq, message)
    {
      ReplyKeepsInv(Abs(), aseq, message);
      var request := messagesInAir[aseq];
      freeSequenceNumbers := freeSequenceNumbers + {aseq};
      messagesInAir := messagesInAir - {aseq};
      if allocationCursor == End {
        allocationCursor := NextFree(freeSequenceNumbers, 0);
        assert aseq in freeSequenceNumbers;
        if |messageQueue| > 0 {
          var queued := messageQueue[0];
          messageQueue := messageQueue[1..];
          Submit(queued);
        }
      }
      completions := completions + [Completion(request, Some(message))];
    }

    method HandleMessage(frame: Received)
      requires Valid()
      modifies this
      ensures Valid() && Abs() == DoReceive(old(Abs()), frame)
    {
      StepKeepsInv(Abs(), Receive(frame));
      if frame.message.None? {
        return;
      }
      var message := frame.message.value;
      match frame.kind {
        case Indication => delivered := delivered + [message];
        case Notification => delivered := delivered + [message];
        case Response =>
          if frame.aseq in messagesInAir {
            HandleResponse(frame.aseq, message);
          }
        case Unknown =>
      }
    }
  }
}
