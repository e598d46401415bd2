/** The boot loader dialogue as a script: what the host sends, what it waits for, and in which order;
    and the judgement whether a log of socket events follows it. */
module Protocol {
  import opened Bytes

  const SET_PORT_CONF: nat := 0x86
  const REQ_SEC_START: nat := 0x204
  const REQ_SEC_END: nat := 0x205
  const REQ_FORCE_HW_RESET: nat := 0x208
  const REQ_FLASH_SET_ADDRESS: nat := 0x802
  const REQ_FLASH_WRITE_BLOCK: nat := 0x804

  const BLOCK: nat := 16384
  const HEADER: nat := 8
  const BOOT_INFO: nat := 76

  /* Checksums and packets. */

  function Sum(data: seq<Byte>): nat {
    if data == [] then 0 else Sum(data[..|data| - 1]) + data[|data| - 1]
  }

  function Check(cmd: nat, data: seq<Byte>): nat {
    (|data| + cmd + Sum(data)) % 0x1_0000
  }

  function Xor(data: seq<Byte>): bv8 {
    if data == [] then 0 else Xor(data[..|data| - 1]) ^ (data[|data| - 1] as bv8)
  }

  function Capacity(cmd: nat): nat {
    if cmd == SET_PORT_CONF then 0x800 else 0x4000
  }

  /** check, cmd, data_size, the data, zeros up to the fixed size. */
  function Packet(cmd: nat, data: seq<Byte>): (p: seq<Byte>)
    requires |data| <= Capacity(cmd)
  {
    ToLE(Check(cmd, data), 2) + ToLE(cmd, 2) + ToLE(|data|, 4) + data + Fill(0, Capacity(cmd) - |data|)
  }

  /** A packet's fields are where the boot loader looks for them, and its size depends on the command only. */
  lemma PacketLayout(cmd: nat, data: seq<Byte>)
    requires |data| <= Capacity(cmd) && cmd < 0x1_0000
    ensures var p := Packet(cmd, data);
            && |p| == HEADER + Capacity(cmd)
            && FromLE(p[0..2]) == (|data| + cmd + Sum(data)) % 0x1_0000
            && FromLE(p[2..4]) == cmd && FromLE(p[4..8]) == |data|
            && p[HEADER..HEADER + |data|] == data
            && forall i :: HEADER + |data| <= i < |p| ==> p[i] == 0
  {
    hide ToLE, FromLE, Sum;
    var p := Packet(cmd, data);
    Widths();
    FromToLE(Check(cmd, data), 2);
    FromToLE(cmd, 2);
    FromToLE(|data|, 4);
    assert p[0..2] == ToLE(Check(cmd, data), 2) && p[2..4] == ToLE(cmd, 2) && p[4..8] == ToLE(|data|, 4);
    assert p[HEADER..HEADER + |data|] == data;
  }

  /** Both sums are those of the bytes, each counted once. */
  lemma {:induction false} SumOfAll(a: seq<Byte>, b: Byte, c: seq<Byte>)
    ensures Sum(a + [b] + c) == Sum(a) + b as int + Sum(c) && Sum([]) == 0
    decreases |c|
  {
    if c == [] {
      assert a + [b] + c == a + [b] && (a + [b])[..|a|] == a;
    } else {
      assert (a + [b] + c)[..|a + [b] + c| - 1] == a + [b] + c[..|c| - 1];
      SumOfAll(a, b, c[..|c| - 1]);
    }
  }

  lemma {:induction false} XorOfAll(a: seq<Byte>, b: Byte, c: seq<Byte>)
    ensures Xor(a + [b] + c) == Xor(a) ^ (b as bv8) ^ Xor(c) && Xor([]) == 0
    decreases |c|
  {
    if c == [] {
      assert a + [b] + c == a + [b] && (a + [b])[..|a|] == a;
    } else {
      assert (a + [b] + c)[..|a + [b] + c| - 1] == a + [b] + c[..|c| - 1];
      XorOfAll(a, b, c[..|c| - 1]);
    }
  }

  /** The xor byte after an image makes the whole cancel out. */
  lemma XorCancels(data: seq<Byte>, crc: Byte)
    requires crc as bv8 == Xor(data)
    ensures Xor(data + [crc]) == 0
  {
  }

  /** An image in write-block units. */
  function Blocks(image: seq<Byte>): seq<seq<Byte>> {
    if image == [] then []
    else if |image| <= BLOCK then [image]
    else [image[..BLOCK]] + Blocks(image[BLOCK..])
  }

  /** The blocks are ceil(n / 16384) many, all full but the last, and concatenate to the image. */
  lemma {:induction false} BlocksCover(image: seq<Byte>)
    ensures Flatten(Blocks(image)) == image
    ensures |Blocks(image)| == (|image| + BLOCK - 1) / BLOCK
    ensures forall i :: 0 <= i < |Blocks(image)| ==>
              |Blocks(image)[i]| == if i < |Blocks(image)| - 1 then BLOCK else |image| - i * BLOCK
    ensures forall i :: 0 <= i < |Blocks(image)| ==> 0 < |Blocks(image)[i]| <= BLOCK
    decreases |image|
  {
    if |image| > BLOCK {
      BlocksCover(image[BLOCK..]);
      FlattenCons(image[..BLOCK], Blocks(image[BLOCK..]));
      assert image == image[..BLOCK] + image[BLOCK..];
      var n := |Blocks(image)|;
      forall i | 0 <= i < n ensures |Blocks(image)[i]| == if i < n - 1 then BLOCK else |image| - i * BLOCK {
        if i > 0 { assert Blocks(image)[i] == Blocks(image[BLOCK..])[i - 1]; }
      }
    } else if image != [] {
      FlattenCons(image, []);
      assert [image] + [] == [image] && image + [] == image;
    }
  }

  /* Socket events and scripts. */

  /** What happened on the transport, in order. Sent records how much of the data was accepted. */
  datatype Entry =
    | Connected(up: bool)
    | Sent(data: seq<Byte>, accepted: nat)
    | Got(want: nat, bytes: seq<Byte>)
    | Closed
    | Redetected(back: bool)

  datatype Reply = NonEmpty | Exactly(bytes: seq<Byte>) | Whole | Answering(cmd: nat)

  datatype Item =
    | Connect
    | Send(data: seq<Byte>)
    | Stream(image: seq<Byte>, chunk: nat)   // sends until everything is accepted, chunk bytes at most each
    | Expect(want: nat, reply: Reply)
    | RelayInfo                              // receives the boot information and sends it back as a command
    | Close
    | Redetect

  predicate Passes(reply: Reply, want: nat, bytes: seq<Byte>) {
    match reply
    case NonEmpty => bytes != []
    case Exactly(b) => bytes == b
    case Whole => |bytes| == want
    case Answering(cmd) => |bytes| == HEADER && FromLE(bytes[2..4]) == cmd
  }

  function Front(image: seq<Byte>, chunk: nat): seq<Byte> {
    if |image| <= chunk then image else image[..chunk]
  }

  /** One command: the packet, and, unless it is a reset or a block, the echoed header and payload. */
  function Command(cmd: nat, data: seq<Byte>): seq<Item>
    requires |data| <= Capacity(cmd)
  {
    [Send(Packet(cmd, data))] +
    if cmd == REQ_FORCE_HW_RESET || cmd == REQ_FLASH_WRITE_BLOCK then []
    else [Expect(HEADER, Answering(cmd)), Expect(Capacity(cmd), Whole)]
  }

  /** Open: the log follows the script, which still wants the given items. Stopped: it follows the script
      up to a failed wait, and nothing comes after. */
  datatype Verdict = Open(rest: seq<Item>) | Stopped | Mismatch

  function Judge(log: seq<Entry>, script: seq<Item>): Verdict
    decreases |log|, |script|
  {
    if script != [] && script[0].Stream? && script[0].image == [] then Judge(log, script[1..])
    else if log == [] then Open(script)
    else if script == [] then Mismatch
    else
      var next, later := log[1..], script[1..];
      match (script[0], log[0])
      case (Connect, Connected(up)) => if up then Judge(next, later) else Fail(next)
      case (Redetect, Redetected(back)) => if back then Judge(next, later) else Fail(next)
      case (Close, Closed) => Judge(next, later)
      case (Send(data), Sent(data', _)) => if data == data' then Judge(next, later) else Mismatch
      case (Stream(image, chunk), Sent(data, n)) =>
        if data == Front(image, chunk) && 0 < n <= |data| then Judge(next, [Stream(image[n..], chunk)] + later) else Mismatch
      case (Expect(want, reply), Got(want', bytes)) =>
        if want != want' then Mismatch else if Passes(reply, want, bytes) then Judge(next, later) else Fail(next)
      case (RelayInfo, Got(want, bytes)) =>
        if want != BOOT_INFO then Mismatch
        else if |bytes| == BOOT_INFO then Judge(next, Command(SET_PORT_CONF, bytes) + later) else Fail(next)
      case _ => Mismatch
  }

  /** A failed wait must be the end of the log. */
  function Fail(next: seq<Entry>): Verdict {
    if next == [] then Stopped else Mismatch
  }

  /** The log is the whole script, or it stops inside it at a wait that failed. */
  ghost predicate Follows(log: seq<Entry>, script: seq<Item>, complete: bool) {
    Judge(log, script) == if complete then Open([]) else Stopped
  }

  /** Leading empty streams removed. */
  function Trim(script: seq<Item>): seq<Item> {
    if script != [] && script[0].Stream? && script[0].image == [] then Trim(script[1..]) else script
  }

  lemma {:induction false} JudgeTrimmed(log: seq<Entry>, script: seq<Item>)
    ensures Judge(log, Trim(script)) == Judge(log, script)
    ensures Judge([], script) == Open(Trim(script))
    decreases |script|
  {
    if script != [] && script[0].Stream? && script[0].image == [] { JudgeTrimmed(log, script[1..]); }
  }

  /** Judging a log in two parts. */
  lemma {:induction false} JudgeConcat(a: seq<Entry>, b: seq<Entry>, script: seq<Item>)
    ensures match Judge(a, script)
            case Open(rest) => Judge(a + b, script) == Judge(b, rest)
            case Stopped => Judge(a + b, script) == if b == [] then Stopped else Mismatch
            case Mismatch => Judge(a + b, script) == Mismatch
    decreases |a|, |script|
  {
    hide Passes, Command;
    if script != [] && script[0].Stream? && script[0].image == [] {
      JudgeConcat(a, b, script[1..]);
    } else if a == [] {
      assert a + b == b;
    } else if script != [] {
      assert (a + b)[0] == a[0] && (a + b)[1..] == a[1..] + b;
      JudgeConcat(a[1..], b, script[1..]);
      match (script[0], a[0])
      case (Stream(image, chunk), Sent(data, n)) =>
        if data == Front(image, chunk) && 0 < n <= |data| { JudgeConcat(a[1..], b, [Stream(image[n..], chunk)] + script[1..]); }
      case (RelayInfo, Got(want, bytes)) =>
        if want == BOOT_INFO && |bytes| == BOOT_INFO { JudgeConcat(a[1..], b, Command(SET_PORT_CONF, bytes) + script[1..]); }
      case _ =>
    }
  }

  /** Judging against a longer script. */
  lemma {:induction false} JudgeAppend(log: seq<Entry>, s: seq<Item>, more: seq<Item>)
    ensures match Judge(log, s)
            case Open(rest) => Judge(log, s + more) == if rest == [] then Open(Trim(more)) else Open(rest + more)
            case Stopped => Judge(log, s + more) == Stopped
            case Mismatch => true
    decreases |log|, |s|
  {
    if s == [] {
      assert s + more == more;
      JudgeTrimmed([], more);
    } else {
      assert (s + more)[0] == s[0] && (s + more)[1..] == s[1..] + more;
      if s[0].Stream? && s[0].image == [] {
        JudgeAppend(log, s[1..], more);
      } else if log != [] {
        JudgeAppend(log[1..], s[1..], more);
        match (s[0], log[0])
        case (Stream(image, chunk), Sent(data, n)) =>
          if data == Front(image, chunk) && 0 < n <= |data| {
            AppendAssoc([Stream(image[n..], chunk)], s[1..], more);
            JudgeAppend(log[1..], [Stream(image[n..], chunk)] + s[1..], more);
          }
        case (RelayInfo, Got(want, bytes)) =>
          if want == BOOT_INFO && |bytes| == BOOT_INFO {
            AppendAssoc(Command(SET_PORT_CONF, bytes), s[1..], more);
            JudgeAppend(log[1..], Command(SET_PORT_CONF, bytes) + s[1..], more);
          }
        case _ =>
      }
    }
  }

  /** Finishing one script and following another follows their concatenation. */
  lemma FollowsConcat(a: seq<Entry>, s1: seq<Item>, b: seq<Entry>, s2: seq<Item>, complete: bool)
    requires Follows(a, s1, true) && Follows(b, s2, complete)
    ensures Follows(a + b, s1 + s2, complete)
  {
    hide Judge;
    JudgeAppend(a, s1, s2);
    JudgeConcat(a, b, s1 + s2);
    JudgeTrimmed(b, s2);
  }

  /** Stopping inside a script is stopping inside any longer one. */
  lemma FollowsPrefix(a: seq<Entry>, s1: seq<Item>, s2: seq<Item>)
    requires Follows(a, s1, false)
    ensures Follows(a, s1 + s2, false)
  {
    hide Judge;
    JudgeAppend(a, s1, s2);
  }
}
