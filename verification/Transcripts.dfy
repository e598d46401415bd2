/** Boot loader dialogues in plain terms: what a log must contain, entry by entry, and the proof that a log
    which follows a script to its end contains it. */
module Transcripts {
  import opened Bytes
  import opened Protocol

  /* What logs contain. */

  /** What the transport accepted of the sends in a log, joined. */
  function Transferred(log: seq<Entry>): seq<Byte> {
    if log == [] then []
    else (if log[0].Sent? && log[0].accepted <= |log[0].data| then log[0].data[..log[0].accepted] else []) + Transferred(log[1..])
  }

  /** An image going out: sends only, short ones continued, every byte once and in order. */
  ghost predicate ImageLogged(log: seq<Entry>, image: seq<Byte>, chunk: nat) {
    && (forall i :: 0 <= i < |log| ==> log[i].Sent? && 0 < log[i].accepted <= |log[i].data| <= chunk)
    && Transferred(log) == image
  }

  /** p is a packet for cmd with this payload: checksum, command and size in its first eight bytes, the
      payload, zeros up to the fixed size. */
  ghost predicate IsCommand(p: seq<Byte>, cmd: nat, payload: seq<Byte>, size: nat) {
    && |p| == 8 + size && |payload| <= size
    && IsInteger(p[0..2], (|payload| + cmd + Sum(payload)) % 65536)
    && IsInteger(p[2..4], cmd) && IsInteger(p[4..8], |payload|)
    && p[8..8 + |payload|] == payload
    && forall i :: 8 + |payload| <= i < |p| ==> p[i] == 0
  }

  ghost predicate CommandSent(e: Entry, cmd: nat, payload: seq<Byte>, size: nat) {
    e.Sent? && IsCommand(e.data, cmd, payload, size)
  }

  /** A command and its echo: the packet, a header naming the command, and a whole reply. */
  ghost predicate CommandLogged(log: seq<Entry>, cmd: nat, payload: seq<Byte>, size: nat) {
    && |log| == 3
    && CommandSent(log[0], cmd, payload, size)
    && log[1].Got? && log[1].want == 8 == |log[1].bytes| && IsInteger(log[1].bytes[2..4], cmd)
    && log[2].Got? && log[2].want == size == |log[2].bytes|
  }

  /** Bytes 16384 i up to the next block, or the end. */
  function BlockOf(image: seq<Byte>, i: nat): seq<Byte>
    requires 16384 * i <= |image|
  {
    if 16384 * i + 16384 <= |image| then image[16384 * i..16384 * i + 16384] else image[16384 * i..]
  }

  /** A flash image going out: its address, acknowledged, then block after block. */
  ghost predicate FlashLogged(log: seq<Entry>, address: seq<Byte>, image: seq<Byte>) {
    && |log| == 3 + (|image| + 16383) / 16384
    && CommandLogged(log[..3], 0x802, address, 0x4000)
    && forall i :: 0 <= i < |log| - 3 ==> CommandSent(log[3 + i], 0x804, BlockOf(image, i), 0x4000)
  }

  /** n acknowledgements of one byte each. */
  ghost predicate Acknowledged(log: seq<Entry>, n: nat) {
    |log| == n && forall i :: 0 <= i < n ==> log[i].Got? && log[i].want == 1 && log[i].bytes != []
  }

  /** The sum that follows an image: the xor of its bytes. */
  ghost predicate XorSent(e: Entry, image: seq<Byte>) {
    e.Sent? && |e.data| == 1 && e.data[0] as bv8 == Xor(image)
  }

  ghost predicate PsiLogged(log: seq<Entry>, image: seq<Byte>) {
    exists n: nat :: PsiLoggedAt(log, image, n)
  }

  /** "ATAT", two acknowledgements, the header, the image in n sends, its xor, 25 acknowledgements. */
  ghost predicate PsiLoggedAt(log: seq<Entry>, image: seq<Byte>, n: nat) {
    && |log| == n + 30
    && log[0].Sent? && log[0].data == [65, 84, 65, 84] && Acknowledged(log[1..3], 2)
    && log[3].Sent? && |log[3].data| == 4 && log[3].data[0] == 0x30 && IsInteger(log[3].data[1..3], |image| % 65536)
    && log[3].data[3] == 0xFF
    && ImageLogged(log[4..4 + n], image, |image|)
    && XorSent(log[4 + n], image) && Acknowledged(log[5 + n..27 + n], 22)
    && log[27 + n] == Got(1, [0x01]) && log[28 + n] == Got(1, [0x01]) && log[29 + n] == Got(2, [0x00, 0xAA])
  }

  ghost predicate EblLogged(log: seq<Entry>, image: seq<Byte>) {
    exists n: nat :: EblLoggedAt(log, image, n)
  }

  /** The length, acknowledged, the image in n sends, its xor, acknowledged. */
  ghost predicate EblLoggedAt(log: seq<Entry>, image: seq<Byte>, n: nat) {
    && |log| == n + 4
    && log[0].Sent? && |log[0].data| == 4 && IsInteger(log[0].data, |image| % 0x1_0000_0000)
    && log[1] == Got(2, [0xCC, 0xCC])
    && ImageLogged(log[2..2 + n], image, 32768)
    && XorSent(log[2 + n], image) && log[3 + n] == Got(2, [0x51, 0xA5])
  }

  /* Taking logs apart. */

  /** A log of two scripts, both complete, is one of each. */
  lemma {:induction false} JudgeSplit(log: seq<Entry>, s1: seq<Item>, s2: seq<Item>) returns (a: seq<Entry>, b: seq<Entry>)
    requires Judge(log, s1 + s2) == Open([])
    ensures log == a + b && Judge(a, s1) == Open([]) && Judge(b, s2) == Open([])
    decreases |log|, |s1|
  {
    if s1 == [] {
      assert s1 + s2 == s2;
      a, b := [], log;
      assert [] + log == log && Judge(a, s1) == Open([]);
    } else {
      assert (s1 + s2)[0] == s1[0] && (s1 + s2)[1..] == s1[1..] + s2;
      hide Passes, Command, Front;
      if s1[0].Stream? && s1[0].image == [] {
        a, b := JudgeSplit(log, s1[1..], s2);
      } else {
        var rest := s1[1..];
        match (s1[0], log[0]) {
          case (Stream(image, chunk), Sent(data, n)) => rest := [Stream(image[n..], chunk)] + s1[1..]; AppendAssoc([Stream(image[n..], chunk)], s1[1..], s2);
          case (RelayInfo, Got(want, bytes)) => rest := Command(SET_PORT_CONF, bytes) + s1[1..]; AppendAssoc(Command(SET_PORT_CONF, bytes), s1[1..], s2);
          case _ =>
        }
        var a': seq<Entry>;
        a', b := JudgeSplit(log[1..], rest, s2);
        a := [log[0]] + a';
        assert a[1..] == a' && log == [log[0]] + log[1..];
        AppendAssoc([log[0]], a', b);
      }
    }
  }

  /** Entry and item agree, where the item is neither a stream nor the relayed information. */
  predicate Agrees(e: Entry, item: Item) {
    match item
    case Connect => e == Connected(true)
    case Redetect => e == Redetected(true)
    case Close => e == Closed
    case Send(data) => e.Sent? && e.data == data
    case Expect(want, reply) => e.Got? && e.want == want && Passes(reply, want, e.bytes)
    case _ => false
  }

  /** Without those two, a complete log has one entry per item. */
  lemma {:induction false} Straight(log: seq<Entry>, script: seq<Item>)
    requires Judge(log, script) == Open([]) && forall i :: 0 <= i < |script| ==> !script[i].Stream? && !script[i].RelayInfo?
    ensures |log| == |script| && forall i :: 0 <= i < |log| ==> Agrees(log[i], script[i])
    decreases |script|
  {
    hide Passes;
    if script != [] {
      assert log != [] && Agrees(log[0], script[0]);
      Straight(log[1..], script[1..]);
      forall i | 0 <= i < |log| ensures Agrees(log[i], script[i]) {
        if i > 0 { assert log[1..][i - 1] == log[i] && script[1..][i - 1] == script[i]; }
      }
    }
  }

  /** A complete log of a stream is the image going out. */
  lemma {:induction false} StreamLogged(log: seq<Entry>, image: seq<Byte>, chunk: nat)
    requires Judge(log, [Stream(image, chunk)]) == Open([])
    ensures ImageLogged(log, image, if image == [] then 0 else chunk)
    decreases |log|
  {
    assert [Stream(image, chunk)][1..] == [];
    if image == [] {
      assert log == [] by { assert Judge(log, []) == Open([]); }
    } else {
      var data, n := log[0].data, log[0].accepted;
      var after := [Stream(image[n..], chunk)];
      assert after + [] == after;
      assert Judge(log[1..], after) == Open([]);
      StreamLogged(log[1..], image[n..], chunk);
      assert data[..n] == image[..n] && image == image[..n] + image[n..];
      forall i | 0 <= i < |log| ensures log[i].Sent? && 0 < log[i].accepted <= |log[i].data| <= chunk {
        if i > 0 { assert log[1..][i - 1] == log[i]; }
      }
    }
  }

  /** The information received is what was sent back. */
  lemma RelayLogged(log: seq<Entry>) returns (info: seq<Byte>)
    requires Judge(log, [RelayInfo]) == Open([])
    ensures |info| == 76 && |log| == 4 && log[0] == Got(76, info) && CommandLogged(log[1..], 0x86, info, 0x800)
  {
    hide Command;
    assert log != [] && [RelayInfo][1..] == [];
    info := log[0].bytes;
    assert Command(SET_PORT_CONF, info) + [] == Command(SET_PORT_CONF, info);
    CommandIsLogged(log[1..], SET_PORT_CONF, info);
  }

  lemma PacketIsCommand(cmd: nat, payload: seq<Byte>)
    requires |payload| <= Capacity(cmd) && cmd < 0x1_0000
    ensures IsCommand(Packet(cmd, payload), cmd, payload, Capacity(cmd))
  {
    var p := Packet(cmd, payload);
    PacketLayout(cmd, payload);
    FromLEIsInteger(p[0..2]);
    FromLEIsInteger(p[2..4]);
    FromLEIsInteger(p[4..8]);
    hide Packet, FromLE, Sum, IsInteger;
  }

  lemma CommandIsLogged(log: seq<Entry>, cmd: nat, payload: seq<Byte>)
    requires |payload| <= Capacity(cmd) && cmd < 0x1_0000 && cmd != REQ_FORCE_HW_RESET && cmd != REQ_FLASH_WRITE_BLOCK
    requires Judge(log, Command(cmd, payload)) == Open([])
    ensures CommandLogged(log, cmd, payload, Capacity(cmd))
  {
    var c := Command(cmd, payload);
    assert c == [Send(Packet(cmd, payload)), Expect(HEADER, Answering(cmd)), Expect(Capacity(cmd), Whole)];
    PacketIsCommand(cmd, payload);
    Straight(log, c);
    assert Agrees(log[0], c[0]) && Agrees(log[1], c[1]) && Agrees(log[2], c[2]);
    FromLEIsInteger(log[1].bytes[2..4]);
    hide Judge, Packet, IsCommand, FromLE, IsInteger;
  }

  lemma {:induction false} BlockAt(image: seq<Byte>, i: nat)
    requires i < |Blocks(image)|
    ensures 16384 * i <= |image| && Blocks(image)[i] == BlockOf(image, i)
    decreases i
  {
    if i > 0 {
      BlockAt(image[BLOCK..], i - 1);
    }
  }

  /** A packet cut to the size its own header gives. */
  function PayloadOf(e: Entry): seq<Byte> {
    if e.Sent? && |e.data| >= 8 then
      var p := e.data;
      var size: nat := p[4] as int + 256 * (p[5] as int) + 65536 * (p[6] as int) + 16777216 * (p[7] as int);
      if 8 + size <= |p| then p[8..8 + size] else []
    else []
  }

  function PayloadsOf(log: seq<Entry>): (ps: seq<seq<Byte>>)
    ensures |ps| == |log| && forall i :: 0 <= i < |log| ==> ps[i] == PayloadOf(log[i])
  {
    seq(|log|, i requires 0 <= i < |log| => PayloadOf(log[i]))
  }

  /** So the write-block packets in the log of a flash image, cut to their size, are the image. */
  lemma FlashDelivers(log: seq<Entry>, address: seq<Byte>, image: seq<Byte>)
    requires FlashLogged(log, address, image)
    ensures Flatten(PayloadsOf(log[3..])) == image
  {
    BlocksCover(image);
    var blocks := Blocks(image);
    hide Blocks, CommandLogged;
    forall i | 0 <= i < |blocks| ensures PayloadOf(log[3..][i]) == blocks[i] {
      BlockAt(image, i);
      assert CommandSent(log[3 + i], 0x804, BlockOf(image, i), 0x4000);
      PayloadIs(log[3 + i], BlockOf(image, i));
    }
    assert PayloadsOf(log[3..]) == blocks;
  }

  lemma PayloadIs(e: Entry, payload: seq<Byte>)
    requires CommandSent(e, 0x804, payload, 0x4000)
    ensures PayloadOf(e) == payload
  {
    var p := e.data;
    assert p[4..8][0] == p[4] && p[4..8][1] == p[5] && p[4..8][2] == p[6] && p[4..8][3] == p[7];
  }
}
