/** SamsungModem::boot over a transport that may refuse, time out, or accept only part of a send. */
module BootLoader {
  import opened Bytes
  import opened Protocol
  import opened Transcripts

  /** l1 extends l0 by a log that follows the script: all of it if ok, else up to a wait that failed. */
  ghost predicate Ran(l0: seq<Entry>, l1: seq<Entry>, script: seq<Item>, ok: bool) {
    l0 <= l1 && Follows(l1[|l0|..], script, ok)
  }

  lemma RanThen(l0: seq<Entry>, l1: seq<Entry>, l2: seq<Entry>, s1: seq<Item>, s2: seq<Item>, ok: bool)
    requires Ran(l0, l1, s1, true) && Ran(l1, l2, s2, ok)
    ensures Ran(l0, l2, s1 + s2, ok)
  {
    hide Follows;
    FollowsConcat(l1[|l0|..], s1, l2[|l1|..], s2, ok);
    assert l2[|l0|..] == l1[|l0|..] + l2[|l1|..];
  }

  lemma RanInto(l0: seq<Entry>, l1: seq<Entry>, s1: seq<Item>, s2: seq<Item>)
    requires Ran(l0, l1, s1, false)
    ensures Ran(l0, l1, s1 + s2, false)
  {
    FollowsPrefix(l1[|l0|..], s1, s2);
  }

  lemma RanNothing(l: seq<Entry>)
    ensures Ran(l, l, [], true)
  {
  }

  /** One event against one item. */
  lemma RanOne(l: seq<Entry>, e: Entry, item: Item, ok: bool)
    requires match item
             case Connect => e == Connected(ok)
             case Redetect => e == Redetected(ok)
             case Close => e == Closed && ok
             case Send(data) => e.Sent? && e.data == data && ok
             case Expect(want, reply) => e.Got? && e.want == want && ok == Passes(reply, want, e.bytes)
             case _ => false
    ensures Ran(l, l + [e], [item], ok)
  {
    var log := (l + [e])[|l|..];
    assert log == [e] && [e][1..] == [] && [item][1..] == [];
    assert Judge([], []) == Open([]);
  }

  /* The phases of a boot. */

  const RESET_MAGIC: nat := 0x00111001
  const FIRMWARE_ADDRESS: nat := 0x60300000
  const NVDATA_ADDRESS: nat := 0x60e80000

  function Acks(n: nat): (s: seq<Item>)
    ensures |s| == n
  {
    if n == 0 then [] else Acks(n - 1) + [Expect(1, NonEmpty)]
  }

  /** "ATAT", the chip id, the header with the image size, the image, its xor, and 24 acknowledgements. */
  function Greeting(): seq<Item> {
    [Send([65, 84, 65, 84])] + Acks(2)
  }

  function PsiAcks(): seq<Item> {
    Acks(22) + LastAcks()
  }

  function Crc(image: seq<Byte>): Byte {
    Xor(image) as int
  }

  function PsiScript(image: seq<Byte>): seq<Item> {
    Greeting() + [Send([0x30] + ToLE(|image|, 2) + [0xFF]), Stream(image, |image|), Send([Crc(image)])] + PsiAcks()
  }

  function EblScript(image: seq<Byte>): seq<Item> {
    [Send(ToLE(|image|, 4)), Expect(2, Exactly([0xCC, 0xCC])), Stream(image, 32768), Send([Crc(image)]), Expect(2, Exactly([0x51, 0xA5]))]
  }

  function WriteBlocks(blocks: seq<seq<Byte>>): seq<Item>
    requires forall i :: 0 <= i < |blocks| ==> |blocks[i]| <= BLOCK
  {
    if blocks == [] then [] else WriteBlocks(blocks[..|blocks| - 1]) + Command(REQ_FLASH_WRITE_BLOCK, blocks[|blocks| - 1])
  }

  function FlashScript(address: nat, image: seq<Byte>): seq<Item> {
    BlocksCover(image);
    Command(REQ_FLASH_SET_ADDRESS, ToLE(address, 4)) + WriteBlocks(Blocks(image))
  }

  function SecureScript(f: Files): seq<Item> {
    Command(REQ_SEC_START, f.secure.GetOr([])) + FlashScript(FIRMWARE_ADDRESS, f.firmware.GetOr([])) +
    FlashScript(NVDATA_ADDRESS, f.nvdata.GetOr([])) + Command(REQ_SEC_END, [0, 0])
  }

  /** The five firmware parts the modem needs; None where the file system cannot supply one. */
  datatype Part = Missing | Present(bytes: seq<Byte>) {
    function GetOr(default: seq<Byte>): seq<Byte> {
      if Present? then bytes else default
    }
  }

  type SmallPart = p: Part | |p.GetOr([])| <= 0x4000 witness Missing

  datatype Files = Files(psi: Part, ebl: Part, secure: SmallPart, firmware: Part, nvdata: Part)

  /** The whole dialogue. */
  function BootScript(f: Files): seq<Item> {
    Phases(f, 6)
  }

  /** Connection, then the first k of the six phases. */
  function Phases(f: Files, k: nat): seq<Item>
    requires k <= 6
  {
    if k == 0 then [Connect]
    else Phases(f, k - 1) + match k
      case 1 => PsiScript(f.psi.GetOr([]))
      case 2 => EblScript(f.ebl.GetOr([]))
      case 3 => [RelayInfo]
      case 4 => SecureScript(f)
      case 5 => Command(REQ_FORCE_HW_RESET, ToLE(RESET_MAGIC, 4))
      case _ => [Close, Redetect]
  }

  /** How many phases the files are there for. */
  function Reach(f: Files): (k: nat)
    ensures k <= 6
  {
    if f.psi.Missing? then 0
    else if f.ebl.Missing? then 1
    else if f.secure.Missing? || f.firmware.Missing? || f.nvdata.Missing? then 3
    else 6
  }

  /* Complete logs, entry by entry. */

  lemma {:induction false} WriteBlocksAt(blocks: seq<seq<Byte>>)
    requires forall i :: 0 <= i < |blocks| ==> |blocks[i]| <= BLOCK
    ensures |WriteBlocks(blocks)| == |blocks|
    ensures forall i :: 0 <= i < |blocks| ==> WriteBlocks(blocks)[i] == Item.Send(Packet(REQ_FLASH_WRITE_BLOCK, blocks[i]))
  {
    hide Packet;
    if blocks != [] { WriteBlocksAt(blocks[..|blocks| - 1]); }
  }

  /** A complete flash log holds the address and exactly the image, block by block. */
  lemma FlashIsLogged(log: seq<Entry>, address: nat, image: seq<Byte>)
    requires Judge(log, FlashScript(address, image)) == Open([])
    ensures FlashLogged(log, ToLE(address, 4), image)
  {
    BlocksCover(image);
    var blocks := Blocks(image);
    var first := Command(REQ_FLASH_SET_ADDRESS, ToLE(address, 4));
    hide Judge, Packet;
    var a, b := JudgeSplit(log, first, WriteBlocks(blocks));
    CommandIsLogged(a, REQ_FLASH_SET_ADDRESS, ToLE(address, 4));
    WriteBlocksAt(blocks);
    hide Packet, Command, WriteBlocks, Blocks, CommandSent, CommandLogged, BlockOf, Flatten, Judge, Agrees, ToLE;
    Straight(b, WriteBlocks(blocks));
    assert log[..3] == a;
    forall i | 0 <= i < |log| - 3 ensures CommandSent(log[3 + i], 0x804, BlockOf(image, i), 0x4000) {
      assert log[3 + i] == b[i];
      SendLogged(b[i], WriteBlocks(blocks)[i]);
      BlockAt(image, i);
      BlockIsSent(b[i], blocks[i]);
    }
  }

  lemma BlockIsSent(e: Entry, block: seq<Byte>)
    requires |block| <= BLOCK && e.Sent? && e.data == Packet(REQ_FLASH_WRITE_BLOCK, block)
    ensures CommandSent(e, 0x804, block, 0x4000)
  {
    PacketIsCommand(REQ_FLASH_WRITE_BLOCK, block);
    hide Packet, IsCommand;
  }

  lemma {:induction false} AcksAt(n: nat)
    ensures forall i :: 0 <= i < n ==> Acks(n)[i] == Expect(1, NonEmpty)
  {
    if n > 0 { AcksAt(n - 1); }
  }

  lemma AcksLogged(log: seq<Entry>, n: nat)
    requires Judge(log, Acks(n)) == Open([])
    ensures Acknowledged(log, n)
  {
    AcksAt(n);
    Straight(log, Acks(n));
    hide Judge, Acks;
    forall i | 0 <= i < n ensures log[i].Got? && log[i].want == 1 && log[i].bytes != [] {
      assert Agrees(log[i], Acks(n)[i]);
    }
  }

  /** One send, a stream and one more send. */
  lemma SendsLogged(log: seq<Entry>, first: seq<Byte>, image: seq<Byte>, chunk: nat, last: seq<Byte>) returns (n: nat)
    requires Judge(log, [Item.Send(first), Stream(image, chunk), Item.Send(last)]) == Open([])
    ensures |log| == n + 2 && log[0].Sent? && log[0].data == first && log[n + 1].Sent? && log[n + 1].data == last
    ensures ImageLogged(log[1..1 + n], image, if image == [] then 0 else chunk)
  {
    var s, t, u := [Item.Send(first)], [Stream(image, chunk)], [Item.Send(last)];
    assert [Item.Send(first), Stream(image, chunk), Item.Send(last)] == s + (t + u);
    var a, bc := JudgeSplit(log, s, t + u);
    var b, c := JudgeSplit(bc, t, u);
    Straight(a, s);
    StreamLogged(b, image, chunk);
    Straight(c, u);
    n := |b|;
    hide Judge, ImageLogged;
    assert Agrees(a[0], s[0]) && Agrees(c[0], u[0]);
    assert log[1..1 + n] == b && log[0] == a[0] && log[n + 1] == c[0];
  }

  lemma SmallerChunk(log: seq<Entry>, image: seq<Byte>, c1: nat, c2: nat)
    requires ImageLogged(log, image, c1) && c1 <= c2
    ensures ImageLogged(log, image, c2)
  {
  }

  lemma PsiHeader(size: nat)
    ensures var h := [0x30] + ToLE(size, 2) + [0xFF];
            |h| == 4 && h[0] == 0x30 && IsInteger(h[1..3], size % 65536) && h[3] == 0xFF
  {
    var h: seq<Byte> := [0x30] + ToLE(size, 2) + [0xFF];
    assert h[1..3] == ToLE(size, 2);
    LowBytes(size);
  }

  /** The two and the four low bytes of an integer. */
  lemma LowBytes(v: nat)
    ensures IsInteger(ToLE(v, 2), v % 65536) && IsInteger(ToLE(v, 4), v % 0x1_0000_0000)
  {
    var b0, q1 := v % 256, v / 256;
    var b1, q2 := q1 % 256, q1 / 256;
    var b2, q3 := q2 % 256, q2 / 256;
    var b3, q4 := q3 % 256, q3 / 256;
    assert ToLE(q1, 1) == [b1] + [];
    assert ToLE(v, 2) == [b0, b1];
    FourBytes(v);
    LowPart(v, b0 + 256 * b1, q2, 65536);
    LowPart(v, b0 + 256 * b1 + 65536 * b2 + 16777216 * b3, q4, 0x1_0000_0000);
    hide ToLE;
  }

  lemma LowPart(v: nat, low: nat, high: nat, m: nat)
    requires low < m && m in {65536, 0x1_0000_0000} && v == low + m * high
    ensures v % m == low
  {
  }

  lemma PsiIsLogged(log: seq<Entry>, image: seq<Byte>)
    requires Judge(log, PsiScript(image)) == Open([])
    ensures PsiLogged(log, image)
  {
    var header := [0x30] + ToLE(|image|, 2) + [0xFF];
    var body := [Item.Send(header), Stream(image, |image|), Item.Send([Crc(image)])];
    assert PsiScript(image) == Greeting() + body + PsiAcks();
    PsiHeader(|image|);
    hide Judge, ToLE, ImageLogged, Acks, PsiAcks, Greeting, Acknowledged, IsInteger, PsiScript, PsiLoggedAt;
    var ga, c := JudgeSplit(log, Greeting() + body, PsiAcks());
    var g, b := JudgeSplit(ga, Greeting(), body);
    GreetingLogged(g);
    var n := SendsLogged(b, header, image, |image|, [Crc(image)]);
    PsiAcksLogged(c);
    PsiAssembled(log, image, g, b, c, n);
  }

  lemma PsiAssembled(log: seq<Entry>, image: seq<Byte>, g: seq<Entry>, b: seq<Entry>, c: seq<Entry>, n: nat)
    requires log == g + b + c && |g| == 3 && |b| == n + 2 && |c| == 25
    requires g[0].Sent? && g[0].data == [65, 84, 65, 84] && Acknowledged(g[1..], 2)
    requires b[0].Sent? && |b[0].data| == 4 && b[0].data[0] == 0x30 && IsInteger(b[0].data[1..3], |image| % 65536)
    requires b[0].data[3] == 0xFF && XorSent(b[n + 1], image) && ImageLogged(b[1..1 + n], image, if image == [] then 0 else |image|)
    requires Acknowledged(c[..22], 22) && c[22] == Got(1, [0x01]) && c[23] == Got(1, [0x01]) && c[24] == Got(2, [0x00, 0xAA])
    ensures PsiLoggedAt(log, image, n)
  {
    hide ImageLogged, Acknowledged, IsInteger, XorSent;
    assert log[0] == g[0] && log[1..3] == g[1..];
    assert log[3] == b[0] && log[4 + n] == b[n + 1] && log[4..4 + n] == b[1..1 + n];
    assert log[5 + n..27 + n] == c[..22] && log[27 + n] == c[22] && log[28 + n] == c[23] && log[29 + n] == c[24];
  }

  lemma GreetingLogged(log: seq<Entry>)
    requires Judge(log, Greeting()) == Open([])
    ensures |log| == 3 && log[0].Sent? && log[0].data == [65, 84, 65, 84] && Acknowledged(log[1..], 2)
  {
    var first := [Item.Send([65, 84, 65, 84])];
    assert Greeting() == first + Acks(2);
    hide Judge, Acks, Greeting, Acknowledged;
    var a, b := JudgeSplit(log, first, Acks(2));
    Straight(a, first);
    AcksLogged(b, 2);
    assert Agrees(a[0], first[0]) && log[1..] == b;
    assert |b| == 2 by { AcksCount(b, 2); }
  }

  lemma AcksCount(log: seq<Entry>, n: nat)
    requires Acknowledged(log, n)
    ensures |log| == n
  {
  }

  function LastAcks(): seq<Item> {
    [Expect(1, Exactly([0x01])), Expect(1, Exactly([0x01])), Expect(2, Exactly([0x00, 0xAA]))]
  }

  lemma LastAcksLogged(log: seq<Entry>)
    requires Judge(log, LastAcks()) == Open([])
    ensures log == [Got(1, [0x01]), Got(1, [0x01]), Got(2, [0x00, 0xAA])]
  {
    hide Judge, Agrees;
    Straight(log, LastAcks());
    AckLogged(log[0], 1, [0x01], LastAcks()[0]);
    AckLogged(log[1], 1, [0x01], LastAcks()[1]);
    AckLogged(log[2], 2, [0x00, 0xAA], LastAcks()[2]);
  }

  lemma PsiAcksLogged(log: seq<Entry>)
    requires Judge(log, PsiAcks()) == Open([])
    ensures |log| == 25 && Acknowledged(log[..22], 22)
    ensures log[22] == Got(1, [0x01]) && log[23] == Got(1, [0x01]) && log[24] == Got(2, [0x00, 0xAA])
  {
    hide Judge, Acks, LastAcks, Acknowledged;
    assert PsiAcks() == Acks(22) + LastAcks();
    var a, b := JudgeSplit(log, Acks(22), LastAcks());
    AcksLogged(a, 22);
    AcksCount(a, 22);
    LastAcksLogged(b);
    assert log[..22] == a && log[22] == b[0] && log[23] == b[1] && log[24] == b[2];
  }

  lemma AckLogged(e: Entry, want: nat, bytes: seq<Byte>, item: Item)
    requires item == Expect(want, Exactly(bytes)) && Agrees(e, item)
    ensures e == Got(want, bytes)
  {
  }

  lemma SendLogged(e: Entry, item: Item)
    requires item.Send? && Agrees(e, item)
    ensures e.Sent? && e.data == item.data
  {
  }

  lemma EblIsLogged(log: seq<Entry>, image: seq<Byte>)
    requires Judge(log, EblScript(image)) == Open([])
    ensures EblLogged(log, image)
  {
    var first := [Item.Send(ToLE(|image|, 4)), Expect(2, Exactly([0xCC, 0xCC]))];
    var t, last := [Stream(image, 32768)], [Item.Send([Crc(image)]), Expect(2, Exactly([0x51, 0xA5]))];
    assert EblScript(image) == first + (t + last);
    hide Judge, Agrees, Xor;
    var a, bc := JudgeSplit(log, first, t + last);
    var b, c := JudgeSplit(bc, t, last);
    Straight(a, first);
    StreamLogged(b, image, 32768);
    Straight(c, last);
    LowBytes(|image|);
    SmallerChunk(b, image, if image == [] then 0 else 32768, 32768);
    hide Judge, ToLE, ImageLogged, IsInteger, Agrees, Xor;
    SendLogged(a[0], first[0]);
    AckLogged(a[1], 2, [0xCC, 0xCC], first[1]);
    SendLogged(c[0], last[0]);
    AckLogged(c[1], 2, [0x51, 0xA5], last[1]);
    EblAssembled(log, image, a, b, c);
  }

  lemma EblAssembled(log: seq<Entry>, image: seq<Byte>, a: seq<Entry>, b: seq<Entry>, c: seq<Entry>)
    requires log == a + (b + c) && |a| == 2 && |c| == 2
    requires a[0].Sent? && |a[0].data| == 4 && IsInteger(a[0].data, |image| % 0x1_0000_0000) && a[1] == Got(2, [0xCC, 0xCC])
    requires ImageLogged(b, image, 32768) && XorSent(c[0], image) && c[1] == Got(2, [0x51, 0xA5])
    ensures EblLogged(log, image)
  {
    hide ImageLogged, IsInteger, XorSent;
    var n := |b|;
    assert log[2..2 + n] == b && log[0] == a[0] && log[1] == a[1] && log[2 + n] == c[0] && log[3 + n] == c[1];
    assert EblLoggedAt(log, image, n);
  }

  /** The pieces of a boot log. */
  datatype Dialogue = Dialogue(
    psi: seq<Entry>,
    ebl: seq<Entry>,
    info: seq<Byte>,
    conf: seq<Entry>,
    secure: seq<Entry>,
    firmware: seq<Entry>,
    nvdata: seq<Entry>,
    end: seq<Entry>,
    reset: Entry)

  /** A complete boot: connection, PSI, EBL, the boot information sent back, the secure image between
      security start and end with firmware and NV data at their addresses, reset, and redetection. */
  ghost predicate BootLogged(log: seq<Entry>, f: Files, d: Dialogue) {
    && log == [Connected(true)] + d.psi + d.ebl + ([Got(76, d.info)] + d.conf) + (d.secure + d.firmware + d.nvdata + d.end)
              + [d.reset] + [Closed, Redetected(true)]
    && PsiLogged(d.psi, f.psi.GetOr([])) && EblLogged(d.ebl, f.ebl.GetOr([]))
    && |d.info| == 76 && CommandLogged(d.conf, 0x86, d.info, 0x800)
    && CommandLogged(d.secure, 0x204, f.secure.GetOr([]), 0x4000)
    && FlashLogged(d.firmware, [0x00, 0x00, 0x30, 0x60], f.firmware.GetOr([]))
    && FlashLogged(d.nvdata, [0x00, 0x00, 0xE8, 0x60], f.nvdata.GetOr([]))
    && CommandLogged(d.end, 0x205, [0, 0], 0x4000)
    && CommandSent(d.reset, 0x208, [0x01, 0x10, 0x11, 0x00], 0x4000)
  }

  lemma Addresses()
    ensures ToLE(FIRMWARE_ADDRESS, 4) == [0x00, 0x00, 0x30, 0x60]
    ensures ToLE(NVDATA_ADDRESS, 4) == [0x00, 0x00, 0xE8, 0x60]
    ensures ToLE(RESET_MAGIC, 4) == [0x01, 0x10, 0x11, 0x00]
  {
    FourBytes(FIRMWARE_ADDRESS);
    FourBytes(NVDATA_ADDRESS);
    FourBytes(RESET_MAGIC);
  }

  lemma FourBytes(v: nat)
    ensures ToLE(v, 4) == [v % 256, v / 256 % 256, v / 256 / 256 % 256, v / 256 / 256 / 256 % 256]
  {
    var q2 := v / 256 / 256;
    assert ToLE(q2, 2) == [q2 % 256] + ([q2 / 256 % 256] + []);
    assert ToLE(v, 4) == [v % 256] + ([v / 256 % 256] + ToLE(q2, 2));
  }

  lemma SecureIsLogged(log: seq<Entry>, f: Files) returns (a: seq<Entry>, b: seq<Entry>, c: seq<Entry>, e: seq<Entry>)
    requires Judge(log, SecureScript(f)) == Open([])
    ensures log == a + b + c + e && CommandLogged(a, 0x204, f.secure.GetOr([]), 0x4000)
    ensures FlashLogged(b, [0x00, 0x00, 0x30, 0x60], f.firmware.GetOr([])) && FlashLogged(c, [0x00, 0x00, 0xE8, 0x60], f.nvdata.GetOr([]))
    ensures CommandLogged(e, 0x205, [0, 0], 0x4000)
  {
    var s1, s2 := Command(REQ_SEC_START, f.secure.GetOr([])), FlashScript(FIRMWARE_ADDRESS, f.firmware.GetOr([]));
    var s3, s4 := FlashScript(NVDATA_ADDRESS, f.nvdata.GetOr([])), Command(REQ_SEC_END, [0, 0]);
    Addresses();
    hide Judge, Command, FlashScript, ToLE, CommandLogged, FlashLogged;
    var abc, ab;
    abc, e := JudgeSplit(log, s1 + s2 + s3, s4);
    ab, c := JudgeSplit(abc, s1 + s2, s3);
    a, b := JudgeSplit(ab, s1, s2);
    CommandIsLogged(a, REQ_SEC_START, f.secure.GetOr([]));
    FlashIsLogged(b, FIRMWARE_ADDRESS, f.firmware.GetOr([]));
    FlashIsLogged(c, NVDATA_ADDRESS, f.nvdata.GetOr([]));
    CommandIsLogged(e, REQ_SEC_END, [0, 0]);
  }

  lemma ResetIsLogged(log: seq<Entry>)
    requires Judge(log, Command(REQ_FORCE_HW_RESET, ToLE(RESET_MAGIC, 4))) == Open([])
    ensures |log| == 1 && CommandSent(log[0], 0x208, [0x01, 0x10, 0x11, 0x00], 0x4000)
  {
    Addresses();
    var s := Command(REQ_FORCE_HW_RESET, ToLE(RESET_MAGIC, 4));
    PacketIsCommand(REQ_FORCE_HW_RESET, ToLE(RESET_MAGIC, 4));
    assert s == [Item.Send(Packet(REQ_FORCE_HW_RESET, ToLE(RESET_MAGIC, 4)))];
    hide Judge, Packet, Command, IsCommand;
    Straight(log, s);
    assert Agrees(log[0], s[0]);
  }

  lemma BootPieces(log: seq<Entry>, f: Files)
    returns (lp: seq<Entry>, le: seq<Entry>, li: seq<Entry>, ls: seq<Entry>, lr: seq<Entry>)
    requires Judge(log, BootScript(f)) == Open([])
    ensures log == [Connected(true)] + lp + le + li + ls + lr + [Closed, Redetected(true)]
    ensures Judge(lp, PsiScript(f.psi.GetOr([]))) == Open([]) && Judge(le, EblScript(f.ebl.GetOr([]))) == Open([])
    ensures Judge(li, [RelayInfo]) == Open([]) && Judge(ls, SecureScript(f)) == Open([])
    ensures Judge(lr, Command(REQ_FORCE_HW_RESET, ToLE(RESET_MAGIC, 4))) == Open([])
  {
    var s1, p, e, s := [Item.Connect], PsiScript(f.psi.GetOr([])), EblScript(f.ebl.GetOr([])), SecureScript(f);
    var r, z := Command(REQ_FORCE_HW_RESET, ToLE(RESET_MAGIC, 4)), [Item.Close, Item.Redetect];
    PhasesUnfold(f);
    hide Judge, Command, ToLE, PsiScript, EblScript, SecureScript, BootScript;
    var l6, l5, l4, l3, l2, l1, lz;
    l6, lz := JudgeSplit(log, s1 + p + e + [RelayInfo] + s + r, z);
    l5, lr := JudgeSplit(l6, s1 + p + e + [RelayInfo] + s, r);
    l4, ls := JudgeSplit(l5, s1 + p + e + [RelayInfo], s);
    l3, li := JudgeSplit(l4, s1 + p + e, [RelayInfo]);
    l2, le := JudgeSplit(l3, s1 + p, e);
    l1, lp := JudgeSplit(l2, s1, p);
    ConnectedLog(l1);
    ClosingLog(lz);
  }

  lemma PhasesUnfold(f: Files)
    ensures BootScript(f) == [Item.Connect] + PsiScript(f.psi.GetOr([])) + EblScript(f.ebl.GetOr([])) + [RelayInfo] + SecureScript(f)
                             + Command(REQ_FORCE_HW_RESET, ToLE(RESET_MAGIC, 4)) + [Item.Close, Item.Redetect]
  {
    hide PsiScript, EblScript, SecureScript, Command, ToLE;
    assert Phases(f, 3) == Phases(f, 2) + [RelayInfo] && Phases(f, 2) == Phases(f, 1) + EblScript(f.ebl.GetOr([]));
    assert Phases(f, 5) == Phases(f, 4) + Command(REQ_FORCE_HW_RESET, ToLE(RESET_MAGIC, 4)) && Phases(f, 4) == Phases(f, 3) + SecureScript(f);
    assert Phases(f, 1) == Phases(f, 0) + PsiScript(f.psi.GetOr([]));
  }

  lemma ConnectedLog(log: seq<Entry>)
    requires Judge(log, [Item.Connect]) == Open([])
    ensures log == [Connected(true)]
  {
    Straight(log, [Item.Connect]);
    assert Agrees(log[0], Item.Connect);
  }

  lemma ClosingLog(log: seq<Entry>)
    requires Judge(log, [Item.Close, Item.Redetect]) == Open([])
    ensures log == [Closed, Redetected(true)]
  {
    var z := [Item.Close, Item.Redetect];
    Straight(log, z);
    hide Judge;
    assert Agrees(log[0], z[0]) && Agrees(log[1], z[1]);
  }

  /** A log that follows the boot script to its end is a complete boot. */
  lemma BootIsLogged(log: seq<Entry>, f: Files) returns (d: Dialogue)
    requires Judge(log, BootScript(f)) == Open([])
    ensures BootLogged(log, f, d)
  {
    hide Judge, Command, ToLE, BootScript, PsiScript, EblScript, SecureScript, CommandLogged, FlashLogged, PsiLogged, EblLogged, CommandSent;
    var lp, le, li, ls, lr := BootPieces(log, f);
    PsiIsLogged(lp, f.psi.GetOr([]));
    EblIsLogged(le, f.ebl.GetOr([]));
    var info := RelayLogged(li);
    assert li == [Got(76, info)] + li[1..];
    var a, b, c, x := SecureIsLogged(ls, f);
    ResetIsLogged(lr);
    assert lr == [lr[0]];
    d := Dialogue(lp, le, info, li[1..], a, b, c, x, lr[0]);
  }

  lemma RanFlash(l0: seq<Entry>, l1: seq<Entry>, address: nat, image: seq<Byte>)
    requires Ran(l0, l1, FlashScript(address, image), true)
    ensures FlashLogged(l1[|l0|..], ToLE(address, 4), image)
  {
    FlashIsLogged(l1[|l0|..], address, image);
  }

  lemma RanBoot(l0: seq<Entry>, l1: seq<Entry>, f: Files)
    requires Ran(l0, l1, BootScript(f), true)
    ensures exists d :: BootLogged(l1[|l0|..], f, d)
  {
    var d := BootIsLogged(l1[|l0|..], f);
  }

  /** The transport. What it will answer is in fields the caller knows nothing about: `up` and `back` for
      connect and redetect, `limits` for how much of each send it accepts, `incoming` for what recv yields. */
  class Socket {
    var log: seq<Entry>
    var up: bool
    var back: bool
    var limits: seq<nat>
    var incoming: seq<seq<Byte>>

    constructor (up: bool, back: bool, limits: seq<nat>, incoming: seq<seq<Byte>>)
      ensures log == []
    {
      this.log, this.up, this.back, this.limits, this.incoming := [], up, back, limits, incoming;
    }

    method Connect() returns (ok: bool)
      modifies `log
      ensures log == old(log) + [Connected(ok)] && ok == up
    {
      ok := up;
      log := log + [Connected(ok)];
    }

    method Redetect() returns (ok: bool)
      modifies `log
      ensures log == old(log) + [Redetected(ok)] && ok == back
    {
      ok := back;
      log := log + [Redetected(ok)];
    }

    method Close()
      modifies `log
      ensures log == old(log) + [Closed]
    {
      log := log + [Closed];
    }

    /** A send accepts at least one byte of a non-empty buffer. */
    method Send(data: seq<Byte>) returns (n: nat)
      modifies `log, `limits
      ensures n <= |data| && (data != [] ==> n > 0)
      ensures log == old(log) + [Sent(data, n)]
    {
      n := |data|;
      if limits != [] {
        if 0 < limits[0] < n {
          n := limits[0];
        }
        limits := limits[1..];
      }
      log := log + [Sent(data, n)];
    }

    /** A recv yields at most what was asked for; nothing is a timeout. */
    method Recv(want: nat) returns (bytes: seq<Byte>)
      modifies `log, `incoming
      ensures |bytes| <= want
      ensures log == old(log) + [Got(want, bytes)]
    {
      bytes := [];
      if incoming != [] {
        bytes := Front(incoming[0], want);
        incoming := incoming[1..];
      }
      log := log + [Got(want, bytes)];
    }
  }

  lemma StreamMore(log: seq<Entry>, image: seq<Byte>, chunk: nat, offset: nat, n: nat)
    requires offset < |image| && chunk > 0 && 0 < n <= |Front(image[offset..], chunk)|
    requires Judge(log, [Stream(image, chunk)]) == Open([Stream(image[offset..], chunk)])
    ensures Judge(log + [Sent(Front(image[offset..], chunk), n)], [Stream(image, chunk)]) ==
            Open(if offset + n < |image| then [Stream(image[offset + n..], chunk)] else [])
  {
    var e := Sent(Front(image[offset..], chunk), n);
    var rest := [Stream(image[offset..], chunk)];
    var after := [Stream(image[offset..][n..], chunk)];
    JudgeConcat(log, [e], [Stream(image, chunk)]);
    assert [e][1..] == [] && rest[1..] == [] && after[1..] == [] && after + [] == after;
    assert image[offset..][n..] == image[offset + n..];
    assert Judge([], []) == Open([]);
    assert Judge([e], rest) == Judge([], after);
  }

  class SamsungModem {
    const files: Files

    constructor (files: Files)
      ensures this.files == files
    {
      this.files := files;
    }

    /** The image loops of sendPSI and sendEBL: short sends are continued until all is accepted. */
    static method SendImage(socket: Socket, image: seq<Byte>, chunk: nat)
      requires chunk >= |image| || chunk > 0
      modifies socket
      ensures Ran(old(socket.log), socket.log, [Stream(image, chunk)], true)
    {
      ghost var l0 := socket.log;
      ghost var script := [Stream(image, chunk)];
      var offset: nat := 0;
      assert image[0..] == image && l0[|l0|..] == [] && script[1..] == [] && Judge([], []) == Open([]);
      while offset < |image|
        invariant offset <= |image| && l0 <= socket.log
        invariant Judge(socket.log[|l0|..], script) == Open(if offset < |image| then [Stream(image[offset..], chunk)] else [])
      {
        ghost var before := socket.log;
        var bytes := socket.Send(Front(image[offset..], chunk));
        StreamMore(before[|l0|..], image, chunk, offset, bytes);
        assert socket.log[|l0|..] == before[|l0|..] + [Sent(Front(image[offset..], chunk), bytes)];
        offset := offset + bytes;
      }
    }

    static method CalculateCRC(data: seq<Byte>) returns (crc: bv8)
      ensures crc == Xor(data)
    {
      crc := 0;
      var i := 0;
      while i < |data|
        invariant 0 <= i <= |data| && crc == Xor(data[..i])
      {
        assert data[..i + 1][..i] == data[..i];
        crc := crc ^ (data[i] as bv8);
        i := i + 1;
      }
      assert data[..|data|] == data;
    }

    static method SendOne(socket: Socket, data: seq<Byte>)
      modifies socket
      ensures Ran(old(socket.log), socket.log, [Item.Send(data)], true)
    {
      var n := socket.Send(data);
      RanOne(old(socket.log), Sent(data, n), Item.Send(data), true);
    }

    static method ExpectAck(socket: Socket, ack: seq<Byte>) returns (ok: bool)
      modifies socket
      ensures Ran(old(socket.log), socket.log, [Expect(|ack|, Exactly(ack))], ok)
    {
      var bytes := socket.Recv(|ack|);
      ok := |bytes| >= |ack| && bytes == ack;
      RanOne(old(socket.log), Got(|ack|, bytes), Expect(|ack|, Exactly(ack)), ok);
    }

    /** n single-byte receives, each of which must yield something. */
    static method ExpectBytes(socket: Socket, n: nat) returns (ok: bool)
      modifies socket
      ensures Ran(old(socket.log), socket.log, Acks(n), ok)
    {
      hide Ran;
      RanNothing(socket.log);
      var i := 0;
      while i < n
        invariant i <= n && Ran(old(socket.log), socket.log, Acks(i), true)
      {
        ghost var before := socket.log;
        var bytes := socket.Recv(1);
        ok := bytes != [];
        RanOne(before, Got(1, bytes), Expect(1, NonEmpty), ok);
        RanThen(old(socket.log), before, socket.log, Acks(i), [Expect(1, NonEmpty)], ok);
        i := i + 1;
        if !ok {
          AcksSplit(i, n);
          RanInto(old(socket.log), socket.log, Acks(i), AcksAfter(i, n));
          return;
        }
      }
      ok := true;
    }

    method SendPSI(socket: Socket) returns (ok: bool)
      modifies socket
      ensures files.psi.Missing? ==> !ok && socket.log == old(socket.log)
      ensures files.psi.Present? ==> Ran(old(socket.log), socket.log, PsiScript(files.psi.bytes), ok)
    {
      hide Ran;
      ghost var l0 := socket.log;
      ghost var image0 := files.psi.GetOr([]);
      ghost var body := [Item.Send([0x30] + ToLE(|image0|, 2) + [0xFF]), Stream(image0, |image0|), Item.Send([Crc(image0)])];
      if files.psi.Missing? {
        return false;
      }
      var image := files.psi.bytes;
      ok := Greet(socket);
      ghost var l1 := socket.log;
      if !ok {
        RanInto(l0, l1, Greeting(), body);
        RanInto(l0, l1, Greeting() + body, PsiAcks());
        return;
      }
      SendOne(socket, [0x30] + ToLE(|image|, 2) + [0xFF]);
      ghost var l2 := socket.log;
      SendImage(socket, image, |image|);
      ghost var l3 := socket.log;
      var crc := CalculateCRC(image);
      SendOne(socket, [crc as Byte]);
      ghost var l4 := socket.log;
      RanThen(l1, l2, l3, [body[0]], [body[1]], true);
      RanThen(l1, l3, l4, [body[0]] + [body[1]], [body[2]], true);
      assert [body[0]] + [body[1]] + [body[2]] == body;
      RanThen(l0, l1, l4, Greeting(), body, true);
      ok := AwaitPsiAcks(socket);
      RanThen(l0, l4, socket.log, Greeting() + body, PsiAcks(), ok);
    }

    static method Greet(socket: Socket) returns (ok: bool)
      modifies socket
      ensures Ran(old(socket.log), socket.log, Greeting(), ok)
    {
      hide Ran;
      SendOne(socket, [65, 84, 65, 84]);
      ghost var l1 := socket.log;
      ok := ExpectBytes(socket, 2);
      RanThen(old(socket.log), l1, socket.log, [Item.Send([65, 84, 65, 84])], Acks(2), ok);
    }

    static method AwaitPsiAcks(socket: Socket) returns (ok: bool)
      modifies socket
      ensures Ran(old(socket.log), socket.log, PsiAcks(), ok)
    {
      hide Ran, Acks;
      ghost var l0 := socket.log;
      ghost var one, two := Expect(1, Exactly([0x01])), Expect(2, Exactly([0x00, 0xAA]));
      assert PsiAcks() == Acks(22) + [one] + [one] + [two];
      ok := ExpectBytes(socket, 22);
      ghost var l1 := socket.log;
      if !ok {
        RanInto(l0, l1, Acks(22), [one]);
        RanInto(l0, l1, Acks(22) + [one], [one]);
        RanInto(l0, l1, Acks(22) + [one] + [one], [two]);
        return;
      }
      ok := ExpectAck(socket, [0x01]);
      ghost var l2 := socket.log;
      RanThen(l0, l1, l2, Acks(22), [one], ok);
      if !ok {
        RanInto(l0, l2, Acks(22) + [one], [one]);
        RanInto(l0, l2, Acks(22) + [one] + [one], [two]);
        return;
      }
      ok := ExpectAck(socket, [0x01]);
      ghost var l3 := socket.log;
      RanThen(l0, l2, l3, Acks(22) + [one], [one], ok);
      if !ok {
        RanInto(l0, l3, Acks(22) + [one] + [one], [two]);
        return;
      }
      ok := ExpectAck(socket, [0x00, 0xAA]);
      RanThen(l0, l3, socket.log, Acks(22) + [one] + [one], [two], ok);
    }

    method SendEBL(socket: Socket) returns (ok: bool)
      modifies socket
      ensures files.ebl.Missing? ==> !ok && socket.log == old(socket.log)
      ensures files.ebl.Present? ==> Ran(old(socket.log), socket.log, EblScript(files.ebl.bytes), ok)
    {
      hide Ran;
      ghost var l0 := socket.log;
      ghost var script := EblScript(files.ebl.GetOr([]));
      if files.ebl.Missing? {
        return false;
      }
      var image := files.ebl.bytes;
      SendOne(socket, ToLE(|image|, 4));
      ghost var l1 := socket.log;
      ok := ExpectAck(socket, [0xCC, 0xCC]);
      ghost var l2 := socket.log;
      assert script[..1] == [script[0]];
      RanThen(l0, l1, l2, script[..1], [script[1]], ok);
      assert script[..1] + [script[1]] == script[..2];
      if !ok {
        RanInto(l0, l2, script[..2], script[2..]);
        assert script[..2] + script[2..] == script;
        return;
      }
      SendImage(socket, image, 32768);
      ghost var l3 := socket.log;
      RanThen(l0, l2, l3, script[..2], [script[2]], true);
      assert script[..2] + [script[2]] == script[..3];
      var crc := CalculateCRC(image);
      SendOne(socket, [crc as Byte]);
      ghost var l4 := socket.log;
      RanThen(l0, l3, l4, script[..3], [script[3]], true);
      assert script[..3] + [script[3]] == script[..4];
      ok := ExpectAck(socket, [0x51, 0xA5]);
      RanThen(l0, l4, socket.log, script[..4], [script[4]], ok);
      assert script[..4] + [script[4]] == script;
    }

    /** The 16-bit accumulator of bootloaderCommand. */
    static method Checksum(cmd: nat, data: seq<Byte>) returns (acc: nat)
      requires cmd < 0x1_0000
      ensures acc == Check(cmd, data)
    {
      acc := (|data| % 0x1_0000 + cmd) % 0x1_0000;
      ModOnce(|data|, cmd);
      var offset := 0;
      while offset < |data|
        invariant 0 <= offset <= |data|
        invariant acc == (|data| + cmd + Sum(data[..offset])) % 0x1_0000
      {
        assert data[..offset + 1][..offset] == data[..offset];
        ModOnce(|data| + cmd + Sum(data[..offset]), data[offset]);
        acc := (acc + data[offset]) % 0x1_0000;
        offset := offset + 1;
      }
      assert data[..|data|] == data;
    }

    static method BootloaderCommand(socket: Socket, cmd: nat, data: seq<Byte>) returns (ok: bool)
      requires cmd < 0x1_0000 && |data| <= Capacity(cmd)
      modifies socket
      ensures Ran(old(socket.log), socket.log, Command(cmd, data), ok)
      ensures cmd == REQ_FLASH_WRITE_BLOCK || cmd == REQ_FORCE_HW_RESET ==> ok
    {
      hide Ran;
      ghost var l0 := socket.log;
      var acc := Checksum(cmd, data);
      var size := Capacity(cmd);
      var buf := ToLE(acc, 2) + ToLE(cmd, 2) + ToLE(|data|, 4) + data + Fill(0, size - |data|);
      SendOne(socket, buf);
      ghost var l1 := socket.log;
      ghost var first := [Item.Send(buf)];
      if cmd == REQ_FORCE_HW_RESET || cmd == REQ_FLASH_WRITE_BLOCK {
        assert Command(cmd, data) == first;
        return true;
      }
      ghost var second, third := Expect(HEADER, Answering(cmd)), Expect(size, Whole);
      assert Command(cmd, data) == first + [second] + [third];
      var reply := socket.Recv(HEADER);
      ghost var l2 := socket.log;
      ok := |reply| == HEADER && FromLE(reply[2..4]) == cmd;
      RanOne(l1, Got(HEADER, reply), second, ok);
      RanThen(l0, l1, l2, first, [second], ok);
      if !ok {
        RanInto(l0, l2, first + [second], [third]);
        return;
      }
      var payload := socket.Recv(size);
      ok := |payload| == size;
      RanOne(l2, Got(size, payload), third, ok);
      RanThen(l0, l2, socket.log, first + [second], [third], ok);
    }

    static method ReadBootInfo(socket: Socket) returns (ok: bool)
      modifies socket
      ensures Ran(old(socket.log), socket.log, [RelayInfo], ok)
    {
      ghost var l0 := socket.log;
      var info := socket.Recv(BOOT_INFO);
      ghost var l1 := socket.log;
      if |info| != BOOT_INFO {
        RelayStart(l0, info);
        return false;
      }
      ok := BootloaderCommand(socket, SET_PORT_CONF, info);
      RelayEnd(l0, l1, socket.log, info, ok);
    }

    static method LoadFlashImage(socket: Socket, address: nat, image: seq<Byte>) returns (ok: bool)
      modifies socket
      ensures Ran(old(socket.log), socket.log, FlashScript(address, image), ok)
      ensures ok ==> FlashLogged(socket.log[|old(socket.log)|..], ToLE(address, 4), image)
    {
      hide Ran, Command, Flatten, FlashLogged, ToLE;
      ghost var l0 := socket.log;
      BlocksCover(image);
      ghost var blocks := Blocks(image);
      ok := BootloaderCommand(socket, REQ_FLASH_SET_ADDRESS, ToLE(address, 4));
      ghost var first := Command(REQ_FLASH_SET_ADDRESS, ToLE(address, 4));
      ghost var l1 := socket.log;
      if !ok {
        RanInto(l0, l1, first, WriteBlocks(blocks));
        return;
      }
      RanNothing(l1);
      var offset := 0;
      ghost var i := 0;
      while offset < |image|
        invariant 0 <= i <= |blocks| && offset <= |image|
        invariant Blocks(image[offset..]) == blocks[i..] && (i == |blocks| <==> offset == |image|)
        invariant Ran(l1, socket.log, WriteBlocks(blocks[..i]), true)
      {
        ghost var before := socket.log;
        var rest := image[offset..];
        var block := Front(rest, BLOCK);
        NextBlocks(rest, block);
        assert block == blocks[i..][0] == blocks[i];
        hide Blocks;
        ok := BootloaderCommand(socket, REQ_FLASH_WRITE_BLOCK, block);
        assert blocks[..i + 1][..i] == blocks[..i];
        RanThen(l1, before, socket.log, WriteBlocks(blocks[..i]), Command(REQ_FLASH_WRITE_BLOCK, block), true);
        offset := offset + |block|;
        i := i + 1;
        assert image[offset..] == rest[|block|..] && blocks[i..] == blocks[i - 1..][1..];
      }
      assert blocks[..|blocks|] == blocks;
      ok := true;
      RanThen(l0, l1, socket.log, first, WriteBlocks(blocks), true);
      RanFlash(l0, socket.log, address, image);
    }

    method SendSecureImage(socket: Socket) returns (ok: bool)
      modifies socket
      ensures files.secure.Missing? || files.firmware.Missing? || files.nvdata.Missing? ==> !ok && socket.log == old(socket.log)
      ensures files.secure.Present? && files.firmware.Present? && files.nvdata.Present? ==>
                Ran(old(socket.log), socket.log, SecureScript(files), ok)
    {
      hide Ran, FlashScript, Command;
      ghost var l0 := socket.log;
      ghost var a, b := Command(REQ_SEC_START, files.secure.GetOr([])), FlashScript(FIRMWARE_ADDRESS, files.firmware.GetOr([]));
      ghost var c, d := FlashScript(NVDATA_ADDRESS, files.nvdata.GetOr([])), Command(REQ_SEC_END, [0, 0]);
      if files.secure.Missing? || files.firmware.Missing? || files.nvdata.Missing? {
        return false;
      }
      ok := BootloaderCommand(socket, REQ_SEC_START, files.secure.bytes);
      ghost var l1 := socket.log;
      if !ok {
        RanInto(l0, l1, a, b); RanInto(l0, l1, a + b, c); RanInto(l0, l1, a + b + c, d);
        return;
      }
      ok := LoadFlashImage(socket, FIRMWARE_ADDRESS, files.firmware.bytes);
      ghost var l2 := socket.log;
      RanThen(l0, l1, l2, a, b, ok);
      if !ok {
        RanInto(l0, l2, a + b, c); RanInto(l0, l2, a + b + c, d);
        return;
      }
      ok := LoadFlashImage(socket, NVDATA_ADDRESS, files.nvdata.bytes);
      ghost var l3 := socket.log;
      RanThen(l0, l2, l3, a + b, c, ok);
      if !ok {
        RanInto(l0, l3, a + b + c, d);
        return;
      }
      ok := BootloaderCommand(socket, REQ_SEC_END, [0, 0]);
      RanThen(l0, l3, socket.log, a + b + c, d, ok);
    }

    /** The log is the dialogue as far as the files are there: all of it (completed), or up to a wait that
        failed, with nothing after it. boot returns true exactly if it completed and no file is missing,
        and then the log is a complete boot. */
    method Boot(socket: Socket) returns (ok: bool, ghost completed: bool)
      modifies socket
      ensures Ran(old(socket.log), socket.log, Phases(files, Reach(files)), completed)
      ensures ok <==> completed && Reach(files) == 6
      ensures ok ==> exists d :: BootLogged(socket.log[|old(socket.log)|..], files, d)
    {
      hide BootLogged, Ran, PsiScript, EblScript, SecureScript, Command, ToLE;
      ghost var l0 := socket.log;
      ok := socket.Connect();
      completed := ok;
      RanOne(l0, Connected(ok), Item.Connect, ok);
      if !ok { StopAt(l0, socket.log, files, 0); return; }
      ghost var l1 := socket.log;
      ok := SendPSI(socket);
      if files.psi.Missing? { return; }
      completed := ok;
      RanThen(l0, l1, socket.log, Phases(files, 0), PsiScript(files.psi.bytes), ok);
      if !ok { StopAt(l0, socket.log, files, 1); return; }
      ghost var l2 := socket.log;
      ok := SendEBL(socket);
      if files.ebl.Missing? { return; }
      completed := ok;
      RanThen(l0, l2, socket.log, Phases(files, 1), EblScript(files.ebl.bytes), ok);
      if !ok { StopAt(l0, socket.log, files, 2); return; }
      ghost var l3 := socket.log;
      ok := ReadBootInfo(socket);
      completed := ok;
      RanThen(l0, l3, socket.log, Phases(files, 2), [RelayInfo], ok);
      if !ok { StopAt(l0, socket.log, files, 3); return; }
      ok, completed := SecureAndReset(socket, l0);
    }

    /** The second half of boot. */
    method SecureAndReset(socket: Socket, ghost l0: seq<Entry>) returns (ok: bool, ghost completed: bool)
      requires files.psi.Present? && files.ebl.Present? && Ran(l0, socket.log, Phases(files, 3), true)
      modifies socket
      ensures Ran(l0, socket.log, Phases(files, Reach(files)), completed)
      ensures ok <==> completed && Reach(files) == 6
      ensures ok ==> exists d :: BootLogged(socket.log[|l0|..], files, d)
    {
      hide BootLogged, Ran, PsiScript, EblScript, SecureScript, Command, ToLE;
      completed := true;
      ghost var l4 := socket.log;
      ok := SendSecureImage(socket);
      if files.secure.Missing? || files.firmware.Missing? || files.nvdata.Missing? { return; }
      completed := ok;
      RanThen(l0, l4, socket.log, Phases(files, 3), SecureScript(files), ok);
      if !ok { StopAt(l0, socket.log, files, 4); return; }
      ghost var l5 := socket.log;
      ok := BootloaderCommand(socket, REQ_FORCE_HW_RESET, ToLE(RESET_MAGIC, 4));
      RanThen(l0, l5, socket.log, Phases(files, 4), Command(REQ_FORCE_HW_RESET, ToLE(RESET_MAGIC, 4)), true);
      if !ok { return; }
      ghost var l6 := socket.log;
      ok := Finish(socket);
      completed := ok;
      RanThen(l0, l6, socket.log, Phases(files, 5), [Item.Close, Item.Redetect], ok);
      if ok { RanBoot(l0, socket.log, files); }
    }

    static method Finish(socket: Socket) returns (ok: bool)
      modifies socket
      ensures Ran(old(socket.log), socket.log, [Item.Close, Item.Redetect], ok)
    {
      hide Ran;
      socket.Close();
      ghost var l1 := socket.log;
      RanOne(old(socket.log), Closed, Item.Close, true);
      ok := socket.Redetect();
      RanOne(l1, Redetected(ok), Item.Redetect, ok);
      RanThen(old(socket.log), l1, socket.log, [Item.Close], [Item.Redetect], ok);
      assert [Item.Close] + [Item.Redetect] == [Item.Close, Item.Redetect];
    }
  }

  lemma ModOnce(a: nat, b: nat)
    ensures (a % 0x1_0000 + b) % 0x1_0000 == (a + b) % 0x1_0000
  {
  }

  lemma AddNothing(s: seq<Item>)
    ensures s + [] == s
  {
  }

  /** A wait that failed within the first k phases failed within as many as the files are there for. */
  lemma {:induction false} StopAt(l0: seq<Entry>, l1: seq<Entry>, f: Files, k: nat)
    requires k <= Reach(f) && Ran(l0, l1, Phases(f, k), false)
    ensures Ran(l0, l1, Phases(f, Reach(f)), false)
    decreases Reach(f) - k
  {
    hide Ran, PsiScript, EblScript, SecureScript, Command, ToLE;
    if k < Reach(f) {
      var more := Phases(f, k + 1)[|Phases(f, k)|..];
      assert Phases(f, k + 1) == Phases(f, k) + more;
      RanInto(l0, l1, Phases(f, k), more);
      StopAt(l0, l1, f, k + 1);
    }
  }

  /** The acknowledgements i .. n. */
  function AcksAfter(i: nat, n: nat): seq<Item>
    requires i <= n
  {
    if i == n then [] else AcksAfter(i, n - 1) + [Expect(1, NonEmpty)]
  }

  lemma {:induction false} AcksSplit(i: nat, n: nat)
    requires i <= n
    ensures Acks(n) == Acks(i) + AcksAfter(i, n)
  {
    if i < n {
      AcksSplit(i, n - 1);
    } else {
      assert Acks(i) + [] == Acks(i);
    }
  }

  lemma RelayStart(l: seq<Entry>, info: seq<Byte>)
    requires |info| != BOOT_INFO
    ensures Ran(l, l + [Got(BOOT_INFO, info)], [RelayInfo], false)
  {
  }

  lemma RelayEnd(l0: seq<Entry>, l1: seq<Entry>, l2: seq<Entry>, info: seq<Byte>, ok: bool)
    requires |info| == BOOT_INFO && l1 == l0 + [Got(BOOT_INFO, info)] && Ran(l1, l2, Command(SET_PORT_CONF, info), ok)
    ensures Ran(l0, l2, [RelayInfo], ok)
  {
    var rest := l2[|l1|..];
    assert l2[|l0|..] == [Got(BOOT_INFO, info)] + rest;
    assert l2[|l0|..][1..] == rest && [RelayInfo][1..] == [];
    AddNothing(Command(SET_PORT_CONF, info));
  }

  lemma NextBlocks(rest: seq<Byte>, block: seq<Byte>)
    requires rest != [] && block == Front(rest, BLOCK)
    ensures Blocks(rest) == [block] + Blocks(rest[|block|..])
    ensures rest[|block|..] == [] <==> Blocks(rest[|block|..]) == []
  {
  }

  /** Every write-block packet of an image is 0x4008 bytes, carries the right checksum and size, is zero
      padded, and the payloads cut to their data size concatenate to the image. */
  lemma FlashTranscript(image: seq<Byte>)
    ensures forall i :: 0 <= i < |Blocks(image)| ==> |Blocks(image)[i]| <= BLOCK
    ensures |Blocks(image)| == (|image| + BLOCK - 1) / BLOCK
    ensures Flatten(Blocks(image)) == image
    ensures forall i :: 0 <= i < |Blocks(image)| ==>
              var block := Blocks(image)[i];
              var p := Packet(REQ_FLASH_WRITE_BLOCK, block);
              && |p| == 0x4008 && FromLE(p[4..8]) == |block| && p[8..8 + FromLE(p[4..8])] == block
              && FromLE(p[0..2]) == (|block| + REQ_FLASH_WRITE_BLOCK + Sum(block)) % 0x1_0000
              && forall k :: 8 + |block| <= k < |p| ==> p[k] == 0
  {
    hide Packet, Blocks, FromLE, Sum;
    BlocksCover(image);
    forall i | 0 <= i < |Blocks(image)| {
      PacketLayout(REQ_FLASH_WRITE_BLOCK, Blocks(image)[i]);
    }
  }
}
