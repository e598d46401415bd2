/** The RFS handlers for NV data: the modem's reads and writes against the store. Replies have the
    fixed length their schema prescribes, whatever the request asks for. */
module RfsServer {
  import opened Bytes
  import opened Md5
  import opened Schema
  import opened NvBoot
  import opened NvStore

  const REPLY_DATA: nat := 512

  /** status, offset, size, 512 bytes of data. */
  const NvReadReply: Structure :=
    Cons(Int(1), Cons(Int(4), Cons(Int(4), Cons(Vector(Const(REPLY_DATA)), Nil))))

  /** status, offset, size. */
  const NvWriteReply: Structure := Cons(Int(1), Cons(Int(4), Cons(Int(4), Nil)))

  type Word = n: nat | n < 0x1_0000_0000

  /** A u32 message member passed as off_t. */
  function AsOffset(w: Word): Offset {
    if w < 0x8000_0000 then w else w - 0x1_0000_0000
  }

  /** data.resize(n): cut or padded with zeros. */
  function Resized(s: seq<Byte>, n: nat): (r: seq<Byte>)
    ensures |r| == n
    ensures forall i :: 0 <= i < n ==> r[i] == if i < |s| then s[i] else 0
  {
    if |s| >= n then s[..n] else s + Fill(0, n - |s|)
  }

  /** A read reply on the wire: status, offset and size in one and four bytes, then 512 bytes of data. */
  ghost predicate IsReadReply(bs: seq<Byte>, status: nat, offset: Word, size: Word, data: seq<Byte>) {
    && |bs| == 521 && bs[0] == status
    && IsInteger(bs[1..5], offset) && IsInteger(bs[5..9], size) && bs[9..] == data
  }

  /** The data of a read: the image's bytes where there are any in range, then zeros. */
  ghost predicate IsReadData(img: Image, offset: Word, len: nat, data: seq<Byte>) {
    |data| == 512 && forall i :: 0 <= i < 512 ==> data[i] == if offset + len <= 2097152 && i < len then img[offset + i] else 0
  }

  method HandleNvRead(fs: AndroidFileSystem, offset: Word, size: Word) returns (reply: Record)
    requires fs.Valid()
    ensures Fits(NvReadReply, [], reply, 0)
    ensures var len := if size < 512 then size else 512;
            exists data :: IsReadData(fs.Contents(), offset, len, data)
                           && IsReadReply(Encode(NvReadReply, reply), if offset + len <= 2097152 then 1 else 0, offset, size, data)
  {
    hide Digest, Magic;
    var len := if size < REPLY_DATA then size else REPLY_DATA;
    AcceptedIffInRange(AsOffset(offset), len);
    var ret, data := fs.ReadNVData(AsOffset(offset), len);
    ghost var sent := Resized(data, REPLY_DATA);
    reply := [Number(if ret == 0 then 1 else 0), Number(offset), Number(size), Blob(Resized(data, REPLY_DATA))];
    assert ret == 0 <==> offset + len <= 2097152;
    assert IsReadData(fs.Contents(), offset, len, sent);
    Widths();
    ReadReplyFits(reply);
    ReadReplyBytes(reply);
  }

  lemma ReadReplyBytes(reply: Record)
    requires |reply| == 4 && reply[0].Number? && reply[1].Number? && reply[2].Number? && reply[3].Blob?
    requires reply[0].n < 256 && reply[1].n < 0x1_0000_0000 && reply[2].n < 0x1_0000_0000 && |reply[3].bytes| == 512
    ensures IsReadReply(Encode(NvReadReply, reply), reply[0].n, reply[1].n, reply[2].n, reply[3].bytes)
  {
    var bs := Encode(NvReadReply, reply);
    ThreeNumbers(reply, Cons(Vector(Const(REPLY_DATA)), Nil));
    assert reply[3..][1..] == [] && Encode(Cons(Vector(Const(REPLY_DATA)), Nil), reply[3..]) == reply[3].bytes;
    hide Encode;
    Widths();
    NumberBytes(reply[0].n, 1);
    NumberBytes(reply[1].n, 4);
    NumberBytes(reply[2].n, 4);
    hide ToLE, IsInteger;
    var a, b, c := ToLE(reply[0].n, 1), ToLE(reply[1].n, 4), ToLE(reply[2].n, 4);
    assert bs == a + b + c + reply[3].bytes;
    assert bs[1..5] == b && bs[5..9] == c && bs[9..] == reply[3].bytes && bs[0] == a[0];
  }

  /** The members before the rest. */
  lemma ThreeNumbers(r: Record, rest: Structure)
    requires |r| >= 3 && r[0].Number? && r[1].Number? && r[2].Number?
    ensures Encode(Cons(Int(1), Cons(Int(4), Cons(Int(4), rest))), r) ==
            ToLE(r[0].n, 1) + ToLE(r[1].n, 4) + ToLE(r[2].n, 4) + Encode(rest, r[3..])
  {
    assert r[1..][0] == r[1] && r[1..][1..] == r[2..] && r[2..][0] == r[2] && r[2..][1..] == r[3..];
    var s2 := Cons(Int(4), rest);
    assert Encode(s2, r[2..]) == ToLE(r[2].n, 4) + Encode(rest, r[3..]);
    assert Encode(Cons(Int(4), s2), r[1..]) == ToLE(r[1].n, 4) + Encode(s2, r[2..]);
    hide ToLE;
  }

  lemma NumberBytes(v: nat, width: nat)
    requires v < Pow256(width)
    ensures IsInteger(ToLE(v, width), v) && (width == 1 ==> ToLE(v, 1)[0] == v)
  {
    FromToLE(v, width);
    FromLEIsInteger(ToLE(v, width));
    if width == 1 { assert ToLE(v / 256, 0) == []; }
  }

  lemma ReadReplyFits(reply: Record)
    requires |reply| == 4 && reply[0].Number? && reply[1].Number? && reply[2].Number? && reply[3].Blob?
    requires reply[0].n < Pow256(1) && reply[1].n < Pow256(4) && reply[2].n < Pow256(4) && |reply[3].bytes| == REPLY_DATA
    ensures Fits(NvReadReply, [], reply, 0) && |Encode(NvReadReply, reply)| == 9 + REPLY_DATA
  {
  }

  /** The store changes exactly in the bytes written, and only if they all lie in the image. */
  method HandleNvWrite(fs: AndroidFileSystem, offset: Word, data: Payload) returns (reply: Record)
    requires fs.Valid()
    modifies fs
    ensures fs.Valid()
    ensures reply == [Number(if offset + |data| <= 2097152 then 1 else 0), Number(offset), Number(|data|)]
    ensures var bs := Encode(NvWriteReply, reply);
            |bs| == 9 && bs[0] == (if offset + |data| <= 2097152 then 1 else 0) && IsInteger(bs[1..5], offset) && IsInteger(bs[5..9], |data|)
    ensures fs.Contents() == if offset + |data| <= 2097152
                             then old(fs.Contents())[..offset] + data + old(fs.Contents())[offset + |data|..]
                             else old(fs.Contents())
  {
    hide Digest, Magic;
    AcceptedIffInRange(AsOffset(offset), |data|);
    var ret := fs.WriteNVData(AsOffset(offset), data);
    reply := [Number(if ret == 0 then 1 else 0), Number(offset), Number(|data|)];
    WriteReplyBytes(reply);
  }

  lemma WriteReplyBytes(reply: Record)
    requires |reply| == 3 && reply[0].Number? && reply[1].Number? && reply[2].Number?
    requires reply[0].n < 256 && reply[1].n < 0x1_0000_0000 && reply[2].n < 0x1_0000_0000
    ensures var bs := Encode(NvWriteReply, reply);
            |bs| == 9 && bs[0] == reply[0].n && IsInteger(bs[1..5], reply[1].n) && IsInteger(bs[5..9], reply[2].n)
  {
    var bs := Encode(NvWriteReply, reply);
    ThreeNumbers(reply, Nil);
    assert Encode(Nil, reply[3..]) == [];
    Widths();
    NumberBytes(reply[0].n, 1);
    NumberBytes(reply[1].n, 4);
    NumberBytes(reply[2].n, 4);
    hide Encode, ToLE, IsInteger;
    var a, b, c := ToLE(reply[0].n, 1), ToLE(reply[1].n, 4), ToLE(reply[2].n, 4);
    assert bs == a + b + c;
    assert bs[1..5] == b && bs[5..9] == c && bs[0] == a[0];
  }
}
