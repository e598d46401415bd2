/** Messages on the wire: header plus encoded members, sent, cut into chunks, reassembled, decoded. */
module Transport {
  import opened Bytes
  import opened Schema
  import opened Compiler
  import opened DataStreams
  import opened Reassembly

  /** A message of schema s: its header bytes behind the length field (sequence numbers, command and
      response type on the IPC channel; type and sequence on RFS), and its members. */
  datatype Packet = Packet(meta: seq<Byte>, s: Structure, r: Record)

  function FrameSize(ch: Channel, payload: seq<Byte>): nat {
    HeaderSize(ch) + |payload|
  }

  function Frame(ch: Channel, meta: seq<Byte>, payload: seq<Byte>): seq<Byte> {
    ToLE(FrameSize(ch, payload), LengthWidth(ch)) + meta + payload
  }

  function Encoded(ch: Channel, p: Packet): seq<Byte> {
    Frame(ch, p.meta, Encode(p.s, p.r))
  }

  /** The header is complete, the members have the sizes their schema prescribes, and the frame's
      length fits the length field. */
  ghost predicate WellFormed(ch: Channel, p: Packet) {
    && |p.meta| == HeaderSize(ch) - LengthWidth(ch)
    && Fits(p.s, [], p.r, 0)
    && FrameSize(ch, Encode(p.s, p.r)) < Pow256(LengthWidth(ch))
  }

  /** What handleMessage makes of a frame announced as a message of schema s. */
  function Decoded(ch: Channel, f: seq<Byte>, s: Structure): Option<Packet>
    requires |f| >= HeaderSize(ch)
  {
    match Parse(s, [], f[HeaderSize(ch)..])
    case Some(p) => if p.rest == [] then Some(Packet(f[LengthWidth(ch)..HeaderSize(ch)], s, p.record)) else None
    case None => None
  }

  /** A frame in bytes: its own length in the first two bytes (IPC) or four (RFS), the other five or two
      bytes of the header, and the members. */
  lemma FrameInBytes(ch: Channel, p: Packet)
    requires WellFormed(ch, p)
    ensures var f := Encoded(ch, p);
            && (ch == IPC ==> |p.meta| == 5 && |f| == 7 + |Encode(p.s, p.r)| && IsInteger(f[..2], |f|)
                              && f[2..7] == p.meta && f[7..] == Encode(p.s, p.r))
            && (ch == RFS ==> |p.meta| == 2 && |f| == 6 + |Encode(p.s, p.r)| && IsInteger(f[..4], |f|)
                              && f[4..6] == p.meta && f[6..] == Encode(p.s, p.r))
  {
    var f, w := Encoded(ch, p), LengthWidth(ch);
    var payload := Encode(p.s, p.r);
    hide Encode, Fits, IsInteger;
    FromToLE(FrameSize(ch, payload), w);
    FromLEIsInteger(f[..w]);
    assert f[..w] == ToLE(FrameSize(ch, payload), w) && f[w..HeaderSize(ch)] == p.meta && f[HeaderSize(ch)..] == payload;
  }

  lemma EncodedIsFrame(ch: Channel, p: Packet)
    requires WellFormed(ch, p)
    ensures IsFrame(ch, Encoded(ch, p)) && Decoded(ch, Encoded(ch, p), p.s) == Some(p)
  {
    var w, h, payload := LengthWidth(ch), HeaderSize(ch), Encode(p.s, p.r);
    var f := Encoded(ch, p);
    assert f[..w] == ToLE(FrameSize(ch, payload), w) && f[w..h] == p.meta && f[h..] == payload;
    FromToLE(FrameSize(ch, payload), w);
    ReadIffWritten(p.s, payload, p.r, []);
    assert payload + [] == payload;
  }

  /** A frame is accepted as p exactly when it is the frame p is sent as: accepted bytes are reproduced
      one for one by sending the message again. */
  lemma AcceptedIffEncoded(ch: Channel, f: seq<Byte>, p: Packet)
    requires IsFrame(ch, f)
    ensures Decoded(ch, f, p.s) == Some(p) <==> WellFormed(ch, p) && f == Encoded(ch, p)
  {
    if Decoded(ch, f, p.s) == Some(p) {
      var w, h := LengthWidth(ch), HeaderSize(ch);
      var payload := f[h..];
      ReadIffWritten(p.s, payload, p.r, []);
      assert Encode(p.s, p.r) + [] == Encode(p.s, p.r);
      ToFromLE(f[..w]);
      assert f == f[..w] + f[w..h] + f[h..];
    }
    if WellFormed(ch, p) && f == Encoded(ch, p) {
      EncodedIsFrame(ch, p);
    }
  }

  function AllEncoded(ch: Channel, ps: seq<Packet>): (fs: seq<seq<Byte>>)
    ensures |fs| == |ps| && forall i :: 0 <= i < |ps| ==> fs[i] == Encoded(ch, ps[i])
  {
    seq(|ps|, i requires 0 <= i < |ps| => Encoded(ch, ps[i]))
  }

  /** End to end: any messages sent back to back and received in any chunks are delivered as the same
      frames in the same order, nothing is left over, and each decodes to the message sent. */
  lemma EndToEnd(ch: Channel, ps: seq<Packet>, chunks: seq<seq<Byte>>)
    requires forall i :: 0 <= i < |ps| ==> WellFormed(ch, ps[i])
    requires Flatten(chunks) == Flatten(AllEncoded(ch, ps))
    ensures WellFramed(ch, [] + Flatten(chunks)) && Feed(ch, [], chunks) == Cutting(AllEncoded(ch, ps), [])
    ensures forall i :: 0 <= i < |ps| ==> IsFrame(ch, Encoded(ch, ps[i])) && Decoded(ch, Encoded(ch, ps[i]), ps[i].s) == Some(ps[i])
  {
    var fs := AllEncoded(ch, ps);
    forall i | 0 <= i < |ps| ensures IsFrame(ch, Encoded(ch, ps[i])) && Decoded(ch, Encoded(ch, ps[i]), ps[i].s) == Some(ps[i]) {
      EncodedIsFrame(ch, ps[i]);
    }
    hide Decoded, WellFormed;
    CutConcatenated(ch, fs, []);
    assert Flatten(fs) + [] == Flatten(fs) == [] + Flatten(chunks);
    assert fs + [] == fs;
    ChunkingDoesNotMatter(ch, [], chunks);
  }

  /** The same through the reassembly buffer: an empty handler that reads the chunks has delivered
      exactly the frames sent, and holds nothing. */
  method Receive(ch: Channel, ghost ps: seq<Packet>, chunks: seq<seq<Byte>>) returns (frames: seq<seq<Byte>>)
    requires forall i :: 0 <= i < |ps| ==> WellFormed(ch, ps[i])
    requires Flatten(chunks) == Flatten(AllEncoded(ch, ps))
    requires forall i :: 0 <= i < |chunks| ==> 0 < |chunks[i]| <= IO_BUF_SIZE
    ensures frames == AllEncoded(ch, ps)
    ensures forall i :: 0 <= i < |ps| ==> IsFrame(ch, frames[i]) && Decoded(ch, frames[i], ps[i].s) == Some(ps[i])
  {
    hide WellFormed, IsFrame, Decoded, WellFramed;
    EndToEnd(ch, ps, chunks);
    var handler := new SocketHandler(ch);
    handler.ReadAll(chunks);
    frames := handler.delivered;
  }

  lemma ModAtMost(n: nat, m: nat)
    requires m > 0
    ensures n % m <= n && (n < m ==> n % m == n) && (n >= m ==> n % m < n)
  {
  }

  /** What goes onto the wire: the code sends as many bytes as the length field says. */
  function OnWire(ch: Channel, p: Packet): seq<Byte> {
    var f := Encoded(ch, p);
    ModAtMost(|f|, Pow256(LengthWidth(ch)));
    f[..|f| % Pow256(LengthWidth(ch))]
  }

  /** A payload cut short is not the message's payload. */
  lemma CutPayloadIsAnother(ch: Channel, f: seq<Byte>, p: Packet)
    requires |f| >= HeaderSize(ch) && |f| < FrameSize(ch, Encode(p.s, p.r))
    ensures Decoded(ch, f, p.s) != Some(p)
  {
    var payload := f[HeaderSize(ch)..];
    ReadIffWritten(p.s, payload, p.r, []);
    hide Parse, Encode, Fits;
    assert |payload| < |Encode(p.s, p.r) + []|;
  }

  /** The length field is the exact limit: a message whose sizes match its schema arrives as itself if and
      only if its frame's length fits the field. */
  lemma ArrivesIffItFits(ch: Channel, p: Packet)
    requires |p.meta| == HeaderSize(ch) - LengthWidth(ch) && Fits(p.s, [], p.r, 0)
    requires FrameSize(ch, Encode(p.s, p.r)) % Pow256(LengthWidth(ch)) >= HeaderSize(ch)
    ensures |OnWire(ch, p)| >= HeaderSize(ch)
    ensures Decoded(ch, OnWire(ch, p), p.s) == Some(p) <==> FrameSize(ch, Encode(p.s, p.r)) < Pow256(LengthWidth(ch))
  {
    hide Parse, Encode, Fits, Decoded, Pow256, IsFrame;
    var f := Encoded(ch, p);
    assert |f| == FrameSize(ch, Encode(p.s, p.r));
    ModAtMost(|f|, Pow256(LengthWidth(ch)));
    if |f| < Pow256(LengthWidth(ch)) {
      assert OnWire(ch, p) == f;
      EncodedIsFrame(ch, p);
    } else {
      CutPayloadIsAnother(ch, OnWire(ch, p), p);
    }
  }

  /** Marshalling and framing as submit and sendMessage do it. A frame too long for its length field is
      cut to the length announced; one that would announce less than a header is not modelled. */
  method SendMessage(ch: Channel, p: Packet) returns (frame: seq<Byte>)
    requires |p.meta| == HeaderSize(ch) - LengthWidth(ch) && Typed(p.s, p.r)
    requires FrameSize(ch, Encode(p.s, p.r)) % Pow256(LengthWidth(ch)) >= HeaderSize(ch)
    ensures frame == OnWire(ch, p)
    ensures FrameSize(ch, Encode(p.s, p.r)) < Pow256(LengthWidth(ch)) ==> frame == Encoded(ch, p)
  {
    var stream := new DataStream([], Write);
    var ok := WriteToStream(p.s, p.r, stream);
    var data := stream.buffer;
    assert data == Encode(p.s, p.r);
    var length := (HeaderSize(ch) + |data|) % Pow256(LengthWidth(ch));
    ModAtMost(HeaderSize(ch) + |data|, Pow256(LengthWidth(ch)));
    frame := ToLE(HeaderSize(ch) + |data|, LengthWidth(ch)) + p.meta + data[..length - HeaderSize(ch)];
    assert frame == Encoded(ch, p)[..length];
    assert Encoded(ch, p)[..|Encoded(ch, p)|] == Encoded(ch, p);
  }

  /** The demarshalling at the start of handleMessage. */
  method ReceiveMessage(ch: Channel, f: seq<Byte>, s: Structure) returns (p: Option<Packet>)
    requires |f| >= HeaderSize(ch)
    ensures p == Decoded(ch, f, s)
  {
    var stream := new DataStream(f[HeaderSize(ch)..], Read);
    assert stream.Left() == f[HeaderSize(ch)..];
    var ok, record := ReadFromStream(s, stream);
    if !ok || !stream.AtEnd() {
      return None;
    }
    p := Some(Packet(f[LengthWidth(ch)..HeaderSize(ch)], s, record));
  }
}
