/** Cutting a byte stream back into frames: what the stream contains, and the handler that finds it in
    whatever chunks the socket delivers. */
module Reassembly {
  import opened Bytes

  /** The two channels differ in header size and in the width of the leading length field. */
  datatype Channel = IPC | RFS

  function HeaderSize(ch: Channel): nat {
    if ch == IPC then 7 else 6
  }

  function LengthWidth(ch: Channel): nat {
    if ch == IPC then 2 else 4
  }

  /** messageSize: the length field of a complete header. */
  function FrameLength(ch: Channel, s: seq<Byte>): nat
    requires |s| >= HeaderSize(ch)
  {
    FromLE(s[..LengthWidth(ch)])
  }

  /** The complete frames at the front of a stream, and the bytes after them. */
  datatype Cutting = Cutting(frames: seq<seq<Byte>>, rest: seq<Byte>)

  /** No complete header in the stream announces less than a header. */
  predicate WellFramed(ch: Channel, s: seq<Byte>)
    decreases |s|
  {
    |s| < HeaderSize(ch) ||
    var n := FrameLength(ch, s);
    n >= HeaderSize(ch) && (|s| < n || WellFramed(ch, s[n..]))
  }

  function Cut(ch: Channel, s: seq<Byte>): Cutting
    requires WellFramed(ch, s)
    decreases |s|
  {
    if |s| < HeaderSize(ch) || |s| < FrameLength(ch, s) then Cutting([], s)
    else
      var n := FrameLength(ch, s);
      var c := Cut(ch, s[n..]);
      Cutting([s[..n]] + c.frames, c.rest)
  }

  /** Cutting loses and reorders nothing. */
  lemma {:induction false} CutKeepsBytes(ch: Channel, s: seq<Byte>)
    requires WellFramed(ch, s)
    ensures s == Flatten(Cut(ch, s).frames) + Cut(ch, s).rest
    decreases |s|
  {
    if |s| >= HeaderSize(ch) && |s| >= FrameLength(ch, s) {
      hide FrameLength, Flatten;
      var n := FrameLength(ch, s);
      var c := Cut(ch, s[n..]);
      CutKeepsBytes(ch, s[n..]);
      assert s == s[..n] + s[n..];
      FlattenCons(s[..n], c.frames);
      AppendAssoc(s[..n], Flatten(c.frames), c.rest);
    } else {
      assert Flatten<Byte>([]) + s == s;
    }
  }

  /** A frame whose length field tells its size. */
  predicate IsFrame(ch: Channel, f: seq<Byte>) {
    |f| >= HeaderSize(ch) && FrameLength(ch, f) == |f|
  }

  ghost predicate AllFrames(ch: Channel, fs: seq<seq<Byte>>) {
    forall i :: 0 <= i < |fs| ==> IsFrame(ch, fs[i])
  }

  lemma FrontFrame(ch: Channel, f: seq<Byte>, s: seq<Byte>)
    requires IsFrame(ch, f)
    ensures FrameLength(ch, f + s) == |f| && (f + s)[..|f|] == f && (f + s)[|f|..] == s
  {
    assert (f + s)[..LengthWidth(ch)] == f[..LengthWidth(ch)];
  }

  /** Concatenated frames are cut back into themselves, whatever follows. */
  lemma {:induction false} CutConcatenated(ch: Channel, fs: seq<seq<Byte>>, s: seq<Byte>)
    requires AllFrames(ch, fs) && WellFramed(ch, s)
    ensures WellFramed(ch, Flatten(fs) + s)
    ensures Cut(ch, Flatten(fs) + s) == Cutting(fs + Cut(ch, s).frames, Cut(ch, s).rest)
  {
    if fs == [] {
      assert [] + s == s;
      assert fs + Cut(ch, s).frames == Cut(ch, s).frames;
    } else {
      hide FrameLength, Flatten;
      var later := Flatten(fs[1..]) + s;
      assert fs == [fs[0]] + fs[1..];
      FlattenCons(fs[0], fs[1..]);
      AppendAssoc(fs[0], Flatten(fs[1..]), s);
      CutConcatenated(ch, fs[1..], s);
      CutOne(ch, fs[0], later);
      AppendAssoc([fs[0]], fs[1..], Cut(ch, s).frames);
    }
  }

  /** One turn of the delivery loop. */
  lemma CutFront(ch: Channel, s: seq<Byte>, n: nat)
    requires WellFramed(ch, s) && |s| >= HeaderSize(ch) && n == FrameLength(ch, s) <= |s|
    ensures n >= HeaderSize(ch) && WellFramed(ch, s[n..])
    ensures Cut(ch, s) == Cutting([s[..n]] + Cut(ch, s[n..]).frames, Cut(ch, s[n..]).rest)
  {
  }

  lemma CutOne(ch: Channel, f: seq<Byte>, s: seq<Byte>)
    requires IsFrame(ch, f) && WellFramed(ch, s)
    ensures WellFramed(ch, f + s) && Cut(ch, f + s) == Cutting([f] + Cut(ch, s).frames, Cut(ch, s).rest)
  {
    FrontFrame(ch, f, s);
  }

  lemma {:induction false} CutGivesFrames(ch: Channel, s: seq<Byte>)
    requires WellFramed(ch, s)
    ensures AllFrames(ch, Cut(ch, s).frames) && WellFramed(ch, Cut(ch, s).rest)
    ensures Cut(ch, Cut(ch, s).rest) == Cutting([], Cut(ch, s).rest)
    decreases |s|
  {
    if |s| >= HeaderSize(ch) && |s| >= FrameLength(ch, s) {
      var n := FrameLength(ch, s);
      CutGivesFrames(ch, s[n..]);
      assert s[..n][..LengthWidth(ch)] == s[..LengthWidth(ch)];
    }
  }

  /** A prefix of a well-framed stream is well framed. */
  lemma {:induction false} PrefixWellFramed(ch: Channel, s: seq<Byte>, t: seq<Byte>)
    requires WellFramed(ch, s + t)
    ensures WellFramed(ch, s)
    decreases |s|
  {
    if |s| >= HeaderSize(ch) {
      assert (s + t)[..LengthWidth(ch)] == s[..LengthWidth(ch)];
      var n := FrameLength(ch, s);
      if |s| >= n {
        assert (s + t)[n..] == s[n..] + t;
        PrefixWellFramed(ch, s[n..], t);
      }
    }
  }

  /** Cutting now and going on later is cutting everything at once. */
  lemma CutLater(ch: Channel, s: seq<Byte>, t: seq<Byte>)
    requires WellFramed(ch, s + t)
    ensures WellFramed(ch, s) && WellFramed(ch, Cut(ch, s).rest + t)
    ensures var first := Cut(ch, s);
            Cut(ch, s + t) == Cutting(first.frames + Cut(ch, first.rest + t).frames, Cut(ch, first.rest + t).rest)
  {
    PrefixWellFramed(ch, s, t);
    var first := Cut(ch, s);
    CutGivesFrames(ch, s);
    CutKeepsBytes(ch, s);
    assert s + t == Flatten(first.frames) + (first.rest + t);
    SuffixWellFramed(ch, first.frames, first.rest + t);
    CutConcatenated(ch, first.frames, first.rest + t);
  }

  lemma {:induction false} SuffixWellFramed(ch: Channel, fs: seq<seq<Byte>>, s: seq<Byte>)
    requires AllFrames(ch, fs) && WellFramed(ch, Flatten(fs) + s)
    ensures WellFramed(ch, s)
  {
    if fs == [] {
      assert Flatten(fs) + s == s;
    } else {
      var later := Flatten(fs[1..]) + s;
      assert Flatten(fs) + s == fs[0] + later;
      FrontFrame(ch, fs[0], later);
      SuffixWellFramed(ch, fs[1..], s);
    }
  }

  /** The frames delivered when a stream arrives in chunks on top of `held` bytes. */
  ghost function Feed(ch: Channel, held: seq<Byte>, chunks: seq<seq<Byte>>): Cutting
    requires WellFramed(ch, held + Flatten(chunks))
    decreases |chunks|
  {
    if chunks == [] then
      assert held + Flatten(chunks) == held;
      Cutting([], held)
    else
      assert held + Flatten(chunks) == held + chunks[0] + Flatten(chunks[1..]);
      CutLater(ch, held + chunks[0], Flatten(chunks[1..]));
      var c := Cut(ch, held + chunks[0]);
      var later := Feed(ch, c.rest, chunks[1..]);
      Cutting(c.frames + later.frames, later.rest)
  }

  lemma ReadFirst(ch: Channel, held: seq<Byte>, chunks: seq<seq<Byte>>)
    requires chunks != [] && WellFramed(ch, held + Flatten(chunks))
    ensures WellFramed(ch, held + chunks[0]) && WellFramed(ch, Cut(ch, held + chunks[0]).rest + Flatten(chunks[1..]))
    ensures var c := Cut(ch, held + chunks[0]);
            var later := Feed(ch, c.rest, chunks[1..]);
            Feed(ch, held, chunks) == Cutting(c.frames + later.frames, later.rest)
  {
    assert held + Flatten(chunks) == held + chunks[0] + Flatten(chunks[1..]);
    CutLater(ch, held + chunks[0], Flatten(chunks[1..]));
  }

  /** However a stream is split into chunks, the frames delivered are those of the stream. */
  lemma {:induction false} ChunkingDoesNotMatter(ch: Channel, held: seq<Byte>, chunks: seq<seq<Byte>>)
    requires WellFramed(ch, held) && WellFramed(ch, held + Flatten(chunks)) && Cut(ch, held) == Cutting([], held)
    ensures Feed(ch, held, chunks) == Cut(ch, held + Flatten(chunks))
    decreases |chunks|
  {
    if chunks == [] {
      assert held + Flatten(chunks) == held;
    } else {
      var now, later := held + chunks[0], Flatten(chunks[1..]);
      assert held + Flatten(chunks) == now + later;
      CutLater(ch, now, later);
      CutGivesFrames(ch, now);
      ChunkingDoesNotMatter(ch, Cut(ch, now).rest, chunks[1..]);
    }
  }

  const IO_BUF_SIZE: nat := 4096

  /** The reassembly buffer of a socket: `used` bytes held at the front of an array that always has
      4096 more. `delivered` records the frames handed to handleReassembledMessage. */
  class SocketHandler {
    const channel: Channel
    var buf: array<Byte>
    var used: nat
    var delivered: seq<seq<Byte>>

    ghost predicate Valid()
      reads this
    {
      buf.Length == used + IO_BUF_SIZE
    }

    ghost function Held(): seq<Byte>
      reads this, buf
      requires used <= buf.Length
    {
      buf[..used]
    }

    constructor (channel: Channel)
      ensures Valid() && this.channel == channel && fresh(buf) && Held() == [] && delivered == []
    {
      this.channel := channel;
      buf := new Byte[IO_BUF_SIZE](_ => 0);
      used, delivered := 0, [];
    }

    /** One readable event: `received` is what recv put behind the held bytes. Every complete frame is
        delivered, exactly the unconsumed bytes stay, and the free space is 4096 again. */
    method Readable(received: seq<Byte>)
      requires Valid() && 0 < |received| <= IO_BUF_SIZE && WellFramed(channel, Held() + received)
      modifies this, buf
      ensures Valid() && (buf == old(buf) || fresh(buf)) && buf.Length - used == 4096
      ensures var c := Cut(channel, old(Held()) + received);
              delivered == old(delivered) + c.frames && Held() == c.rest
    {
      ghost var stream := Held() + received;
      forall i | 0 <= i < |received| {
        buf[used + i] := received[i];
      }
      used := used + |received|;
      assert Held() == stream;
      DeliverFrames();
      if buf.Length - used != IO_BUF_SIZE {
        Resize(used + IO_BUF_SIZE);
      }
    }

    /** A run of readable events, one per chunk received. */
    method ReadAll(chunks: seq<seq<Byte>>)
      requires Valid() && forall i :: 0 <= i < |chunks| ==> 0 < |chunks[i]| <= IO_BUF_SIZE
      requires WellFramed(channel, Held() + Flatten(chunks))
      modifies this, buf
      ensures Valid() && (buf == old(buf) || fresh(buf))
      ensures var c := Feed(channel, old(Held()), chunks);
              delivered == old(delivered) + c.frames && Held() == c.rest
      decreases |chunks|
    {
      hide WellFramed, Cut, Flatten;
      ghost var held, before := Held(), delivered;
      if chunks == [] {
        return;
      }
      ReadFirst(channel, held, chunks);
      Readable(chunks[0]);
      ghost var c := Cut(channel, held + chunks[0]);
      ReadAll(chunks[1..]);
      AppendAssoc(before, c.frames, Feed(channel, c.rest, chunks[1..]).frames);
    }

    /** The loop over complete frames, shifting the remaining bytes to the front after each. */
    method DeliverFrames()
      requires used <= buf.Length && WellFramed(channel, Held())
      modifies `used, `delivered, buf
      ensures used <= buf.Length
      ensures var c := Cut(channel, old(Held()));
              delivered == old(delivered) + c.frames && Held() == c.rest
    {
      while used >= HeaderSize(channel)
        invariant used <= buf.Length && WellFramed(channel, Held())
        invariant delivered + Cut(channel, Held()).frames == old(delivered) + Cut(channel, old(Held())).frames
        invariant Cut(channel, Held()).rest == Cut(channel, old(Held())).rest
        decreases used
      {
        ghost var held := Held();
        var size := FromLE(buf[..LengthWidth(channel)]);
        assert held[..LengthWidth(channel)] == buf[..LengthWidth(channel)];
        hide FromLE, WellFramed, Cut;
        if used < size {
          break;
        }
        CutFront(channel, held, size);
        ghost var later := Cut(channel, held[size..]);
        AppendAssoc(delivered, [held[..size]], later.frames);
        TakeFrame(size);
      }
    }

    /** Delivers the frame at the front and moves the bytes behind it down. */
    method TakeFrame(size: nat)
      requires size <= used <= buf.Length
      modifies `used, `delivered, buf
      ensures used <= buf.Length && Held() == old(Held())[size..]
      ensures delivered == old(delivered) + [old(Held())[..size]]
    {
      delivered := delivered + [buf[..size]];
      assert buf[..size] == Held()[..size];
      var newUsed := used - size;
      forall i | 0 <= i < newUsed {
        buf[i] := buf[size + i];
      }
      used := newUsed;
    }

    /** realloc to newSize, keeping the held bytes. */
    method Resize(newSize: nat)
      requires used <= newSize && used <= buf.Length
      modifies `buf
      ensures fresh(buf) && buf.Length == newSize && Held() == old(Held())
    {
      var newBuf := new Byte[newSize](_ => 0);
      forall i | 0 <= i < used {
        newBuf[i] := buf[i];
      }
      buf := newBuf;
    }
  }
}
