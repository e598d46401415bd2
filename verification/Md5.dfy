/** The keyed digest stored beside every NV file: hex(MD5(content ++ magic words)).
    MD5 itself is an arbitrary streaming digest (RFC 1321, section 3): a context, a step that
    absorbs one byte, and a final 16-byte value. */
module Md5 {
  import opened Bytes

  /** The contents of an MD5_CTX, as an opaque code. */
  type Context = int

  type Digest16 = s: seq<Byte> | |s| == 16 witness Fill(0, 16)

  datatype Hash = Hash(init: Context, step: (Context, Byte) -> Context, final: Context -> Digest16)

  /** "Samsung_Android_RIL", absorbed after every content. */
  function Magic(): seq<Byte> {
    [83, 97, 109, 115, 117, 110, 103, 95, 65, 110, 100, 114, 111, 105, 100, 95, 82, 73, 76]
  }

  function Update(h: Hash, ctx: Context, data: seq<Byte>): Context
    decreases |data|
  {
    if data == [] then ctx else Update(h, h.step(ctx, data[0]), data[1..])
  }

  /** Absorbing two chunks is absorbing their concatenation. */
  lemma {:induction false} UpdateConcat(h: Hash, ctx: Context, a: seq<Byte>, b: seq<Byte>)
    ensures Update(h, ctx, a + b) == Update(h, Update(h, ctx, a), b)
    decreases |a|
  {
    if a == [] {
      assert a + b == b;
    } else {
      assert (a + b)[1..] == a[1..] + b;
      UpdateConcat(h, h.step(ctx, a[0]), a[1..], b);
    }
  }

  /** And absorbing one byte is one step. */
  lemma UpdateOne(h: Hash, ctx: Context, b: Byte)
    ensures Update(h, ctx, []) == ctx && Update(h, ctx, [b]) == h.step(ctx, b)
  {
    assert [b][1..] == [];
  }

  function HexDigit(n: nat): Byte
    requires n < 16
  {
    if n < 10 then 48 + n else 87 + n
  }

  /** binaryToHex: two lower-case digits per byte, high nibble first. */
  function Hex(bs: seq<Byte>): (out: seq<Byte>)
    ensures |out| == 2 * |bs|
  {
    if bs == [] then [] else [HexDigit(bs[0] / 16), HexDigit(bs[0] % 16)] + Hex(bs[1..])
  }

  lemma {:induction false} HexInjective(a: seq<Byte>, b: seq<Byte>)
    requires Hex(a) == Hex(b)
    ensures a == b
  {
    if a != [] && b != [] {
      assert Hex(a)[0] == HexDigit(a[0] / 16) && Hex(a)[1] == HexDigit(a[0] % 16);
      assert Hex(b)[0] == HexDigit(b[0] / 16) && Hex(b)[1] == HexDigit(b[0] % 16);
      assert Hex(a)[2..] == Hex(a[1..]) && Hex(b)[2..] == Hex(b[1..]);
      HexInjective(a[1..], b[1..]);
      assert a == [a[0]] + a[1..] && b == [b[0]] + b[1..];
    }
  }

  const DIGITS: string := "0123456789abcdef"

  /** Each byte becomes its high digit and its low digit. */
  lemma {:induction false} HexDigits(bs: seq<Byte>, i: nat)
    requires i < |bs|
    ensures Hex(bs)[2 * i] == DIGITS[bs[i] / 16] as int && Hex(bs)[2 * i + 1] == DIGITS[bs[i] % 16] as int
  {
    if i > 0 { HexDigits(bs[1..], i - 1); }
  }

  /** calculateMD5: init, update, update with the magic words, final, hex. */
  function Digest(h: Hash, data: seq<Byte>): (d: seq<Byte>)
    ensures |d| == 32
  {
    Hex(h.final(Update(h, Update(h, h.init, data), Magic())))
  }

  /** The digest is the hex text of the MD5 of the content followed by the magic words. */
  lemma DigestOfContentAndMagic(h: Hash, data: seq<Byte>)
    ensures Digest(h, data) == Hex(h.final(Update(h, h.init, data + Magic())))
  {
    UpdateConcat(h, h.init, data, Magic());
  }

  /** Two contents share a digest file exactly when their raw 16-byte MD5 values agree. */
  lemma DigestCollision(h: Hash, a: seq<Byte>, b: seq<Byte>)
    ensures Digest(h, a) == Digest(h, b) <==>
            h.final(Update(h, h.init, a + Magic())) == h.final(Update(h, h.init, b + Magic()))
  {
    UpdateConcat(h, h.init, a, Magic());
    UpdateConcat(h, h.init, b, Magic());
    if Digest(h, a) == Digest(h, b) {
      HexInjective(h.final(Update(h, h.init, a + Magic())), h.final(Update(h, h.init, b + Magic())));
    }
  }
}
