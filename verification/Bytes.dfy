/** Bytes, options and the little-endian integers that every wire format here is built from. */
module Bytes {

  datatype Option<+T> = None | Some(value: T)

  type Byte = b: int | 0 <= b < 256

  /** Two to the power 8n. */
  function Pow256(n: nat): (p: nat)
    ensures p > 0
  {
    if n == 0 then 1 else 256 * Pow256(n - 1)
  }

  /** The `width` low bytes of `v`, least significant first, as memcpy from a little-endian integer. */
  function ToLE(v: nat, width: nat): (bs: seq<Byte>)
    ensures |bs| == width
  {
    if width == 0 then [] else [v % 256] + ToLE(v / 256, width - 1)
  }

  function FromLE(bs: seq<Byte>): (v: nat)
    ensures v < Pow256(|bs|)
  {
    if bs == [] then 0 else bs[0] + 256 * FromLE(bs[1..])
  }

  /** Byte i of an integer is its i-th digit in base 256. */
  lemma {:induction false} ByteOfLE(v: nat, width: nat, i: nat)
    requires i < width
    ensures ToLE(v, width)[i] == v / Pow256(i) % 256
  {
    if i > 0 {
      ByteOfLE(v / 256, width - 1, i - 1);
      DivideTwice(v, Pow256(i - 1));
    }
  }

  lemma DivideTwice(v: nat, m: nat)
    requires m > 0
    ensures v / 256 / m == v / (256 * m)
  {
    var q, r := v / 256 / m, v / 256 % m;
    assert v / 256 == q * m + r;
    assert v == 256 * (q * m + r) + v % 256;
    assert v == q * (256 * m) + (256 * r + v % 256);
    assert 256 * r + v % 256 < 256 * m;
    Quotient(v, 256 * m, q, 256 * r + v % 256);
  }

  lemma Quotient(v: int, m: int, q: int, r: int)
    requires m > 0 && v == q * m + r && 0 <= r < m
    ensures v / m == q
  {
    var d := v / m - q;
    assert v == (v / m) * m + v % m;
    assert d * m == r - v % m;
    assert -m < d * m < m;
  }

  /** An integer of 1, 2 or 4 bytes, least significant first. */
  predicate IsInteger(bs: seq<Byte>, n: int) {
    && (|bs| == 1 ==> n == bs[0] as int)
    && (|bs| == 2 ==> n == bs[0] as int + 256 * (bs[1] as int))
    && (|bs| == 4 ==> n == bs[0] as int + 256 * (bs[1] as int) + 65536 * (bs[2] as int) + 16777216 * (bs[3] as int))
  }

  lemma FromLEIsInteger(bs: seq<Byte>)
    ensures IsInteger(bs, FromLE(bs))
  {
    if |bs| in {1, 2, 4} {
      FromLECons(bs);
      if |bs| > 1 {
        FromLECons(bs[1..]);
        if |bs| > 2 {
          FromLECons(bs[1..][1..]);
          FromLECons(bs[1..][1..][1..]);
        }
      }
    }
  }

  lemma FromLECons(bs: seq<Byte>)
    requires bs != []
    ensures FromLE(bs) == bs[0] as int + 256 * FromLE(bs[1..]) && (|bs| == 1 ==> FromLE(bs) == bs[0] as int)
  {
  }

  lemma {:induction false} FromToLE(v: nat, width: nat)
    requires v < Pow256(width)
    ensures FromLE(ToLE(v, width)) == v
  {
    if width > 0 {
      FromToLE(v / 256, width - 1);
      assert ToLE(v, width)[1..] == ToLE(v / 256, width - 1);
    }
  }

  lemma {:induction false} ToFromLE(bs: seq<Byte>)
    ensures ToLE(FromLE(bs), |bs|) == bs
  {
    if bs != [] {
      ToFromLE(bs[1..]);
      assert FromLE(bs) % 256 == bs[0] && FromLE(bs) / 256 == FromLE(bs[1..]);
    }
  }

  lemma Widths()
    ensures Pow256(1) == 0x100 && Pow256(2) == 0x1_0000 && Pow256(4) == 0x1_0000_0000
  {
  }

  /** A buffer of n copies of one byte. */
  function Fill(b: Byte, n: nat): (bs: seq<Byte>)
    ensures |bs| == n
    ensures forall i :: 0 <= i < n ==> bs[i] == b
  {
    seq(n, _ => b)
  }

  function Flatten<T>(parts: seq<seq<T>>): seq<T> {
    if parts == [] then [] else parts[0] + Flatten(parts[1..])
  }

  lemma FlattenCons<T>(first: seq<T>, parts: seq<seq<T>>)
    ensures Flatten([first] + parts) == first + Flatten(parts)
  {
  }

  lemma AppendAssoc<T>(a: seq<T>, b: seq<T>, c: seq<T>)
    ensures (a + b) + c == a + (b + c)
  {
  }
}
