/** Message schemas and their meaning: the recursive reader and writer that a schema denotes, and the
    theorem that each undoes the other. */
module Schema {
  import opened Bytes

  /** :read_length => a number, "m_field" (an integer member read earlier), or "stream.remainingBytes()". */
  datatype Length = Const(n: nat) | Member(index: nat) | Remaining

  datatype Field =
    | Data(size: nat)
    | Int(width: nat)
    | Vector(length: Length)
    | Array(length: Length, item: Structure)

  /** The fields of a structure, first to last. */
  datatype Structure = Nil | Cons(head: Field, tail: Structure)

  /** Member values; an array item is a record of its own members. */
  datatype Value = Number(n: nat) | Blob(bytes: seq<Byte>) | Items(items: seq<seq<Value>>)

  type Record = seq<Value>

  /** The value of a length expression, given the members read so far and the bytes left. */
  function LengthOf(l: Length, env: Record, left: nat): nat {
    match l
    case Const(n) => n
    case Member(i) => if i < |env| && env[i].Number? then env[i].n else 0
    case Remaining => left
  }

  datatype Parsed = Parsed(record: Record, rest: seq<Byte>)

  /** The reader a structure denotes: env holds the members read before it, which the result extends. */
  function Parse(s: Structure, env: Record, bs: seq<Byte>): (r: Option<Parsed>)
    ensures r.Some? ==> env <= r.value.record && |r.value.rest| <= |bs|
    decreases s, 0
  {
    match s
    case Nil => Some(Parsed(env, bs))
    case Cons(f, rest) =>
      (match ParseField(f, env, bs)
       case None => None
       case Some((v, left)) => Parse(rest, env + [v], left))
  }

  function ParseField(f: Field, env: Record, bs: seq<Byte>): (r: Option<(Value, seq<Byte>)>)
    ensures r.Some? ==> |r.value.1| <= |bs|
    decreases f, 0
  {
    match f
    case Data(n) => if |bs| < n then None else Some((Blob(bs[..n]), bs[n..]))
    case Int(w) => if |bs| < w then None else Some((Number(FromLE(bs[..w])), bs[w..]))
    case Vector(l) =>
      var n := LengthOf(l, env, |bs|);
      if |bs| < n then None else Some((Blob(bs[..n]), bs[n..]))
    case Array(l, item) =>
      (match ParseItems(item, LengthOf(l, env, |bs|), bs)
       case None => None
       case Some((items, left)) => Some((Items(items), left)))
  }

  function ParseItems(item: Structure, count: nat, bs: seq<Byte>): (r: Option<(seq<Record>, seq<Byte>)>)
    ensures r.Some? ==> |r.value.0| == count && |r.value.1| <= |bs|
    decreases item, count + 1
  {
    if count == 0 then Some(([], bs))
    else match Parse(item, [], bs)
      case None => None
      case Some(first) =>
        (match ParseItems(item, count - 1, first.rest)
         case None => None
         case Some((others, left)) => Some(([first.record] + others, left)))
  }

  /** The writer: members are written as they are, whatever their sizes. r starts at s's first member. */
  function Encode(s: Structure, r: Record): seq<Byte>
    decreases s, 0
  {
    match s
    case Nil => []
    case Cons(f, rest) =>
      if r == [] then []
      else EncodeField(f, r[0]) + Encode(rest, r[1..])
  }

  function EncodeField(f: Field, v: Value): seq<Byte>
    decreases f, 0
  {
    match f
    case Data(n) => if v.Blob? then v.bytes else []
    case Int(w) => if v.Number? then ToLE(v.n, w) else []
    case Vector(_) => if v.Blob? then v.bytes else []
    case Array(_, item) => if v.Items? then EncodeItems(item, v.items) else []
  }

  function EncodeItems(item: Structure, rs: seq<Record>): seq<Byte>
    decreases item, |rs| + 1
  {
    if rs == [] then [] else Encode(item, rs[0]) + EncodeItems(item, rs[1..])
  }

  /** r's members have the types, ranges and sizes that s prescribes when `after` more bytes follow the
      structure: the condition under which a written message can be read back. */
  ghost predicate Fits(s: Structure, env: Record, r: Record, after: nat)
    decreases s, 0
  {
    match s
    case Nil => r == []
    case Cons(f, rest) =>
      && r != []
      && FitsField(f, env, r[0], |Encode(rest, r[1..])| + after)
      && Fits(rest, env + [r[0]], r[1..], after)
  }

  ghost predicate FitsField(f: Field, env: Record, v: Value, after: nat)
    decreases f, 0
  {
    var left := |EncodeField(f, v)| + after;
    match f
    case Data(n) => v.Blob? && |v.bytes| == n
    case Int(w) => v.Number? && v.n < Pow256(w)
    case Vector(l) => v.Blob? && |v.bytes| == LengthOf(l, env, left)
    case Array(l, item) => v.Items? && |v.items| == LengthOf(l, env, left) && FitsItems(item, v.items, after)
  }

  ghost predicate FitsItems(item: Structure, rs: seq<Record>, after: nat)
    decreases item, |rs| + 1
  {
    rs == [] || (Fits(item, [], rs[0], |EncodeItems(item, rs[1..])| + after) && FitsItems(item, rs[1..], after))
  }

  /* Reading what was written. */

  lemma {:induction false} ParseEncoded(s: Structure, env: Record, r: Record, rest: seq<Byte>)
    requires Fits(s, env, r, |rest|)
    ensures Parse(s, env, Encode(s, r) + rest) == Some(Parsed(env + r, rest))
    decreases s, 0
  {
    match s
    case Nil =>
      assert [] + rest == rest && env + r == env;
    case Cons(f, tail) =>
      var here, later := EncodeField(f, r[0]), Encode(tail, r[1..]) + rest;
      assert Encode(s, r) + rest == here + later;
      assert env + [r[0]] + r[1..] == env + r;
      ParseEncodedField(f, env, r[0], later);
      ParseEncoded(tail, env + [r[0]], r[1..], rest);
  }

  lemma {:induction false} ParseEncodedField(f: Field, env: Record, v: Value, rest: seq<Byte>)
    requires FitsField(f, env, v, |rest|)
    ensures ParseField(f, env, EncodeField(f, v) + rest) == Some((v, rest))
    decreases f, 0
  {
    var here := EncodeField(f, v);
    assert (here + rest)[..|here|] == here && (here + rest)[|here|..] == rest;
    match f
    case Int(w) => FromToLE(v.n, w);
    case Array(_, item) => ParseEncodedItems(item, v.items, rest);
    case _ =>
  }

  lemma {:induction false} ParseEncodedItems(item: Structure, rs: seq<Record>, rest: seq<Byte>)
    requires FitsItems(item, rs, |rest|)
    ensures ParseItems(item, |rs|, EncodeItems(item, rs) + rest) == Some((rs, rest))
    decreases item, |rs| + 1
  {
    hide Parse, Encode, Fits;
    if rs == [] {
      assert [] + rest == rest;
    } else {
      var later := EncodeItems(item, rs[1..]) + rest;
      assert EncodeItems(item, rs) + rest == Encode(item, rs[0]) + later;
      ParseEncoded(item, [], rs[0], later);
      ParseEncodedItems(item, rs[1..], rest);
      assert [] + rs[0] == rs[0] && [rs[0]] + rs[1..] == rs;
    }
  }

  /* Writing what was read. */

  lemma {:induction false} EncodeParsed(s: Structure, env: Record, bs: seq<Byte>)
    requires Parse(s, env, bs).Some?
    ensures var p := Parse(s, env, bs).value;
            bs == Encode(s, p.record[|env|..]) + p.rest && Fits(s, env, p.record[|env|..], |p.rest|)
    decreases s, 0
  {
    hide ParseField, EncodeField, FitsField;
    if s.Cons? {
      var p := Parse(s, env, bs).value;
      var (v, left) := ParseField(s.head, env, bs).value;
      var r, r' := p.record[|env|..], p.record[|env + [v]|..];
      EncodeParsedField(s.head, env, bs);
      EncodeParsed(s.tail, env + [v], left);
      assert r == [v] + r';
      assert EncodeField(s.head, v) + (Encode(s.tail, r') + p.rest) == Encode(s, r) + p.rest;
    }
  }

  lemma {:induction false} EncodeParsedField(f: Field, env: Record, bs: seq<Byte>)
    requires ParseField(f, env, bs).Some?
    ensures var (v, rest) := ParseField(f, env, bs).value;
            bs == EncodeField(f, v) + rest && FitsField(f, env, v, |rest|)
    decreases f, 0
  {
    match f
    case Int(w) => ToFromLE(bs[..w]);
    case Array(l, item) => EncodeParsedItems(item, LengthOf(l, env, |bs|), bs);
    case _ =>
  }

  lemma {:induction false} EncodeParsedItems(item: Structure, count: nat, bs: seq<Byte>)
    requires ParseItems(item, count, bs).Some?
    ensures var (rs, rest) := ParseItems(item, count, bs).value;
            bs == EncodeItems(item, rs) + rest && FitsItems(item, rs, |rest|)
    decreases item, count + 1
  {
    hide Parse, Encode, Fits;
    if count > 0 {
      var first := Parse(item, [], bs).value;
      var (others, rest) := ParseItems(item, count - 1, first.rest).value;
      EncodeParsed(item, [], bs);
      EncodeParsedItems(item, count - 1, first.rest);
      assert first.record[0..] == first.record && ([first.record] + others)[1..] == others;
      AppendAssoc(Encode(item, first.record), EncodeItems(item, others), rest);
    }
  }

  /** The codec theorem, both directions at once: reading bs yields r and leaves rest exactly when bs is
      r written followed by rest, and r's sizes match their length expressions. */
  lemma ReadIffWritten(s: Structure, bs: seq<Byte>, r: Record, rest: seq<Byte>)
    ensures Parse(s, [], bs) == Some(Parsed(r, rest)) <==> bs == Encode(s, r) + rest && Fits(s, [], r, |rest|)
  {
    if bs == Encode(s, r) + rest && Fits(s, [], r, |rest|) {
      ParseEncoded(s, [], r, rest);
      assert [] + r == r;
    }
    if Parse(s, [], bs) == Some(Parsed(r, rest)) {
      EncodeParsed(s, [], bs);
      assert r[0..] == r;
    }
  }

  /* What a record says about the bytes it was read from. */

  /** `count` is what the length of field j says: the number, the earlier member's value, or all the bytes
      left before the field. */
  predicate IsLength(l: Length, record: Record, j: nat, left: nat, count: nat) {
    match l
    case Const(n) => count == n
    case Member(i) => i < j <= |record| && record[i].Number? ==> count == record[i].n
    case Remaining => count == left
  }

  /** bs without the bytes of `rest` at its end. */
  function Before(bs: seq<Byte>, rest: seq<Byte>): seq<Byte>
    requires |rest| <= |bs|
  {
    bs[..|bs| - |rest|]
  }

  predicate EndsWith(bs: seq<Byte>, rest: seq<Byte>) {
    |rest| <= |bs| && bs[|bs| - |rest|..] == rest
  }

  /** Members j, j + 1, ... of the record are what the fields of s say of bs, one behind the other, up to
      rest, and inside every array item likewise: an account of reading that names neither the reader nor
      the writer. */
  ghost predicate Describes(s: Structure, record: Record, j: nat, bs: seq<Byte>, rest: seq<Byte>)
    decreases s, 0
  {
    match s
    case Nil => j == |record| && bs == rest
    case Cons(f, tail) =>
      j < |record| && exists mid :: FieldDescribes(f, record, j, bs, mid) && Describes(tail, record, j + 1, mid, rest)
  }

  ghost predicate FieldDescribes(f: Field, record: Record, j: nat, bs: seq<Byte>, rest: seq<Byte>)
    decreases f, 0
  {
    && j < |record| && EndsWith(bs, rest)
    && var own := Before(bs, rest);
       match f
       case Data(n) => record[j] == Blob(own) && |own| == n
       case Int(w) => record[j].Number? && |own| == w && IsInteger(own, record[j].n)
       case Vector(l) => record[j] == Blob(own) && IsLength(l, record, j, |bs|, |own|)
       case Array(l, item) =>
         record[j].Items? && IsLength(l, record, j, |bs|, |record[j].items|) && ItemsDescribe(item, record[j].items, bs, rest)
  }

  ghost predicate ItemsDescribe(item: Structure, rs: seq<Record>, bs: seq<Byte>, rest: seq<Byte>)
    decreases item, |rs| + 1
  {
    if rs == [] then bs == rest
    else exists mid :: Describes(item, rs[0], 0, bs, mid) && ItemsDescribe(item, rs[1..], mid, rest)
  }

  /** Whatever is read is read as described. */
  lemma {:induction false} ReadAsDescribed(s: Structure, env: Record, bs: seq<Byte>)
    requires Parse(s, env, bs).Some?
    ensures Describes(s, Parse(s, env, bs).value.record, |env|, bs, Parse(s, env, bs).value.rest)
    decreases s, 0
  {
    hide ParseField, FieldDescribes;
    if s.Cons? {
      var (v, mid) := ParseField(s.head, env, bs).value;
      var record := Parse(s, env, bs).value.record;
      FieldReadAsDescribed(s.head, env, bs, record);
      ReadAsDescribed(s.tail, env + [v], mid);
    }
  }

  lemma {:induction false} FieldReadAsDescribed(f: Field, env: Record, bs: seq<Byte>, record: Record)
    requires ParseField(f, env, bs).Some? && env + [ParseField(f, env, bs).value.0] <= record
    ensures FieldDescribes(f, record, |env|, bs, ParseField(f, env, bs).value.1)
    decreases f, 0
  {
    hide FromLE, IsInteger;
    var (v, rest) := ParseField(f, env, bs).value;
    assert record[|env|] == v && forall i :: 0 <= i < |env| ==> record[i] == env[i];
    match f
    case Int(w) =>
      FromLEIsInteger(bs[..w]);
    case Array(l, item) =>
      EncodeParsedField(f, env, bs);
      ItemsReadAsDescribed(item, LengthOf(l, env, |bs|), bs);
    case _ =>
  }

  lemma {:induction false} ItemsReadAsDescribed(item: Structure, count: nat, bs: seq<Byte>)
    requires ParseItems(item, count, bs).Some?
    ensures ItemsDescribe(item, ParseItems(item, count, bs).value.0, bs, ParseItems(item, count, bs).value.1)
    decreases item, count + 1
  {
    hide Parse, Describes;
    if count > 0 {
      var first := Parse(item, [], bs).value;
      var (others, rest) := ParseItems(item, count - 1, first.rest).value;
      ReadAsDescribed(item, [], bs);
      ItemsReadAsDescribed(item, count - 1, first.rest);
      assert ([first.record] + others)[1..] == others;
    }
  }

  function FieldCount(s: Structure): nat {
    if s.Nil? then 0 else 1 + FieldCount(s.tail)
  }

  function FieldAt(s: Structure, j: nat): Field
    requires j < FieldCount(s)
  {
    if j == 0 then s.head else FieldAt(s.tail, j - 1)
  }

  /** Field by field: what a description of the whole says of member k of s. */
  lemma {:induction false} DescribesField(s: Structure, record: Record, j: nat, bs: seq<Byte>, rest: seq<Byte>, k: nat)
    returns (from: seq<Byte>, to: seq<Byte>)
    requires Describes(s, record, j, bs, rest) && k < FieldCount(s)
    ensures FieldDescribes(FieldAt(s, k), record, j + k, from, to)
    decreases s
  {
    hide FieldDescribes;
    var mid :| FieldDescribes(s.head, record, j, bs, mid) && Describes(s.tail, record, j + 1, mid, rest);
    if k == 0 {
      from, to := bs, mid;
    } else {
      from, to := DescribesField(s.tail, record, j + 1, mid, rest, k - 1);
    }
  }

  /** In a record that was read, every vector and array is as long as its length field, or its number,
      says. */
  lemma LengthsFollowTheirFields(s: Structure, bs: seq<Byte>, j: nat)
    requires Parse(s, [], bs).Some? && j < FieldCount(s)
    ensures var r := Parse(s, [], bs).value.record;
            && j < |r|
            && match FieldAt(s, j)
               case Data(n) => r[j].Blob? && |r[j].bytes| == n
               case Int(_) => r[j].Number?
               case Vector(Const(n)) => r[j].Blob? && |r[j].bytes| == n
               case Array(Const(n), _) => r[j].Items? && |r[j].items| == n
               case Vector(Member(i)) => r[j].Blob? && (i < j && FieldAt(s, i).Int? ==> r[i].Number? && |r[j].bytes| == r[i].n)
               case Array(Member(i), _) => r[j].Items? && (i < j && FieldAt(s, i).Int? ==> r[i].Number? && |r[j].items| == r[i].n)
               case _ => true
  {
    var p := Parse(s, [], bs).value;
    ReadAsDescribed(s, [], bs);
    hide Parse, Describes;
    var from, to := DescribesField(s, p.record, 0, bs, p.rest, j);
    match FieldAt(s, j)
    case Vector(Member(i)) =>
      if i < j { var f, t := DescribesField(s, p.record, 0, bs, p.rest, i); }
    case Array(Member(i), _) =>
      if i < j { var f, t := DescribesField(s, p.record, 0, bs, p.rest, i); }
    case _ =>
  }

  /** No length looks at the rest of the stream. */
  predicate Local(s: Structure)
    decreases s
  {
    match s
    case Nil => true
    case Cons(f, rest) =>
      && (f.Vector? || f.Array? ==> f.length != Remaining)
      && (f.Array? ==> Local(f.item))
      && Local(rest)
  }

  /** The first k of bs, as what is left once `used` bytes are gone. */
  function Window(bs: seq<Byte>, used: nat, k: nat): seq<Byte>
    requires used <= k <= |bs|
  {
    bs[used..k]
  }

  lemma WindowShift(bs: seq<Byte>, n: nat, used: nat, k: nat)
    requires n <= used <= k <= |bs|
    ensures Window(bs[n..], used - n, k - n) == Window(bs, used, k)
  {
  }

  /** Such a structure is read exactly when enough bytes are present: if it cannot be read from bs it
      cannot from any prefix either, and if reading bs uses n bytes, a prefix shorter than n fails and
      any other gives the same record. */
  lemma {:induction false} EnoughBytesIff(s: Structure, env: Record, bs: seq<Byte>, k: nat)
    requires Local(s) && k <= |bs|
    ensures Parse(s, env, bs[..k]) ==
            match Parse(s, env, bs)
            case None => None
            case Some(p) =>
              var used := |bs| - |p.rest|;
              if k < used then None else Some(Parsed(p.record, Window(bs, used, k)))
    decreases s, 0
  {
    hide ParseField, EncodeField, FitsField;
    if s.Cons? {
      EnoughBytesForField(s.head, env, bs, k);
      if ParseField(s.head, env, bs).Some? {
        var (v, left) := ParseField(s.head, env, bs).value;
        var n := |bs| - |left|;
        EncodeParsedField(s.head, env, bs);
        assert left == bs[n..];
        if k >= n {
          EnoughBytesIff(s.tail, env + [v], left, k - n);
          assert left[..k - n] == Window(bs, n, k);
          assert forall u :: n <= u <= k ==> Window(left, u - n, k - n) == Window(bs, u, k);
        }
      }
    }
  }

  /** A structure closed by a vector of whatever is left, as the protocol's padding field is. */
  function Closed(s: Structure): Structure
    decreases s
  {
    match s
    case Nil => Cons(Vector(Remaining), Nil)
    case Cons(f, rest) => Cons(f, Closed(rest))
  }

  /** Such a structure is read whenever its front is, and swallows the rest: so with a local front it too
      is read exactly when enough bytes are present. */
  lemma {:induction false} ClosedReadsTheRest(s: Structure, env: Record, bs: seq<Byte>)
    ensures Parse(Closed(s), env, bs) ==
            match Parse(s, env, bs)
            case None => None
            case Some(p) => Some(Parsed(p.record + [Blob(p.rest)], []))
    decreases s
  {
    match s
    case Nil =>
      assert bs[..|bs|] == bs && bs[|bs|..] == [];
      assert ParseField(Vector(Remaining), env, bs) == Some((Blob(bs), []));
      assert Parse(Nil, env + [Blob(bs)], []) == Some(Parsed(env + [Blob(bs)], []));
    case Cons(f, rest) =>
      if ParseField(f, env, bs).Some? {
        var (v, left) := ParseField(f, env, bs).value;
        ClosedReadsTheRest(rest, env + [v], left);
      }
  }

  lemma ClosedEnoughBytesIff(s: Structure, env: Record, bs: seq<Byte>, k: nat)
    requires Local(s) && k <= |bs|
    ensures Parse(Closed(s), env, bs[..k]) ==
            match Parse(s, env, bs)
            case None => None
            case Some(p) =>
              var used := |bs| - |p.rest|;
              if k < used then None else Some(Parsed(p.record + [Blob(Window(bs, used, k))], []))
  {
    ClosedReadsTheRest(s, env, bs[..k]);
    EnoughBytesIff(s, env, bs, k);
  }

  lemma {:induction false} EnoughBytesForField(f: Field, env: Record, bs: seq<Byte>, k: nat)
    requires Local(Cons(f, Nil)) && k <= |bs|
    ensures ParseField(f, env, bs[..k]) ==
            match ParseField(f, env, bs)
            case None => None
            case Some((v, rest)) =>
              var used := |bs| - |rest|;
              if k < used then None else Some((v, Window(bs, used, k)))
    decreases f, 0
  {
    if f.Array? {
      EnoughBytesForItems(f.item, LengthOf(f.length, env, |bs|), bs, k);
    } else if ParseField(f, env, bs).Some? {
      var used := |bs| - |ParseField(f, env, bs).value.1|;
      if k >= used {
        assert bs[..k][..used] == bs[..used] && bs[..k][used..] == Window(bs, used, k);
      }
    }
  }

  lemma {:induction false} EnoughBytesForItems(item: Structure, count: nat, bs: seq<Byte>, k: nat)
    requires Local(item) && k <= |bs|
    ensures ParseItems(item, count, bs[..k]) ==
            match ParseItems(item, count, bs)
            case None => None
            case Some((rs, rest)) =>
              var used := |bs| - |rest|;
              if k < used then None else Some((rs, Window(bs, used, k)))
    decreases item, count + 1
  {
    hide Parse, Encode, Fits, Local;
    if count > 0 {
      EnoughBytesIff(item, [], bs, k);
      if Parse(item, [], bs).Some? {
        var left := Parse(item, [], bs).value.rest;
        var n := |bs| - |left|;
        EncodeParsed(item, [], bs);
        assert left == bs[n..];
        if k >= n {
          EnoughBytesForItems(item, count - 1, left, k - n);
          assert left[..k - n] == Window(bs, n, k);
          hide Window;
          if ParseItems(item, count - 1, left).Some? {
            var used := |bs| - |ParseItems(item, count - 1, left).value.1|;
            if used <= k { WindowShift(bs, n, used, k); }
          }
        }
      }
    }
  }
}
