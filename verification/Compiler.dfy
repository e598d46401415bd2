/** The protocol compiler: the statements structure.cpp.erb emits for a schema, what running them does
    to a stream, and the proof that this is what the schema means. */
module Compiler {
  import opened Bytes
  import opened Schema
  import opened DataStreams

  /** Statements of a generated readFromStream. Each works on the member being filled in. */
  datatype Stmt =
    | ReadRaw(size: nat)               // stream.readRawData(m_x, size)
    | ReadInteger(width: nat)          // stream.read(m_x)
    | ResizeVector(length: Length)     // m_x.resize(length)
    | ReadVector                       // stream.readRawData(&m_x[0], m_x.size())
    | ResizeArray(length: Length)      // m_x.resize(length)
    | ForEachItem(body: seq<Stmt>)     // for(...) m_x[i].readFromStream(stream)

  /** A message's readFromStream; catches tells whether it opens with caughtExceptionHere. */
  datatype Method = Method(catches: bool, body: seq<Stmt>)

  function EmitField(f: Field): seq<Stmt>
    decreases f, 0
  {
    match f
    case Data(n) => [ReadRaw(n)]
    case Int(w) => [ReadInteger(w)]
    case Vector(l) => [ResizeVector(l), ReadVector]
    case Array(l, item) => [ResizeArray(l), ForEachItem(EmitBody(item))]
  }

  function EmitBody(s: Structure): seq<Stmt>
    decreases s, 0
  {
    match s
    case Nil => []
    case Cons(f, rest) => EmitField(f) + EmitBody(rest)
  }

  /** Only messages with fields catch; nested structures never do. */
  function EmitMessage(s: Structure): Method {
    Method(s.Cons?, EmitBody(s))
  }

  function Front(r: Record): Record
    requires r != []
  {
    r[..|r| - 1]
  }

  /** Running statements on an object with some members filled in; None is an exception in flight. */
  function Exec(body: seq<Stmt>, members: Record, bs: seq<Byte>): Option<Parsed>
    decreases body, 0
  {
    if body == [] then Some(Parsed(members, bs))
    else match ExecStmt(body[0], members, bs)
      case None => None
      case Some(p) => Exec(body[1..], p.record, p.rest)
  }

  function ExecStmt(st: Stmt, members: Record, bs: seq<Byte>): Option<Parsed>
    decreases st, 0
  {
    match st
    case ReadRaw(n) =>
      if |bs| < n then None else Some(Parsed(members + [Blob(bs[..n])], bs[n..]))
    case ReadInteger(w) =>
      if |bs| < w then None else Some(Parsed(members + [Number(FromLE(bs[..w]))], bs[w..]))
    case ResizeVector(l) =>
      Some(Parsed(members + [Blob(Fill(0, LengthOf(l, members, |bs|)))], bs))
    case ReadVector =>
      if members == [] || !members[|members| - 1].Blob? then None
      else
        var n := |members[|members| - 1].bytes|;
        if |bs| < n then None else Some(Parsed(Front(members) + [Blob(bs[..n])], bs[n..]))
    case ResizeArray(l) =>
      Some(Parsed(members + [Items(seq(LengthOf(l, members, |bs|), _ => []))], bs))
    case ForEachItem(item) =>
      if members == [] || !members[|members| - 1].Items? then None
      else
        (match ExecItems(item, members[|members| - 1].items, bs)
         case None => None
         case Some((items, rest)) => Some(Parsed(Front(members) + [Items(items)], rest)))
  }

  function ExecItems(item: seq<Stmt>, objects: seq<Record>, bs: seq<Byte>): Option<(seq<Record>, seq<Byte>)>
    decreases item, |objects| + 1
  {
    if objects == [] then Some(([], bs))
    else match Exec(item, objects[0], bs)
      case None => None
      case Some(p) =>
        (match ExecItems(item, objects[1..], p.rest)
         case None => None
         case Some((others, rest)) => Some(([p.record] + others, rest)))
  }

  /** What a call of readFromStream does: return, or let the exception escape to its caller. */
  datatype Outcome = Returned(ok: bool, record: Record, rest: seq<Byte>) | Escaped

  function Call(m: Method, bs: seq<Byte>): Outcome {
    match Exec(m.body, [], bs)
    case Some(p) => Returned(true, p.record, p.rest)
    case None => if m.catches then Returned(false, [], []) else Escaped
  }

  lemma {:induction false} ExecConcat(a: seq<Stmt>, b: seq<Stmt>, members: Record, bs: seq<Byte>)
    ensures Exec(a + b, members, bs) ==
            match Exec(a, members, bs) { case None => None case Some(p) => Exec(b, p.record, p.rest) }
    decreases |a|
  {
    if a == [] {
      assert a + b == b;
    } else {
      assert (a + b)[0] == a[0] && (a + b)[1..] == a[1..] + b;
      if ExecStmt(a[0], members, bs).Some? {
        var p := ExecStmt(a[0], members, bs).value;
        ExecConcat(a[1..], b, p.record, p.rest);
      }
    }
  }

  lemma ExecTwo(a: Stmt, b: Stmt, members: Record, bs: seq<Byte>)
    ensures Exec([a, b], members, bs) ==
            match ExecStmt(a, members, bs) { case None => None case Some(p) => ExecStmt(b, p.record, p.rest) }
  {
    hide ExecStmt;
    assert [a, b][1..] == [b] && [b][1..] == [];
    if ExecStmt(a, members, bs).Some? {
      var p := ExecStmt(a, members, bs).value;
      if ExecStmt(b, p.record, p.rest).Some? {
        var q := ExecStmt(b, p.record, p.rest).value;
        assert Exec([], q.record, q.rest) == Some(Parsed(q.record, q.rest));
      }
      assert Exec([b], p.record, p.rest) == ExecStmt(b, p.record, p.rest);
    }
  }

  /** The emitted body reads what the structure denotes. */
  lemma {:induction false} BodyReadsStructure(s: Structure, members: Record, bs: seq<Byte>)
    ensures Exec(EmitBody(s), members, bs) == Parse(s, members, bs)
    decreases s, 0
  {
    hide ExecStmt, ParseField;
    if s.Cons? {
      ExecConcat(EmitField(s.head), EmitBody(s.tail), members, bs);
      FieldReadsField(s.head, members, bs);
      if ParseField(s.head, members, bs).Some? {
        var (v, rest) := ParseField(s.head, members, bs).value;
        BodyReadsStructure(s.tail, members + [v], rest);
      }
    }
  }

  lemma {:induction false} FieldReadsField(f: Field, members: Record, bs: seq<Byte>)
    ensures Exec(EmitField(f), members, bs) ==
            match ParseField(f, members, bs) { case None => None case Some((v, rest)) => Some(Parsed(members + [v], rest)) }
    decreases f, 0
  {
    match f
    case Data(n) => ExecOne(ReadRaw(n), members, bs);
    case Int(w) => ExecOne(ReadInteger(w), members, bs);
    case Vector(l) =>
      ExecTwo(ResizeVector(l), ReadVector, members, bs);
      assert Front(members + [Blob(Fill(0, LengthOf(l, members, |bs|)))]) == members;
    case Array(l, item) =>
      var n := LengthOf(l, members, |bs|);
      ExecTwo(ResizeArray(l), ForEachItem(EmitBody(item)), members, bs);
      assert Front(members + [Items(seq(n, _ => []))]) == members;
      ItemsReadItems(item, seq(n, _ => []), bs);
  }

  lemma ExecOne(st: Stmt, members: Record, bs: seq<Byte>)
    ensures Exec([st], members, bs) == ExecStmt(st, members, bs)
  {
  }

  lemma {:induction false} ItemsReadItems(item: Structure, objects: seq<Record>, bs: seq<Byte>)
    requires forall i :: 0 <= i < |objects| ==> objects[i] == []
    ensures ExecItems(EmitBody(item), objects, bs) == ParseItems(item, |objects|, bs)
    decreases item, |objects| + 1
  {
    hide Exec, Parse, EmitBody;
    if objects != [] {
      BodyReadsStructure(item, [], bs);
      if Parse(item, [], bs).Some? {
        ItemsReadItems(item, objects[1..], Parse(item, [], bs).value.rest);
      }
    }
  }

  /** The compiler preserves meaning: running the emitted readFromStream returns true with the
      structure's record exactly when the structure can be read, false otherwise, and no exception,
      not even one raised in a nested array item, ever escapes it. */
  lemma CompilerPreservesMeaning(s: Structure, bs: seq<Byte>)
    ensures Call(EmitMessage(s), bs) ==
            match Parse(s, [], bs) { case Some(p) => Returned(true, p.record, p.rest) case None => Returned(false, [], []) }
  {
    BodyReadsStructure(s, [], bs);
  }

  /* The generated code itself, statement by statement on a DataStream. */

  /** Runs statements; None when an exception leaves them. */
  method RunBody(body: seq<Stmt>, object_: Record, stream: DataStream) returns (r: Option<Record>)
    requires stream.Valid() && stream.mode == Read
    modifies stream`ptr
    ensures stream.Valid()
    ensures match Exec(body, object_, old(stream.Left()))
            case None => r == None
            case Some(p) => r == Some(p.record) && stream.Left() == p.rest
    decreases body, 0
  {
    var members := object_;
    var i := 0;
    while i < |body|
      invariant i <= |body| && stream.Valid()
      invariant Exec(body[i..], members, stream.Left()) == Exec(body, object_, old(stream.Left()))
    {
      ghost var left := stream.Left();
      var next := RunStmt(body[i], members, stream);
      assert body[i..][0] == body[i] && body[i..][1..] == body[i + 1..];
      if next.None? {
        return None;
      }
      members := next.value;
      i := i + 1;
    }
    r := Some(members);
  }

  method RunStmt(st: Stmt, members: Record, stream: DataStream) returns (r: Option<Record>)
    requires stream.Valid() && stream.mode == Read
    modifies stream`ptr
    ensures stream.Valid()
    ensures match ExecStmt(st, members, old(stream.Left()))
            case None => r == None
            case Some(p) => r == Some(p.record) && stream.Left() == p.rest
    decreases st, 0
  {
    match st
    case ReadRaw(n) =>
      var data := stream.ReadRawData(n);
      r := if data.Some? then Some(members + [Blob(data.value)]) else None;
    case ReadInteger(w) =>
      var data := stream.ReadRawData(w);
      r := if data.Some? then Some(members + [Number(FromLE(data.value))]) else None;
    case ResizeVector(l) =>
      r := Some(members + [Blob(Fill(0, LengthOf(l, members, stream.RemainingBytes())))]);
    case ReadVector =>
      if members == [] || !members[|members| - 1].Blob? {
        return None;
      }
      var data := stream.ReadRawData(|members[|members| - 1].bytes|);
      r := if data.Some? then Some(Front(members) + [Blob(data.value)]) else None;
    case ResizeArray(l) =>
      r := Some(members + [Items(seq(LengthOf(l, members, stream.RemainingBytes()), _ => []))]);
    case ForEachItem(item) =>
      if members == [] || !members[|members| - 1].Items? {
        return None;
      }
      var items := RunItems(item, members[|members| - 1].items, stream);
      r := if items.Some? then Some(Front(members) + [Items(items.value)]) else None;
  }

  /** The emitted loop over array items. */
  method RunItems(item: seq<Stmt>, objects: seq<Record>, stream: DataStream) returns (r: Option<seq<Record>>)
    requires stream.Valid() && stream.mode == Read
    modifies stream`ptr
    ensures stream.Valid()
    ensures match ExecItems(item, objects, old(stream.Left()))
            case None => r == None
            case Some((rs, rest)) => r == Some(rs) && stream.Left() == rest
    decreases item, |objects| + 1
  {
    hide Exec;
    var done: seq<Record> := [];
    var i := 0;
    ghost var all := ExecItems(item, objects, stream.Left());
    assert objects[0..] == objects;
    assert Prefixed([], all) == all by { if all.Some? { assert [] + all.value.0 == all.value.0; } }
    while i < |objects|
      invariant 0 <= i <= |objects| && stream.Valid()
      invariant Prefixed(done, ExecItems(item, objects[i..], stream.Left())) == all
    {
      ghost var left := stream.Left();
      assert objects[i..][0] == objects[i] && objects[i..][1..] == objects[i + 1..];
      var next := RunBody(item, objects[i], stream);
      if next.None? {
        return None;
      }
      ghost var others := ExecItems(item, objects[i + 1..], stream.Left());
      if others.Some? { assert done + ([next.value] + others.value.0) == done + [next.value] + others.value.0; }
      done := done + [next.value];
      i := i + 1;
    }
    assert done + [] == done;
    r := Some(done);
  }

  ghost function Prefixed(done: seq<Record>, r: Option<(seq<Record>, seq<Byte>)>): Option<(seq<Record>, seq<Byte>)> {
    if r.None? then None else Some((done + r.value.0, r.value.1))
  }

  /** A generated message class reading itself from a stream: it returns whether it could, and if so
      the members are those the schema denotes and the stream stands behind them. */
  method ReadFromStream(s: Structure, stream: DataStream) returns (ok: bool, record: Record)
    requires stream.Valid() && stream.mode == Read
    modifies stream`ptr
    ensures stream.Valid()
    ensures match Parse(s, [], old(stream.Left()))
            case None => !ok
            case Some(p) => ok && record == p.record && stream.Left() == p.rest
    ensures ok ==> Describes(s, record, 0, old(stream.Left()), stream.Left())
  {
    hide Describes;
    if Parse(s, [], stream.Left()).Some? { ReadAsDescribed(s, [], stream.Left()); }
    BodyReadsStructure(s, [], stream.Left());
    var r := RunBody(EmitMessage(s).body, [], stream);
    ok, record := r.Some?, if r.Some? then r.value else [];
  }

  /* Writing. */

  datatype WriteStmt =
    | WriteRaw(size: nat)                   // stream.writeRawData(m_x, size)
    | WriteInteger(width: nat)              // stream.write(m_x)
    | WriteVector                           // stream.writeRawData(&m_x[0], m_x.size())
    | WriteEachItem(body: seq<WriteStmt>)   // for(...) m_x[i].writeToStream(stream)

  function EmitWriteField(f: Field): WriteStmt
    decreases f, 0
  {
    match f
    case Data(n) => WriteRaw(n)
    case Int(w) => WriteInteger(w)
    case Vector(_) => WriteVector
    case Array(_, item) => WriteEachItem(EmitWrite(item))
  }

  /** One statement per field, in order. */
  function EmitWrite(s: Structure): seq<WriteStmt>
    decreases s, 0
  {
    match s
    case Nil => []
    case Cons(f, rest) => [EmitWriteField(f)] + EmitWrite(rest)
  }

  /** The members have the C++ types the header template declares for the fields. */
  ghost predicate Typed(s: Structure, r: Record)
    decreases s, 0
  {
    match s
    case Nil => r == []
    case Cons(f, rest) => r != [] && TypedField(f, r[0]) && Typed(rest, r[1..])
  }

  ghost predicate TypedField(f: Field, v: Value)
    decreases f, 0
  {
    match f
    case Data(n) => v.Blob? && |v.bytes| == n
    case Int(w) => v.Number? && v.n < Pow256(w)
    case Vector(_) => v.Blob?
    case Array(_, item) => v.Items? && forall i :: 0 <= i < |v.items| ==> Typed(item, v.items[i])
  }

  /** Writing never fails, and writes the encoding: no message ever fails to marshal. */
  method WriteToStream(s: Structure, r: Record, stream: DataStream) returns (ok: bool)
    requires stream.Valid() && stream.mode == Write && stream.AtEnd() && Typed(s, r)
    modifies stream
    ensures stream.Valid() && ok && stream.AtEnd() && stream.buffer == old(stream.buffer) + Encode(s, r)
  {
    ok := RunWrite(s, EmitWrite(s), r, stream);
  }

  method RunWrite(ghost s: Structure, body: seq<WriteStmt>, r: Record, stream: DataStream) returns (ok: bool)
    requires stream.Valid() && stream.mode == Write && stream.AtEnd() && Typed(s, r) && body == EmitWrite(s)
    modifies stream
    ensures stream.Valid() && ok && stream.AtEnd() && stream.buffer == old(stream.buffer) + Encode(s, r)
    decreases body, 0
  {
    hide EmitWriteField, TypedField, EncodeField;
    ghost var rest := s;
    var i := 0;
    while i < |body|
      invariant i <= |body| && i <= |r| && stream.Valid() && stream.AtEnd()
      invariant Typed(rest, r[i..]) && body[i..] == EmitWrite(rest)
      invariant stream.buffer + Encode(rest, r[i..]) == old(stream.buffer) + Encode(s, r)
    {
      ghost var before := stream.buffer;
      assert rest.Cons? && body[i..][0] == body[i] && body[i..][1..] == body[i + 1..];
      assert r[i..][0] == r[i] && r[i..][1..] == r[i + 1..];
      ok := RunWriteStmt(rest.head, body[i], r[i], stream);
      AppendAssoc(before, EncodeField(rest.head, r[i]), Encode(rest.tail, r[i + 1..]));
      rest := rest.tail;
      i := i + 1;
    }
    ok := true;
  }

  method RunWriteStmt(ghost f: Field, st: WriteStmt, v: Value, stream: DataStream) returns (ok: bool)
    requires stream.Valid() && stream.mode == Write && stream.AtEnd() && TypedField(f, v) && st == EmitWriteField(f)
    modifies stream
    ensures stream.Valid() && ok && stream.AtEnd() && stream.buffer == old(stream.buffer) + EncodeField(f, v)
    decreases st, 0
  {
    match st
    case WriteRaw(n) =>
      assert v.bytes[..n] == v.bytes;
      ok := stream.WriteRawData(v.bytes[..n]);
    case WriteInteger(w) => ok := stream.WriteRawData(ToLE(v.n, w));
    case WriteVector => ok := stream.WriteRawData(v.bytes);
    case WriteEachItem(item) => ok := WriteItems(f.item, item, v.items, stream);
  }

  method WriteItems(ghost item: Structure, body: seq<WriteStmt>, items: seq<Record>, stream: DataStream) returns (ok: bool)
    requires stream.Valid() && stream.mode == Write && stream.AtEnd() && body == EmitWrite(item)
    requires forall i :: 0 <= i < |items| ==> Typed(item, items[i])
    modifies stream
    ensures stream.Valid() && ok && stream.AtEnd() && stream.buffer == old(stream.buffer) + EncodeItems(item, items)
    decreases body, 1
  {
    var i := 0;
    assert items[0..] == items;
    while i < |items|
      invariant 0 <= i <= |items| && stream.Valid() && stream.AtEnd()
      invariant stream.buffer + EncodeItems(item, items[i..]) == old(stream.buffer) + EncodeItems(item, items)
    {
      ghost var before := stream.buffer;
      assert items[i..][0] == items[i] && items[i..][1..] == items[i + 1..];
      ok := RunWrite(item, body, items[i], stream);
      assert before + (Encode(item, items[i]) + EncodeItems(item, items[i + 1..])) == stream.buffer + EncodeItems(item, items[i + 1..]);
      i := i + 1;
    }
    ok := true;
  }
}
