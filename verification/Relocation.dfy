/** The ELF relocator of the database extractor: REL, RELA and JMPREL tables applied to an image in
    memory, and the proof that loading at another base shifts exactly the right words. */
module Relocation {
  import opened Bytes

  type Word = n: nat | n < 0x1_0000_0000

  const MOD: nat := 0x1_0000_0000

  const R_ARM_ABS32: nat := 2
  const R_ARM_GLOB_DAT: nat := 21
  const R_ARM_JUMP_SLOT: nat := 22
  const R_ARM_RELATIVE: nat := 23
  const DT_RELA: nat := 7
  const DT_REL: nat := 17

  /* Words in memory. */

  predicate Inside(mem: seq<Byte>, at: nat, n: nat) {
    at + n <= |mem|
  }

  /** The little-endian word at `at`; accesses outside the image are not part of this model. */
  function ReadWord(mem: seq<Byte>, at: nat): Word {
    if Inside(mem, at, 4) then Widths(); FromLE(mem[at..at + 4]) else 0
  }

  function WriteWord(mem: seq<Byte>, at: nat, w: Word): (r: seq<Byte>)
    ensures |r| == |mem|
  {
    if Inside(mem, at, 4) then mem[..at] + ToLE(w, 4) + mem[at + 4..] else mem
  }

  /** Position p is one of the four bytes of the word at `at`. */
  predicate Covers(at: nat, p: nat) {
    at <= p < at + 4
  }

  lemma WriteWordBytes(mem: seq<Byte>, at: nat, w: Word)
    ensures forall p :: 0 <= p < |mem| && !Covers(at, p) ==> WriteWord(mem, at, w)[p] == mem[p]
  {
  }

  lemma ReadWritten(mem: seq<Byte>, at: nat, w: Word)
    requires Inside(mem, at, 4)
    ensures ReadWord(WriteWord(mem, at, w), at) == w
  {
    assert WriteWord(mem, at, w)[at..at + 4] == ToLE(w, 4);
    Widths();
    FromToLE(w, 4);
  }

  /** Two memories that agree on a word's bytes agree on the word. */
  lemma SameBytesSameWord(m1: seq<Byte>, m2: seq<Byte>, at: nat)
    requires |m1| == |m2| && forall p: nat :: Covers(at, p) && p < |m1| ==> m1[p] == m2[p]
    ensures ReadWord(m1, at) == ReadWord(m2, at)
  {
    if Inside(m1, at, 4) {
      forall p | at <= p < at + 4 ensures m1[p] == m2[p] { assert Covers(at, p); }
      assert m1[at..at + 4] == m2[at..at + 4];
    }
  }

  /* Relocation entries. */

  /** A decoded Elf32_Rel or Elf32_Rela. */
  datatype Entry = Entry(offset: Word, kind: nat, sym: nat, addend: Option<Word>)

  function Width(rela: bool): nat {
    if rela then 12 else 8
  }

  function EntryAt(mem: seq<Byte>, at: nat, rela: bool): Entry {
    var info := ReadWord(mem, at + 4);
    Entry(ReadWord(mem, at), info % 256, info / 256, if rela then Some(ReadWord(mem, at + 8)) else None)
  }

  function SymbolValue(mem: seq<Byte>, symtab: nat, sym: nat): Word {
    ReadWord(mem, symtab + 16 * sym + 4)
  }

  /** The upper half of an Elf32_Sym's last word. */
  function SectionIndex(mem: seq<Byte>, symtab: nat, sym: nat): nat {
    ReadWord(mem, symtab + 16 * sym + 12) / 0x1_0000
  }

  /** 32-bit addition. */
  function Shifted(w: Word, amount: nat): Word {
    (w + amount) % MOD
  }

  /** The word do_relocation stores at its target, or None where it returns -1. */
  function NewWord(base: Word, symtab: nat, mem: seq<Byte>, e: Entry): Option<Word> {
    var old_ := ReadWord(mem, e.offset);
    if e.kind == R_ARM_GLOB_DAT || e.kind == R_ARM_JUMP_SLOT then
      if e.sym == 0 || SectionIndex(mem, symtab, e.sym) != 0 then None
      else Some(if e.addend.Some? then e.addend.value else 0)
    else if e.kind == R_ARM_RELATIVE then
      if e.sym != 0 then None
      else Some(Shifted(base, if e.addend.Some? then e.addend.value else old_))
    else if e.kind == R_ARM_ABS32 then
      var addend := if e.addend.Some? then e.addend.value else old_;
      if e.sym == 0 then None
      else if SectionIndex(mem, symtab, e.sym) == 0 then Some(addend)
      else Some(Shifted(base, SymbolValue(mem, symtab, e.sym) + addend))
    else None
  }

  datatype Relocated = Relocated(ok: bool, mem: seq<Byte>)

  /** A table as the loops walk it: the entry is read from memory when its turn comes. */
  function DoTable(base: Word, symtab: nat, mem: seq<Byte>, at: nat, n: nat, rela: bool): Relocated
    decreases n
  {
    if n == 0 then Relocated(true, mem)
    else
      var e := EntryAt(mem, at, rela);
      match NewWord(base, symtab, mem, e)
      case None => Relocated(false, mem)
      case Some(w) => DoTable(base, symtab, WriteWord(mem, e.offset, w), at + Width(rela), n - 1, rela)
  }

  /** DT_ tags: a table's place in the image, its size in bytes and the entry size it claims. */
  datatype Table = Table(at: nat, size: nat, ent: nat)

  datatype Dynamic = Dynamic(symtab: nat, symbols: nat, rel: Option<Table>, rela: Option<Table>, jmprel: Option<Table>, pltrel: nat)

  function Count(t: Table, rela: bool): nat {
    (t.size + Width(rela) - 1) / Width(rela)
  }

  function DoRel(base: Word, symtab: nat, mem: seq<Byte>, t: Table, ent: nat, rela: bool): Relocated {
    if ent != Width(rela) then Relocated(false, mem) else DoTable(base, symtab, mem, t.at, Count(t, rela), rela)
  }

  function Relocate(base: Word, d: Dynamic, mem: seq<Byte>): Relocated {
    var r1 := if d.rel.None? then Relocated(true, mem) else DoRel(base, d.symtab, mem, d.rel.value, d.rel.value.ent, false);
    if !r1.ok then r1 else
    var r2 := if d.rela.None? then r1 else DoRel(base, d.symtab, r1.mem, d.rela.value, d.rela.value.ent, true);
    if !r2.ok then r2 else
    if d.jmprel.None? then r2
    else if d.pltrel == DT_REL then DoRel(base, d.symtab, r2.mem, d.jmprel.value, 8, false)
    else if d.pltrel == DT_RELA then DoRel(base, d.symtab, r2.mem, d.jmprel.value, 12, true)
    else Relocated(false, r2.mem)
  }

  /* The same relocations as a fixed list. */

  /** None stands for a check that fails between entries. */
  type Program = seq<Option<Entry>>

  function TableProgram(mem: seq<Byte>, at: nat, n: nat, rela: bool): Program
    decreases n
  {
    if n == 0 then [] else [Some(EntryAt(mem, at, rela))] + TableProgram(mem, at + Width(rela), n - 1, rela)
  }

  function RelProgram(mem: seq<Byte>, t: Table, ent: nat, rela: bool): Program {
    if ent != Width(rela) then [None] else TableProgram(mem, t.at, Count(t, rela), rela)
  }

  function JmpProgram(mem: seq<Byte>, d: Dynamic): Program {
    if d.jmprel.None? then []
    else if d.pltrel == DT_REL then RelProgram(mem, d.jmprel.value, 8, false)
    else if d.pltrel == DT_RELA then RelProgram(mem, d.jmprel.value, 12, true)
    else [None]
  }

  /** All entries of the untouched image, in the order they are applied. */
  function WholeProgram(mem: seq<Byte>, d: Dynamic): Program {
    (if d.rel.None? then [] else RelProgram(mem, d.rel.value, d.rel.value.ent, false)) +
    (if d.rela.None? then [] else RelProgram(mem, d.rela.value, d.rela.value.ent, true)) +
    JmpProgram(mem, d)
  }

  function Exec(base: Word, symtab: nat, mem: seq<Byte>, prog: Program): Relocated
    decreases |prog|
  {
    if prog == [] then Relocated(true, mem)
    else if prog[0].None? then Relocated(false, mem)
    else match NewWord(base, symtab, mem, prog[0].value)
      case None => Relocated(false, mem)
      case Some(w) => Exec(base, symtab, WriteWord(mem, prog[0].value.offset, w), prog[1..])
  }

  /** Position p belongs to the symbol table or to a relocation table. */
  predicate InTables(d: Dynamic, p: nat) {
    || d.symtab <= p < d.symtab + 16 * d.symbols
    || (d.rel.Some? && InTable(d.rel.value, false, p))
    || (d.rela.Some? && InTable(d.rela.value, true, p))
    || (d.jmprel.Some? && InTable(d.jmprel.value, d.pltrel == DT_RELA, p))
  }

  predicate InTable(t: Table, rela: bool, p: nat) {
    t.at <= p < t.at + Width(rela) * Count(t, rela)
  }

  /** Every target lies inside the image and outside the tables, and names a symbol of the table. */
  ghost predicate TargetsApart(mem: seq<Byte>, d: Dynamic, prog: Program) {
    forall i :: 0 <= i < |prog| && prog[i].Some? ==>
      && Inside(mem, prog[i].value.offset, 4) && prog[i].value.sym < d.symbols
      && forall p :: Covers(prog[i].value.offset, p) ==> !InTables(d, p)
  }

  /** No two targets overlap. */
  ghost predicate TargetsDisjoint(prog: Program) {
    forall i, j, p :: 0 <= i < j < |prog| && prog[i].Some? && prog[j].Some? && Covers(prog[i].value.offset, p) ==>
      !Covers(prog[j].value.offset, p)
  }

  /** Memory as the relocation of `was` in progress: the tables are still what they were. */
  ghost predicate TablesKept(d: Dynamic, was: seq<Byte>, mem: seq<Byte>) {
    |mem| == |was| && forall p :: 0 <= p < |was| && InTables(d, p) ==> mem[p] == was[p]
  }

  lemma {:induction false} ExecConcat(base: Word, symtab: nat, mem: seq<Byte>, a: Program, b: Program)
    ensures var r := Exec(base, symtab, mem, a);
            Exec(base, symtab, mem, a + b) == if r.ok then Exec(base, symtab, r.mem, b) else r
    decreases |a|
  {
    hide NewWord;
    if a == [] {
      assert a + b == b;
    } else {
      assert (a + b)[0] == a[0] && (a + b)[1..] == a[1..] + b;
      if a[0].Some? && NewWord(base, symtab, mem, a[0].value).Some? {
        ExecConcat(base, symtab, WriteWord(mem, a[0].value.offset, NewWord(base, symtab, mem, a[0].value).value), a[1..], b);
      }
    }
  }

  lemma {:induction false} ExecKeepsTables(base: Word, d: Dynamic, was: seq<Byte>, mem: seq<Byte>, prog: Program)
    requires TablesKept(d, was, mem) && TargetsApart(was, d, prog)
    ensures TablesKept(d, was, Exec(base, d.symtab, mem, prog).mem)
    decreases |prog|
  {
    hide NewWord;
    if prog != [] && prog[0].Some? && NewWord(base, d.symtab, mem, prog[0].value).Some? {
      var w := NewWord(base, d.symtab, mem, prog[0].value).value;
      WriteWordBytes(mem, prog[0].value.offset, w);
      ApartTail(was, d, prog);
      ExecKeepsTables(base, d, was, WriteWord(mem, prog[0].value.offset, w), prog[1..]);
    }
  }

  lemma ApartTail(mem: seq<Byte>, d: Dynamic, prog: Program)
    requires TargetsApart(mem, d, prog) && prog != []
    ensures TargetsApart(mem, d, prog[1..])
  {
  }

  /** Reading entries as they come is running the fixed list, while the table stays what it was. */
  lemma {:induction false} TableIsProgram(base: Word, d: Dynamic, was: seq<Byte>, mem: seq<Byte>, at: nat, n: nat, rela: bool)
    requires TablesKept(d, was, mem) && TargetsApart(was, d, TableProgram(was, at, n, rela))
    requires forall p :: at <= p < at + Width(rela) * n ==> InTables(d, p)
    ensures DoTable(base, d.symtab, mem, at, n, rela) == Exec(base, d.symtab, mem, TableProgram(was, at, n, rela))
    decreases n
  {
    hide NewWord, InTables;
    if n > 0 {
      var prog := TableProgram(was, at, n, rela);
      var e := EntryAt(was, at, rela);
      assert prog[0] == Some(e) && prog[1..] == TableProgram(was, at + Width(rela), n - 1, rela);
      assert Width(rela) <= Width(rela) * n;
      SameBytesSameWord(was, mem, at);
      SameBytesSameWord(was, mem, at + 4);
      if rela { SameBytesSameWord(was, mem, at + 8); }
      assert EntryAt(mem, at, rela) == e;
      if NewWord(base, d.symtab, mem, e).Some? {
        var w := NewWord(base, d.symtab, mem, e).value;
        WriteWordBytes(mem, e.offset, w);
        ApartTail(was, d, prog);
        assert TablesKept(d, was, WriteWord(mem, e.offset, w));
        assert Width(rela) * n == Width(rela) + Width(rela) * (n - 1);
        TableIsProgram(base, d, was, WriteWord(mem, e.offset, w), at + Width(rela), n - 1, rela);
      }
    }
  }

  lemma RelIsProgram(base: Word, d: Dynamic, was: seq<Byte>, mem: seq<Byte>, t: Table, ent: nat, rela: bool)
    requires TablesKept(d, was, mem) && TargetsApart(was, d, RelProgram(was, t, ent, rela))
    requires forall p :: InTable(t, rela, p) ==> InTables(d, p)
    ensures DoRel(base, d.symtab, mem, t, ent, rela) == Exec(base, d.symtab, mem, RelProgram(was, t, ent, rela))
  {
    hide InTables;
    if ent == Width(rela) {
      forall p | t.at <= p < t.at + Width(rela) * Count(t, rela) ensures InTables(d, p) { assert InTable(t, rela, p); }
      TableIsProgram(base, d, was, mem, t.at, Count(t, rela), rela);
    }
  }

  /** Relocating an image whose targets lie outside its tables runs the list read from the untouched image. */
  lemma RelocateIsProgram(base: Word, d: Dynamic, mem: seq<Byte>)
    requires TargetsApart(mem, d, WholeProgram(mem, d))
    ensures Relocate(base, d, mem) == Exec(base, d.symtab, mem, WholeProgram(mem, d))
  {
    var a := if d.rel.None? then [] else RelProgram(mem, d.rel.value, d.rel.value.ent, false);
    var b := if d.rela.None? then [] else RelProgram(mem, d.rela.value, d.rela.value.ent, true);
    var c := JmpProgram(mem, d);
    hide Exec, RelProgram, TargetsApart, TablesKept, InTable, DoRel;
    ApartParts(mem, d, a, b, c);
    ExecConcat(base, d.symtab, mem, a, b + c);
    assert a + (b + c) == WholeProgram(mem, d);
    var r1 := Exec(base, d.symtab, mem, a);
    if d.rel.Some? { RelIsProgram(base, d, mem, mem, d.rel.value, d.rel.value.ent, false); }
    ExecKeepsTables(base, d, mem, mem, a);
    if r1.ok {
      ExecConcat(base, d.symtab, r1.mem, b, c);
      if d.rela.Some? { RelIsProgram(base, d, mem, r1.mem, d.rela.value, d.rela.value.ent, true); }
      ExecKeepsTables(base, d, mem, r1.mem, b);
      var r2 := Exec(base, d.symtab, r1.mem, b);
      if r2.ok && d.jmprel.Some? {
        if d.pltrel == DT_REL { RelIsProgram(base, d, mem, r2.mem, d.jmprel.value, 8, false); }
        if d.pltrel == DT_RELA { RelIsProgram(base, d, mem, r2.mem, d.jmprel.value, 12, true); }
      }
    }
  }

  lemma ApartParts(mem: seq<Byte>, d: Dynamic, a: Program, b: Program, c: Program)
    requires TargetsApart(mem, d, a + b + c)
    ensures TargetsApart(mem, d, a) && TargetsApart(mem, d, b) && TargetsApart(mem, d, c)
  {
    var w := a + b + c;
    assert forall i :: 0 <= i < |a| ==> a[i] == w[i];
    assert forall i :: 0 <= i < |b| ==> b[i] == w[|a| + i];
    assert forall i :: 0 <= i < |c| ==> c[i] == w[|a| + |b| + i];
  }

  /* Base equivariance. */

  /** The words that follow the base: RELATIVE targets and ABS32 targets of defined symbols. */
  predicate Shifts(symtab: nat, mem: seq<Byte>, e: Entry) {
    e.kind == R_ARM_RELATIVE || (e.kind == R_ARM_ABS32 && SectionIndex(mem, symtab, e.sym) != 0)
  }

  /** After the first n entries: outside their targets both memories are still the original, and each
      target differs by delta exactly if its entry shifts. */
  ghost predicate Related(d: Dynamic, was: seq<Byte>, prog: Program, n: nat, delta: nat, m1: seq<Byte>, m2: seq<Byte>)
    requires n <= |prog|
  {
    && |m1| == |m2| == |was|
    && (forall p :: 0 <= p < |was| && !Touched(prog, n, p) ==> m1[p] == m2[p] == was[p])
    && (forall i :: 0 <= i < n && prog[i].Some? ==>
          ReadWord(m2, prog[i].value.offset) ==
          Shifted(ReadWord(m1, prog[i].value.offset), if Shifts(d.symtab, was, prog[i].value) then delta else 0))
  }

  ghost predicate Touched(prog: Program, n: nat, p: nat)
    requires n <= |prog|
  {
    exists i :: 0 <= i < n && prog[i].Some? && Covers(prog[i].value.offset, p)
  }

  lemma WordUntouched(d: Dynamic, was: seq<Byte>, prog: Program, n: nat, delta: nat, m1: seq<Byte>, m2: seq<Byte>, at: nat)
    requires n <= |prog| && Related(d, was, prog, n, delta, m1, m2)
    requires forall p :: Covers(at, p) ==> !Touched(prog, n, p)
    ensures ReadWord(m1, at) == ReadWord(m2, at) == ReadWord(was, at)
  {
    SameBytesSameWord(was, m1, at);
    SameBytesSameWord(was, m2, at);
  }

  lemma TablesUntouched(mem: seq<Byte>, d: Dynamic, prog: Program, n: nat, at: nat)
    requires n <= |prog| && TargetsApart(mem, d, prog)
    requires forall p :: Covers(at, p) ==> InTables(d, p)
    ensures forall p :: Covers(at, p) ==> !Touched(prog, n, p)
  {
  }

  /** One entry at two bases: it fails alike, and its words differ by delta exactly if it shifts. */
  lemma NewWordsRelated(base: Word, delta: nat, symtab: nat, was: seq<Byte>, m1: seq<Byte>, m2: seq<Byte>, e: Entry)
    requires ReadWord(m1, e.offset) == ReadWord(m2, e.offset)
    requires SectionIndex(m1, symtab, e.sym) == SectionIndex(m2, symtab, e.sym) == SectionIndex(was, symtab, e.sym)
    requires SymbolValue(m1, symtab, e.sym) == SymbolValue(m2, symtab, e.sym)
    ensures var w1, w2 := NewWord(base, symtab, m1, e), NewWord(Shifted(base, delta), symtab, m2, e);
            w1.None? == w2.None? && (w1.Some? ==> w2.value == Shifted(w1.value, if Shifts(symtab, was, e) then delta else 0))
  {
    hide ReadWord, SectionIndex, SymbolValue, Shifted;
    var addend := if e.addend.Some? then e.addend.value else ReadWord(m1, e.offset);
    ShiftedTwice(base, delta, addend);
    ShiftedTwice(base, delta, SymbolValue(m1, symtab, e.sym) + addend);
    assert forall w: Word :: Shifted(w, 0) == w by { ShiftedByNothing(); }
  }

  lemma ShiftedTwice(w: Word, a: nat, b: nat)
    ensures Shifted(Shifted(w, a), b) == Shifted(Shifted(w, b), a)
  {
  }

  lemma ShiftedByNothing()
    ensures forall w: Word :: Shifted(w, 0) == w
  {
  }

  lemma SymbolUntouched(d: Dynamic, was: seq<Byte>, prog: Program, n: nat, delta: nat, m1: seq<Byte>, m2: seq<Byte>, sym: nat)
    requires n <= |prog| && Related(d, was, prog, n, delta, m1, m2) && TargetsApart(was, d, prog) && sym < d.symbols
    ensures SymbolValue(m1, d.symtab, sym) == SymbolValue(m2, d.symtab, sym)
    ensures SectionIndex(m1, d.symtab, sym) == SectionIndex(m2, d.symtab, sym) == SectionIndex(was, d.symtab, sym)
  {
    var at := d.symtab + 16 * sym;
    assert 16 * sym + 16 <= 16 * d.symbols;
    hide Related, TargetsApart, ReadWord;
    TablesUntouched(was, d, prog, n, at + 4);
    TablesUntouched(was, d, prog, n, at + 12);
    WordUntouched(d, was, prog, n, delta, m1, m2, at + 4);
    WordUntouched(d, was, prog, n, delta, m1, m2, at + 12);
  }

  /** Writing the next target keeps the relation. */
  lemma WriteRelated(d: Dynamic, was: seq<Byte>, prog: Program, n: nat, delta: nat, m1: seq<Byte>, m2: seq<Byte>, w1: Word, w2: Word)
    requires n < |prog| && prog[n].Some? && Inside(was, prog[n].value.offset, 4) && TargetsDisjoint(prog)
    requires Related(d, was, prog, n, delta, m1, m2)
    requires w2 == Shifted(w1, if Shifts(d.symtab, was, prog[n].value) then delta else 0)
    ensures Related(d, was, prog, n + 1, delta, WriteWord(m1, prog[n].value.offset, w1), WriteWord(m2, prog[n].value.offset, w2))
  {
    var at := prog[n].value.offset;
    var x1, x2 := WriteWord(m1, at, w1), WriteWord(m2, at, w2);
    WriteWordBytes(m1, at, w1);
    WriteWordBytes(m2, at, w2);
    hide WriteWord, Shifts;
    forall p | 0 <= p < |was| && !Touched(prog, n + 1, p) ensures x1[p] == x2[p] == was[p] {
      assert !Covers(at, p);
      assert !Touched(prog, n, p);
    }
    forall i | 0 <= i < n + 1 && prog[i].Some?
      ensures ReadWord(x2, prog[i].value.offset) ==
              Shifted(ReadWord(x1, prog[i].value.offset), if Shifts(d.symtab, was, prog[i].value) then delta else 0)
    {
      if i < n {
        SameBytesSameWord(m1, x1, prog[i].value.offset);
        SameBytesSameWord(m2, x2, prog[i].value.offset);
      } else {
        ReadWritten(m1, at, w1);
        ReadWritten(m2, at, w2);
      }
    }
  }

  /** Running the rest of the list at two bases. done says how many entries were applied. */
  lemma {:induction false} ExecRelated(base: Word, delta: nat, d: Dynamic, was: seq<Byte>, prog: Program, n: nat, m1: seq<Byte>, m2: seq<Byte>)
    returns (done: nat)
    requires n <= |prog| && TargetsApart(was, d, prog) && TargetsDisjoint(prog) && Related(d, was, prog, n, delta, m1, m2)
    ensures n <= done <= |prog|
    ensures var r1, r2 := Exec(base, d.symtab, m1, prog[n..]), Exec(Shifted(base, delta), d.symtab, m2, prog[n..]);
            r1.ok == r2.ok && (r1.ok ==> done == |prog|) && Related(d, was, prog, done, delta, r1.mem, r2.mem)
    decreases |prog| - n
  {
    done := n;
    if n < |prog| && prog[n].Some? {
      var e := prog[n].value;
      assert prog[n..][0] == prog[n] && prog[n..][1..] == prog[n + 1..];
      TargetUntouched(prog, n);
      WordUntouched(d, was, prog, n, delta, m1, m2, e.offset);
      SymbolUntouched(d, was, prog, n, delta, m1, m2, e.sym);
      NewWordsRelated(base, delta, d.symtab, was, m1, m2, e);
      var w1, w2 := NewWord(base, d.symtab, m1, e), NewWord(Shifted(base, delta), d.symtab, m2, e);
      if w1.Some? {
        WriteRelated(d, was, prog, n, delta, m1, m2, w1.value, w2.value);
        hide Related, NewWord, TargetsApart, TargetsDisjoint, WriteWord;
        done := ExecRelated(base, delta, d, was, prog, n + 1, WriteWord(m1, e.offset, w1.value), WriteWord(m2, e.offset, w2.value));
      }
    }
  }

  lemma TargetUntouched(prog: Program, n: nat)
    requires n < |prog| && prog[n].Some? && TargetsDisjoint(prog)
    ensures forall p :: Covers(prog[n].value.offset, p) ==> !Touched(prog, n, p)
  {
  }

  /** Relocation is base-equivariant: for disjoint targets outside the tables, loading the same image at
      base and at base + delta fails alike or succeeds alike; bytes outside targets are untouched by both,
      and on success each target differs by delta modulo 2^32 exactly if it is RELATIVE or a defined ABS32. */
  lemma RelocationIsEquivariant(base: Word, delta: nat, d: Dynamic, mem: seq<Byte>)
    requires TargetsApart(mem, d, WholeProgram(mem, d)) && TargetsDisjoint(WholeProgram(mem, d))
    ensures var r1, r2 := Relocate(base, d, mem), Relocate(Shifted(base, delta), d, mem);
            var prog := WholeProgram(mem, d);
            && r1.ok == r2.ok && |r1.mem| == |r2.mem| == |mem|
            && (forall p :: 0 <= p < |mem| && !Touched(prog, |prog|, p) ==> r1.mem[p] == r2.mem[p] == mem[p])
            && (r1.ok ==> forall i :: 0 <= i < |prog| && prog[i].Some? ==>
                  ReadWord(r2.mem, prog[i].value.offset) ==
                  Shifted(ReadWord(r1.mem, prog[i].value.offset), if Shifts(d.symtab, mem, prog[i].value) then delta else 0))
  {
    var prog := WholeProgram(mem, d);
    RelocateIsProgram(base, d, mem);
    RelocateIsProgram(Shifted(base, delta), d, mem);
    assert prog[0..] == prog;
    var done := ExecRelated(base, delta, d, mem, prog, 0, mem, mem);
    hide WholeProgram, Relocate, Exec;
    assert forall p :: !Touched(prog, |prog|, p) ==> !Touched(prog, done, p);
  }

  /* What ends up in memory. */

  /** The little-endian word at `at`, byte by byte. */
  function WordAt(mem: seq<Byte>, at: nat): (w: int)
    ensures w >= 0
  {
    if at + 4 <= |mem| then
      mem[at] as int + 256 * (mem[at + 1] as int) + 65536 * (mem[at + 2] as int) + 16777216 * (mem[at + 3] as int)
    else 0
  }

  lemma ReadsWordAt(mem: seq<Byte>, at: nat)
    ensures ReadWord(mem, at) == WordAt(mem, at)
  {
    if Inside(mem, at, 4) {
      FromLEIsInteger(mem[at..at + 4]);
      hide FromLE;
    }
  }

  /** The relocation entry at `at` is one the loader applies: GLOB_DAT (21) or JUMP_SLOT (22) of an
      undefined symbol, RELATIVE (23) of none, ABS32 (2) of any symbol. */
  predicate Applicable(mem: seq<Byte>, symtab: nat, at: nat) {
    var kind, sym := WordAt(mem, at + 4) % 256, WordAt(mem, at + 4) / 256;
    var section := WordAt(mem, symtab + 16 * sym + 12) / 65536;
    (kind in {21, 22} && sym != 0 && section == 0) || (kind == 23 && sym == 0) || (kind == 2 && sym != 0)
  }

  /** The word its target gets, where `own` is the addend it carries, or else the target's own word:
      base + own for RELATIVE, base + symbol + own for ABS32 of a defined symbol, own for ABS32 of an
      undefined one, and the addend, or 0, for the other two. */
  function Resolved(base: Word, mem: seq<Byte>, symtab: nat, at: nat, rela: bool): int {
    var kind, sym := WordAt(mem, at + 4) % 256, WordAt(mem, at + 4) / 256;
    var section, value := WordAt(mem, symtab + 16 * sym + 12) / 65536, WordAt(mem, symtab + 16 * sym + 4);
    var own := if rela then WordAt(mem, at + 8) else WordAt(mem, WordAt(mem, at));
    if kind == 23 then (base + own) % 0x1_0000_0000
    else if kind == 2 then if section != 0 then (base + value + own) % 0x1_0000_0000 else own
    else if rela then WordAt(mem, at + 8) else 0
  }

  /** One entry, on any memory, in these terms. */
  lemma NewWordResolves(base: Word, symtab: nat, mem: seq<Byte>, at: nat, rela: bool)
    ensures var w := NewWord(base, symtab, mem, EntryAt(mem, at, rela));
            && (w.Some? <==> Applicable(mem, symtab, at))
            && (w.Some? ==> w.value == Resolved(base, mem, symtab, at, rela))
  {
    hide ReadWord, WordAt, SectionIndex, SymbolValue;
    var e := EntryAt(mem, at, rela);
    EntryInBytes(mem, at, rela);
    ReadsWordAt(mem, e.offset);
    SymbolInBytes(mem, symtab, e.sym);
    hide EntryAt;
  }

  lemma EntryInBytes(mem: seq<Byte>, at: nat, rela: bool)
    ensures var e := EntryAt(mem, at, rela);
            && e.offset == WordAt(mem, at) && e.kind == WordAt(mem, at + 4) % 256 && e.sym == WordAt(mem, at + 4) / 256
            && e.addend.Some? == rela && (rela ==> e.addend.value == WordAt(mem, at + 8))
  {
    ReadsWordAt(mem, at);
    ReadsWordAt(mem, at + 4);
    ReadsWordAt(mem, at + 8);
    hide ReadWord, WordAt;
  }

  lemma SymbolInBytes(mem: seq<Byte>, symtab: nat, sym: nat)
    ensures SymbolValue(mem, symtab, sym) == WordAt(mem, symtab + 16 * sym + 4)
    ensures SectionIndex(mem, symtab, sym) == WordAt(mem, symtab + 16 * sym + 12) / 65536
  {
    ReadsWordAt(mem, symtab + 16 * sym + 4);
    ReadsWordAt(mem, symtab + 16 * sym + 12);
    hide ReadWord, WordAt;
  }

  function EntryPlace(t: Table, rela: bool, j: nat): nat {
    t.at + if rela then 12 * j else 8 * j
  }

  /** Entry j of a table: as many as begin within its size. */
  predicate IsEntry(t: Table, rela: bool, j: nat) {
    (if rela then 12 * j else 8 * j) < t.size
  }

  ghost predicate TableAccepted(mem: seq<Byte>, symtab: nat, t: Table, ent: nat, rela: bool) {
    ent == (if rela then 12 else 8) && forall j: nat :: IsEntry(t, rela, j) ==> Applicable(mem, symtab, EntryPlace(t, rela, j))
  }

  /** Every check of relocate, over the untouched image. */
  ghost predicate Accepted(mem: seq<Byte>, d: Dynamic) {
    && (d.rel.Some? ==> TableAccepted(mem, d.symtab, d.rel.value, d.rel.value.ent, false))
    && (d.rela.Some? ==> TableAccepted(mem, d.symtab, d.rela.value, d.rela.value.ent, true))
    && (d.jmprel.Some? ==> d.pltrel in {17, 7} && TableAccepted(mem, d.symtab, d.jmprel.value, if d.pltrel == 7 then 12 else 8, d.pltrel == 7))
  }

  /** Every target of the table holds its resolved word. */
  ghost predicate TableApplied(base: Word, was: seq<Byte>, mem: seq<Byte>, symtab: nat, t: Table, rela: bool) {
    forall j: nat :: IsEntry(t, rela, j) ==>
      WordAt(mem, WordAt(was, EntryPlace(t, rela, j))) == Resolved(base, was, symtab, EntryPlace(t, rela, j), rela)
  }

  /** The entry is applied as the untouched image has it. */
  predicate Passes(base: Word, symtab: nat, was: seq<Byte>, e: Option<Entry>) {
    e.Some? && NewWord(base, symtab, was, e.value).Some?
  }

  ghost predicate AllPass(base: Word, symtab: nat, was: seq<Byte>, prog: Program) {
    forall i :: 0 <= i < |prog| ==> Passes(base, symtab, was, prog[i])
  }

  /** After the first n entries: other bytes are the original's, and each target holds its new word. */
  ghost predicate Applied(base: Word, d: Dynamic, was: seq<Byte>, prog: Program, n: nat, mem: seq<Byte>)
    requires n <= |prog|
  {
    && |mem| == |was|
    && (forall p :: 0 <= p < |was| && !Touched(prog, n, p) ==> mem[p] == was[p])
    && (forall i :: 0 <= i < n ==> Passes(base, d.symtab, was, prog[i])
                                   && ReadWord(mem, prog[i].value.offset) == NewWord(base, d.symtab, was, prog[i].value).value)
  }

  /** Before it is reached an entry's target, symbol and section are still the original's. */
  lemma SameNewWord(base: Word, d: Dynamic, was: seq<Byte>, prog: Program, n: nat, mem: seq<Byte>)
    requires n < |prog| && prog[n].Some? && TargetsApart(was, d, prog) && TargetsDisjoint(prog)
    requires Applied(base, d, was, prog, n, mem)
    ensures NewWord(base, d.symtab, mem, prog[n].value) == NewWord(base, d.symtab, was, prog[n].value)
  {
    var e := prog[n].value;
    TargetUntouched(prog, n);
    SameBytesSameWord(was, mem, e.offset);
    assert e.sym < d.symbols;
    assert 16 * e.sym + 16 <= 16 * d.symbols;
    TablesUntouched(was, d, prog, n, d.symtab + 16 * e.sym + 4);
    TablesUntouched(was, d, prog, n, d.symtab + 16 * e.sym + 12);
    SameBytesSameWord(was, mem, d.symtab + 16 * e.sym + 4);
    SameBytesSameWord(was, mem, d.symtab + 16 * e.sym + 12);
    hide ReadWord, TargetsApart, TargetsDisjoint, Applied;
  }

  lemma ApplyNext(base: Word, d: Dynamic, was: seq<Byte>, prog: Program, n: nat, mem: seq<Byte>, w: Word)
    requires n < |prog| && prog[n].Some? && Inside(was, prog[n].value.offset, 4) && TargetsDisjoint(prog)
    requires Applied(base, d, was, prog, n, mem) && NewWord(base, d.symtab, was, prog[n].value) == Some(w)
    ensures Applied(base, d, was, prog, n + 1, WriteWord(mem, prog[n].value.offset, w))
  {
    var at := prog[n].value.offset;
    var x := WriteWord(mem, at, w);
    WriteWordBytes(mem, at, w);
    hide WriteWord, NewWord;
    forall p | 0 <= p < |was| && !Touched(prog, n + 1, p) ensures x[p] == was[p] {
      assert !Covers(at, p);
      assert !Touched(prog, n, p);
    }
    forall i | 0 <= i < n + 1
      ensures Passes(base, d.symtab, was, prog[i])
              && ReadWord(x, prog[i].value.offset) == NewWord(base, d.symtab, was, prog[i].value).value
    {
      if i < n {
        SameBytesSameWord(mem, x, prog[i].value.offset);
      } else {
        ReadWritten(mem, at, w);
      }
    }
  }

  /** Running the rest of the list. done says how many entries were applied. */
  lemma {:induction false} ExecApplies(base: Word, d: Dynamic, was: seq<Byte>, prog: Program, n: nat, mem: seq<Byte>)
    returns (done: nat)
    requires n <= |prog| && TargetsApart(was, d, prog) && TargetsDisjoint(prog) && Applied(base, d, was, prog, n, mem)
    ensures var r := Exec(base, d.symtab, mem, prog[n..]);
            && (r.ok <==> forall i :: n <= i < |prog| ==> Passes(base, d.symtab, was, prog[i]))
            && n <= done <= |prog| && Applied(base, d, was, prog, done, r.mem)
            && (if r.ok then done == |prog| else done < |prog| && !Passes(base, d.symtab, was, prog[done]))
    decreases |prog| - n
  {
    hide NewWord, Applied;
    done := n;
    if n < |prog| {
      assert prog[n..][0] == prog[n] && prog[n..][1..] == prog[n + 1..];
      if prog[n].Some? {
        SameNewWord(base, d, was, prog, n, mem);
        var w := NewWord(base, d.symtab, was, prog[n].value);
        if w.Some? {
          ApplyNext(base, d, was, prog, n, mem, w.value);
          hide TargetsApart, TargetsDisjoint, WriteWord;
          done := ExecApplies(base, d, was, prog, n + 1, WriteWord(mem, prog[n].value.offset, w.value));
        }
      }
    }
  }

  lemma {:induction false} TableProgramAt(mem: seq<Byte>, at: nat, n: nat, rela: bool)
    ensures |TableProgram(mem, at, n, rela)| == n
    ensures forall j :: 0 <= j < n ==>
              TableProgram(mem, at, n, rela)[j] == Some(EntryAt(mem, at + if rela then 12 * j else 8 * j, rela))
    decreases n
  {
    if n > 0 { TableProgramAt(mem, at + Width(rela), n - 1, rela); }
  }

  /** All entries pass exactly if the table is accepted. */
  lemma RelProgramAccepted(base: Word, mem: seq<Byte>, symtab: nat, t: Table, ent: nat, rela: bool)
    ensures AllPass(base, symtab, mem, RelProgram(mem, t, ent, rela)) <==> TableAccepted(mem, symtab, t, ent, rela)
  {
    var prog, n := RelProgram(mem, t, ent, rela), Count(t, rela);
    if ent == Width(rela) {
      TableProgramAt(mem, t.at, n, rela);
      hide NewWord, EntryAt, Applicable;
      forall j: nat ensures IsEntry(t, rela, j) <==> j < n { }
      forall j | 0 <= j < n
        ensures Passes(base, symtab, mem, prog[j]) <==> Applicable(mem, symtab, EntryPlace(t, rela, j))
      {
        NewWordResolves(base, symtab, mem, EntryPlace(t, rela, j), rela);
      }
      if TableAccepted(mem, symtab, t, ent, rela) {
      } else {
        var j: nat :| IsEntry(t, rela, j) && !Applicable(mem, symtab, EntryPlace(t, rela, j));
        assert !Passes(base, symtab, mem, prog[j]);
      }
    } else {
      assert prog[0] == None && !Passes(base, symtab, mem, prog[0]);
    }
  }

  /** And then each target holds its resolved word. */
  lemma RelProgramApplied(base: Word, d: Dynamic, was: seq<Byte>, mem: seq<Byte>, t: Table, rela: bool, prog: Program, from: nat)
    requires var part := RelProgram(was, t, Width(rela), rela); from + |part| <= |prog| && prog[from..from + |part|] == part
    requires Applied(base, d, was, prog, |prog|, mem)
    ensures TableApplied(base, was, mem, d.symtab, t, rela)
  {
    var n := Count(t, rela);
    TableProgramAt(was, t.at, n, rela);
    forall j: nat | IsEntry(t, rela, j)
      ensures WordAt(mem, WordAt(was, EntryPlace(t, rela, j))) == Resolved(base, was, d.symtab, EntryPlace(t, rela, j), rela)
    {
      var at := EntryPlace(t, rela, j);
      assert j < n;
      assert prog[from + j] == RelProgram(was, t, Width(rela), rela)[j] == Some(EntryAt(was, at, rela));
      NewWordResolves(base, d.symtab, was, at, rela);
      ReadsWordAt(was, at);
      assert EntryAt(was, at, rela).offset == WordAt(was, at);
      ReadsWordAt(mem, WordAt(was, at));
      hide NewWord, EntryAt, WordAt, ReadWord, Resolved, Applicable;
    }
  }

  /** The absolute result, for every image with disjoint targets outside the tables: relocation succeeds if
      and only if every table has its right entry size and every entry of the untouched image is one the
      loader applies; then every target of every table holds its resolved word, and no other byte changed.
      Otherwise it stops at the first entry that is not, with those before it applied. */
  lemma RelocatedWords(base: Word, d: Dynamic, mem: seq<Byte>) returns (done: nat)
    requires TargetsApart(mem, d, WholeProgram(mem, d)) && TargetsDisjoint(WholeProgram(mem, d))
    ensures Relocate(base, d, mem).ok <==> Accepted(mem, d)
    ensures var prog := WholeProgram(mem, d);
            && done <= |prog| && Applied(base, d, mem, prog, done, Relocate(base, d, mem).mem)
            && (!Accepted(mem, d) ==> done < |prog| && !Passes(base, d.symtab, mem, prog[done]))
    ensures var r := Relocate(base, d, mem);
            r.ok ==>
              && (d.rel.Some? ==> TableApplied(base, mem, r.mem, d.symtab, d.rel.value, false))
              && (d.rela.Some? ==> TableApplied(base, mem, r.mem, d.symtab, d.rela.value, true))
              && (d.jmprel.Some? ==> TableApplied(base, mem, r.mem, d.symtab, d.jmprel.value, d.pltrel == 7))
              && |r.mem| == |mem|
              && forall p :: 0 <= p < |mem| && !Touched(WholeProgram(mem, d), |WholeProgram(mem, d)|, p) ==> r.mem[p] == mem[p]
  {
    var prog := WholeProgram(mem, d);
    RelocateIsProgram(base, d, mem);
    assert prog[0..] == prog;
    done := ExecApplies(base, d, mem, prog, 0, mem);
    ProgramAccepted(base, d, mem);
    hide Exec, Relocate, NewWord, TargetsApart, TargetsDisjoint, TableAccepted, TableApplied;
    if Accepted(mem, d) {
      ProgramApplied(base, d, mem, Relocate(base, d, mem).mem);
    }
  }

  lemma ProgramAccepted(base: Word, d: Dynamic, mem: seq<Byte>)
    ensures AllPass(base, d.symtab, mem, WholeProgram(mem, d)) <==> Accepted(mem, d)
  {
    var a := if d.rel.None? then [] else RelProgram(mem, d.rel.value, d.rel.value.ent, false);
    var b := if d.rela.None? then [] else RelProgram(mem, d.rela.value, d.rela.value.ent, true);
    var c := JmpProgram(mem, d);
    if d.rel.Some? { RelProgramAccepted(base, mem, d.symtab, d.rel.value, d.rel.value.ent, false); }
    if d.rela.Some? { RelProgramAccepted(base, mem, d.symtab, d.rela.value, d.rela.value.ent, true); }
    if d.jmprel.Some? {
      RelProgramAccepted(base, mem, d.symtab, d.jmprel.value, 8, false);
      RelProgramAccepted(base, mem, d.symtab, d.jmprel.value, 12, true);
    }
    hide RelProgram, TableAccepted, NewWord;
    assert WholeProgram(mem, d) == a + b + c;
    PassesInParts(base, d.symtab, mem, a, b, c);
    if d.jmprel.Some? && d.pltrel != 17 && d.pltrel != 7 {
      assert c == [None] && !Passes(base, d.symtab, mem, c[0]);
    }
  }

  lemma PassesInParts(base: Word, symtab: nat, was: seq<Byte>, a: Program, b: Program, c: Program)
    ensures AllPass(base, symtab, was, a + b + c) <==>
            AllPass(base, symtab, was, a) && AllPass(base, symtab, was, b) && AllPass(base, symtab, was, c)
  {
    hide NewWord, Passes;
    var w := a + b + c;
    assert forall i :: 0 <= i < |a| ==> a[i] == w[i];
    assert forall i :: 0 <= i < |b| ==> b[i] == w[|a| + i];
    assert forall i :: 0 <= i < |c| ==> c[i] == w[|a| + |b| + i];
  }

  lemma ProgramApplied(base: Word, d: Dynamic, was: seq<Byte>, mem: seq<Byte>)
    requires Accepted(was, d) && Applied(base, d, was, WholeProgram(was, d), |WholeProgram(was, d)|, mem)
    ensures d.rel.Some? ==> TableApplied(base, was, mem, d.symtab, d.rel.value, false)
    ensures d.rela.Some? ==> TableApplied(base, was, mem, d.symtab, d.rela.value, true)
    ensures d.jmprel.Some? ==> TableApplied(base, was, mem, d.symtab, d.jmprel.value, d.pltrel == 7)
  {
    var prog := WholeProgram(was, d);
    var a := if d.rel.None? then [] else RelProgram(was, d.rel.value, d.rel.value.ent, false);
    var b := if d.rela.None? then [] else RelProgram(was, d.rela.value, d.rela.value.ent, true);
    var c := JmpProgram(was, d);
    hide RelProgram, Applied, TableApplied, Applicable, IsEntry;
    assert prog == a + b + c;
    assert prog[0..0 + |a|] == a && prog[|a|..|a| + |b|] == b && prog[|a| + |b|..|a| + |b| + |c|] == c;
    if d.rel.Some? { RelProgramApplied(base, d, was, mem, d.rel.value, false, prog, 0); }
    if d.rela.Some? { RelProgramApplied(base, d, was, mem, d.rela.value, true, prog, |a|); }
    if d.jmprel.Some? { RelProgramApplied(base, d, was, mem, d.jmprel.value, d.pltrel == 7, prog, |a| + |b|); }
  }

  /* The code, on a mutable image. */

  method Load(image: array<Byte>, at: nat) returns (w: Word)
    ensures w == ReadWord(image[..], at)
  {
    w := ReadWord(image[..], at);
  }

  method StoreWord(image: array<Byte>, at: nat, w: Word)
    modifies image
    ensures image[..] == WriteWord(old(image[..]), at, w)
  {
    if at + 4 <= image.Length {
      var bytes := ToLE(w, 4);
      forall i | 0 <= i < 4 {
        image[at + i] := bytes[i];
      }
    }
  }

  method DoRelocation(image: array<Byte>, base: Word, symtab: nat, e: Entry) returns (ok: bool)
    modifies image
    ensures match NewWord(base, symtab, old(image[..]), e)
            case None => !ok && image[..] == old(image[..])
            case Some(w) => ok && image[..] == WriteWord(old(image[..]), e.offset, w)
  {
    hide ReadWord, WriteWord;
    var section := SectionIndex(image[..], symtab, e.sym);
    if e.kind == R_ARM_GLOB_DAT || e.kind == R_ARM_JUMP_SLOT {
      if e.sym == 0 || section != 0 {
        return false;
      }
      StoreWord(image, e.offset, if e.addend.Some? then e.addend.value else 0);
    } else if e.kind == R_ARM_RELATIVE {
      if e.sym != 0 {
        return false;
      }
      var target := Load(image, e.offset);
      StoreWord(image, e.offset, Shifted(base, if e.addend.Some? then e.addend.value else target));
    } else if e.kind == R_ARM_ABS32 {
      var target := Load(image, e.offset);
      var addend := if e.addend.Some? then e.addend.value else target;
      if e.sym == 0 {
        return false;
      }
      if section == 0 {
        StoreWord(image, e.offset, addend);
      } else {
        StoreWord(image, e.offset, Shifted(base, SymbolValue(image[..], symtab, e.sym) + addend));
      }
    } else {
      return false;
    }
    ok := true;
  }

  /** do_rel and do_rela: the loop over a table, reading each entry when its turn comes. */
  method DoRelTable(image: array<Byte>, base: Word, symtab: nat, t: Table, ent: nat, rela: bool) returns (ok: bool)
    modifies image
    ensures Relocated(ok, image[..]) == DoRel(base, symtab, old(image[..]), t, ent, rela)
  {
    hide NewWord, EntryAt, WriteWord;
    if ent != Width(rela) {
      return false;
    }
    ghost var was := image[..];
    var off: nat := 0;
    var at: nat := t.at;
    ghost var left: nat := Count(t, rela);
    while off < t.size
      invariant if rela then t.size <= off + 12 * left < t.size + 12 else t.size <= off + 8 * left < t.size + 8
      invariant DoTable(base, symtab, image[..], at, left, rela) == DoTable(base, symtab, was, t.at, Count(t, rela), rela)
      decreases t.size + Width(rela) - off
    {
      var e := EntryAt(image[..], at, rela);
      var done := DoRelocation(image, base, symtab, e);
      if !done {
        return false;
      }
      left := left - 1;
      off, at := off + Width(rela), at + Width(rela);
    }
    ok := true;
  }

  method RelocateImage(image: array<Byte>, base: Word, d: Dynamic) returns (ok: bool)
    modifies image
    ensures Relocated(ok, image[..]) == Relocate(base, d, old(image[..]))
  {
    hide DoRel;
    ok := true;
    if d.rel.Some? {
      ok := DoRelTable(image, base, d.symtab, d.rel.value, d.rel.value.ent, false);
      if !ok { return; }
    }
    if d.rela.Some? {
      ok := DoRelTable(image, base, d.symtab, d.rela.value, d.rela.value.ent, true);
      if !ok { return; }
    }
    if d.jmprel.Some? {
      if d.pltrel == DT_REL {
        ok := DoRelTable(image, base, d.symtab, d.jmprel.value, 8, false);
      } else if d.pltrel == DT_RELA {
        ok := DoRelTable(image, base, d.symtab, d.jmprel.value, 12, true);
      } else {
        ok := false;
      }
    }
  }
}
