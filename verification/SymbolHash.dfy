/** Symbol lookup through an ELF hash table (System V ABI, chapter 5, Hash Table). */
module SymbolHash {
  import opened Bytes

  /** One character of elf_hash, in the 32-bit unsigned arithmetic of the only hosts it builds on. */
  function HashStep(h: bv32, c: bv8): (r: bv32)
    ensures r & 0xF000_0000 == 0
  {
    FoldTop(Appended(h, c))
  }

  function Appended(h: bv32, c: bv8): bv32 {
    (h << 4) + (c as bv32)
  }

  function FoldTop(t: bv32): bv32 {
    var g := t & 0xF000_0000;
    var h2 := if g != 0 then t ^ (g >> 24) else t;
    h2 & !g
  }

  /** r is t with its top four bits taken out and exclusive-ored into bits 4 to 7; the rest is as in t. */
  predicate Folded(t: bv32, r: bv32) {
    && (r ^ t) & 0x0FFF_FF0F == 0
    && r & 0xF0 == (t & 0xF0) ^ ((t >> 24) & 0xF0)
    && r & 0xF000_0000 == 0
  }

  lemma FoldTopFolds(t: bv32)
    ensures Folded(t, FoldTop(t))
  {
  }

  /** Sixteen times the hash plus the character, in 32 bits. */
  function Accumulated(h: bv32, c: bv8): bv32 {
    h * 16 + (c as bv32)
  }

  lemma AccumulatedByShift(h: bv32, c: bv8)
    ensures Accumulated(h, c) == Appended(h, c)
  {
    assert h * 16 == h << 4;
  }

  /** The hash of a name, character by character; its top four bits are always clear. */
  function Hash(name: seq<bv8>): (h: bv32)
    ensures h & 0xF000_0000 == 0
  {
    if name == [] then 0 else HashStep(Hash(name[..|name| - 1]), name[|name| - 1])
  }

  /** What the hash is: nothing for the empty name, and for one more character sixteen times the hash plus
      that character, folded. */
  lemma HashAccumulates(name: seq<bv8>, c: bv8)
    ensures Hash([]) == 0
    ensures Folded(Accumulated(Hash(name), c), Hash(name + [c]))
  {
    hide HashStep, Folded, Accumulated;
    assert (name + [c])[..|name|] == name && (name + [c])[|name|] == c;
    StepFolds(Hash(name), c);
  }

  lemma StepFolds(h: bv32, c: bv8)
    ensures Folded(Accumulated(h, c), HashStep(h, c))
  {
    hide Folded, FoldTop, Accumulated, Appended;
    AccumulatedByShift(h, c);
    FoldTopFolds(Appended(h, c));
  }

  /** So every hash is below 2^28, although the shift may leave 32 bits on the way. */
  lemma HashBelow2To28(name: seq<bv8>)
    ensures Hash(name) < 0x1000_0000
  {
  }

  method ElfHash(name: seq<bv8>) returns (h: bv32)
    ensures h == Hash(name)
  {
    h := 0;
    var i := 0;
    while i < |name|
      invariant 0 <= i <= |name| && h == Hash(name[..i])
    {
      assert name[..i + 1][..i] == name[..i];
      h := HashStep(h, name[i]);
      i := i + 1;
    }
    assert name[..|name|] == name;
  }

  /** nbucket == |bucket|, nchain == |chain|; symbol 0 is STN_UNDEF. */
  datatype Table = Table(bucket: seq<nat>, chain: seq<nat>, names: seq<seq<bv8>>, values: seq<nat>)

  predicate Sized(t: Table) {
    |t.bucket| > 0 && |t.names| == |t.values| == |t.chain|
  }

  predicate Live(t: Table, y: nat) {
    y != 0 && y < |t.chain|
  }

  /** The n-th symbol on the chain from y, counting from 0; None past its end. */
  function Walk(t: Table, y: nat, n: nat): (k: Option<nat>)
    ensures k.Some? ==> Live(t, k.value)
    decreases n
  {
    if !Live(t, y) then None else if n == 0 then Some(y) else Walk(t, t.chain[y], n - 1)
  }

  function BucketOf(t: Table, name: seq<bv8>): nat
    requires Sized(t)
  {
    t.bucket[Hash(name) as nat % |t.bucket|]
  }

  /** Symbol k is the n-th on the chain of the name's bucket, and has that name. */
  ghost predicate Matches(t: Table, symbol: seq<bv8>, n: nat, k: nat)
    requires Sized(t)
  {
    Walk(t, BucketOf(t, symbol), n) == Some(k) && t.names[k] == symbol
  }

  ghost predicate Finds(t: Table, symbol: seq<bv8>)
    requires Sized(t)
  {
    exists n: nat, k: nat :: Matches(t, symbol, n, k)
  }

  /** The first on the chain that matches. */
  ghost predicate FirstMatch(t: Table, symbol: seq<bv8>, n: nat, k: nat)
    requires Sized(t)
  {
    Matches(t, symbol, n, k) && forall m: nat, j: nat :: m < n ==> !Matches(t, symbol, m, j)
  }

  ghost predicate ChainEnds(t: Table, y: nat) {
    exists n: nat :: Walk(t, y, n) == None
  }

  /** The walk along the name's bucket stands at y after `walked` links, none of which matched. */
  ghost predicate StandsAt(t: Table, symbol: seq<bv8>, y: nat, walked: nat)
    requires Sized(t)
  {
    && (forall m: nat, i: nat :: i == m + walked ==> Walk(t, BucketOf(t, symbol), i) == Walk(t, y, m))
    && (forall m: nat, j: nat :: m < walked ==> !Matches(t, symbol, m, j))
  }

  lemma StandsHere(t: Table, symbol: seq<bv8>, y: nat, walked: nat)
    requires Sized(t) && StandsAt(t, symbol, y, walked)
    ensures if Live(t, y) then Walk(t, BucketOf(t, symbol), walked) == Some(y) else !Finds(t, symbol)
  {
    assert walked == 0 + walked && Walk(t, BucketOf(t, symbol), walked) == Walk(t, y, 0);
    if !Live(t, y) {
      forall n: nat, k: nat ensures !Matches(t, symbol, n, k) {
        if n >= walked { assert Walk(t, BucketOf(t, symbol), n) == Walk(t, y, n - walked); }
      }
    }
  }

  lemma StepOn(t: Table, symbol: seq<bv8>, y: nat, walked: nat)
    requires Sized(t) && StandsAt(t, symbol, y, walked) && Live(t, y) && t.names[y] != symbol
    ensures StandsAt(t, symbol, t.chain[y], walked + 1)
  {
    StandsHere(t, symbol, y, walked);
    forall m: nat, i: nat | i == m + (walked + 1) ensures Walk(t, BucketOf(t, symbol), i) == Walk(t, t.chain[y], m) {
      assert i == (m + 1) + walked && Walk(t, y, m + 1) == Walk(t, t.chain[y], m);
    }
  }

  /** arm_dlsym: on any table whose chain for this name ends it terminates; it finds the first symbol of
      that name on the chain of its bucket, and nothing exactly if there is none. */
  method DlSym(t: Table, base: nat, symbol: seq<bv8>) returns (address: Option<nat>)
    requires Sized(t) && ChainEnds(t, BucketOf(t, symbol))
    ensures address.Some? ==> exists n: nat, k: nat :: FirstMatch(t, symbol, n, k) && address.value == base + t.values[k]
    ensures address.None? <==> !Finds(t, symbol)
  {
    var hash := ElfHash(symbol);
    var y: nat := t.bucket[hash as nat % |t.bucket|];
    ghost var n: nat :| Walk(t, y, n) == None;
    ghost var walked: nat := 0;
    assert StandsAt(t, symbol, y, 0);
    while y != 0 && y < |t.chain|
      invariant Walk(t, y, n) == None && StandsAt(t, symbol, y, walked)
      decreases n
    {
      hide StandsAt;
      StandsHere(t, symbol, y, walked);
      if t.names[y] == symbol {
        assert Matches(t, symbol, walked, y);
        FirstHere(t, symbol, y, walked);
        return Some(base + t.values[y]);
      }
      StepOn(t, symbol, y, walked);
      y, n, walked := t.chain[y], n - 1, walked + 1;
    }
    hide StandsAt;
    StandsHere(t, symbol, y, walked);
    address := None;
  }

  lemma FirstHere(t: Table, symbol: seq<bv8>, y: nat, walked: nat)
    requires Sized(t) && StandsAt(t, symbol, y, walked) && Matches(t, symbol, walked, y)
    ensures FirstMatch(t, symbol, walked, y) && Finds(t, symbol)
  {
  }

  ghost predicate OnChain(t: Table, y: nat, k: nat) {
    exists n: nat :: Walk(t, y, n) == Some(k)
  }

  /** A well-formed table: every chain ends, and every symbol is on the chain of the bucket its hash
      selects. */
  ghost predicate WellFormed(t: Table) {
    && Sized(t)
    && (forall b :: 0 <= b < |t.bucket| ==> ChainEnds(t, t.bucket[b]))
    && (forall k: nat :: 0 < k < |t.names| ==> OnChain(t, t.bucket[Hash(t.names[k]) as nat % |t.bucket|], k))
  }

  /** The linear scan: the first symbol of that name from `from` on. */
  function Scan(t: Table, symbol: seq<bv8>, from: nat): (k: Option<nat>)
    ensures k.Some? ==> from <= k.value < |t.names| && t.names[k.value] == symbol
    ensures k.Some? ==> forall i :: from <= i < k.value ==> t.names[i] != symbol
    ensures k.None? ==> forall i :: from <= i < |t.names| ==> t.names[i] != symbol
    decreases |t.names| - from
  {
    if from >= |t.names| then None else if t.names[from] == symbol then Some(from) else Scan(t, symbol, from + 1)
  }

  /** Index agrees with search: on a well-formed table the walk is allowed, and a symbol is on its
      bucket's chain exactly if a scan of all symbols finds the name. */
  lemma IndexAgreesWithScan(t: Table, symbol: seq<bv8>)
    requires WellFormed(t)
    ensures ChainEnds(t, BucketOf(t, symbol))
    ensures Finds(t, symbol) <==> Scan(t, symbol, 1).Some?
  {
    var b := Hash(symbol) as nat % |t.bucket|;
    assert ChainEnds(t, t.bucket[b]);
    if Finds(t, symbol) {
      var n: nat, k: nat :| Matches(t, symbol, n, k);
      assert Live(t, k);
    }
    if Scan(t, symbol, 1).Some? {
      var k := Scan(t, symbol, 1).value;
      assert OnChain(t, t.bucket[Hash(t.names[k]) as nat % |t.bucket|], k);
      var n: nat :| Walk(t, BucketOf(t, symbol), n) == Some(k);
      assert Matches(t, symbol, n, k);
    }
  }

  /** And if names are unique, it is the scanned symbol that is found. */
  method FindSymbol(t: Table, base: nat, symbol: seq<bv8>) returns (address: Option<nat>)
    requires WellFormed(t)
    requires forall i, j :: 0 < i < j < |t.names| ==> t.names[i] != t.names[j]
    ensures address == match Scan(t, symbol, 1) { case Some(k) => Some(base + t.values[k]) case None => None }
  {
    IndexAgreesWithScan(t, symbol);
    address := DlSym(t, base, symbol);
    if address.Some? {
      ghost var n: nat, k: nat :| FirstMatch(t, symbol, n, k) && address.value == base + t.values[k];
      assert Matches(t, symbol, n, k) && Live(t, k);
    }
  }
}
