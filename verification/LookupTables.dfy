/** The two-stage property index (tools/ucparser/parser.py) and the lookup that
    src/ucb/unicode.c performs on it. */
module LookupTables {

  /** Index of the property record of cp; code points without data share 0. */
  function PropIndex(data: map<nat, nat>, cp: nat): nat {
    if cp in data then data[cp] else 0
  }

  /** The property indices of the code points from lo up to hi. */
  function Indices(data: map<nat, nat>, lo: nat, hi: nat): (s: seq<nat>)
    requires lo <= hi
    ensures |s| == hi - lo
    ensures forall i :: 0 <= i < |s| ==> s[i] == PropIndex(data, lo + i)
    decreases hi
  {
    if lo == hi then [] else Indices(data, lo, hi - 1) + [PropIndex(data, hi - 1)]
  }

  // ---------------------------------------------------------------------------
  // Where blocks start
  // ---------------------------------------------------------------------------

  /** k * size, one block at a time. */
  function Start(k: nat, size: nat): nat {
    if k == 0 then 0 else Start(k - 1, size) + size
  }

  lemma {:induction false} StartIsProduct(k: nat, size: nat)
    ensures Start(k, size) == k * size
  {
    if k > 0 {
      StartIsProduct(k - 1, size);
      assert k * size == (k - 1) * size + size;
    }
  }

  lemma {:induction false} StartsGrow(a: nat, b: nat, size: nat)
    requires a < b
    ensures Start(a, size) + size <= Start(b, size)
  {
    if a < b - 1 {
      StartsGrow(a, b - 1, size);
    }
  }

  /** A position is found in one block only. */
  lemma SameBlock(a: nat, r: nat, b: nat, t: nat, size: nat)
    requires r < size && t < size && Start(a, size) + r == Start(b, size) + t
    ensures a == b && r == t
  {
    if a < b {
      StartsGrow(a, b, size);
    } else if b < a {
      StartsGrow(b, a, size);
    }
  }

  /** Division and remainder give the block and the place in it. */
  lemma Position(cp: nat, size: nat)
    requires size > 0
    ensures cp == Start(cp / size, size) + cp % size && cp % size < size
  {
    var q, r := cp / size, cp % size;
    StartIsProduct(q, size);
    assert cp == q * size + r;
  }

  lemma StartDivides(k: nat, size: nat)
    requires size > 0
    ensures Start(k, size) / size == k
  {
    var x := Start(k, size);
    Position(x, size);
    SameBlock(k, 0, x / size, x % size, size);
  }

  // ---------------------------------------------------------------------------
  // The tables
  // ---------------------------------------------------------------------------

  /** Stage-2 block number k starts with the indices given. */
  predicate HoldsBlock(stage2: seq<nat>, size: nat, k: nat, block: seq<nat>) {
    && Start(k, size) + |block| <= |stage2|
    && forall r :: 0 <= r < |block| ==> stage2[Start(k, size) + r] == block[r]
  }

  /** The b-th block of a domain of n code points; the last may be short. */
  function Block(data: map<nat, nat>, size: nat, n: nat, b: nat): (s: seq<nat>)
    requires Start(b, size) <= n
  {
    Indices(data, Start(b, size), if n < Start(b, size) + size then n else Start(b, size) + size)
  }

  /** Block b is stored where stage 1 says, and is known to the dictionary under that number. */
  predicate Stored(data: map<nat, nat>, size: nat, n: nat, stage1: seq<nat>, unique: map<seq<nat>, nat>, b: nat)
    requires b < |stage1|
  {
    && Start(b, size) <= n
    && Block(data, size, n, b) in unique && unique[Block(data, size, n, b)] == stage1[b]
  }

  predicate Encodes(data: map<nat, nat>, size: nat, n: nat, stage1: seq<nat>, stage2: seq<nat>, unique: map<seq<nat>, nat>) {
    && (forall t :: t in unique ==> HoldsBlock(stage2, size, unique[t], t))
    && (forall b: nat :: b < |stage1| ==> Stored(data, size, n, stage1, unique, b))
  }

  /** Equal blocks are stored once. */
  predicate SharesBlocks(data: map<nat, nat>, size: nat, n: nat, stage1: seq<nat>)
    requires forall b: nat :: b < |stage1| ==> Start(b, size) <= n
  {
    forall a: nat, b: nat :: a < |stage1| && b < |stage1| && Block(data, size, n, a) == Block(data, size, n, b) ==>
      stage1[a] == stage1[b]
  }

  /** ucb_uc_get_prop: what the C code reads for cp. */
  function Lookup(stage1: seq<nat>, stage2: seq<nat>, size: nat, cp: nat): (index: nat)
    requires InBounds(stage1, stage2, size, cp)
  {
    stage2[stage1[cp / size] * size + cp % size]
  }

  /** Both reads of the lookup stay inside the tables. */
  predicate InBounds(stage1: seq<nat>, stage2: seq<nat>, size: nat, cp: nat) {
    size > 0 && cp / size < |stage1| && stage1[cp / size] * size + cp % size < |stage2|
  }

  /** add_block: reuse an equal block or append a new one. */
  method AddBlock(stage2: seq<nat>, unique: map<seq<nat>, nat>, block: seq<nat>, size: nat, ghost m: nat)
    returns (index: nat, stage2': seq<nat>, unique': map<seq<nat>, nat>, ghost m': nat)
    requires size > 0 && |stage2| == Start(m, size) && |block| <= size
    requires forall t :: t in unique ==> HoldsBlock(stage2, size, unique[t], t)
    ensures if block in unique then index == unique[block] && stage2' == stage2 else stage2' == stage2 + block
    ensures unique' == unique[block := index]
    ensures forall t :: t in unique' ==> HoldsBlock(stage2', size, unique'[t], t)
    ensures |block| == size ==> |stage2'| == Start(m', size)
  {
    if block in unique {
      return unique[block], stage2, unique, m;
    }
    StartDivides(m, size);
    index := |stage2| / size;
    unique' := unique[block := index];
    stage2' := stage2 + block;
    m' := m + 1;
  }

  /** The index in place r of block b. */
  lemma FoundInBlock(data: map<nat, nat>, size: nat, n: nat, stage1: seq<nat>, stage2: seq<nat>, unique: map<seq<nat>, nat>,
                     b: nat, r: nat)
    requires Encodes(data, size, n, stage1, stage2, unique) && b < |stage1|
    requires r < size && Start(b, size) + r < n
    ensures Start(stage1[b], size) + r < |stage2|
    ensures stage2[Start(stage1[b], size) + r] == PropIndex(data, Start(b, size) + r)
  {
    assert Stored(data, size, n, stage1, unique, b);
    var t := Block(data, size, n, b);
    assert HoldsBlock(stage2, size, unique[t], t);
    assert t[r] == PropIndex(data, Start(b, size) + r);
  }

  /** A code point below the end of the last block lies in some block. */
  lemma BlockExists(cp: nat, size: nat, count: nat)
    requires size > 0 && cp < Start(count, size)
    ensures cp / size < count
  {
    Position(cp, size);
    var q := cp / size;
    if q > count {
      StartsGrow(count, q, size);
    }
  }

  /** Tables that encode the blocks answer every code point they cover. */
  lemma Found(data: map<nat, nat>, size: nat, n: nat, stage1: seq<nat>, stage2: seq<nat>, unique: map<seq<nat>, nat>, cp: nat)
    requires size > 0 && cp < n <= Start(|stage1|, size)
    requires Encodes(data, size, n, stage1, stage2, unique)
    ensures InBounds(stage1, stage2, size, cp) && Lookup(stage1, stage2, size, cp) == PropIndex(data, cp)
  {
    BlockExists(cp, size, |stage1|);
    Position(cp, size);
    FoundInBlock(data, size, n, stage1, stage2, unique, cp / size, cp % size);
    StartIsProduct(stage1[cp / size], size);
  }

  /** Every code point of the domain is answered as the map says. */
  ghost predicate Answers(data: map<nat, nat>, n: nat, stage1: seq<nat>, stage2: seq<nat>, size: nat) {
    forall cp: nat :: cp < n ==>
      InBounds(stage1, stage2, size, cp) && Lookup(stage1, stage2, size, cp) == PropIndex(data, cp)
  }

  lemma AllFound(data: map<nat, nat>, size: nat, n: nat, stage1: seq<nat>, stage2: seq<nat>, unique: map<seq<nat>, nat>)
    requires size > 0 && n <= Start(|stage1|, size)
    requires Encodes(data, size, n, stage1, stage2, unique)
    ensures Answers(data, n, stage1, stage2, size)
  {
    forall cp: nat | cp < n
      ensures InBounds(stage1, stage2, size, cp) && Lookup(stage1, stage2, size, cp) == PropIndex(data, cp)
    {
      Found(data, size, n, stage1, stage2, unique, cp);
    }
  }

  lemma AllShared(data: map<nat, nat>, size: nat, n: nat, stage1: seq<nat>, stage2: seq<nat>, unique: map<seq<nat>, nat>)
    requires Encodes(data, size, n, stage1, stage2, unique)
    ensures forall b: nat :: b < |stage1| ==> Start(b, size) <= n
    ensures SharesBlocks(data, size, n, stage1)
  {
    forall b: nat | b < |stage1| ensures Start(b, size) <= n {
      assert Stored(data, size, n, stage1, unique, b);
    }
    forall a: nat, b: nat | a < |stage1| && b < |stage1| && Block(data, size, n, a) == Block(data, size, n, b)
      ensures stage1[a] == stage1[b]
    {
      assert Stored(data, size, n, stage1, unique, a) && Stored(data, size, n, stage1, unique, b);
    }
  }

  /** One turn of the generator's loop, at a full block or at the end of the domain. */
  method FinishBlock(data: map<nat, nat>, size: nat, n: nat, stage1: seq<nat>, stage2: seq<nat>,
                     unique: map<seq<nat>, nat>, block: seq<nat>, ghost m: nat)
    returns (stage1': seq<nat>, stage2': seq<nat>, unique': map<seq<nat>, nat>, ghost m': nat)
    requires size > 0 && |stage2| == Start(m, size) && |stage2| <= Start(|stage1|, size) <= n
    requires block == Block(data, size, n, |stage1|)
    requires Encodes(data, size, n, stage1, stage2, unique)
    ensures |stage1'| == |stage1| + 1
    ensures |stage2'| <= Start(|stage1|, size) + |block|
    ensures |block| == size ==> |stage2'| == Start(m', size)
    ensures Encodes(data, size, n, stage1', stage2', unique')
  {
    var index: nat;
    index, stage2', unique', m' := AddBlock(stage2, unique, block, size, m);
    stage1' := stage1 + [index];
    forall b: nat | b < |stage1'| ensures Stored(data, size, n, stage1', unique', b) {
      assert b < |stage1| ==> Stored(data, size, n, stage1, unique, b) && stage1'[b] == stage1[b];
    }
  }

  /** _create_lookup_tables, for a domain of n code points. */
  method CreateLookupTables(data: map<nat, nat>, n: nat, size: nat) returns (stage1: seq<nat>, stage2: seq<nat>)
    requires size > 0
    ensures |stage2| <= n
    ensures Answers(data, n, stage1, stage2, size)
    ensures forall b: nat :: b < |stage1| ==> Start(b, size) <= n
    ensures SharesBlocks(data, size, n, stage1)
  {
    stage1, stage2 := [], [];
    var block: seq<nat> := [];
    var unique: map<seq<nat>, nat> := map[];
    ghost var m: nat, lo: nat := 0, 0;
    for cp: int := 0 to n
      invariant lo == Start(|stage1|, size) && lo + |block| == cp && |block| < size
      invariant block == Indices(data, lo, cp)
      invariant |stage2| == Start(m, size) && |stage2| <= lo
      invariant Encodes(data, size, n, stage1, stage2, unique)
    {
      block := block + [PropIndex(data, cp)];
      if |block| == size {
        stage1, stage2, unique, m := FinishBlock(data, size, n, stage1, stage2, unique, block, m);
        block, lo := [], lo + size;
      }
    }
    if block != [] {
      stage1, stage2, unique, m := FinishBlock(data, size, n, stage1, stage2, unique, block, m);
    }
    AllFound(data, size, n, stage1, stage2, unique);
    AllShared(data, size, n, stage1, stage2, unique);
  }
}
