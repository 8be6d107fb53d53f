/** Case mapping (src/ucb/unicode.c): the whole-string map, the lazy folding
    iterator, and the proof that comparing lazily folded strings orders them as
    comparing their folded bytes does (src/ucb/string.c). */
module CaseMapping {
  import opened Utf8
  import Utf8Codec

  // ---------------------------------------------------------------------------
  // Tables
  // ---------------------------------------------------------------------------

  datatype Op = Upper | Lower | Title | Fold

  /** A reference into the simple or the multi mapping table. */
  datatype Ref = NoRef | Simple(value: scalar) | Multi(values: seq<scalar>)

  datatype Mapping = Mapping(toUpper: Ref, toLower: Ref, toTitle: Ref, toFold: Ref)

  /** Mappings by code point, and the code points that separate words. */
  datatype Tables = Tables(mapping: map<scalar, Mapping>, separators: set<scalar>)

  predicate ValidRef(r: Ref, maxMulti: nat) {
    r.Multi? ==> 1 <= |r.values| <= maxMulti
  }

  ghost predicate ValidTables(t: Tables, maxMulti: nat) {
    && 1 <= maxMulti
    && forall c :: c in t.mapping ==>
         && ValidRef(t.mapping[c].toUpper, maxMulti) && ValidRef(t.mapping[c].toLower, maxMulti)
         && ValidRef(t.mapping[c].toTitle, maxMulti) && ValidRef(t.mapping[c].toFold, maxMulti)
  }

  /** The code point mapped before, if any. */
  datatype Last = NoLast | LastCp(cp: scalar)

  function Target(t: Tables, op: Op, last: Last, m: Mapping): Ref {
    match op
    case Upper => m.toUpper
    case Lower => m.toLower
    case Title => if last.NoLast? || last.cp in t.separators then m.toTitle else m.toLower
    case Fold => m.toFold
  }

  function Follow(r: Ref, cp: scalar): seq<scalar> {
    match r
    case NoRef => [cp]
    case Simple(v) => [v]
    case Multi(vs) => vs
  }

  /** ucb_uc_case_map_cp: what cp maps to. U+0000 is left alone. */
  function MapCp(t: Tables, op: Op, last: Last, cp: scalar): seq<scalar> {
    if cp == 0 || cp !in t.mapping then [cp] else Follow(Target(t, op, last, t.mapping[cp]), cp)
  }

  function Next(last: Last, cp: scalar): Last {
    if cp == 0 then last else LastCp(cp)
  }

  function MapAll(t: Tables, op: Op, last: Last, s: seq<scalar>): seq<scalar>
    decreases |s|
  {
    if s == [] then [] else MapCp(t, op, last, s[0]) + MapAll(t, op, Next(last, s[0]), s[1..])
  }

  /** Full case folding of a text. */
  function Folded(t: Tables, s: seq<scalar>): seq<scalar> {
    MapAll(t, Fold, NoLast, s)
  }

  /** Only title case has a memory. */
  lemma {:induction false} OnlyTitleRemembers(t: Tables, op: Op, l1: Last, l2: Last, s: seq<scalar>)
    requires op != Title
    ensures MapAll(t, op, l1, s) == MapAll(t, op, l2, s)
    decreases |s|
  {
    if s != [] {
      OnlyTitleRemembers(t, op, Next(l1, s[0]), Next(l2, s[0]), s[1..]);
    }
  }

  // ---------------------------------------------------------------------------
  // What becomes of each code point
  // ---------------------------------------------------------------------------

  function LastOf(last: Last, s: seq<scalar>): Last
    decreases |s|
  {
    if s == [] then last else LastOf(Next(last, s[0]), s[1..])
  }

  lemma {:induction false} MapAllConcat(t: Tables, op: Op, last: Last, a: seq<scalar>, b: seq<scalar>)
    ensures MapAll(t, op, last, a + b) == MapAll(t, op, last, a) + MapAll(t, op, LastOf(last, a), b)
    decreases |a|
  {
    if a == [] {
      assert a + b == b;
    } else {
      assert (a + b)[1..] == a[1..] + b;
      MapAllConcat(t, op, Next(last, a[0]), a[1..], b);
      Behind(MapCp(t, op, last, a[0]), MapAll(t, op, Next(last, a[0]), a[1..]), MapAll(t, op, LastOf(last, a), b));
    }
  }

  lemma Behind(a: seq<scalar>, b: seq<scalar>, c: seq<scalar>)
    ensures a + (b + c) == a + b + c
  {
  }

  lemma MapOne(t: Tables, op: Op, last: Last, c: scalar)
    ensures MapAll(t, op, last, [c]) == MapCp(t, op, last, c)
  {
    assert MapAll(t, op, last, [c]) == MapCp(t, op, last, c) + [];
  }

  lemma MapsAround(t: Tables, op: Op, x: seq<scalar>, c: scalar, y: seq<scalar>)
    requires op != Title
    ensures MapAll(t, op, NoLast, x + [c] + y) ==
            MapAll(t, op, NoLast, x) + MapCp(t, op, NoLast, c) + MapAll(t, op, NoLast, y)
  {
    MapAllConcat(t, op, NoLast, x + [c], y);
    MapAllConcat(t, op, NoLast, x, [c]);
    MapOne(t, op, LastOf(NoLast, x), c);
    OnlyTitleRemembers(t, op, LastOf(NoLast, x + [c]), NoLast, y);
  }

  /** Upper case, wherever the code point stands: the upper case column, or the code
      point itself if that is empty, if it has no mapping or if it is U+0000. */
  lemma UpperMaps(t: Tables, x: seq<scalar>, c: scalar, y: seq<scalar>)
    ensures MapAll(t, Upper, NoLast, x + [c] + y) ==
            MapAll(t, Upper, NoLast, x)
          + (if c == 0 || c !in t.mapping then [c]
             else match t.mapping[c].toUpper
                  case NoRef => [c]
                  case Simple(v) => [v]
                  case Multi(vs) => vs)
          + MapAll(t, Upper, NoLast, y)
  {
    MapsAround(t, Upper, x, c, y);
  }

  /** Lower case: the lower case column. */
  lemma LowerMaps(t: Tables, x: seq<scalar>, c: scalar, y: seq<scalar>)
    ensures MapAll(t, Lower, NoLast, x + [c] + y) ==
            MapAll(t, Lower, NoLast, x)
          + (if c == 0 || c !in t.mapping then [c]
             else match t.mapping[c].toLower
                  case NoRef => [c]
                  case Simple(v) => [v]
                  case Multi(vs) => vs)
          + MapAll(t, Lower, NoLast, y)
  {
    MapsAround(t, Lower, x, c, y);
  }

  /** Folding: the folding column. */
  lemma FoldMaps(t: Tables, x: seq<scalar>, c: scalar, y: seq<scalar>)
    ensures MapAll(t, Fold, NoLast, x + [c] + y) ==
            MapAll(t, Fold, NoLast, x)
          + (if c == 0 || c !in t.mapping then [c]
             else match t.mapping[c].toFold
                  case NoRef => [c]
                  case Simple(v) => [v]
                  case Multi(vs) => vs)
          + MapAll(t, Fold, NoLast, y)
  {
    MapsAround(t, Fold, x, c, y);
  }

  /** A word starts behind x: x has no code point but U+0000, which does not count, or
      the last other one separates words. */
  predicate WordStarts(t: Tables, x: seq<scalar>) {
    x == [] || (if x[|x| - 1] == 0 then WordStarts(t, x[..|x| - 1]) else x[|x| - 1] in t.separators)
  }

  lemma {:induction false} LastSnoc(last: Last, x: seq<scalar>, c: scalar)
    ensures LastOf(last, x + [c]) == Next(LastOf(last, x), c)
    decreases |x|
  {
    if x == [] {
      assert x + [c] == [c] && [c][1..] == [];
    } else {
      assert (x + [c])[1..] == x[1..] + [c];
      LastSnoc(Next(last, x[0]), x[1..], c);
    }
  }

  lemma {:induction false} WordStartsIsLast(t: Tables, x: seq<scalar>)
    ensures WordStarts(t, x) <==> LastOf(NoLast, x).NoLast? || LastOf(NoLast, x).cp in t.separators
    decreases |x|
  {
    if x != [] {
      var pre, c := x[..|x| - 1], x[|x| - 1];
      assert x == pre + [c];
      LastSnoc(NoLast, pre, c);
      WordStartsIsLast(t, pre);
    }
  }

  /** Title case, code point by code point: the title case column where a word starts,
      the lower case column elsewhere. */
  lemma TitleMaps(t: Tables, x: seq<scalar>, c: scalar)
    ensures MapAll(t, Title, NoLast, []) == []
    ensures MapAll(t, Title, NoLast, x + [c]) ==
            MapAll(t, Title, NoLast, x)
          + (if c == 0 || c !in t.mapping then [c]
             else match (if WordStarts(t, x) then t.mapping[c].toTitle else t.mapping[c].toLower)
                  case NoRef => [c]
                  case Simple(v) => [v]
                  case Multi(vs) => vs)
  {
    MapAllConcat(t, Title, NoLast, x, [c]);
    MapOne(t, Title, LastOf(NoLast, x), c);
    WordStartsIsLast(t, x);
  }

  // ---------------------------------------------------------------------------
  // The whole-string map
  // ---------------------------------------------------------------------------

  /** ucb_uc_case_map, without the terminator. */
  method CaseMap(t: Tables, s: seq<byte>, op: Op) returns (r: seq<byte>)
    requires WellFormed(s)
    ensures WellFormed(r) && DecodeAll(r) == MapAll(t, op, NoLast, DecodeAll(s))
  {
    r := [];
    ghost var all := MapAll(t, op, NoLast, DecodeAll(s));
    ghost var done: seq<scalar> := [];
    var last := NoLast;
    var pos := 0;
    while pos < |s|
      invariant pos <= |s| && WellFormed(s[pos..])
      invariant r == EncodeAll(done)
      invariant done + MapAll(t, op, last, DecodeAll(s[pos..])) == all
      decreases |s| - pos
    {
      var cp: scalar;
      cp, pos := Utf8Codec.NextValid(s, pos);
      var mapped := MapCp(t, op, last, cp);
      EncodeAllConcat(done, mapped);
      MapStep(t, op, last, cp, DecodeAll(s[pos..]), done);
      r := r + EncodeAll(mapped);
      done := done + mapped;
      last := Next(last, cp);
    }
    assert done == all;
    DecodeEncode(all);
  }

  lemma MapStep(t: Tables, op: Op, last: Last, cp: scalar, rest: seq<scalar>, done: seq<scalar>)
    ensures done + MapAll(t, op, last, [cp] + rest) ==
            (done + MapCp(t, op, last, cp)) + MapAll(t, op, Next(last, cp), rest)
  {
    assert ([cp] + rest)[1..] == rest;
  }

  // ---------------------------------------------------------------------------
  // The lazy iterator
  // ---------------------------------------------------------------------------

  lemma FoldStep(t: Tables, last: Last, cp: scalar, rest: seq<scalar>, maxMulti: nat)
    requires ValidTables(t, maxMulti)
    ensures MapCp(t, Fold, last, cp) != []
    ensures MapAll(t, Fold, last, [cp] + rest) == MapCp(t, Fold, last, cp) + MapAll(t, Fold, Next(last, cp), rest)
  {
    assert ([cp] + rest)[1..] == rest;
  }

  lemma SplitFirst(p: seq<scalar>, i: nat, tail: seq<scalar>)
    requires i < |p|
    ensures p[i..] + tail == [p[i]] + (p[i + 1..] + tail)
  {
  }

  class FoldIter {
    const t: Tables
    const str: seq<byte>
    var pos: nat
    var last: Last
    var pending: seq<scalar>
    var pendingPos: nat

    ghost predicate Valid()
      reads this
    {
      && pos <= |str| && WellFormed(str[pos..])
      && pendingPos <= |pending|
    }

    /** The folded code points still to come. */
    ghost function Remaining(): seq<scalar>
      reads this
      requires Valid()
    {
      pending[pendingPos..] + MapAll(t, Fold, last, DecodeAll(str[pos..]))
    }

    /** ucb_uc_fold_iter_init */
    constructor (t: Tables, str: seq<byte>)
      requires WellFormed(str)
      ensures Valid() && Remaining() == Folded(t, DecodeAll(str))
      ensures this.t == t && this.str == str
    {
      this.t := t;
      this.str := str;
      pos, last, pending, pendingPos := 0, NoLast, [], 0;
      new;
      assert str[0..] == str;
    }

    /** Fold the next code point of the input into the empty buffer. */
    method Refill(ghost maxMulti: nat)
      requires Valid() && ValidTables(t, maxMulti)
      requires pendingPos == |pending| && pos < |str|
      modifies this
      ensures Valid() && Remaining() == old(Remaining())
      ensures pendingPos == 0 < |pending|
    {
      var cp: scalar;
      cp, pos := Utf8Codec.NextValid(str, pos);
      FoldStep(t, last, cp, DecodeAll(str[pos..]), maxMulti);
      pending := MapCp(t, Fold, last, cp);
      last := Next(last, cp);
      pendingPos := 0;
    }

    /** ucb_uc_fold_iter_next: hand out the folded text one code point at a
        time, decoding further input only when the buffer is used up. */
    method MoveNext(ghost maxMulti: nat) returns (has: bool, out: scalar)
      requires Valid() && ValidTables(t, maxMulti)
      modifies this
      ensures Valid()
      ensures has <==> old(Remaining()) != []
      ensures has ==> old(Remaining()) == [out] + Remaining()
    {
      if pendingPos >= |pending| {
        if pos >= |str| {
          return false, 0;
        }
        Refill(maxMulti);
      }
      SplitFirst(pending, pendingPos, MapAll(t, Fold, last, DecodeAll(str[pos..])));
      out := pending[pendingPos];
      pendingPos := pendingPos + 1;
      has := true;
    }
  }

  // ---------------------------------------------------------------------------
  // Comparison
  // ---------------------------------------------------------------------------

  /** ucb_uc_icomp. Equal pointers are equal strings. */
  method IComp(t: Tables, a: seq<byte>, b: seq<byte>, samePointer: bool, ghost maxMulti: nat) returns (r: int)
    requires WellFormed(a) && WellFormed(b) && ValidTables(t, maxMulti)
    requires samePointer ==> a == b
    ensures r == Compare(Folded(t, DecodeAll(a)), Folded(t, DecodeAll(b)))
  {
    if samePointer {
      CompareEqual(Folded(t, DecodeAll(a)), Folded(t, DecodeAll(b)));
      return 0;
    }
    var i1 := new FoldIter(t, a);
    var i2 := new FoldIter(t, b);
    ghost var result := Compare(Folded(t, DecodeAll(a)), Folded(t, DecodeAll(b)));
    while true
      invariant fresh(i1) && fresh(i2) && i1 != i2 && i1.Valid() && i2.Valid() && i1.t == i2.t == t
      invariant Compare(i1.Remaining(), i2.Remaining()) == result
      decreases |i1.Remaining()|
    {
      ghost var r1, r2 := i1.Remaining(), i2.Remaining();
      var has1, c1 := i1.MoveNext(maxMulti);
      var has2, c2 := i2.MoveNext(maxMulti);
      if !has1 && !has2 {
        return 0;
      }
      if !has1 {
        return -1;
      }
      if !has2 {
        return 1;
      }
      if c1 != c2 {
        return if c1 > c2 then 1 else -1;
      }
      assert r1[1..] == i1.Remaining() && r2[1..] == i2.Remaining();
    }
  }

  lemma {:induction false} CompareEqual(a: seq<int>, b: seq<int>)
    ensures Compare(a, b) == 0 <==> a == b
  {
    if a != [] && b != [] && a[0] == b[0] {
      CompareEqual(a[1..], b[1..]);
      assert a == [a[0]] + a[1..] && b == [b[0]] + b[1..];
    }
  }

  lemma {:induction false} CompareSymmetric(a: seq<int>, b: seq<int>)
    ensures Compare(b, a) == -Compare(a, b)
  {
    if a != [] && b != [] && a[0] == b[0] {
      CompareSymmetric(a[1..], b[1..]);
    }
  }

  lemma {:induction false} CompareTransitive(a: seq<int>, b: seq<int>, c: seq<int>)
    requires Compare(a, b) <= 0 && Compare(b, c) <= 0
    ensures Compare(a, c) <= 0
    ensures Compare(a, c) == 0 ==> Compare(a, b) == 0 && Compare(b, c) == 0
  {
    if a != [] && b != [] && c != [] && a[0] == b[0] == c[0] {
      CompareTransitive(a[1..], b[1..], c[1..]);
    }
  }

  /** What ucb_uc_icomp returns, by IComp. */
  function ICompValue(t: Tables, a: seq<byte>, b: seq<byte>): int
    requires WellFormed(a) && WellFormed(b)
  {
    Compare(Folded(t, DecodeAll(a)), Folded(t, DecodeAll(b)))
  }

  /** Case-insensitive comparison is a total preorder. */
  lemma ICompIsPreorder(t: Tables, a: seq<byte>, b: seq<byte>, c: seq<byte>)
    requires WellFormed(a) && WellFormed(b) && WellFormed(c)
    ensures ICompValue(t, a, a) == 0
    ensures ICompValue(t, b, a) == -ICompValue(t, a, b)
    ensures ICompValue(t, a, b) <= 0 && ICompValue(t, b, c) <= 0 ==> ICompValue(t, a, c) <= 0
    ensures ICompValue(t, a, b) == 0 <==> Folded(t, DecodeAll(a)) == Folded(t, DecodeAll(b))
  {
    var x, y, z := Folded(t, DecodeAll(a)), Folded(t, DecodeAll(b)), Folded(t, DecodeAll(c));
    CompareEqual(x, x);
    CompareEqual(x, y);
    CompareSymmetric(x, y);
    if Compare(x, y) <= 0 && Compare(y, z) <= 0 {
      CompareTransitive(x, y, z);
    }
  }

  // ---------------------------------------------------------------------------
  // ucb_str_comp
  // ---------------------------------------------------------------------------

  const SIZE_MODULUS: int := 0x1_0000_0000_0000_0000

  /** The conversion of a size_t to int on the common platforms. */
  function ToInt(x: int): (r: int)
    ensures -0x8000_0000 <= r < 0x8000_0000
  {
    var low := x % 0x1_0000_0000;
    if low >= 0x8000_0000 then low - 0x1_0000_0000 else low
  }

  /** ucb_str_comp, memcmp returning the sign: first the common part, then the
      difference of the sizes, which is taken in size_t and truncated to int. */
  function StrComp(a: seq<byte>, b: seq<byte>): int {
    var n := if |a| < |b| then |a| else |b|;
    var cmp := Compare(a[..n], b[..n]);
    if cmp != 0 then cmp else ToInt((|a| - |b|) % SIZE_MODULUS)
  }

  function Sign(x: int): int {
    if x < 0 then -1 else if x > 0 then 1 else 0
  }

  /** The truncated difference of two sizes still has the right sign. */
  predicate SizesComparable(n: nat, m: nat) {
    || n == m
    || (n > m && 0 < (n - m) % 0x1_0000_0000 < 0x8000_0000)
    || (n < m && 0 < (m - n) % 0x1_0000_0000 <= 0x8000_0000)
  }

  lemma LowPart(k: int, r: int)
    requires 0 <= r < 0x1_0000_0000
    ensures (k * 0x1_0000_0000 + r) % 0x1_0000_0000 == r
  {}

  lemma ModMod(d: int)
    ensures d % SIZE_MODULUS % 0x1_0000_0000 == d % 0x1_0000_0000
  {
    var q, r := d / SIZE_MODULUS, d % SIZE_MODULUS;
    var k := r / 0x1_0000_0000;
    LowPart(q * 0x1_0000_0000 + k, r - k * 0x1_0000_0000);
  }

  lemma TruncatedSign(n: nat, m: nat)
    ensures Sign(ToInt((n - m) % SIZE_MODULUS)) == Sign(n - m) <==> SizesComparable(n, m)
  {
    ModMod(n - m);
    var low := (n - m) % 0x1_0000_0000;
    if n < m {
      Complement(m - n);
    }
  }

  lemma Complement(d: int)
    requires d >= 0
    ensures (-d) % 0x1_0000_0000 == if d % 0x1_0000_0000 == 0 then 0 else 0x1_0000_0000 - d % 0x1_0000_0000
  {
  }

  lemma {:induction false} ComparePrefix(a: seq<int>, b: seq<int>)
    ensures var n := if |a| < |b| then |a| else |b|;
            var cmp := Compare(a[..n], b[..n]);
            Compare(a, b) == if cmp != 0 then cmp else Sign(|a| - |b|)
  {
    if a != [] && b != [] && a[0] == b[0] {
      var n := if |a| < |b| then |a| else |b|;
      ComparePrefix(a[1..], b[1..]);
      assert a[..n][1..] == a[1..][..n - 1] && b[..n][1..] == b[1..][..n - 1];
    }
  }

  lemma PrefixCompares(a: seq<int>, b: seq<int>)
    ensures var n := if |a| < |b| then |a| else |b|;
            Compare(a[..n], b[..n]) == 0 <==> a <= b || b <= a
  {
    var n := if |a| < |b| then |a| else |b|;
    CompareEqual(a[..n], b[..n]);
    assert a <= b ==> a[..n] == b[..n];
    assert b <= a ==> a[..n] == b[..n];
  }

  /** ucb_str_comp has the sign of the lexicographic comparison exactly when the
      strings differ in their common part or their sizes are comparable. */
  lemma StrCompSign(a: seq<byte>, b: seq<byte>)
    ensures Sign(StrComp(a, b)) == Compare(a, b) <==>
            (!(a <= b || b <= a) || SizesComparable(|a|, |b|))
  {
    ComparePrefix(a, b);
    TruncatedSign(|a|, |b|);
    PrefixCompares(a, b);
  }

  /** Sizes that differ by 2^32 make a string equal to its proper prefix. */
  lemma StrCompTruncates()
    ensures exists a: seq<byte>, b: seq<byte> :: a != b && StrComp(a, b) == 0
  {
    var a: seq<byte>, b: seq<byte> := seq(0x1_0000_0000, _ => 0x61), [];
    assert a[..0] == b[..0] == [];
    assert StrComp(a, b) == 0 && |a| != |b|;
  }

  /** Folding lazily and comparing code points agrees with folding both strings
      and comparing bytes, unless the folded strings are prefixes of one another
      whose sizes ucb_str_comp cannot compare. */
  lemma LazyAgreesWithBytes(t: Tables, a: seq<byte>, b: seq<byte>)
    requires WellFormed(a) && WellFormed(b)
    ensures var x, y := EncodeAll(Folded(t, DecodeAll(a))), EncodeAll(Folded(t, DecodeAll(b)));
            ICompValue(t, a, b) == Sign(StrComp(x, y)) <==>
            (!(x <= y || y <= x) || SizesComparable(|x|, |y|))
  {
    var fa, fb := Folded(t, DecodeAll(a)), Folded(t, DecodeAll(b));
    EncodeAllOrder(fa, fb);
    StrCompSign(EncodeAll(fa), EncodeAll(fb));
  }
}
