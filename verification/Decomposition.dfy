/** Full decomposition (src/ucb/unicode.c, section 3.7 and 3.12 of the Unicode
    Standard) over arbitrary tables, and the facts about the generated tables
    that the proofs rely on. */
module Decomposition {
  import opened Utf8
  import opened Ordering

  datatype Decomp = Decomp(canonical: bool, vals: seq<scalar>)

  datatype Combiner = Combiner(combiner: scalar, composed: scalar)

  /** The normalization part of the generated tables. The depth column is the
      witness that decomposition is well founded. */
  datatype Ucd = Ucd(
    ccc: Classes,
    decomp: map<scalar, Decomp>,
    depth: map<scalar, nat>,
    combiners: map<scalar, seq<Combiner>>)

  predicate IsHangul(c: int) {
    0xAC00 <= c <= 0xD7A3
  }

  predicate IsLeading(c: int) {
    0x1100 <= c <= 0x1112
  }

  predicate IsVowel(c: int) {
    0x1161 <= c <= 0x1175
  }

  predicate IsTrailing(c: int) {
    0x11A8 <= c <= 0x11C2
  }

  predicate IsJamo(c: int) {
    IsLeading(c) || IsVowel(c) || IsTrailing(c)
  }

  function Depth(u: Ucd, c: scalar): nat {
    if c in u.depth then u.depth[c] else 0
  }

  /** Decompositions are well founded and never involve Hangul syllables; jamo
      do not decompose and, like the syllables, are starters. */
  ghost predicate ValidDecomp(u: Ucd) {
    && (forall c :: c in u.decomp ==> !IsHangul(c) && !IsJamo(c))
    && (forall c, i :: c in u.decomp && 0 <= i < |u.decomp[c].vals| ==>
          !IsHangul(u.decomp[c].vals[i]) && Depth(u, u.decomp[c].vals[i]) < Depth(u, c))
    && (forall c :: IsJamo(c) || IsHangul(c) ==> Ccc(u.ccc, c) == 0)
  }

  /** Does c decompose in this mode? Compatibility mode follows every mapping,
      canonical mode only the canonical ones. */
  predicate Decomposes(u: Ucd, compat: bool, c: scalar) {
    c in u.decomp && (u.decomp[c].canonical || compat)
  }

  /** norm_decompose_hangul: the jamo of a syllable. */
  function HangulParts(c: scalar): (parts: seq<scalar>)
    requires IsHangul(c)
    ensures 2 <= |parts| <= 3 && IsLeading(parts[0]) && IsVowel(parts[1])
    ensures |parts| == 3 ==> IsTrailing(parts[2])
  {
    var s: int := c - 0xAC00;
    var t := s % 28;
    var v := (s - t) % 588 / 28;
    var l := s / 588;
    if t == 0 then [0x1100 + l, 0x1161 + v] else [0x1100 + l, 0x1161 + v, 0x11A7 + t]
  }

  /** The full decomposition of one code point. */
  function FullDecomp(u: Ucd, compat: bool, c: scalar): seq<scalar>
    requires ValidDecomp(u)
    decreases Depth(u, c), 1, 0
  {
    if IsHangul(c) then HangulParts(c)
    else if Decomposes(u, compat, c) then DecompVals(u, compat, c, 0)
    else [c]
  }

  /** The full decomposition of the mapping of c, from its i-th value on. */
  function DecompVals(u: Ucd, compat: bool, c: scalar, i: nat): seq<scalar>
    requires ValidDecomp(u) && c in u.decomp && i <= |u.decomp[c].vals|
    decreases Depth(u, c), 0, |u.decomp[c].vals| - i
  {
    var vals := u.decomp[c].vals;
    if i == |vals| then [] else FullDecomp(u, compat, vals[i]) + DecompVals(u, compat, c, i + 1)
  }

  function DecompAll(u: Ucd, compat: bool, s: seq<scalar>): seq<scalar>
    requires ValidDecomp(u)
  {
    if s == [] then [] else FullDecomp(u, compat, s[0]) + DecompAll(u, compat, s[1..])
  }

  /** c is its own full decomposition. */
  predicate IsAtom(u: Ucd, compat: bool, c: scalar) {
    !IsHangul(c) && !Decomposes(u, compat, c)
  }

  predicate AllAtoms(u: Ucd, compat: bool, s: seq<scalar>) {
    forall i :: 0 <= i < |s| ==> IsAtom(u, compat, s[i])
  }

  lemma {:induction false} DecompAllConcat(u: Ucd, compat: bool, a: seq<scalar>, b: seq<scalar>)
    requires ValidDecomp(u)
    ensures DecompAll(u, compat, a + b) == DecompAll(u, compat, a) + DecompAll(u, compat, b)
  {
    if a == [] {
      assert a + b == b;
    } else {
      assert (a + b)[1..] == a[1..] + b;
      DecompAllConcat(u, compat, a[1..], b);
    }
  }

  lemma DecompAllOne(u: Ucd, compat: bool, c: scalar)
    requires ValidDecomp(u)
    ensures DecompAll(u, compat, [c]) == FullDecomp(u, compat, c)
  {
    assert DecompAll(u, compat, [c]) == FullDecomp(u, compat, c) + DecompAll(u, compat, []);
  }

  lemma {:induction false} DecompValsAll(u: Ucd, compat: bool, c: scalar, i: nat)
    requires ValidDecomp(u) && c in u.decomp && i <= |u.decomp[c].vals|
    ensures DecompVals(u, compat, c, i) == DecompAll(u, compat, u.decomp[c].vals[i..])
    decreases |u.decomp[c].vals| - i
  {
    var vals := u.decomp[c].vals;
    if i < |vals| {
      DecompValsAll(u, compat, c, i + 1);
      assert vals[i..][0] == vals[i] && vals[i..][1..] == vals[i + 1..];
    }
  }

  /** What each code point decomposes to: a code point with a mapping to the
      decompositions of all values of the mapping, if the mapping is canonical or
      compatibility mappings are wanted; a syllable to its jamo; any other to itself. */
  lemma FullDecompMeans(u: Ucd, compat: bool, c: scalar)
    requires ValidDecomp(u)
    ensures c in u.decomp && (u.decomp[c].canonical || compat) ==>
              FullDecomp(u, compat, c) == DecompAll(u, compat, u.decomp[c].vals)
    ensures 0xAC00 <= c <= 0xD7A3 ==>
              var jamo := FullDecomp(u, compat, c);
              && 2 <= |jamo| <= 3 && 0x1100 <= jamo[0] <= 0x1112 && 0x1161 <= jamo[1] <= 0x1175
              && (|jamo| == 3 ==> 0x11A8 <= jamo[2] <= 0x11C2)
              && c == 0xAC00 + ((jamo[0] - 0x1100) * 21 + (jamo[1] - 0x1161)) * 28
                    + (if |jamo| == 3 then jamo[2] - 0x11A7 else 0)
    ensures !(0xAC00 <= c <= 0xD7A3) && !(c in u.decomp && (u.decomp[c].canonical || compat)) ==>
              FullDecomp(u, compat, c) == [c]
  {
    if 0xAC00 <= c <= 0xD7A3 {
      HangulSum(c);
    } else if c in u.decomp && (u.decomp[c].canonical || compat) {
      DecompValsAll(u, compat, c, 0);
      assert u.decomp[c].vals[0..] == u.decomp[c].vals;
    }
  }

  lemma HangulSum(c: scalar)
    requires IsHangul(c)
    ensures var jamo := HangulParts(c);
            c == 0xAC00 + ((jamo[0] - 0x1100) * 21 + (jamo[1] - 0x1161)) * 28 + (if |jamo| == 3 then jamo[2] - 0x11A7 else 0)
  {
    var s: int := c - 0xAC00;
    var low := s % 588;
    assert s == s / 588 * 588 + low;
    assert low % 28 == s % 28;
    assert (s - s % 28) % 588 == low - low % 28;
  }

  /** Decomposition is complete: nothing in its result decomposes further. */
  lemma {:induction false} FullDecompAtoms(u: Ucd, compat: bool, c: scalar)
    requires ValidDecomp(u)
    ensures AllAtoms(u, compat, FullDecomp(u, compat, c))
    decreases Depth(u, c), 1, 0
  {
    if IsHangul(c) {
      assert forall x :: IsJamo(x) ==> !IsHangul(x);
    } else if Decomposes(u, compat, c) {
      DecompValsAtoms(u, compat, c, 0);
    }
  }

  lemma {:induction false} DecompValsAtoms(u: Ucd, compat: bool, c: scalar, i: nat)
    requires ValidDecomp(u) && c in u.decomp && i <= |u.decomp[c].vals|
    ensures AllAtoms(u, compat, DecompVals(u, compat, c, i))
    decreases Depth(u, c), 0, |u.decomp[c].vals| - i
  {
    if i < |u.decomp[c].vals| {
      FullDecompAtoms(u, compat, u.decomp[c].vals[i]);
      DecompValsAtoms(u, compat, c, i + 1);
    }
  }

  lemma {:induction false} DecompAllAtoms(u: Ucd, compat: bool, s: seq<scalar>)
    requires ValidDecomp(u)
    ensures AllAtoms(u, compat, DecompAll(u, compat, s))
  {
    if s != [] {
      FullDecompAtoms(u, compat, s[0]);
      DecompAllAtoms(u, compat, s[1..]);
    }
  }

  /** Decomposition leaves exactly the texts of atoms alone: no chain of mappings
      leads back to its start. */
  lemma {:induction false} DecompAllFixesAtoms(u: Ucd, compat: bool, s: seq<scalar>)
    requires ValidDecomp(u)
    ensures AllAtoms(u, compat, s) <==> DecompAll(u, compat, s) == s
  {
    if AllAtoms(u, compat, s) {
      AtomsFixed(u, compat, s);
    } else {
      DecompAllAtoms(u, compat, s);
    }
  }

  lemma {:induction false} AtomsFixed(u: Ucd, compat: bool, s: seq<scalar>)
    requires ValidDecomp(u) && AllAtoms(u, compat, s)
    ensures DecompAll(u, compat, s) == s
  {
    if s != [] {
      AtomsFixed(u, compat, s[1..]);
      assert s == [s[0]] + s[1..];
    }
  }
}
