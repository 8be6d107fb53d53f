/** Canonical composition (section 3.11 of the Unicode Standard, D115 to D117):
    the standard's left-to-right algorithm, the pair search of src/ucb/unicode.c
    and the proof that composing preserves canonical equivalence. */
module Composition {
  import opened Utf8
  import opened Ordering
  import opened Decomposition

  // ---------------------------------------------------------------------------
  // Primary composites
  // ---------------------------------------------------------------------------

  /** compose_hangul; trailing is 0 for a syllable without final consonant. */
  function ComposeHangul(l: scalar, v: scalar, trailing: int): (r: scalar)
    requires IsLeading(l) && IsVowel(v) && (trailing == 0 || IsTrailing(trailing))
    ensures IsHangul(r)
    ensures HangulParts(r) == if trailing == 0 then [l, v] else [l, v, trailing]
  {
    var lIdx, vIdx := l - 0x1100, v - 0x1161;
    var tIdx := if trailing != 0 then trailing - 0x11A7 else 0;
    HangulDigits(lIdx, vIdx, tIdx);
    0xAC00 + (lIdx * 21 + vIdx) * 28 + tIdx
  }

  lemma HangulDigits(l: int, v: int, t: int)
    requires 0 <= l < 19 && 0 <= v < 21 && 0 <= t < 28
    ensures var s := (l * 21 + v) * 28 + t;
            0 <= s < 11172 && s % 28 == t && s / 588 == l && (s - t) % 588 / 28 == v
  {
    var s, low := (l * 21 + v) * 28 + t, v * 28 + t;
    assert s == l * 588 + low && 0 <= low < 588;
    assert s / 588 == l && (s - t) % 588 == v * 28;
  }

  /** The entries of one starter, strictly sorted by combiner. */
  predicate Sorted(es: seq<Combiner>) {
    forall i, j :: 0 <= i < j < |es| ==> es[i].combiner < es[j].combiner
  }

  /** What the generator guarantees of a combiner entry (tools/ucparser): it
      inverts a canonical decomposition into a starter and one more character,
      and (as in the Unicode data) the composite is a starter again. */
  ghost predicate ValidCombiners(u: Ucd) {
    && (forall s :: s in u.combiners ==> Sorted(u.combiners[s]))
    && (forall s, i :: s in u.combiners && 0 <= i < |u.combiners[s]| ==>
          ValidEntry(u, s, u.combiners[s][i]))
  }

  predicate ValidEntry(u: Ucd, s: scalar, e: Combiner) {
    && e.composed != 0
    && e.composed in u.decomp
    && u.decomp[e.composed] == Decomp(true, [s, e.combiner])
    && Ccc(u.ccc, s) == 0
    && Ccc(u.ccc, e.composed) == 0
  }

  ghost predicate ValidUcd(u: Ucd) {
    ValidDecomp(u) && ValidCombiners(u)
  }

  function Entries(u: Ucd, s: scalar): seq<Combiner> {
    if s in u.combiners then u.combiners[s] else []
  }

  /** The composite for a pair, 0 if there is none. */
  function Lookup(es: seq<Combiner>, c: scalar): scalar {
    if es == [] then 0 else if es[0].combiner == c then es[0].composed else Lookup(es[1..], c)
  }

  lemma {:induction false} LookupFinds(es: seq<Combiner>, c: scalar, i: nat)
    requires Sorted(es) && i < |es| && es[i].combiner == c
    ensures Lookup(es, c) == es[i].composed
  {
    if i > 0 {
      LookupFinds(es[1..], c, i - 1);
    }
  }

  lemma {:induction false} LookupMisses(es: seq<Combiner>, c: scalar)
    requires forall i :: 0 <= i < |es| ==> es[i].combiner != c
    ensures Lookup(es, c) == 0
  {
    if es != [] {
      LookupMisses(es[1..], c);
    }
  }

  /** norm_compose_cp: the binary search finds the one entry for c, if any. */
  method FindComposite(es: seq<Combiner>, c: scalar) returns (p: scalar)
    requires Sorted(es)
    ensures p == Lookup(es, c)
  {
    var left, right := 0, |es|;
    while left < right
      invariant 0 <= left <= right <= |es|
      invariant forall i :: 0 <= i < left ==> es[i].combiner < c
      invariant forall i :: right <= i < |es| ==> es[i].combiner > c
    {
      var mid := (left + right) / 2;
      if es[mid].combiner < c {
        left := mid + 1;
      } else if es[mid].combiner > c {
        right := mid;
      } else {
        LookupFinds(es, c, mid);
        return es[mid].composed;
      }
    }
    LookupMisses(es, c);
    return 0;
  }

  lemma {:induction false} LookupEntry(es: seq<Combiner>, c: scalar) returns (i: nat)
    requires Lookup(es, c) != 0
    ensures i < |es| && es[i] == Combiner(c, Lookup(es, c))
  {
    if es[0].combiner == c {
      i := 0;
    } else {
      i := LookupEntry(es[1..], c);
      i := i + 1;
    }
  }

  /** A Hangul syllable without a final consonant. */
  predicate IsLV(c: int) {
    IsHangul(c) && (c - 0xAC00) % 28 == 0
  }

  /** The primary composite of a pair, 0 if there is none. */
  function Pair(u: Ucd, s: scalar, c: scalar): scalar {
    if IsLeading(s) && IsVowel(c) then ComposeHangul(s, c, 0)
    else if IsLV(s) && IsTrailing(c) then LVT(s, c)
    else Lookup(Entries(u, s), c)
  }

  function LVT(lv: scalar, t: scalar): (r: scalar)
    requires IsLV(lv) && IsTrailing(t)
    ensures IsHangul(r) && HangulParts(r) == HangulParts(lv) + [t]
  {
    var parts := HangulParts(lv);
    assert ComposeHangul(parts[0], parts[1], 0) == lv by {
      var s: int := lv - 0xAC00;
      assert s == s / 588 * 588 + s % 588 && s % 588 == s % 588 / 28 * 28;
    }
    ComposeHangul(parts[0], parts[1], t)
  }

  /** Composing a pair undoes one step of decomposition. */
  lemma PairDecomposes(u: Ucd, compat: bool, s: scalar, c: scalar)
    requires ValidUcd(u) && Pair(u, s, c) != 0 && IsAtom(u, compat, c)
    ensures FullDecomp(u, compat, Pair(u, s, c)) == FullDecomp(u, compat, s) + [c]
    ensures Ccc(u.ccc, Pair(u, s, c)) == 0
  {
    var p := Pair(u, s, c);
    if IsLeading(s) && IsVowel(c) {
    } else if IsLV(s) && IsTrailing(c) {
    } else {
      var i := LookupEntry(Entries(u, s), c);
      assert ValidEntry(u, s, u.combiners[s][i]);
      assert u.decomp[p].vals == [s, c];
      assert DecompVals(u, compat, p, 2) == [];
      assert DecompVals(u, compat, p, 1) == FullDecomp(u, compat, c) + [];
      assert DecompVals(u, compat, p, 0) == FullDecomp(u, compat, s) + DecompVals(u, compat, p, 1);
    }
  }

  // ---------------------------------------------------------------------------
  // The algorithm of D117
  // ---------------------------------------------------------------------------

  /** Index of the last starter, -1 if there is none. */
  function LastStarter(u: Ucd, s: seq<scalar>): (k: int)
    ensures -1 <= k < |s|
    ensures k >= 0 ==> Ccc(u.ccc, s[k]) == 0
    ensures forall i :: k < i < |s| ==> Ccc(u.ccc, s[i]) != 0
  {
    if s == [] then -1
    else if Ccc(u.ccc, s[|s| - 1]) == 0 then |s| - 1
    else LastStarter(u, s[..|s| - 1])
  }

  /** D115: something between position k and a following c is a starter or has at
      least the class of c. */
  predicate Blocked(u: Ucd, s: seq<scalar>, k: int, c: scalar) {
    exists i :: 0 <= k < i < |s| && (Ccc(u.ccc, s[i]) == 0 || Ccc(u.ccc, s[i]) >= Ccc(u.ccc, c))
  }

  /** D117 for one character c behind the text out composed so far. */
  function ComposeStep(u: Ucd, out: seq<scalar>, c: scalar): seq<scalar> {
    var k := LastStarter(u, out);
    if k >= 0 && !Blocked(u, out, k, c) && Pair(u, out[k], c) != 0
    then out[k := Pair(u, out[k], c)]
    else out + [c]
  }

  function ComposeFrom(u: Ucd, out: seq<scalar>, rest: seq<scalar>): seq<scalar>
    decreases |rest|
  {
    if rest == [] then out else ComposeFrom(u, ComposeStep(u, out, rest[0]), rest[1..])
  }

  /** The Canonical Composition Algorithm on a decomposed, ordered text. */
  function Compose(u: Ucd, s: seq<scalar>): seq<scalar> {
    ComposeFrom(u, [], s)
  }

  // ---------------------------------------------------------------------------
  // What composing does
  // ---------------------------------------------------------------------------

  /** The composite of a pair: jamo by arithmetic, any other pair by its table entry. */
  lemma PairMeans(u: Ucd, s: scalar, c: scalar)
    requires ValidCombiners(u)
    ensures 0x1100 <= s <= 0x1112 && 0x1161 <= c <= 0x1175 ==>
              Pair(u, s, c) == 0xAC00 + ((s - 0x1100) * 21 + (c - 0x1161)) * 28
    ensures 0xAC00 <= s <= 0xD7A3 && (s - 0xAC00) % 28 == 0 && 0x11A8 <= c <= 0x11C2 ==>
              Pair(u, s, c) == s + (c - 0x11A7)
    ensures !(0x1161 <= c <= 0x1175) && !(0x11A8 <= c <= 0x11C2) && s in u.combiners ==>
              forall i :: 0 <= i < |u.combiners[s]| && u.combiners[s][i].combiner == c ==>
                Pair(u, s, c) == u.combiners[s][i].composed != 0
    ensures !(0x1161 <= c <= 0x1175) && !(0x11A8 <= c <= 0x11C2) && Pair(u, s, c) != 0 ==>
              s in u.combiners && exists i :: 0 <= i < |u.combiners[s]| && u.combiners[s][i] == Combiner(c, Pair(u, s, c))
  {
    if IsVowel(c) {
    } else if IsTrailing(c) {
      if IsLV(s) {
        LVTSum(s, c);
      }
    } else {
      if s in u.combiners {
        forall i | 0 <= i < |u.combiners[s]| && u.combiners[s][i].combiner == c
          ensures Pair(u, s, c) == u.combiners[s][i].composed != 0 {
          LookupFinds(u.combiners[s], c, i);
          assert ValidEntry(u, s, u.combiners[s][i]);
        }
      }
      if Pair(u, s, c) != 0 {
        var i := LookupEntry(Entries(u, s), c);
      }
    }
  }

  lemma LVTSum(lv: scalar, t: scalar)
    requires IsLV(lv) && IsTrailing(t)
    ensures LVT(lv, t) == lv + (t - 0x11A7)
  {
    HangulSum(lv);
    HangulSum(LVT(lv, t));
    var parts := HangulParts(lv);
    assert |parts| == 2 && (parts + [t])[0] == parts[0] && (parts + [t])[1] == parts[1] && (parts + [t])[2] == t;
  }

  /** c reaches over ms: they are marks of lower classes. */
  predicate Reaches(u: Ucd, ms: seq<scalar>, c: scalar) {
    forall i :: 0 <= i < |ms| ==> 0 < Ccc(u.ccc, ms[i]) < Ccc(u.ccc, c)
  }

  lemma {:induction false} LastStarterAt(u: Ucd, x: seq<scalar>, s: scalar, ms: seq<scalar>)
    requires Ccc(u.ccc, s) == 0 && forall i :: 0 <= i < |ms| ==> Ccc(u.ccc, ms[i]) > 0
    ensures LastStarter(u, x + [s] + ms) == |x|
    decreases |ms|
  {
    var out := x + [s] + ms;
    if ms == [] {
      assert out[|out| - 1] == s;
    } else {
      var pre := ms[..|ms| - 1];
      assert out[|out| - 1] == ms[|ms| - 1] && out[..|out| - 1] == x + [s] + pre;
      LastStarterAt(u, x, s, pre);
    }
  }

  /** D117: a character that reaches over marks of lower classes to a starter with which
      it has a composite replaces the starter by the composite. */
  lemma StepJoins(u: Ucd, x: seq<scalar>, s: scalar, ms: seq<scalar>, c: scalar)
    requires Ccc(u.ccc, s) == 0 && Reaches(u, ms, c) && Pair(u, s, c) != 0
    ensures ComposeStep(u, x + [s] + ms, c) == x + [Pair(u, s, c)] + ms
  {
    var out := x + [s] + ms;
    LastStarterAt(u, x, s, ms);
    assert out[|x|] == s && forall i :: |x| < i < |out| ==> out[i] == ms[i - |x| - 1];
    assert out[|x| := Pair(u, s, c)] == x + [Pair(u, s, c)] + ms;
  }

  /** Any other character is put behind. */
  lemma StepKeeps(u: Ucd, out: seq<scalar>, c: scalar)
    requires forall x: seq<scalar>, s: scalar, ms: seq<scalar> :: out == x + [s] + ms && Ccc(u.ccc, s) == 0 && Reaches(u, ms, c) ==> Pair(u, s, c) == 0
    ensures ComposeStep(u, out, c) == out + [c]
  {
    var k := LastStarter(u, out);
    if k >= 0 && !Blocked(u, out, k, c) {
      Unblocked(u, out, k, c);
      assert out == out[..k] + [out[k]] + out[k + 1..];
    }
  }

  lemma Unblocked(u: Ucd, out: seq<scalar>, k: nat, c: scalar)
    requires k < |out| && k == LastStarter(u, out) && !Blocked(u, out, k, c)
    ensures Reaches(u, out[k + 1..], c)
  {
    var ms := out[k + 1..];
    forall i | 0 <= i < |ms| ensures 0 < Ccc(u.ccc, ms[i]) < Ccc(u.ccc, c) {
      assert ms[i] == out[k + 1 + i];
    }
  }

  /** A text is composed character by character. */
  lemma {:induction false} ComposeSnoc(u: Ucd, out: seq<scalar>, s: seq<scalar>, c: scalar)
    ensures ComposeFrom(u, out, s + [c]) == ComposeStep(u, ComposeFrom(u, out, s), c)
    decreases |s|
  {
    if s == [] {
      assert (s + [c])[0] == c && (s + [c])[1..] == [];
    } else {
      assert (s + [c])[0] == s[0] && (s + [c])[1..] == s[1..] + [c];
      ComposeSnoc(u, ComposeStep(u, out, s[0]), s[1..], c);
    }
  }

  /** Jamo compose to the syllable, behind any text with which the first does not compose. */
  lemma JamoCompose(u: Ucd, s: seq<scalar>, l: scalar, v: scalar, t: scalar)
    requires ValidUcd(u) && IsLeading(l) && IsVowel(v) && IsTrailing(t)
    requires Compose(u, s + [l]) == Compose(u, s) + [l]
    ensures Compose(u, s + [l, v]) == Compose(u, s) + [ComposeHangul(l, v, 0)]
    ensures Compose(u, s + [l, v, t]) == Compose(u, s) + [ComposeHangul(l, v, t)]
  {
    var done := Compose(u, s);
    var lv := ComposeHangul(l, v, 0);
    HangulDigits(l - 0x1100, v - 0x1161, 0);
    assert s + [l, v] == (s + [l]) + [v] && s + [l, v, t] == (s + [l, v]) + [t];
    ComposeSnoc(u, [], s + [l], v);
    ComposeSnoc(u, [], s + [l, v], t);
    StepJoins(u, done, l, [], v);
    assert done + [l] + [] == done + [l] && done + [lv] + [] == done + [lv];
    StepJoins(u, done, lv, [], t);
    var lvt := ComposeHangul(l, v, t);
    LVTSum(lv, t);
    assert done + [lvt] + [] == done + [lvt];
  }

  /** A text in which no character has a composite with a later one stays as it is. */
  lemma {:induction false} NothingComposes(u: Ucd, s: seq<scalar>)
    requires forall i, j :: 0 <= i < j < |s| ==> Pair(u, s[i], s[j]) == 0
    ensures Compose(u, s) == s
  {
    if s != [] {
      var pre, c := s[..|s| - 1], s[|s| - 1];
      assert s == pre + [c];
      NothingComposes(u, pre);
      ComposeSnoc(u, [], pre, c);
      assert forall i :: 0 <= i < |pre| ==> pre[i] == s[i];
      var k := LastStarter(u, pre);
      assert k >= 0 ==> Pair(u, s[k], s[|s| - 1]) == 0;
    }
  }

  // ---------------------------------------------------------------------------
  // Composition preserves canonical equivalence
  // ---------------------------------------------------------------------------

  /** Whatever is not a starter is still as it was in the input. */
  predicate MarksAreAtoms(u: Ucd, compat: bool, s: seq<scalar>) {
    forall i :: 0 <= i < |s| && Ccc(u.ccc, s[i]) != 0 ==> IsAtom(u, compat, s[i])
  }

  lemma StepKeepsMarks(u: Ucd, compat: bool, out: seq<scalar>, c: scalar)
    requires ValidUcd(u) && IsAtom(u, compat, c) && MarksAreAtoms(u, compat, out)
    ensures MarksAreAtoms(u, compat, ComposeStep(u, out, c))
  {
    var k := LastStarter(u, out);
    if k >= 0 && Pair(u, out[k], c) != 0 {
      PairDecomposes(u, compat, out[k], c);
      var p := Pair(u, out[k], c);
      var r := out[k := p];
      forall i | 0 <= i < |r| && Ccc(u.ccc, r[i]) != 0 ensures IsAtom(u, compat, r[i]) {
        assert r[i] == out[i];
      }
    }
  }

  lemma StepPreserves(u: Ucd, compat: bool, out: seq<scalar>, c: scalar)
    requires ValidUcd(u) && IsAtom(u, compat, c) && MarksAreAtoms(u, compat, out)
    ensures Equivalent(u.ccc, DecompAll(u, compat, ComposeStep(u, out, c)), DecompAll(u, compat, out) + [c])
  {
    var k := LastStarter(u, out);
    if k >= 0 && !Blocked(u, out, k, c) && Pair(u, out[k], c) != 0 {
      var p := Pair(u, out[k], c);
      PairDecomposes(u, compat, out[k], c);
      MarksBetween(u, compat, out, k, c);
      SplitAt(out, k, p);
      SplitAt(out, k, out[k]);
      CompositePreserves(u, compat, out[..k], out[k], out[k + 1..], c, p);
    } else {
      DecompAllConcat(u, compat, out, [c]);
      DecompAllOne(u, compat, c);
    }
  }

  lemma MarksBetween(u: Ucd, compat: bool, out: seq<scalar>, k: nat, c: scalar)
    requires MarksAreAtoms(u, compat, out)
    requires k == LastStarter(u, out) && !Blocked(u, out, k, c)
    ensures var ms := out[k + 1..];
            && AllAtoms(u, compat, ms)
            && (ms != [] ==> Ccc(u.ccc, c) != 0)
            && forall i :: 0 <= i < |ms| ==> OtherMark(u.ccc, ms[i], Ccc(u.ccc, c))
  {
    var ms := out[k + 1..];
    forall i | 0 <= i < |ms|
      ensures IsAtom(u, compat, ms[i]) && OtherMark(u.ccc, ms[i], Ccc(u.ccc, c)) && Ccc(u.ccc, c) != 0
    {
      assert ms[i] == out[k + 1 + i];
    }
  }

  lemma SplitAt(s: seq<scalar>, k: nat, p: scalar)
    requires k < |s|
    ensures s[k := p] == s[..k] + ([p] + s[k + 1..])
    ensures s[k := s[k]] == s
  {
  }

  /** The marks ms between s and c have classes below that of c, so c may move in
      front of them and join s. */
  lemma CompositePreserves(u: Ucd, compat: bool, pre: seq<scalar>, s: scalar, ms: seq<scalar>, c: scalar, p: scalar)
    requires ValidUcd(u) && AllAtoms(u, compat, ms)
    requires ms != [] ==> Ccc(u.ccc, c) != 0
    requires forall i :: 0 <= i < |ms| ==> OtherMark(u.ccc, ms[i], Ccc(u.ccc, c))
    requires FullDecomp(u, compat, p) == FullDecomp(u, compat, s) + [c]
    ensures Equivalent(u.ccc, DecompAll(u, compat, pre + ([p] + ms)), DecompAll(u, compat, pre + ([s] + ms)) + [c])
  {
    AtomsFixed(u, compat, ms);
    MarksCommute(u.ccc, c, ms);
    DecompSplit(u, compat, pre, p, ms);
    DecompSplit(u, compat, pre, s, ms);
    var a, d := DecompAll(u, compat, pre), FullDecomp(u, compat, s);
    EquivalentConcat(u.ccc, a + d, a + d, [c] + ms, ms + [c]);
    Regroup(a, d, [c], ms);
    Regroup(a, d, ms, [c]);
  }

  lemma Regroup(a: seq<scalar>, b: seq<scalar>, c: seq<scalar>, d: seq<scalar>)
    ensures a + (b + c) + d == (a + b) + (c + d)
    ensures a + b + c + d == (a + b) + (c + d)
  {
  }

  lemma DecompSplit(u: Ucd, compat: bool, pre: seq<scalar>, s: scalar, ms: seq<scalar>)
    requires ValidDecomp(u)
    ensures DecompAll(u, compat, pre + ([s] + ms)) ==
            DecompAll(u, compat, pre) + FullDecomp(u, compat, s) + DecompAll(u, compat, ms)
  {
    DecompAllConcat(u, compat, pre, [s] + ms);
    DecompAllConcat(u, compat, [s], ms);
    DecompAllOne(u, compat, s);
  }

  lemma OneByOne(d: seq<scalar>, rest: seq<scalar>)
    requires rest != []
    ensures d + [rest[0]] + rest[1..] == d + rest
  {
  }

  lemma {:induction false} ComposeFromPreserves(u: Ucd, compat: bool, out: seq<scalar>, rest: seq<scalar>)
    requires ValidUcd(u) && AllAtoms(u, compat, rest) && MarksAreAtoms(u, compat, out)
    ensures Equivalent(u.ccc, DecompAll(u, compat, ComposeFrom(u, out, rest)), DecompAll(u, compat, out) + rest)
    decreases |rest|
  {
    var d := DecompAll(u, compat, out);
    if rest == [] {
      assert d + rest == d;
    } else {
      var c, more := rest[0], rest[1..];
      StepPreserves(u, compat, out, c);
      StepKeepsMarks(u, compat, out, c);
      var next := ComposeStep(u, out, c);
      ComposeFromPreserves(u, compat, next, more);
      EquivalentConcat(u.ccc, DecompAll(u, compat, next), d + [c], more, more);
      OneByOne(d, rest);
    }
  }

  /** Decomposing and reordering a composed text gives back the text that was
      composed, for every fully decomposed, canonically ordered text. */
  lemma ComposePreserves(u: Ucd, compat: bool, x: seq<scalar>)
    requires ValidUcd(u) && AllAtoms(u, compat, x) && Ordered(u.ccc, x)
    ensures Reorder(u.ccc, DecompAll(u, compat, Compose(u, x))) == x
  {
    ComposeFromPreserves(u, compat, [], x);
    assert DecompAll(u, compat, []) + x == x;
    var d := DecompAll(u, compat, Compose(u, x));
    EquivalentIffReorder(u.ccc, d, x);
    ReorderFixesOrdered(u.ccc, x);
  }

  // ---------------------------------------------------------------------------
  // The assumptions on the tables
  // ---------------------------------------------------------------------------

  /** A with ring above, and the classes of two marks, as in the Unicode data. */
  function SampleUcd(): Ucd {
    Ucd(map[0x325 := 220, 0x30A := 230], map[0xC5 := Decomp(true, [0x41, 0x30A])],
        map[0xC5 := 1], map[0x41 := [Combiner(0x30A, 0xC5)]])
  }

  /** The assumptions can be met. */
  lemma SampleIsValid()
    ensures ValidUcd(SampleUcd())
  {
    var u := SampleUcd();
    assert ValidEntry(u, 0x41, u.combiners[0x41][0]);
    assert u.decomp[0xC5].vals == [0x41, 0x30A];
  }

  /** On the sample, composition reaches over a mark of a lower class. */
  lemma SampleKeeps()
    ensures ComposeStep(SampleUcd(), [0x41], 0x325) == [0x41, 0x325]
  {
    var u := SampleUcd();
    assert LastStarter(u, [0x41]) == 0 && Pair(u, 0x41, 0x325) == Lookup([], 0x325) == 0;
  }

  lemma SampleJoins()
    ensures ComposeStep(SampleUcd(), [0x41, 0x325], 0x30A) == [0xC5, 0x325]
  {
    var u := SampleUcd();
    var b: seq<scalar> := [0x41, 0x325];
    assert b[..1] == [0x41] && LastStarter(u, b) == 0 && !Blocked(u, b, 0, 0x30A);
  }

  lemma SampleComposes()
    ensures Compose(SampleUcd(), [0x41, 0x325, 0x30A]) == [0xC5, 0x325]
  {
    var u := SampleUcd();
    var a, b: seq<scalar> := [0x41], [0x41, 0x325];
    assert ComposeStep(u, [], 0x41) == [] + [0x41] == a;
    SampleKeeps();
    SampleJoins();
    Unfold(u, a, [0x325, 0x30A]);
    Unfold(u, b, [0x30A]);
    Unfold(u, [], [0x41, 0x325, 0x30A]);
  }

  lemma Unfold(u: Ucd, out: seq<scalar>, rest: seq<scalar>)
    requires rest != []
    ensures ComposeFrom(u, out, rest) == ComposeFrom(u, ComposeStep(u, out, rest[0]), rest[1..])
  {
  }
}
