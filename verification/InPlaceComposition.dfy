/** norm_compose (src/ucb/unicode.c): canonical composition in place, on an array
    whose used part shrinks, proved to compute the standard's algorithm. */
module InPlaceComposition {
  import opened Utf8
  import opened Ordering
  import opened Decomposition
  import opened Composition

  ghost predicate NoHangul(s: seq<scalar>) {
    forall i :: 0 <= i < |s| ==> !IsHangul(s[i])
  }

  /** memmove(&cps[i], &cps[i + shift], ...): drop shift elements at i. */
  method Remove(cps: array<scalar>, i: nat, shift: nat, count: nat)
    requires i + shift <= count <= cps.Length
    modifies cps
    ensures cps[..i] == old(cps[..i])
    ensures cps[i..count - shift] == old(cps[i + shift..count])
    ensures forall j :: count <= j < cps.Length ==> cps[j] == old(cps[j])
  {
    var j := i;
    while j < count - shift
      invariant i <= j <= count - shift
      invariant cps[..i] == old(cps[..i])
      invariant forall m :: i <= m < j ==> cps[m] == old(cps[m + shift])
      invariant forall m :: j <= m < cps.Length ==> cps[m] == old(cps[m])
    {
      cps[j] := cps[j + shift];
      j := j + 1;
    }
  }

  /** Put the composite at k and drop the shift elements at i. */
  method Splice(cps: array<scalar>, k: nat, composed: scalar, i: nat, shift: nat, count: nat)
    requires k < i && i + shift <= count <= cps.Length
    modifies cps
    ensures cps[..i] == old(cps[..i])[k := composed]
    ensures cps[i..count - shift] == old(cps[i..count])[shift..]
  {
    cps[k] := composed;
    assert cps[..i] == old(cps[..i])[k := composed];
    assert cps[i + shift..count] == old(cps[i..count])[shift..];
    Remove(cps, i, shift, count);
  }

  /** The loop state: what is composed so far, followed by what is not yet read,
      continues to the whole result. A syllable L V is never followed by a final
      consonant that could still join it. */
  ghost predicate Composing(u: Ucd, done: seq<scalar>, rest: seq<scalar>, all: seq<scalar>) {
    && done != []
    && NoHangul(rest)
    && ComposeFrom(u, done, rest) == all
    && (rest != [] ==> !(IsLV(done[|done| - 1]) && IsTrailing(rest[0])))
  }

  /** L V T: two steps of the algorithm, one step of the loop. */
  lemma HangulStep(u: Ucd, done: seq<scalar>, rest: seq<scalar>, all: seq<scalar>)
    requires ValidUcd(u) && Composing(u, done, rest, all)
    requires rest != [] && IsLeading(done[|done| - 1]) && IsVowel(rest[0])
    ensures var l, v := done[|done| - 1], rest[0];
            var t := if |rest| > 1 && IsTrailing(rest[1]) then rest[1] else 0;
            var shift := if t != 0 then 2 else 1;
            Composing(u, done[|done| - 1 := ComposeHangul(l, v, t)], rest[shift..], all)
  {
    var n := |done| - 1;
    var l, v := done[n], rest[0];
    assert Ccc(u.ccc, l) == 0 && Ccc(u.ccc, v) == 0;
    assert LastStarter(u, done) == n && !Blocked(u, done, n, v);
    var lv := ComposeHangul(l, v, 0);
    var d1 := done[n := lv];
    assert ComposeStep(u, done, v) == d1;
    assert ComposeFrom(u, done, rest) == ComposeFrom(u, d1, rest[1..]);
    LVOf(l, v);
    if |rest| > 1 && IsTrailing(rest[1]) {
      var t := rest[1];
      assert Ccc(u.ccc, lv) == 0 && Ccc(u.ccc, t) == 0;
      assert LastStarter(u, d1) == n && !Blocked(u, d1, n, t);
      assert Pair(u, lv, t) == LVT(lv, t) == ComposeHangul(l, v, t);
      assert ComposeStep(u, d1, t) == d1[n := ComposeHangul(l, v, t)] == done[n := ComposeHangul(l, v, t)];
      assert rest[1..][0] == t && rest[1..][1..] == rest[2..];
      LVTIsNotLV(l, v, t);
    }
  }

  lemma LVOf(l: scalar, v: scalar)
    requires IsLeading(l) && IsVowel(v)
    ensures IsLV(ComposeHangul(l, v, 0))
  {
    HangulDigits(l - 0x1100, v - 0x1161, 0);
  }

  lemma LVTIsNotLV(l: scalar, v: scalar, t: scalar)
    requires IsLeading(l) && IsVowel(v) && IsTrailing(t)
    ensures !IsLV(ComposeHangul(l, v, t))
  {
    HangulDigits(l - 0x1100, v - 0x1161, t - 0x11A7);
  }

  /** Where the backward search of the loop may stop: at position k with a
      composite, or anywhere without one. */
  ghost predicate Passed(u: Ucd, done: seq<scalar>, k: int, c: scalar) {
    && -1 <= k < |done|
    && forall i :: k < i < |done| ==> 0 < Ccc(u.ccc, done[i]) < Ccc(u.ccc, c)
  }

  /** Composing c with the character at k is what the algorithm does. */
  lemma FoundStep(u: Ucd, done: seq<scalar>, rest: seq<scalar>, all: seq<scalar>, k: nat, p: scalar)
    requires ValidUcd(u) && Composing(u, done, rest, all) && rest != []
    requires !(IsLeading(done[|done| - 1]) && IsVowel(rest[0]))
    requires Passed(u, done, k, rest[0]) && 0 != p == Lookup(Entries(u, done[k]), rest[0])
    ensures Composing(u, done[k := p], rest[1..], all)
  {
    var c := rest[0];
    var i := LookupEntry(Entries(u, done[k]), c);
    assert ValidEntry(u, done[k], u.combiners[done[k]][i]);
    assert LastStarter(u, done) == k && !Blocked(u, done, k, c);
    if IsJamo(c) {
      JamoOnlyAdjacent(u, done, k, c);
    }
    assert Pair(u, done[k], c) == p;
    assert ComposeStep(u, done, c) == done[k := p];
    if k < |done| - 1 {
      assert Ccc(u.ccc, done[|done| - 1]) > 0;
    }
  }

  lemma JamoOnlyAdjacent(u: Ucd, done: seq<scalar>, k: nat, c: scalar)
    requires ValidUcd(u) && Passed(u, done, k, c) && k < |done|
    requires IsJamo(c)
    ensures k == |done| - 1
  {
    var last := done[|done| - 1];
    assert Ccc(u.ccc, c) == 0;
  }

  /** Giving up at k, which has no composite with c and blocks whatever precedes
      it, or running out of characters, is what the algorithm does. */
  lemma StuckStep(u: Ucd, done: seq<scalar>, rest: seq<scalar>, all: seq<scalar>, k: int)
    requires ValidUcd(u) && Composing(u, done, rest, all) && rest != []
    requires !(IsLeading(done[|done| - 1]) && IsVowel(rest[0]))
    requires Passed(u, done, k, rest[0])
    requires k >= 0 ==> Lookup(Entries(u, done[k]), rest[0]) == 0
    requires k >= 0 ==> Ccc(u.ccc, done[k]) == 0 || Ccc(u.ccc, done[k]) >= Ccc(u.ccc, rest[0])
    ensures Composing(u, done + [rest[0]], rest[1..], all)
  {
    var c := rest[0];
    var l := LastStarter(u, done);
    if l >= 0 && !Blocked(u, done, l, c) {
      assert l == k;
      if IsJamo(c) {
        JamoOnlyAdjacent(u, done, k, c);
      }
      assert Pair(u, done[k], c) == 0;
    }
    assert ComposeStep(u, done, c) == done + [c];
  }

  lemma ComposeStart(u: Ucd, s: seq<scalar>)
    ensures |s| < 2 ==> Compose(u, s) == s
    ensures |s| > 0 ==> Compose(u, s) == ComposeFrom(u, s[..1], s[1..])
  {
    if s != [] {
      assert ComposeStep(u, [], s[0]) == [] + [s[0]] == s[..1];
      if |s| == 1 {
        assert ComposeFrom(u, s[..1], s[1..]) == s[..1] == s;
      }
    }
  }

  /** norm_compose. Removing an element leaves the index where it is, so the next
      element is looked at from there; count - i shrinks in every turn. */
  method NormCompose(u: Ucd, cps: array<scalar>, count0: nat) returns (count: nat)
    requires ValidUcd(u) && count0 <= cps.Length && NoHangul(cps[..count0])
    modifies cps
    ensures count <= count0 && cps[..count] == Compose(u, old(cps[..count0]))
  {
    count := count0;
    ghost var all := Compose(u, cps[..count]);
    ComposeStart(u, cps[..count]);
    if count < 2 {
      return;
    }
    var i := 1;
    assert cps[..count][..1] == cps[..1] && cps[..count][1..] == cps[1..count];
    while i < count
      invariant 1 <= i <= count <= count0
      invariant Composing(u, cps[..i], cps[i..count], all)
      decreases count - i
    {
      if IsLeading(cps[i - 1]) && IsVowel(cps[i]) {
        count := JoinHangul(u, cps, i, count, all);
        continue;
      }
      i, count := JoinMark(u, cps, i, count, all);
    }
  }

  /** What the backward search finds: the composite at k, or that c stays as it is. */
  ghost predicate Sought(u: Ucd, done: seq<scalar>, k: int, c: scalar, composed: scalar) {
    && Passed(u, done, k, c)
    && (composed != 0 ==> k >= 0)
    && (k >= 0 ==> composed == Lookup(Entries(u, done[k]), c))
    && (composed == 0 && k >= 0 ==> Ccc(u.ccc, done[k]) == 0 || Ccc(u.ccc, done[k]) >= Ccc(u.ccc, c))
  }

  /** The table branch: join cps[i] to a character before it, or move on. */
  method JoinMark(u: Ucd, cps: array<scalar>, i: nat, count: nat, ghost all: seq<scalar>)
    returns (i': nat, count': nat)
    requires ValidUcd(u) && 1 <= i < count <= cps.Length
    requires !(IsLeading(cps[i - 1]) && IsVowel(cps[i]))
    requires Composing(u, cps[..i], cps[i..count], all)
    modifies cps
    ensures i <= i' <= count' <= count && count' - i' < count - i
    ensures Composing(u, cps[..i'], cps[i'..count'], all)
  {
    var k, composed := SeekBack(u, cps, i, count);
    ghost var done, rest := cps[..i], cps[i..count];
    MarkStep(u, done, rest, all, k, composed);
    if composed == 0 {
      OneMore(cps, i, count);
      i', count' := i + 1, count;
    } else {
      i', count' := i, count - 1;
      Splice(cps, k, composed, i, 1, count);
      Same(u, cps[..i'], done[k := composed], cps[i'..count'], rest[1..], all);
    }
  }

  lemma MarkStep(u: Ucd, done: seq<scalar>, rest: seq<scalar>, all: seq<scalar>, k: int, composed: scalar)
    requires ValidUcd(u) && Composing(u, done, rest, all) && rest != []
    requires !(IsLeading(done[|done| - 1]) && IsVowel(rest[0])) && Sought(u, done, k, rest[0], composed)
    ensures composed == 0 ==> Composing(u, done + [rest[0]], rest[1..], all)
    ensures composed != 0 ==> Composing(u, done[k := composed], rest[1..], all)
  {
    if composed == 0 {
      StuckStep(u, done, rest, all, k);
    } else {
      FoundStep(u, done, rest, all, k, composed);
    }
  }

  lemma OneMore(cps: array<scalar>, i: nat, count: nat)
    requires i < count <= cps.Length
    ensures cps[..i + 1] == cps[..i] + [cps[i..count][0]]
    ensures cps[i + 1..count] == cps[i..count][1..]
  {
  }

  lemma Same(u: Ucd, a: seq<scalar>, b: seq<scalar>, c: seq<scalar>, d: seq<scalar>, all: seq<scalar>)
    requires a == b && c == d && Composing(u, b, d, all)
    ensures Composing(u, a, c, all)
  {}

  /** The Hangul branch: join L V or L V T at i - 1 and close the gap. */
  method JoinHangul(u: Ucd, cps: array<scalar>, i: nat, count: nat, ghost all: seq<scalar>) returns (count': nat)
    requires ValidUcd(u) && 1 <= i < count <= cps.Length
    requires IsLeading(cps[i - 1]) && IsVowel(cps[i])
    requires Composing(u, cps[..i], cps[i..count], all)
    modifies cps
    ensures i <= count' < count && Composing(u, cps[..i], cps[i..count'], all)
  {
    ghost var done, rest := cps[..i], cps[i..count];
    HangulStep(u, done, rest, all);
    var t := if i + 1 < count then cps[i + 1] else 0;
    if !IsTrailing(t) {
      t := 0;
    }
    var shift := if t != 0 then 2 else 1;
    var composed := ComposeHangul(cps[i - 1], cps[i], t);
    assert Composing(u, done[i - 1 := composed], rest[shift..], all);
    Splice(cps, i - 1, composed, i, shift, count);
    count' := count - shift;
    Same(u, cps[..i], done[i - 1 := composed], cps[i..count'], rest[shift..], all);
  }

  /** The inner loop: seek back for a character that composes with cps[i]. */
  method SeekBack(u: Ucd, cps: array<scalar>, i: nat, count: nat) returns (k: int, composed: scalar)
    requires ValidUcd(u) && 1 <= i < count <= cps.Length
    ensures Sought(u, cps[..i], k, cps[i], composed)
  {
    k := i - 1;
    while k >= 0
      invariant Passed(u, cps[..i], k, cps[i])
    {
      composed := FindComposite(Entries(u, cps[k]), cps[i]);
      if composed != 0 {
        return;
      }
      var cccI := Ccc(u.ccc, cps[i]);
      var cccK := Ccc(u.ccc, cps[k]);
      if cccK == 0 || cccK >= cccI {
        return;
      }
      k := k - 1;
    }
    composed := 0;
  }
}
