/** Segmentation of UTF-8 byte strings (src/ucb/unicode.c): the single forward
    pass, the pass that resumes at a boundary by scanning backwards over bytes,
    and the indexed lookup, all proved to walk the boundaries of module Grapheme. */
module GraphemeScan {
  import opened Utf8
  import G = Grapheme
  import Utf8Codec

  type Table = map<scalar, G.Prop>

  /** ucb_uc_get_prop: code points without an entry share the default entry. */
  function PropOf(table: Table, cp: scalar): G.Prop {
    if cp in table then table[cp] else G.Prop(G.Other, false, G.NoIncb)
  }

  ghost predicate ValidTable(table: Table) {
    forall cp :: cp in table && table[cp].extpict ==> table[cp].gcb == G.Other
  }

  function Props(table: Table, cps: seq<scalar>): (ps: seq<G.Prop>)
    ensures |ps| == |cps|
    ensures forall i :: 0 <= i < |cps| ==> ps[i] == PropOf(table, cps[i])
  {
    seq(|cps|, i requires 0 <= i < |cps| => PropOf(table, cps[i]))
  }

  /** cps is the decoded string s, and ps holds the properties of cps. */
  ghost predicate IsText(table: Table, s: seq<byte>, cps: seq<scalar>, ps: seq<G.Prop>) {
    && s == EncodeAll(cps)
    && |ps| == |cps|
    && (forall i :: 0 <= i < |cps| ==> ps[i] == PropOf(table, cps[i]))
    && G.PictographsAreOther(ps)
  }

  // ---------------------------------------------------------------------------
  // Byte offsets of code points
  // ---------------------------------------------------------------------------

  /** Where the k-th code point starts. */
  function Offset(cps: seq<scalar>, k: nat): nat
    requires k <= |cps|
  {
    |EncodeAll(cps[..k])|
  }

  lemma EncodeSplit(cps: seq<scalar>, k: nat)
    requires k < |cps|
    ensures EncodeAll(cps[..k + 1]) == EncodeAll(cps[..k]) + Encode(cps[k])
    ensures EncodeAll(cps) == EncodeAll(cps[..k]) + Encode(cps[k]) + EncodeAll(cps[k + 1..])
  {
    TakeDrop(cps, k);
    Utf8Codec.EncodeAllSnoc(cps[..k], cps[k]);
    EncodeAllConcat(cps[..k + 1], cps[k + 1..]);
  }

  lemma TakeDrop(cps: seq<scalar>, k: nat)
    requires k < |cps|
    ensures cps[..k + 1] == cps[..k] + [cps[k]]
    ensures cps == cps[..k + 1] + cps[k + 1..]
  {
  }

  lemma OffsetStep(cps: seq<scalar>, k: nat)
    requires k < |cps|
    ensures Offset(cps, k) < Offset(cps, k + 1) == Offset(cps, k) + |Encode(cps[k])| <= |EncodeAll(cps)|
    ensures EncodeAll(cps)[Offset(cps, k)..] == Encode(cps[k]) + EncodeAll(cps[k + 1..])
    ensures EncodeAll(cps)[Offset(cps, k)..Offset(cps, k + 1)] == Encode(cps[k])
  {
    EncodeSplit(cps, k);
    SliceConcat(EncodeAll(cps[..k]), Encode(cps[k]), EncodeAll(cps[k + 1..]));
  }

  lemma SliceConcat(pre: seq<byte>, c: seq<byte>, post: seq<byte>)
    ensures ((pre + c) + post)[|pre|..] == c + post
    ensures ((pre + c) + post)[|pre|..|pre| + |c|] == c
  {
  }

  lemma OffsetEnds(cps: seq<scalar>)
    ensures Offset(cps, 0) == 0 && Offset(cps, |cps|) == |EncodeAll(cps)|
  {
    assert cps[..0] == [] && cps[..|cps|] == cps;
  }

  lemma {:induction false} OffsetMonotone(cps: seq<scalar>, j: nat, k: nat)
    requires j < k <= |cps|
    ensures Offset(cps, j) < Offset(cps, k)
  {
    OffsetStep(cps, k - 1);
    if j < k - 1 {
      OffsetMonotone(cps, j, k - 1);
    }
  }

  lemma OffsetAtEnd(cps: seq<scalar>, k: nat)
    requires k <= |cps|
    ensures Offset(cps, k) <= |EncodeAll(cps)|
    ensures Offset(cps, k) == |EncodeAll(cps)| <==> k == |cps|
  {
    OffsetEnds(cps);
    if k < |cps| {
      OffsetMonotone(cps, k, |cps|);
    }
  }

  lemma OffsetInjective(cps: seq<scalar>, j: nat, k: nat)
    requires j <= |cps| && k <= |cps| && Offset(cps, j) == Offset(cps, k)
    ensures j == k
  {
    if j < k {
      OffsetMonotone(cps, j, k);
    } else if k < j {
      OffsetMonotone(cps, k, j);
    }
  }

  /** Only the first byte of an encoded scalar is not a continuation byte. */
  lemma ContinuationBytes(cp: scalar)
    ensures Encode(cp)[0] / 64 != 2
    ensures forall i :: 0 < i < |Encode(cp)| ==> Encode(cp)[i] / 64 == 2
  {
    Digits(cp);
  }

  // ---------------------------------------------------------------------------
  // Moving over bytes
  // ---------------------------------------------------------------------------

  /** ucb_uc_prop_at */
  method PropAt(table: Table, s: seq<byte>, start: nat, ghost cps: seq<scalar>, ghost k: nat)
    returns (p: G.Prop, end: nat)
    requires s == EncodeAll(cps) && k < |cps| && start == Offset(cps, k)
    ensures p == PropOf(table, cps[k]) && end == Offset(cps, k + 1) <= |s|
  {
    OffsetStep(cps, k);
    FetchEncode(cps[k], EncodeAll(cps[k + 1..]));
    var rest := s[start..];
    var cp: scalar := FetchAt(rest);
    p := PropOf(table, cp);
    end := start + LeadLen(rest[0]);
  }

  /** Only the first byte of a code point is not a continuation byte. */
  lemma CodePointBytes(s: seq<byte>, cps: seq<scalar>, k: nat)
    requires s == EncodeAll(cps) && k < |cps|
    ensures Offset(cps, k) < Offset(cps, k + 1) <= |s| && s[Offset(cps, k)] / 64 != 2
    ensures forall i :: Offset(cps, k) < i < Offset(cps, k + 1) ==> s[i] / 64 == 2
  {
    var start, end := Offset(cps, k), Offset(cps, k + 1);
    OffsetStep(cps, k);
    ContinuationBytes(cps[k]);
    var c := Encode(cps[k]);
    assert s[start..end] == c;
    assert s[start] == c[0];
    forall i | start < i < end ensures s[i] / 64 == 2 {
      assert s[i] == c[i - start];
    }
  }

  /** ucb_uc_prev_start */
  method PrevStart(s: seq<byte>, from: nat, ghost cps: seq<scalar>, ghost k: nat) returns (pos: nat)
    requires s == EncodeAll(cps) && 0 < k <= |cps| && from == Offset(cps, k)
    ensures pos == Offset(cps, k - 1)
  {
    ghost var start := Offset(cps, k - 1);
    CodePointBytes(s, cps, k - 1);
    pos := from - 1;
    while pos > 0 && s[pos] / 64 == 2
      invariant start <= pos < from
    {
      pos := pos - 1;
    }
  }

  // ---------------------------------------------------------------------------
  // The scanner state
  // ---------------------------------------------------------------------------

  class Scanner {
    var riOdd: bool
    var gb11: nat
    var incbSeq: bool
    var incbLinker: bool

    ghost function View(): G.State
      reads this
    {
      G.State(riOdd, gb11, incbSeq, incbLinker)
    }

    constructor ()
      ensures View() == G.START
    {
      riOdd, gb11, incbSeq, incbLinker := false, 0, false, false;
    }

    /** ucb_uc_grapheme_update */
    method Update(p: G.Prop)
      modifies this
      ensures View() == G.Update(old(View()), p)
    {
      if p.extpict {
        gb11 := 1;
      } else if p.gcb == G.Extend && (gb11 == 1 || gb11 == 2) {
        gb11 := 2;
      } else if p.gcb == G.ZWJ && (gb11 == 1 || gb11 == 2) {
        gb11 := 3;
      } else {
        gb11 := 0;
      }
      if p.gcb == G.RegionalIndicator {
        riOdd := !riOdd;
      } else {
        riOdd := false;
      }
      if p.incb == G.Consonant {
        incbSeq, incbLinker := true, false;
      } else if incbSeq && (p.incb == G.IncbExtend || p.incb == G.Linker) {
        if p.incb == G.Linker {
          incbLinker := true;
        }
      } else {
        incbSeq, incbLinker := false, false;
      }
    }
  }

  // ---------------------------------------------------------------------------
  // The forward pass
  // ---------------------------------------------------------------------------

  /** The loop state of every scan: iter is where the k-th code point starts,
      prop belongs to the one before it, and sc has seen the first k. */
  ghost predicate Scanning(cps: seq<scalar>, ps: seq<G.Prop>, k: nat, iter: nat, prop: G.Prop, st: G.State) {
    && 1 <= k <= |cps| == |ps|
    && iter == Offset(cps, k) <= |EncodeAll(cps)|
    && (iter == |EncodeAll(cps)| <==> k == |cps|)
    && prop == ps[k - 1]
    && st == G.StateAt(ps, k)
  }

  /** Read the first code point; st0 is the state before it. */
  method Begin(table: Table, s: seq<byte>, start: nat, ghost cps: seq<scalar>, ghost ps: seq<G.Prop>, ghost k: nat, sc: Scanner)
    returns (prop: G.Prop, iter: nat)
    requires IsText(table, s, cps, ps) && k < |cps| && start == Offset(cps, k)
    requires k == 0 || G.Boundary(ps, k)
    requires sc.View() == G.Resumed(ps, k)
    modifies sc
    ensures Scanning(cps, ps, k + 1, iter, prop, sc.View())
  {
    prop, iter := PropAt(table, s, start, cps, k);
    sc.Update(prop);
    G.ResumedCatchesUp(ps, k);
    OffsetAtEnd(cps, k + 1);
  }

  /** One turn of a scan: read the next code point, decide whether a character
      starts at it, and update the state. */
  method Advance(table: Table, s: seq<byte>, pos: nat, ghost cps: seq<scalar>, ghost ps: seq<G.Prop>, ghost k: nat,
                 prev: G.Prop, sc: Scanner)
    returns (prop: G.Prop, iter: nat, brk: bool)
    requires IsText(table, s, cps, ps) && k < |cps|
    requires Scanning(cps, ps, k, pos, prev, sc.View())
    modifies sc
    ensures Scanning(cps, ps, k + 1, iter, prop, sc.View())
    ensures brk <==> G.Boundary(ps, k)
  {
    prop, iter := PropAt(table, s, pos, cps, k);
    G.AutomatonIsRules(ps, k);
    brk := G.ShouldBreak(G.State(sc.riOdd, sc.gb11, sc.incbSeq, sc.incbLinker), prev.gcb, prop);
    sc.Update(prop);
    OffsetAtEnd(cps, k + 1);
  }

  /** Where characters end, from code point k on: the offset of every boundary,
      then the end of the text. */
  ghost function CharEnds(cps: seq<scalar>, ps: seq<G.Prop>, k: nat): (ends: seq<nat>)
    requires 0 < k && |cps| == |ps|
    ensures |ends| > 0
    decreases |cps| - k
  {
    if k >= |cps| then [|EncodeAll(cps)|]
    else if G.Boundary(ps, k) then [Offset(cps, k)] + CharEnds(cps, ps, k + 1)
    else CharEnds(cps, ps, k + 1)
  }

  /** CharEnds lists the boundaries at or after k, then the end of the text. */
  lemma {:induction false} CharEndsAreBoundaries(cps: seq<scalar>, ps: seq<G.Prop>, k: nat)
    requires 0 < k && |cps| == |ps|
    ensures AreEnds(cps, CharEnds(cps, ps, k), G.Boundaries(ps, k))
    decreases |cps| - k
  {
    if k < |cps| {
      CharEndsAreBoundaries(cps, ps, k + 1);
      if G.Boundary(ps, k) {
        EndInFront(cps, CharEnds(cps, ps, k + 1), G.Boundaries(ps, k + 1), k);
      }
    }
  }

  /** The byte positions of the boundaries bs, and then the end of the text. */
  ghost predicate AreEnds(cps: seq<scalar>, ends: seq<nat>, bs: seq<nat>) {
    && |ends| == |bs| + 1
    && ends[|bs|] == |EncodeAll(cps)|
    && forall i :: 0 <= i < |bs| ==> bs[i] < |cps| && ends[i] == Offset(cps, bs[i])
  }

  lemma EndInFront(cps: seq<scalar>, ends: seq<nat>, bs: seq<nat>, k: nat)
    requires AreEnds(cps, ends, bs) && k < |cps|
    ensures AreEnds(cps, [Offset(cps, k)] + ends, [k] + bs)
  {
  }

  /** The ends of all characters of a text. */
  ghost function AllEnds(table: Table, s: seq<byte>): seq<nat>
    requires WellFormed(s)
  {
    if s == [] then [] else CharEnds(DecodeAll(s), Props(table, DecodeAll(s)), 1)
  }

  /** ucb_uc_num_char */
  method NumChar(table: Table, s: seq<byte>) returns (num: nat)
    requires ValidTable(table) && WellFormed(s)
    ensures num == |AllEnds(table, s)|
  {
    num := 0;
    if s != [] {
      ghost var cps := DecodeAll(s);
      ghost var ps := Props(table, cps);
      OffsetEnds(cps);
      var sc := new Scanner();
      var prop: G.Prop, iter: nat := Begin(table, s, 0, cps, ps, 0, sc);
      num := 1;
      ghost var k: nat := 1;
      while iter < |s|
        invariant Scanning(cps, ps, k, iter, prop, sc.View())
        invariant num - 1 + |CharEnds(cps, ps, k)| == |CharEnds(cps, ps, 1)|
        decreases |cps| - k
      {
        var brk;
        prop, iter, brk := Advance(table, s, iter, cps, ps, k, prop, sc);
        if brk {
          num := num + 1;
        }
        k := k + 1;
      }
    }
  }

  /** What ucb_uc_char_index promises: the offset just past the index-th
      character counting from 1, or the length if there is none. */
  ghost function CharEnd(table: Table, s: seq<byte>, index: nat): nat
    requires WellFormed(s)
  {
    if 1 <= index <= |AllEnds(table, s)| then AllEnds(table, s)[index - 1] else |s|
  }

  /** Passing position k consumes the next expected end exactly when there is a
      boundary at k. */
  lemma EndStep(cps: seq<scalar>, ps: seq<G.Prop>, ends: seq<nat>, n: nat, k: nat)
    requires 0 < k < |cps| == |ps| && n <= |ends| && ends[n..] == CharEnds(cps, ps, k)
    ensures n < |ends|
    ensures G.Boundary(ps, k) ==>
              ends[n] == Offset(cps, k) && ends[n + 1..] == CharEnds(cps, ps, k + 1)
    ensures !G.Boundary(ps, k) ==> ends[n..] == CharEnds(cps, ps, k + 1)
  {
    if G.Boundary(ps, k) {
      assert ends[n..][1..] == ends[n + 1..];
    }
  }

  /** ucb_uc_char_index */
  method CharIndex(table: Table, s: seq<byte>, index: nat) returns (pos: nat)
    requires ValidTable(table) && WellFormed(s)
    ensures pos == CharEnd(table, s, index)
  {
    if index == 0 || s == [] {
      return |s|;
    }
    ghost var cps := DecodeAll(s);
    pos := SeekEnd(table, s, index, cps, Props(table, cps));
  }

  /** The scan over one decoded text. */
  method SeekEnd(table: Table, s: seq<byte>, index: nat, ghost cps: seq<scalar>, ghost ps: seq<G.Prop>) returns (pos: nat)
    requires IsText(table, s, cps, ps) && s != [] && index > 0
    ensures var ends := CharEnds(cps, ps, 1); pos == if index <= |ends| then ends[index - 1] else |s|
  {
    ghost var ends := CharEnds(cps, ps, 1);
    OffsetEnds(cps);
    var sc := new Scanner();
    var prop: G.Prop, iter: nat := Begin(table, s, 0, cps, ps, 0, sc);
    var num := 1;
    ghost var k: nat := 1;
    while iter < |s|
      invariant Scanning(cps, ps, k, iter, prop, sc.View())
      invariant 1 <= num <= index && num - 1 <= |ends| && ends[num - 1..] == CharEnds(cps, ps, k)
      decreases |cps| - k
    {
      EndStep(cps, ps, ends, num - 1, k);
      var cpStart := iter;
      var brk;
      prop, iter, brk := Advance(table, s, iter, cps, ps, k, prop, sc);
      if brk {
        if num == index {
          return cpStart;
        }
        num := num + 1;
      }
      k := k + 1;
    }
    NoMoreEnds(cps, ps, ends, num - 1, k);
    return |s|;
  }

  lemma NoMoreEnds(cps: seq<scalar>, ps: seq<G.Prop>, ends: seq<nat>, n: nat, k: nat)
    requires 0 < k && |cps| == |ps| <= k && n <= |ends| && ends[n..] == CharEnds(cps, ps, k)
    ensures |ends| == n + 1 && ends[n] == |EncodeAll(cps)|
  {
  }

  // ---------------------------------------------------------------------------
  // Resuming
  // ---------------------------------------------------------------------------

  method PrevProp(table: Table, s: seq<byte>, p: nat, ghost cps: seq<scalar>, ghost ps: seq<G.Prop>, ghost k: nat)
    returns (prop: G.Prop, q: nat)
    requires IsText(table, s, cps, ps) && 0 < k <= |cps| && p == Offset(cps, k)
    ensures prop == ps[k - 1] && q == Offset(cps, k - 1)
  {
    q := PrevStart(s, p, cps, k);
    var end;
    prop, end := PropAt(table, s, q, cps, k - 1);
  }

  /** Backward parity of the Regional_Indicator run that ends before from. */
  method RegionalBefore(table: Table, s: seq<byte>, from: nat, ghost cps: seq<scalar>, ghost ps: seq<G.Prop>, ghost k: nat)
    returns (odd: bool)
    requires IsText(table, s, cps, ps) && k <= |cps| && from == Offset(cps, k)
    ensures odd <==> G.AfterOddRegional(ps, k)
  {
    odd := false;
    var p := from;
    ghost var j: nat := k;
    OffsetEnds(cps);
    while p > 0
      invariant j <= k && p == Offset(cps, j)
      invariant G.Regionals(ps, j, k, odd)
      decreases j
    {
      var prop, q := PrevProp(table, s, p, cps, ps, j);
      if prop.gcb != G.RegionalIndicator {
        G.RegionalsEnd(ps, j, k, odd);
        return;
      }
      G.MoreRegionals(ps, j, k, odd);
      odd := !odd;
      p := q;
      j := j - 1;
    }
    OffsetInjective(cps, 0, j);
    G.RegionalsEnd(ps, 0, k, odd);
  }

  /** Does Extended_Pictographic Extend* end before from? */
  method EmojiRunBefore(table: Table, s: seq<byte>, from: nat, ghost cps: seq<scalar>, ghost ps: seq<G.Prop>, ghost k: nat)
    returns (found: bool)
    requires IsText(table, s, cps, ps) && k <= |cps| && from == Offset(cps, k)
    ensures found <==> G.AfterEmoji(ps, k)
  {
    var p := from;
    ghost var j: nat := k;
    OffsetEnds(cps);
    while p > 0
      invariant j <= k && p == Offset(cps, j)
      invariant forall m :: j <= m < k ==> ps[m].gcb == G.Extend && !ps[m].extpict
      decreases j
    {
      var prop, q := PrevProp(table, s, p, cps, ps, j);
      if prop.extpict {
        assert G.EmojiRun(ps, j - 1, k);
        return true;
      }
      if prop.gcb != G.Extend {
        G.EmojiAbsent(ps, j, k);
        return false;
      }
      p := q;
      j := j - 1;
    }
    OffsetInjective(cps, 0, j);
    G.EmojiAbsent(ps, 0, k);
    return false;
  }

  /** Backward search for Extended_Pictographic Extend* ZWJ before from. */
  method EmojiBefore(table: Table, s: seq<byte>, from: nat, ghost cps: seq<scalar>, ghost ps: seq<G.Prop>, ghost k: nat)
    returns (gb11: nat)
    requires IsText(table, s, cps, ps) && 0 < k <= |cps| && from == Offset(cps, k)
    ensures gb11 == if G.AfterEmojiZwj(ps, k) then 3 else 0
  {
    gb11 := 0;
    var prop, q := PrevProp(table, s, from, cps, ps, k);
    if prop.gcb == G.ZWJ {
      var found := EmojiRunBefore(table, s, q, cps, ps, k - 1);
      if found {
        gb11 := 3;
      }
    }
  }

  /** Backward search for Consonant [Extend Linker]* before from. */
  method ConjunctBefore(table: Table, s: seq<byte>, from: nat, ghost cps: seq<scalar>, ghost ps: seq<G.Prop>, ghost k: nat)
    returns (incbSeq: bool, incbLinker: bool)
    requires IsText(table, s, cps, ps) && k <= |cps| && from == Offset(cps, k)
    ensures incbSeq <==> G.AfterConsonant(ps, k)
    ensures incbLinker <==> G.AfterConjunct(ps, k)
  {
    var linker := false;
    var p := from;
    ghost var j: nat := k;
    OffsetEnds(cps);
    while p > 0
      invariant j <= k && p == Offset(cps, j)
      invariant G.Joiners(ps, j, k, linker)
      decreases j
    {
      var prop, q := PrevProp(table, s, p, cps, ps, j);
      if prop.incb == G.Linker {
        G.MoreJoiners(ps, j, k, linker);
        linker := true;
        p := q;
      } else if prop.incb == G.IncbExtend {
        G.MoreJoiners(ps, j, k, linker);
        p := q;
      } else if prop.incb == G.Consonant {
        G.JoinersFrom(ps, j, k, linker);
        return true, linker;
      } else {
        G.ConjunctAbsent(ps, j, k);
        return false, false;
      }
      j := j - 1;
    }
    OffsetInjective(cps, 0, j);
    G.ConjunctAbsent(ps, 0, k);
    return false, false;
  }

  /** ucb_uc_grapheme_state_at */
  method StateBefore(table: Table, s: seq<byte>, from: nat, ghost cps: seq<scalar>, ghost ps: seq<G.Prop>, ghost k: nat)
    returns (sc: Scanner)
    requires IsText(table, s, cps, ps) && k <= |cps| && from == Offset(cps, k)
    ensures fresh(sc) && sc.View() == G.Resumed(ps, k)
  {
    sc := new Scanner();
    OffsetEnds(cps);
    if from == 0 {
      OffsetInjective(cps, 0, k);
      return;
    }
    G.RegionalParity(ps, k);
    G.EmojiState(ps, k);
    G.ConjunctState(ps, k);
    var odd := RegionalBefore(table, s, from, cps, ps, k);
    sc.riOdd := odd;
    var gb11 := EmojiBefore(table, s, from, cps, ps, k);
    sc.gb11 := gb11;
    var incbSeq, incbLinker := ConjunctBefore(table, s, from, cps, ps, k);
    sc.incbSeq, sc.incbLinker := incbSeq, incbLinker;
  }

  datatype Position = NoPos | At(pos: nat)

  /** The first of the ends, unless it is the end of the text. */
  function FirstEnd(ends: seq<nat>): Position
    requires |ends| > 0
  {
    if |ends| == 1 then NoPos else At(ends[0])
  }

  /** first is the first end from position k on. */
  ghost predicate FirstEndIs(first: Position, cps: seq<scalar>, ps: seq<G.Prop>, k: nat) {
    0 < k && |cps| == |ps| && first == FirstEnd(CharEnds(cps, ps, k))
  }

  lemma FirstEndAt(first: Position, cps: seq<scalar>, ps: seq<G.Prop>, k: nat)
    requires FirstEndIs(first, cps, ps, k)
    ensures k >= |cps| ==> first == NoPos
    ensures k < |cps| && G.Boundary(ps, k) ==> first == At(Offset(cps, k))
    ensures k < |cps| && !G.Boundary(ps, k) ==> FirstEndIs(first, cps, ps, k + 1)
  {
  }

  /** ucb_uc_grapheme_next_from */
  method NextFrom(table: Table, s: seq<byte>, start: nat, sc: Scanner,
                  ghost cps: seq<scalar>, ghost ps: seq<G.Prop>, ghost k: nat)
    returns (r: Position)
    requires IsText(table, s, cps, ps) && k < |cps| && start == Offset(cps, k)
    requires k == 0 || G.Boundary(ps, k)
    requires sc.View() == G.Resumed(ps, k)
    modifies sc
    ensures r == FirstEnd(CharEnds(cps, ps, k + 1))
  {
    var prop: G.Prop, iter: nat := Begin(table, s, start, cps, ps, k, sc);
    ghost var i: nat := k + 1;
    ghost var first := FirstEnd(CharEnds(cps, ps, i));
    assert FirstEndIs(first, cps, ps, i);
    while iter < |s|
      invariant Scanning(cps, ps, i, iter, prop, sc.View())
      invariant FirstEndIs(first, cps, ps, i)
      decreases |cps| - i
    {
      FirstEndAt(first, cps, ps, i);
      var cpStart := iter;
      var brk;
      prop, iter, brk := Advance(table, s, iter, cps, ps, i, prop, sc);
      if brk {
        return At(cpStart);
      }
      i := i + 1;
    }
    FirstEndAt(first, cps, ps, i);
    return NoPos;
  }

  /** ucb_uc_next_char from the start of code point k, which must be the start
      of the string or a boundary: the end of the character that starts there,
      or NoPos at the last character and beyond the string. */
  method NextChar(table: Table, s: seq<byte>, from: nat, ghost cps: seq<scalar>, ghost ps: seq<G.Prop>, ghost k: nat)
    returns (r: Position)
    requires IsText(table, s, cps, ps)
    requires from >= |s| || (k < |cps| && from == Offset(cps, k) && (k == 0 || G.Boundary(ps, k)))
    ensures from >= |s| ==> r == NoPos
    ensures from < |s| ==> r == FirstEnd(CharEnds(cps, ps, k + 1))
  {
    if from >= |s| {
      return NoPos;
    }
    var sc := StateBefore(table, s, from, cps, ps, k);
    r := NextFrom(table, s, from, sc, cps, ps, k);
  }

  /** Calling ucb_uc_next_char again and again from 0 visits exactly the
      character ends that the single pass of ucb_uc_num_char counts, in order;
      the call that would return the end of the string reports NoPos. */
  method VisitAll(table: Table, s: seq<byte>) returns (visited: seq<nat>)
    requires ValidTable(table) && WellFormed(s)
    ensures s != [] ==> visited + [|s|] == AllEnds(table, s)
    ensures s == [] ==> visited == []
  {
    ghost var cps := DecodeAll(s);
    ghost var ps := Props(table, cps);
    visited := VisitText(table, s, cps, ps);
  }

  /** The client loop over one decoded text. */
  method VisitText(table: Table, s: seq<byte>, ghost cps: seq<scalar>, ghost ps: seq<G.Prop>)
    returns (visited: seq<nat>)
    requires IsText(table, s, cps, ps)
    ensures if s == [] then visited == [] else visited + [|s|] == CharEnds(cps, ps, 1)
  {
    visited := [];
    ghost var k: nat := 0;
    OffsetEnds(cps);
    var next := NextChar(table, s, 0, cps, ps, k);
    if s == [] {
      return;
    }
    while next.At?
      invariant k < |cps| && (k == 0 || G.Boundary(ps, k))
      invariant visited + CharEnds(cps, ps, k + 1) == CharEnds(cps, ps, 1)
      invariant next == FirstEnd(CharEnds(cps, ps, k + 1))
      decreases |cps| - k
    {
      k := Continue(cps, ps, k, visited);
      visited := visited + [next.pos];
      next := NextChar(table, s, next.pos, cps, ps, k);
    }
    LastVisit(cps, ps, k, visited);
  }

  /** At the last character only the end of the text is left. */
  lemma LastVisit(cps: seq<scalar>, ps: seq<G.Prop>, k: nat, visited: seq<nat>)
    requires k < |cps| == |ps| && |CharEnds(cps, ps, k + 1)| == 1
    requires visited + CharEnds(cps, ps, k + 1) == CharEnds(cps, ps, 1)
    ensures visited + [|EncodeAll(cps)|] == CharEnds(cps, ps, 1)
  {
    CharEndsAreBoundaries(cps, ps, k + 1);
  }

  /** From one character to the next. */
  lemma Continue(cps: seq<scalar>, ps: seq<G.Prop>, k: nat, visited: seq<nat>) returns (b: nat)
    requires |cps| == |ps| && |CharEnds(cps, ps, k + 1)| > 1
    requires visited + CharEnds(cps, ps, k + 1) == CharEnds(cps, ps, 1)
    ensures k < b < |cps| && G.Boundary(ps, b)
    ensures CharEnds(cps, ps, k + 1)[0] == Offset(cps, b) < |EncodeAll(cps)|
    ensures visited + [Offset(cps, b)] + CharEnds(cps, ps, b + 1) == CharEnds(cps, ps, 1)
  {
    b := NextBoundary(cps, ps, k);
    OffsetAtEnd(cps, b);
    Regroup(visited, Offset(cps, b), CharEnds(cps, ps, b + 1));
  }

  lemma Regroup(a: seq<nat>, x: nat, b: seq<nat>)
    ensures a + ([x] + b) == (a + [x]) + b
  {
  }

  /** The code point at which the next character starts. */
  lemma {:induction false} NextBoundary(cps: seq<scalar>, ps: seq<G.Prop>, k: nat) returns (b: nat)
    requires |cps| == |ps| && |CharEnds(cps, ps, k + 1)| > 1
    ensures k < b < |cps| && G.Boundary(ps, b)
    ensures CharEnds(cps, ps, k + 1) == [Offset(cps, b)] + CharEnds(cps, ps, b + 1)
    decreases |cps| - k
  {
    b := k + 1;
    if !G.Boundary(ps, b) {
      b := NextBoundary(cps, ps, b);
    }
  }

  datatype MapResult = Invalid | OutOfRange | Mapped(pos: nat)

  /** ucb_str_map_char_pos (src/ucb/string.c): the byte offset behind the first
      index characters, for every index up to the character count. */
  method MapCharPos(table: Table, s: seq<byte>, index: nat) returns (r: MapResult)
    requires ValidTable(table)
    ensures r.Invalid? <==> !WellFormed(s)
    ensures WellFormed(s) ==>
              var ends := AllEnds(table, s);
              && (index > |ends| ==> r == OutOfRange)
              && (index == 0 ==> r == Mapped(0))
              && (0 < index <= |ends| ==> r == Mapped(ends[index - 1]))
  {
    var v := Utf8Codec.Validate(s);
    if !v.Valid? {
      return Invalid;
    }
    var num := NumChar(table, s);
    if index > num {
      return OutOfRange;
    }
    if index == 0 {
      return Mapped(0);
    }
    var pos := CharIndex(table, s, index);
    return Mapped(pos);
  }
}
