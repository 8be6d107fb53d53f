/** Extended grapheme clusters (UAX #29, section 3.1.1): the boundary rules as
    look-behind statements over a sequence of character properties, and the
    four-field automaton of src/ucb/unicode.c that decides them in one pass. */
module Grapheme {

  datatype Gcb =
    | Other | CR | LF | Control | Extend | ZWJ | RegionalIndicator | Prepend | SpacingMark
    | L | V | T | LV | LVT

  datatype Incb = NoIncb | Consonant | IncbExtend | Linker

  /** The part of a property table entry that segmentation reads. */
  datatype Prop = Prop(gcb: Gcb, extpict: bool, incb: Incb)

  /** In the Unicode tables every Extended_Pictographic character has
      Grapheme_Cluster_Break=Other. */
  predicate PictographsAreOther(ps: seq<Prop>) {
    forall i :: 0 <= i < |ps| && ps[i].extpict ==> ps[i].gcb == Other
  }

  // ---------------------------------------------------------------------------
  // The rules
  // ---------------------------------------------------------------------------

  /** A consonant at j, and only Extend and Linker from there up to i. */
  predicate ConjunctRun(ps: seq<Prop>, j: nat, i: nat) {
    && j < i <= |ps|
    && ps[j].incb == Consonant
    && forall m :: j < m < i ==> ps[m].incb == IncbExtend || ps[m].incb == Linker
  }

  predicate HasLinker(ps: seq<Prop>, j: nat, i: nat)
    requires i <= |ps|
  {
    exists m :: j < m < i && ps[m].incb == Linker
  }

  /** A pictograph at j, and only Extend from there up to i. */
  predicate EmojiRun(ps: seq<Prop>, j: nat, i: nat) {
    && j < i <= |ps|
    && ps[j].extpict
    && forall m :: j < m < i ==> ps[m].gcb == Extend
  }

  /** The Regional_Indicators directly before i start at j. */
  predicate RegionalRun(ps: seq<Prop>, j: nat, i: nat) {
    && j <= i <= |ps|
    && (forall m :: j <= m < i ==> ps[m].gcb == RegionalIndicator)
    && (j == 0 || ps[j - 1].gcb != RegionalIndicator)
  }

  /** GB9c without its right-hand side. */
  ghost predicate AfterConjunct(ps: seq<Prop>, i: nat)
    requires i <= |ps|
  {
    exists j: nat :: ConjunctRun(ps, j, i) && HasLinker(ps, j, i)
  }

  ghost predicate AfterConsonant(ps: seq<Prop>, i: nat)
    requires i <= |ps|
  {
    exists j: nat :: ConjunctRun(ps, j, i)
  }

  ghost predicate AfterEmoji(ps: seq<Prop>, i: nat)
    requires i <= |ps|
  {
    exists j: nat :: EmojiRun(ps, j, i)
  }

  /** GB11 without its right-hand side. */
  ghost predicate AfterEmojiZwj(ps: seq<Prop>, i: nat)
    requires i <= |ps|
  {
    i > 0 && ps[i - 1].gcb == ZWJ && AfterEmoji(ps, i - 1)
  }

  /** GB12 and GB13 without their right-hand side. */
  ghost predicate AfterOddRegional(ps: seq<Prop>, i: nat)
    requires i <= |ps|
  {
    exists j: nat :: RegionalRun(ps, j, i) && (i - j) % 2 == 1
  }

  /** Rules GB3 to GB999 between ps[i - 1] and ps[i]; the first that applies
      decides. */
  ghost predicate Boundary(ps: seq<Prop>, i: nat)
    requires 0 < i < |ps|
  {
    var a, b := ps[i - 1].gcb, ps[i].gcb;
    if a == CR && b == LF then false                                     // GB3
    else if a == Control || a == CR || a == LF then true                 // GB4
    else if b == Control || b == CR || b == LF then true                 // GB5
    else
      && !(a == L && (b == L || b == V || b == LV || b == LVT))          // GB6
      && !((a == LV || a == V) && (b == V || b == T))                    // GB7
      && !((a == LVT || a == T) && b == T)                               // GB8
      && b != Extend && b != ZWJ                                         // GB9
      && b != SpacingMark                                                // GB9a
      && a != Prepend                                                    // GB9b
      && !(AfterConjunct(ps, i) && ps[i].incb == Consonant)              // GB9c
      && !(AfterEmojiZwj(ps, i) && ps[i].extpict)                        // GB11
      && !(AfterOddRegional(ps, i) && b == RegionalIndicator)            // GB12, GB13
  }

  // ---------------------------------------------------------------------------
  // The automaton
  // ---------------------------------------------------------------------------

  datatype State = State(riOdd: bool, gb11: nat, incbSeq: bool, incbLinker: bool)

  const START := State(false, 0, false, false)

  predicate ExtendOrLinker(k: Incb) {
    k == IncbExtend || k == Linker
  }

  predicate IsControl(g: Gcb) {
    g == Control || g == CR || g == LF
  }

  /** Hangul syllable sequences. */
  predicate HangulJoins(a: Gcb, b: Gcb) {
    || (a == L && (b == L || b == V || b == LV || b == LVT))
    || ((a == LV || a == V) && (b == V || b == T))
    || ((a == LVT || a == T) && b == T)
  }

  /** ucb_uc_grapheme_update */
  function Update(st: State, p: Prop): State {
    var gb11 :=
      if p.extpict then 1
      else if p.gcb == Extend && (st.gb11 == 1 || st.gb11 == 2) then 2
      else if p.gcb == ZWJ && (st.gb11 == 1 || st.gb11 == 2) then 3
      else 0;
    var riOdd := p.gcb == RegionalIndicator && !st.riOdd;
    var keep := st.incbSeq && ExtendOrLinker(p.incb);
    State(riOdd, gb11,
          p.incb == Consonant || keep,
          keep && (st.incbLinker || p.incb == Linker))
  }

  /** ucb_uc_grapheme_should_break between a character with break class a, which
      the state already covers, and the character p. */
  predicate ShouldBreak(st: State, a: Gcb, p: Prop) {
    var b := p.gcb;
    if a == CR && b == LF then false
    else if IsControl(a) then true
    else if IsControl(b) then true
    else if HangulJoins(a, b) then false
    else if b == Extend || b == ZWJ then false
    else if b == SpacingMark then false
    else if a == Prepend then false
    else if st.incbSeq && st.incbLinker && p.incb == Consonant then false
    else if st.gb11 == 3 && p.extpict then false
    else !(a == RegionalIndicator && b == RegionalIndicator && st.riOdd)
  }

  /** The state after the first i characters. */
  function StateAt(ps: seq<Prop>, i: nat): State
    requires i <= |ps|
  {
    if i == 0 then START else Update(StateAt(ps, i - 1), ps[i - 1])
  }

  // ---------------------------------------------------------------------------
  // The automaton decides the rules
  // ---------------------------------------------------------------------------

  lemma {:induction false} RegionalParity(ps: seq<Prop>, i: nat)
    requires i <= |ps|
    ensures StateAt(ps, i).riOdd <==> AfterOddRegional(ps, i)
    ensures exists j: nat :: RegionalRun(ps, j, i)
  {
    if i == 0 {
      assert RegionalRun(ps, 0, 0);
    } else {
      var h := i - 1;
      RegionalParity(ps, h);
      var j: nat :| RegionalRun(ps, j, h);
      forall k: nat | RegionalRun(ps, k, h) ensures k == j {
        RegionalRunUnique(ps, j, k, h);
      }
      var j' := if ps[i - 1].gcb == RegionalIndicator then j else i;
      assert RegionalRun(ps, j', i);
      forall k: nat | RegionalRun(ps, k, i) ensures k == j' {
        RegionalRunUnique(ps, j', k, i);
      }
    }
  }

  lemma RegionalRunUnique(ps: seq<Prop>, j: nat, k: nat, i: nat)
    requires RegionalRun(ps, j, i) && RegionalRun(ps, k, i)
    ensures j == k
  {
    if j != k {
      assert false;
    }
  }

  lemma {:induction false} ConjunctState(ps: seq<Prop>, i: nat)
    requires i <= |ps|
    ensures StateAt(ps, i).incbSeq <==> AfterConsonant(ps, i)
    ensures StateAt(ps, i).incbLinker <==> AfterConjunct(ps, i)
  {
    if i > 0 {
      var h := i - 1;
      ConjunctState(ps, h);
      var p := ps[h];
      if p.incb == Consonant {
        assert ConjunctRun(ps, h, i);
      }
      forall j: nat | ConjunctRun(ps, j, i)
        ensures (j == h && p.incb == Consonant) || (ConjunctRun(ps, j, h) && ExtendOrLinker(p.incb))
      {
      }
      forall j: nat | ConjunctRun(ps, j, h) && ExtendOrLinker(p.incb)
        ensures ConjunctRun(ps, j, i)
        ensures HasLinker(ps, j, i) <==> HasLinker(ps, j, h) || p.incb == Linker
      {
      }
    }
  }

  lemma {:induction false} EmojiState(ps: seq<Prop>, i: nat)
    requires i <= |ps| && PictographsAreOther(ps)
    ensures StateAt(ps, i).gb11 == 1 || StateAt(ps, i).gb11 == 2 <==> AfterEmoji(ps, i)
    ensures StateAt(ps, i).gb11 == 3 <==> AfterEmojiZwj(ps, i)
    ensures StateAt(ps, i).gb11 == 2 ==> ps[i - 1].gcb == Extend
    ensures StateAt(ps, i).gb11 == 1 ==> ps[i - 1].extpict
  {
    if i > 0 {
      var h := i - 1;
      EmojiState(ps, h);
      var p := ps[h];
      if p.extpict {
        assert EmojiRun(ps, h, i);
      }
      forall j: nat | EmojiRun(ps, j, i)
        ensures (j == h && p.extpict) || (EmojiRun(ps, j, h) && p.gcb == Extend)
      {
      }
      forall j: nat | EmojiRun(ps, j, h) && p.gcb == Extend
        ensures EmojiRun(ps, j, i)
      {
      }
    }
  }

  // How a backward scan recognises the left-hand sides of GB9c and GB11.

  /** Only Extend and Linker from j up to i, with or without a Linker. */
  predicate Joiners(ps: seq<Prop>, j: nat, i: nat, linker: bool)
    requires i <= |ps|
  {
    && j <= i
    && (forall m :: j <= m < i ==> ExtendOrLinker(ps[m].incb))
    && (linker <==> exists m :: j <= m < i && ps[m].incb == Linker)
  }

  lemma MoreJoiners(ps: seq<Prop>, j: nat, i: nat, linker: bool)
    requires 0 < j <= i <= |ps| && Joiners(ps, j, i, linker) && ExtendOrLinker(ps[j - 1].incb)
    ensures Joiners(ps, j - 1, i, linker || ps[j - 1].incb == Linker)
  {
    if linker {
      var m :| j <= m < i && ps[m].incb == Linker;
      assert j - 1 <= m;
    }
  }

  lemma JoinersFrom(ps: seq<Prop>, j: nat, i: nat, linker: bool)
    requires 0 < j <= i <= |ps| && Joiners(ps, j, i, linker) && ps[j - 1].incb == Consonant
    ensures AfterConsonant(ps, i) && (AfterConjunct(ps, i) <==> linker)
  {
    assert ConjunctRun(ps, j - 1, i);
    ConjunctFound(ps, j - 1, i);
    assert HasLinker(ps, j - 1, i) <==> linker;
  }

  lemma ConjunctFound(ps: seq<Prop>, j: nat, i: nat)
    requires ConjunctRun(ps, j, i)
    ensures AfterConsonant(ps, i) && (AfterConjunct(ps, i) <==> HasLinker(ps, j, i))
  {
    forall k: nat | ConjunctRun(ps, k, i) ensures k == j {
      if k != j {
        assert false;
      }
    }
  }

  /** Only Regional_Indicators from j up to i, an odd number of them or not. */
  predicate Regionals(ps: seq<Prop>, j: nat, i: nat, odd: bool)
    requires i <= |ps|
  {
    && j <= i
    && (forall m :: j <= m < i ==> ps[m].gcb == RegionalIndicator)
    && (odd <==> (i - j) % 2 == 1)
  }

  lemma MoreRegionals(ps: seq<Prop>, j: nat, i: nat, odd: bool)
    requires 0 < j && i <= |ps| && Regionals(ps, j, i, odd) && ps[j - 1].gcb == RegionalIndicator
    ensures Regionals(ps, j - 1, i, !odd)
  {
  }

  lemma RegionalsEnd(ps: seq<Prop>, j: nat, i: nat, odd: bool)
    requires i <= |ps| && Regionals(ps, j, i, odd) && (j == 0 || ps[j - 1].gcb != RegionalIndicator)
    ensures AfterOddRegional(ps, i) <==> odd
  {
    assert RegionalRun(ps, j, i);
    RegionalFound(ps, j, i);
  }

  lemma RegionalFound(ps: seq<Prop>, j: nat, i: nat)
    requires RegionalRun(ps, j, i)
    ensures AfterOddRegional(ps, i) <==> (i - j) % 2 == 1
  {
    forall k: nat | RegionalRun(ps, k, i) ensures k == j {
      RegionalRunUnique(ps, k, j, i);
    }
  }

  lemma ConjunctAbsent(ps: seq<Prop>, j: nat, i: nat)
    requires j <= i <= |ps| && forall m :: j <= m < i ==> ExtendOrLinker(ps[m].incb)
    requires j > 0 ==> ps[j - 1].incb == NoIncb
    ensures !AfterConsonant(ps, i) && !AfterConjunct(ps, i)
  {
    if j > 0 {
      var m := j - 1;
      assert !ExtendOrLinker(ps[m].incb);
    }
  }

  lemma EmojiAbsent(ps: seq<Prop>, j: nat, i: nat)
    requires j <= i <= |ps| && forall m :: j <= m < i ==> !ps[m].extpict
    requires j > 0 ==> !ps[j - 1].extpict && ps[j - 1].gcb != Extend
    ensures !AfterEmoji(ps, i)
  {
    if j > 0 {
      var m := j - 1;
      assert ps[m].gcb != Extend;
    }
  }

  /** The incremental automaton breaks exactly where the rules do. */
  lemma AutomatonIsRules(ps: seq<Prop>, i: nat)
    requires 0 < i < |ps| && PictographsAreOther(ps)
    ensures ShouldBreak(StateAt(ps, i), ps[i - 1].gcb, ps[i]) <==> Boundary(ps, i)
  {
    RegionalParity(ps, i);
    ConjunctState(ps, i);
    EmojiState(ps, i);
    if StateAt(ps, i).riOdd {
      assert ps[i - 1].gcb == RegionalIndicator;
    }
    if AfterConjunct(ps, i) {
      assert StateAt(ps, i).incbSeq;
    }
  }

  // ---------------------------------------------------------------------------
  // Resuming in the middle
  // ---------------------------------------------------------------------------

  /** What scanning backwards from i can rebuild: everything but how far an
      unfinished Extended_Pictographic Extend* has come. */
  function Resumed(ps: seq<Prop>, i: nat): State
    requires i <= |ps|
  {
    var st := StateAt(ps, i);
    st.(gb11 := if st.gb11 == 3 then 3 else 0)
  }

  /** At a boundary the lost part does not matter: one update later the resumed
      state is the state of the scan from the start. */
  lemma ResumedCatchesUp(ps: seq<Prop>, i: nat)
    requires i < |ps| && PictographsAreOther(ps)
    requires i == 0 || Boundary(ps, i)
    ensures Update(Resumed(ps, i), ps[i]) == StateAt(ps, i + 1)
  {
    EmojiState(ps, i);
  }

  /** Exactly when the lost part does not matter, at any code point: unless a
      pictograph with extenders ends here and an extender or a ZWJ continues it. */
  lemma ResumedNeedsBoundary(ps: seq<Prop>, i: nat)
    requires i < |ps| && PictographsAreOther(ps)
    ensures Update(Resumed(ps, i), ps[i]) == StateAt(ps, i + 1) <==>
            !(AfterEmoji(ps, i) && !ps[i].extpict && (ps[i].gcb == Extend || ps[i].gcb == ZWJ))
  {
    EmojiState(ps, i);
  }

  /** The shortest such input: resumed between a pictograph and a ZWJ, the scan
      forgets the pictograph. */
  lemma ResumedForgetsPictograph()
    ensures var ps := [Prop(Other, true, NoIncb), Prop(ZWJ, false, NoIncb)];
            Resumed(ps, 1).gb11 == 0 && StateAt(ps, 2).gb11 == 3 && Update(Resumed(ps, 1), ps[1]) != StateAt(ps, 2)
  {
    var emoji := Prop(Other, true, NoIncb);
    var zwj := Prop(ZWJ, false, NoIncb);
    var ps := [emoji, zwj];
    assert StateAt(ps, 1) == Update(StateAt(ps, 0), emoji);
    assert StateAt(ps, 2) == Update(StateAt(ps, 1), zwj);
  }

  // ---------------------------------------------------------------------------
  // Boundaries of a text
  // ---------------------------------------------------------------------------

  /** The boundaries strictly between from and the end, in order. */
  ghost function Boundaries(ps: seq<Prop>, from: nat): (bs: seq<nat>)
    requires 0 < from
    decreases |ps| - from
  {
    if from >= |ps| then []
    else if Boundary(ps, from) then [from] + Boundaries(ps, from + 1)
    else Boundaries(ps, from + 1)
  }

  lemma {:induction false} BoundariesSound(ps: seq<Prop>, from: nat)
    requires 0 < from
    ensures forall k :: 0 <= k < |Boundaries(ps, from)| ==>
              from <= Boundaries(ps, from)[k] < |ps| && Boundary(ps, Boundaries(ps, from)[k])
    ensures forall j, k :: 0 <= j < k < |Boundaries(ps, from)| ==>
              Boundaries(ps, from)[j] < Boundaries(ps, from)[k]
    ensures forall i: nat :: from <= i < |ps| && Boundary(ps, i) ==> i in Boundaries(ps, from)
    decreases |ps| - from
  {
    if from < |ps| {
      BoundariesSound(ps, from + 1);
    }
  }
}
