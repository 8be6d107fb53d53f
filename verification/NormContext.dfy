/** The streaming half of normalization (src/ucb/unicode.c): code points are
    decomposed one by one into a small sorted window that is flushed whenever a
    starter closes it. Everything flushed, followed by the window, is at all
    times the canonical ordering of everything added. */
module NormContext {
  import opened Utf8
  import opened Ordering
  import opened Decomposition

  /** Where the bubble stops: everything from i on moves up by one. */
  lemma {:induction false} BubbleStopsAt(t: Classes, s: seq<scalar>, c: scalar, i: nat)
    requires i <= |s|
    requires forall j :: i <= j < |s| ==> Ccc(t, s[j]) > Ccc(t, c) > 0
    requires i > 0 ==> !(Ccc(t, s[i - 1]) > Ccc(t, c) > 0)
    ensures Bubble(t, s, c) == s[..i] + [c] + s[i..]
  {
    if i == |s| {
      assert s[..i] == s && s[i..] == [];
    } else {
      var pre := s[..|s| - 1];
      forall j | i <= j < |pre| ensures Ccc(t, pre[j]) > Ccc(t, c) > 0 {
        assert pre[j] == s[j];
      }
      assert i > 0 ==> pre[i - 1] == s[i - 1];
      BubbleStopsAt(t, pre, c, i);
      assert pre[..i] == s[..i] && s[i..] == pre[i..] + [s[|s| - 1]];
    }
  }

  /** The arithmetic of norm_decompose_hangul. */
  method SplitHangul(cp: scalar) returns (jamo: seq<scalar>)
    requires IsHangul(cp)
    ensures jamo == HangulParts(cp)
  {
    var s: int := cp - 0xAC00;
    var tIdx := s % 28;
    var vIdx := (s - tIdx) % 588 / 28;
    var lIdx := s / 588;
    jamo := [0x1100 + lIdx, 0x1161 + vIdx];
    if tIdx != 0 {
      jamo := jamo + [0x11A7 + tIdx];
    }
  }

  lemma BubbleAllNext(t: Classes, s: seq<scalar>, xs: seq<scalar>, i: nat)
    requires i < |xs|
    ensures BubbleAll(t, s, xs[i..]) == BubbleAll(t, Bubble(t, s, xs[i]), xs[i + 1..])
  {
    assert xs[i..][1..] == xs[i + 1..];
  }

  /** s with the values of cp from the i-th on added, one after the other. */
  ghost function AddVals(u: Ucd, compat: bool, s: seq<scalar>, cp: scalar, i: nat): seq<scalar>
    requires ValidDecomp(u) && cp in u.decomp && i <= |u.decomp[cp].vals|
    decreases |u.decomp[cp].vals| - i
  {
    var vals := u.decomp[cp].vals;
    if i == |vals| then s else AddVals(u, compat, BubbleAll(u.ccc, s, FullDecomp(u, compat, vals[i])), cp, i + 1)
  }

  lemma {:induction false} AddValsSpec(u: Ucd, compat: bool, s: seq<scalar>, cp: scalar, i: nat)
    requires ValidDecomp(u) && cp in u.decomp && i <= |u.decomp[cp].vals|
    ensures AddVals(u, compat, s, cp, i) == BubbleAll(u.ccc, s, DecompVals(u, compat, cp, i))
    decreases |u.decomp[cp].vals| - i
  {
    if i < |u.decomp[cp].vals| {
      var first := FullDecomp(u, compat, u.decomp[cp].vals[i]);
      AddValsSpec(u, compat, BubbleAll(u.ccc, s, first), cp, i + 1);
      BubbleAllConcat(u.ccc, s, first, DecompVals(u, compat, cp, i + 1));
    }
  }

  lemma JamoAreStarters(u: Ucd, jamo: seq<scalar>)
    requires ValidDecomp(u) && 2 <= |jamo| <= 3 && IsLeading(jamo[0]) && IsVowel(jamo[1])
    requires |jamo| == 3 ==> IsTrailing(jamo[2])
    ensures forall i :: 0 <= i < |jamo| ==> Ccc(u.ccc, jamo[i]) == 0
  {}

  /** Nothing moves from the window w into what was flushed before it. */
  predicate Sealed(t: Classes, flushed: seq<scalar>, w: seq<scalar>) {
    || flushed == []
    || Ccc(t, flushed[|flushed| - 1]) == 0
    || (w != [] && Ccc(t, w[0]) == 0)
  }

  lemma {:induction false} BubbleStaysInWindow(t: Classes, flushed: seq<scalar>, w: seq<scalar>, c: scalar)
    requires Sealed(t, flushed, w)
    ensures Bubble(t, flushed + w, c) == flushed + Bubble(t, w, c)
    ensures Sealed(t, flushed, Bubble(t, w, c))
  {
    var s := flushed + w;
    if w == [] {
      assert s == flushed;
    } else if Ccc(t, w[|w| - 1]) > Ccc(t, c) > 0 {
      var pre := w[..|w| - 1];
      assert s[..|s| - 1] == flushed + pre && s[|s| - 1] == w[|w| - 1];
      BubbleStaysInWindow(t, flushed, pre, c);
      Assoc(flushed, Bubble(t, pre, c), [w[|w| - 1]]);
    } else {
      assert s[|s| - 1] == w[|w| - 1];
      Assoc(flushed, w, [c]);
    }
  }

  lemma Assoc(a: seq<scalar>, b: seq<scalar>, c: seq<scalar>)
    ensures (a + b) + c == a + (b + c)
  {
  }

  /** The shape of the window between code points: marks in canonical order, behind at
      most one starter. */
  predicate OneSegment(t: Classes, w: seq<scalar>) {
    |w| <= 1 ||
    (Ccc(t, w[|w| - 1]) > 0 && Ccc(t, w[|w| - 2]) <= Ccc(t, w[|w| - 1]) && OneSegment(t, w[..|w| - 1]))
  }

  lemma {:induction false} OneSegmentMeans(t: Classes, w: seq<scalar>, i: nat, j: nat)
    requires OneSegment(t, w) && i < j < |w|
    ensures Ccc(t, w[j]) > 0 && Ccc(t, w[i]) <= Ccc(t, w[j])
  {
    var pre := w[..|w| - 1];
    if j < |pre| {
      OneSegmentMeans(t, pre, i, j);
    } else if i < j - 1 {
      OneSegmentMeans(t, pre, i, j - 1);
    }
  }

  /** Adding a mark keeps that shape. */
  lemma {:induction false} BubbleKeepsSegment(t: Classes, w: seq<scalar>, c: scalar)
    requires OneSegment(t, w) && Ccc(t, c) > 0
    ensures OneSegment(t, Bubble(t, w, c))
    ensures var r := Bubble(t, w, c); r != [] && (r[|r| - 1] == c || (w != [] && r[|r| - 1] == w[|w| - 1]))
  {
    if w != [] && Ccc(t, w[|w| - 1]) > Ccc(t, c) {
      var pre, l := w[..|w| - 1], w[|w| - 1];
      BubbleKeepsSegment(t, pre, c);
      var r := Bubble(t, pre, c);
      assert (r + [l])[..|r|] == r;
    } else {
      assert (w + [c])[..|w|] == w;
    }
  }

  lemma BubbleAllOne(t: Classes, s: seq<scalar>, c: scalar)
    ensures BubbleAll(t, s, [c]) == Bubble(t, s, c)
  {
    assert BubbleAll(t, Bubble(t, s, c), []) == Bubble(t, s, c);
  }

  lemma Inserted(a: seq<scalar>, w: seq<scalar>, c: scalar, i: nat)
    requires i <= |w| && |a| == |w| + 1 && a[i] == c
    requires forall j :: 0 <= j < i ==> a[j] == w[j]
    requires forall j :: i < j < |a| ==> a[j] == w[j - 1]
    ensures a == w[..i] + [c] + w[i..]
  {
  }

  /** The bubbling loop of norm_ctx_add: the last of len characters is cp. */
  method Settle(t: Classes, cpBuf: array<scalar>, cccBuf: array<nat>, len: nat, cp: scalar, ccc: nat, ghost w: seq<scalar>)
    requires 0 < len <= cpBuf.Length == cccBuf.Length && cpBuf as object != cccBuf as object
    requires forall i :: 0 <= i < len ==> cccBuf[i] == Ccc(t, cpBuf[i])
    requires ccc == Ccc(t, cp) && cpBuf[..len] == w + [cp]
    modifies cpBuf, cccBuf
    ensures cpBuf[..len] == Bubble(t, w, cp)
    ensures forall i :: 0 <= i < len ==> cccBuf[i] == Ccc(t, cpBuf[i])
  {
    var i := len - 1;
    assert forall j :: 0 <= j < i ==> cpBuf[..len][j] == w[j];
    if ccc > 0 && len > 1 {
      while i > 0 && cccBuf[i - 1] > ccc
        invariant 0 <= i < len
        invariant forall j :: 0 <= j < i ==> cpBuf[j] == w[j]
        invariant cpBuf[i] == cp
        invariant forall j :: i < j < len ==> cpBuf[j] == w[j - 1]
        invariant forall j :: i <= j < |w| ==> Ccc(t, w[j]) > ccc
        invariant forall j :: 0 <= j < len ==> cccBuf[j] == Ccc(t, cpBuf[j])
      {
        cpBuf[i] := cpBuf[i - 1];
        cccBuf[i] := cccBuf[i - 1];
        cpBuf[i - 1] := cp;
        cccBuf[i - 1] := ccc;
        i := i - 1;
      }
    }
    BubbleStopsAt(t, w, cp, i);
    Inserted(cpBuf[..len], w, cp, i);
  }

  const WINDOW_SIZE: nat := 18

  class NormCtx {
    const u: Ucd
    const compat: bool
    const compose: bool
    var cpBuf: array<scalar>
    var cccBuf: array<nat>
    var len: nat
    var outCps: seq<scalar>   // flushed code points when composing
    var outBytes: seq<byte>   // flushed UTF-8 otherwise
    ghost var flushed: seq<scalar>

    ghost predicate Valid()
      reads this, cpBuf, cccBuf
    {
      && len <= cpBuf.Length == cccBuf.Length && 0 < cpBuf.Length
      && cpBuf as object != cccBuf as object
      && (forall i :: 0 <= i < len ==> cccBuf[i] == Ccc(u.ccc, cpBuf[i]))
      && outCps == (if compose then flushed else [])
      && outBytes == (if compose then [] else EncodeAll(flushed))
    }

    ghost function Window(): seq<scalar>
      reads this, cpBuf
      requires len <= cpBuf.Length
    {
      cpBuf[..len]
    }

    /** Everything added so far, in canonical order. */
    ghost function View(): seq<scalar>
      reads this, cpBuf
      requires len <= cpBuf.Length
    {
      flushed + Window()
    }

    ghost predicate Ready()
      reads this, cpBuf, cccBuf
    {
      Valid() && Sealed(u.ccc, flushed, Window())
    }

    /** At most one starter, in front, and then the marks in order. */
    ghost predicate Shaped()
      reads this, cpBuf
    {
      len <= cpBuf.Length && OneSegment(u.ccc, Window())
    }

    /** norm_ctx_init */
    constructor (u: Ucd, compat: bool, compose: bool)
      ensures Ready() && Shaped() && fresh(cpBuf) && fresh(cccBuf)
      ensures this.u == u && this.compat == compat && this.compose == compose
      ensures View() == [] && flushed == []
    {
      this.u := u;
      this.compat := compat;
      this.compose := compose;
      cpBuf := new scalar[WINDOW_SIZE](_ => 0);
      cccBuf := new nat[WINDOW_SIZE](_ => 0);
      len := 0;
      outCps, outBytes, flushed := [], [], [];
    }

    /** norm_ctx_grow_slow: growing keeps the window. */
    method Grow(needed: nat)
      requires Valid()
      modifies this
      ensures Valid() && Window() == old(Window()) && flushed == old(flushed) && len == old(len)
      ensures cpBuf.Length >= needed && fresh(cpBuf) && fresh(cccBuf)
    {
      var cap := cpBuf.Length;
      while cap < needed
        invariant cap >= cpBuf.Length
      {
        cap := cap * 2;
      }
      var cps := new scalar[cap](_ => 0);
      var cccs := new nat[cap](_ => 0);
      forall i | 0 <= i < len {
        cps[i] := cpBuf[i];
      }
      forall i | 0 <= i < len {
        cccs[i] := cccBuf[i];
      }
      cpBuf, cccBuf := cps, cccs;
    }

    /** norm_ctx_add: append and bubble into place. */
    method Add(cp: scalar, ccc: nat)
      requires Valid() && ccc == Ccc(u.ccc, cp)
      modifies this, cpBuf, cccBuf
      ensures Valid() && Window() == Bubble(u.ccc, old(Window()), cp) && flushed == old(flushed)
      ensures (cpBuf == old(cpBuf) && cccBuf == old(cccBuf)) || (fresh(cpBuf) && fresh(cccBuf))
    {
      if len >= cpBuf.Length {
        Grow(len + 1);
      }
      Append(cp, ccc);
    }

    /** The end of norm_ctx_add: there is room. */
    method Append(cp: scalar, ccc: nat)
      requires Valid() && ccc == Ccc(u.ccc, cp) && len < cpBuf.Length
      modifies this, cpBuf, cccBuf
      ensures Valid() && Window() == Bubble(u.ccc, old(Window()), cp) && flushed == old(flushed)
      ensures cpBuf == old(cpBuf) && cccBuf == old(cccBuf)
    {
      ghost var w := Window();
      cpBuf[len] := cp;
      cccBuf[len] := ccc;
      len := len + 1;
      assert cpBuf[..len] == w + [cp];
      Settle(u.ccc, cpBuf, cccBuf, len, cp, ccc, w);
    }

    /** norm_ctx_flush */
    method Flush()
      requires Valid()
      modifies this
      ensures Valid() && flushed == old(View()) && Window() == []
      ensures cpBuf == old(cpBuf) && cccBuf == old(cccBuf)
    {
      if len > 0 {
        if compose {
          outCps := outCps + cpBuf[..len];
        } else {
          EncodeAllConcat(flushed, cpBuf[..len]);
          outBytes := outBytes + EncodeAll(cpBuf[..len]);
        }
        flushed := View();
      }
      assert len == 0 ==> flushed + Window() == flushed;
      len := 0;
    }

    /** A flush that a starter triggers keeps the window sealed. */
    method FlushAfterStarter()
      requires Valid() && len > 0 && cccBuf[len - 1] == 0
      modifies this
      ensures Ready() && Shaped() && View() == old(View())
      ensures cpBuf == old(cpBuf) && cccBuf == old(cccBuf)
    {
      assert View()[|View()| - 1] == cpBuf[len - 1];
      Flush();
    }

    /** The last character of the window is a starter. */
    ghost predicate EndsWithStarter()
      reads this, cccBuf
    {
      0 < len <= cccBuf.Length && cccBuf[len - 1] == 0
    }

    /** Adding to a sealed window adds to the whole text. */
    method AddSealed(cp: scalar)
      requires Ready()
      modifies this, cpBuf, cccBuf
      ensures Ccc(u.ccc, cp) == 0 ==> EndsWithStarter()
      ensures Ready() && View() == Bubble(u.ccc, old(View()), cp)
      ensures Window() == Bubble(u.ccc, old(Window()), cp)
      ensures (cpBuf == old(cpBuf) && cccBuf == old(cccBuf)) || (fresh(cpBuf) && fresh(cccBuf))
    {
      ghost var w, w' := Window(), Bubble(u.ccc, Window(), cp);
      BubbleStaysInWindow(u.ccc, flushed, w, cp);
      assert Ccc(u.ccc, cp) == 0 ==> w' == w + [cp];
      Add(cp, Ccc(u.ccc, cp));
      assert Window() == w';
      if Ccc(u.ccc, cp) == 0 {
        assert cpBuf[len - 1] == Window()[len - 1] == cp;
      }
    }

    /** The leaf case of norm_decompose_cp: a starter flushes what is before it. */
    method AddLeaf(cp: scalar)
      requires Ready() && Shaped()
      modifies this, cpBuf, cccBuf
      ensures Ready() && Shaped() && View() == Bubble(u.ccc, old(View()), cp)
      ensures (cpBuf == old(cpBuf) && cccBuf == old(cccBuf)) || (fresh(cpBuf) && fresh(cccBuf))
    {
      if Ccc(u.ccc, cp) == 0 {
        Flush();
        Add(cp, 0);
        assert Window() == [cp];
      } else {
        BubbleKeepsSegment(u.ccc, Window(), cp);
        AddSealed(cp);
      }
    }

    /** Successive calls of norm_ctx_add on an unfinished window. */
    method AddAll(cps: seq<scalar>)
      requires Ready()
      modifies this, cpBuf, cccBuf
      ensures cps != [] && Ccc(u.ccc, cps[|cps| - 1]) == 0 ==> EndsWithStarter()
      ensures Ready() && View() == BubbleAll(u.ccc, old(View()), cps)
      ensures (cpBuf == old(cpBuf) && cccBuf == old(cccBuf)) || (fresh(cpBuf) && fresh(cccBuf))
    {
      ghost var result := BubbleAll(u.ccc, View(), cps);
      var i := 0;
      while i < |cps|
        invariant 0 <= i <= |cps|
        invariant Ready()
        invariant (cpBuf == old(cpBuf) && cccBuf == old(cccBuf)) || (fresh(cpBuf) && fresh(cccBuf))
        invariant BubbleAll(u.ccc, View(), cps[i..]) == result
        invariant i > 0 && Ccc(u.ccc, cps[i - 1]) == 0 ==> EndsWithStarter()
      {
        BubbleAllNext(u.ccc, View(), cps, i);
        AddSealed(cps[i]);
        i := i + 1;
      }
    }

    /** norm_decompose_hangul. The jamo join the window without a flush between them,
        so its shape is restored only by the flush that follows. */
    method DecomposeHangul(cp: scalar)
      requires Ready() && ValidDecomp(u) && IsHangul(cp)
      modifies this, cpBuf, cccBuf
      ensures EndsWithStarter()
      ensures Ready() && View() == BubbleAll(u.ccc, old(View()), FullDecomp(u, compat, cp))
      ensures (cpBuf == old(cpBuf) && cccBuf == old(cccBuf)) || (fresh(cpBuf) && fresh(cccBuf))
    {
      var jamo := SplitHangul(cp);
      JamoAreStarters(u, jamo);
      AddAll(jamo);
    }

    /** norm_decompose_cp */
    method DecomposeCp(cp: scalar)
      requires Ready() && Shaped() && ValidDecomp(u) && !IsHangul(cp)
      modifies this, cpBuf, cccBuf
      ensures Ready() && Shaped() && View() == BubbleAll(u.ccc, old(View()), FullDecomp(u, compat, cp))
      ensures (cpBuf == old(cpBuf) && cccBuf == old(cccBuf)) || (fresh(cpBuf) && fresh(cccBuf))
      decreases Depth(u, cp), 1, 0
    {
      if !Decomposes(u, compat, cp) {
        BubbleAllOne(u.ccc, View(), cp);
        AddLeaf(cp);
        return;
      }
      AddValsSpec(u, compat, View(), cp, 0);
      DecomposeVals(cp);
    }

    /** The loop of norm_decompose_cp. */
    method DecomposeVals(cp: scalar)
      requires Ready() && Shaped() && ValidDecomp(u) && cp in u.decomp
      modifies this, cpBuf, cccBuf
      ensures Ready() && Shaped() && View() == AddVals(u, compat, old(View()), cp, 0)
      ensures (cpBuf == old(cpBuf) && cccBuf == old(cccBuf)) || (fresh(cpBuf) && fresh(cccBuf))
      decreases Depth(u, cp), 0, 1
    {
      var vals := u.decomp[cp].vals;
      ghost var result := AddVals(u, compat, View(), cp, 0);
      var i: nat := 0;
      while i < |vals|
        invariant Ready() && Shaped()
        invariant (cpBuf == old(cpBuf) && cccBuf == old(cccBuf)) || (fresh(cpBuf) && fresh(cccBuf))
        invariant i <= |vals| && AddVals(u, compat, View(), cp, i) == result
      {
        DecomposeVal(cp, i);
        i := i + 1;
      }
    }

    /** One turn of the loop. */
    method DecomposeVal(cp: scalar, i: nat)
      requires Ready() && Shaped() && ValidDecomp(u) && cp in u.decomp && i < |u.decomp[cp].vals|
      modifies this, cpBuf, cccBuf
      ensures Ready() && Shaped() && AddVals(u, compat, View(), cp, i + 1) == AddVals(u, compat, old(View()), cp, i)
      ensures (cpBuf == old(cpBuf) && cccBuf == old(cccBuf)) || (fresh(cpBuf) && fresh(cccBuf))
      decreases Depth(u, cp), 0, 0
    {
      DecomposeCp(u.decomp[cp].vals[i]);
    }
  }
}
