/** The four normalization forms (UAX #15) as src/ucb/unicode.c computes them,
    from UTF-8 to UTF-8, and what the forms are for: they are idempotent, and
    two texts have the same form exactly if they are equivalent. */
module Normalization {
  import opened Utf8
  import Utf8Codec
  import opened Ordering
  import opened Decomposition
  import opened Composition
  import opened InPlaceComposition
  import opened NormContext

  datatype Form = NFD | NFKD | NFC | NFKC

  predicate IsCompat(f: Form) {
    f == NFKD || f == NFKC
  }

  predicate IsComposed(f: Form) {
    f == NFC || f == NFKC
  }

  /** The decomposed form of a text, canonical or compatible. */
  function Decomposed(u: Ucd, compat: bool, s: seq<scalar>): seq<scalar>
    requires ValidDecomp(u)
  {
    Reorder(u.ccc, DecompAll(u, compat, s))
  }

  function NormalForm(u: Ucd, f: Form, s: seq<scalar>): seq<scalar>
    requires ValidDecomp(u)
  {
    var d := Decomposed(u, IsCompat(f), s);
    if IsComposed(f) then Compose(u, d) else d
  }

  /** The four forms by name: decomposition by the canonical mappings or by all of
      them, canonical order, and for NFC and NFKC composition (D118 to D121). */
  lemma FormsByName(u: Ucd, s: seq<scalar>)
    requires ValidDecomp(u)
    ensures NormalForm(u, NFD, s) == Reorder(u.ccc, DecompAll(u, false, s))
    ensures NormalForm(u, NFKD, s) == Reorder(u.ccc, DecompAll(u, true, s))
    ensures NormalForm(u, NFC, s) == Compose(u, Reorder(u.ccc, DecompAll(u, false, s)))
    ensures NormalForm(u, NFKC, s) == Compose(u, Reorder(u.ccc, DecompAll(u, true, s)))
  {
  }

  /** Canonical equivalence (D70), or compatibility equivalence (D67). */
  ghost predicate SameText(u: Ucd, compat: bool, a: seq<scalar>, b: seq<scalar>)
    requires ValidDecomp(u)
  {
    Equivalent(u.ccc, DecompAll(u, compat, a), DecompAll(u, compat, b))
  }

  // ---------------------------------------------------------------------------
  // What the forms guarantee
  // ---------------------------------------------------------------------------

  lemma ReorderKeepsAtoms(u: Ucd, compat: bool, s: seq<scalar>)
    requires AllAtoms(u, compat, s)
    ensures AllAtoms(u, compat, Reorder(u.ccc, s))
  {
    var r := Reorder(u.ccc, s);
    BubbleAllPermutes(u.ccc, [], s);
    forall i | 0 <= i < |r| ensures IsAtom(u, compat, r[i]) {
      assert r[i] in multiset(r);
      assert r[i] in s;
    }
  }

  /** A decomposed form is decomposed and ordered. */
  lemma DecomposedIsNormal(u: Ucd, compat: bool, s: seq<scalar>)
    requires ValidDecomp(u)
    ensures AllAtoms(u, compat, Decomposed(u, compat, s))
    ensures Ordered(u.ccc, Decomposed(u, compat, s))
  {
    DecompAllAtoms(u, compat, s);
    ReorderKeepsAtoms(u, compat, DecompAll(u, compat, s));
    ReorderSpec(u.ccc, DecompAll(u, compat, s), Decomposed(u, compat, s));
  }

  /** The texts that decomposition and ordering leave alone are exactly those the
      quick check looks for. */
  lemma NormalIffFixed(u: Ucd, compat: bool, s: seq<scalar>)
    requires ValidDecomp(u)
    ensures AllAtoms(u, compat, s) && Ordered(u.ccc, s) <==> Decomposed(u, compat, s) == s
  {
    if AllAtoms(u, compat, s) && Ordered(u.ccc, s) {
      AtomsFixed(u, compat, s);
      ReorderFixesOrdered(u.ccc, s);
    } else {
      DecomposedIsNormal(u, compat, s);
    }
  }

  /** Decomposing a composed form gives the decomposed form it was made from. */
  lemma DecomposeComposed(u: Ucd, compat: bool, s: seq<scalar>)
    requires ValidUcd(u)
    ensures Decomposed(u, compat, Compose(u, Decomposed(u, compat, s))) == Decomposed(u, compat, s)
  {
    DecomposedIsNormal(u, compat, s);
    ComposePreserves(u, compat, Decomposed(u, compat, s));
  }

  lemma DecomposedIdempotent(u: Ucd, compat: bool, s: seq<scalar>)
    requires ValidDecomp(u)
    ensures Decomposed(u, compat, Decomposed(u, compat, s)) == Decomposed(u, compat, s)
  {
    DecomposedIsNormal(u, compat, s);
    NormalIffFixed(u, compat, Decomposed(u, compat, s));
  }

  /** All four forms are idempotent. */
  lemma Idempotent(u: Ucd, f: Form, s: seq<scalar>)
    requires ValidUcd(u)
    ensures NormalForm(u, f, NormalForm(u, f, s)) == NormalForm(u, f, s)
  {
    DecomposeComposed(u, IsCompat(f), s);
    DecomposedIdempotent(u, IsCompat(f), s);
  }

  /** Normalizing stays within the equivalence class. */
  lemma FormIsEquivalent(u: Ucd, f: Form, s: seq<scalar>)
    requires ValidUcd(u)
    ensures SameText(u, IsCompat(f), NormalForm(u, f, s), s)
  {
    var c := IsCompat(f);
    DecomposeComposed(u, c, s);
    DecomposedIdempotent(u, c, s);
    EquivalentIffReorder(u.ccc, DecompAll(u, c, NormalForm(u, f, s)), DecompAll(u, c, s));
  }

  /** Equal forms, equivalent texts: normalization decides equivalence. */
  lemma FormsDecideEquivalence(u: Ucd, f: Form, a: seq<scalar>, b: seq<scalar>)
    requires ValidUcd(u)
    ensures NormalForm(u, f, a) == NormalForm(u, f, b) <==> SameText(u, IsCompat(f), a, b)
  {
    var c := IsCompat(f);
    EquivalentIffReorder(u.ccc, DecompAll(u, c, a), DecompAll(u, c, b));
    DecomposeComposed(u, c, a);
    DecomposeComposed(u, c, b);
  }

  // ---------------------------------------------------------------------------
  // Quick check
  // ---------------------------------------------------------------------------

  /** The quick-check flags of the property table. */
  datatype Flags = Flags(compExcl: set<scalar>, nfkcNo: set<scalar>, compMaybe: set<scalar>)

  /** What the quick check accepts one code point on. */
  predicate QuickOk(u: Ucd, q: Flags, f: Form, c: scalar) {
    if IsComposed(f) then
      IsHangul(c) ||
      (c !in (if IsCompat(f) then q.nfkcNo else q.compExcl) && c !in q.compMaybe && !IsVowel(c) && !IsTrailing(c))
    else IsAtom(u, IsCompat(f), c)
  }

  /** The quick check of the composed forms by name: no starter of the flag table, no
      code point that may compose with one before it, and marks in order. */
  lemma QuickByName(u: Ucd, q: Flags, s: seq<scalar>)
    ensures QuickAccepts(u, q, NFC, s) <==>
            (forall i :: 0 <= i < |s| && !(0xAC00 <= s[i] <= 0xD7A3) ==>
               && s[i] !in q.compExcl && s[i] !in q.compMaybe
               && !(0x1161 <= s[i] <= 0x1175) && !(0x11A8 <= s[i] <= 0x11C2)) && Ordered(u.ccc, s)
    ensures QuickAccepts(u, q, NFKC, s) <==>
            (forall i :: 0 <= i < |s| && !(0xAC00 <= s[i] <= 0xD7A3) ==>
               && s[i] !in q.nfkcNo && s[i] !in q.compMaybe
               && !(0x1161 <= s[i] <= 0x1175) && !(0x11A8 <= s[i] <= 0x11C2)) && Ordered(u.ccc, s)
  {
  }

  ghost predicate QuickAccepts(u: Ucd, q: Flags, f: Form, s: seq<scalar>) {
    (forall i :: 0 <= i < |s| ==> QuickOk(u, q, f, s[i])) && Ordered(u.ccc, s)
  }

  /** For NFD and NFKD the quick check is exact: it accepts precisely the texts
      that are their own normal form, so every result is accepted and taking the
      quick path never changes the outcome. */
  lemma QuickCheckExact(u: Ucd, q: Flags, f: Form, s: seq<scalar>)
    requires ValidDecomp(u) && !IsComposed(f)
    ensures QuickAccepts(u, q, f, s) <==> NormalForm(u, f, s) == s
    ensures QuickAccepts(u, q, f, NormalForm(u, f, s))
  {
    NormalIffFixed(u, IsCompat(f), s);
    DecomposedIsNormal(u, IsCompat(f), s);
  }

  /** One code point of ucb_uc_is_normalized. */
  method CheckOne(u: Ucd, q: Flags, f: Form, cp: scalar, lastCcc: nat) returns (ok: bool, ccc: nat)
    requires ValidDecomp(u)
    ensures ok <==> QuickOk(u, q, f, cp) && !(lastCcc > Ccc(u.ccc, cp) > 0)
    ensures ok ==> ccc == Ccc(u.ccc, cp)
  {
    if IsHangul(cp) {
      return IsComposed(f), 0;
    }
    if !IsComposed(f) {
      if cp in u.decomp && (IsCompat(f) || u.decomp[cp].canonical) {
        return false, 0;
      }
    } else {
      if cp in (if IsCompat(f) then q.nfkcNo else q.compExcl) || cp in q.compMaybe {
        return false, 0;
      }
      if IsVowel(cp) || IsTrailing(cp) {
        return false, 0;
      }
    }
    ccc := Ccc(u.ccc, cp);
    if ccc != 0 && ccc < lastCcc {
      return false, 0;
    }
    return true, ccc;
  }

  lemma QuickSnoc(u: Ucd, q: Flags, f: Form, s: seq<scalar>, c: scalar)
    ensures QuickAccepts(u, q, f, s + [c]) <==>
            && QuickAccepts(u, q, f, s)
            && QuickOk(u, q, f, c)
            && (s == [] || !(Ccc(u.ccc, s[|s| - 1]) > Ccc(u.ccc, c) > 0))
  {
    OrderedSnoc(u.ccc, s, c);
    var r := s + [c];
    assert r[|s|] == c && forall i :: 0 <= i < |s| ==> r[i] == s[i];
  }

  lemma QuickPrefix(u: Ucd, q: Flags, f: Form, s: seq<scalar>, k: nat)
    requires k <= |s| && QuickAccepts(u, q, f, s)
    ensures QuickAccepts(u, q, f, s[..k])
  {
  }

  lemma Shift(cps: seq<scalar>, k: nat, cp: scalar, rest: seq<scalar>)
    requires k <= |cps| && cps[k..] == [cp] + rest
    ensures k < |cps| && cps[k] == cp && cps[k + 1..] == rest
    ensures cps[..k + 1] == cps[..k] + [cp]
  {
    assert cp == cps[k..][0] == cps[k];
    assert cps[k..][1..] == cps[k + 1..];
  }

  /** ucb_uc_is_normalized */
  method IsNormalized(u: Ucd, q: Flags, s: seq<byte>, f: Form) returns (ok: bool)
    requires WellFormed(s) && ValidDecomp(u)
    ensures ok <==> QuickAccepts(u, q, f, DecodeAll(s))
  {
    ghost var cps := DecodeAll(s);
    ghost var k: nat := 0;
    var lastCcc := 0;
    var pos := 0;
    while pos < |s|
      invariant k <= |cps| && pos <= |s| && WellFormed(s[pos..]) && DecodeAll(s[pos..]) == cps[k..]
      invariant QuickAccepts(u, q, f, cps[..k])
      invariant lastCcc == if k == 0 then 0 else Ccc(u.ccc, cps[k - 1])
      decreases |s| - pos
    {
      var cp: scalar;
      cp, pos := Utf8Codec.NextValid(s, pos);
      Shift(cps, k, cp, DecodeAll(s[pos..]));
      QuickSnoc(u, q, f, cps[..k], cp);
      var ok1;
      ok1, lastCcc := CheckOne(u, q, f, cp, lastCcc);
      if !ok1 {
        if QuickAccepts(u, q, f, cps) {
          QuickPrefix(u, q, f, cps, k + 1);
        }
        return false;
      }
      k := k + 1;
    }
    assert cps[..k] == cps;
    return true;
  }

  // ---------------------------------------------------------------------------
  // Normalization of byte strings
  // ---------------------------------------------------------------------------

  /** The loop of normalize: stream all code points through the window. */
  method Stream(u: Ucd, s: seq<byte>, compat: bool, compose: bool) returns (ctx: NormCtx)
    requires WellFormed(s) && ValidDecomp(u)
    ensures fresh(ctx) && ctx.Valid() && ctx.u == u && ctx.compose == compose
    ensures ctx.flushed == Decomposed(u, compat, DecodeAll(s))
  {
    ctx := new NormCtx(u, compat, compose);
    ghost var all := DecompAll(u, compat, DecodeAll(s));
    var pos := 0;
    while pos < |s|
      invariant pos <= |s| && WellFormed(s[pos..])
      invariant fresh(ctx) && fresh(ctx.cpBuf) && fresh(ctx.cccBuf) && ctx.Ready() && ctx.Shaped()
      invariant BubbleAll(u.ccc, ctx.View(), DecompAll(u, compat, DecodeAll(s[pos..]))) == Reorder(u.ccc, all)
      decreases |s| - pos
    {
      var cp: scalar;
      cp, pos := Utf8Codec.NextValid(s, pos);
      StreamStep(u, compat, ctx.View(), cp, DecodeAll(s[pos..]));
      FeedOne(ctx, cp);
    }
    ctx.Flush();
  }

  lemma StreamStep(u: Ucd, compat: bool, v: seq<scalar>, cp: scalar, rest: seq<scalar>)
    requires ValidDecomp(u)
    ensures BubbleAll(u.ccc, v, DecompAll(u, compat, [cp] + rest)) ==
            BubbleAll(u.ccc, BubbleAll(u.ccc, v, FullDecomp(u, compat, cp)), DecompAll(u, compat, rest))
  {
    assert ([cp] + rest)[1..] == rest;
    BubbleAllConcat(u.ccc, v, FullDecomp(u, compat, cp), DecompAll(u, compat, rest));
  }

  /** One turn of that loop. */
  method FeedOne(ctx: NormCtx, cp: scalar)
    requires ctx.Ready() && ctx.Shaped() && ValidDecomp(ctx.u)
    modifies ctx, ctx.cpBuf, ctx.cccBuf
    ensures ctx.Ready() && ctx.Shaped()
    ensures ctx.View() == BubbleAll(ctx.u.ccc, old(ctx.View()), FullDecomp(ctx.u, ctx.compat, cp))
    ensures (ctx.cpBuf == old(ctx.cpBuf) && ctx.cccBuf == old(ctx.cccBuf)) || (fresh(ctx.cpBuf) && fresh(ctx.cccBuf))
  {
    if IsHangul(cp) {
      ctx.DecomposeHangul(cp);
      ctx.FlushAfterStarter();
    } else {
      ctx.DecomposeCp(cp);
      if ctx.len > 0 && ctx.cccBuf[ctx.len - 1] == 0 {
        ctx.FlushAfterStarter();
      }
    }
  }

  lemma NoHangulInDecomposed(u: Ucd, compat: bool, s: seq<scalar>)
    requires ValidDecomp(u)
    ensures NoHangul(Decomposed(u, compat, s))
  {
    DecomposedIsNormal(u, compat, s);
  }

  /** ucb_uc_normalize_full: always the full algorithm. */
  method NormalizeFull(u: Ucd, s: seq<byte>, f: Form) returns (r: seq<byte>)
    requires WellFormed(s) && ValidUcd(u)
    ensures r == EncodeAll(NormalForm(u, f, DecodeAll(s)))
  {
    var ctx := Stream(u, s, IsCompat(f), IsComposed(f));
    if IsComposed(f) {
      NoHangulInDecomposed(u, IsCompat(f), DecodeAll(s));
      var n := |ctx.outCps|;
      var cps := new scalar[n](_ => 0);
      forall i | 0 <= i < n {
        cps[i] := ctx.outCps[i];
      }
      assert cps[..n] == ctx.outCps;
      var count := NormCompose(u, cps, n);
      r := EncodeAll(cps[..count]);
    } else {
      r := ctx.outBytes;
    }
  }

  /** ucb_uc_normalize: strings that pass the quick check are copied. For NFD and
      NFKD this is the same as running the full algorithm; for NFC and NFKC a
      copied string is one on which no flag and no misplaced mark was found. */
  method Normalize(u: Ucd, q: Flags, s: seq<byte>, f: Form) returns (r: seq<byte>)
    requires WellFormed(s) && ValidUcd(u)
    ensures !IsComposed(f) || !QuickAccepts(u, q, f, DecodeAll(s)) ==>
              r == EncodeAll(NormalForm(u, f, DecodeAll(s)))
    ensures QuickAccepts(u, q, f, DecodeAll(s)) ==> r == s
  {
    var quick := IsNormalized(u, q, s, f);
    if quick {
      if !IsComposed(f) {
        QuickCheckExact(u, q, f, DecodeAll(s));
      }
      return s;
    }
    r := NormalizeFull(u, s, f);
  }
}
