/** Lexical path text on a POSIX build (src/ucb/path.c): anchors, segments and
    the canonical spelling that separates segments by single slashes. */
module PathText {

  const SEP: char := '/'

  /** path_detect_anchor: exactly two leading separators are an anchor of their
      own, any other number counts as one. */
  function AnchorLen(s: string): (n: nat)
    ensures n <= 2 && n <= |s| && forall i :: 0 <= i < n ==> s[i] == SEP
  {
    if s == "" || s[0] != SEP then 0
    else if |s| >= 2 && s[1] == SEP && (|s| < 3 || s[2] != SEP) then 2
    else 1
  }

  predicate IsAnchor(s: string) {
    s == "/" || s == "//"
  }

  predicate IsSegment(s: string) {
    s != "" && SEP !in s
  }

  predicate AreSegments(segs: seq<string>) {
    forall i :: 0 <= i < |segs| ==> IsSegment(segs[i])
  }

  /** How many characters precede the first separator. */
  function Run(s: string): (n: nat)
    ensures n <= |s| && SEP !in s[..n] && (n < |s| ==> s[n] == SEP)
  {
    if s == "" || s[0] == SEP then 0
    else
      var n := Run(s[1..]);
      assert s[..n + 1] == [s[0]] + s[1..][..n];
      n + 1
  }

  /** The segments of s: its maximal runs without separators. */
  function Segments(s: string): (segs: seq<string>)
    ensures AreSegments(segs)
    decreases |s|
  {
    if s == "" then []
    else if s[0] == SEP then Segments(s[1..])
    else [s[..Run(s)]] + Segments(s[Run(s)..])
  }

  /** Segments separated by single separators. */
  function Join(segs: seq<string>): string {
    if segs == [] then ""
    else if |segs| == 1 then segs[0]
    else segs[0] + [SEP] + Join(segs[1..])
  }

  /** The canonical spelling: anchor, then joined segments. */
  function Canonical(s: string): string {
    s[..AnchorLen(s)] + Join(Segments(s[AnchorLen(s)..]))
  }

  // ---------------------------------------------------------------------------
  // Segments and Join
  // ---------------------------------------------------------------------------

  lemma {:induction false} SegmentsSkip(k: nat, s: string)
    ensures Segments(seq(k, _ => SEP) + s) == Segments(s)
    decreases k
  {
    var z := seq(k, _ => SEP) + s;
    if k == 0 {
      assert z == s;
    } else {
      assert z[1..] == seq(k - 1, _ => SEP) + s;
      SegmentsSkip(k - 1, s);
    }
  }

  lemma {:induction false} RunOfSegment(g: string, rest: string)
    requires SEP !in g && (rest == "" || rest[0] == SEP)
    ensures Run(g + rest) == |g|
  {
    if g == "" {
      assert g + rest == rest;
    } else {
      assert g[0] in g && forall c :: c in g[1..] ==> c in g;
      assert (g + rest)[1..] == g[1..] + rest;
      RunOfSegment(g[1..], rest);
    }
  }

  /** A segment in front of the end or a separator is read off whole. */
  lemma SegmentFirst(g: string, rest: string)
    requires IsSegment(g) && (rest == "" || rest[0] == SEP)
    ensures Segments(g + rest) == [g] + Segments(rest)
  {
    RunOfSegment(g, rest);
    assert (g + rest)[0] == g[0];
    assert (g + rest)[..|g|] == g && (g + rest)[|g|..] == rest;
  }

  lemma {:induction false} SegmentsOfJoin(segs: seq<string>, rest: string)
    requires AreSegments(segs) && (rest == "" || rest[0] == SEP)
    ensures Segments(Join(segs) + rest) == segs + Segments(rest)
  {
    if segs == [] {
      assert Join(segs) + rest == rest;
    } else if |segs| == 1 {
      SegmentFirst(segs[0], rest);
      assert segs == [segs[0]];
    } else {
      SegmentsOfJoin(segs[1..], rest);
      FirstOfJoin(segs[0], Join(segs[1..]), rest);
      assert segs == [segs[0]] + segs[1..];
    }
  }

  lemma FirstOfJoin(g: string, j: string, rest: string)
    requires IsSegment(g)
    ensures Segments((g + [SEP] + j) + rest) == [g] + Segments(j + rest)
  {
    Assoc(g, [SEP], j, rest);
    SegmentFirst(g, [SEP] + (j + rest));
    assert ([SEP] + (j + rest))[1..] == j + rest;
  }

  lemma Assoc(a: string, b: string, c: string, d: string)
    ensures (a + b + c) + d == a + (b + (c + d))
    ensures a + (b + c) == a + b + c
  {
  }

  lemma SegmentsJoin(segs: seq<string>)
    requires AreSegments(segs)
    ensures Segments(Join(segs)) == segs
  {
    SegmentsOfJoin(segs, "");
    assert Join(segs) + "" == Join(segs);
  }

  lemma FrontOf(g: string, r: string, b: string)
    requires IsSegment(g) && (r + b == "" || (r + b)[0] == SEP)
    ensures Segments((g + r) + b) == [g] + Segments(r + b)
  {
    assert (g + r) + b == g + (r + b);
    SegmentFirst(g, r + b);
  }

  lemma InFront(g: string, a: seq<string>, b: seq<string>)
    ensures [g] + (a + b) == ([g] + a) + b
  {
  }

  /** Splitting a text at a separator splits its segments. */
  lemma {:induction false} SegmentsConcat(a: string, b: string)
    requires b == "" || b[0] == SEP
    ensures Segments(a + b) == Segments(a) + Segments(b)
    decreases |a|
  {
    if a == "" {
      assert a + b == b;
    } else if a[0] == SEP {
      assert (a + b)[1..] == a[1..] + b;
      SegmentsConcat(a[1..], b);
    } else {
      var g, r := a[..Run(a)], a[Run(a)..];
      assert a == g + r;
      SegmentsConcat(r, b);
      FrontOf(g, r, b);
      SegmentFirst(g, r);
      InFront(g, Segments(r), Segments(b));
    }
  }

  lemma {:induction false} SegmentsBehindSep(a: string, b: string)
    requires a == "" || a[|a| - 1] == SEP
    ensures Segments(a + b) == Segments(a) + Segments(b)
    decreases |a|
  {
    if a == "" {
      assert a + b == b;
    } else if a[0] == SEP {
      assert (a + b)[1..] == a[1..] + b;
      SegmentsBehindSep(a[1..], b);
    } else {
      var g, r := a[..Run(a)], a[Run(a)..];
      assert a == g + r && r != "";
      SegmentsBehindSep(r, b);
      FrontOf(g, r, b);
      SegmentFirst(g, r);
      InFront(g, Segments(r), Segments(b));
    }
  }

  lemma SegmentsSnocSep(t: string)
    ensures Segments(t + [SEP]) == Segments(t)
  {
    SegmentsConcat(t, [SEP]);
    assert [SEP][1..] == "";
  }

  /** A character behind a separator opens a segment. */
  lemma {:induction false} SegmentsOpen(t: string, c: char)
    requires c != SEP && (t == "" || t[|t| - 1] == SEP)
    ensures Segments(t + [c]) == Segments(t) + [[c]]
    decreases |t|
  {
    if t == "" {
      SegmentFirst([c], "");
      assert t + [c] == [c] + "";
    } else if t[0] == SEP {
      assert (t + [c])[1..] == t[1..] + [c];
      SegmentsOpen(t[1..], c);
    } else {
      var g, r := t[..Run(t)], t[Run(t)..];
      assert t == g + r && t + [c] == g + (r + [c]);
      SegmentFirst(g, r);
      SegmentFirst(g, r + [c]);
      SegmentsOpen(r, c);
    }
  }

  /** A character behind another extends the last segment. */
  lemma {:induction false} SegmentsExtend(t: string, c: char)
    requires c != SEP && t != "" && t[|t| - 1] != SEP
    ensures Segments(t) != [] && Segments(t + [c]) == ExtendLast(Segments(t), c)
    decreases |t|
  {
    if t[0] == SEP {
      assert (t + [c])[1..] == t[1..] + [c];
      SegmentsExtend(t[1..], c);
    } else if Run(t) == |t| {
      assert t == t + "" && t + [c] == (t + [c]) + "";
      SegmentFirst(t, "");
      SegmentFirst(t + [c], "");
      assert ExtendLast([t], c) == [t + [c]];
    } else {
      var g, r := t[..Run(t)], t[Run(t)..];
      SegmentsExtend(r, c);
      ExtendBehind(g, r, c);
      assert t == g + r;
    }
  }

  lemma ExtendBehind(g: string, r: string, c: char)
    requires IsSegment(g) && r != "" && r[0] == SEP && Segments(r) != []
    requires Segments(r + [c]) == ExtendLast(Segments(r), c)
    ensures Segments((g + r) + [c]) == ExtendLast(Segments(g + r), c)
  {
    SegmentFirst(g, r);
    SegmentFirst(g, r + [c]);
    Assoc(g, r, [c], "");
    ExtendLastBehind(g, Segments(r), c);
  }

  lemma ExtendLastBehind(g: string, segs: seq<string>, c: char)
    requires segs != []
    ensures ExtendLast([g] + segs, c) == [g] + ExtendLast(segs, c)
  {
  }

  function ExtendLast(segs: seq<string>, c: char): seq<string>
    requires segs != []
  {
    segs[..|segs| - 1] + [segs[|segs| - 1] + [c]]
  }

  lemma JoinExtend(segs: seq<string>, c: char)
    requires segs != []
    ensures Join(ExtendLast(segs, c)) == Join(segs) + [c]
  {
    var pre, g := segs[..|segs| - 1], segs[|segs| - 1];
    assert segs == pre + [g];
    JoinSnoc(pre, g);
    JoinSnoc(pre, g + [c]);
    if pre != [] {
      var h := Join(pre) + [SEP];
      assert h + (g + [c]) == (h + g) + [c];
    }
  }

  /** Join is not empty and neither starts nor ends with a separator. */
  lemma {:induction false} JoinEnds(segs: seq<string>)
    requires AreSegments(segs) && segs != []
    ensures Join(segs) != "" && Join(segs)[0] != SEP && Join(segs)[|Join(segs)| - 1] != SEP
  {
    if |segs| == 1 {
      var g := segs[0];
      assert g[0] in g && g[|g| - 1] in g;
    } else {
      JoinEnds(segs[1..]);
      assert segs[0][0] in segs[0];
    }
  }

  lemma {:induction false} JoinSnoc(segs: seq<string>, g: string)
    ensures Join(segs + [g]) == if segs == [] then g else Join(segs) + [SEP] + g
  {
    if |segs| == 0 {
      assert segs + [g] == [g];
    } else {
      assert (segs + [g])[1..] == segs[1..] + [g] && (segs + [g])[0] == segs[0];
      JoinSnoc(segs[1..], g);
    }
  }

  lemma {:induction false} JoinConcat(a: seq<string>, b: seq<string>)
    requires a != [] && b != []
    ensures Join(a + b) == Join(a) + [SEP] + Join(b)
  {
    if |a| == 1 {
      assert (a + b)[1..] == b && (a + b)[0] == a[0];
    } else {
      assert (a + b)[1..] == a[1..] + b && (a + b)[0] == a[0];
      JoinConcat(a[1..], b);
      assert a[0] + [SEP] + (Join(a[1..]) + [SEP] + Join(b)) == (a[0] + [SEP] + Join(a[1..])) + [SEP] + Join(b);
    }
  }

  // ---------------------------------------------------------------------------
  // Rooted texts
  // ---------------------------------------------------------------------------

  function Slashes(n: nat): string
    requires n <= 2
  {
    if n == 0 then "" else if n == 1 then "/" else "//"
  }

  /** An anchor of n separators with segments behind it. */
  function Rooted(n: nat, segs: seq<string>): string
    requires n <= 2
  {
    Slashes(n) + Join(segs)
  }

  /** Anchor and segments can be read back. */
  lemma ReadRooted(n: nat, segs: seq<string>)
    requires n <= 2 && AreSegments(segs)
    ensures AnchorLen(Rooted(n, segs)) == n
    ensures Rooted(n, segs)[n..] == Join(segs) && Rooted(n, segs)[..n] == Slashes(n)
    ensures Segments(Rooted(n, segs)[n..]) == segs
    ensures Canonical(Rooted(n, segs)) == Rooted(n, segs)
  {
    if segs != [] {
      JoinEnds(segs);
    }
    SegmentsJoin(segs);
  }

  lemma CanonicalIsRooted(s: string)
    ensures Canonical(s) == Rooted(AnchorLen(s), Segments(s[AnchorLen(s)..]))
  {
    assert s[..AnchorLen(s)] == Slashes(AnchorLen(s));
  }

  lemma CanonicalIdempotent(s: string)
    ensures Canonical(Canonical(s)) == Canonical(s)
  {
    CanonicalIsRooted(s);
    ReadRooted(AnchorLen(s), Segments(s[AnchorLen(s)..]));
  }
}
