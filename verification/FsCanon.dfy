/** Canonical file-system paths (src/ucb/fs.c, POSIX build): the canonicalizer
    that resolves `..` only where one occurs, and the containment test on
    canonical texts. Path strings hold no NUL characters. */
module FsCanon {
  import opened PathText
  import opened PathModel
  import opened PathNormal
  import opened PathObject

  /** The text with backslashes read as separators. */
  function Slashed(s: string): (r: string)
    ensures |r| == |s|
    ensures forall i :: 0 <= i < |s| ==> r[i] == (if s[i] == '\\' then SEP else s[i])
  {
    seq(|s|, i requires 0 <= i < |s| => if s[i] == '\\' then SEP else s[i])
  }

  /** Some component between separators of either kind is `..`. */
  predicate HasParent(s: string) {
    ".." in Segments(Slashed(s))
  }

  method SkipAnySeps(s: string, i: nat) returns (j: nat)
    requires i <= |s|
    ensures i <= j <= |s| && (j < |s| ==> Slashed(s)[j] != SEP)
    ensures Segments(Slashed(s)[i..]) == Segments(Slashed(s)[j..])
  {
    ghost var t := Slashed(s);
    j := i;
    while j < |s| && (s[j] == '/' || s[j] == '\\')
      invariant i <= j <= |s|
      invariant Segments(t[i..]) == Segments(t[j..])
    {
      assert t[j..][1..] == t[j + 1..];
      j := j + 1;
    }
  }

  method SkipComponent(s: string, i: nat) returns (j: nat)
    requires i <= |s| && (i < |s| ==> Slashed(s)[i] != SEP)
    ensures i <= j <= |s| && (i < |s| ==> i < j)
    ensures Segments(Slashed(s)[i..]) == (if i < j then [s[i..j]] else []) + Segments(Slashed(s)[j..])
  {
    ghost var t := Slashed(s);
    j := i;
    while j < |s| && s[j] != '/' && s[j] != '\\'
      invariant i <= j <= |s| && SEP !in t[i..j] && t[i..j] == s[i..j]
    {
      assert t[i..j + 1] == t[i..j] + [t[j]];
      j := j + 1;
    }
    if i < j {
      assert t[i..] == t[i..j] + t[j..];
      SegmentFirst(t[i..j], t[j..]);
    }
  }

  lemma IsDotDot(s: string, i: nat, j: nat)
    requires i <= j <= |s|
    ensures s[i..j] == ".." <==> j - i == 2 && s[i] == '.' && s[i + 1] == '.'
  {
    if j - i == 2 {
      assert s[i..j] == [s[i], s[i + 1]];
    }
  }

  /** fs_has_parent_component */
  method HasParentComponent(path: string) returns (r: bool)
    ensures r <==> HasParent(path)
  {
    ghost var t := Slashed(path);
    var cursor: nat := 0;
    assert t[0..] == t;
    while cursor < |path|
      invariant cursor <= |path|
      invariant HasParent(path) <==> ".." in Segments(t[cursor..])
      decreases |path| - cursor
    {
      var start := SkipAnySeps(path, cursor);
      cursor := SkipComponent(path, start);
      IsDotDot(path, start, cursor);
      if cursor - start == 2 && path[start] == '.' && path[start + 1] == '.' {
        return true;
      }
    }
    assert t[cursor..] == "";
    return false;
  }

  /** A `..` segment is a `..` component. */
  lemma {:induction false} SegmentIsComponent(s: string)
    ensures ".." in Segments(s) ==> HasParent(s)
    decreases |s|
  {
    if s == "" {
    } else if s[0] == SEP {
      SlashedSplit(s, 1);
      assert s[..1] == "/";
      assert Slashed(s)[1..] == Slashed(s[1..]);
      SegmentIsComponent(s[1..]);
    } else {
      var k := Run(s);
      SlashedSplit(s, k);
      SegmentIsComponent(s[k..]);
      SegmentsConcat(Slashed(s[..k]), Slashed(s[k..]));
      if s[..k] == ".." {
        assert Slashed("..") == "..";
        SegmentFirst("..", "");
        assert ".." + "" == "..";
      }
    }
  }

  lemma SlashedSplit(s: string, k: nat)
    requires k <= |s|
    ensures Slashed(s) == Slashed(s[..k]) + Slashed(s[k..])
  {
  }

  // ---------------------------------------------------------------------------
  // The canonicalizer
  // ---------------------------------------------------------------------------

  /** What a string looks like after parsing and composing. */
  function Reparsed(s: string): string {
    if TripleRooted(s[..DirLen(s)]) then "//" + Join(Segments(s)) else Canonical(s)
  }

  function Canon(s: string): string {
    if HasParent(Reparsed(s)) then Normal(Reparsed(s)) else Reparsed(s)
  }

  /** ucb_fs_canon */
  method FsCanonical(path: string) returns (out: string)
    ensures out == Canon(path)
  {
    var parsed := new Path(path);
    ParseThenCompose(path, parsed.Val());
    var text := parsed.ToStr();
    var up := HasParentComponent(text);
    if up {
      parsed.Normalize();
    }
    out := parsed.ToStr();
  }

  lemma ReparsedShape(s: string)
    ensures Canonical(Reparsed(s)) == Reparsed(s)
    ensures AnchorLen(Reparsed(s)) > 0 <==> AnchorLen(s) > 0
  {
    if TripleRooted(s[..DirLen(s)]) {
      assert s[..DirLen(s)][..3][0] == SEP;
      assert Reparsed(s) == Rooted(2, Segments(s));
      ReadRooted(2, Segments(s));
    } else {
      CanonicalIdempotent(s);
      CanonicalIsRooted(s);
      ReadRooted(AnchorLen(s), Segments(s[AnchorLen(s)..]));
    }
  }

  /** A text with single separators is canonical as it is, `.` included, unless some
      component is `..`; then its normal form is. */
  lemma CanonByCase(n: nat, segs: seq<string>)
    requires n <= 2 && AreSegments(segs)
    ensures var s := Rooted(n, segs); Canon(s) == if HasParent(s) then Normal(s) else s
  {
    var s := Rooted(n, segs);
    ReadRooted(n, segs);
    CanonicalNotTriple(s, DirLen(s));
  }

  /** Canonicalizing again changes nothing. */
  lemma CanonIdempotent(s: string)
    ensures Canon(Canon(s)) == Canon(s)
  {
    ReparsedShape(s);
    NormalShape(Reparsed(s));
    CanonicalNotTriple(Canon(s), DirLen(Canon(s)));
    if HasParent(Reparsed(s)) {
      NormalIdempotent(Reparsed(s));
    }
  }

  /** `..` occurs at most in a leading block, and not at all behind an anchor. */
  predicate ParentsResolved(rooted: bool, segs: seq<string>) {
    forall i :: 0 <= i < |segs| && segs[i] == ".." ==> !rooted && (i == 0 || segs[i - 1] == "..")
  }

  lemma NoParentSegments(s: string)
    requires !HasParent(s)
    ensures ".." !in Segments(s[AnchorLen(s)..])
  {
    var n := AnchorLen(s);
    SegmentIsComponent(s);
    SegmentsSkip(n, s[n..]);
    assert s == seq(n, _ => SEP) + s[n..];
  }

  /** In the result an absolute path has no `..` left, and a relative path only a
      leading block of them. */
  lemma CanonResolvesParents(s: string)
    ensures AnchorLen(Canon(s)) > 0 <==> AnchorLen(s) > 0
    ensures ParentsResolved(AnchorLen(Canon(s)) > 0, Segments(Canon(s)[AnchorLen(Canon(s))..]))
  {
    var c := Reparsed(s);
    ReparsedShape(s);
    NormalShape(c);
    if !HasParent(c) {
      NoParentSegments(c);
    } else if Canon(s) == "." {
      DotIsCanonical();
      assert "."[0..] == ".";
    }
  }

  // ---------------------------------------------------------------------------
  // What is left of `..` between separators of either kind
  // ---------------------------------------------------------------------------

  ghost predicate SomeHasParent(segs: seq<string>) {
    exists i :: 0 <= i < |segs| && HasParent(segs[i])
  }

  lemma HasParentSplit(a: string, b: string)
    ensures HasParent(a + [SEP] + b) <==> HasParent(a) || HasParent(b)
  {
    var t := [SEP] + Slashed(b);
    assert Slashed(a + [SEP] + b) == Slashed(a) + t;
    SegmentsConcat(Slashed(a), t);
    assert t[1..] == Slashed(b);
  }

  lemma {:induction false} JoinHasParent(segs: seq<string>)
    ensures HasParent(Join(segs)) <==> SomeHasParent(segs)
  {
    if |segs| == 1 {
      assert HasParent(segs[0]) ==> SomeHasParent(segs);
    } else if segs != [] {
      var more := segs[1..];
      JoinHasParent(more);
      HasParentSplit(segs[0], Join(more));
      if SomeHasParent(more) {
        var i :| 0 <= i < |more| && HasParent(more[i]);
        assert more[i] == segs[i + 1];
      }
      if i :| 0 < i < |segs| && HasParent(segs[i]) {
        assert more[i - 1] == segs[i];
      }
    }
  }

  lemma RootedHasParent(n: nat, segs: seq<string>)
    requires n <= 2
    ensures HasParent(Rooted(n, segs)) <==> SomeHasParent(segs)
  {
    HasParentBehind(n, Join(segs));
    JoinHasParent(segs);
  }

  lemma {:induction false} HasParentBehind(n: nat, t: string)
    requires n <= 2
    ensures HasParent(Slashes(n) + t) <==> HasParent(t)
  {
    if n == 0 {
      assert Slashes(0) + t == t;
    } else {
      HasParentBehind(n - 1, t);
      assert Slashes(n) + t == [SEP] + (Slashes(n - 1) + t);
      HasParentBehindOne(Slashes(n - 1) + t);
    }
  }

  lemma HasParentBehindOne(t: string)
    ensures HasParent([SEP] + t) <==> HasParent(t)
  {
    assert Slashed([SEP] + t)[1..] == Slashed(t);
  }

  /** Resolving invents no segment. */
  lemma {:induction false} PushAllKeeps(rooted: bool, stack: seq<string>, segs: seq<string>, g: string)
    requires g in PushAll(rooted, stack, segs)
    ensures g in stack || g in segs
    decreases |segs|
  {
    if segs != [] {
      PushAllKeeps(rooted, Push(rooted, stack, segs[0]), segs[1..], g);
    }
  }

  lemma ReparsedResolves(s: string)
    ensures var c := Reparsed(s); c == Rooted(AnchorLen(c), Segments(c[AnchorLen(c)..])) && Resolved(c) == Resolved(s)
  {
    var d, n := s[..DirLen(s)], AnchorLen(s);
    if TripleRooted(d) {
      assert s[..3] == d[..3];
      TripleSegments(s);
      assert Reparsed(s) == Rooted(2, Segments(s));
      ReadRooted(2, Segments(s));
    } else {
      CanonicalIsRooted(s);
      ReadRooted(n, Segments(s[n..]));
    }
  }

  lemma NormalHasParent(c: string)
    ensures HasParent(Normal(c)) <==> SomeHasParent(Resolved(c))
  {
    var n := AnchorLen(c);
    if Normal(c) == "." && n == 0 && Resolved(c) == [] {
      DotIsCanonical();
      assert Slashed(".") == ".";
    } else {
      assert c[..n] == Slashes(n);
      RootedHasParent(n, Resolved(c));
    }
  }

  /** The test for `..` components still finds one in the result exactly if it does in
      a segment that resolving leaves: a leading `..`, or a segment with a backslash. */
  lemma CanonKeepsParents(s: string)
    ensures HasParent(Canon(s)) <==> SomeHasParent(Resolved(s))
  {
    var c := Reparsed(s);
    var n, r := AnchorLen(c), Resolved(s);
    ReparsedResolves(s);
    if HasParent(c) {
      NormalHasParent(c);
    } else if SomeHasParent(r) {
      RootedHasParent(n, Segments(c[n..]));
      var i :| 0 <= i < |r| && HasParent(r[i]);
      PushAllKeeps(n > 0, [], Segments(c[n..]), r[i]);
      assert false;
    }
  }

  lemma {:induction false} SegmentsHold(s: string, g: string, c: char)
    requires g in Segments(s) && c in g
    ensures c in s
    decreases |s|
  {
    if s[0] == SEP {
      SegmentsHold(s[1..], g, c);
    } else if g != s[..Run(s)] {
      SegmentsHold(s[Run(s)..], g, c);
    }
  }

  /** Without backslashes the canonical text of an absolute path passes the test. */
  lemma AbsoluteCanonIsClean(s: string)
    requires AnchorLen(s) > 0 && '\\' !in s
    ensures !HasParent(Canon(s))
  {
    var n, r := AnchorLen(s), Resolved(s);
    CanonKeepsParents(s);
    PushAllResolved(true, [], Segments(s[n..]));
    forall i | 0 <= i < |r| ensures !HasParent(r[i]) {
      PushAllKeeps(true, [], Segments(s[n..]), r[i]);
      PlainSegment(s[n..], r[i]);
    }
  }

  lemma PlainSegment(s: string, g: string)
    requires g in Segments(s) && '\\' !in s
    ensures HasParent(g) <==> g == ".."
  {
    if '\\' in g {
      SegmentsHold(s, g, '\\');
    }
    assert Slashed(g) == g == g + "";
    SegmentFirst(g, "");
  }

  /** With one it need not: such a text is canonical as it is. */
  lemma BackslashParentStays(a: string)
    requires IsSegment(a)
    ensures var s := "/" + a + "\\.."; Canon(s) == s && HasParent(s)
  {
    var g := a + "\\..";
    var s := "/" + a + "\\..";
    assert s == Rooted(1, [g]);
    ReadRooted(1, [g]);
    CanonicalNotTriple(s, DirLen(s));
    assert Slashed(g) == Slashed(a + [SEP] + "..");
    HasParentSplit(a, "..");
    assert Slashed("..") == "..";
    SegmentFirst("..", "");
    assert ".." + "" == "..";
    RootedHasParent(1, [g]);
    assert [g][0] == g;
    assert Resolved(s) == PushAll(true, Push(true, [], g), [g][1..]) == [g];
  }

  // ---------------------------------------------------------------------------
  // Containment
  // ---------------------------------------------------------------------------

  predicate IsSepOrBackslash(c: char) {
    c == '/' || c == '\\'
  }

  /** fs_is_within */
  predicate IsWithin(child: string, parent: string) {
    && parent != ""
    && parent <= child
    && (|| |child| == |parent|
        || IsSepOrBackslash(parent[|parent| - 1])
        || IsSepOrBackslash(child[|parent|]))
  }

  /** If the parent's segments are a prefix of the child's, the test says so. */
  lemma PrefixIsWithin(n: nat, x: seq<string>, y: seq<string>)
    requires n <= 2 && AreSegments(x) && y <= x && Rooted(n, y) != ""
    ensures IsWithin(Rooted(n, x), Rooted(n, y))
  {
    var z := x[|y|..];
    assert x == y + z;
    if z == [] {
      assert x == y;
    } else if y == [] {
      DirEnd(n, y);
      assert x == z;
    } else {
      JoinConcat(y, z);
      var p := Rooted(n, y);
      assert Rooted(n, x) == p + ([SEP] + Join(z));
    }
  }

  /** The child goes on behind the parent without a separator, but a backslash on
      one side of the cut makes the test take it for one. */
  predicate BackslashCut(child: string, parent: string) {
    && parent != "" && parent < child
    && parent[|parent| - 1] != SEP && child[|parent|] != SEP
    && (child[|parent|] == '\\' || parent[|parent| - 1] == '\\')
  }

  /** Exactly when the test decides containment of segments, for all anchors and
      segments: unless the parent is empty and the child relative, the parent is the
      root of one separator and the child has two, or a backslash next to the cut is
      taken for a separator. */
  lemma WithinIsPrefix(n: nat, x: seq<string>, m: nat, y: seq<string>)
    requires n <= 2 && m <= 2 && AreSegments(x) && AreSegments(y)
    ensures var c, p := Rooted(n, x), Rooted(m, y);
            (IsWithin(c, p) <==> n == m && y <= x) <==>
            !((n == m == 0 && y == []) || (n == 2 && m == 1 && y == []) || (n == m && BackslashCut(c, p)))
  {
    DirEnd(m, y);
    if Rooted(m, y) == "" {
      assert m == 0 && y == [];
    } else if n == m {
      DirEnd(n, y);
      if y <= x {
        PrefixIsWithin(n, x, y);
        NoCut(n, x, y);
      } else {
        OnlyBackslashCuts(n, x, y);
      }
    } else {
      AnchorsDiffer(n, x, m, y);
    }
  }

  /** A proper prefix of segments is cut at a separator. */
  lemma NoCut(n: nat, x: seq<string>, y: seq<string>)
    requires n <= 2 && AreSegments(x) && y <= x && Rooted(n, y) != ""
    ensures !BackslashCut(Rooted(n, x), Rooted(n, y))
  {
    var z := x[|y|..];
    assert x == y + z;
    if y != [] && z != [] {
      JoinConcat(y, z);
      var p := Rooted(n, y);
      assert Rooted(n, x) == p + ([SEP] + Join(z));
    } else if y != [] {
      assert x == y;
    }
  }

  /** Where the segments are no prefix, only a backslash can make the test hold. */
  lemma OnlyBackslashCuts(n: nat, x: seq<string>, y: seq<string>)
    requires n <= 2 && AreSegments(x) && AreSegments(y) && !(y <= x)
    ensures IsWithin(Rooted(n, x), Rooted(n, y)) <==> BackslashCut(Rooted(n, x), Rooted(n, y))
  {
    var c, p := Rooted(n, x), Rooted(n, y);
    DirEnd(n, y);
    if p <= c && (p == c || c[|p|] == SEP) {
      SepCutIsPrefix(n, x, y);
      assert false;
    }
  }

  lemma SepCutIsPrefix(n: nat, x: seq<string>, y: seq<string>)
    requires n <= 2 && AreSegments(x) && AreSegments(y)
    requires var c, p := Rooted(n, x), Rooted(n, y); p <= c && (p == c || c[|p|] == SEP)
    ensures y <= x
  {
    var c, p := Rooted(n, x), Rooted(n, y);
    var rest := c[|p|..];
    assert c == p + rest && (rest == "" || rest[0] == SEP);
    CancelPrefix(Slashes(n), Join(x), Join(y), rest);
    SegmentsOfJoin(y, rest);
    SegmentsJoin(x);
  }

  lemma CancelPrefix(p: string, a: string, b: string, c: string)
    requires p + a == (p + b) + c
    ensures a == b + c
  {
    assert a == (p + a)[|p|..] && b + c == ((p + b) + c)[|p|..];
  }

  /** Different anchors: only the root of one separator is a prefix of a text with two. */
  lemma AnchorsDiffer(n: nat, x: seq<string>, m: nat, y: seq<string>)
    requires n <= 2 && m <= 2 && n != m && AreSegments(x) && AreSegments(y) && Rooted(m, y) != ""
    ensures IsWithin(Rooted(n, x), Rooted(m, y)) <==> n == 2 && m == 1 && y == []
  {
    FirstBehindAnchor(n, x);
    FirstBehindAnchor(m, y);
  }

  lemma FirstBehindAnchor(n: nat, x: seq<string>)
    requires n <= 2 && AreSegments(x)
    ensures |Rooted(n, x)| >= n && (forall i :: 0 <= i < n ==> Rooted(n, x)[i] == SEP)
    ensures x == [] ==> |Rooted(n, x)| == n
    ensures x != [] ==> |Rooted(n, x)| > n && Rooted(n, x)[n] != SEP
  {
    if x != [] {
      JoinEnds(x);
    }
  }

  /** All exceptions occur, whatever follows: nothing passes as being within the empty
      text, every text with two separators passes as being within the root of one, and
      a name with a backslash as being within what stands in front of it. */
  lemma WithinExceptions(n: nat, x: seq<string>, a: string, b: string)
    requires n <= 2 && AreSegments(x) && IsSegment(a) && IsSegment(b)
    ensures !IsWithin(Rooted(0, x), Rooted(0, [])) && [] <= x
    ensures IsWithin(Rooted(2, x), Rooted(1, []))
    ensures IsWithin(Rooted(n, [a + "\\" + b]), Rooted(n, [a])) && !([a] <= [a + "\\" + b])
  {
    var c, p := Rooted(n, [a + "\\" + b]), Rooted(n, [a]);
    assert c == p + ("\\" + b);
    assert |a + "\\" + b| > |a|;
  }

  // ---------------------------------------------------------------------------
  // The root
  // ---------------------------------------------------------------------------

  predicate IsRootText(s: string) {
    s != "" && forall i :: 0 <= i < |s| ==> s[i] == SEP
  }

  /** ucb_fs_is_root */
  method IsRoot(canon: string) returns (r: bool)
    ensures r <==> IsRootText(canon)
  {
    if |canon| == 0 {
      return false;
    }
    var i := 0;
    while i < |canon|
      invariant 0 <= i <= |canon| && forall j :: 0 <= j < i ==> canon[j] == SEP
    {
      if canon[i] != '/' {
        return false;
      }
      i := i + 1;
    }
    return true;
  }

  /** The test finds exactly the absolute paths without a segment. */
  lemma RootHasNoSegments(n: nat, segs: seq<string>)
    requires n <= 2 && AreSegments(segs)
    ensures IsRootText(Rooted(n, segs)) <==> n > 0 && segs == []
  {
    DirEnd(n, segs);
    var d := Rooted(n, segs);
    if segs != [] {
      assert d[|d| - 1] != SEP;
    } else {
      assert d == Slashes(n);
    }
  }
}
