/** Lexical normalization of paths (src/ucb/path.c): a plain fold over segments,
    and the loop over one growing and truncating buffer that computes it. */
module PathNormal {
  import opened PathText

  // ---------------------------------------------------------------------------
  // The fold
  // ---------------------------------------------------------------------------

  /** One segment: `.` is skipped; `..` removes the last segment that is not
      itself `..`, is kept if there is none, and vanishes at an anchor. */
  function Push(rooted: bool, stack: seq<string>, seg: string): seq<string> {
    if seg == "." then stack
    else if seg == ".." then
      if stack != [] && stack[|stack| - 1] != ".." then stack[..|stack| - 1]
      else if rooted then stack
      else stack + [seg]
    else stack + [seg]
  }

  function PushAll(rooted: bool, stack: seq<string>, segs: seq<string>): seq<string>
    decreases |segs|
  {
    if segs == [] then stack else PushAll(rooted, Push(rooted, stack, segs[0]), segs[1..])
  }

  /** The segments that remain. */
  function Resolved(s: string): seq<string> {
    PushAll(AnchorLen(s) > 0, [], Segments(s[AnchorLen(s)..]))
  }

  /** The normal form of a path text. */
  function Normal(s: string): string {
    if AnchorLen(s) == 0 && Resolved(s) == [] && s != "" then "."
    else s[..AnchorLen(s)] + Join(Resolved(s))
  }

  // ---------------------------------------------------------------------------
  // What a normal form looks like
  // ---------------------------------------------------------------------------

  /** Nothing left to resolve: no `.`, and `..` only in a leading block, which an
      anchored path does not have. */
  predicate IsResolved(rooted: bool, segs: seq<string>) {
    && AreSegments(segs)
    && (forall i :: 0 <= i < |segs| ==> segs[i] != ".")
    && (forall i :: 0 <= i < |segs| && segs[i] == ".." ==>
          !rooted && (i == 0 || segs[i - 1] == ".."))
  }

  lemma PushKeepsResolved(rooted: bool, stack: seq<string>, seg: string)
    requires IsResolved(rooted, stack) && IsSegment(seg)
    ensures IsResolved(rooted, Push(rooted, stack, seg))
  {
  }

  lemma {:induction false} PushAllResolved(rooted: bool, stack: seq<string>, segs: seq<string>)
    requires IsResolved(rooted, stack) && AreSegments(segs)
    ensures IsResolved(rooted, PushAll(rooted, stack, segs))
    decreases |segs|
  {
    if segs != [] {
      PushKeepsResolved(rooted, stack, segs[0]);
      PushAllResolved(rooted, Push(rooted, stack, segs[0]), segs[1..]);
    }
  }

  lemma {:induction false} PushAllFixed(rooted: bool, stack: seq<string>, segs: seq<string>)
    requires IsResolved(rooted, stack + segs)
    ensures PushAll(rooted, stack, segs) == stack + segs
    decreases |segs|
  {
    if segs == [] {
      assert stack + segs == stack;
    } else {
      var all := stack + segs;
      assert segs[0] == all[|stack|];
      if stack != [] {
        assert stack[|stack| - 1] == all[|stack| - 1];
      }
      assert Push(rooted, stack, segs[0]) == stack + [segs[0]];
      assert stack + [segs[0]] + segs[1..] == all;
      PushAllFixed(rooted, stack + [segs[0]], segs[1..]);
    }
  }

  /** The normal form has the anchor of the text and its resolved segments; an
      absolute path keeps no `..`, a relative one only a leading block. */
  lemma NormalShape(s: string)
    ensures AnchorLen(Normal(s)) == AnchorLen(s)
    ensures IsResolved(AnchorLen(s) > 0, Resolved(s))
    ensures Normal(s) != "." ==> Segments(Normal(s)[AnchorLen(s)..]) == Resolved(s)
    ensures Canonical(Normal(s)) == Normal(s)
  {
    var n := AnchorLen(s);
    PushAllResolved(n > 0, [], Segments(s[n..]));
    assert s[..n] == Slashes(n);
    ReadRooted(n, Resolved(s));
    DotIsCanonical();
  }

  lemma DotIsCanonical()
    ensures Segments(".") == ["."] && Canonical(".") == "."
  {
    SegmentFirst(".", "");
    assert "." + "" == ".";
  }

  lemma NormalOfDot()
    ensures Normal(".") == "."
  {
    DotIsCanonical();
    assert "."[0..] == ".";
    assert Resolved(".") == PushAll(false, Push(false, [], "."), ["."][1..]) == [];
  }

  lemma NormalIdempotent(s: string)
    ensures Normal(Normal(s)) == Normal(s)
  {
    var n, r := AnchorLen(s), Resolved(s);
    var t := Normal(s);
    NormalShape(s);
    assert s[..n] == Slashes(n);
    if t == "." {
      NormalOfDot();
    } else {
      PushAllFixed(n > 0, [], r);
      assert [] + r == r;
      assert Resolved(t) == r;
      ReadRooted(n, r);
    }
  }

  // ---------------------------------------------------------------------------
  // What resolving removes
  // ---------------------------------------------------------------------------

  lemma {:induction false} PushAllConcat(rooted: bool, stack: seq<string>, a: seq<string>, b: seq<string>)
    ensures PushAll(rooted, stack, a + b) == PushAll(rooted, PushAll(rooted, stack, a), b)
    decreases |a|
  {
    if a == [] {
      assert a + b == b;
    } else {
      assert (a + b)[1..] == a[1..] + b;
      PushAllConcat(rooted, Push(rooted, stack, a[0]), a[1..], b);
    }
  }

  lemma ResolvedOf(n: nat, segs: seq<string>)
    requires n <= 2 && AreSegments(segs)
    ensures Resolved(Rooted(n, segs)) == PushAll(n > 0, [], segs)
  {
    ReadRooted(n, segs);
  }

  /** Segments in the middle that leave any stack as it is can be left out. */
  lemma Skips(n: nat, x: seq<string>, gone: seq<string>, y: seq<string>)
    requires n <= 2 && AreSegments(x) && AreSegments(gone) && AreSegments(y)
    requires var stack := PushAll(n > 0, [], x); PushAll(n > 0, stack, gone) == stack
    ensures Resolved(Rooted(n, x + gone + y)) == Resolved(Rooted(n, x + y))
  {
    ResolvedOf(n, x + gone + y);
    ResolvedOf(n, x + y);
    PushAllConcat(n > 0, [], x + gone, y);
    PushAllConcat(n > 0, [], x, gone);
    PushAllConcat(n > 0, [], x, y);
  }

  /** `..` removes the ordinary segment before it, wherever the two stand. */
  lemma ParentCancels(n: nat, x: seq<string>, g: string, y: seq<string>)
    requires n <= 2 && AreSegments(x) && IsSegment(g) && g != "." && g != ".." && AreSegments(y)
    ensures Resolved(Rooted(n, x + [g, ".."] + y)) == Resolved(Rooted(n, x + y))
  {
    var stack := PushAll(n > 0, [], x);
    assert [g, ".."][1..] == [".."] && [".."][1..] == [];
    assert Push(n > 0, stack, g) == stack + [g] && Push(n > 0, stack + [g], "..") == stack;
    Skips(n, x, [g, ".."], y);
  }

  /** `.` says nothing anywhere. */
  lemma DotVanishes(n: nat, x: seq<string>, y: seq<string>)
    requires n <= 2 && AreSegments(x) && AreSegments(y)
    ensures Resolved(Rooted(n, x + ["."] + y)) == Resolved(Rooted(n, x + y))
  {
    assert ["."][1..] == [];
    Skips(n, x, ["."], y);
  }

  /** Directly behind an anchor, `..` says nothing either. */
  lemma ParentOfRootVanishes(n: nat, y: seq<string>)
    requires 0 < n <= 2 && AreSegments(y)
    ensures Resolved(Rooted(n, [".."] + y)) == Resolved(Rooted(n, y))
  {
    assert [".."][1..] == [] && [] + [".."] + y == [".."] + y && [] + y == y;
    Skips(n, [], [".."], y);
  }

  /** Nothing else is removed: what is left when none of the three can be, stays. */
  lemma ResolvedStays(n: nat, segs: seq<string>)
    requires n <= 2 && IsResolved(n > 0, segs)
    ensures Resolved(Rooted(n, segs)) == segs
  {
    ResolvedOf(n, segs);
    assert [] + segs == segs;
    PushAllFixed(n > 0, [], segs);
  }

  /** The normal form of a text is that of its segments: texts with one anchor whose
      segments resolve alike have the same normal form, where the empty text, which
      stays empty, counts as `.`. */
  lemma NormalByResolved(s: string, t: string)
    requires AnchorLen(s) == AnchorLen(t) && Resolved(s) == Resolved(t)
    ensures s != "" && t != "" ==> Normal(s) == Normal(t)
    ensures s != "" && t == "" ==> Normal(s) == "."
    ensures Normal("") == ""
  {
    assert s[..AnchorLen(s)] == Slashes(AnchorLen(s)) == t[..AnchorLen(t)];
  }

  /** For instance, with any anchor, any segments around and any ordinary segment. */
  lemma NormalCancels(n: nat, x: seq<string>, g: string, y: seq<string>)
    requires n <= 2 && AreSegments(x) && IsSegment(g) && g != "." && g != ".." && AreSegments(y)
    ensures Normal(Rooted(n, x + [g, ".."] + y)) == if Rooted(n, x + y) == "" then "." else Normal(Rooted(n, x + y))
  {
    var z := x + [g, ".."] + y;
    ReadRooted(n, z);
    ReadRooted(n, x + y);
    ParentCancels(n, x, g, y);
    JoinEnds(z);
    NormalByResolved(Rooted(n, z), Rooted(n, x + y));
  }

  // ---------------------------------------------------------------------------
  // The loop
  // ---------------------------------------------------------------------------

  /** Step over separators. */
  method SkipSeps(s: string, i: nat) returns (j: nat)
    requires i <= |s|
    ensures i <= j <= |s| && (j < |s| ==> s[j] != SEP)
    ensures Segments(s[i..]) == Segments(s[j..])
  {
    j := i;
    while j < |s| && s[j] == SEP
      invariant i <= j <= |s|
      invariant Segments(s[i..]) == Segments(s[j..])
    {
      assert s[j..][1..] == s[j + 1..];
      j := j + 1;
    }
  }

  /** Step over one segment. */
  method SkipSegment(s: string, i: nat) returns (j: nat)
    requires i < |s| && s[i] != SEP
    ensures i < j <= |s| && (j < |s| ==> s[j] == SEP)
    ensures IsSegment(s[i..j]) && Segments(s[i..]) == [s[i..j]] + Segments(s[j..])
  {
    j := i;
    while j < |s| && s[j] != SEP
      invariant i <= j <= |s| && SEP !in s[i..j]
    {
      assert s[i..j + 1] == s[i..j] + [s[j]];
      j := j + 1;
    }
    assert s[i..] == s[i..j] + s[j..];
    SegmentFirst(s[i..j], s[j..]);
  }

  /** out holds the anchor and the stack; starts remembers how long it was before
      each entry. */
  ghost predicate Stacked(anchor: string, stack: seq<string>, out: string, starts: seq<nat>) {
    && out == anchor + Join(stack)
    && |stack| <= |starts|
    && forall d :: 0 <= d < |stack| ==> starts[d] == |anchor + Join(stack[..d])|
  }

  /** base counts the leading `..` entries. */
  predicate BaseIs(stack: seq<string>, base: nat) {
    && base <= |stack|
    && (forall d :: 0 <= d < base ==> stack[d] == "..")
    && (forall d :: base <= d < |stack| ==> stack[d] != "..")
  }

  /** Append a segment with a separator where one is needed. */
  method Append(ghost anchor: string, ghost stack: seq<string>, out: string, starts: array<nat>, depth: nat, seg: string)
    returns (out': string)
    requires IsAnchor(anchor) || anchor == ""
    requires AreSegments(stack) && IsSegment(seg) && depth == |stack| < starts.Length
    requires Stacked(anchor, stack, out, starts[..])
    modifies starts
    ensures Stacked(anchor, stack + [seg], out', starts[..])
  {
    ghost var before := starts[..];
    starts[depth] := |out|;
    PushStacked(anchor, stack, before, seg);
    if |out| > 0 && out[|out| - 1] != SEP {
      out' := out + [SEP] + seg;
    } else {
      out' := out + seg;
    }
  }

  lemma PushStacked(anchor: string, stack: seq<string>, starts: seq<nat>, seg: string)
    requires IsAnchor(anchor) || anchor == ""
    requires AreSegments(stack) && |stack| < |starts|
    requires Stacked(anchor, stack, anchor + Join(stack), starts)
    ensures var out := anchor + Join(stack);
            var out' := if |out| > 0 && out[|out| - 1] != SEP then out + [SEP] + seg else out + seg;
            Stacked(anchor, stack + [seg], out', starts[|stack| := |out|])
  {
    TextAfterPush(anchor, stack, seg);
    StartsAfterPush(anchor, stack, starts, seg);
  }

  lemma TextAfterPush(anchor: string, stack: seq<string>, seg: string)
    requires IsAnchor(anchor) || anchor == ""
    requires AreSegments(stack)
    ensures var out := anchor + Join(stack);
            (if |out| > 0 && out[|out| - 1] != SEP then out + [SEP] + seg else out + seg) == anchor + Join(stack + [seg])
  {
    JoinSnoc(stack, seg);
    if stack != [] {
      JoinEnds(stack);
      Behind(anchor, Join(stack), seg);
    } else {
      assert stack + [seg] == [seg] && anchor + "" == anchor;
    }
  }

  lemma Behind(a: string, j: string, seg: string)
    requires j != "" && j[|j| - 1] != SEP
    ensures var out := a + j; |out| > 0 && out[|out| - 1] != SEP && out + [SEP] + seg == a + (j + [SEP] + seg)
  {
  }

  lemma StartsAfterPush(anchor: string, stack: seq<string>, starts: seq<nat>, seg: string)
    requires |stack| < |starts|
    requires forall d :: 0 <= d < |stack| ==> starts[d] == |anchor + Join(stack[..d])|
    ensures var more := stack + [seg];
            var starts' := starts[|stack| := |anchor + Join(stack)|];
            forall d :: 0 <= d < |more| ==> starts'[d] == |anchor + Join(more[..d])|
  {
    var more := stack + [seg];
    forall d | 0 <= d < |more| ensures d <= |stack| && more[..d] == stack[..d] {
    }
    assert stack[..|stack|] == stack;
  }

  lemma PopStacked(anchor: string, stack: seq<string>, out: string, starts: seq<nat>)
    requires Stacked(anchor, stack, out, starts) && stack != []
    ensures var d := |stack| - 1;
            starts[d] <= |out| && Stacked(anchor, stack[..d], out[..starts[d]], starts)
  {
    var d := |stack| - 1;
    var pre := stack[..d];
    assert stack == pre + [stack[d]];
    JoinSnoc(pre, stack[d]);
    var kept := anchor + Join(pre);
    assert out[..|kept|] == kept by {
      if pre != [] {
        assert out == kept + ([SEP] + stack[d]);
      }
    }
    forall e | 0 <= e < d ensures pre[..e] == stack[..e] {
    }
  }

  /** One turn of the loop: apply a segment to the buffer. */
  method Handle(ghost anchor: string, ghost stack: seq<string>, out: string, starts: array<nat>,
                depth: nat, base: nat, rooted: bool, seg: string)
    returns (out': string, depth': nat, base': nat)
    requires IsAnchor(anchor) || anchor == ""
    requires AreSegments(stack) && IsSegment(seg) && depth == |stack| < starts.Length
    requires BaseIs(stack, base) && Stacked(anchor, stack, out, starts[..])
    modifies starts
    ensures var stack' := Push(rooted, stack, seg);
            && depth' == |stack'| <= |stack| + 1 && AreSegments(stack')
            && BaseIs(stack', base') && Stacked(anchor, stack', out', starts[..])
  {
    out', depth', base' := out, depth, base;
    if seg == "." {
      return;
    }
    if seg == ".." {
      if depth > base {
        PopStacked(anchor, stack, out, starts[..]);
        depth' := depth - 1;
        out' := out[..starts[depth']];
      } else if !rooted {
        out' := Append(anchor, stack, out, starts, depth, seg);
        depth' := depth + 1;
        base' := base + 1;
      }
      return;
    }
    out' := Append(anchor, stack, out, starts, depth, seg);
    depth' := depth + 1;
  }

  lemma PushNext(rooted: bool, stack: seq<string>, seg: string, rest: seq<string>)
    ensures PushAll(rooted, stack, [seg] + rest) == PushAll(rooted, Push(rooted, stack, seg), rest)
  {
    assert ([seg] + rest)[1..] == rest;
  }

  /** Read the segment at i and apply it. */
  method Turn(path: string, i: nat, ghost anchor: string, ghost stack: seq<string>, out: string, starts: array<nat>,
              depth: nat, base: nat, rooted: bool)
    returns (i': nat, out': string, depth': nat, base': nat, ghost stack': seq<string>)
    requires i < |path| && path[i] != SEP && depth == |stack| < starts.Length
    requires IsAnchor(anchor) || anchor == ""
    requires AreSegments(stack) && BaseIs(stack, base) && Stacked(anchor, stack, out, starts[..])
    modifies starts
    ensures i < i' <= |path| && depth' == |stack'| <= |stack| + 1
    ensures AreSegments(stack') && BaseIs(stack', base') && Stacked(anchor, stack', out', starts[..])
    ensures PushAll(rooted, stack', Segments(path[i'..])) == PushAll(rooted, stack, Segments(path[i..]))
  {
    i' := SkipSegment(path, i);
    PushNext(rooted, stack, path[i..i'], Segments(path[i'..]));
    out', depth', base' := Handle(anchor, stack, out, starts, depth, base, rooted, path[i..i']);
    stack' := Push(rooted, stack, path[i..i']);
  }

  /** path_normalize_lexical. The stack is never deeper than the characters read,
      so starts, which has one entry per character, is never left. */
  method NormalizeLexical(path: string) returns (out: string)
    ensures out == Normal(path)
  {
    var n := AnchorLen(path);
    ghost var anchor := path[..n];
    out := path[..n];
    var starts := new nat[|path| + 1](_ => 0);
    ghost var stack: seq<string> := [];
    var depth: nat, base: nat := 0, 0;
    var i: nat := n;
    while i < |path|
      invariant n <= i <= |path| && depth == |stack| <= i
      invariant AreSegments(stack) && BaseIs(stack, base)
      invariant Stacked(anchor, stack, out, starts[..])
      invariant PushAll(n > 0, stack, Segments(path[i..])) == Resolved(path)
      decreases |path| - i
    {
      i := SkipSeps(path, i);
      if i >= |path| {
        break;
      }
      i, out, depth, base, stack := Turn(path, i, anchor, stack, out, starts, depth, base, n > 0);
    }
    EmptyText(n, path, stack);
    if |out| == 0 && |path| > 0 && n == 0 {
      out := ".";
    }
  }

  /** The buffer ends up empty exactly when there is neither anchor nor segment. */
  lemma EmptyText(n: nat, path: string, stack: seq<string>)
    requires n <= |path| && AreSegments(stack)
    ensures PushAll(n > 0, stack, Segments("")) == stack
    ensures path[..n] + Join(stack) == "" <==> n == 0 && stack == []
  {
    if stack != [] {
      JoinEnds(stack);
    }
  }
}
