/** Parsed paths as values (src/ucb/path.c, POSIX build, output separator `/`):
    parsing and composing, and how the parts of a path and its text determine
    each other. */
module PathModel {
  import opened PathText

  /** The components of a parsed path. */
  datatype Value = Value(dir: string, stem: string, ext: string)

  function Name(p: Value): string {
    p.stem + p.ext
  }

  // ---------------------------------------------------------------------------
  // Parts
  // ---------------------------------------------------------------------------

  function AnchorPart(dir: string): seq<string> {
    if AnchorLen(dir) > 0 then [dir[..AnchorLen(dir)]] else []
  }

  function NamePart(p: Value): seq<string> {
    if Name(p) != "" then [Name(p)] else []
  }

  /** Anchor, directory segments, file name. */
  function Parts(p: Value): seq<string> {
    AnchorPart(p.dir) + Segments(p.dir[AnchorLen(p.dir)..]) + NamePart(p)
  }

  /** The text that a list of parts stands for. */
  function Render(parts: seq<string>): string {
    if parts != [] && IsAnchor(parts[0]) then parts[0] + Join(parts[1..]) else Join(parts)
  }

  /** path_compose_to */
  function Compose(p: Value): string {
    p.dir + (if p.dir != "" && Name(p) != "" && p.dir[|p.dir| - 1] != SEP then [SEP] else "") + Name(p)
  }

  /** What parsing and every operation establish: the directory is canonical and
      the name is one segment or missing. */
  ghost predicate WellFormed(p: Value) {
    && Canonical(p.dir) == p.dir
    && SEP !in Name(p)
  }

  /** The shape of a well-formed directory. */
  lemma DirShape(p: Value)
    requires WellFormed(p)
    ensures p.dir == Rooted(AnchorLen(p.dir), Segments(p.dir[AnchorLen(p.dir)..]))
  {
    CanonicalIsRooted(p.dir);
  }

  lemma DirEnd(n: nat, segs: seq<string>)
    requires n <= 2 && AreSegments(segs)
    ensures var d := Rooted(n, segs);
            && (d == "" <==> n == 0 && segs == [])
            && (d != "" ==> (d[|d| - 1] != SEP <==> segs != []))
  {
    if segs != [] {
      JoinEnds(segs);
    }
  }

  /** Adding one segment behind a rooted directory, with a separator exactly where
      the directory does not end with one. */
  lemma RootedSnoc(n: nat, segs: seq<string>, g: string)
    requires n <= 2 && AreSegments(segs)
    ensures var d := Rooted(n, segs);
            d + (if d != "" && d[|d| - 1] != SEP then [SEP] else "") + g == Rooted(n, segs + [g])
  {
    DirEnd(n, segs);
    JoinSnoc(segs, g);
  }

  lemma ComposeIsRooted(p: Value)
    requires WellFormed(p)
    ensures Compose(p) == Rooted(AnchorLen(p.dir), Segments(p.dir[AnchorLen(p.dir)..]) + NamePart(p))
  {
    var n, segs := AnchorLen(p.dir), Segments(p.dir[AnchorLen(p.dir)..]);
    DirShape(p);
    if Name(p) == "" {
      assert segs + NamePart(p) == segs;
    } else {
      RootedSnoc(n, segs, Name(p));
    }
  }

  lemma RenderRooted(dir: string, more: seq<string>)
    requires forall i :: 0 <= i < |more| ==> SEP !in more[i]
    ensures Render(AnchorPart(dir) + more) == Rooted(AnchorLen(dir), more)
  {
    var n := AnchorLen(dir);
    if n == 0 {
      assert AnchorPart(dir) + more == more;
      if more != [] {
        assert "/"[0] == SEP && "//"[0] == SEP;
      }
    } else {
      assert dir[..n] == Slashes(n);
      assert (AnchorPart(dir) + more)[1..] == more;
    }
  }

  /** Composing a path writes down its parts. */
  lemma ComposeIsRender(p: Value)
    requires WellFormed(p)
    ensures Compose(p) == Render(Parts(p))
  {
    var segs := Segments(p.dir[AnchorLen(p.dir)..]);
    ComposeIsRooted(p);
    RenderRooted(p.dir, segs + NamePart(p));
    Behind(AnchorPart(p.dir), segs, NamePart(p));
  }

  lemma Behind(a: seq<string>, b: seq<string>, c: seq<string>)
    ensures a + b + c == a + (b + c)
  {
  }

  /** The parts can be read off the text. */
  lemma PartsOfText(p: Value)
    requires WellFormed(p)
    ensures var s := Compose(p); Parts(p) == AnchorPart(s) + Segments(s[AnchorLen(s)..])
  {
    var n, segs := AnchorLen(p.dir), Segments(p.dir[AnchorLen(p.dir)..]);
    var content := segs + NamePart(p);
    DirShape(p);
    ComposeIsRooted(p);
    ReadRooted(n, segs);
    ReadRooted(n, content);
    assert AnchorPart(p.dir) + content == Parts(p);
  }

  /** Paths have the same parts exactly if they are spelled the same. */
  lemma PartsDetermineText(p: Value, q: Value)
    requires WellFormed(p) && WellFormed(q)
    ensures Parts(p) == Parts(q) <==> Compose(p) == Compose(q)
  {
    ComposeIsRender(p);
    ComposeIsRender(q);
    PartsOfText(p);
    PartsOfText(q);
  }

  // ---------------------------------------------------------------------------
  // Parsing
  // ---------------------------------------------------------------------------

  /** Length of s up to and including its last separator. */
  function DirLen(s: string): (n: nat)
    ensures n <= |s| && SEP !in s[n..] && (n > 0 ==> s[n - 1] == SEP)
  {
    if s == "" then 0
    else if s[|s| - 1] == SEP then |s|
    else
      var n := DirLen(s[..|s| - 1]);
      assert s[n..] == s[..|s| - 1][n..] + [s[|s| - 1]];
      n
  }

  /** The leading dots of a file name. */
  function Dots(name: string): (n: nat)
    ensures n <= |name|
  {
    if name == "" || name[0] != '.' then 0 else 1 + Dots(name[1..])
  }

  /** i can start an extension: a dot, not first, not last, not a leading dot. */
  predicate StartsExt(name: string, i: nat) {
    1 <= i < |name| - 1 && Dots(name) <= i && name[i] == '.'
  }

  /** Where the extension starts, |name| if there is none. */
  ghost predicate IsExtStart(name: string, i: nat) {
    || (StartsExt(name, i) && forall j: nat :: i < j ==> !StartsExt(name, j))
    || (i == |name| && forall j: nat :: !StartsExt(name, j))
  }

  /** path_parse_filename: split at the last dot that can start an extension. */
  method SplitName(name: string) returns (stem: string, ext: string)
    ensures stem + ext == name && IsExtStart(name, |stem|)
  {
    var start := 0;
    while start < |name| && name[start] == '.'
      invariant start <= |name| && Dots(name) == start + Dots(name[start..])
    {
      assert name[start..][1..] == name[start + 1..];
      start := start + 1;
    }
    assert Dots(name) == start;
    if |name| >= 2 {
      var i := |name| - 1;
      while i > 0
        invariant 0 <= i < |name|
        invariant forall j: nat :: i <= j ==> !StartsExt(name, j)
      {
        i := i - 1;
        if i < start || i == 0 {
          break;
        }
        if name[i] == '.' {
          return name[..i], name[i..];
        }
      }
    }
    return name, "";
  }

  /** Three or more leading separators with a directory segment behind them. */
  predicate TripleRooted(region: string) {
    |region| >= 3 && region[..3] == "///" && Segments(region) != []
  }

  /** What path_build_dir makes of a directory region. */
  function BuiltDir(region: string): string {
    if TripleRooted(region) then "//" + Join(Segments(region)) else Canonical(region)
  }

  /** What the loop of path_build_dir writes for one character. */
  function Emitted(dir: string, pending: bool, c: char): string {
    if c == SEP then dir else (if pending && dir != "" then dir + [SEP] else dir) + [c]
  }

  method Emit(dir: string, pending: bool, c: char) returns (dir': string, pending': bool)
    ensures dir' == Emitted(dir, pending, c) && (pending' <==> c == SEP)
  {
    dir' := dir;
    if c == SEP {
      return dir', true;
    }
    if pending && |dir| > 0 {
      dir' := dir' + [SEP];
    }
    dir' := dir' + [c];
    pending' := false;
  }

  /** path_build_dir: copy the anchor, then the characters behind it with every
      run of separators collapsed into one that is written only when another
      segment follows. */
  method BuildDir(region: string) returns (dir: string)
    ensures dir == BuiltDir(region)
  {
    var n := AnchorLen(region);
    dir := region[..n];
    var pending := false;
    var i := n;
    while i < |region|
      invariant n <= i <= |region|
      invariant dir == BuiltSoFar(region, i)
      invariant pending <==> Pending(region, i)
    {
      dir, pending := Emit(dir, pending, region[i]);
      i := i + 1;
    }
    TripleShape(region);
  }

  /** What the loop of BuildDir has written before position i. */
  function BuiltSoFar(region: string, i: nat): string
    requires AnchorLen(region) <= i <= |region|
  {
    if i == AnchorLen(region) then region[..i]
    else Emitted(BuiltSoFar(region, i - 1), Pending(region, i - 1), region[i - 1])
  }

  /** A separator behind the anchor directly precedes position i. */
  predicate Pending(region: string, i: nat)
    requires i <= |region|
  {
    i > AnchorLen(region) && region[i - 1] == SEP
  }

  /** One character of the loop, in terms of what it has collapsed so far. */
  lemma EmitCollapsed(a: string, t: string, c: char)
    requires (t + [c])[0] == SEP ==> a != ""
    ensures Emitted(a + Collapsed(t, a != ""), t != "" && t[|t| - 1] == SEP, c) == a + Collapsed(t + [c], a != "")
  {
    var done := Collapsed(t, a != "");
    assert t != "" ==> (t + [c])[0] == t[0];
    CollapsedSnoc(t, c, a != "");
    Assoc(a, done, [SEP], [c]);
    Assoc(a, done, [c], "");
    if t != "" && a == "" {
      CollapsedNotEmpty(t);
    }
    assert done + ([SEP] + [c]) == done + [SEP] + [c];
    assert a + (done + ([SEP] + [c])) == a + done + [SEP] + [c];
  }

  lemma CollapsedNotEmpty(t: string)
    requires t != "" && t[0] != SEP
    ensures Collapsed(t, false) != ""
  {
    JoinEnds(Segments(t));
  }

  lemma {:induction false} BuiltIsCollapsed(region: string, i: nat)
    requires AnchorLen(region) <= i <= |region|
    ensures BuiltSoFar(region, i) == CollapsedUpTo(region, i)
  {
    if i == AnchorLen(region) {
      CollapsedNothing(region);
    } else {
      BuiltIsCollapsed(region, i - 1);
      CollapsedStep(region, i - 1);
    }
  }

  lemma CollapsedNothing(region: string)
    ensures CollapsedUpTo(region, AnchorLen(region)) == region[..AnchorLen(region)]
  {
    assert region[AnchorLen(region)..AnchorLen(region)] == "";
  }

  /** The anchor and what follows it before position i, collapsed. */
  function CollapsedUpTo(region: string, i: nat): string
    requires AnchorLen(region) <= i <= |region|
  {
    region[..AnchorLen(region)] + Collapsed(region[AnchorLen(region)..i], AnchorLen(region) > 0)
  }

  lemma CollapsedStep(region: string, h: nat)
    requires AnchorLen(region) <= h < |region|
    ensures Emitted(CollapsedUpTo(region, h), Pending(region, h), region[h]) == CollapsedUpTo(region, h + 1)
  {
    var n := AnchorLen(region);
    TakeFirst(region, n, h);
    EmitCollapsed(region[..n], region[n..h], region[h]);
  }

  lemma TakeFirst(region: string, n: nat, i: nat)
    requires n == AnchorLen(region) <= i < |region|
    ensures var t := region[n..i];
            && (t != "" ==> t[|t| - 1] == region[i - 1])
            && (t == "" <==> i == n)
            && region[n..i + 1] == t + [region[i]]
            && ((t + [region[i]])[0] == SEP ==> n > 0)
            && (region[..n] != "" <==> n > 0)
  {
    var t, c := region[n..i], region[i];
    assert |t| == i - n && |region[..n]| == n;
    assert region[n..i + 1] == t + [c];
    assert (t + [c])[0] == region[n];
    if i > n {
      assert t[i - n - 1] == region[i - 1];
    }
  }

  /** Separators collapsed, trailing ones dropped; leading ones count only behind
      an anchor. */
  function Collapsed(t: string, rooted: bool): string {
    if Segments(t) == [] then ""
    else (if rooted && t[0] == SEP then [SEP] else "") + Join(Segments(t))
  }

  /** What one more character adds. */
  function Added(t: string, c: char): string {
    if c == SEP then "" else (if t != "" && t[|t| - 1] == SEP then [SEP] else "") + [c]
  }

  lemma CollapsedSnoc(t: string, c: char, rooted: bool)
    requires t != "" && t[0] == SEP ==> rooted
    ensures Collapsed(t + [c], rooted) == Collapsed(t, rooted) + Added(t, c)
  {
    var segs := Segments(t);
    var lead := if rooted && t != "" && t[0] == SEP then [SEP] else "";
    assert t != "" ==> (t + [c])[0] == t[0];
    if c == SEP {
      SegmentsSnocSep(t);
    } else if t == "" {
      SegmentsOpen(t, c);
      assert Segments(t + [c]) == [[c]];
    } else if t[|t| - 1] == SEP {
      SegmentsOpen(t, c);
      OpenedBehind(lead, segs, c);
      if segs == [] {
        OnlySeparators(t);
      }
    } else {
      SegmentsExtend(t, c);
      JoinExtend(segs, c);
      Appended(lead, Join(segs), [c]);
    }
  }

  lemma Appended(a: string, b: string, c: string)
    ensures a + (b + c) == (a + b) + c
  {
  }

  lemma OpenedBehind(lead: string, segs: seq<string>, c: char)
    ensures Join([[c]]) == [c]
    ensures segs != [] ==> lead + Join(segs + [[c]]) == (lead + Join(segs)) + ([SEP] + [c])
  {
    JoinSnoc(segs, [c]);
    if segs != [] {
      assert Join(segs) + [SEP] + [c] == Join(segs) + ([SEP] + [c]);
      Appended(lead, Join(segs), [SEP] + [c]);
    }
  }

  lemma {:induction false} OnlySeparators(t: string)
    requires Segments(t) == [] && t != ""
    ensures t[0] == SEP
  {
  }

  /** Behind an anchor, collapsing keeps a separator only when the anchor was cut
      from a longer run. */
  lemma TripleShape(region: string)
    ensures BuiltSoFar(region, |region|) == BuiltDir(region)
  {
    var n := AnchorLen(region);
    BuiltIsCollapsed(region, |region|);
    DropAll(region, n);
    if TripleRooted(region) {
      TripleSegments(region);
      TripleCollapsed(region);
    } else {
      NotTriple(region);
    }
  }

  lemma DropAll(s: string, n: nat)
    requires n <= |s|
    ensures s[n..|s|] == s[n..]
  {
  }

  lemma TripleCollapsed(region: string)
    requires |region| >= 3 && region[..3] == "///" && Segments(region[1..]) != []
    ensures region[..1] + Collapsed(region[1..], true) == "//" + Join(Segments(region[1..]))
  {
    assert region[..3][0] == SEP && region[..3][1] == SEP;
    assert region[..1] + ([SEP] + Join(Segments(region[1..]))) == "//" + Join(Segments(region[1..]));
  }

  lemma NotTriple(region: string)
    requires !TripleRooted(region)
    ensures Collapsed(region[AnchorLen(region)..], AnchorLen(region) > 0) == Join(Segments(region[AnchorLen(region)..]))
  {
    var n := AnchorLen(region);
    if |region| > n && n > 0 && region[n] == SEP {
      assert region[..3] == "///";
      assert Segments(region) == Segments(region[1..]);
    }
  }

  /** Behind a single anchor, more separators do not matter for the segments. */
  lemma TripleSegments(s: string)
    requires |s| >= 3 && s[..3] == "///"
    ensures AnchorLen(s) == 1 && Segments(s[1..]) == Segments(s)
  {
    assert s[..3][0] == SEP && s[..3][1] == SEP && s[..3][2] == SEP;
  }

  /** What path_parse makes of a string. */
  ghost predicate IsParse(s: string, p: Value) {
    && p.dir == BuiltDir(s[..DirLen(s)])
    && Name(p) == s[DirLen(s)..]
    && IsExtStart(Name(p), |p.stem|)
  }

  lemma ParseWellFormed(s: string, p: Value)
    requires IsParse(s, p)
    ensures WellFormed(p)
  {
    var region := s[..DirLen(s)];
    if TripleRooted(region) {
      assert BuiltDir(region) == Rooted(2, Segments(region));
      ReadRooted(2, Segments(region));
    } else {
      CanonicalIdempotent(region);
    }
  }

  lemma AnchorBeforeName(r: string, name: string)
    requires (r == "" || r[|r| - 1] == SEP) && SEP !in name
    ensures AnchorLen(r + name) == AnchorLen(r)
  {
    if name == "" {
      assert r + name == r;
    } else {
      assert name[0] in name;
      var s := r + name;
      assert forall i :: 0 <= i < |r| ==> s[i] == r[i];
      assert s[|r|] == name[0];
    }
  }

  /** The directory part has the anchor, and the name is the last segment. */
  lemma SplitText(r: string, name: string)
    requires (r == "" || r[|r| - 1] == SEP) && SEP !in name
    ensures var n := AnchorLen(r);
            && AnchorLen(r + name) == n
            && Segments((r + name)[n..]) == Segments(r[n..]) + (if name != "" then [name] else [])
  {
    AnchorBeforeName(r, name);
    var n := AnchorLen(r);
    assert (r + name)[n..] == r[n..] + name;
    SegmentsBehindSep(r[n..], name);
    if name != "" {
      SegmentFirst(name, "");
      assert name + "" == name;
    }
  }

  /** Parsing and composing again collapses separators and drops a trailing one
      exactly when the directory part is not rooted by three or more separators;
      otherwise the path comes back with the anchor `//` instead of `/`. */
  lemma ParseThenCompose(s: string, p: Value)
    requires IsParse(s, p)
    ensures Compose(p) == Canonical(s) <==> !TripleRooted(s[..DirLen(s)])
    ensures TripleRooted(s[..DirLen(s)]) ==>
              Compose(p) == "//" + Join(Segments(s)) && Canonical(s) == "/" + Join(Segments(s))
  {
    ParseWellFormed(s, p);
    var r, name := s[..DirLen(s)], s[DirLen(s)..];
    ComposeParsed(r, name, p);
    Rejoin(s, DirLen(s));
  }

  lemma Rejoin(s: string, n: nat)
    requires n <= |s|
    ensures s[..n] + s[n..] == s
  {
  }

  lemma ComposeParsed(r: string, name: string, p: Value)
    requires (r == "" || r[|r| - 1] == SEP) && SEP !in name
    requires WellFormed(p) && p.dir == BuiltDir(r) && Name(p) == name
    ensures Compose(p) == Canonical(r + name) <==> !TripleRooted(r)
    ensures TripleRooted(r) ==>
              Compose(p) == "//" + Join(Segments(r + name)) && Canonical(r + name) == "/" + Join(Segments(r + name))
  {
    var n := AnchorLen(r);
    var all := Segments((r + name)[n..]);
    SplitText(r, name);
    CanonicalIsRooted(r + name);
    DirContent(r, p);
    ComposeIsRooted(p);
    assert all == Segments(r[n..]) + NamePart(p);
    if TripleRooted(r) {
      TripleText(r, name);
    }
  }

  lemma TripleText(r: string, name: string)
    requires TripleRooted(r)
    ensures AnchorLen(r) == AnchorLen(r + name) == 1
    ensures Segments(r[1..]) == Segments(r) && Segments((r + name)[1..]) == Segments(r + name)
  {
    TripleSegments(r);
    assert (r + name)[..3] == r[..3];
    TripleSegments(r + name);
  }

  /** Anchor and segments of a built directory. */
  lemma DirContent(r: string, p: Value)
    requires p.dir == BuiltDir(r)
    ensures Segments(p.dir[AnchorLen(p.dir)..]) == Segments(r[AnchorLen(r)..])
    ensures AnchorLen(p.dir) == if TripleRooted(r) then 2 else AnchorLen(r)
  {
    var segs := Segments(r[AnchorLen(r)..]);
    if TripleRooted(r) {
      TripleSegments(r);
      assert p.dir == Rooted(2, segs);
      ReadRooted(2, segs);
    } else {
      CanonicalIsRooted(r);
      ReadRooted(AnchorLen(r), segs);
    }
  }

  /** The concrete case: a third leading slash turns the root into another one. */
  lemma TripleRootChangesAnchor(p: Value)
    requires IsParse("///a/b", p)
    ensures Compose(p) == "//a/b" && Canonical("///a/b") == "/a/b"
  {
    TripleSample();
    ParseThenCompose("///a/b", p);
    assert Join(["a", "b"]) == "a/b";
  }

  lemma TripleSample()
    ensures DirLen("///a/b") == 5 && TripleRooted("///a/b"[..5])
    ensures Segments("///a/b") == ["a", "b"]
  {
    var s := "///a/b";
    assert s[..5] == "///" + "a/" && s == "///" + "a/b";
    SegmentsOfTriple("a/");
    SegmentsOfTriple("a/b");
    SampleSegments();
    DirLenIs("///a/", "b");
    assert "///a/" + "b" == s;
  }

  lemma {:induction false} DirLenIs(a: string, b: string)
    requires a != "" && a[|a| - 1] == SEP && SEP !in b
    ensures DirLen(a + b) == |a|
  {
    if b == "" {
      assert a + b == a;
    } else {
      assert (a + b)[..|a + b| - 1] == a + b[..|b| - 1];
      DirLenIs(a, b[..|b| - 1]);
    }
  }

  lemma SampleSegments()
    ensures Segments("a/") == ["a"] && Segments("a/b") == ["a", "b"]
  {
    SegmentFirst("a", "/");
    SegmentFirst("a", "/b");
    SegmentFirst("b", "");
    assert "a" + "/" == "a/" && "a" + "/b" == "a/b" && "b" + "" == "b" && "/b"[1..] == "b" && "/"[1..] == "";
  }

  lemma SegmentsOfTriple(t: string)
    ensures Segments("///" + t) == Segments(t)
  {
    SegmentsSkip(3, t);
    assert "///" == seq(3, _ => SEP);
  }
}
