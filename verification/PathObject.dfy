/** Paths as objects (src/ucb/path.c): joining, parents and normalization change
    the three component strings in place; every operation is specified by what it
    does to the list of parts. */
module PathObject {
  import opened PathText
  import opened PathModel
  import opened PathNormal

  /** ucb_path_is_absolute */
  predicate IsAbsolute(p: Value) {
    p.dir != "" && p.dir[0] == SEP
  }

  /** The parts of the parent: one less, except that a bare anchor stays. */
  function ParentParts(parts: seq<string>): seq<string> {
    if parts == [] || (|parts| == 1 && IsAnchor(parts[0])) then parts else parts[..|parts| - 1]
  }

  /** path_inside_one, on parts: a proper prefix that is not empty. */
  predicate IsInside(inner: seq<string>, outer: seq<string>) {
    outer != [] && |outer| < |inner| && outer == inner[..|outer|]
  }

  // ---------------------------------------------------------------------------
  // Facts about well-formed paths
  // ---------------------------------------------------------------------------

  /** p has an anchor of n separators and the directory segments segs. */
  predicate Shape(p: Value, n: nat, segs: seq<string>) {
    n <= 2 && AreSegments(segs) && SEP !in Name(p) && p.dir == Rooted(n, segs)
  }

  function Anchor(n: nat): seq<string>
    requires n <= 2
  {
    if n > 0 then [Slashes(n)] else []
  }

  lemma ShapeOf(p: Value) returns (n: nat, segs: seq<string>)
    requires WellFormed(p)
    ensures Shape(p, n, segs) && n == AnchorLen(p.dir)
    ensures Parts(p) == Anchor(n) + (segs + NamePart(p))
    ensures IsAbsolute(p) <==> n > 0
  {
    n, segs := AnchorLen(p.dir), Segments(p.dir[AnchorLen(p.dir)..]);
    DirShape(p);
    ShapeParts(p, n, segs);
  }

  lemma ShapeParts(p: Value, n: nat, segs: seq<string>)
    requires Shape(p, n, segs)
    ensures WellFormed(p)
    ensures Parts(p) == Anchor(n) + (segs + NamePart(p))
  {
    ReadRooted(n, segs);
    assert Anchor(n) + (segs + NamePart(p)) == Anchor(n) + segs + NamePart(p);
  }

  /** d with a separator added where a segment is to follow. */
  function Open(d: string): string {
    if d != "" && d[|d| - 1] != SEP then d + [SEP] else d
  }

  lemma RootedConcat(n: nat, a: seq<string>, b: seq<string>)
    requires n <= 2 && AreSegments(a) && AreSegments(b) && b != []
    ensures Open(Rooted(n, a)) + Join(b) == Rooted(n, a + b)
  {
    DirEnd(n, a);
    if a == [] {
      assert a + b == b;
    } else {
      JoinConcat(a, b);
      Behind(Slashes(n), Join(a), Join(b));
    }
  }

  lemma Behind(a: string, b: string, c: string)
    ensures a + b + [SEP] + c == a + (b + [SEP] + c)
  {
  }

  // ---------------------------------------------------------------------------
  // Joining
  // ---------------------------------------------------------------------------

  /** The base directory of a join: the name becomes a last directory. */
  function BaseDir(a: Value): string {
    if Name(a) == "" then a.dir else Open(a.dir) + Name(a)
  }

  function JoinedDir(a: Value, b: Value): string {
    if b.dir == "" then BaseDir(a) else Open(BaseDir(a)) + b.dir
  }

  lemma BaseShape(a: Value, n: nat, segs: seq<string>)
    requires Shape(a, n, segs)
    ensures AreSegments(segs + NamePart(a)) && BaseDir(a) == Rooted(n, segs + NamePart(a))
  {
    if Name(a) == "" {
      assert segs + NamePart(a) == segs;
    } else {
      RootedSnoc(n, segs, Name(a));
    }
  }

  lemma JoinedDirIs(d: string, n: nat, base: seq<string>, other: seq<string>)
    requires n <= 2 && AreSegments(base) && AreSegments(other) && d == Rooted(n, base)
    ensures (if Join(other) == "" then d else Open(d) + Join(other)) == Rooted(n, base + other)
  {
    if other == [] {
      assert base + other == base;
    } else {
      JoinEnds(other);
      RootedConcat(n, base, other);
    }
  }

  lemma JoinedShape(a: Value, b: Value, n: nat, segs: seq<string>, other: seq<string>)
    requires Shape(a, n, segs) && Shape(b, 0, other)
    ensures Shape(Value(JoinedDir(a, b), b.stem, b.ext), n, segs + NamePart(a) + other)
  {
    BaseShape(a, n, segs);
    assert b.dir == Join(other);
    JoinedDirIs(BaseDir(a), n, segs + NamePart(a), other);
  }

  lemma Regroup(a: seq<string>, b: seq<string>, c: seq<string>, d: seq<string>)
    ensures a + ((b + c) + d) == (a + b) + (c + d)
    ensures a + (b + c) == (a + b) + c
  {
  }

  /** Joining a relative path concatenates the parts. */
  lemma JoinedParts(a: Value, b: Value)
    requires WellFormed(a) && WellFormed(b) && !IsAbsolute(b)
    ensures WellFormed(Value(JoinedDir(a, b), b.stem, b.ext))
    ensures Parts(Value(JoinedDir(a, b), b.stem, b.ext)) == Parts(a) + Parts(b)
  {
    var n, segs := ShapeOf(a);
    var m, other := ShapeOf(b);
    JoinedShape(a, b, n, segs, other);
    ShapeParts(Value(JoinedDir(a, b), b.stem, b.ext), n, segs + NamePart(a) + other);
    Regroup(Anchor(n), segs + NamePart(a), other, NamePart(b));
    assert Anchor(m) + (other + NamePart(b)) == other + NamePart(b);
  }

  /** A join of a relative path lies inside its base exactly if the base is not empty
      and something was joined. */
  lemma JoinIsInside(a: Value, b: Value)
    requires WellFormed(a) && WellFormed(b) && !IsAbsolute(b)
    ensures IsInside(Parts(Value(JoinedDir(a, b), b.stem, b.ext)), Parts(a)) <==> Parts(a) != [] && Parts(b) != []
  {
    JoinedParts(a, b);
    assert (Parts(a) + Parts(b))[..|Parts(a)|] == Parts(a);
  }

  // ---------------------------------------------------------------------------
  // Parents
  // ---------------------------------------------------------------------------

  lemma IsEmptyIffNoParts(p: Value)
    requires WellFormed(p)
    ensures (p.dir == "" && p.stem == "" && p.ext == "") <==> Parts(p) == []
  {
    var n, segs := ShapeOf(p);
    DirEnd(n, segs);
  }

  /** Where the last directory segment starts, or where there is none. */
  lemma LastCut(n: nat, segs: seq<string>)
    requires n <= 2 && AreSegments(segs) && segs != []
    ensures var d := Rooted(n, segs);
            var init := segs[..|segs| - 1];
            if init == [] then d == Slashes(n) + segs[0] && SEP !in segs[0]
            else d == Rooted(n, init) + [SEP] + segs[|segs| - 1] && |Rooted(n, init)| > n
  {
    var init, g := segs[..|segs| - 1], segs[|segs| - 1];
    assert segs == init + [g];
    JoinSnoc(init, g);
    if init != [] {
      JoinEnds(init);
    } else {
      assert segs == [g];
    }
  }

  /** Position of the last separator at or after n. */
  method LastSep(d: string, n: nat) returns (found: bool, cut: nat)
    requires n <= |d|
    ensures found ==> n <= cut < |d| && d[cut] == SEP && forall i :: cut < i < |d| ==> d[i] != SEP
    ensures !found ==> forall i :: n <= i < |d| ==> d[i] != SEP
  {
    var i := |d|;
    while i > n
      invariant n <= i <= |d| && forall j :: i <= j < |d| ==> d[j] != SEP
    {
      i := i - 1;
      if d[i] == SEP {
        return true, i;
      }
    }
    return false, 0;
  }

  /** The directory of the parent of a path without a name. */
  method ParentDir(d: string, ghost n: nat, ghost segs: seq<string>) returns (r: string)
    requires n <= 2 && AreSegments(segs) && d == Rooted(n, segs)
    ensures r == Rooted(n, if segs == [] then [] else segs[..|segs| - 1])
  {
    ReadRooted(n, segs);
    var len := AnchorLen(d);
    var found, cut := LastSep(d, len);
    if segs != [] {
      LastCut(n, segs);
      CutUnique(d, n, segs, found, cut);
    } else {
      assert d[n..] == "";
    }
    if !found || cut <= len {
      return d[..len];
    }
    return d[..cut];
  }

  lemma CutUnique(d: string, n: nat, segs: seq<string>, found: bool, cut: nat)
    requires n <= 2 && AreSegments(segs) && segs != [] && d == Rooted(n, segs)
    requires found ==> n <= cut < |d| && d[cut] == SEP && forall i :: cut < i < |d| ==> d[i] != SEP
    requires !found ==> forall i :: n <= i < |d| ==> d[i] != SEP
    ensures var init := segs[..|segs| - 1];
            if init == [] then !found else found && cut > n && d[..cut] == Rooted(n, init)
  {
    LastCut(n, segs);
    var init, g := segs[..|segs| - 1], segs[|segs| - 1];
    if init == [] {
      NoSepBehind(Slashes(n), g);
    } else {
      var pre := Rooted(n, init);
      NoSepBehind(pre + [SEP], g);
      LastSepIs(d, |pre|, n, found, cut);
    }
  }

  lemma LastSepIs(d: string, k: nat, n: nat, found: bool, cut: nat)
    requires n <= k < |d| && d[k] == SEP && forall i :: k < i < |d| ==> d[i] != SEP
    requires found ==> n <= cut < |d| && d[cut] == SEP && forall i :: cut < i < |d| ==> d[i] != SEP
    requires !found ==> forall i :: n <= i < |d| ==> d[i] != SEP
    ensures found && cut == k
  {
  }

  lemma NoSepBehind(pre: string, g: string)
    requires SEP !in g
    ensures forall i :: |pre| <= i < |pre + g| ==> (pre + g)[i] != SEP
  {
    forall i | |pre| <= i < |pre + g| ensures (pre + g)[i] != SEP {
      assert (pre + g)[i] == g[i - |pre|] && g[i - |pre|] in g;
    }
  }

  lemma ParentOfParts(n: nat, segs: seq<string>)
    requires n <= 2 && AreSegments(segs)
    ensures ParentParts(Anchor(n) + segs) == Anchor(n) + (if segs == [] then [] else segs[..|segs| - 1])
  {
    var parts := Anchor(n) + segs;
    if segs == [] {
      assert parts == Anchor(n);
    } else {
      assert parts[..|parts| - 1] == Anchor(n) + segs[..|segs| - 1];
      if n == 0 {
        assert "/"[0] == SEP && "//"[0] == SEP;
        assert parts[0] == segs[0];
      }
    }
  }

  /** Parts and text from anchor and content. */
  lemma Layout(p: Value) returns (n: nat, content: seq<string>)
    requires WellFormed(p)
    ensures n <= 2 && AreSegments(content)
    ensures Parts(p) == Anchor(n) + content && Compose(p) == Rooted(n, content)
  {
    var segs;
    n, segs := ShapeOf(p);
    content := segs + NamePart(p);
    ComposeIsRooted(p);
    ReadRooted(n, segs);
  }

  lemma TextOf(p: Value, text: string)
    requires WellFormed(p) && text == Compose(p)
    ensures text == Render(Parts(p))
  {
    ComposeIsRender(p);
  }

  lemma PartsCounted(p: Value)
    ensures |Parts(p)| == (if AnchorLen(p.dir) > 0 then 1 else 0) + |Segments(p.dir[AnchorLen(p.dir)..])|
                        + (if Name(p) == "" then 0 else 1)
  {
  }

  /** The i-th part, if there are so many. */
  function PartOf(parts: seq<string>, i: nat): PartResult {
    if i < |parts| then APart(parts[i]) else NoPart
  }

  /** Where the parts stand: the anchor, then the segments of the directory, then the name. */
  lemma PartAt(p: Value, i: nat)
    ensures var n := AnchorLen(p.dir);
            var a, segs := if n > 0 then 1 else 0, Segments(p.dir[n..]);
            PartOf(Parts(p), i) == if i < a then APart(p.dir[..n])
                                   else if i - a < |segs| then APart(segs[i - a])
                                   else if i - a == |segs| && Name(p) != "" then APart(Name(p))
                                   else NoPart
  {
  }

  /** Dropping a part makes the text shorter, so a path and its parent are
      spelled the same only if they have the same parts. */
  lemma ParentIsShorter(p: Value, q: Value)
    requires WellFormed(p) && WellFormed(q) && Parts(q) == ParentParts(Parts(p))
    ensures Parts(p) != Parts(q) ==> |Compose(q)| < |Compose(p)|
    ensures Compose(p) == Compose(q) <==> Parts(p) == Parts(q)
  {
    PartsDetermineText(p, q);
    if Parts(p) != Parts(q) {
      var n, x := Layout(p);
      var m, y := Layout(q);
      ShapeOfParts(n, x, m, y);
      Shorter(n, x);
    }
  }

  lemma Shorter(n: nat, x: seq<string>)
    requires n <= 2 && AreSegments(x) && x != []
    ensures |Rooted(n, x[..|x| - 1])| < |Rooted(n, x)|
  {
    LastCut(n, x);
    assert IsSegment(x[0]);
  }

  function ReadAnchor(parts: seq<string>): nat {
    if parts == [] then 0 else if parts[0] == "/" then 1 else if parts[0] == "//" then 2 else 0
  }

  lemma ReadParts(n: nat, x: seq<string>)
    requires n <= 2 && AreSegments(x)
    ensures ReadAnchor(Anchor(n) + x) == n && (Anchor(n) + x)[|Anchor(n)|..] == x
  {
    assert "/"[0] == SEP && "//"[0] == SEP;
    if n == 0 {
      assert Anchor(n) + x == x;
    }
  }

  /** The parts tell anchor and segments apart. */
  lemma ShapeOfParts(n: nat, x: seq<string>, m: nat, y: seq<string>)
    requires n <= 2 && m <= 2 && AreSegments(x) && AreSegments(y)
    requires Anchor(m) + y == ParentParts(Anchor(n) + x) != Anchor(n) + x
    ensures m == n && x != [] && y == x[..|x| - 1]
  {
    ParentOfParts(n, x);
    ReadParts(n, if x == [] then [] else x[..|x| - 1]);
    ReadParts(m, y);
  }

  // ---------------------------------------------------------------------------
  // The object
  // ---------------------------------------------------------------------------

  /** path_append_segment: with a separator where one is needed. */
  method AppendSegment(d: string, seg: string) returns (r: string)
    ensures r == Open(d) + seg
  {
    r := d;
    if |d| > 0 && d[|d| - 1] != SEP {
      r := r + [SEP];
    }
    r := r + seg;
  }

  /** The k-th directory segment behind the anchor; otherwise how many there are. */
  method DirPart(d: string, n: nat, k: nat) returns (found: bool, text: string, seen: nat)
    requires n <= |d|
    ensures found <==> k < |Segments(d[n..])|
    ensures found ==> text == Segments(d[n..])[k]
    ensures !found ==> seen == |Segments(d[n..])|
  {
    seen := 0;
    ghost var segs := Segments(d[n..]);
    var i: nat := n;
    while i < |d|
      invariant n <= i <= |d| && seen <= k && seen <= |segs|
      invariant Segments(d[i..]) == segs[seen..]
      decreases |d| - i
    {
      i := SkipSeps(d, i);
      if i >= |d| {
        break;
      }
      var s := i;
      i := SkipSegment(d, s);
      NextSegment(segs, seen, d[s..i], Segments(d[i..]));
      if seen == k {
        return true, d[s..i], 0;
      }
      seen := seen + 1;
    }
    assert d[i..] == "";
    return false, "", seen;
  }

  lemma NextSegment(segs: seq<string>, k: nat, g: string, rest: seq<string>)
    requires k <= |segs| && segs[k..] == [g] + rest
    ensures k < |segs| && segs[k] == g && segs[k + 1..] == rest
  {
    assert segs[k..][0] == g && segs[k..][1..] == rest;
  }

  lemma DropDir(p: Value, n: nat, segs: seq<string>)
    requires Shape(p, n, segs) && Name(p) == "" && Parts(p) == Anchor(n) + (segs + NamePart(p))
    ensures var rest := if segs == [] then [] else segs[..|segs| - 1];
            ParentParts(Parts(p)) == Anchor(n) + (rest + [])
  {
    var rest := if segs == [] then [] else segs[..|segs| - 1];
    assert segs + NamePart(p) == segs && rest + [] == rest;
    ParentOfParts(n, segs);
  }

  lemma DropName(p: Value, n: nat, segs: seq<string>)
    requires Shape(p, n, segs) && Name(p) != ""
    requires Parts(p) == Anchor(n) + (segs + NamePart(p))
    ensures ParentParts(Parts(p)) == Anchor(n) + (segs + [])
  {
    var parts := Parts(p);
    ShiftName(Anchor(n), segs, Name(p));
    assert "/"[0] == SEP && "//"[0] == SEP;
  }

  lemma ShiftName(a: seq<string>, segs: seq<string>, g: string)
    ensures var parts := a + (segs + [g]);
            && parts[|parts| - 1] == g
            && parts[..|parts| - 1] == a + (segs + [])
  {
  }

  /** The only part that can be an anchor is the first. */
  lemma PrefixParent(parts: seq<string>, m: nat, p: Value)
    requires WellFormed(p) && 1 <= m <= |parts| && Parts(p) == parts[..m]
    ensures ParentParts(parts[..m]) == if m == 1 && IsAnchor(parts[0]) then parts[..1] else parts[..m - 1]
  {
    assert m > 1 ==> parts[..m][..m - 1] == parts[..m - 1];
    assert parts[..m][0] == parts[0];
  }

  /** The texts of all non-empty proper prefixes, longest first. */
  function Ancestors(parts: seq<string>): seq<string> {
    if |parts| <= 1 then []
    else [Render(parts[..|parts| - 1])] + Ancestors(parts[..|parts| - 1])
  }

  lemma AncestorStep(parts: seq<string>, m: nat)
    requires 1 <= m <= |parts|
    ensures m == 1 ==> Ancestors(parts[..m]) == []
    ensures m > 1 ==> Ancestors(parts[..m]) == [Render(parts[..m - 1])] + Ancestors(parts[..m - 1])
  {
    if m > 1 {
      assert parts[..m][..m - 1] == parts[..m - 1];
    }
  }

  lemma {:induction false} AncestorsAt(parts: seq<string>, i: nat)
    requires parts != []
    ensures |Ancestors(parts)| == |parts| - 1
    ensures i < |parts| - 1 ==> Ancestors(parts)[i] == Render(parts[..|parts| - 1 - i])
  {
    if |parts| > 1 {
      var pre := parts[..|parts| - 1];
      AncestorsAt(pre, if i > 0 then i - 1 else 0);
      if 0 < i < |parts| - 1 {
        assert pre[..|pre| - 1 - (i - 1)] == parts[..|parts| - 1 - i];
      }
    }
  }

  /** DirLen by a backward scan. */
  method LastSepOf(s: string) returns (n: nat)
    ensures n == DirLen(s)
  {
    var i := |s|;
    while i > 0
      invariant 0 <= i <= |s| && DirLen(s) == DirLen(s[..i])
    {
      assert s[..i][|s[..i]| - 1] == s[i - 1] && s[..i][..i - 1] == s[..i - 1];
      if s[i - 1] == SEP {
        return i;
      }
      i := i - 1;
    }
    return 0;
  }

  datatype PartResult = NoPart | APart(text: string)

  class Path {
    var dir: string
    var stem: string
    var ext: string

    function Val(): Value
      reads this
    {
      Value(dir, stem, ext)
    }

    ghost predicate Valid()
      reads this
    {
      WellFormed(Val())
    }

    /** ucb_path_init: path_parse. */
    constructor (s: string)
      ensures Valid() && IsParse(s, Val())
    {
      var last := LastSepOf(s);
      dir, stem, ext := "", "", "";
      new;
      Load(s, last);
    }

    /** ucb_path_clone */
    constructor Clone(src: Path)
      ensures Val() == src.Val()
    {
      dir, stem, ext := src.dir, src.stem, src.ext;
    }

    method Load(s: string, dirLen: nat)
      requires dirLen == DirLen(s)
      modifies this
      ensures Valid() && IsParse(s, Val())
    {
      dir := BuildDir(s[..dirLen]);
      stem, ext := SplitName(s[dirLen..]);
      ParseWellFormed(s, Val());
    }

    /** ucb_path_to_str: path_compose_to. */
    method ToStr() returns (r: string)
      requires Valid()
      ensures r == Render(Parts(Val()))
      ensures r == Compose(Val())
    {
      var hasName := |stem| > 0 || |ext| > 0;
      r := dir;
      if |dir| > 0 && hasName && dir[|dir| - 1] != SEP {
        r := r + [SEP];
      }
      assert r == dir + (if |dir| > 0 && hasName && dir[|dir| - 1] != SEP then [SEP] else "");
      r := r + (stem + ext);
      TextOf(Val(), r);
    }

    /** ucb_path_append. An absolute path replaces the receiver; a relative one adds
        its parts, also when the receiver is appended to itself. */
    method Append(other: Path)
      requires Valid() && other.Valid()
      modifies this
      ensures Valid()
      ensures IsAbsolute(old(other.Val())) ==> Val() == old(other.Val())
      ensures !IsAbsolute(old(other.Val())) ==>
                && Parts(Val()) == old(Parts(Val())) + old(Parts(other.Val()))
                && stem == old(other.stem) && ext == old(other.ext)
    {
      if other == this {
        var copy := new Path.Clone(other);
        AppendOther(copy);
      } else {
        AppendOther(other);
      }
    }

    method AppendOther(other: Path)
      requires Valid() && other.Valid() && other != this
      modifies this
      ensures Valid()
      ensures IsAbsolute(other.Val()) ==> Val() == other.Val()
      ensures !IsAbsolute(other.Val()) ==>
                && Parts(Val()) == old(Parts(Val())) + Parts(other.Val())
                && stem == other.stem && ext == other.ext
    {
      if |other.dir| > 0 && other.dir[0] == SEP {
        dir, stem, ext := other.dir, other.stem, other.ext;
        return;
      }
      JoinedParts(Val(), other.Val());
      var d := dir;
      if |stem| > 0 || |ext| > 0 {
        d := AppendSegment(d, stem + ext);
      }
      if |other.dir| > 0 {
        d := AppendSegment(d, other.dir);
      }
      assert d == JoinedDir(Val(), other.Val());
      dir, stem, ext := d, other.stem, other.ext;
    }

    /** ucb_path_num_parts */
    method NumParts() returns (count: nat)
      requires Valid()
      ensures count == |Parts(Val())|
    {
      var n := AnchorLen(dir);
      count := if n > 0 then 1 else 0;
      var i: nat := n;
      while i < |dir|
        invariant n <= i <= |dir|
        invariant count + |Segments(dir[i..])| == (if n > 0 then 1 else 0) + |Segments(dir[n..])|
        decreases |dir| - i
      {
        i := SkipSeps(dir, i);
        if i >= |dir| {
          break;
        }
        i := SkipSegment(dir, i);
        count := count + 1;
      }
      PartsCounted(Val());
      if |stem| > 0 || |ext| > 0 {
        count := count + 1;
      }
    }

    /** ucb_path_part */
    method Part(index: nat) returns (r: PartResult)
      requires Valid()
      ensures r == PartOf(Parts(Val()), index)
    {
      PartAt(Val(), index);
      var n := AnchorLen(dir);
      if n > 0 && index == 0 {
        return APart(dir[..n]);
      }
      var pos := if n > 0 then 1 else 0;
      var found, text, seen := DirPart(dir, n, index - pos);
      if found {
        return APart(text);
      }
      if (|stem| > 0 || |ext| > 0) && index == pos + seen {
        return APart(stem + ext);
      }
      return NoPart;
    }

    /** ucb_path_parent */
    method Parent() returns (r: Path)
      requires Valid()
      ensures fresh(r) && r.Valid()
      ensures Parts(r.Val()) == ParentParts(Parts(Val()))
    {
      var n, segs := ShapeOf(Val());
      r := new Path.Clone(this);
      if |r.stem| > 0 || |r.ext| > 0 {
        DropName(Val(), n, segs);
        r.stem, r.ext := "", "";
        ShapeParts(r.Val(), n, segs);
      } else {
        DropDir(Val(), n, segs);
        r.dir := ParentDir(r.dir, n, segs);
        ShapeParts(r.Val(), n, if segs == [] then [] else segs[..|segs| - 1]);
      }
    }

    /** ucb_path_is_empty */
    method IsEmpty() returns (r: bool)
      requires Valid()
      ensures r <==> Parts(Val()) == []
    {
      IsEmptyIffNoParts(Val());
      r := |dir| == 0 && |stem| == 0 && |ext| == 0;
    }

    /** ucb_path_equals */
    method Equals(other: Path) returns (r: bool)
      requires Valid() && other.Valid()
      ensures r <==> Parts(Val()) == Parts(other.Val())
    {
      PartsDetermineText(Val(), other.Val());
      var a := ToStr();
      var b := other.ToStr();
      r := a == b;
    }

    /** One turn of ucb_path_parents: stop at the last part, or move up. */
    method MoveUp(ghost parts: seq<string>, ghost m: nat) returns (stop: bool, parent: Path, text: string)
      requires Valid() && 1 <= m <= |parts| && Parts(Val()) == parts[..m]
      ensures stop <==> m == 1
      ensures !stop ==> parent.Valid() && Parts(parent.Val()) == parts[..m - 1]
      ensures !stop ==> text == Render(parts[..m - 1])
    {
      parent := Parent();
      text := "";
      var empty := parent.IsEmpty();
      var same := Equals(parent);
      ParentIsShorter(Val(), parent.Val());
      PrefixParent(parts, m, Val());
      stop := empty || same;
      if !stop {
        text := parent.ToStr();
        ComposeIsRender(parent.Val());
      }
    }

    /** ucb_path_parents: one entry for every non-empty proper prefix of the parts,
        longest first. */
    method Parents() returns (texts: seq<string>)
      requires Valid()
      ensures texts == Ancestors(Parts(Val()))
    {
      texts := [];
      ghost var parts := Parts(Val());
      ghost var m: nat := |parts|;
      assert parts[..m] == parts;
      var cur := new Path.Clone(this);
      var empty := cur.IsEmpty();
      if empty {
        return;
      }
      while true
        invariant cur.Valid() && 1 <= m <= |parts| && Parts(cur.Val()) == parts[..m]
        invariant texts + Ancestors(parts[..m]) == Ancestors(parts)
        decreases m
      {
        AncestorStep(parts, m);
        var stop, parent, text := cur.MoveUp(parts, m);
        if stop {
          return;
        }
        Regroup(texts, [text], Ancestors(parts[..m - 1]), []);
        texts := texts + [text];
        m := m - 1;
        cur := parent;
      }
    }

    /** ucb_path_normalize: compose, normalize lexically, parse again. */
    method Normalize()
      requires Valid()
      modifies this
      ensures Valid() && Compose(Val()) == Normal(old(Compose(Val())))
    {
      var cur := ToStr();
      var norm := NormalizeLexical(cur);
      var last := LastSepOf(norm);
      Load(norm, last);
      NormalShape(cur);
      ParseCanonical(norm, Val());
    }

    method SamePart(outer: Path, i: nat, ghost a: seq<string>, ghost b: seq<string>) returns (same: bool)
      requires Valid() && outer.Valid() && Parts(Val()) == a && Parts(outer.Val()) == b
      requires i < |a| && i < |b|
      ensures same <==> a[i] == b[i]
    {
      var pi := Part(i);
      var po := outer.Part(i);
      same := pi == po;
    }

    /** path_inside_one: is this a proper descendant of outer? */
    method InsideOne(outer: Path) returns (r: bool)
      requires Valid() && outer.Valid()
      ensures r <==> [] != Parts(outer.Val()) < Parts(Val())
    {
      ghost var a, b := Parts(Val()), Parts(outer.Val());
      var ni := NumParts();
      var no := outer.NumParts();
      if ni == 0 || no == 0 || ni <= no {
        return false;
      }
      var i := 0;
      while i < no
        invariant 0 <= i <= no == |b| < |a|
        invariant Valid() && outer.Valid() && Parts(Val()) == a && Parts(outer.Val()) == b
        invariant EqualUpTo(a, b, i)
      {
        var same := SamePart(outer, i, a, b);
        if !same {
          DifferAt(a, b, i);
          return false;
        }
        EqualExtend(a, b, i);
        i := i + 1;
      }
      EqualIsInside(a, b);
      return true;
    }
  }

  predicate EqualUpTo(a: seq<string>, b: seq<string>, k: nat) {
    k <= |a| && k <= |b| && forall j :: 0 <= j < k ==> a[j] == b[j]
  }

  lemma EqualExtend(a: seq<string>, b: seq<string>, k: nat)
    requires k < |a| && k < |b| && EqualUpTo(a, b, k) && a[k] == b[k]
    ensures EqualUpTo(a, b, k + 1)
  {
  }

  lemma DifferAt(a: seq<string>, b: seq<string>, i: nat)
    requires i < |b| < |a| && a[i] != b[i]
    ensures !IsInside(a, b)
  {
    assert a[..|b|][i] == a[i];
  }

  lemma EqualIsInside(a: seq<string>, b: seq<string>)
    requires b != [] && |b| < |a| && EqualUpTo(a, b, |b|)
    ensures IsInside(a, b)
  {
  }

  lemma CanonicalSecondChar(s: string)
    requires Canonical(s) == s && AnchorLen(s) == 1 && |s| > 1
    ensures s[1] != SEP
  {
    var j := Join(Segments(s[1..]));
    assert (s[..1] + j)[1] == j[0];
    JoinEnds(Segments(s[1..]));
  }

  lemma CanonicalNotTriple(s: string, k: nat)
    requires Canonical(s) == s && k <= |s|
    ensures !TripleRooted(s[..k])
  {
    var r := s[..k];
    if |r| >= 3 && r[..3] == "///" {
      assert r[..3][0] == s[0] && r[..3][1] == s[1] && r[..3][2] == s[2];
      CanonicalSecondChar(s);
    }
  }

  /** A canonical text is parsed and composed without change. */
  lemma ParseCanonical(s: string, p: Value)
    requires IsParse(s, p) && Canonical(s) == s
    ensures Compose(p) == s
  {
    ParseThenCompose(s, p);
    CanonicalNotTriple(s, DirLen(s));
  }
}
