/** Conditional groups of the header preprocessor
    (tools/py_c_preprocessor/preprocessor.py). A condition comes with the value it
    has when it is reached; macro expansion is left out. */
module Conditionals {

  datatype Line = If(cond: bool) | Elif(cond: bool) | Else | Endif | Source(text: string)

  /** _content_enabled */
  datatype Flow = Now | Seek | Skip

  // ---------------------------------------------------------------------------
  // What the directives mean
  // ---------------------------------------------------------------------------

  /** The conditions of the branches of a group so far, the current one last. */
  type Group = seq<bool>

  /** The current branch is the first true one. */
  predicate InFirstTrue(g: Group) {
    g != [] && g[|g| - 1] && forall i :: 0 <= i < |g| - 1 ==> !g[i]
  }

  /** A line counts if every group around it is in its first true branch. */
  predicate Shown(groups: seq<Group>) {
    forall i :: 0 <= i < |groups| ==> InFirstTrue(groups[i])
  }

  /** The groups around the line behind the given one, outermost first. The file
      itself is the outermost group, with one true branch. */
  function Behind(groups: seq<Group>, line: Line): seq<Group>
    requires groups != []
  {
    var n := |groups| - 1;
    match line
    case If(c) => groups + [[c]]
    case Elif(c) => groups[n := groups[n] + [c]]
    case Else => groups[n := groups[n] + [true]]
    case Endif => groups[..n]
    case Source(_) => groups
  }

  /** What the line adds to the source. */
  function Kept(groups: seq<Group>, line: Line): seq<string> {
    if line.Source? && line.text != "" && Shown(groups) then [line.text] else []
  }

  datatype Reading = Reading(groups: seq<Group>, lines: seq<string>, closedTooOften: bool)

  /** The source lines that count, up to an #endif without a group. */
  function Read(groups: seq<Group>, lines: seq<Line>): Reading
    requires groups != []
    decreases |lines|
  {
    if lines == [] then Reading(groups, [], false)
    else if lines[0] == Endif && |groups| == 1 then Reading(groups, [], true)
    else
      var r := Read(Behind(groups, lines[0]), lines[1..]);
      r.(lines := Kept(groups, lines[0]) + r.lines)
  }

  // ---------------------------------------------------------------------------
  // The three-valued state
  // ---------------------------------------------------------------------------

  /** What the state says about the groups around the current line. */
  function FlowOf(groups: seq<Group>): Flow
    requires groups != []
  {
    var n := |groups| - 1;
    if Shown(groups) then Now
    else if Shown(groups[..n]) && forall i :: 0 <= i < |groups[n]| ==> !groups[n][i] then Seek
    else Skip
  }

  lemma ShownLast(groups: seq<Group>)
    requires groups != []
    ensures var n := |groups| - 1; Shown(groups) <==> Shown(groups[..n]) && InFirstTrue(groups[n])
  {
    var n := |groups| - 1;
    assert forall i :: 0 <= i < n ==> groups[..n][i] == groups[i];
  }

  lemma EnterKeeps(groups: seq<Group>, c: bool)
    requires groups != []
    ensures FlowOf(groups + [[c]]) == if FlowOf(groups) == Now then (if c then Now else Seek) else Skip
  {
    var more := groups + [[c]];
    assert more[..|groups|] == groups && more[|groups|] == [c];
    if c && Shown(groups) {
      assert InFirstTrue([c]);
    } else if !c {
      assert !InFirstTrue(more[|groups|]);
      assert !more[|groups|][0];
    } else {
      assert more[|groups|][0];
      var i :| 0 <= i < |groups| && !InFirstTrue(groups[i]);
      assert more[i] == groups[i];
    }
  }

  lemma ElseKeeps(groups: seq<Group>, c: bool)
    requires groups != []
    ensures var n := |groups| - 1;
            FlowOf(groups[n := groups[n] + [c]]) ==
              match FlowOf(groups)
              case Now => Skip
              case Seek => if c then Now else Seek
              case Skip => Skip
  {
    var n := |groups| - 1;
    var g := groups[n];
    var g' := g + [c];
    var more := groups[n := g'];
    assert more[..n] == groups[..n] && g'[..|g|] == g && g'[|g|] == c;
    ShownLast(groups);
    ShownLast(more);
    assert forall i :: 0 <= i < |g| ==> g'[i] == g[i];
    assert InFirstTrue(g') <==> c && forall i :: 0 <= i < |g| ==> !g[i];
  }

  /** Reading a line and then the rest. */
  lemma ReadStep(groups: seq<Group>, lines: seq<Line>, i: nat, said: seq<string>)
    requires groups != [] && i < |lines|
    ensures Told(said, Read(groups, lines[i..]))
         == if lines[i] == Endif && |groups| == 1 then Reading(groups, said, true)
            else Told(said + Kept(groups, lines[i]), Read(Behind(groups, lines[i]), lines[i + 1..]))
  {
    var line, rest := lines[i], lines[i + 1..];
    assert lines[i..][0] == line && lines[i..][1..] == rest;
    if line != Endif || |groups| > 1 {
      Regroup(said, Kept(groups, line), Read(Behind(groups, line), rest).lines);
    }
  }

  lemma ReadNothing(groups: seq<Group>, lines: seq<Line>, said: seq<string>)
    requires groups != []
    ensures Told(said, Read(groups, lines[|lines|..])) == Reading(groups, said, false)
  {
  }

  /** What was read before, and then r. */
  function Told(said: seq<string>, r: Reading): Reading {
    r.(lines := said + r.lines)
  }

  class Preprocessor {
    var contentEnabled: Flow
    var enableStack: seq<Flow>
    var sourceLines: seq<string>
    ghost var groups: seq<Group>

    ghost predicate Valid()
      reads this
    {
      && |groups| == |enableStack| + 1
      && contentEnabled == FlowOf(groups)
      && forall i :: 0 <= i < |enableStack| ==> enableStack[i] == FlowOf(groups[..i + 1])
    }

    constructor ()
      ensures Valid() && groups == [[true]] && sourceLines == []
    {
      contentEnabled, enableStack, sourceLines, groups := Now, [], [], [[true]];
    }

    /** _flow_enter_if */
    method EnterIf(enabled: bool)
      requires Valid()
      modifies this`contentEnabled, this`enableStack, this`groups
      ensures Valid() && groups == old(groups) + [[enabled]]
    {
      EnterKeeps(groups, enabled);
      enableStack := enableStack + [contentEnabled];
      if contentEnabled == Now {
        contentEnabled := if enabled then Now else Seek;
      } else {
        contentEnabled := Skip;
      }
      groups := groups + [[enabled]];
      assert old(groups)[..|old(groups)|] == old(groups);
      forall i | 0 <= i < |enableStack| ensures enableStack[i] == FlowOf(groups[..i + 1]) {
        assert groups[..i + 1] == old(groups)[..i + 1];
      }
    }

    /** _flow_exit_if; false stands for the exception. */
    method ExitIf() returns (ok: bool)
      requires Valid()
      modifies this`contentEnabled, this`enableStack, this`groups
      ensures Valid() && ok == (|old(groups)| > 1)
      ensures groups == if ok then old(groups)[..|old(groups)| - 1] else old(groups)
    {
      if |enableStack| == 0 {
        return false;
      }
      var n := |enableStack| - 1;
      contentEnabled, enableStack := enableStack[n], enableStack[..n];
      groups := groups[..n + 1];
      forall i | 0 <= i < n ensures enableStack[i] == FlowOf(groups[..i + 1]) {
        assert groups[..i + 1] == old(groups)[..i + 1];
      }
      ok := true;
    }

    /** _flow_else_if */
    method ElseIf(enabled: bool)
      requires Valid()
      modifies this`contentEnabled, this`groups
      ensures Valid() && groups == Behind(old(groups), Elif(enabled))
    {
      ElseKeeps(groups, enabled);
      if contentEnabled == Now {
        contentEnabled := Skip;
      } else if contentEnabled == Seek && enabled {
        contentEnabled := Now;
      }
      var n := |enableStack|;
      groups := groups[n := groups[n] + [enabled]];
      forall i | 0 <= i < n ensures enableStack[i] == FlowOf(groups[..i + 1]) {
        assert groups[..i + 1] == old(groups)[..i + 1];
      }
    }

    /** _preprocess_line, with the directives of conditional groups */
    method PreprocessLine(line: Line) returns (ok: bool)
      requires Valid()
      modifies this
      ensures Valid() && ok == !(line == Endif && |old(groups)| == 1)
      ensures groups == if ok then Behind(old(groups), line) else old(groups)
      ensures sourceLines == old(sourceLines) + Kept(old(groups), line)
    {
      ok := true;
      match line {
        case If(c) =>
          EnterIf(c);
        case Elif(c) =>
          ElseIf(c);
        case Else =>
          ElseIf(true);
        case Endif =>
          ok := ExitIf();
        case Source(text) =>
          if contentEnabled == Now && text != "" {
            sourceLines := sourceLines + [text];
          }
      }
    }

    /** _include_file; false stands for an exception. */
    method IncludeFile(lines: seq<Line>) returns (ok: bool)
      requires Valid()
      modifies this
      ensures Valid()
      ensures var r := Read(old(groups), lines);
              && groups == r.groups
              && sourceLines == old(sourceLines) + r.lines
              && ok == (!r.closedTooOften && |r.groups| == |old(groups)|)
    {
      var stackDepth := |enableStack|;
      ghost var all := Told(sourceLines, Read(groups, lines));
      assert lines[0..] == lines;
      var i := 0;
      while i < |lines|
        invariant 0 <= i <= |lines| && Valid()
        invariant Told(sourceLines, Read(groups, lines[i..])) == all
      {
        ReadStep(groups, lines, i, sourceLines);
        ok := PreprocessLine(lines[i]);
        if !ok {
          return;
        }
        i := i + 1;
      }
      ReadNothing(groups, lines, sourceLines);
      ok := |enableStack| == stackDepth;
    }
  }

  /** No #else or #elif stands outside all groups, up to an #endif without a group. */
  predicate NoStrayElse(depth: nat, lines: seq<Line>)
    decreases |lines|
  {
    lines == [] ||
    match lines[0]
    case If(_) => NoStrayElse(depth + 1, lines[1..])
    case Endif => depth == 0 || NoStrayElse(depth - 1, lines[1..])
    case Source(_) => NoStrayElse(depth, lines[1..])
    case _ => depth > 0 && NoStrayElse(depth, lines[1..])
  }

  /** The outermost group only ever gets further branches. */
  lemma {:induction false} FileGroupGrows(groups: seq<Group>, lines: seq<Line>)
    requires groups != []
    ensures Read(groups, lines).groups != [] && groups[0] <= Read(groups, lines).groups[0]
    decreases |lines|
  {
    if lines != [] && !(lines[0] == Endif && |groups| == 1) {
      FileGroupGrows(Behind(groups, lines[0]), lines[1..]);
    }
  }

  /** The file itself stays on exactly if no #else or #elif stands outside all
      groups; then a line counts exactly if the groups around it are all in their
      first true branch. */
  lemma {:induction false} FileStaysOn(groups: seq<Group>, lines: seq<Line>)
    requires groups != [] && groups[0] == [true]
    ensures Read(groups, lines).groups != []
    ensures Read(groups, lines).groups[0] == [true] <==> NoStrayElse(|groups| - 1, lines)
    decreases |lines|
  {
    if lines != [] && !(lines[0] == Endif && |groups| == 1) {
      var next := Behind(groups, lines[0]);
      if next[0] == [true] {
        FileStaysOn(next, lines[1..]);
      } else {
        FileGroupGrows(next, lines[1..]);
      }
    }
  }

  lemma ReadFirst(groups: seq<Group>, line: Line, rest: seq<Line>)
    requires groups != [] && !(line == Endif && |groups| == 1)
    ensures var r := Read(Behind(groups, line), rest);
            Read(groups, [line] + rest) == Reading(r.groups, Kept(groups, line) + r.lines, r.closedTooOften)
  {
    var lines := [line] + rest;
    assert lines[0] == line && lines[1..] == rest;
  }

  /** Reading on behind the lines already read. */
  lemma {:induction false} ReadConcat(groups: seq<Group>, a: seq<Line>, b: seq<Line>)
    requires groups != [] && !Read(groups, a).closedTooOften
    ensures Read(groups, a).groups != []
    ensures var r, r' := Read(groups, a), Read(Read(groups, a).groups, b);
            Read(groups, a + b) == Reading(r'.groups, r.lines + r'.lines, r'.closedTooOften)
    decreases |a|
  {
    if a == [] {
      assert a + b == b;
      var r' := Read(groups, b);
      assert [] + r'.lines == r'.lines;
    } else {
      var line, rest := a[0], a[1..];
      assert a == [line] + rest && a + b == [line] + (rest + b);
      ReadFirst(groups, line, rest);
      ReadFirst(groups, line, rest + b);
      var next := Behind(groups, line);
      ReadConcat(next, rest, b);
      Regroup(Kept(groups, line), Read(next, rest).lines, Read(Read(next, rest).groups, b).lines);
    }
  }

  lemma Regroup(a: seq<string>, b: seq<string>, c: seq<string>)
    ensures a + (b + c) == a + b + c
  {}

  /** Once the file group has a branch behind its true one, nothing counts. */
  lemma {:induction false} NothingCounts(groups: seq<Group>, lines: seq<Line>)
    requires groups != [] && |groups[0]| > 1 && groups[0][0]
    ensures Read(groups, lines).lines == []
    decreases |lines|
  {
    assert !InFirstTrue(groups[0]);
    if lines != [] && !(lines[0] == Endif && |groups| == 1) {
      NothingCounts(Behind(groups, lines[0]), lines[1..]);
    }
  }

  /** A stray #else or #elif is not refused: whatever stands in front of it and
      whatever follows, it hides everything behind it. */
  lemma StrayElseHides(a: seq<Line>, stray: Line, b: seq<Line>)
    requires stray.Else? || stray.Elif?
    requires var r := Read([[true]], a); !r.closedTooOften && |r.groups| == 1
    ensures Read([[true]], a + [stray] + b).lines == Read([[true]], a).lines
  {
    var start: seq<Group> := [[true]];
    var r := Read(start, a);
    FileGroupGrows(start, a);
    ReadConcat(start, a, [stray] + b);
    assert a + [stray] + b == a + ([stray] + b);
    var next := Behind(r.groups, stray);
    assert ([stray] + b)[1..] == b && next[0][0];
    NothingCounts(next, b);
    assert r.lines + [] == r.lines;
  }

  // ---------------------------------------------------------------------------
  // Whole groups
  // ---------------------------------------------------------------------------

  /** Every group is closed in the lines, and so are the depth groups open before;
      every branch directive belongs to one of them. */
  predicate Balanced(depth: nat, lines: seq<Line>)
    decreases |lines|
  {
    if lines == [] then depth == 0
    else
      match lines[0]
      case If(_) => Balanced(depth + 1, lines[1..])
      case Elif(_) => depth > 0 && Balanced(depth, lines[1..])
      case Else => depth > 0 && Balanced(depth, lines[1..])
      case Endif => depth > 0 && Balanced(depth - 1, lines[1..])
      case Source(_) => Balanced(depth, lines[1..])
  }

  lemma ShownParts(a: seq<Group>, b: seq<Group>)
    ensures Shown(a + b) <==> Shown(a) && Shown(b)
  {
    forall i | 0 <= i < |a + b| && Shown(a) && Shown(b) ensures InFirstTrue((a + b)[i]) {
    }
    if Shown(a + b) {
      forall i | 0 <= i < |a| ensures InFirstTrue(a[i]) {
        assert (a + b)[i] == a[i];
      }
      forall i | 0 <= i < |b| ensures InFirstTrue(b[i]) {
        assert (a + b)[|a| + i] == b[i];
      }
    }
  }

  lemma BehindInner(outer: seq<Group>, inner: seq<Group>, line: Line)
    requires outer != [] && (inner == [] ==> line.If? || line.Source?)
    ensures Behind(outer + inner, line) == outer + (if inner == [] && line.If? then [[line.cond]]
                                                    else if inner == [] then [] else Behind(inner, line))
  {
    if inner == [] {
      assert outer + inner == outer;
    }
  }

  /** Balanced lines leave the groups around them as they are, and what they say depends
      on those only in whether they are all shown. */
  lemma {:induction false} ReadInside(outer: seq<Group>, other: seq<Group>, inner: seq<Group>, lines: seq<Line>)
    requires outer != [] && other != [] && Balanced(|inner|, lines)
    ensures var r, r' := Read(outer + inner, lines), Read(other + inner, lines);
            && r.groups == outer && !r.closedTooOften
            && (Shown(outer) == Shown(other) ==> r.lines == r'.lines)
            && (!Shown(outer) ==> r.lines == [])
    decreases |lines|
  {
    if lines == [] {
      assert outer + inner == outer && other + inner == other;
    } else {
      var line, rest := lines[0], lines[1..];
      ShownParts(outer, inner);
      ShownParts(other, inner);
      BehindInner(outer, inner, line);
      BehindInner(other, inner, line);
      var next := if inner == [] && line.If? then [[line.cond]] else if inner == [] then [] else Behind(inner, line);
      ReadInside(outer, other, next, rest);
    }
  }

  lemma ReadBalanced(groups: seq<Group>, other: seq<Group>, lines: seq<Line>)
    requires groups != [] && other != [] && Balanced(0, lines)
    ensures var r := Read(groups, lines);
            && r.groups == groups && !r.closedTooOften
            && (Shown(groups) == Shown(other) ==> r.lines == Read(other, lines).lines)
            && (!Shown(groups) ==> r.lines == [])
  {
    ReadInside(groups, other, [], lines);
    assert groups + [] == groups && other + [] == other;
  }

  /** A branch behind the first one of a group. */
  datatype Branch = Branch(head: Line, body: seq<Line>)

  /** `#else` is always taken. */
  predicate Holds(b: Branch) {
    match b.head
    case Elif(c) => c
    case Else => true
    case _ => false
  }

  predicate AreBranches(branches: seq<Branch>) {
    forall i :: 0 <= i < |branches| ==>
      (branches[i].head.Elif? || branches[i].head.Else?) && Balanced(0, branches[i].body)
  }

  function Spelled(branches: seq<Branch>): seq<Line> {
    if branches == [] then [Endif] else [branches[0].head] + branches[0].body + Spelled(branches[1..])
  }

  /** What the body of the first branch that holds says where the group stands. */
  function FirstHolding(groups: seq<Group>, branches: seq<Branch>): seq<string>
    requires groups != []
  {
    if branches == [] then []
    else if Holds(branches[0]) then Read(groups, branches[0].body).lines
    else FirstHolding(groups, branches[1..])
  }

  lemma ShownWith(groups: seq<Group>, g: Group)
    ensures Shown(groups + [g]) <==> Shown(groups) && InFirstTrue(g)
  {
    ShownParts(groups, [g]);
    assert [g][0] == g;
  }

  /** A body read as the current branch of a group: it counts if the branch is the first
      true one, and then as if it stood where the group stands. */
  lemma BodyRead(groups: seq<Group>, g: Group, body: seq<Line>, more: seq<Line>)
    requires groups != [] && Balanced(0, body)
    ensures var said := if InFirstTrue(g) then Read(groups, body).lines else [];
            var r := Read(groups + [g], more);
            Read(groups + [g], body + more) == Reading(r.groups, said + r.lines, r.closedTooOften)
  {
    ShownWith(groups, g);
    ReadBalanced(groups + [g], groups, body);
    ReadBalanced(groups, groups, body);
    ReadConcat(groups + [g], body, more);
  }

  lemma {:induction false} RestMeans(groups: seq<Group>, g: Group, branches: seq<Branch>)
    requires groups != [] && AreBranches(branches)
    ensures var taken := exists i :: 0 <= i < |g| && g[i];
            Read(groups + [g], Spelled(branches)) ==
            Reading(groups, if taken then [] else FirstHolding(groups, branches), false)
    decreases |branches|
  {
    if branches == [] {
      CloseGroup(groups, g);
    } else {
      var b, more := branches[0], branches[1..];
      var g' := g + [Holds(b)];
      assert Spelled(branches) == [b.head] + (b.body + Spelled(more));
      ReadFirst(groups + [g], b.head, b.body + Spelled(more));
      assert Behind(groups + [g], b.head) == groups + [g'];
      BodyRead(groups, g', b.body, Spelled(more));
      RestMeans(groups, g', more);
      assert g'[|g|] == Holds(b) && forall i :: 0 <= i < |g| ==> g'[i] == g[i];
      Nothing(Read(groups, b.body).lines);
      Nothing(FirstHolding(groups, more));
    }
  }

  lemma Nothing(a: seq<string>)
    ensures a + [] == a == [] + a
  {
  }

  lemma CloseGroup(groups: seq<Group>, g: Group)
    requires groups != []
    ensures Read(groups + [g], [Endif]) == Reading(groups, [], false)
  {
    ReadFirst(groups + [g], Endif, []);
    assert [Endif] + [] == [Endif] && (groups + [g])[..|groups|] == groups;
  }

  /** A conditional group says exactly what its first true branch says: `#if` decides by
      its condition, then each `#elif` by its own, and `#else` is always true. */
  lemma IfMeans(groups: seq<Group>, c: bool, a: seq<Line>, branches: seq<Branch>)
    requires groups != [] && Balanced(0, a) && AreBranches(branches)
    ensures Read(groups, [If(c)] + a + Spelled(branches)) ==
            Reading(groups, if c then Read(groups, a).lines else FirstHolding(groups, branches), false)
  {
    assert [If(c)] + a + Spelled(branches) == [If(c)] + (a + Spelled(branches));
    ReadFirst(groups, If(c), a + Spelled(branches));
    BodyRead(groups, [c], a, Spelled(branches));
    RestMeans(groups, [c], branches);
    Nothing(Read(groups, a).lines);
    Nothing(FirstHolding(groups, branches));
    assert [c][0] == c;
  }

  /** Outside all groups a line is emitted unless it is empty. */
  lemma LineMeans(text: string)
    ensures Read([[true]], [Source(text)]) == Reading([[true]], if text == "" then [] else [text], false)
  {
    assert [Source(text)][1..] == [];
  }

  /** The plain case. */
  lemma IfElseMeans(groups: seq<Group>, c: bool, a: seq<Line>, b: seq<Line>)
    requires groups != [] && Balanced(0, a) && Balanced(0, b)
    ensures Read(groups, [If(c)] + a + [Else] + b + [Endif]) ==
            Reading(groups, Read(groups, if c then a else b).lines, false)
  {
    var br := [Branch(Else, b)];
    assert br[1..] == [];
    assert Spelled(br) == [Else] + b + [Endif];
    assert [If(c)] + a + [Else] + b + [Endif] == [If(c)] + a + ([Else] + b + [Endif]);
    IfMeans(groups, c, a, br);
  }
}
