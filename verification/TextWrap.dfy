/** Wrapping of help texts (append_wrapped in src/ucb/argparse.c). */
module TextWrap {

  type Line = seq<string>

  /** Length of the first word: everything up to a blank or a line break. */
  function WordLen(s: string): (n: nat)
    ensures n <= |s| && (n < |s| ==> s[n] == ' ' || s[n] == '\n')
    ensures forall i :: 0 <= i < n ==> s[i] != ' ' && s[i] != '\n'
  {
    if s == "" || s[0] == ' ' || s[0] == '\n' then 0 else 1 + WordLen(s[1..])
  }

  /** The words of a text, however they are spaced. */
  function Words(s: string): seq<string>
    decreases |s|
  {
    if s == "" then []
    else if s[0] == ' ' || s[0] == '\n' then Words(s[1..])
    else [s[..WordLen(s)]] + Words(s[WordLen(s)..])
  }

  function Joined(line: Line): string {
    if line == [] then ""
    else if |line| == 1 then line[0]
    else Joined(line[..|line| - 1]) + " " + line[|line| - 1]
  }

  /** The lines of a text whose first words are already on the given line: a word
      goes to the current line if it fits into room, and a line break ends a line. */
  function LinesFrom(line: Line, s: string, room: int): (lines: seq<Line>)
    ensures lines != []
    decreases |s|
  {
    if s == "" then [line]
    else if s[0] == '\n' then [line] + LinesFrom([], s[1..], room)
    else if s[0] == ' ' then LinesFrom(line, s[1..], room)
    else
      var w, rest := s[..WordLen(s)], s[WordLen(s)..];
      if line != [] && |Joined(line)| + 1 + |w| > room then [line] + LinesFrom([w], rest, room)
      else LinesFrom(line + [w], rest, room)
  }

  function Spaces(n: nat): string {
    seq(n, _ => ' ')
  }

  /** Lines after the first start with a line break and the indent. */
  function Rendered(lines: seq<Line>, indent: nat): string {
    if lines == [] then ""
    else if |lines| == 1 then Joined(lines[0])
    else Rendered(lines[..|lines| - 1], indent) + "\n" + Spaces(indent) + Joined(lines[|lines| - 1])
  }

  function Flat(lines: seq<Line>): seq<string> {
    if lines == [] then [] else lines[0] + Flat(lines[1..])
  }

  // ---------------------------------------------------------------------------
  // What wrapping keeps
  // ---------------------------------------------------------------------------

  /** No word is lost, split, added or moved. */
  lemma {:induction false} WordsKept(line: Line, s: string, room: int)
    ensures Flat(LinesFrom(line, s, room)) == line + Words(s)
    decreases |s|
  {
    if s == "" {
      assert Flat([line]) == line;
    } else if s[0] == '\n' {
      WordsKept([], s[1..], room);
      FlatFirst(line, LinesFrom([], s[1..], room));
    } else if s[0] == ' ' {
      WordsKept(line, s[1..], room);
    } else {
      var w, rest := s[..WordLen(s)], s[WordLen(s)..];
      WordsKept([w], rest, room);
      WordsKept(line + [w], rest, room);
      FlatFirst(line, LinesFrom([w], rest, room));
    }
  }

  lemma FlatFirst(line: Line, lines: seq<Line>)
    ensures Flat([line] + lines) == line + Flat(lines)
  {
    assert ([line] + lines)[1..] == lines;
  }

  predicate FitsIn(line: Line, room: int) {
    |line| <= 1 || |Joined(line)| <= room
  }

  /** A line is wider than the room only if it holds a single word. */
  lemma {:induction false} WidthKept(line: Line, s: string, room: int)
    requires FitsIn(line, room)
    ensures forall i :: 0 <= i < |LinesFrom(line, s, room)| ==> FitsIn(LinesFrom(line, s, room)[i], room)
    decreases |s|
  {
    if s != "" {
      if s[0] == '\n' {
        WidthKept([], s[1..], room);
      } else if s[0] == ' ' {
        WidthKept(line, s[1..], room);
      } else {
        var w, rest := s[..WordLen(s)], s[WordLen(s)..];
        if line != [] && |Joined(line)| + 1 + |w| > room {
          WidthKept([w], rest, room);
        } else {
          assert line != [] ==> (line + [w])[..|line|] == line;
          WidthKept(line + [w], rest, room);
        }
      }
    }
  }

  /** A line break of the text always ends a line. */
  lemma {:induction false} BreaksKept(line: Line, a: string, b: string, room: int)
    ensures LinesFrom(line, a + "\n" + b, room) == LinesFrom(line, a, room) + LinesFrom([], b, room)
    decreases |a|
  {
    var s := a + "\n" + b;
    if a == "" {
      assert s[0] == '\n' && s[1..] == b;
    } else {
      assert s[0] == a[0] && s[1..] == a[1..] + "\n" + b;
      if a[0] == '\n' {
        BreaksKept([], a[1..], b, room);
      } else if a[0] == ' ' {
        BreaksKept(line, a[1..], b, room);
      } else {
        WordLenExtends(a, "\n" + b);
        var n := WordLen(a);
        assert a + ("\n" + b) == s;
        assert s[..n] == a[..n] && s[n..] == a[n..] + "\n" + b;
        BreaksKept([a[..n]], a[n..], b, room);
        BreaksKept(line + [a[..n]], a[n..], b, room);
      }
    }
  }

  lemma {:induction false} WordLenExtends(a: string, b: string)
    requires b == "" || b[0] == ' ' || b[0] == '\n'
    ensures WordLen(a + b) == WordLen(a)
  {
    if a == "" {
      assert a + b == b;
    } else if a[0] != ' ' && a[0] != '\n' {
      assert (a + b)[1..] == a[1..] + b;
      WordLenExtends(a[1..], b);
    }
  }

  /** Within a paragraph a line ends only where the next word does not fit. */
  lemma {:induction false} LinesAreFull(line: Line, s: string, room: int)
    requires forall i :: 0 <= i < |s| ==> s[i] != '\n'
    requires line != [] || |Words(s)| > 0
    ensures var lines := LinesFrom(line, s, room);
            && (line != [] ==> lines[0] != [] && line <= lines[0])
            && forall i :: 0 < i < |lines| ==> lines[i] != [] && |Joined(lines[i - 1])| + 1 + |lines[i][0]| > room
    decreases |s|
  {
    if s != "" {
      if s[0] == ' ' {
        LinesAreFull(line, s[1..], room);
      } else {
        var w, rest := s[..WordLen(s)], s[WordLen(s)..];
        LinesAreFull([w], rest, room);
        LinesAreFull(line + [w], rest, room);
      }
    }
  }

  predicate IsGap(s: string) {
    s == "" || s[0] == ' ' || s[0] == '\n'
  }

  predicate IsWord(w: string) {
    w != "" && forall i :: 0 <= i < |w| ==> w[i] != ' ' && w[i] != '\n'
  }

  lemma {:induction false} WordsAreWords(s: string)
    ensures forall i :: 0 <= i < |Words(s)| ==> IsWord(Words(s)[i])
    decreases |s|
  {
    if s != "" {
      if IsGap(s) {
        WordsAreWords(s[1..]);
      } else {
        WordsAreWords(s[WordLen(s)..]);
      }
    }
  }

  lemma {:induction false} WordsConcat(a: string, b: string)
    requires IsGap(b)
    ensures Words(a + b) == Words(a) + Words(b)
    decreases |a|
  {
    if a == "" {
      assert a + b == b;
    } else if IsGap(a) {
      assert (a + b)[1..] == a[1..] + b;
      WordsConcat(a[1..], b);
    } else {
      WordLenExtends(a, b);
      var n := WordLen(a);
      assert (a + b)[..n] == a[..n] && (a + b)[n..] == a[n..] + b;
      WordsConcat(a[n..], b);
    }
  }

  lemma {:induction false} OneWord(w: string)
    requires IsWord(w)
    ensures Words(w) == [w]
  {
    WholeWord(w);
    assert w[..|w|] == w && w[|w|..] == "";
  }

  lemma {:induction false} WholeWord(w: string)
    requires forall i :: 0 <= i < |w| ==> w[i] != ' ' && w[i] != '\n'
    ensures WordLen(w) == |w|
  {
    if w != "" {
      WholeWord(w[1..]);
    }
  }

  lemma BlankBefore(n: nat, w: string)
    ensures Words(Spaces(n) + w) == Words(w)
    decreases n
  {
    if n == 0 {
      assert Spaces(n) + w == w;
    } else {
      assert (Spaces(n) + w)[1..] == Spaces(n - 1) + w;
      BlankBefore(n - 1, w);
    }
  }

  lemma {:induction false} JoinedWords(line: Line)
    requires forall i :: 0 <= i < |line| ==> IsWord(line[i])
    ensures Words(Joined(line)) == line
  {
    if |line| == 1 {
      OneWord(line[0]);
    } else if |line| > 1 {
      var n := |line| - 1;
      JoinedWords(line[..n]);
      OneWord(line[n]);
      assert (" " + line[n])[1..] == line[n];
      WordsConcat(Joined(line[..n]), " " + line[n]);
      assert Joined(line) == Joined(line[..n]) + (" " + line[n]);
    }
  }

  lemma {:induction false} FlatSnoc(lines: seq<Line>, line: Line)
    ensures Flat(lines + [line]) == Flat(lines) + line
  {
    if lines == [] {
      assert Flat([line]) == line;
    } else {
      FlatSnoc(lines[1..], line);
      assert (lines + [line])[1..] == lines[1..] + [line];
    }
  }

  /** The words of the wrapped text are the words of its lines. */
  lemma {:induction false} RenderedWords(lines: seq<Line>, indent: nat)
    requires forall w :: w in Flat(lines) ==> IsWord(w)
    ensures Words(Rendered(lines, indent)) == Flat(lines)
  {
    if lines != [] {
      var n := |lines| - 1;
      var line := lines[n];
      assert lines == lines[..n] + [line];
      FlatSnoc(lines[..n], line);
      JoinedWords(line);
      if n > 0 {
        RenderedWords(lines[..n], indent);
        var tail := "\n" + (Spaces(indent) + Joined(line));
        assert tail[1..] == Spaces(indent) + Joined(line);
        BlankBefore(indent, Joined(line));
        WordsConcat(Rendered(lines[..n], indent), tail);
        assert Rendered(lines, indent) == Rendered(lines[..n], indent) + tail;
      }
    }
  }

  /** Reading the wrapped text word by word gives the words of the original. */
  lemma WrappedWords(text: string, indent: nat, room: int)
    ensures Words(Rendered(LinesFrom([], text, room), indent)) == Words(text)
  {
    WordsKept([], text, room);
    WordsAreWords(text);
    RenderedWords(LinesFrom([], text, room), indent);
  }

  // ---------------------------------------------------------------------------
  // The shape of the wrapped text
  // ---------------------------------------------------------------------------

  /** The text between line breaks. */
  function TextLines(s: string): (lines: seq<string>)
    ensures lines != []
  {
    if s == "" then [""]
    else
      var more := TextLines(s[1..]);
      if s[0] == '\n' then [""] + more else [[s[0]] + more[0]] + more[1..]
  }

  lemma {:induction false} OneTextLine(s: string)
    requires forall i :: 0 <= i < |s| ==> s[i] != '\n'
    ensures TextLines(s) == [s]
  {
    if s != "" {
      OneTextLine(s[1..]);
      assert s == [s[0]] + s[1..];
    }
  }

  lemma {:induction false} TextLinesSnoc(a: string, b: string)
    requires forall i :: 0 <= i < |b| ==> b[i] != '\n'
    ensures TextLines(a + "\n" + b) == TextLines(a) + [b]
  {
    var s := a + "\n" + b;
    if a == "" {
      assert s[0] == '\n' && s[1..] == b;
      OneTextLine(b);
    } else {
      assert s[0] == a[0] && s[1..] == a[1..] + "\n" + b;
      TextLinesSnoc(a[1..], b);
      InFrontOf(a[0], TextLines(a[1..]), b);
    }
  }

  lemma InFrontOf(c: char, more: seq<string>, b: string)
    requires more != []
    ensures [""] + (more + [b]) == ([""] + more) + [b]
    ensures [[c] + (more + [b])[0]] + (more + [b])[1..] == ([[c] + more[0]] + more[1..]) + [b]
  {
  }

  /** A line of the wrapped text: its words, behind exactly indent blanks unless it is
      the first. */
  predicate IsTextLine(text: string, line: Line, blanks: nat) {
    && |text| == blanks + |Joined(line)|
    && (forall k :: 0 <= k < blanks ==> text[k] == ' ')
    && text[blanks..] == Joined(line)
    && (Joined(line) != "" ==> text[blanks] != ' ')
  }

  lemma {:induction false} JoinedShape(line: Line)
    requires forall i :: 0 <= i < |line| ==> IsWord(line[i])
    ensures forall i :: 0 <= i < |Joined(line)| ==> Joined(line)[i] != '\n'
    ensures line != [] ==> Joined(line) != "" && Joined(line)[0] != ' '
  {
    if |line| > 1 {
      JoinedShape(line[..|line| - 1]);
    }
  }

  /** One text line for each line. */
  predicate AreTextLines(texts: seq<string>, lines: seq<Line>, indent: nat) {
    |texts| == |lines| && forall l :: 0 <= l < |lines| ==> IsTextLine(texts[l], lines[l], if l == 0 then 0 else indent)
  }

  lemma TextLinesGrow(texts: seq<string>, lines: seq<Line>, indent: nat, text: string, line: Line)
    requires AreTextLines(texts, lines, indent) && IsTextLine(text, line, if lines == [] then 0 else indent)
    ensures AreTextLines(texts + [text], lines + [line], indent)
  {
  }

  lemma IndentedLine(line: Line, blanks: nat)
    requires forall i :: 0 <= i < |line| ==> IsWord(line[i])
    ensures var text := Spaces(blanks) + Joined(line);
            IsTextLine(text, line, blanks) && forall i :: 0 <= i < |text| ==> text[i] != '\n'
  {
    JoinedShape(line);
  }

  lemma {:induction false} RenderedLines(lines: seq<Line>, indent: nat)
    requires lines != [] && forall l :: 0 <= l < |lines| ==> forall i :: 0 <= i < |lines[l]| ==> IsWord(lines[l][i])
    ensures AreTextLines(TextLines(Rendered(lines, indent)), lines, indent)
  {
    var n := |lines| - 1;
    var pre, last := lines[..n], lines[n];
    assert lines == pre + [last];
    if n == 0 {
      IndentedLine(last, 0);
      assert Spaces(0) + Joined(last) == Joined(last);
      OneTextLine(Joined(last));
      TextLinesGrow([], [], indent, Joined(last), last);
    } else {
      IndentedLine(last, indent);
      RenderedLines(pre, indent);
      var tail := Spaces(indent) + Joined(last);
      assert Rendered(lines, indent) == Rendered(pre, indent) + "\n" + tail;
      TextLinesSnoc(Rendered(pre, indent), tail);
      TextLinesGrow(TextLines(Rendered(pre, indent)), pre, indent, tail, last);
    }
  }

  lemma {:induction false} FlatHolds(lines: seq<Line>, l: nat, i: nat)
    requires l < |lines| && i < |lines[l]|
    ensures lines[l][i] in Flat(lines)
  {
    if l > 0 {
      FlatHolds(lines[1..], l - 1, i);
    }
  }

  /** Every line of the wrapped text behind the first starts with exactly indent blanks,
      and then come the words of one line of the greedy filling. */
  lemma WrappedLines(text: string, indent: nat, room: int)
    ensures var lines := LinesFrom([], text, room); AreTextLines(TextLines(Rendered(lines, indent)), lines, indent)
  {
    var lines := LinesFrom([], text, room);
    WordsKept([], text, room);
    WordsAreWords(text);
    forall l, i | 0 <= l < |lines| && 0 <= i < |lines[l]| ensures IsWord(lines[l][i]) {
      FlatHolds(lines, l, i);
    }
    RenderedLines(lines, indent);
  }

  // ---------------------------------------------------------------------------
  // The loop
  // ---------------------------------------------------------------------------

  lemma JoinedSnoc(line: Line, w: string)
    ensures Joined(line + [w]) == if line == [] then w else Joined(line) + " " + w
  {
    assert (line + [w])[..|line|] == line;
  }

  lemma RenderedSnoc(lines: seq<Line>, line: Line, indent: nat)
    requires lines != []
    ensures Rendered(lines + [line], indent) == Rendered(lines, indent) + "\n" + Spaces(indent) + Joined(line)
  {
    assert (lines + [line])[..|lines|] == lines;
  }

  /** A word at the end of the last line. */
  lemma RenderedWord(lines: seq<Line>, line: Line, w: string, indent: nat)
    ensures Rendered(lines + [line + [w]], indent) ==
            Rendered(lines + [line], indent) + (if line == [] then w else " " + w)
  {
    JoinedSnoc(line, w);
    if lines != [] {
      RenderedSnoc(lines, line, indent);
      RenderedSnoc(lines, line + [w], indent);
      var head := Rendered(lines, indent) + "\n" + Spaces(indent);
      assert line != [] ==> head + (Joined(line) + " " + w) == (head + Joined(line)) + (" " + w);
    } else if line != [] {
      assert Joined(line) + " " + w == Joined(line) + (" " + w);
    }
  }

  method SkipWord(text: string, p: nat) returns (j: nat)
    requires p <= |text|
    ensures p <= j <= |text| && j == p + WordLen(text[p..])
  {
    j := p;
    while j < |text| && text[j] != ' ' && text[j] != '\n'
      invariant p <= j <= |text| && WordLen(text[p..]) == j - p + WordLen(text[j..])
    {
      assert text[j..][1..] == text[j + 1..];
      j := j + 1;
    }
  }

  predicate Breaks(line: Line, w: string, room: int) {
    line != [] && |Joined(line)| + 1 + |w| > room
  }

  /** One word: on the current line if it fits, else on a new one. */
  method PutWord(out: string, col: nat, w: string, indent: nat, width: int, ghost done: seq<Line>, ghost line: Line)
    returns (out': string, col': nat, ghost done': seq<Line>, ghost line': Line)
    requires out == Rendered(done + [line], indent) && col == indent + |Joined(line)|
    requires w != "" && (line != [] ==> |Joined(line)| > 0)
    ensures out' == Rendered(done' + [line'], indent) && col' == indent + |Joined(line')| && |Joined(line')| > 0
    ensures Breaks(line, w, width - indent) ==> done' == done + [line] && line' == [w]
    ensures !Breaks(line, w, width - indent) ==> done' == done && line' == line + [w]
  {
    JoinedSnoc(line, w);
    out', col', done', line' := out, col, done, line;
    if col > indent {
      if col + 1 + |w| > width {
        RenderedSnoc(done + [line], [], indent);
        out' := out + "\n" + Spaces(indent);
        col' := indent;
        done', line' := done + [line], [];
      } else {
        out' := out + " ";
        col' := col + 1;
      }
    }
    RenderedWord(done', line', w, indent);
    JoinedSnoc(line', w);
    AppendWord(Rendered(done' + [line'], indent), w);
    out' := out' + w;
    col' := col' + |w|;
    line' := line' + [w];
  }

  lemma AppendWord(a: string, w: string)
    ensures a + " " + w == a + (" " + w)
  {}

  /** The lines finished so far, the current one, and those still to come. */
  function AllLines(done: seq<Line>, line: Line, s: string, room: int): seq<Line> {
    done + LinesFrom(line, s, room)
  }

  lemma WordStep(done: seq<Line>, line: Line, s: string, w: string, room: int, done': seq<Line>, line': Line)
    requires w != "" && w == s[..WordLen(s)]
    requires Breaks(line, w, room) ==> done' == done + [line] && line' == [w]
    requires !Breaks(line, w, room) ==> done' == done && line' == line + [w]
    ensures AllLines(done, line, s, room) == AllLines(done', line', s[|w|..], room)
  {
    var rest := s[|w|..];
    if Breaks(line, w, room) {
      assert LinesFrom(line, s, room) == [line] + LinesFrom([w], rest, room);
      assert done + ([line] + LinesFrom([w], rest, room)) == (done + [line]) + LinesFrom([w], rest, room);
    }
  }

  lemma WordAt(done: seq<Line>, line: Line, text: string, p: nat, q: nat, room: int, done': seq<Line>, line': Line)
    requires p < q <= |text| && q == p + WordLen(text[p..])
    requires Breaks(line, text[p..q], room) ==> done' == done + [line] && line' == [text[p..q]]
    requires !Breaks(line, text[p..q], room) ==> done' == done && line' == line + [text[p..q]]
    ensures AllLines(done, line, text[p..], room) == AllLines(done', line', text[q..], room)
  {
    assert text[p..][..q - p] == text[p..q] && text[p..][q - p..] == text[q..];
    WordStep(done, line, text[p..], text[p..q], room, done', line');
  }

  lemma BreakStep(done: seq<Line>, line: Line, s: string, room: int)
    requires s != "" && s[0] == '\n'
    ensures AllLines(done, line, s, room) == AllLines(done + [line], [], s[1..], room)
  {
    assert done + ([line] + LinesFrom([], s[1..], room)) == (done + [line]) + LinesFrom([], s[1..], room);
  }

  lemma BlankStep(done: seq<Line>, line: Line, s: string, room: int)
    requires s != "" && s[0] == ' '
    ensures AllLines(done, line, s, room) == AllLines(done, line, s[1..], room)
  {}

  method SkipBlanks(text: string, p: nat, ghost done: seq<Line>, ghost line: Line, ghost room: int) returns (j: nat)
    requires p <= |text|
    ensures p <= j <= |text| && (j < |text| ==> text[j] != ' ')
    ensures AllLines(done, line, text[j..], room) == AllLines(done, line, text[p..], room)
  {
    j := p;
    while j < |text| && text[j] == ' '
      invariant p <= j <= |text| && AllLines(done, line, text[j..], room) == AllLines(done, line, text[p..], room)
    {
      BlankStep(done, line, text[j..], room);
      assert text[j..][1..] == text[j + 1..];
      j := j + 1;
    }
  }

  /** The word at p. A blank comes first only at the start of a line, where the code
      writes nothing for the empty word. */
  method TakeWord(text: string, p: nat, out: string, col: nat, indent: nat, width: int, ghost done: seq<Line>, ghost line: Line)
    returns (q: nat, out': string, col': nat, ghost done': seq<Line>, ghost line': Line)
    requires p < |text| && text[p] != '\n' && (text[p] == ' ' ==> line == [])
    requires Written(out, col, indent, done, line)
    ensures p <= q <= |text| && (text[p] != ' ' ==> p < q)
    ensures Written(out', col', indent, done', line')
    ensures AllLines(done', line', text[q..], width - indent) == AllLines(done, line, text[p..], width - indent)
  {
    out', col', done', line' := out, col, done, line;
    q := SkipWord(text, p);
    if p < q {
      out', col', done', line' := PutWord(out, col, text[p..q], indent, width, done, line);
      WordAt(done, line, text, p, q, width - indent, done', line');
    }
  }

  lemma BreakAt(text: string, p: nat, out: string, indent: nat, room: int, done: seq<Line>, line: Line)
    requires p < |text| && text[p] == '\n' && out == Rendered(done + [line], indent)
    ensures Written(out + "\n" + Spaces(indent), indent, indent, done + [line], [])
    ensures AllLines(done + [line], [], text[p + 1..], room) == AllLines(done, line, text[p..], room)
  {
    BreakStep(done, line, text[p..], room);
    assert text[p..][1..] == text[p + 1..];
    RenderedSnoc(done + [line], [], indent);
  }

  lemma NothingWritten(text: string, indent: nat, room: int)
    ensures Written("", indent, indent, [], []) && AllLines([], [], text[0..], room) == LinesFrom([], text, room)
  {
    assert text[0..] == text;
  }

  lemma NoMoreText(text: string, done: seq<Line>, line: Line, room: int)
    ensures AllLines(done, line, text[|text|..], room) == done + [line]
  {
  }

  /** A word and the blanks behind it. */
  method WriteWord(text: string, p: nat, out: string, col: nat, indent: nat, width: int, ghost done: seq<Line>, ghost line: Line)
    returns (q: nat, out': string, col': nat, ghost done': seq<Line>, ghost line': Line)
    requires p < |text| && text[p] != '\n' && (text[p] == ' ' ==> line == [])
    requires Written(out, col, indent, done, line)
    ensures p < q <= |text| && (q < |text| ==> text[q] != ' ')
    ensures Written(out', col', indent, done', line')
    ensures AllLines(done', line', text[q..], width - indent) == AllLines(done, line, text[p..], width - indent)
  {
    q, out', col', done', line' := TakeWord(text, p, out, col, indent, width, done, line);
    q := SkipBlanks(text, q, done', line', width - indent);
  }

  /** What is written, and where the last line ends. */
  ghost predicate Written(out: string, col: nat, indent: nat, done: seq<Line>, line: Line) {
    && out == Rendered(done + [line], indent) && col == indent + |Joined(line)|
    && (line != [] ==> |Joined(line)| > 0)
  }

  /** append_wrapped: the text it appends. */
  method AppendWrapped(text: string, indent: nat, width: int) returns (out: string)
    ensures out == Rendered(LinesFrom([], text, width - indent), indent) + "\n"
  {
    var col: nat, p: nat := indent, 0;
    out := "";
    ghost var done: seq<Line>, line: Line := [], [];
    ghost var room := width - indent;
    NothingWritten(text, indent, room);
    while p < |text|
      invariant p <= |text|
      invariant Written(out, col, indent, done, line)
      invariant AllLines(done, line, text[p..], room) == LinesFrom([], text, room)
      invariant p < |text| && text[p] == ' ' ==> line == []
      decreases |text| - p
    {
      if text[p] == '\n' {
        BreakAt(text, p, out, indent, room, done, line);
        out := out + "\n" + Spaces(indent);
        col := indent;
        p := p + 1;
        done, line := done + [line], [];
      } else {
        p, out, col, done, line := WriteWord(text, p, out, col, indent, width, done, line);
      }
    }
    NoMoreText(text, done, line, room);
    out := out + "\n";
  }
}
