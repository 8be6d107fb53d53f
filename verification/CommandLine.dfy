/** Command lines for Windows processes (src/ucb/process_win32.c): quoting an
    argument vector, and the proof that the argument parser of the Microsoft C
    runtime reads the same arguments back. Strings are C strings without their
    terminating NUL. */
module CommandLine {

  // ---------------------------------------------------------------------------
  // The parser (Microsoft, "Parsing C command-line arguments")
  // ---------------------------------------------------------------------------

  predicate IsBlank(c: char) {
    c == ' ' || c == '\t'
  }

  function Backslashes(n: nat): string {
    seq(n, _ => '\\')
  }

  /** How many backslashes s starts with. */
  function SlashRun(s: string): (n: nat)
    ensures n <= |s| && s[..n] == Backslashes(n)
    ensures n < |s| ==> s[n] != '\\'
  {
    if s == "" || s[0] != '\\' then 0
    else
      assert s[..1 + SlashRun(s[1..])] == [s[0]] + s[1..][..SlashRun(s[1..])];
      1 + SlashRun(s[1..])
  }

  datatype Parsed = Parsed(arg: string, rest: string)

  function Prepend(pre: string, p: Parsed): Parsed {
    Parsed(pre + p.arg, p.rest)
  }

  /** Read one argument. Before a quote, two backslashes mean one; a remaining
      single backslash makes the quote literal. Any other quote starts or ends a
      quoted stretch, except that inside one a doubled quote is literal. */
  function ReadArg(s: string, quoted: bool): Parsed
    decreases |s|
  {
    var n := SlashRun(s);
    if n == |s| then Parsed(s, "")
    else if s[n] == '"' then
      if n % 2 == 1 then Prepend(Backslashes(n / 2) + "\"", ReadArg(s[n + 1..], quoted))
      else if quoted && n + 1 < |s| && s[n + 1] == '"'
      then Prepend(Backslashes(n / 2) + "\"", ReadArg(s[n + 2..], quoted))
      else Prepend(Backslashes(n / 2), ReadArg(s[n + 1..], !quoted))
    else if !quoted && IsBlank(s[n]) then Parsed(Backslashes(n), s[n..])
    else Prepend(Backslashes(n) + [s[n]], ReadArg(s[n + 1..], quoted))
  }

  lemma {:induction false} ReadArgShrinks(s: string, quoted: bool)
    ensures |ReadArg(s, quoted).rest| <= |s|
    ensures s != "" && (quoted || !IsBlank(s[0])) ==> |ReadArg(s, quoted).rest| < |s|
    decreases |s|
  {
    var n := SlashRun(s);
    if n < |s| {
      var c, rest := s[n], s[n + 1..];
      SlashRunFirst(s);
      if c == '"' && n % 2 == 0 && quoted && n + 1 < |s| && s[n + 1] == '"' {
        ReadArgShrinks(s[n + 2..], quoted);
      } else if c == '"' && n % 2 == 0 {
        ReadArgShrinks(rest, !quoted);
      } else {
        ReadArgShrinks(rest, quoted);
      }
    }
  }

  lemma SlashRunFirst(s: string)
    ensures SlashRun(s) == 0 <==> s == "" || s[0] != '\\'
  {}

  /** All arguments, separated by blanks. */
  function ReadArgs(s: string): seq<string>
    decreases |s|
  {
    if s == "" then []
    else if IsBlank(s[0]) then ReadArgs(s[1..])
    else
      ReadArgShrinks(s, false);
      var p := ReadArg(s, false);
      [p.arg] + ReadArgs(p.rest)
  }

  /** Skip the program name: quotes toggle, backslashes mean nothing, an unquoted
      blank ends it. */
  function SkipProgram(s: string, quoted: bool): string {
    if s == "" then ""
    else if s[0] == '"' then SkipProgram(s[1..], !quoted)
    else if !quoted && IsBlank(s[0]) then s
    else SkipProgram(s[1..], quoted)
  }

  /** argv[1..] as the runtime of the new process sees it. */
  function RuntimeArgs(cmd: string): seq<string> {
    ReadArgs(SkipProgram(cmd, false))
  }

  // ---------------------------------------------------------------------------
  // The quoter
  // ---------------------------------------------------------------------------

  predicate NeedsQuotes(arg: string) {
    arg == "" || exists i :: 0 <= i < |arg| && (arg[i] == ' ' || arg[i] == '\t' || arg[i] == '"')
  }

  /** The text of arg from the current character on, k backslashes being held
      back; inside quotes the closing quote follows. */
  function Escape(arg: string, k: nat, quote: bool): string {
    if arg == "" then Backslashes(if quote then 2 * k else k)
    else if arg[0] == '\\' then Escape(arg[1..], k + 1, quote)
    else if arg[0] == '"' then Backslashes(2 * k + 1) + "\"" + Escape(arg[1..], 0, quote)
    else Backslashes(k) + [arg[0]] + Escape(arg[1..], 0, quote)
  }

  function Quoted(arg: string): string {
    if NeedsQuotes(arg) then "\"" + Escape(arg, 0, true) + "\"" else Escape(arg, 0, false)
  }

  function CommandFrom(argv: seq<string>): string {
    if argv == [] then ""
    else if |argv| == 1 then Quoted(argv[0])
    else Quoted(argv[0]) + " " + CommandFrom(argv[1..])
  }

  /** process_win32_arg_needs_quotes */
  method ArgNeedsQuotes(arg: string) returns (r: bool)
    ensures r <==> NeedsQuotes(arg)
  {
    if |arg| == 0 {
      return true;
    }
    var p := 0;
    while p < |arg|
      invariant 0 <= p <= |arg|
      invariant forall i :: 0 <= i < p ==> !IsBlank(arg[i]) && arg[i] != '"'
    {
      if arg[p] == ' ' || arg[p] == '\t' || arg[p] == '"' {
        return true;
      }
      p := p + 1;
    }
    return false;
  }

  /** The backslash loops: append n backslashes. */
  method AppendBackslashes(cmd: string, n: nat) returns (r: string)
    ensures r == cmd + Backslashes(n)
  {
    r := cmd;
    var i := 0;
    while i < n
      invariant 0 <= i <= n && r == cmd + Backslashes(i)
    {
      r := r + ['\\'];
      i := i + 1;
    }
  }

  /** The loop over one argument. */
  method AppendEscaped(cmd: string, arg: string, quote: bool) returns (r: string)
    ensures r == cmd + Escape(arg, 0, quote)
  {
    r := cmd;
    var backslashes := 0;
    var p := 0;
    while p < |arg|
      invariant 0 <= p <= |arg| && backslashes >= 0
      invariant r + Escape(arg[p..], backslashes, quote) == cmd + Escape(arg, 0, quote)
    {
      assert arg[p..][0] == arg[p] && arg[p..][1..] == arg[p + 1..];
      if arg[p] == '\\' {
        backslashes := backslashes + 1;
      } else if arg[p] == '"' {
        Regroup(r, Backslashes(backslashes * 2 + 1), "\"", Escape(arg[p + 1..], 0, quote));
        r := AppendBackslashes(r, backslashes * 2 + 1);
        r := r + "\"";
        backslashes := 0;
      } else {
        Regroup(r, Backslashes(backslashes), [arg[p]], Escape(arg[p + 1..], 0, quote));
        r := AppendBackslashes(r, backslashes);
        backslashes := 0;
        r := r + [arg[p]];
      }
      p := p + 1;
    }
    r := AppendBackslashes(r, if quote then backslashes * 2 else backslashes);
  }

  lemma Regroup(a: string, b: string, c: string, d: string)
    ensures a + (b + c + d) == (a + b + c) + d
  {
  }

  /** One argument, with the blank before it unless it is the first. */
  method AppendArg(cmd: string, first: bool, arg: string) returns (r: string)
    ensures r == cmd + (if first then "" else " ") + Quoted(arg)
  {
    r := cmd;
    if !first {
      r := r + " ";
    }
    ghost var before := r;
    var quote := ArgNeedsQuotes(arg);
    if quote {
      r := r + "\"";
    }
    r := AppendEscaped(r, arg, quote);
    if quote {
      r := r + "\"";
      assert r == before + ("\"" + Escape(arg, 0, true) + "\"");
    }
    assert cmd + "" == cmd;
  }

  /** process_win32_build_command_line, up to the conversion to UTF-16. */
  method BuildCommandLine(argv: seq<string>) returns (cmd: string)
    ensures cmd == CommandFrom(argv)
  {
    cmd := "";
    var i := 0;
    while i < |argv|
      invariant 0 <= i <= |argv|
      invariant cmd == CommandFrom(argv[..i])
    {
      CommandSnoc(argv[..i], argv[i]);
      assert argv[..i + 1] == argv[..i] + [argv[i]];
      cmd := AppendArg(cmd, i == 0, argv[i]);
      i := i + 1;
    }
    assert argv[..i] == argv;
  }

  lemma {:induction false} CommandSnoc(argv: seq<string>, arg: string)
    ensures CommandFrom(argv + [arg]) == CommandFrom(argv) + (if argv == [] then "" else " ") + Quoted(arg)
  {
    var all := argv + [arg];
    if argv == [] {
      assert all == [arg];
    } else {
      assert all[0] == argv[0] && all[1..] == argv[1..] + [arg];
      CommandSnoc(argv[1..], arg);
      if |argv| > 1 {
        Assoc(Quoted(argv[0]), " ", CommandFrom(argv[1..]), " " + Quoted(arg));
      }
    }
  }

  // ---------------------------------------------------------------------------
  // Reading back one argument
  // ---------------------------------------------------------------------------

  /** What may follow an argument on the command line. */
  predicate Ends(rest: string) {
    rest == "" || rest[0] == ' '
  }

  lemma SlashRunOf(n: nat, rest: string)
    requires rest == "" || rest[0] != '\\'
    ensures SlashRun(Backslashes(n) + rest) == n
    decreases n
  {
    var s := Backslashes(n) + rest;
    if n == 0 {
      assert s == rest;
    } else {
      assert s[1..] == Backslashes(n - 1) + rest;
      SlashRunOf(n - 1, rest);
    }
  }

  lemma ReadEnd(rest: string, n: nat)
    requires Ends(rest)
    ensures ReadArg(Backslashes(n) + rest, false) == Parsed(Backslashes(n), rest)
  {
    SlashRunOf(n, rest);
    var s := Backslashes(n) + rest;
    if rest == "" {
      assert s == Backslashes(n);
    } else {
      assert s[n] == ' ' && s[n..] == rest;
    }
  }

  lemma ReadChar(k: nat, c: char, more: string, quoted: bool)
    requires c != '\\' && c != '"' && (quoted || !IsBlank(c))
    ensures ReadArg(Backslashes(k) + ([c] + more), quoted) == Prepend(Backslashes(k) + [c], ReadArg(more, quoted))
  {
    var s := Backslashes(k) + ([c] + more);
    SlashRunOf(k, [c] + more);
    assert s[k] == c && s[k + 1..] == more;
  }

  lemma ReadEscapedQuote(k: nat, more: string, quoted: bool)
    ensures ReadArg(Backslashes(2 * k + 1) + ("\"" + more), quoted) ==
            Prepend(Backslashes(k) + "\"", ReadArg(more, quoted))
  {
    var n := 2 * k + 1;
    SlashRunOf(n, "\"" + more);
    QuoteAt(n, more);
    assert n / 2 == k;
  }

  lemma QuoteAt(n: nat, more: string)
    ensures var s := Backslashes(n) + ("\"" + more);
            |s| > n && s[n] == '"' && s[n + 1..] == more && (more != "" ==> s[n + 1] == more[0])
  {
  }

  lemma ReadEvenQuote(k: nat, rest: string)
    requires Ends(rest)
    ensures ReadArg(Backslashes(2 * k) + ("\"" + rest), true) == Prepend(Backslashes(k), ReadArg(rest, false))
  {
    var n := 2 * k;
    SlashRunOf(n, "\"" + rest);
    QuoteAt(n, rest);
    assert n / 2 == k && n % 2 == 0;
  }

  lemma ReadClosingQuote(k: nat, rest: string)
    requires Ends(rest)
    ensures ReadArg(Backslashes(2 * k) + ("\"" + rest), true) == Parsed(Backslashes(k), rest)
  {
    ReadEvenQuote(k, rest);
    ReadEnd(rest, 0);
    assert Backslashes(0) + rest == rest && Backslashes(k) + Backslashes(0) == Backslashes(k);
  }

  lemma ReadOpeningQuote(more: string)
    ensures ReadArg(Backslashes(0) + ("\"" + more), false) == Prepend(Backslashes(0), ReadArg(more, true))
  {
    SlashRunOf(0, "\"" + more);
    QuoteAt(0, more);
  }

  lemma Glue(k: nat, c: char, a: string)
    requires a != "" && a[0] == c
    ensures Backslashes(k) + [c] + (Backslashes(0) + a[1..]) == Backslashes(k) + a
    ensures c == '\\' ==> Backslashes(k + 1) + a[1..] == Backslashes(k) + a
  {
  }

  /** Reading a quoted argument: k backslashes held back and the text of a, up to
      and including the closing quote. */
  lemma {:induction false} ReadQuoted(a: string, k: nat, rest: string)
    requires Ends(rest)
    ensures ReadArg(Escape(a, k, true) + ("\"" + rest), true) == Parsed(Backslashes(k) + a, rest)
    decreases |a|
  {
    var tail := "\"" + rest;
    if a == "" {
      ReadClosingQuote(k, rest);
      assert Backslashes(k) + a == Backslashes(k);
    } else {
      Glue(k, a[0], a);
      if a[0] == '\\' {
        ReadQuoted(a[1..], k + 1, rest);
      } else if a[0] == '"' {
        ReadQuoted(a[1..], 0, rest);
        Assoc(Backslashes(2 * k + 1), "\"", Escape(a[1..], 0, true), tail);
        ReadEscapedQuote(k, Escape(a[1..], 0, true) + tail, true);
      } else {
        ReadQuoted(a[1..], 0, rest);
        Assoc(Backslashes(k), [a[0]], Escape(a[1..], 0, true), tail);
        ReadChar(k, a[0], Escape(a[1..], 0, true) + tail, true);
      }
    }
  }

  lemma Assoc(a: string, b: string, c: string, d: string)
    ensures (a + b + c) + d == a + (b + (c + d))
  {
  }

  /** Reading an argument that needs no quotes. */
  lemma {:induction false} ReadPlain(a: string, k: nat, rest: string)
    requires Ends(rest)
    requires forall i :: 0 <= i < |a| ==> !IsBlank(a[i]) && a[i] != '"'
    ensures ReadArg(Escape(a, k, false) + rest, false) == Parsed(Backslashes(k) + a, rest)
    decreases |a|
  {
    if a == "" {
      ReadEnd(rest, k);
      assert Backslashes(k) + a == Backslashes(k);
    } else {
      Glue(k, a[0], a);
      if a[0] == '\\' {
        ReadPlain(a[1..], k + 1, rest);
      } else {
        ReadPlain(a[1..], 0, rest);
        Assoc(Backslashes(k), [a[0]], Escape(a[1..], 0, false), rest);
        ReadChar(k, a[0], Escape(a[1..], 0, false) + rest, false);
      }
    }
  }

  lemma ReadOneQuoted(a: string, rest: string)
    requires Ends(rest)
    ensures ReadArg("\"" + Escape(a, 0, true) + "\"" + rest, false) == Parsed(a, rest)
  {
    var more := Escape(a, 0, true) + ("\"" + rest);
    assert "\"" + Escape(a, 0, true) + "\"" + rest == Backslashes(0) + ("\"" + more);
    ReadOpeningQuote(more);
    ReadQuoted(a, 0, rest);
    assert Backslashes(0) + (Backslashes(0) + a) == a;
  }

  /** One argument is read back exactly, and nothing beyond it. */
  lemma ReadOne(a: string, rest: string)
    requires Ends(rest)
    ensures ReadArg(Quoted(a) + rest, false) == Parsed(a, rest)
    ensures Quoted(a) != "" && !IsBlank(Quoted(a)[0])
  {
    if NeedsQuotes(a) {
      ReadOneQuoted(a, rest);
    } else {
      ReadPlain(a, 0, rest);
      PlainIsItself(a, 0);
      assert Backslashes(0) + a == a;
    }
  }

  lemma {:induction false} PlainIsItself(a: string, k: nat)
    requires forall i :: 0 <= i < |a| ==> a[i] != '"'
    ensures Escape(a, k, false) == Backslashes(k) + a
    decreases |a|
  {
    if a == "" {
    } else if a[0] == '\\' {
      PlainIsItself(a[1..], k + 1);
      assert Backslashes(k + 1) + a[1..] == Backslashes(k) + a;
    } else {
      PlainIsItself(a[1..], 0);
      assert Backslashes(k) + [a[0]] + (Backslashes(0) + a[1..]) == Backslashes(k) + a;
    }
  }

  /** An argument without blanks and quotes stands as it is. */
  lemma PlainArgument(a: string)
    requires a != "" && forall i :: 0 <= i < |a| ==> a[i] != ' ' && a[i] != '\t' && a[i] != '"'
    ensures Quoted(a) == a
  {
    PlainIsItself(a, 0);
    assert Backslashes(0) + a == a;
  }

  // ---------------------------------------------------------------------------
  // The round trip
  // ---------------------------------------------------------------------------

  lemma {:induction false} ReadAll(args: seq<string>)
    ensures ReadArgs(CommandFrom(args)) == args
  {
    if args != [] {
      var rest := if |args| == 1 then "" else " " + CommandFrom(args[1..]);
      ReadOne(args[0], rest);
      ReadAll(args[1..]);
      assert CommandFrom(args) == Quoted(args[0]) + rest;
      assert rest != "" ==> rest[1..] == CommandFrom(args[1..]);
      assert args == [args[0]] + args[1..];
    }
  }

  /** The program name survives: inside its quotes, no blank follows an odd number
      of quote characters, and their number is even. */
  predicate ProgramReads(a: string, quoted: bool) {
    if a == "" then quoted
    else if a[0] == '"' then ProgramReads(a[1..], !quoted)
    else (quoted || !IsBlank(a[0])) && ProgramReads(a[1..], quoted)
  }

  lemma {:induction false} SkipBackslashes(n: nat, s: string, quoted: bool)
    ensures SkipProgram(Backslashes(n) + s, quoted) == SkipProgram(s, quoted)
    decreases n
  {
    if n == 0 {
      assert Backslashes(n) + s == s;
    } else {
      assert (Backslashes(n) + s)[1..] == Backslashes(n - 1) + s;
      SkipBackslashes(n - 1, s, quoted);
    }
  }

  /** The program name is skipped exactly. */
  lemma {:induction false} SkipQuoted(a: string, k: nat, rest: string, quoted: bool)
    ensures ProgramReads(a, quoted) ==>
              SkipProgram(Escape(a, k, true) + ("\"" + rest), quoted) == SkipProgram(rest, false)
    decreases |a|
  {
    var tail := "\"" + rest;
    if a == "" {
      SkipBackslashes(2 * k, tail, quoted);
      assert tail[1..] == rest;
    } else if a[0] == '\\' {
      SkipQuoted(a[1..], k + 1, rest, quoted);
    } else {
      var more := Escape(a[1..], 0, true) + tail;
      var c := [a[0]];
      assert (c + more)[1..] == more;
      SkipQuoted(a[1..], 0, rest, if a[0] == '"' then !quoted else quoted);
      var n := if a[0] == '"' then 2 * k + 1 else k;
      Assoc(Backslashes(n), c, Escape(a[1..], 0, true), tail);
      SkipBackslashes(n, c + more, quoted);
    }
  }

  lemma {:induction false} SkipPlain(a: string, rest: string)
    requires Ends(rest) && forall i :: 0 <= i < |a| ==> !IsBlank(a[i]) && a[i] != '"'
    ensures SkipProgram(a + rest, false) == rest
  {
    if a == "" {
      assert a + rest == rest;
    } else {
      assert (a + rest)[1..] == a[1..] + rest;
      SkipPlain(a[1..], rest);
    }
  }

  /** The opening quote of a quoted text starts a quoted stretch. */
  lemma SkipOpening(body: string, rest: string)
    ensures SkipProgram("\"" + body + "\"" + rest, false) == SkipProgram(body + ("\"" + rest), true)
  {
    var text := "\"" + body + "\"" + rest;
    assert text[1..] == body + ("\"" + rest);
  }

  lemma SkipFirst(a: string, rest: string)
    requires Ends(rest) && ProgramReads(a, true)
    ensures SkipProgram(Quoted(a) + rest, false) == rest
  {
    if NeedsQuotes(a) {
      SkipOpening(Escape(a, 0, true), rest);
      SkipQuoted(a, 0, rest, true);
    } else {
      PlainIsItself(a, 0);
      assert Backslashes(0) + a == a;
      SkipPlain(a, rest);
    }
  }

  /** Everything after the program name on the command line. */
  function Tail(args: seq<string>): string {
    if args == [] then "" else " " + CommandFrom(args)
  }

  lemma SplitProgram(program: string, args: seq<string>)
    ensures CommandFrom([program] + args) == Quoted(program) + Tail(args)
  {
    var argv := [program] + args;
    assert argv[1..] == args;
    if args == [] {
      assert Quoted(program) + Tail(args) == Quoted(program);
    } else {
      assert Quoted(program) + " " + CommandFrom(args) == Quoted(program) + Tail(args);
    }
  }

  lemma ReadTail(args: seq<string>)
    ensures ReadArgs(Tail(args)) == args
  {
    ReadAll(args);
    if args != [] {
      assert Tail(args)[1..] == CommandFrom(args);
    }
  }

  /** The new process reads back exactly the arguments behind the program name,
      whatever blanks, quotes and backslashes they contain. */
  lemma RoundTrip(program: string, args: seq<string>)
    requires ProgramReads(program, true)
    ensures RuntimeArgs(CommandFrom([program] + args)) == args
  {
    SplitProgram(program, args);
    SkipFirst(program, Tail(args));
    ReadTail(args);
  }

  // ---------------------------------------------------------------------------
  // Program names that do not survive
  // ---------------------------------------------------------------------------

  /** A blank outside the quotes comes before the end of the name. */
  predicate CutShort(a: string, quoted: bool) {
    a != "" &&
    if a[0] == '"' then CutShort(a[1..], !quoted)
    else (!quoted && IsBlank(a[0])) || CutShort(a[1..], quoted)
  }

  /** Otherwise the name is cut short, or its quotes never close. */
  lemma {:induction false} SkipFails(a: string, k: nat, rest: string, quoted: bool) returns (pre: string)
    requires !ProgramReads(a, quoted)
    ensures var r := SkipProgram(Escape(a, k, true) + ("\"" + rest), quoted);
            if CutShort(a, quoted) then r == pre + ("\"" + rest) else r == SkipProgram(rest, true)
    decreases |a|
  {
    var tail := "\"" + rest;
    pre := "";
    if a == "" {
      SkipBackslashes(2 * k, tail, quoted);
      assert tail[1..] == rest;
    } else if a[0] == '\\' {
      pre := SkipFails(a[1..], k + 1, rest, quoted);
    } else {
      var n := if a[0] == '"' then 2 * k + 1 else k;
      var c := [a[0]];
      var more := Escape(a[1..], 0, true);
      assert (c + (more + tail))[1..] == more + tail;
      Assoc(Backslashes(n), c, more, tail);
      SkipBackslashes(n, c + (more + tail), quoted);
      if a[0] != '"' && !quoted && IsBlank(a[0]) {
        pre := c + more;
        assert c + (more + tail) == (c + more) + tail;
      } else {
        pre := SkipFails(a[1..], 0, rest, if a[0] == '"' then !quoted else quoted);
      }
    }
  }

  /** A text with a character that is not blank holds an argument. */
  lemma {:induction false} NonBlankHasArg(s: string, i: nat)
    requires i < |s| && !IsBlank(s[i])
    ensures ReadArgs(s) != []
    decreases |s|
  {
    if IsBlank(s[0]) {
      NonBlankHasArg(s[1..], i - 1);
    }
  }

  lemma {:induction false} UnquotedNameReads(a: string)
    requires forall i :: 0 <= i < |a| ==> a[i] != '"'
    ensures ProgramReads(a, true)
  {
    if a != "" {
      UnquotedNameReads(a[1..]);
    }
  }

  /** The round trip holds for all arguments exactly when the program name
      survives: the name alone can be checked, and a name that fails the check
      fails already with no argument or with one. */
  lemma RoundTripIff(program: string)
    ensures ProgramReads(program, true) <==>
            forall args: seq<string> :: RuntimeArgs(CommandFrom([program] + args)) == args
  {
    forall args: seq<string> | ProgramReads(program, true)
      ensures RuntimeArgs(CommandFrom([program] + args)) == args
    {
      RoundTrip(program, args);
    }
    if !ProgramReads(program, true) {
      ProgramFails(program);
    }
  }

  lemma ProgramFails(program: string)
    requires !ProgramReads(program, true)
    ensures exists args: seq<string> :: RuntimeArgs(CommandFrom([program] + args)) != args
  {
    if CutShort(program, true) {
      var pre := AfterProgram(program, []);
      var t := pre + ("\"" + Tail([]));
      assert t[|pre|] == '"';
      NonBlankHasArg(t, |pre|);
      assert RuntimeArgs(CommandFrom([program] + [])) != [];
    } else {
      var pre := AfterProgram(program, ["x"]);
      assert Quoted("x") == "x";
      assert Tail(["x"]) == " x" && " x"[1..] == "x" && "x"[1..] == "";
      assert SkipProgram(" x", true) == "";
      assert RuntimeArgs(CommandFrom([program] + ["x"])) != ["x"];
    }
  }

  lemma AfterProgram(program: string, args: seq<string>) returns (pre: string)
    requires !ProgramReads(program, true)
    ensures var r := SkipProgram(CommandFrom([program] + args), false);
            if CutShort(program, true) then r == pre + ("\"" + Tail(args)) else r == SkipProgram(Tail(args), true)
  {
    if !NeedsQuotes(program) {
      UnquotedNameReads(program);
    }
    SplitProgram(program, args);
    SkipOpening(Escape(program, 0, true), Tail(args));
    pre := SkipFails(program, 0, Tail(args), true);
  }

  /** A program name with a quote that makes the new process see an argument nobody
      passed, and one that makes it lose the argument it was passed. */
  lemma QuoteInProgramName()
    ensures !ProgramReads("a\" b", true) && RuntimeArgs(CommandFrom(["a\" b"])) == ["b"]
    ensures !ProgramReads("a\"", true) && RuntimeArgs(CommandFrom(["a\"", "x"])) == []
  {
    NameWithBlank();
    NameWithQuote();
  }

  lemma NameWithBlank()
    ensures !ProgramReads("a\" b", true) && RuntimeArgs(CommandFrom(["a\" b"])) == ["b"]
  {
    var name := "a\" b";
    assert name[1..] == "\" b" && "\" b"[1..] == " b" && " b"[1..] == "b" && "b"[1..] == "";
    assert name[1] == '"';
    assert Escape("b", 0, true) == "b" && Escape(" b", 0, true) == " b";
    assert Escape("\" b", 0, true) == "\\\" b" && Escape(name, 0, true) == "a\\\" b";
    assert CommandFrom([name]) == "\"a\\\"" + " b\"";
    SkipInside(" b\"");
    assert SkipProgram(" b\"", false) == " b\"";
    ReadsB();
  }

  lemma NameWithQuote()
    ensures !ProgramReads("a\"", true) && RuntimeArgs(CommandFrom(["a\"", "x"])) == []
  {
    var name := "a\"";
    assert name[1..] == "\"" && "\""[1..] == "" && name[1] == '"';
    assert Escape("\"", 0, true) == "\\\"" && Escape(name, 0, true) == "a\\\"";
    assert [name, "x"][1..] == ["x"] && Quoted("x") == "x";
    assert CommandFrom([name, "x"]) == "\"a\\\"" + "\" x";
    SkipInside("\" x");
    assert "\" x"[1..] == " x" && " x"[1..] == "x" && "x"[1..] == "";
    assert SkipProgram("\" x", false) == SkipProgram(" x", true) == "";
  }

  /** Behind `"a\"` the runtime takes the rest of the name to be unquoted. */
  lemma SkipInside(rest: string)
    ensures SkipProgram("\"a\\\"" + rest, false) == SkipProgram(rest, false)
  {
    SkipChar('"', "a\\\"" + rest, false);
    SkipChar('a', "\\\"" + rest, true);
    SkipChar('\\', "\"" + rest, true);
    SkipChar('"', rest, true);
    assert "\"a\\\"" + rest == ['"'] + ("a\\\"" + rest);
    assert "a\\\"" + rest == ['a'] + ("\\\"" + rest);
    assert "\\\"" + rest == ['\\'] + ("\"" + rest);
  }

  lemma SkipChar(c: char, rest: string, quoted: bool)
    requires quoted || !IsBlank(c)
    ensures SkipProgram([c] + rest, quoted) == SkipProgram(rest, if c == '"' then !quoted else quoted)
  {
    assert ([c] + rest)[1..] == rest;
  }

  lemma ReadsB()
    ensures ReadArgs(" b\"") == ["b"]
  {
    var t := "b\"";
    assert " b\""[1..] == t && t[1..] == "\"" && "\""[1..] == "";
    assert ReadArg("", true) == Parsed("", "");
    assert ReadArg("\"", false) == Parsed("", "");
    assert ReadArg(t, false) == Parsed("b", "");
  }
}
