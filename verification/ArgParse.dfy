/** The GNU-style argument scanner (src/ucb/argparse.c). Strings are C strings
    without their terminating NUL. Destinations are numbered; two options may share
    one. Numeric conversion is a parameter. */
module ArgParse {

  datatype Maybe<T> = None | Some(value: T)

  datatype Action = Store | StoreTrue | StoreFalse | Count | Append | Help | Version

  datatype Kind = BoolKind | StrKind | IntKind | OtherKind(id: nat)

  datatype Value = Flag(on: bool) | Number(n: int) | Text(text: string) | List(items: seq<string>)

  datatype Opt = Opt(shortName: Maybe<char>, longName: string, action: Action, kind: Kind, dest: nat,
                     def: Maybe<string>, choices: seq<string>, required: bool)

  datatype Error =
    | Unrecognized(name: string)
    | InvalidOption(c: char)
    | RequiresArgument(opt: nat)
    | TakesNoArgument(opt: nat)
    | InvalidValue(opt: nat, text: string)
    | InvalidChoice(opt: nat, text: string)
    | InvalidDefault(opt: nat)
    | Required(opt: nat)

  datatype Status = Ok | HelpShown | VersionShown | Failed(error: Error)

  /** The parser: its options, whether positionals are wanted, and the numeric
      conversions (strtoll and its relatives with their range checks). */
  datatype Parser = Parser(opts: seq<Opt>, collect: bool, numeric: (Kind, string) -> Maybe<int>)

  /** What parsing writes: destinations, the seen flags and the positionals. */
  datatype State = State(dests: map<nat, Value>, seen: set<nat>, positionals: seq<string>)

  // ---------------------------------------------------------------------------
  // Options
  // ---------------------------------------------------------------------------

  function ShortFrom(opts: seq<Opt>, c: char, i: nat): (o: nat)
    requires i <= |opts|
    ensures i <= o <= |opts| && (o < |opts| ==> opts[o].shortName == Some(c))
    ensures forall j :: i <= j < o ==> opts[j].shortName != Some(c)
    decreases |opts| - i
  {
    if i == |opts| || opts[i].shortName == Some(c) then i else ShortFrom(opts, c, i + 1)
  }

  function LongFrom(opts: seq<Opt>, name: string, i: nat): (o: nat)
    requires i <= |opts|
    ensures i <= o <= |opts| && (o < |opts| ==> opts[o].longName == name)
    ensures forall j :: i <= j < o ==> opts[j].longName != name
    decreases |opts| - i
  {
    if i == |opts| || opts[i].longName == name then i else LongFrom(opts, name, i + 1)
  }

  /** find_short; the number of options if there is none. */
  function FindShort(p: Parser, c: char): (o: nat)
    ensures o <= |p.opts|
  {
    ShortFrom(p.opts, c, 0)
  }

  /** find_long */
  function FindLong(p: Parser, name: string): (o: nat)
    ensures o <= |p.opts|
  {
    if name == "" then |p.opts| else LongFrom(p.opts, name, 0)
  }

  predicate TakesValue(o: Opt) {
    o.action == Store || o.action == Append
  }

  function Lower(c: char): char {
    if 'A' <= c <= 'Z' then (c as int - 'A' as int + 'a' as int) as char else c
  }

  predicate SameIgnoringCase(a: string, b: string) {
    |a| == |b| && forall i :: 0 <= i < |a| ==> Lower(a[i]) == Lower(b[i])
  }

  function ParseBool(s: string): Maybe<bool> {
    if SameIgnoringCase(s, "true") || s == "1" || SameIgnoringCase(s, "yes") || SameIgnoringCase(s, "on") then Some(true)
    else if SameIgnoringCase(s, "false") || s == "0" || SameIgnoringCase(s, "no") || SameIgnoringCase(s, "off")
    then Some(false)
    else None
  }

  /** convert_store */
  function Convert(p: Parser, kind: Kind, s: string): Maybe<Value> {
    match kind
    case StrKind => Some(Text(s))
    case BoolKind => (match ParseBool(s) case Some(b) => Some(Flag(b)) case None => None)
    case _ => (match p.numeric(kind, s) case Some(n) => Some(Number(n)) case None => None)
  }

  datatype Applied = Fine(st: State) | Halted(status: Status, st: State)

  function Marked(st: State, o: nat): State {
    st.(seen := st.seen + {o})
  }

  function Written(st: State, dest: nat, v: Value): State {
    st.(dests := st.dests[dest := v])
  }

  function Increment(st: State, dest: nat): Value {
    if dest in st.dests && st.dests[dest].Number? then Number(st.dests[dest].n + 1) else Number(1)
  }

  function Appended(st: State, dest: nat, s: string): Value {
    if dest in st.dests && st.dests[dest].List? then List(st.dests[dest].items + [s]) else List([s])
  }

  /** apply_option; flags get the empty text for their NULL value. */
  function Apply(p: Parser, o: nat, value: string, st: State): (a: Applied)
    requires o < |p.opts|
    ensures a.st.positionals == st.positionals && (a.Halted? ==> a.status != Ok)
  {
    var opt := p.opts[o];
    match opt.action
    case Store =>
      if opt.choices != [] && value !in opt.choices then Halted(Failed(InvalidChoice(o, value)), st)
      else
        (match Convert(p, opt.kind, value)
         case None => Halted(Failed(InvalidValue(o, value)), st)
         case Some(v) => Fine(Marked(Written(st, opt.dest, v), o)))
    case Append =>
      if opt.choices != [] && value !in opt.choices then Halted(Failed(InvalidChoice(o, value)), st)
      else Fine(Marked(Written(st, opt.dest, Appended(st, opt.dest, value)), o))
    case StoreTrue => Fine(Marked(Written(st, opt.dest, Flag(true)), o))
    case StoreFalse => Fine(Marked(Written(st, opt.dest, Flag(false)), o))
    case Count => Fine(Marked(Written(st, opt.dest, Increment(st, opt.dest)), o))
    case Help => Halted(HelpShown, Marked(st, o))
    case Version => Halted(VersionShown, Marked(st, o))
  }

  // ---------------------------------------------------------------------------
  // The scan
  // ---------------------------------------------------------------------------

  /** The place of the first '=' in s, or its length. */
  function EqualsAt(s: string): (n: nat)
    ensures n <= |s| && (n < |s| ==> s[n] == '=') && forall i :: 0 <= i < n ==> s[i] != '='
  {
    if s == "" || s[0] == '=' then 0 else 1 + EqualsAt(s[1..])
  }

  predicate IsLong(arg: string) {
    |arg| > 2 && arg[0] == '-' && arg[1] == '-'
  }

  /** Characters behind the dash that make an argument look like a negative number. */
  predicate LooksNumeric(c: char) {
    '0' <= c <= '9' || c == '.'
  }

  predicate IsShort(arg: string) {
    |arg| > 1 && arg[0] == '-' && arg[1] != '-' && !LooksNumeric(arg[1])
  }

  /** The outcome of one token: go on behind it, or stop. */
  datatype Turn = Next(st: State, rest: seq<string>) | Stop(status: Status, st: State)

  function Resume(a: Applied, rest: seq<string>): Turn {
    match a
    case Fine(st) => Next(st, rest)
    case Halted(status, st) => Stop(status, st)
  }

  /** A long option, body without the dashes; rest are the arguments behind it. */
  function LongTurn(p: Parser, body: string, rest: seq<string>, st: State): Turn {
    var n := EqualsAt(body);
    var o := FindLong(p, body[..n]);
    if o == |p.opts| then Stop(Failed(Unrecognized(body[..n])), st)
    else if TakesValue(p.opts[o]) then
      if n < |body| then Resume(Apply(p, o, body[n + 1..], st), rest)
      else if rest == [] then Stop(Failed(RequiresArgument(o)), st)
      else Resume(Apply(p, o, rest[0], st), rest[1..])
    else if n < |body| then Stop(Failed(TakesNoArgument(o)), st)
    else Resume(Apply(p, o, "", st), rest)
  }

  /** A bundle of short options, body without the dash. */
  function ShortTurn(p: Parser, body: string, rest: seq<string>, st: State): Turn {
    if body == "" then Next(st, rest)
    else
      var o := FindShort(p, body[0]);
      if o == |p.opts| then Stop(Failed(InvalidOption(body[0])), st)
      else if TakesValue(p.opts[o]) then
        if |body| > 1 then Resume(Apply(p, o, body[1..], st), rest)
        else if rest == [] then Stop(Failed(RequiresArgument(o)), st)
        else Resume(Apply(p, o, rest[0], st), rest[1..])
      else
        match Apply(p, o, "", st)
        case Fine(st') => ShortTurn(p, body[1..], rest, st')
        case Halted(status, st') => Stop(status, st')
  }

  function Positional(p: Parser, arg: seq<string>, st: State): State {
    if p.collect then st.(positionals := st.positionals + arg) else st
  }

  datatype Scanned = Scanned(status: Status, st: State)

  lemma {:induction false} ShortTurnRest(p: Parser, body: string, rest: seq<string>, st: State)
    ensures var t := ShortTurn(p, body, rest, st); t.Next? ==> t.rest == rest || (rest != [] && t.rest == rest[1..])
    decreases |body|
  {
    if body != "" {
      var o := FindShort(p, body[0]);
      if o < |p.opts| && !TakesValue(p.opts[o]) {
        match Apply(p, o, "", st)
        case Fine(st') => ShortTurnRest(p, body[1..], rest, st');
        case Halted(_, _) =>
      }
    }
  }

  /** One token, or everything behind "--". */
  function OneTurn(p: Parser, args: seq<string>, st: State): (t: Turn)
    requires args != []
    ensures t.Next? ==> |t.rest| < |args|
  {
    var arg := args[0];
    if arg == "--" then Next(Positional(p, args[1..], st), [])
    else if IsLong(arg) then LongTurn(p, arg[2..], args[1..], st)
    else if IsShort(arg) then
      ShortTurnRest(p, arg[1..], args[1..], st);
      ShortTurn(p, arg[1..], args[1..], st)
    else Next(Positional(p, [arg], st), args[1..])
  }

  /** The scan of the arguments behind the program name. */
  function Scan(p: Parser, args: seq<string>, st: State): Scanned
    decreases |args|
  {
    if args == [] then Scanned(Ok, st)
    else
      match OneTurn(p, args, st)
      case Next(st', rest) => Scan(p, rest, st')
      case Stop(status, st') => Scanned(status, st')
  }

  // ---------------------------------------------------------------------------
  // Spelling options out
  // ---------------------------------------------------------------------------

  /** The bundle names only flags, and its last character an option whose value is
      the next argument. */
  predicate TakesNext(p: Parser, body: string) {
    body != "" &&
    var o := FindShort(p, body[0]);
    o < |p.opts| && if TakesValue(p.opts[o]) then |body| == 1 else TakesNext(p, body[1..])
  }

  predicate EndsScan(o: Opt) {
    o.action == Help || o.action == Version
  }

  /** Every name of the bundle that the scan comes to can stand alone behind a dash:
      up to an unknown option, one that takes a value, or one that ends the parse. */
  predicate Sound(p: Parser, body: string) {
    body == "" ||
    (body[0] != '-' && !LooksNumeric(body[0]) &&
     var o := FindShort(p, body[0]);
     (o == |p.opts| || TakesValue(p.opts[o]) || EndsScan(p.opts[o]) || Sound(p, body[1..])))
  }

  /** The bundle -abVALUE as -a -b VALUE. */
  function Split(p: Parser, body: string): seq<string> {
    if body == "" then []
    else
      var o := FindShort(p, body[0]);
      if o < |p.opts| && TakesValue(p.opts[o]) then
        [['-', body[0]]] + (if |body| > 1 then [body[1..]] else [])
      else [['-', body[0]]] + Split(p, body[1..])
  }

  function Pieces(p: Parser, arg: string): seq<string>
    requires IsShort(arg)
  {
    if Sound(p, arg[1..]) then Split(p, arg[1..]) else [arg]
  }

  /** Rewrite, along the scan, every bundle -abVALUE to -a -b VALUE and every
      --name=VALUE to --name VALUE. */
  function Desugar(p: Parser, args: seq<string>): seq<string>
    decreases |args|
  {
    if args == [] || args[0] == "--" then args
    else
      var arg, rest := args[0], args[1..];
      if IsLong(arg) then
        var body := arg[2..];
        var n := EqualsAt(body);
        var o := FindLong(p, body[..n]);
        if o < |p.opts| && TakesValue(p.opts[o]) && n < |body| then
          [arg[..2 + n], body[n + 1..]] + Desugar(p, rest)
        else if o < |p.opts| && TakesValue(p.opts[o]) && rest != [] then [arg, rest[0]] + Desugar(p, rest[1..])
        else [arg] + Desugar(p, rest)
      else if IsShort(arg) then
        if TakesNext(p, arg[1..]) && rest != [] then Pieces(p, arg) + [rest[0]] + Desugar(p, rest[1..])
        else Pieces(p, arg) + Desugar(p, rest)
      else [arg] + Desugar(p, rest)
  }

  /** What the scan makes of a turn. */
  function After(p: Parser, t: Turn): Scanned {
    match t
    case Next(st, rest) => Scan(p, rest, st)
    case Stop(status, st) => Scanned(status, st)
  }

  /** A bundle means the same as its names one by one. */
  lemma {:induction false} SplitMeans(p: Parser, body: string, rest: seq<string>, st: State)
    requires Sound(p, body)
    ensures Scan(p, Split(p, body) + rest, st) == After(p, ShortTurn(p, body, rest, st))
    decreases |body|
  {
    if body == "" {
      assert Split(p, body) + rest == rest;
    } else {
      var o := FindShort(p, body[0]);
      var dash := ['-', body[0]];
      assert IsShort(dash) && dash[1..] == [body[0]];
      if o < |p.opts| && TakesValue(p.opts[o]) {
        SplitValue(p, body, rest, st);
      } else {
        var behind := Split(p, body[1..]) + rest;
        assert Split(p, body) + rest == [dash] + behind;
        OneFlag(p, body[0], behind, st);
        if o < |p.opts| {
          match Apply(p, o, "", st)
          case Fine(st') => SplitMeans(p, body[1..], rest, st');
          case Halted(_, _) =>
        }
      }
    }
  }

  /** A single name that takes no value, or is unknown. */
  lemma OneFlag(p: Parser, c: char, behind: seq<string>, st: State)
    requires c != '-' && !LooksNumeric(c)
    requires var o := FindShort(p, c); o < |p.opts| ==> !TakesValue(p.opts[o])
    ensures var o := FindShort(p, c);
            Scan(p, [['-', c]] + behind, st) ==
              if o == |p.opts| then Scanned(Failed(InvalidOption(c)), st)
              else After(p, Resume(Apply(p, o, "", st), behind))
  {
    var args := [['-', c]] + behind;
    var dash := ['-', c];
    assert args[0] == dash && args[1..] == behind && IsShort(dash) && dash != "--" && dash[1..] == [c];
    assert [c][1..] == "";
    var o := FindShort(p, c);
    if o < |p.opts| {
      match Apply(p, o, "", st)
      case Fine(st') => assert ShortTurn(p, "", behind, st') == Next(st', behind);
      case Halted(_, _) =>
    }
    assert OneTurn(p, args, st) == ShortTurn(p, [c], behind, st);
  }

  lemma SplitValue(p: Parser, body: string, rest: seq<string>, st: State)
    requires body != "" && body[0] != '-' && !LooksNumeric(body[0])
    requires var o := FindShort(p, body[0]); o < |p.opts| && TakesValue(p.opts[o])
    ensures Scan(p, Split(p, body) + rest, st) == After(p, ShortTurn(p, body, rest, st))
  {
    var dash := ['-', body[0]];
    var behind := (if |body| > 1 then [body[1..]] else []) + rest;
    var args := [dash] + behind;
    assert Split(p, body) + rest == args;
    assert args[0] == dash && args[1..] == behind && IsShort(dash) && dash != "--" && dash[1..] == [body[0]];
    assert OneTurn(p, args, st) == ShortTurn(p, [body[0]], behind, st);
    if |body| > 1 {
      assert behind[0] == body[1..] && behind[1..] == rest;
    } else {
      assert behind == rest && body == [body[0]];
    }
  }

  /** A bundle uses the next argument exactly if its last name takes a value. */
  lemma {:induction false} BundleUses(p: Parser, body: string, rest: seq<string>, rest': seq<string>, st: State)
    requires if TakesNext(p, body) && rest != [] then rest' != [] && rest'[0] == rest[0] else rest == [] ==> rest' == []
    ensures var t, t' := ShortTurn(p, body, rest, st), ShortTurn(p, body, rest', st);
            var used := if TakesNext(p, body) && rest != [] then 1 else 0;
            if t.Next? then t' == Next(t.st, rest'[used..]) && t.rest == rest[used..] else t' == t
    decreases |body|
  {
    if body != "" {
      var o := FindShort(p, body[0]);
      if o < |p.opts| && !TakesValue(p.opts[o]) {
        match Apply(p, o, "", st)
        case Fine(st') => BundleUses(p, body[1..], rest, rest', st');
        case Halted(_, _) =>
      }
    }
  }

  lemma {:induction false} DesugarEmpty(p: Parser, args: seq<string>)
    ensures Desugar(p, args) == [] <==> args == []
  {
    if args != [] && args[0] != "--" && IsShort(args[0]) {
      assert Pieces(p, args[0]) != [];
    }
  }

  /** The rewriting keeps status, destinations, seen flags and positionals. */
  lemma {:induction false} DesugarMeans(p: Parser, args: seq<string>, st: State)
    ensures Scan(p, Desugar(p, args), st) == Scan(p, args, st)
    decreases |args|, 1
  {
    if args != [] && args[0] != "--" {
      if IsLong(args[0]) {
        LongMeans(p, args, st);
      } else if IsShort(args[0]) {
        BundleMeans(p, args, st);
      } else {
        var out := Desugar(p, args);
        assert out[0] == args[0] && out[1..] == Desugar(p, args[1..]);
        DesugarMeans(p, args[1..], Positional(p, [args[0]], st));
      }
    }
  }

  /** Both spellings of one token behave alike. */
  lemma LongMeans(p: Parser, args: seq<string>, st: State)
    requires args != [] && IsLong(args[0])
    ensures Scan(p, Desugar(p, args), st) == Scan(p, args, st)
    decreases |args|, 0
  {
    var arg, rest := args[0], args[1..];
    var body := arg[2..];
    var n := EqualsAt(body);
    var o := FindLong(p, body[..n]);
    var out := Desugar(p, args);
    assert out[0] == (if o < |p.opts| && TakesValue(p.opts[o]) && n < |body| then arg[..2 + n] else arg);
    if o < |p.opts| && TakesValue(p.opts[o]) {
      if n < |body| {
        assert body[..n] != "";
        LongSplit(p, arg, Desugar(p, rest), st);
        assert out == [arg[..2 + n], body[n + 1..]] + Desugar(p, rest);
        ResumeMeans(p, Apply(p, o, body[n + 1..], st), Desugar(p, rest), rest);
      } else if rest != [] {
        assert out[1..] == [rest[0]] + Desugar(p, rest[1..]) && out[1..][1..] == Desugar(p, rest[1..]);
        ResumeMeans(p, Apply(p, o, rest[0], st), Desugar(p, rest[1..]), rest[1..]);
      }
    } else {
      assert out[1..] == Desugar(p, rest);
      if o < |p.opts| {
        ResumeMeans(p, Apply(p, o, "", st), Desugar(p, rest), rest);
      }
    }
  }

  lemma ResumeMeans(p: Parser, a: Applied, out: seq<string>, rest: seq<string>)
    requires out == Desugar(p, rest)
    ensures After(p, Resume(a, out)) == After(p, Resume(a, rest))
    decreases |rest|, 2
  {
    match a
    case Fine(st) => DesugarMeans(p, rest, st);
    case Halted(_, _) =>
  }

  /** --name=VALUE and --name VALUE. */
  lemma LongSplit(p: Parser, arg: string, behind: seq<string>, st: State)
    requires IsLong(arg)
    requires var n := EqualsAt(arg[2..]); 0 < n < |arg| - 2 && FindLong(p, arg[2..][..n]) < |p.opts|
    requires TakesValue(p.opts[FindLong(p, arg[2..][..EqualsAt(arg[2..])])])
    ensures var n := EqualsAt(arg[2..]);
            Scan(p, [arg[..2 + n], arg[2..][n + 1..]] + behind, st) ==
            After(p, Resume(Apply(p, FindLong(p, arg[2..][..n]), arg[2..][n + 1..], st), behind))
  {
    var body := arg[2..];
    var n := EqualsAt(body);
    var name := arg[..2 + n];
    var args := [name, body[n + 1..]] + behind;
    assert name[2..] == body[..n];
    NoEquals(body[..n]);
    assert body[..n][..n] == body[..n];
    assert args[0] == name && args[1..] == [body[n + 1..]] + behind && args[1..][1..] == behind;
    assert IsLong(name) && name != "--";
  }

  lemma {:induction false} NoEquals(s: string)
    requires forall i :: 0 <= i < |s| ==> s[i] != '='
    ensures EqualsAt(s) == |s|
  {
    if s != "" {
      NoEquals(s[1..]);
    }
  }

  lemma BundleMeans(p: Parser, args: seq<string>, st: State)
    requires args != [] && IsShort(args[0])
    ensures Scan(p, Desugar(p, args), st) == Scan(p, args, st)
    decreases |args|, 0
  {
    var arg, rest := args[0], args[1..];
    var body := arg[1..];
    var used := if TakesNext(p, body) && rest != [] then 1 else 0;
    var left := rest[used..];
    var behind := rest[..used] + Desugar(p, left);
    assert Desugar(p, args) == Pieces(p, arg) + behind;
    DesugarEmpty(p, left);
    BundleUses(p, body, rest, behind, st);
    assert behind[used..] == Desugar(p, left);
    if Sound(p, body) {
      SplitMeans(p, body, behind, st);
    } else {
      var out := [arg] + behind;
      assert out[0] == arg && out[1..] == behind;
    }
    var t := ShortTurn(p, body, rest, st);
    if t.Next? {
      DesugarMeans(p, left, t.st);
    }
  }

  // ---------------------------------------------------------------------------
  // Bundles that have to stay together
  // ---------------------------------------------------------------------------

  /** A bundle that names a digit, `.` or `-` means something else in pieces: -ac sets
      two flags, while -c alone is an argument, or for `-` the end of the options. */
  lemma DigitsStayBundled(p: Parser, st: State, c: char)
    requires '0' <= c <= '9' || c == '.' || c == '-'
    requires p.opts == [Opt(Some('a'), "", StoreTrue, BoolKind, 0, None, [], false),
                        Opt(Some(c), "", StoreTrue, BoolKind, 1, None, [], false)]
    requires p.collect
    ensures Scan(p, [['-', 'a', c]], st) ==
            Scanned(Ok, State(st.dests[0 := Flag(true)][1 := Flag(true)], st.seen + {0} + {1}, st.positionals))
    ensures Scan(p, ["-a", ['-', c]], st) ==
            Scanned(Ok, State(st.dests[0 := Flag(true)], st.seen + {0},
                              st.positionals + (if c == '-' then [] else [['-', c]])))
  {
    var both, one: string := ['-', 'a', c], ['-', c];
    assert ShortFrom(p.opts, c, 1) == 1;
    assert FindShort(p, 'a') == 0 && FindShort(p, c) == 1;
    assert both[1..] == ['a', c] && ['a', c][1..] == [c] && [c][1..] == "" && "-a"[1..] == "a" && "a"[1..] == "";
    var none: seq<string> := [];
    assert [both][1..] == none && ["-a", one][1..] == [one] && [one][1..] == none;
    var st1 := State(st.dests[0 := Flag(true)], st.seen + {0}, st.positionals);
    assert ShortTurn(p, [c], [], st1) == Next(State(st1.dests[1 := Flag(true)], st1.seen + {1}, st1.positionals), []);
    assert ShortTurn(p, "a", [one], st) == Next(st1, [one]);
    var kept := if c == '-' then none else [one];
    assert st1.positionals + none == st1.positionals;
    assert OneTurn(p, [one], st1) == Next(Positional(p, kept, st1), none);
    assert Scan(p, [one], st1) == Scanned(Ok, Positional(p, kept, st1));
    assert OneTurn(p, ["-a", one], st) == Next(st1, [one]);
  }

  lemma {:induction false} ShortTurnKeeps(p: Parser, body: string, rest: seq<string>, st: State)
    ensures var t := ShortTurn(p, body, rest, st);
            t.st.positionals == st.positionals && (t.Stop? ==> t.status != Ok) && st.seen <= t.st.seen
    decreases |body|
  {
    if body != "" {
      var o := FindShort(p, body[0]);
      if o < |p.opts| && !TakesValue(p.opts[o]) {
        match Apply(p, o, "", st)
        case Fine(st') => ShortTurnKeeps(p, body[1..], rest, st');
        case Halted(_, _) =>
      }
    }
  }

  /** The scan only ever adds positionals. */
  lemma {:induction false} PositionalsGrow(p: Parser, args: seq<string>, st: State)
    ensures |Scan(p, args, st).st.positionals| >= |st.positionals|
    decreases |args|
  {
    if args != [] {
      if IsShort(args[0]) {
        ShortTurnKeeps(p, args[0][1..], args[1..], st);
      }
      match OneTurn(p, args, st)
      case Next(st', rest) => PositionalsGrow(p, rest, st');
      case Stop(_, _) =>
    }
  }

  /** The bundle at the end of the arguments: it adds no positional, and its first
      name fails, ends the parse or is seen. */
  lemma BundleAtEnd(p: Parser, body: string, st: State)
    requires body != ""
    ensures var r := After(p, ShortTurn(p, body, [], st));
            r.st.positionals == st.positionals && (r.status != Ok || FindShort(p, body[0]) in r.st.seen)
  {
    ShortTurnKeeps(p, body, [], st);
    ShortTurnRest(p, body, [], st);
    var o := FindShort(p, body[0]);
    if o < |p.opts| && !TakesValue(p.opts[o]) {
      match Apply(p, o, "", st)
      case Fine(st') => ShortTurnKeeps(p, body[1..], [], st');
      case Halted(_, _) =>
    }
  }

  /** A first name that cannot stand alone. */
  lemma LostName(p: Parser, body: string, st: State)
    requires p.collect && body != "" && (body[0] == '-' || LooksNumeric(body[0]))
    requires FindShort(p, '-') !in st.seen
    ensures Scan(p, Split(p, body), st) != After(p, ShortTurn(p, body, [], st))
  {
    var dash: string := ['-', body[0]];
    var pieces := Split(p, body);
    assert pieces[0] == dash;
    BundleAtEnd(p, body, st);
    if body[0] == '-' {
      assert dash == "--";
      assert OneTurn(p, pieces, st) == Next(Positional(p, pieces[1..], st), []);
    } else {
      assert OneTurn(p, pieces, st) == Next(Positional(p, [dash], st), pieces[1..]);
      PositionalsGrow(p, pieces[1..], Positional(p, [dash], st));
    }
  }

  /** A bundle that is not sound scans differently in pieces, at the end of the
      arguments, unless an option named `-` was seen before. */
  lemma {:induction false} UnsoundDiffers(p: Parser, body: string, st: State)
    requires p.collect && !Sound(p, body) && FindShort(p, '-') !in st.seen
    ensures Scan(p, Split(p, body), st) != After(p, ShortTurn(p, body, [], st))
    decreases |body|
  {
    if body[0] == '-' || LooksNumeric(body[0]) {
      LostName(p, body, st);
    } else {
      var o := FindShort(p, body[0]);
      var st' := Apply(p, o, "", st).st;
      assert Split(p, body) == [['-', body[0]]] + Split(p, body[1..]);
      OneFlag(p, body[0], Split(p, body[1..]), st);
      UnsoundDiffers(p, body[1..], st');
    }
  }

  /** Exactly which bundles mean the same as their names one by one, whatever
      follows and whatever was parsed before. */
  lemma SplitExact(p: Parser, body: string)
    requires p.collect
    ensures Sound(p, body) <==>
            forall rest: seq<string>, st: State :: Scan(p, Split(p, body) + rest, st) == After(p, ShortTurn(p, body, rest, st))
  {
    if Sound(p, body) {
      forall rest: seq<string>, st: State
        ensures Scan(p, Split(p, body) + rest, st) == After(p, ShortTurn(p, body, rest, st))
      {
        SplitMeans(p, body, rest, st);
      }
    } else {
      var st := State(map[], {}, []);
      UnsoundDiffers(p, body, st);
      assert Split(p, body) + [] == Split(p, body);
      assert Scan(p, Split(p, body) + [], st) != After(p, ShortTurn(p, body, [], st));
    }
  }

  // ---------------------------------------------------------------------------
  // Positionals
  // ---------------------------------------------------------------------------

  /** The tokens that are neither options nor values of options. */
  function Unconsumed(p: Parser, args: seq<string>): seq<string>
    decreases |args|
  {
    if args == [] then []
    else
      var arg, rest := args[0], args[1..];
      if arg == "--" then rest
      else if IsLong(arg) then
        var o := FindLong(p, arg[2..][..EqualsAt(arg[2..])]);
        if o < |p.opts| && TakesValue(p.opts[o]) && EqualsAt(arg[2..]) == |arg| - 2 && rest != []
        then Unconsumed(p, rest[1..])
        else Unconsumed(p, rest)
      else if IsShort(arg) then
        if TakesNext(p, arg[1..]) && rest != [] then Unconsumed(p, rest[1..]) else Unconsumed(p, rest)
      else [arg] + Unconsumed(p, rest)
  }

  /** If the scan succeeds, the positionals are the unconsumed tokens in order. */
  lemma {:induction false} PositionalsAreUnconsumed(p: Parser, args: seq<string>, st: State)
    requires Scan(p, args, st).status == Ok
    ensures Scan(p, args, st).st.positionals == st.positionals + (if p.collect then Unconsumed(p, args) else [])
    decreases |args|
  {
    if args != [] {
      var kept := TurnKeeps(p, args, st);
      var t := OneTurn(p, args, st);
      PositionalsAreUnconsumed(p, t.rest, t.st);
      Collected(st.positionals, kept, Unconsumed(p, t.rest));
    }
  }

  lemma Collected(a: seq<string>, b: seq<string>, c: seq<string>)
    ensures a + (b + c) == a + b + c && a + [] == a
  {
  }

  /** One token: what it adds to the positionals comes first among the unconsumed. */
  lemma TurnKeeps(p: Parser, args: seq<string>, st: State) returns (kept: seq<string>)
    requires args != [] && Scan(p, args, st).status == Ok
    ensures var t := OneTurn(p, args, st);
            && t.Next? && Unconsumed(p, args) == kept + Unconsumed(p, t.rest)
            && t.st.positionals == if p.collect then st.positionals + kept else st.positionals
  {
    var arg, rest := args[0], args[1..];
    kept := if arg == "--" then rest else if IsLong(arg) || IsShort(arg) then [] else [arg];
    if IsShort(arg) && arg != "--" {
      ShortTurnKeeps(p, arg[1..], rest, st);
      BundleUses(p, arg[1..], rest, rest, st);
    }
    assert st.positionals + [] == st.positionals && rest + [] == rest;
  }

  // ---------------------------------------------------------------------------
  // Defaults and required options
  // ---------------------------------------------------------------------------

  function Zero(kind: Kind): Value {
    if kind == BoolKind then Flag(false) else Number(0)
  }

  /** init_default */
  function Init(p: Parser, o: nat, st: State): Applied
    requires o < |p.opts|
  {
    var opt := p.opts[o];
    var start := st.(seen := st.seen - {o});
    match opt.action
    case Store =>
      if opt.kind == StrKind then
        Fine(Written(start, opt.dest, Text(if opt.def.Some? then opt.def.value else "")))
      else
        var zero := Written(start, opt.dest, Zero(opt.kind));
        if opt.def.None? then Fine(zero)
        else
          (match Convert(p, opt.kind, opt.def.value)
           case None => Halted(Failed(InvalidValue(o, opt.def.value)), zero)
           case Some(v) => Fine(Written(zero, opt.dest, v)))
    case StoreTrue => InitFlag(o, opt, false, start)
    case StoreFalse => InitFlag(o, opt, true, start)
    case Count =>
      if opt.def.None? then Fine(Written(start, opt.dest, Number(0)))
      else
        (match p.numeric(IntKind, opt.def.value)
         case None => Halted(Failed(InvalidDefault(o)), start)
         case Some(n) => Fine(Written(start, opt.dest, Number(n))))
    case Append => Fine(Written(start, opt.dest, List([])))
    case Help => Fine(start)
    case Version => Fine(start)
  }

  function InitFlag(o: nat, opt: Opt, usual: bool, st: State): Applied {
    if opt.def.None? then Fine(Written(st, opt.dest, Flag(usual)))
    else
      match ParseBool(opt.def.value)
      case None => Halted(Failed(InvalidDefault(o)), st)
      case Some(b) => Fine(Written(st, opt.dest, Flag(b)))
  }

  function InitFrom(p: Parser, o: nat, st: State): Applied
    requires o <= |p.opts|
    decreases |p.opts| - o
  {
    if o == |p.opts| then Fine(st)
    else
      match Init(p, o, st)
      case Fine(st') => InitFrom(p, o + 1, st')
      case Halted(status, st') => Halted(status, st')
  }

  /** The first required option from o on that was not seen. */
  function Missing(p: Parser, o: nat, seen: set<nat>): (m: nat)
    requires o <= |p.opts|
    ensures o <= m <= |p.opts| && (m < |p.opts| ==> p.opts[m].required && m !in seen)
    ensures forall j :: o <= j < m ==> p.opts[j].required ==> j in seen
    decreases |p.opts| - o
  {
    if o == |p.opts| || (p.opts[o].required && o !in seen) then o else Missing(p, o + 1, seen)
  }

  function Checked(p: Parser, r: Scanned): Scanned {
    if r.status == Ok && Missing(p, 0, r.st.seen) < |p.opts|
    then Scanned(Failed(Required(Missing(p, 0, r.st.seen))), r.st)
    else r
  }

  /** ucb_arg_parser_parse */
  function Parse(p: Parser, argv: seq<string>, st: State): Scanned {
    match InitFrom(p, 0, st)
    case Halted(status, st') => Scanned(status, st')
    case Fine(st') => Checked(p, Scan(p, if argv == [] then [] else argv[1..], st'))
  }

  /** Rewriting the arguments changes nothing a caller of the parser can see. */
  lemma DesugaredParse(p: Parser, prog: string, args: seq<string>, st: State)
    ensures Parse(p, [prog] + Desugar(p, args), st) == Parse(p, [prog] + args, st)
  {
    assert ([prog] + args)[1..] == args && ([prog] + Desugar(p, args))[1..] == Desugar(p, args);
    match InitFrom(p, 0, st)
    case Fine(st') => DesugarMeans(p, args, st');
    case Halted(_, _) =>
  }

  lemma {:induction false} InitKeeps(p: Parser, o: nat, st: State)
    requires o <= |p.opts|
    ensures InitFrom(p, o, st).st.positionals == st.positionals
    ensures InitFrom(p, o, st).Halted? ==> InitFrom(p, o, st).status != Ok
    decreases |p.opts| - o
  {
    if o < |p.opts| {
      match Init(p, o, st)
      case Fine(st') => InitKeeps(p, o + 1, st');
      case Halted(_, _) =>
    }
  }

  /** After a successful parse the positionals are the unconsumed tokens, and every
      required option was seen. */
  lemma ParsedPositionals(p: Parser, prog: string, args: seq<string>, st: State)
    requires Parse(p, [prog] + args, st).status == Ok
    ensures var st' := Parse(p, [prog] + args, st).st;
            && st'.positionals == st.positionals + (if p.collect then Unconsumed(p, args) else [])
            && forall o :: 0 <= o < |p.opts| && p.opts[o].required ==> o in st'.seen
  {
    assert ([prog] + args)[1..] == args;
    InitKeeps(p, 0, st);
    match InitFrom(p, 0, st)
    case Fine(st') => PositionalsAreUnconsumed(p, args, st');
    case Halted(_, _) =>
  }

  // ---------------------------------------------------------------------------
  // What ends up in the destinations
  // ---------------------------------------------------------------------------

  /** An option that the arguments name, with its value if it takes one. */
  datatype Use = Use(opt: nat, value: string)

  function BundleNames(p: Parser, body: string, rest: seq<string>): seq<Use> {
    if body == "" then []
    else
      var o := FindShort(p, body[0]);
      if o == |p.opts| then []
      else if TakesValue(p.opts[o]) then
        [Use(o, if |body| > 1 then body[1..] else if rest != [] then rest[0] else "")]
      else [Use(o, "")] + BundleNames(p, body[1..], rest)
  }

  /** The options that the arguments name, in order. */
  function Uses(p: Parser, args: seq<string>): seq<Use>
    decreases |args|
  {
    if args == [] || args[0] == "--" then []
    else
      var arg, rest := args[0], args[1..];
      if IsLong(arg) then
        var body := arg[2..];
        var n := EqualsAt(body);
        var o := FindLong(p, body[..n]);
        if o == |p.opts| then Uses(p, rest)
        else if !TakesValue(p.opts[o]) then [Use(o, "")] + Uses(p, rest)
        else if n < |body| then [Use(o, body[n + 1..])] + Uses(p, rest)
        else if rest != [] then [Use(o, rest[0])] + Uses(p, rest[1..])
        else []
      else if IsShort(arg) then
        BundleNames(p, arg[1..], rest)
      + (if TakesNext(p, arg[1..]) && rest != [] then Uses(p, rest[1..]) else Uses(p, rest))
      else Uses(p, rest)
  }

  /** The values given to option o, in order; for a flag, one empty text each time. */
  function ValuesOf(o: nat, uses: seq<Use>): seq<string> {
    if uses == [] then []
    else (if uses[0].opt == o then [uses[0].value] else []) + ValuesOf(o, uses[1..])
  }

  predicate TrueWord(s: string) {
    || s == "1"
    || (|s| == 4 && s[0] in "tT" && s[1] in "rR" && s[2] in "uU" && s[3] in "eE")
    || (|s| == 3 && s[0] in "yY" && s[1] in "eE" && s[2] in "sS")
    || (|s| == 2 && s[0] in "oO" && s[1] in "nN")
  }

  predicate FalseWord(s: string) {
    || s == "0"
    || (|s| == 5 && s[0] in "fF" && s[1] in "aA" && s[2] in "lL" && s[3] in "sS" && s[4] in "eE")
    || (|s| == 2 && s[0] in "nN" && s[1] in "oO")
    || (|s| == 3 && s[0] in "oO" && s[1] in "fF" && s[2] in "fF")
  }

  /** The words for true and false, in any case. */
  lemma BoolWords(s: string)
    ensures ParseBool(s) == if TrueWord(s) then Some(true) else if FalseWord(s) then Some(false) else None
  {
  }

  /** s, read as a value of the kind, is v. */
  predicate Reads(p: Parser, kind: Kind, s: string, v: Value) {
    match kind
    case StrKind => v == Text(s)
    case BoolKind => (v == Flag(true) && TrueWord(s)) || (v == Flag(false) && FalseWord(s))
    case _ => v.Number? && p.numeric(kind, s) == Some(v.n)
  }

  lemma ConvertReads(p: Parser, kind: Kind, s: string)
    ensures Convert(p, kind, s).Some? ==> Reads(p, kind, s, Convert(p, kind, s).value)
    ensures Convert(p, kind, s).None? ==> forall v :: !Reads(p, kind, s, v)
  {
    BoolWords(s);
  }

  /** v is what the option starts with. */
  predicate StartsWith(p: Parser, opt: Opt, v: Value) {
    match opt.action
    case Store =>
      if opt.def.Some? then Reads(p, opt.kind, opt.def.value, v)
      else v == if opt.kind == StrKind then Text("") else if opt.kind == BoolKind then Flag(false) else Number(0)
    case StoreTrue => if opt.def.Some? then Reads(p, BoolKind, opt.def.value, v) else v == Flag(false)
    case StoreFalse => if opt.def.Some? then Reads(p, BoolKind, opt.def.value, v) else v == Flag(true)
    case Count => if opt.def.Some? then Reads(p, IntKind, opt.def.value, v) else v == Number(0)
    case Append => v == List([])
    case _ => true
  }

  /** v is what the values make of v0: the last one, the occurrences counted or the
      values collected. */
  predicate EndsWith(p: Parser, opt: Opt, v0: Value, values: seq<string>, v: Value) {
    match opt.action
    case Store => if values == [] then v == v0 else Reads(p, opt.kind, values[|values| - 1], v)
    case StoreTrue => v == if values == [] then v0 else Flag(true)
    case StoreFalse => v == if values == [] then v0 else Flag(false)
    case Count => v0.Number? ==> v == Number(v0.n + |values|)
    case Append => v0.List? ==> v == List(v0.items + values)
    case _ => true
  }

  /** No other option writes where o writes. */
  predicate Owns(p: Parser, o: nat) {
    && o < |p.opts| && !EndsScan(p.opts[o])
    && forall j :: 0 <= j < |p.opts| && j != o ==> EndsScan(p.opts[j]) || p.opts[j].dest != p.opts[o].dest
  }

  predicate Known(p: Parser, uses: seq<Use>) {
    forall i :: 0 <= i < |uses| ==> uses[i].opt < |p.opts|
  }

  /** Apply the options one after the other. */
  function WriteAll(p: Parser, uses: seq<Use>, st: State): Applied
    requires Known(p, uses)
    decreases |uses|
  {
    if uses == [] then Fine(st)
    else
      match Apply(p, uses[0].opt, uses[0].value, st)
      case Fine(st') => WriteAll(p, uses[1..], st')
      case Halted(status, st') => Halted(status, st')
  }

  lemma {:induction false} BundleNamesKnown(p: Parser, body: string, rest: seq<string>)
    ensures Known(p, BundleNames(p, body, rest))
  {
    if body != "" {
      BundleNamesKnown(p, body[1..], rest);
    }
  }

  lemma {:induction false} UsesKnown(p: Parser, args: seq<string>)
    ensures Known(p, Uses(p, args))
    decreases |args|
  {
    if args != [] {
      var arg, rest := args[0], args[1..];
      if IsShort(arg) {
        BundleNamesKnown(p, arg[1..], rest);
      }
      UsesKnown(p, rest);
      if rest != [] {
        UsesKnown(p, rest[1..]);
      }
    }
  }

  lemma {:induction false} WriteAllConcat(p: Parser, a: seq<Use>, b: seq<Use>, st: State)
    requires Known(p, a) && Known(p, b)
    ensures Known(p, a + b)
    ensures WriteAll(p, a, st).Fine? ==> WriteAll(p, a + b, st) == WriteAll(p, b, WriteAll(p, a, st).st)
    decreases |a|
  {
    if a == [] {
      assert a + b == b;
    } else {
      assert (a + b)[0] == a[0] && (a + b)[1..] == a[1..] + b;
      match Apply(p, a[0].opt, a[0].value, st)
      case Fine(st') => WriteAllConcat(p, a[1..], b, st');
      case Halted(_, _) =>
    }
  }

  function Moved(a: Applied, positionals: seq<string>): Applied {
    a.(st := a.st.(positionals := positionals))
  }

  lemma {:induction false} WriteAllKeepsPositionals(p: Parser, uses: seq<Use>, st: State, positionals: seq<string>)
    requires Known(p, uses)
    ensures WriteAll(p, uses, st.(positionals := positionals)) == Moved(WriteAll(p, uses, st), positionals)
    decreases |uses|
  {
    if uses != [] {
      assert Apply(p, uses[0].opt, uses[0].value, st.(positionals := positionals))
          == Moved(Apply(p, uses[0].opt, uses[0].value, st), positionals);
      match Apply(p, uses[0].opt, uses[0].value, st)
      case Fine(st') => WriteAllKeepsPositionals(p, uses[1..], st', positionals);
      case Halted(_, _) =>
    }
  }

  lemma {:induction false} BundleWrites(p: Parser, body: string, rest: seq<string>, st: State)
    requires ShortTurn(p, body, rest, st).Next?
    ensures Known(p, BundleNames(p, body, rest))
    ensures WriteAll(p, BundleNames(p, body, rest), st) == Fine(ShortTurn(p, body, rest, st).st)
    decreases |body|
  {
    BundleNamesKnown(p, body, rest);
    if body != "" {
      var o := FindShort(p, body[0]);
      var names := BundleNames(p, body, rest);
      if TakesValue(p.opts[o]) {
        assert names[1..] == [];
      } else {
        assert names[1..] == BundleNames(p, body[1..], rest);
        BundleWrites(p, body[1..], rest, Apply(p, o, "", st).st);
      }
    }
  }

  /** One token names the options that come next, and applies them. */
  lemma TurnWrites(p: Parser, args: seq<string>, st: State) returns (named: seq<Use>)
    requires args != [] && OneTurn(p, args, st).Next?
    ensures var t := OneTurn(p, args, st);
            && Known(p, named) && Uses(p, args) == named + Uses(p, t.rest)
            && Moved(WriteAll(p, named, st), t.st.positionals) == Fine(t.st)
  {
    var arg, rest := args[0], args[1..];
    named := [];
    if arg == "--" {
      assert Uses(p, []) == [];
    } else if IsLong(arg) {
      named := LongWrites(p, arg, rest, st);
    } else if IsShort(arg) {
      named := BundleNames(p, arg[1..], rest);
      BundleWrites(p, arg[1..], rest, st);
      BundleUses(p, arg[1..], rest, rest, st);
    }
  }

  lemma LongWrites(p: Parser, arg: string, rest: seq<string>, st: State) returns (named: seq<Use>)
    requires IsLong(arg) && LongTurn(p, arg[2..], rest, st).Next?
    ensures var t := LongTurn(p, arg[2..], rest, st);
            && Known(p, named) && Uses(p, [arg] + rest) == named + Uses(p, t.rest)
            && Moved(WriteAll(p, named, st), t.st.positionals) == Fine(t.st)
  {
    var body := arg[2..];
    var n := EqualsAt(body);
    var o := FindLong(p, body[..n]);
    var value := if !TakesValue(p.opts[o]) then "" else if n < |body| then body[n + 1..] else rest[0];
    named := [Use(o, value)];
    assert ([arg] + rest)[1..] == rest && named[1..] == [];
  }

  /** A successful scan applies the named options in order and adds positionals. */
  lemma {:induction false} ScanWrites(p: Parser, args: seq<string>, st: State)
    requires Scan(p, args, st).status == Ok
    ensures Known(p, Uses(p, args))
    ensures var r := Scan(p, args, st).st; Moved(WriteAll(p, Uses(p, args), st), r.positionals) == Fine(r)
    decreases |args|
  {
    UsesKnown(p, args);
    if args != [] {
      var t := OneTurn(p, args, st);
      if IsShort(args[0]) {
        ShortTurnKeeps(p, args[0][1..], args[1..], st);
      }
      var named := TurnWrites(p, args, st);
      ScanWrites(p, t.rest, t.st);
      WriteAllConcat(p, named, Uses(p, t.rest), st);
      WriteAllKeepsPositionals(p, Uses(p, t.rest), WriteAll(p, named, st).st, t.st.positionals);
    }
  }

  // What the options write that own their destination.

  lemma ValuesOfFirst(o: nat, u: Use, more: seq<Use>)
    ensures ValuesOf(o, [u] + more) == (if u.opt == o then [u.value] else []) + ValuesOf(o, more)
  {
    assert ([u] + more)[1..] == more;
  }

  /** One option, applied without failure, to what its owner has. */
  lemma OneWrite(p: Parser, o: nat, u: Use, st: State, v0: Value, before: seq<string>)
    requires Owns(p, o) && u.opt < |p.opts| && Apply(p, u.opt, u.value, st).Fine?
    requires var d := p.opts[o].dest; d in st.dests && EndsWith(p, p.opts[o], v0, before, st.dests[d])
    requires Suits(p.opts[o], v0)
    ensures var r := Apply(p, u.opt, u.value, st).st;
            var d, values := p.opts[o].dest, before + (if u.opt == o then [u.value] else []);
            && d in r.dests && EndsWith(p, p.opts[o], v0, values, r.dests[d])
            && (o in r.seen <==> o in st.seen || u.opt == o)
            && (u.opt == o && TakesValue(p.opts[o]) && p.opts[o].choices != [] ==> u.value in p.opts[o].choices)
  {
    assert before + [] == before;
    if u.opt == o {
      ConvertReads(p, p.opts[o].kind, u.value);
    }
  }

  /** The owner of a counter starts from a number, that of a list from a list. */
  predicate Suits(opt: Opt, v0: Value) {
    (opt.action == Count ==> v0.Number?) && (opt.action == Append ==> v0.List?)
  }

  lemma {:induction false} OwnerWrites(p: Parser, o: nat, uses: seq<Use>, st: State, v0: Value, before: seq<string>)
    requires Owns(p, o) && Known(p, uses) && WriteAll(p, uses, st).Fine? && Suits(p.opts[o], v0)
    requires var d := p.opts[o].dest; d in st.dests && EndsWith(p, p.opts[o], v0, before, st.dests[d])
    ensures var r, d, values := WriteAll(p, uses, st).st, p.opts[o].dest, ValuesOf(o, uses);
            && d in r.dests && EndsWith(p, p.opts[o], v0, before + values, r.dests[d])
            && (o in r.seen <==> o in st.seen || values != [])
            && (TakesValue(p.opts[o]) && p.opts[o].choices != [] ==> forall v :: v in values ==> v in p.opts[o].choices)
    decreases |uses|
  {
    if uses == [] {
      assert before + [] == before;
    } else {
      var u, more := uses[0], uses[1..];
      var one := if u.opt == o then [u.value] else [];
      OneWrite(p, o, u, st, v0, before);
      OwnerWrites(p, o, more, Apply(p, u.opt, u.value, st).st, v0, before + one);
      assert uses == [u] + more;
      ValuesOfFirst(o, u, more);
      assert (before + one) + ValuesOf(o, more) == before + (one + ValuesOf(o, more));
    }
  }

  /** What init_default writes for the owner stays until the scan. */
  lemma {:induction false} DefaultsStay(p: Parser, i: nat, o: nat, st: State)
    requires i <= |p.opts| && Owns(p, o) && InitFrom(p, i, st).Fine?
    requires i > o ==> p.opts[o].dest in st.dests && StartsWith(p, p.opts[o], st.dests[p.opts[o].dest]) && o !in st.seen
    ensures var r := InitFrom(p, i, st).st;
            p.opts[o].dest in r.dests && StartsWith(p, p.opts[o], r.dests[p.opts[o].dest]) && o !in r.seen
    decreases |p.opts| - i
  {
    if i < |p.opts| {
      OneDefault(p, i, o, st);
      DefaultsStay(p, i + 1, o, Init(p, i, st).st);
    }
  }

  lemma OneDefault(p: Parser, i: nat, o: nat, st: State)
    requires i < |p.opts| && Owns(p, o) && Init(p, i, st).Fine?
    requires i > o ==> p.opts[o].dest in st.dests && StartsWith(p, p.opts[o], st.dests[p.opts[o].dest]) && o !in st.seen
    ensures var r := Init(p, i, st).st;
            i >= o ==> p.opts[o].dest in r.dests && StartsWith(p, p.opts[o], r.dests[p.opts[o].dest]) && o !in r.seen
  {
    var def := p.opts[i].def;
    if i == o && def.Some? {
      ConvertReads(p, p.opts[o].kind, def.value);
      BoolWords(def.value);
    }
  }

  /** What a successful parse leaves in a destination that one option owns, said of the
      options that the arguments name: a counter has its default and the number of
      occurrences, a list the values in order, a stored value is the last one or the
      default, a flag is on or off once it is named. An option is seen exactly if it is
      named, and values come from its choices. */
  lemma ParsedDestination(p: Parser, prog: string, args: seq<string>, st: State, o: nat) returns (v0: Value)
    requires Owns(p, o) && Parse(p, [prog] + args, st).status == Ok
    ensures var r, values := Parse(p, [prog] + args, st).st, ValuesOf(o, Uses(p, args));
            && StartsWith(p, p.opts[o], v0) && Suits(p.opts[o], v0)
            && p.opts[o].dest in r.dests && EndsWith(p, p.opts[o], v0, values, r.dests[p.opts[o].dest])
            && (o in r.seen <==> values != [])
            && (TakesValue(p.opts[o]) && p.opts[o].choices != [] ==> forall v :: v in values ==> v in p.opts[o].choices)
  {
    assert ([prog] + args)[1..] == args;
    var start := InitFrom(p, 0, st).st;
    InitKeeps(p, 0, st);
    var d := p.opts[o].dest;
    DefaultsStay(p, 0, o, st);
    v0 := start.dests[d];
    ScanWrites(p, args, start);
    assert v0.List? ==> v0.items + [] == v0.items;
    OwnerWrites(p, o, Uses(p, args), start, v0, []);
    assert [] + ValuesOf(o, Uses(p, args)) == ValuesOf(o, Uses(p, args));
  }

  // ---------------------------------------------------------------------------
  // What an error says
  // ---------------------------------------------------------------------------

  /** What an error blames is so. */
  ghost predicate HasCause(p: Parser, e: Error) {
    match e
    case Unrecognized(name) => forall j :: 0 <= j < |p.opts| && p.opts[j].longName == name ==> name == ""
    case InvalidOption(c) => forall j :: 0 <= j < |p.opts| ==> p.opts[j].shortName != Some(c)
    case RequiresArgument(o) => o < |p.opts| && p.opts[o].action in {Store, Append}
    case TakesNoArgument(o) => o < |p.opts| && p.opts[o].action !in {Store, Append}
    case InvalidValue(o, text) => o < |p.opts| && forall v :: !Reads(p, p.opts[o].kind, text, v)
    case InvalidChoice(o, text) => o < |p.opts| && text !in p.opts[o].choices
    case InvalidDefault(o) => o < |p.opts| && p.opts[o].def.Some?
    case Required(o) => o < |p.opts| && p.opts[o].required
  }

  /** Help and version are shown for an option that asks for them. */
  ghost predicate Caused(p: Parser, status: Status) {
    match status
    case Ok => true
    case HelpShown => exists o :: 0 <= o < |p.opts| && p.opts[o].action == Help
    case VersionShown => exists o :: 0 <= o < |p.opts| && p.opts[o].action == Version
    case Failed(e) => HasCause(p, e)
  }

  lemma ApplyBlames(p: Parser, o: nat, value: string, st: State)
    requires o < |p.opts|
    ensures var a := Apply(p, o, value, st); a.Halted? ==> Caused(p, a.status)
  {
    ConvertReads(p, p.opts[o].kind, value);
  }

  lemma {:induction false} BundleBlames(p: Parser, body: string, rest: seq<string>, st: State)
    ensures var t := ShortTurn(p, body, rest, st); t.Stop? ==> Caused(p, t.status)
    decreases |body|
  {
    if body != "" {
      var o := FindShort(p, body[0]);
      if o < |p.opts| {
        ApplyBlames(p, o, if !TakesValue(p.opts[o]) then "" else if |body| > 1 then body[1..] else if rest != [] then rest[0] else "", st);
        if !TakesValue(p.opts[o]) && Apply(p, o, "", st).Fine? {
          BundleBlames(p, body[1..], rest, Apply(p, o, "", st).st);
        }
      }
    }
  }

  lemma LongBlames(p: Parser, body: string, rest: seq<string>, st: State)
    ensures var t := LongTurn(p, body, rest, st); t.Stop? ==> Caused(p, t.status)
  {
    var n := EqualsAt(body);
    var o := FindLong(p, body[..n]);
    if o < |p.opts| {
      ApplyBlames(p, o, if !TakesValue(p.opts[o]) then "" else if n < |body| then body[n + 1..] else if rest != [] then rest[0] else "", st);
    }
  }

  /** A scan that stops early has a true cause. */
  lemma {:induction false} ScanBlames(p: Parser, args: seq<string>, st: State)
    ensures Caused(p, Scan(p, args, st).status)
    decreases |args|
  {
    if args != [] {
      if IsLong(args[0]) {
        LongBlames(p, args[0][2..], args[1..], st);
      } else if IsShort(args[0]) {
        BundleBlames(p, args[0][1..], args[1..], st);
      }
      match OneTurn(p, args, st)
      case Next(st', rest) => ScanBlames(p, rest, st');
      case Stop(_, _) =>
    }
  }

  /** What is not an option: a token without a dash in front, a single dash, and a dash
      with a digit or a point behind it. */
  lemma PositionalToken(p: Parser, arg: string, rest: seq<string>, st: State)
    requires |arg| <= 1 || arg[0] != '-' || '0' <= arg[1] <= '9' || arg[1] == '.'
    ensures Scan(p, [arg] + rest, st) ==
            Scan(p, rest, if p.collect then st.(positionals := st.positionals + [arg]) else st)
  {
    assert ([arg] + rest)[0] == arg && ([arg] + rest)[1..] == rest;
  }

  // ---------------------------------------------------------------------------
  // The parser as the program runs it
  // ---------------------------------------------------------------------------

  /** find_short */
  method SeekShort(p: Parser, c: char) returns (o: nat)
    ensures o == FindShort(p, c)
  {
    o := 0;
    while o < |p.opts|
      invariant o <= |p.opts| && FindShort(p, c) == ShortFrom(p.opts, c, o)
    {
      if p.opts[o].shortName == Some(c) {
        return;
      }
      o := o + 1;
    }
  }

  /** find_long */
  method SeekLong(p: Parser, name: string) returns (o: nat)
    ensures o == FindLong(p, name)
  {
    if |name| == 0 {
      return |p.opts|;
    }
    o := 0;
    while o < |p.opts|
      invariant o <= |p.opts| && FindLong(p, name) == LongFrom(p.opts, name, o)
    {
      if p.opts[o].longName == name {
        return;
      }
      o := o + 1;
    }
  }

  /** strchr(body, '=') */
  method SeekEquals(body: string) returns (n: nat)
    ensures n == EqualsAt(body)
  {
    n := 0;
    while n < |body| && body[n] != '='
      invariant n <= |body| && EqualsAt(body) == n + EqualsAt(body[n..])
    {
      assert body[n..][1..] == body[n + 1..];
      n := n + 1;
    }
  }

  class ArgParser {
    const p: Parser
    var st: State  // the destinations, the seen flags and the positionals

    constructor (p: Parser, st: State)
      ensures this.p == p && this.st == st
    {
      this.p, this.st := p, st;
    }

    /** apply_option; the status is Ok if parsing goes on. */
    method ApplyOption(o: nat, value: string) returns (status: Status)
      requires o < |p.opts|
      modifies this
      ensures st == Apply(p, o, value, old(st)).st
      ensures Apply(p, o, value, old(st)) == (if status == Ok then Fine(st) else Halted(status, st))
    {
      var opt := p.opts[o];
      if TakesValue(opt) && opt.choices != [] && value !in opt.choices {
        return Failed(InvalidChoice(o, value));
      }
      match opt.action {
        case Store =>
          var v := Convert(p, opt.kind, value);
          if v == None {
            return Failed(InvalidValue(o, value));
          }
          st := Written(st, opt.dest, v.value);
        case Append =>
          st := Written(st, opt.dest, Appended(st, opt.dest, value));
        case StoreTrue =>
          st := Written(st, opt.dest, Flag(true));
        case StoreFalse =>
          st := Written(st, opt.dest, Flag(false));
        case Count =>
          st := Written(st, opt.dest, Increment(st, opt.dest));
        case Help =>
          st := Marked(st, o);
          return HelpShown;
        case Version =>
          st := Marked(st, o);
          return VersionShown;
      }
      st := Marked(st, o);
      status := Ok;
    }

    /** The branch for long options: at is the place of the argument, next the place
        behind everything it used. */
    method ParseLong(argv: seq<string>, at: nat) returns (status: Status, next: nat)
      requires at < |argv| && IsLong(argv[at])
      modifies this
      ensures at < next <= |argv|
      ensures LongTurn(p, argv[at][2..], argv[at + 1..], old(st)) ==
              (if status == Ok then Next(st, argv[next..]) else Stop(status, st))
    {
      next := at + 1;
      var body := argv[at][2..];
      var n := SeekEquals(body);
      var o := SeekLong(p, body[..n]);
      if o == |p.opts| {
        return Failed(Unrecognized(body[..n])), next;
      }
      if TakesValue(p.opts[o]) {
        var value := "";
        if n < |body| {
          value := body[n + 1..];
        } else if at + 1 < |argv| {
          value := argv[at + 1];
          next := at + 2;
        } else {
          return Failed(RequiresArgument(o)), next;
        }
        status := ApplyOption(o, value);
      } else {
        if n < |body| {
          return Failed(TakesNoArgument(o)), next;
        }
        status := ApplyOption(o, "");
      }
    }

    /** The loop over a bundle of short options. */
    method ParseShort(argv: seq<string>, at: nat) returns (status: Status, next: nat)
      requires at < |argv| && IsShort(argv[at])
      modifies this
      ensures at < next <= |argv|
      ensures ShortTurn(p, argv[at][1..], argv[at + 1..], old(st)) ==
              (if status == Ok then Next(st, argv[next..]) else Stop(status, st))
    {
      next := at + 1;
      var body := argv[at][1..];
      ghost var rest := argv[at + 1..];
      ghost var all := ShortTurn(p, body, rest, st);
      var k := 0;
      while k < |body|
        invariant k <= |body| && next == at + 1
        invariant ShortTurn(p, body[k..], rest, st) == all
      {
        assert body[k..][0] == body[k] && body[k..][1..] == body[k + 1..];
        var o := SeekShort(p, body[k]);
        if o == |p.opts| {
          return Failed(InvalidOption(body[k])), next;
        }
        if TakesValue(p.opts[o]) {
          var value := "";
          if k + 1 < |body| {
            value := body[k + 1..];
          } else if at + 1 < |argv| {
            value := argv[at + 1];
            next := at + 2;
          } else {
            return Failed(RequiresArgument(o)), next;
          }
          status := ApplyOption(o, value);
          return;
        }
        status := ApplyOption(o, "");
        if status != Ok {
          return;
        }
        k := k + 1;
      }
      status := Ok;
    }

    /** The first loop of ucb_arg_parser_parse. */
    method InitDefaults() returns (status: Status)
      modifies this
      ensures InitFrom(p, 0, old(st)) == (if status == Ok then Fine(st) else Halted(status, st))
    {
      var o := 0;
      while o < |p.opts|
        invariant o <= |p.opts| && InitFrom(p, o, st) == InitFrom(p, 0, old(st))
      {
        match Init(p, o, st) {
          case Fine(st') =>
            st := st';
          case Halted(failure, st') =>
            InitFailure(p, o, st);
            st := st';
            return failure;
        }
        o := o + 1;
      }
      status := Ok;
    }

    /** The main loop of ucb_arg_parser_parse. */
    method ScanArguments(argv: seq<string>) returns (status: Status)
      modifies this
      ensures Scan(p, if argv == [] then [] else argv[1..], old(st)) == Scanned(status, st)
    {
      var noMore := false;
      var i := 1;
      ghost var all := Scan(p, if argv == [] then [] else argv[1..], st);
      while i < |argv|
        invariant i >= 1 && (argv != [] ==> i <= |argv|)
        invariant !noMore ==> Scan(p, if argv == [] then [] else argv[i..], st) == all
        invariant noMore ==> i <= |argv| && Scanned(Ok, Positional(p, argv[i..], st)) == all
      {
        var arg := argv[i];
        ghost var left := argv[i..];
        assert left[0] == arg && left[1..] == argv[i + 1..];
        if !noMore && arg == "--" {
          noMore := true;
          i := i + 1;
        } else if !noMore && IsLong(arg) {
          status, i := ParseLong(argv, i);
          if status != Ok {
            return;
          }
        } else if !noMore && IsShort(arg) {
          status, i := ParseShort(argv, i);
          if status != Ok {
            return;
          }
        } else {
          assert [arg] + argv[i + 1..] == left;
          Collect(p, [arg], argv[i + 1..], st);
          st := Positional(p, [arg], st);
          i := i + 1;
        }
      }
      assert noMore ==> argv[i..] == [];
      status := Ok;
    }

    /** ucb_arg_parser_parse */
    method Run(argv: seq<string>) returns (status: Status)
      modifies this
      ensures Parse(p, argv, old(st)) == Scanned(status, st)
    {
      status := InitDefaults();
      if status != Ok {
        return;
      }
      status := ScanArguments(argv);
      if status != Ok {
        return;
      }
      var o := 0;
      while o < |p.opts|
        invariant o <= |p.opts| && Missing(p, o, st.seen) == Missing(p, 0, st.seen)
      {
        if p.opts[o].required && o !in st.seen {
          return Failed(Required(o));
        }
        o := o + 1;
      }
    }
  }

  lemma InitFailure(p: Parser, o: nat, st: State)
    requires o < |p.opts|
    ensures Init(p, o, st).Halted? ==> Init(p, o, st).status != Ok
  {}

  lemma Collect(p: Parser, a: seq<string>, b: seq<string>, st: State)
    ensures Positional(p, a + b, st) == Positional(p, b, Positional(p, a, st))
    ensures Positional(p, [], st) == st
  {
    assert st.positionals + (a + b) == (st.positionals + a) + b;
  }
}
