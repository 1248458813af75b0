/** The argument loop: one pass over the tokens that pushes a combined short cluster back onto its own input. */
module Args {
  import opened Bytes

  /** One OS-string argument: its encoded text, and whether that text is valid UTF-8. */
  datatype Token = Token(text: string, utf8: bool)

  datatype BindingKind = Arg | ArgJson | SlurpFile | RawFile

  datatype Binding = Binding(kind: BindingKind, name: string, value: Token)

  datatype Mode = StringArgs | JsonArgs

  /** The request state the loop builds: switches, single-value slots, and the ordered lists. */
  datatype State = State(
    switches: set<string>,
    slots: map<string, Token>,
    bindings: seq<Binding>,
    libraryPaths: seq<Token>,
    mode: Option<Mode>,
    program: Option<string>,
    positional: seq<(Mode, string)>,
    inputFiles: seq<Token>,
    endOfOptions: bool,
    sawRunOption: bool)

  const INITIAL := State({}, map[], [], [], None, None, [], [], false, false)

  datatype Failure =
    | RequiresValue(flag: string)
    | ValueNotUtf8(flag: string)
    | BadValue(flag: string)
    | OnlyOnce(flag: string)
    | Exclusive
    | UnknownOption(text: string)
    | ProgramNotUtf8
    | ArgumentNotUtf8
    | OptionsBeforeKeyword

  datatype Outcome =
    | Failed(failure: Failure)
    | Command(name: string, argument: Option<Token>)
    | Serve(arguments: seq<Token>)
    | Parsed(state: State)

  /** A flag's value parser: reject the text, keep it, or clear the slot (`--max-iterations 0`). */
  datatype Verdict = Reject | Keep | Clear

  type Parser = (string, string) -> Verdict

  // ----- The flag table -----

  datatype Action =
    | Library
    | Command0(name: string)
    | CommandValue(name: string)
    | Help
    | Ignore
    | Switch(names: set<string>)
    | OnceSwitch(name: string)
    | SetSlot(slot: string, value: string)
    | LastValue(slot: string)
    | OnceValue(slot: string, others: set<string>)
    | OncePath(slot: string, others: set<string>)
    | Bind(kind: BindingKind)
    | SetMode(mode: Mode)
    | PairOnce(slot: string)
    | Parallel(on: bool)

  function ShortAction(letter: char): Option<Action>
  {
    match letter
    case 'L' => Some(Library)
    case 'h' => Some(Command0("short-help"))
    case 'V' => Some(Command0("version"))
    case 'f' => Some(OncePath("program-file", {}))
    case 'n' => Some(Switch({"null-input"}))
    case 'R' => Some(Switch({"raw-input"}))
    case 's' => Some(Switch({"slurp"}))
    case 'r' => Some(Switch({"raw-output"}))
    case 'e' => Some(Switch({"exit-status"}))
    case 'b' => Some(Ignore)
    case 'S' => Some(Switch({"sort-keys"}))
    case 'j' => Some(Switch({"join-output"}))
    case 'a' => Some(Switch({"ascii-output"}))
    case 'M' => Some(Switch({"monochrome-output"}))
    case 'C' => Some(Switch({"color-output"}))
    case 'c' => Some(SetSlot("indent", "compact"))
    case 'o' => Some(OnceValue("output-format", {}))
    case _ => None
  }

  /** Switches that may repeat and only ever turn something on. */
  const PLAIN_SWITCHES: set<string> := {
    "no-config", "show-config", "null-input", "raw-input", "slurp", "raw-output", "exit-status", "sort-keys",
    "join-output", "raw-output0", "ascii-output", "unbuffered", "stream", "follow", "seq", "monochrome-output",
    "color-output", "diagnostics", "explain", "json-facts", "types-as-strings", "no-json-facts", "edit",
    "edit-expand-alias", "check", "in-place", "no-atomic"}

  /** Flags with one UTF-8 value that may be given once. */
  const ONCE_VALUES: set<string> := {
    "seed", "max-memory-bytes", "max-rss", "max-spill-bytes", "max-spill-disk-bytes", "max-iterations", "input-format",
    "input-dialect", "old-format", "new-format", "csv-delimiter", "output-format", "output-dialect", "render-header",
    "render-width", "render-shape", "render-max-width", "ndjson-terminator", "workers", "mismatch-policy", "strictness"}

  /** Flags with one path value that may be given once. */
  const ONCE_PATHS: set<string> := {"config", "schema", "plan-out", "plan-file", "output"}

  function LongAction(name: string): Option<Action>
  {
    if name in PLAIN_SWITCHES then Some(Switch({name}))
    else if name in ONCE_VALUES then Some(OnceValue(name, {}))
    else if name in ONCE_PATHS then Some(OncePath(name, {}))
    else if name == "library-path" then Some(Library)
    else if name == "help" then Some(Help)
    else if name == "version" then Some(Command0("version"))
    else if name == "list-builtins" then Some(Command0("list-builtins"))
    else if name == "list-formats" then Some(Command0("list-formats"))
    else if name == "build-configuration" then Some(Command0("build-configuration"))
    else if name == "help-format" then Some(CommandValue("help-format"))
    else if name == "explain-code" then Some(CommandValue("explain-code"))
    else if name == "from-file" then Some(OncePath("program-file", {}))
    else if name == "arg" then Some(Bind(Arg))
    else if name == "argjson" then Some(Bind(ArgJson))
    else if name == "slurpfile" then Some(Bind(SlurpFile))
    else if name == "rawfile" then Some(Bind(RawFile))
    else if name == "args" then Some(SetMode(StringArgs))
    else if name == "jsonargs" then Some(SetMode(JsonArgs))
    else if name == "binary" then Some(Ignore)
    else if name == "stream-errors" then Some(Switch({"stream", "stream-errors"}))
    else if name == "compact-output" then Some(SetSlot("indent", "compact"))
    else if name == "tab" then Some(SetSlot("indent", "tab"))
    else if name == "indent" then Some(LastValue("indent"))
    else if name == "header" then Some(OnceSwitch("header"))
    else if name == "with-source" then Some(OnceSwitch("with-source"))
    else if name == "parallel" then Some(Parallel(true))
    else if name == "no-parallel" then Some(Parallel(false))
    else if name == "diff" then Some(PairOnce("diff"))
    else if name == "split-exp" then Some(OnceValue("split-exp", {"split-exp-file"}))
    else if name == "split-exp-file" then Some(OncePath("split-exp-file", {"split-exp"}))
    else None
  }

  predicate IsLong(t: Token) { |t.text| >= 2 && t.text[0] == '-' && t.text[1] == '-' }

  function ActionOf(t: Token): Option<Action>
  {
    if !t.utf8 then None
    else if IsLong(t) then LongAction(t.text[2..])
    else if |t.text| == 2 && t.text[0] == '-' then ShortAction(t.text[1])
    else None
  }

  // ----- One iteration -----

  datatype Next = Stop(outcome: Outcome) | Go(state: State, rest: seq<Token>)

  datatype Taken = Fault(failure: Failure) | Got(value: Token, more: seq<Token>)

  /** The next token as a UTF-8 value. */
  function TakeValue(flag: string, rest: seq<Token>): Taken
  {
    if rest == [] then Fault(RequiresValue(flag))
    else if !rest[0].utf8 then Fault(ValueNotUtf8(flag))
    else Got(rest[0], rest[1..])
  }

  /** The next token as a path, in any encoding. */
  function TakePath(flag: string, rest: seq<Token>): Taken
  {
    if rest == [] then Fault(RequiresValue(flag)) else Got(rest[0], rest[1..])
  }

  function StoreValue(st: State, parse: Parser, slot: string, value: Token, rest: seq<Token>): Next
  {
    match parse(slot, value.text)
    case Reject => Stop(Failed(BadValue(slot)))
    case Keep => Go(st.(slots := st.slots[slot := value]), rest)
    case Clear => Go(st.(slots := st.slots - {slot}), rest)
  }

  function Perform(a: Action, st: State, parse: Parser, rest: seq<Token>): Next
  {
    match a
    case Library =>
      (match TakePath("-L", rest)
       case Fault(f) => Stop(Failed(f))
       case Got(v, more) => Go(st.(libraryPaths := st.libraryPaths + [v]), more))
    case Command0(name) => Stop(Command(name, None))
    case CommandValue(name) =>
      (match TakeValue(name, rest)
       case Fault(f) => Stop(Failed(f))
       case Got(v, _) =>
         if parse(name, v.text) == Reject then Stop(Failed(BadValue(name))) else Stop(Command(name, Some(v))))
    case Help =>
      if rest == [] then Stop(Command("help", None))
      else if !rest[0].utf8 || parse("help", rest[0].text) == Reject then Stop(Failed(BadValue("help")))
      else Stop(Command("help", Some(rest[0])))
    case Ignore => Go(st, rest)
    case Switch(names) => Go(st.(switches := st.switches + names), rest)
    case OnceSwitch(name) =>
      if name in st.switches then Stop(Failed(OnlyOnce(name))) else Go(st.(switches := st.switches + {name}), rest)
    case SetSlot(slot, value) => Go(st.(slots := st.slots[slot := Token(value, true)]), rest)
    case LastValue(slot) =>
      (match TakeValue(slot, rest)
       case Fault(f) => Stop(Failed(f))
       case Got(v, more) => StoreValue(st, parse, slot, v, more))
    case OnceValue(slot, others) =>
      if ({slot} + others) * st.slots.Keys != {} then Stop(Failed(OnlyOnce(slot)))
      else
        (match TakeValue(slot, rest)
         case Fault(f) => Stop(Failed(f))
         case Got(v, more) => StoreValue(st, parse, slot, v, more))
    case OncePath(slot, others) =>
      if ({slot} + others) * st.slots.Keys != {} then Stop(Failed(OnlyOnce(slot)))
      else
        (match TakePath(slot, rest)
         case Fault(f) => Stop(Failed(f))
         case Got(v, more) => Go(st.(slots := st.slots[slot := v]), more))
    case Bind(kind) => PerformBind(kind, st, rest)
    case SetMode(mode) => Go(st.(mode := Some(mode)), rest)
    case PairOnce(slot) => PerformPair(slot, st, rest)
    case Parallel(on) =>
      var chosen := Token(if on then "true" else "false", true);
      if "parallel" in st.slots && st.slots["parallel"] != chosen then Stop(Failed(Exclusive))
      else Go(st.(slots := st.slots["parallel" := chosen]), rest)
  }

  /** `--arg NAME VALUE` and its siblings: the value of a file binding is a path. */
  function PerformBind(kind: BindingKind, st: State, rest: seq<Token>): Next
  {
    match TakeValue("binding", rest)
    case Fault(f) => Stop(Failed(f))
    case Got(name, more) =>
      match (if kind == Arg || kind == ArgJson then TakeValue("binding", more) else TakePath("binding", more))
      case Fault(f) => Stop(Failed(f))
      case Got(v, tail) => Go(st.(bindings := st.bindings + [Binding(kind, name.text, v)]), tail)
  }

  /** `--diff OLD NEW`: both values are taken before the repetition is noticed. */
  function PerformPair(slot: string, st: State, rest: seq<Token>): Next
  {
    match TakePath(slot, rest)
    case Fault(f) => Stop(Failed(f))
    case Got(before, more) =>
      match TakePath(slot, more)
      case Fault(f) => Stop(Failed(f))
      case Got(after, tail) =>
        if slot in st.slots then Stop(Failed(OnlyOnce(slot)))
        else Go(st.(slots := st.slots[slot := before][slot + "-new" := after]), tail)
  }

  predicate HasProgram(st: State) { st.program.Some? || "program-file" in st.slots }

  /** A token in positional position: the program, a `$ARGS` value, or an input file. */
  function Positional(st: State, t: Token, rest: seq<Token>): Next
  {
    if !HasProgram(st) then
      if t.utf8 then Go(st.(program := Some(t.text)), rest) else Stop(Failed(ProgramNotUtf8))
    else if st.mode.Some? then
      if t.utf8 then Go(st.(positional := st.positional + [(st.mode.value, t.text)]), rest)
      else Stop(Failed(ArgumentNotUtf8))
    else Go(st.(inputFiles := st.inputFiles + [t]), rest)
  }

  const CLUSTER_LETTERS: set<char> := {'n', 'r', 'R', 's', 'c', 'f', 'h', 'e', 'S', 'j', 'a', 'M', 'C', 'L', 'b'}

  predicate IsAsciiLetter(c: char) { 'a' <= c <= 'z' || 'A' <= c <= 'Z' }

  /** A single dash and at least two more bytes. */
  predicate HasClusterShape(t: Token)
  {
    |t.text| > 2 && t.text[0] == '-' && t.text[1] != '-'
  }

  predicate IsCluster(t: Token)
  {
    t.utf8 && HasClusterShape(t) && forall k :: 1 <= k < |t.text| ==> t.text[k] in CLUSTER_LETTERS
  }

  /** One token per letter, in the order written. */
  function Separate(letters: string): seq<Token>
  {
    if letters == "" then [] else [Token(['-', letters[0]], true)] + Separate(letters[1..])
  }

  /** A token that no table entry names and that is no attached `-L`. */
  function Otherwise(st: State, t: Token, rest: seq<Token>): Next
  {
    if !t.utf8 then
      if IsLong(t) || (|t.text| >= 2 && t.text[0] == '-' && IsAsciiLetter(t.text[1]))
         then Stop(Failed(UnknownOption(t.text)))
      else Positional(st, t, rest)
    else if IsLong(t) then Stop(Failed(UnknownOption(t.text)))
    else if IsCluster(t) then Go(st, Separate(t.text[1..]) + rest)
    else if |t.text| >= 2 && t.text[0] == '-' && IsAsciiLetter(t.text[1]) then Stop(Failed(UnknownOption(t.text)))
    else if !HasProgram(st) && "follow" !in st.switches && t.text == "serve" then
      if st.sawRunOption then Stop(Failed(OptionsBeforeKeyword)) else Stop(Serve(rest))
    else Positional(st, t, rest)
  }

  predicate IsDashOption(t: Token) { |t.text| > 0 && t.text[0] == '-' && t.text != "-" }

  function Step(st0: State, parse: Parser, t: Token, rest: seq<Token>): Next
  {
    if st0.endOfOptions then Positional(st0, t, rest)
    else if t.text == "--" && t.utf8 then Go(st0.(endOfOptions := true), rest)
    else
      var st := if IsDashOption(t) then st0.(sawRunOption := true) else st0;
      if |t.text| > 2 && t.text[..2] == "-L" then
        Go(st.(libraryPaths := st.libraryPaths + [Token(t.text[2..], t.utf8)]), rest)
      else
        match ActionOf(t)
        case Some(a) => Perform(a, st, parse, rest)
        case None => Otherwise(st, t, rest)
  }

  // ----- Termination: a cluster weighs more than its letters -----

  function Weight(t: Token): nat { if HasClusterShape(t) then |t.text| else 1 }

  function TotalWeight(tokens: seq<Token>): nat
  {
    if tokens == [] then 0 else Weight(tokens[0]) + TotalWeight(tokens[1..])
  }

  lemma {:induction false} TotalWeightAppend(a: seq<Token>, b: seq<Token>)
    ensures TotalWeight(a + b) == TotalWeight(a) + TotalWeight(b)
  {
    if a == [] {
      assert a + b == b;
    } else {
      assert (a + b)[1..] == a[1..] + b;
      TotalWeightAppend(a[1..], b);
    }
  }

  lemma {:induction false} SeparateWeight(letters: string)
    ensures TotalWeight(Separate(letters)) == |letters| == |Separate(letters)|
  {
    if letters != "" {
      SeparateWeight(letters[1..]);
    }
  }

  lemma SuffixLighter(tokens: seq<Token>)
    ensures tokens != [] ==> TotalWeight(tokens[1..]) < TotalWeight(tokens)
    ensures |tokens| >= 2 ==> TotalWeight(tokens[1..][1..]) < TotalWeight(tokens)
  {
    if |tokens| >= 2 {
      assert TotalWeight(tokens[1..]) == Weight(tokens[1..][0]) + TotalWeight(tokens[1..][1..]);
    }
  }

  lemma PerformLighter(a: Action, st: State, parse: Parser, rest: seq<Token>)
    ensures Perform(a, st, parse, rest).Go? ==> TotalWeight(Perform(a, st, parse, rest).rest) <= TotalWeight(rest)
  {
    SuffixLighter(rest);
  }

  /** Every iteration that continues leaves a lighter input. */
  lemma StepLighter(st: State, parse: Parser, t: Token, rest: seq<Token>)
    ensures Step(st, parse, t, rest).Go? ==> TotalWeight(Step(st, parse, t, rest).rest) < TotalWeight([t] + rest)
  {
    hide Perform, LongAction, ShortAction, TotalWeight;
    assert [t] + rest != [] && ([t] + rest)[1..] == rest;
    TotalWeightCons(t, rest);
    if ActionOf(t).Some? {
      PerformLighter(ActionOf(t).value, if IsDashOption(t) then st.(sawRunOption := true) else st, parse, rest);
    } else if IsCluster(t) {
      SeparateWeight(t.text[1..]);
      TotalWeightAppend(Separate(t.text[1..]), rest);
    }
  }

  lemma TotalWeightCons(t: Token, rest: seq<Token>)
    ensures TotalWeight([t] + rest) == Weight(t) + TotalWeight(rest) && Weight(t) >= 1
  {
    assert ([t] + rest)[1..] == rest;
  }

  function Run(st: State, parse: Parser, tokens: seq<Token>): Outcome
    decreases TotalWeight(tokens)
  {
    if tokens == [] then Parsed(st)
    else
      StepLighter(st, parse, tokens[0], tokens[1..]);
      assert [tokens[0]] + tokens[1..] == tokens;
      match Step(st, parse, tokens[0], tokens[1..])
      case Stop(outcome) => outcome
      case Go(next, rest) => Run(next, parse, rest)
  }

  lemma RunUnfold(st: State, parse: Parser, t: Token, rest: seq<Token>)
    ensures Run(st, parse, [t] + rest) ==
            match Step(st, parse, t, rest) case Stop(outcome) => outcome case Go(next, more) => Run(next, parse, more)
  {
    assert ([t] + rest)[0] == t && ([t] + rest)[1..] == rest;
  }

  // ----- Parsing composes -----

  /** An iteration looks no further than the tokens it takes: more input behind them changes nothing. */
  lemma PerformExtends(a: Action, st: State, parse: Parser, rest: seq<Token>, more: seq<Token>)
    requires Perform(a, st, parse, rest).Go?
    ensures var next := Perform(a, st, parse, rest);
            Perform(a, st, parse, rest + more) == Go(next.state, next.rest + more)
  {
    if rest != [] {
      assert (rest + more)[0] == rest[0] && (rest + more)[1..] == rest[1..] + more;
      if |rest| >= 2 {
        assert (rest[1..] + more)[0] == rest[1..][0] && (rest[1..] + more)[1..] == rest[1..][1..] + more;
      }
    }
  }

  lemma StepExtends(st: State, parse: Parser, t: Token, rest: seq<Token>, more: seq<Token>)
    requires Step(st, parse, t, rest).Go?
    ensures var next := Step(st, parse, t, rest); Step(st, parse, t, rest + more) == Go(next.state, next.rest + more)
  {
    hide Perform, LongAction, ShortAction;
    var seen := if IsDashOption(t) then st.(sawRunOption := true) else st;
    if ActionOf(t).Some? && Perform(ActionOf(t).value, seen, parse, rest).Go? {
      PerformExtends(ActionOf(t).value, seen, parse, rest, more);
    } else if IsCluster(t) {
      assert Separate(t.text[1..]) + (rest + more) == Separate(t.text[1..]) + rest + more;
    }
  }

  lemma StopIsFinal(st: State, parse: Parser, t: Token, rest: seq<Token>)
    ensures Step(st, parse, t, rest).Stop? ==> !Step(st, parse, t, rest).outcome.Parsed?
  {
    hide LongAction, ShortAction;
  }

  /** If the tokens `before` parse on their own, parsing goes on from their state with whatever follows. */
  lemma {:induction false} RunAppend(st: State, parse: Parser, before: seq<Token>, more: seq<Token>)
    requires Run(st, parse, before).Parsed?
    ensures Run(st, parse, before + more) == Run(Run(st, parse, before).state, parse, more)
    decreases TotalWeight(before)
  {
    hide Step, Run;
    if before == [] {
      assert before + more == more;
      RunNothing(st, parse);
    } else {
      var t, rest := before[0], before[1..];
      var next := Step(st, parse, t, rest);
      StepLighter(st, parse, t, rest);
      assert before == [t] + rest && before + more == [t] + (rest + more);
      RunUnfold(st, parse, t, rest);
      RunUnfold(st, parse, t, rest + more);
      StopIsFinal(st, parse, t, rest);
      StepExtends(st, parse, t, rest, more);
      RunAppend(next.state, parse, next.rest, more);
    }
  }

  // ----- Combined short clusters -----

  /** A token written like a short cluster that is no attached `-L`. */
  predicate ClusterPosition(st: State, t: Token)
  {
    !st.endOfOptions && t.utf8 && HasClusterShape(t) && t.text[1] != 'L'
  }

  lemma ClusterStep(st: State, parse: Parser, t: Token, rest: seq<Token>)
    requires ClusterPosition(st, t)
    ensures Step(st, parse, t, rest) == Otherwise(st.(sawRunOption := true), t, rest)
  {
    hide Perform, Otherwise;
    assert t.text[..2][1] == t.text[1];
  }

  /** The run-option bit a dash option sets is set before anything reads it. */
  lemma DashOptionSets(st: State, parse: Parser, t: Token, rest: seq<Token>)
    requires !st.endOfOptions && IsDashOption(t) && t.text != "--"
    ensures Run(st.(sawRunOption := true), parse, [t] + rest) == Run(st, parse, [t] + rest)
  {
    hide Perform, Otherwise, ActionOf, Run;
    RunUnfold(st, parse, t, rest);
    RunUnfold(st.(sawRunOption := true), parse, t, rest);
  }

  /** A cluster in option position parses like its letters written separately, whatever follows it. */
  lemma ClusterIsSeparate(st: State, parse: Parser, t: Token, rest: seq<Token>)
    requires ClusterPosition(st, t) && IsCluster(t)
    ensures Run(st, parse, [t] + rest) == Run(st, parse, Separate(t.text[1..]) + rest)
  {
    hide Perform, ActionOf, Step, Run;
    var letters := t.text[1..];
    RunUnfold(st, parse, t, rest);
    ClusterStep(st, parse, t, rest);
    var head := Token(['-', letters[0]], true);
    assert letters[0] == t.text[1] && head.text[1] == letters[0];
    assert Separate(letters) + rest == [head] + (Separate(letters[1..]) + rest);
    DashOptionSets(st, parse, head, Separate(letters[1..]) + rest);
  }

  /** The same anywhere in an argument list, behind tokens that parse on their own and leave option processing on. */
  lemma ClusterAnywhere(parse: Parser, before: seq<Token>, t: Token, rest: seq<Token>)
    requires Run(INITIAL, parse, before).Parsed?
    requires ClusterPosition(Run(INITIAL, parse, before).state, t) && IsCluster(t)
    ensures Run(INITIAL, parse, before + [t] + rest) == Run(INITIAL, parse, before + Separate(t.text[1..]) + rest)
  {
    hide Run;
    RunAppend(INITIAL, parse, before, [t] + rest);
    RunAppend(INITIAL, parse, before, Separate(t.text[1..]) + rest);
    ClusterIsSeparate(Run(INITIAL, parse, before).state, parse, t, rest);
    assert before + [t] + rest == before + ([t] + rest);
    assert before + Separate(t.text[1..]) + rest == before + (Separate(t.text[1..]) + rest);
  }

  /** One letter outside the set rejects the whole token when it starts like an option; else it is positional text. */
  lemma UnknownClusterRejected(st: State, parse: Parser, t: Token, rest: seq<Token>)
    requires ClusterPosition(st, t) && !IsCluster(t)
    ensures IsAsciiLetter(t.text[1]) ==> Run(st, parse, [t] + rest) == Failed(UnknownOption(t.text))
    ensures !IsAsciiLetter(t.text[1]) ==> Step(st, parse, t, rest) == Positional(st.(sawRunOption := true), t, rest)
  {
    RunUnfold(st, parse, t, rest);
    ClusterStep(st, parse, t, rest);
    hide Step, Run;
    assert t.text != "serve" by { assert t.text[0] == '-'; }
  }

  /** A short flag on its own. */
  lemma ShortStep(st: State, parse: Parser, letter: char, rest: seq<Token>)
    requires !st.endOfOptions && letter != '-' && ShortAction(letter).Some?
    ensures Step(st, parse, Token(['-', letter], true), rest) ==
            Perform(ShortAction(letter).value, st.(sawRunOption := true), parse, rest)
  {
    hide Perform, Otherwise, ShortAction;
    var t := Token(['-', letter], true);
    assert t.text[1] == letter;
    assert t.text != "--" by { assert "--"[1] == '-'; }
    assert t.text != "-";
  }

  /** `-no`: the format flag does not combine, although `-n -o json` parses. */
  lemma FormatLetterDoesNotCombine(parse: Parser, format: Token)
    requires format.utf8 && parse("output-format", format.text) == Keep
    ensures Run(INITIAL, parse, [Token("-no", true), format]) == Failed(UnknownOption("-no"))
    ensures Run(INITIAL, parse, Separate("no") + [format]).Parsed?
  {
    hide Run, Step;
    var t := Token("-no", true);
    assert t.text[2] !in CLUSTER_LETTERS;
    UnknownClusterRejected(INITIAL, parse, t, [format]);
    assert [t, format] == [t] + [format];
    SeparateNo();
    var n, o := Token(['-', 'n'], true), Token(['-', 'o'], true);
    assert [n, o] + [format] == [n] + [o, format];
    RunUnfold(INITIAL, parse, n, [o, format]);
    ShortStep(INITIAL, parse, 'n', [o, format]);
    var st := Step(INITIAL, parse, n, [o, format]).state;
    assert [o, format] == [o] + [format];
    assert st == INITIAL.(sawRunOption := true, switches := INITIAL.switches + {"null-input"});
    assert ({"output-format"} + {}) * st.slots.Keys == {};
    assert [format][1..] == [];
    RunUnfold(st, parse, o, [format]);
    ShortStep(st, parse, 'o', [format]);
    RunNothing(st.(sawRunOption := true, slots := st.slots["output-format" := format]), parse);
  }

  lemma SeparateNo()
    ensures Separate("no") == [Token(['-', 'n'], true), Token(['-', 'o'], true)]
  {
    assert "no"[1..] == "o" && "o"[1..] == "";
    assert Separate("o") == [Token(['-', 'o'], true)];
  }

  lemma RunNothing(st: State, parse: Parser)
    ensures Run(st, parse, []) == Parsed(st)
  {
  }

  // ----- End of options -----

  /** What the tokens behind `--` become, in order. */
  function Placed(st: State, tokens: seq<Token>): Outcome
  {
    if !HasProgram(st) && tokens != [] then
      if tokens[0].utf8 then PlacedTail(st.(program := Some(tokens[0].text)), tokens[1..]) else Failed(ProgramNotUtf8)
    else PlacedTail(st, tokens)
  }

  function PlacedTail(st: State, tokens: seq<Token>): Outcome
  {
    if st.mode.None? then Parsed(st.(inputFiles := st.inputFiles + tokens))
    else if exists k :: 0 <= k < |tokens| && !tokens[k].utf8 then Failed(ArgumentNotUtf8)
    else Parsed(st.(positional := st.positional + Tagged(st.mode.value, tokens)))
  }

  /** The tokens as values of the mode that was active. */
  function Tagged(mode: Mode, tokens: seq<Token>): seq<(Mode, string)>
  {
    if tokens == [] then [] else [(mode, tokens[0].text)] + Tagged(mode, tokens[1..])
  }

  /** Once `--` is seen every token is positional: nothing but program, arguments and files changes. */
  lemma {:induction false} AfterMarker(st: State, parse: Parser, tokens: seq<Token>)
    requires st.endOfOptions
    ensures Run(st, parse, tokens) == Placed(st, tokens)
    decreases |tokens|
  {
    if tokens == [] {
      assert st.inputFiles + [] == st.inputFiles && st.positional + [] == st.positional;
    } else {
      var t, rest := tokens[0], tokens[1..];
      assert tokens == [t] + rest;
      RunUnfold(st, parse, t, rest);
      if Step(st, parse, t, rest).Go? {
        var next := Step(st, parse, t, rest).state;
        AfterMarker(next, parse, rest);
        if HasProgram(st) {
          PlacedStep(st, t, rest);
        }
      }
    }
  }

  lemma PlacedStep(st: State, t: Token, rest: seq<Token>)
    requires HasProgram(st) && Positional(st, t, rest).Go?
    ensures PlacedTail(Positional(st, t, rest).state, rest) == PlacedTail(st, [t] + rest)
  {
    var tokens := [t] + rest;
    if st.mode.None? {
      assert st.inputFiles + [t] + rest == st.inputFiles + tokens;
    } else {
      assert forall k :: 0 <= k < |rest| ==> tokens[k + 1] == rest[k];
      assert forall k :: 0 < k < |tokens| ==> tokens[k] == rest[k - 1];
      var m := st.mode.value;
      assert tokens[1..] == rest && tokens[0] == t;
      assert st.positional + [(m, t.text)] + Tagged(m, rest) == st.positional + Tagged(m, tokens);
      if k :| 0 <= k < |rest| && !rest[k].utf8 {
        assert !tokens[k + 1].utf8;
      }
    }
  }

  /** The marker itself: behind tokens that parse on their own and leave option processing on, it makes everything after
      it positional, whatever that looks like. */
  lemma MarkerEndsOptions(parse: Parser, before: seq<Token>, rest: seq<Token>)
    requires Run(INITIAL, parse, before).Parsed? && !Run(INITIAL, parse, before).state.endOfOptions
    ensures Run(INITIAL, parse, before + [Token("--", true)] + rest) ==
            Placed(Run(INITIAL, parse, before).state.(endOfOptions := true), rest)
  {
    hide Run, Placed;
    var st, marker := Run(INITIAL, parse, before).state, Token("--", true);
    assert before + [marker] + rest == before + ([marker] + rest);
    RunAppend(INITIAL, parse, before, [marker] + rest);
    RunUnfold(st, parse, marker, rest);
    AfterMarker(st.(endOfOptions := true), parse, rest);
  }

  /** `jqf -- -n` runs the program `-n`. */
  lemma DashProgram(parse: Parser)
    ensures Run(INITIAL, parse, [Token("--", true), Token("-n", true)]) ==
            Parsed(INITIAL.(endOfOptions := true, program := Some("-n")))
  {
    var marker, dash := Token("--", true), Token("-n", true);
    assert [] + [marker] + [dash] == [marker, dash] && [dash][1..] == [];
    RunNothing(INITIAL, parse);
    MarkerEndsOptions(parse, [], [dash]);
    assert INITIAL.inputFiles + [] == INITIAL.inputFiles;
  }

  /** Text that looks like no option and is not the `serve` keyword. */
  predicate IsPlain(t: Token) { (t.text == "" || t.text[0] != '-' || t.text == "-") && t.text != "serve" }

  /** Such tokens need no marker: they are placed the same way without it. */
  lemma {:induction false} PlainTokens(st: State, parse: Parser, tokens: seq<Token>)
    requires !st.endOfOptions && forall k :: 0 <= k < |tokens| ==> IsPlain(tokens[k])
    ensures Run(st, parse, tokens) == Placed(st, tokens)
    decreases |tokens|
  {
    if tokens == [] {
      assert st.inputFiles + [] == st.inputFiles && st.positional + [] == st.positional;
    } else {
      hide ShortAction, LongAction, Perform;
      var t, rest := tokens[0], tokens[1..];
      assert tokens == [t] + rest;
      RunUnfold(st, parse, t, rest);
      PlainStep(st, parse, t, rest);
      if Positional(st, t, rest).Go? {
        var next := Positional(st, t, rest).state;
        PlainTokens(next, parse, rest);
        if HasProgram(st) {
          PlacedStep(st, t, rest);
        }
      }
    }
  }

  lemma PlainStep(st: State, parse: Parser, t: Token, rest: seq<Token>)
    requires !st.endOfOptions && IsPlain(t)
    ensures Step(st, parse, t, rest) == Positional(st, t, rest)
  {
    hide ShortAction, LongAction, Perform;
  }

  // ----- The loop -----

  method ParseArguments(argv: seq<Token>, parse: Parser) returns (r: Outcome)
    ensures r == Run(INITIAL, parse, argv)
  {
    hide Step;
    var st := INITIAL;
    var arguments := argv;
    while arguments != []
      invariant Run(st, parse, arguments) == Run(INITIAL, parse, argv)
      decreases TotalWeight(arguments)
    {
      var t, rest := arguments[0], arguments[1..];
      assert arguments == [t] + rest;
      RunUnfold(st, parse, t, rest);
      StepLighter(st, parse, t, rest);
      match Step(st, parse, t, rest) {
        case Stop(outcome) => return outcome;
        case Go(next, more) => st, arguments := next, more;
      }
    }
    return Parsed(st);
  }
}
