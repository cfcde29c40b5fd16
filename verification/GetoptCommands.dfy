/** Command lines as they are meant: what is typed for each option, and what the caller of `getopt_long`
    is to be told about it. The scanner is measured against this, not against its own steps. */
module GetoptCommands {
  import opened Getopt
  import opened Wrappers

  // ---- what is typed ----

  datatype LongArgument = Nothing | Equals(arg: string) | NextWord(arg: string)

  /** A long option behind "--" or -W. */
  datatype LongText = LongText(name: string, arg: LongArgument) {
    function Text(): string {
      if arg.Equals? then name + "=" + arg.arg else name
    }
    function Extra(): seq<string> {
      if arg.NextWord? then [arg.arg] else []
    }
  }

  /** How a word of short options ends: with the last flag, with an option and perhaps its argument, or
      with W and a long option in the same word, in the next one, or missing. */
  datatype Tail =
    | NoTail | Bare(c: char) | Joined(c: char, arg: string) | Separate(c: char, arg: string)
    | WJoined(long: LongText) | WNext(long: LongText) | WMissing
  {
    function Text(): string {
      match this
      case NoTail => ""
      case Bare(c) => [c]
      case Joined(c, arg) => [c] + arg
      case Separate(c, _) => [c]
      case WJoined(long) => "W" + long.Text()
      case WNext(_) => "W"
      case WMissing => "W"
    }
    function Extra(): seq<string> {
      match this
      case Separate(_, arg) => [arg]
      case WJoined(long) => long.Extra()
      case WNext(long) => [long.Text()] + long.Extra()
      case _ => []
    }
  }

  datatype Command = Short(flags: string, tail: Tail) | Long(long: LongText) | Operand(word: string) {
    function Words(): (ws: seq<string>)
      ensures ws != []
    {
      match this
      case Short(flags, tail) => ["-" + flags + tail.Text()] + tail.Extra()
      case Long(long) => ["--" + long.Text()] + long.Extra()
      case Operand(word) => [word]
    }
  }

  /** What follows the commands: nothing, "--" and words that are left alone, the same for an empty long
      option behind -W, or, where the first operand ends the options, that operand and all that follows. */
  datatype Rest = NoMore | Terminated(words: seq<string>) | EndedByW(flags: string, words: seq<string>) | Stopped(words: seq<string>) {
    /** The words that end the options. */
    function Mark(): seq<string> {
      match this
      case Terminated(_) => ["--"]
      case EndedByW(flags, _) => ["-" + flags + "W", ""]
      case _ => []
    }
    function Left(): seq<string> {
      if NoMore? then [] else words
    }
    function Words(): seq<string> {
      Mark() + Left()
    }
  }

  datatype Line = Line(cmds: seq<Command>, rest: Rest) {
    function Words(): seq<string>
      decreases |cmds|
    {
      if cmds == [] then rest.Words() else cmds[0].Words() + Line(cmds[1..], rest).Words()
    }
  }

  // ---- the tables ----

  /** The short options without the mode character in front. */
  function Letters(options: string): string {
    if options != "" && options[0] in "+-" then options[1..] else options
  }

  datatype Kind = Flag | Needs | May | LongPrefix

  /** What stands behind the letter at i: W; stands for --, and one or two colons for an argument. */
  function KindAt(letters: string, i: nat): Kind
    requires i < |letters|
  {
    if letters[i] == 'W' && letters[i + 1..] != "" && letters[i + 1] == ';' then LongPrefix
    else if !(":" <= letters[i + 1..]) then Flag
    else if "::" <= letters[i + 1..] then May
    else Needs
  }

  /** Only the first occurrence of a letter counts. */
  ghost predicate Declared(letters: string, c: char, kind: Kind) {
    c != ':' && exists i :: 0 <= i < |letters| && letters[i] == c && c !in letters[..i] && KindAt(letters, i) == kind
  }

  ghost predicate Unknown(letters: string, c: char) {
    c == ':' || c !in letters
  }

  /** A missing or unwanted argument: ':' when the letters start with a colon. */
  function Complaint(cfg: Config): int {
    if ":" <= Letters(cfg.options) then ':' as int else '?' as int
  }

  /** A long option is meant by its full name, unless two earlier ones start with it, or by the start of
      its name, if no other one starts so. */
  ghost predicate Meant(longs: seq<LongOption>, name: string, e: int) {
    && 0 <= e < |longs| && name <= longs[e].name
    && if longs[e].name == name then
         && (forall j :: 0 <= j < e ==> longs[j].name != name)
         && (forall i, j :: 0 <= i < j < e ==> !(name <= longs[i].name && name <= longs[j].name))
       else forall j :: 0 <= j < |longs| && j != e ==> !(name <= longs[j].name)
  }

  datatype Mode = Permute | InOrder | StopFirst

  function ModeOf(cfg: Config): Mode {
    if cfg.posixlyCorrect then StopFirst
    else if cfg.options != "" && cfg.options[0] == '-' then InOrder
    else if cfg.options != "" && cfg.options[0] == '+' then StopFirst
    else Permute
  }

  predicate IsOperand(w: string) {
    w == "-" || !("-" <= w)
  }

  // ---- what the caller is to be told ----

  ghost predicate Known(cfg: Config, x: LongText) {
    exists e :: Meant(cfg.longs, x.name, e)
  }

  ghost function OptionOf(cfg: Config, x: LongText): LongOption
    requires Known(cfg, x)
  {
    var e :| Meant(cfg.longs, x.name, e);
    cfg.longs[e]
  }

  ghost function LongEvent(cfg: Config, x: LongText): Event {
    if !Known(cfg, x) then Event('?' as int, None)
    else
      var o := OptionOf(cfg, x);
      if (o.hasArg == NoArgument && x.arg.Equals?) || (o.hasArg == RequiredArgument && x.arg.Nothing?) then Event(Complaint(cfg), None)
      else Event(if o.flag then 0 else o.val, if x.arg.Nothing? then None else Some(x.arg.arg))
  }

  ghost function FlagEvent(letters: string, c: char): Event {
    Event(if Unknown(letters, c) then '?' as int else c as int, None)
  }

  ghost function FlagEvents(letters: string, flags: string): (es: seq<Event>)
    ensures |es| == |flags|
  {
    seq(|flags|, i requires 0 <= i < |flags| => FlagEvent(letters, flags[i]))
  }

  ghost function TailEvents(cfg: Config, tail: Tail): seq<Event> {
    match tail
    case NoTail => []
    case Bare(c) => [if Declared(Letters(cfg.options), c, May) then Event(c as int, None) else Event(Complaint(cfg), None)]
    case Joined(c, arg) => [Event(c as int, Some(arg))]
    case Separate(c, arg) => [Event(c as int, Some(arg))]
    case WJoined(long) => [LongEvent(cfg, long)]
    case WNext(long) => [LongEvent(cfg, long)]
    case WMissing => [Event(Complaint(cfg), None)]
  }

  ghost function CommandEvents(cfg: Config, cmd: Command): seq<Event> {
    match cmd
    case Short(flags, tail) => FlagEvents(Letters(cfg.options), flags) + TailEvents(cfg, tail)
    case Long(long) => [LongEvent(cfg, long)]
    case Operand(word) => if ModeOf(cfg) == InOrder then [Event(1, Some(word))] else []
  }

  ghost function RestEvents(cfg: Config, rest: Rest): seq<Event> {
    if rest.EndedByW? then FlagEvents(Letters(cfg.options), rest.flags) else []
  }

  /** The events of a line, in order. */
  ghost function LineEvents(cfg: Config, line: Line): seq<Event>
    decreases |line.cmds|
  {
    if line.cmds == [] then RestEvents(cfg, line.rest)
    else CommandEvents(cfg, line.cmds[0]) + LineEvents(cfg, Line(line.cmds[1..], line.rest))
  }

  predicate IsLeft(cfg: Config, cmd: Command) {
    cmd.Operand? && ModeOf(cfg) == Permute
  }

  /** The words of the options and their arguments, with the terminator, and the words left over. */
  function LineTaken(cfg: Config, line: Line): seq<string>
    decreases |line.cmds|
  {
    if line.cmds == [] then line.rest.Mark()
    else (if IsLeft(cfg, line.cmds[0]) then [] else line.cmds[0].Words()) + LineTaken(cfg, Line(line.cmds[1..], line.rest))
  }

  function LineLeft(cfg: Config, line: Line): seq<string>
    decreases |line.cmds|
  {
    if line.cmds == [] then line.rest.Left()
    else (if IsLeft(cfg, line.cmds[0]) then line.cmds[0].Words() else []) + LineLeft(cfg, Line(line.cmds[1..], line.rest))
  }

  // ---- what the tables allow ----

  // `last` says that no word follows: only then can an argument be missing.

  ghost predicate FlagsLegal(letters: string, flags: string) {
    forall i :: 0 <= i < |flags| ==> Unknown(letters, flags[i]) || Declared(letters, flags[i], Flag)
  }

  ghost predicate LongLegal(cfg: Config, x: LongText, last: bool) {
    && '=' !in x.name && x.Text() != ""
    && (x.arg.NextWord? ==> Known(cfg, x) && OptionOf(cfg, x).hasArg == RequiredArgument)
    && (x.arg.Nothing? && Known(cfg, x) && OptionOf(cfg, x).hasArg == RequiredArgument ==> last)
  }

  ghost predicate TailLegal(cfg: Config, tail: Tail, last: bool) {
    var letters := Letters(cfg.options);
    match tail
    case NoTail => true
    case Bare(c) => Declared(letters, c, May) || (Declared(letters, c, Needs) && last)
    case Joined(c, arg) => (Declared(letters, c, May) || Declared(letters, c, Needs)) && arg != ""
    case Separate(c, _) => Declared(letters, c, Needs)
    case WJoined(long) => Declared(letters, 'W', LongPrefix) && LongLegal(cfg, long, last)
    case WNext(long) => Declared(letters, 'W', LongPrefix) && LongLegal(cfg, long, last)
    case WMissing => Declared(letters, 'W', LongPrefix) && last
  }

  ghost predicate CommandLegal(cfg: Config, cmd: Command, last: bool) {
    match cmd
    case Short(flags, tail) =>
      && flags + tail.Text() != "" && (flags + tail.Text())[0] != '-'
      && FlagsLegal(Letters(cfg.options), flags) && TailLegal(cfg, tail, last)
    case Long(long) => LongLegal(cfg, long, last)
    case Operand(word) => IsOperand(word) && ModeOf(cfg) != StopFirst
  }

  ghost predicate RestLegal(cfg: Config, rest: Rest) {
    match rest
    case EndedByW(flags, _) =>
      && Declared(Letters(cfg.options), 'W', LongPrefix) && FlagsLegal(Letters(cfg.options), flags)
      && (flags != "" ==> flags[0] != '-')
    case Stopped(words) => ModeOf(cfg) == StopFirst && words != [] && IsOperand(words[0])
    case _ => true
  }

  ghost predicate Legal(cfg: Config, line: Line)
    decreases |line.cmds|
  {
    if line.cmds == [] then RestLegal(cfg, line.rest)
    else
      CommandLegal(cfg, line.cmds[0], |line.cmds| == 1 && line.rest.NoMore?) && Legal(cfg, Line(line.cmds[1..], line.rest))
  }

  // ---- the scanner tells it ----

  lemma {:induction false} MatchFrom(longs: seq<LongOption>, name: string, i: nat, best: Option<nat>, e: nat)
    requires i <= |longs| && (best.Some? ==> best.value < i && name <= longs[best.value].name)
    requires forall j :: 0 <= j < i ==> longs[j].name != name && (name <= longs[j].name ==> best == Some(j))
    ensures LongMatch(longs, name, i, best) == Found(e) <==> Meant(longs, name, e)
    decreases |longs| - i
  {
    if i < |longs| {
      if !(name <= longs[i].name) {
        MatchFrom(longs, name, i + 1, best, e);
      } else if |longs[i].name| != |name| && best == None {
        MatchFrom(longs, name, i + 1, Some(i), e);
      }
    }
  }

  lemma KnownFound(cfg: Config, x: LongText)
    ensures var m := LongMatch(cfg.longs, x.name, 0, None);
      && (m.Found? <==> Known(cfg, x)) && (m.Found? ==> cfg.longs[m.index] == OptionOf(cfg, x))
  {
    var m := LongMatch(cfg.longs, x.name, 0, None);
    forall e: int
      ensures Meant(cfg.longs, x.name, e) <==> e >= 0 && m == Found(e)
    {
      if e >= 0 {
        MatchFrom(cfg.longs, x.name, 0, None, e);
      }
    }
    if m.Found? {
      assert Meant(cfg.longs, x.name, m.index);
    }
  }

  lemma ComplaintIs(cfg: Config)
    ensures cfg.BadArg() == Complaint(cfg)
  {
  }

  lemma ModeIs(cfg: Config)
    ensures (ModeOf(cfg) == InOrder <==> cfg.InOrder()) && (ModeOf(cfg) == Permute <==> cfg.Permuting())
  {
  }

  lemma OperandIs(w: string)
    ensures IsOperand(w) <==> IsNonOption(w)
  {
  }

  lemma TextParts(x: LongText)
    requires '=' !in x.name
    ensures var t, eq := x.Text(), IndexOf(x.Text(), '=', 0);
      && t[..eq] == x.name && (eq < |t| <==> x.arg.Equals?) && (x.arg.Equals? ==> t[eq + 1..] == x.arg.arg)
  {
    var t, eq := x.Text(), IndexOf(x.Text(), '=', 0);
    forall j | 0 <= j < |x.name|
      ensures t[j] != '='
    {
      assert t[j] == x.name[j] && x.name[j] in x.name;
    }
    if x.arg.Equals? {
      assert t[|x.name|] == '=';
    }
  }

  lemma LongReads(cfg: Config, x: LongText, last: bool, used: nat, next: Option<string>)
    requires LongLegal(cfg, x, last) && (x.arg.NextWord? ==> next == Some(x.arg.arg))
    requires x.arg.Nothing? && last ==> next == None
    ensures LongStep(cfg, x.Text(), used, next) == Step(LongEvent(cfg, x), used + |x.Extra()|, "")
  {
    TextParts(x);
    KnownFound(cfg, x);
    ComplaintIs(cfg);
    hide LongMatch, Known, OptionOf, IndexOf, Complaint;
  }

  // ---- short options ----

  function Start(cfg: Config): nat {
    if cfg.IgnoreFirst() then 1 else 0
  }

  lemma LettersFrom(cfg: Config)
    ensures Start(cfg) <= |cfg.options| && Letters(cfg.options) == cfg.options[Start(cfg)..]
  {
  }

  lemma FirstIndex(o: string, c: char, from: nat, i: nat)
    requires from + i < |o| && o[from + i] == c && c !in o[from..][..i]
    ensures IndexOf(o, c, from) == from + i
  {
    forall j | from <= j < from + i
      ensures o[j] != c
    {
      assert o[j] == o[from..][..i][j - from];
    }
  }

  lemma KindFacts(o: string, from: nat, i: nat)
    requires from + i < |o|
    ensures var k, j := KindAt(o[from..], i), from + i;
      && (k == LongPrefix <==> o[j] == 'W' && j + 1 < |o| && o[j + 1] == ';')
      && (k == Flag ==> !(j + 1 < |o| && o[j + 1] == ':'))
      && (k == Needs || k == May ==> j + 1 < |o| && o[j + 1] == ':')
      && (k == Needs ==> !(j + 2 < |o| && o[j + 2] == ':'))
      && (k == May ==> j + 2 < |o| && o[j + 2] == ':')
  {
    var behind := o[from..][i + 1..];
    assert behind == o[from + i + 1..];
  }

  /** Where the scanner finds a letter. */
  lemma LetterFound(cfg: Config, c: char, kind: Kind)
    requires Declared(Letters(cfg.options), c, kind)
    ensures var o, i := cfg.options, IndexOf(cfg.options, c, Start(cfg));
      && c != ':' && i < |o|
      && (kind == LongPrefix <==> c == 'W' && i + 1 < |o| && o[i + 1] == ';')
      && (kind == Flag ==> !(i + 1 < |o| && o[i + 1] == ':'))
      && (kind == Needs || kind == May ==> i + 1 < |o| && o[i + 1] == ':')
      && (kind == Needs ==> !(i + 2 < |o| && o[i + 2] == ':'))
      && (kind == May ==> i + 2 < |o| && o[i + 2] == ':')
  {
    LettersFrom(cfg);
    var letters, from := Letters(cfg.options), Start(cfg);
    var i :| 0 <= i < |letters| && letters[i] == c && c !in letters[..i] && KindAt(letters, i) == kind;
    hide *;
    assert letters[i] == cfg.options[from + i] == c && letters == cfg.options[from..];
    FirstIndex(cfg.options, c, from, i);
    KindFacts(cfg.options, from, i);
  }

  lemma InRest(o: string, c: char, from: nat)
    requires from <= |o|
    ensures IndexOf(o, c, from) < |o| ==> c in o[from..]
  {
    var i := IndexOf(o, c, from);
    if i < |o| {
      assert o[from..][i - from] == c;
    }
  }

  lemma LetterMissing(cfg: Config, c: char)
    requires c !in Letters(cfg.options)
    ensures IndexOf(cfg.options, c, Start(cfg)) == |cfg.options|
  {
    LettersFrom(cfg);
    InRest(cfg.options, c, Start(cfg));
  }

  /** Only one kind is declared for a letter. */
  lemma OneKind(cfg: Config, c: char, kind: Kind, other: Kind)
    requires Declared(Letters(cfg.options), c, kind) && Declared(Letters(cfg.options), c, other)
    ensures kind == other && !Unknown(Letters(cfg.options), c)
  {
    LetterFound(cfg, c, kind);
    LetterFound(cfg, c, other);
  }

  lemma FlagReads(cfg: Config, args: seq<string>, k: nat, c: char, rest: string)
    requires k < |args| && (Unknown(Letters(cfg.options), c) || Declared(Letters(cfg.options), c, Flag))
    ensures ShortStep(cfg, args, k, [c] + rest)
         == Step(Event(if Unknown(Letters(cfg.options), c) then '?' as int else c as int, None), if rest == "" then 1 else 0, rest)
  {
    var p := [c] + rest;
    assert p[0] == c && p[1..] == rest;
    hide LongStep, IndexOf;
    if Declared(Letters(cfg.options), c, Flag) {
      LetterFound(cfg, c, Flag);
      OneKind(cfg, c, Flag, Flag);
    } else if c != ':' {
      LetterMissing(cfg, c);
    }
    hide Declared, Letters;
  }

  /** An option that takes an argument: text behind it in the same word is its argument. */
  lemma ArgumentReads(cfg: Config, args: seq<string>, k: nat, c: char, kind: Kind, rest: string)
    requires k < |args| && Declared(Letters(cfg.options), c, kind) && (kind == May || kind == Needs)
    ensures ShortStep(cfg, args, k, [c] + rest)
         == if rest != "" then Step(Event(c as int, Some(rest)), 1, "")
            else if kind == May then Step(Event(c as int, None), 1, "")
            else if k + 1 == |args| then Step(Event(Complaint(cfg), None), 1, "")
            else Step(Event(c as int, Some(args[k + 1])), 2, "")
  {
    var p := [c] + rest;
    assert p[0] == c && p[1..] == rest;
    LetterFound(cfg, c, kind);
    ComplaintIs(cfg);
    hide LongStep, IndexOf, Declared, Complaint, Config.BadArg;
  }

  lemma TailReads(cfg: Config, args: seq<string>, k: nat, tail: Tail, last: bool)
    requires tail != NoTail && TailLegal(cfg, tail, last)
    requires var n := |tail.Extra()|; k + 1 + n <= |args| && args[k + 1..k + 1 + n] == tail.Extra() && (last ==> k + 1 + n == |args|)
    ensures |TailEvents(cfg, tail)| == 1
    ensures ShortStep(cfg, args, k, tail.Text()) == Step(TailEvents(cfg, tail)[0], 1 + |tail.Extra()|, "")
  {
    hide ShortStep, LongEvent, LongLegal, Declared, Complaint, Letters;
    match tail {
      case Bare(c) =>
        assert [c] + "" == [c];
        var may := Declared(Letters(cfg.options), c, May);
        ArgumentReads(cfg, args, k, c, if may then May else Needs, "");
      case Joined(c, arg) =>
        var may := Declared(Letters(cfg.options), c, May);
        ArgumentReads(cfg, args, k, c, if may then May else Needs, arg);
      case Separate(c, arg) =>
        assert [c] + "" == [c] && args[k + 1] == args[k + 1..k + 2][0];
        ArgumentReads(cfg, args, k, c, Needs, "");
      case WJoined(long) => WordReads(cfg, args, k, long, last);
      case WNext(long) => NextReads(cfg, args, k, long, last);
      case WMissing => MissingReads(cfg, args, k);
    }
  }

  lemma MissingReads(cfg: Config, args: seq<string>, k: nat)
    requires Declared(Letters(cfg.options), 'W', LongPrefix) && k + 1 == |args|
    ensures ShortStep(cfg, args, k, "W") == Step(Event(Complaint(cfg), None), 1, "")
  {
    LetterFound(cfg, 'W', LongPrefix);
    ComplaintIs(cfg);
    hide LongStep, IndexOf, Declared, Complaint, Config.BadArg;
  }

  lemma WordReads(cfg: Config, args: seq<string>, k: nat, x: LongText, last: bool)
    requires Declared(Letters(cfg.options), 'W', LongPrefix) && LongLegal(cfg, x, last)
    requires var n := |x.Extra()|; k + 1 + n <= |args| && args[k + 1..k + 1 + n] == x.Extra() && (last ==> k + 1 + n == |args|)
    ensures ShortStep(cfg, args, k, "W" + x.Text()) == Step(LongEvent(cfg, x), 1 + |x.Extra()|, "")
  {
    LetterFound(cfg, 'W', LongPrefix);
    assert ("W" + x.Text())[1..] == x.Text();
    assert x.arg.NextWord? ==> args[k + 1] == args[k + 1..k + 2][0];
    LongReads(cfg, x, last, 1, At(args, k + 1));
    hide LongStep, IndexOf, LongEvent, Declared;
  }

  lemma NextReads(cfg: Config, args: seq<string>, k: nat, x: LongText, last: bool)
    requires Declared(Letters(cfg.options), 'W', LongPrefix) && LongLegal(cfg, x, last)
    requires var extra := [x.Text()] + x.Extra(); var n := |extra|;
      k + 1 + n <= |args| && args[k + 1..k + 1 + n] == extra && (last ==> k + 1 + n == |args|)
    ensures ShortStep(cfg, args, k, "W") == Step(LongEvent(cfg, x), 2 + |x.Extra()|, "")
  {
    LetterFound(cfg, 'W', LongPrefix);
    var extra := [x.Text()] + x.Extra();
    assert args[k + 1] == args[k + 1..k + 1 + |extra|][0] == x.Text();
    assert x.arg.NextWord? ==> args[k + 2] == args[k + 1..k + 1 + |extra|][1];
    LongReads(cfg, x, last, 2, At(args, k + 2));
    hide LongStep, IndexOf, LongEvent, Declared;
  }

  // ---- whole words and lines ----

  lemma FlagScans(cfg: Config, args: seq<string>, k: nat, c: char, rest: string)
    requires k < |args| && (Unknown(Letters(cfg.options), c) || Declared(Letters(cfg.options), c, Flag))
    ensures var e := FlagEvent(Letters(cfg.options), c);
      Scan(cfg, args, k, [c] + rest)
      == if rest == "" then Scan(cfg, args, k + 1, "").Before([e], args[k..k + 1], []) else Scan(cfg, args, k, rest).Before([e], [], [])
  {
    FlagReads(cfg, args, k, c, rest);
    assert args[k..k] == [];
    hide ShortStep, Unknown, Declared, Letters;
  }

  lemma StepScans(cfg: Config, args: seq<string>, k: nat, p: string, e: Event, used: nat)
    requires k < |args| && p != "" && used > 0 && ShortStep(cfg, args, k, p) == Step(e, used, "")
    ensures k + used <= |args| && Scan(cfg, args, k, p) == Scan(cfg, args, k + used, "").Before([e], args[k..k + used], [])
  {
    hide ShortStep;
  }

  lemma TailScans(cfg: Config, args: seq<string>, k: nat, tail: Tail, last: bool)
    requires tail != NoTail && TailLegal(cfg, tail, last)
    requires var n := |tail.Extra()|; k + 1 + n <= |args| && args[k + 1..k + 1 + n] == tail.Extra() && (last ==> k + 1 + n == |args|)
    ensures var n := 1 + |tail.Extra()|;
      Scan(cfg, args, k, tail.Text()) == Scan(cfg, args, k + n, "").Before(TailEvents(cfg, tail), args[k..k + n], [])
  {
    hide *;
    TailTexts(tail);
    TailReads(cfg, args, k, tail, last);
    StepScans(cfg, args, k, tail.Text(), TailEvents(cfg, tail)[0], 1 + |tail.Extra()|);
    assert TailEvents(cfg, tail) == [TailEvents(cfg, tail)[0]];
  }

  lemma FirstFlag(letters: string, flags: string)
    requires flags != ""
    ensures FlagEvents(letters, flags) == [FlagEvent(letters, flags[0])] + FlagEvents(letters, flags[1..])
    ensures FlagsLegal(letters, flags) ==> (Unknown(letters, flags[0]) || Declared(letters, flags[0], Flag)) && FlagsLegal(letters, flags[1..])
  {
    hide Unknown, Declared;
  }

  lemma NoFlags(cfg: Config)
    ensures FlagEvents(Letters(cfg.options), "") == [] && TailEvents(cfg, NoTail) == []
  {
  }

  lemma TailTexts(tail: Tail)
    ensures (tail.Text() == "" <==> tail == NoTail) && (tail == NoTail ==> tail.Extra() == [])
  {
  }

  /** What is left of a word of short options, from flag to flag. */
  lemma {:induction false} ClusterScans(cfg: Config, args: seq<string>, k: nat, flags: string, tail: Tail, last: bool)
    requires flags + tail.Text() != "" && FlagsLegal(Letters(cfg.options), flags) && TailLegal(cfg, tail, last)
    requires var n := |tail.Extra()|; k + 1 + n <= |args| && args[k + 1..k + 1 + n] == tail.Extra() && (last ==> k + 1 + n == |args|)
    ensures var n := 1 + |tail.Extra()|;
      Scan(cfg, args, k, flags + tail.Text())
      == Scan(cfg, args, k + n, "").Before(FlagEvents(Letters(cfg.options), flags) + TailEvents(cfg, tail), args[k..k + n], [])
    decreases |flags|
  {
    hide *;
    var letters, n := Letters(cfg.options), 1 + |tail.Extra()|;
    TailTexts(tail);
    NoFlags(cfg);
    if flags == "" {
      assert "" + tail.Text() == tail.Text();
      TailScans(cfg, args, k, tail, last);
      assert [] + TailEvents(cfg, tail) == TailEvents(cfg, tail);
    } else {
      var e, rest := FlagEvent(letters, flags[0]), flags[1..] + tail.Text();
      assert flags + tail.Text() == [flags[0]] + rest;
      FirstFlag(letters, flags);
      FlagScans(cfg, args, k, flags[0], rest);
      var es := FlagEvents(letters, flags[1..]) + TailEvents(cfg, tail);
      assert [e] + es == FlagEvents(letters, flags) + TailEvents(cfg, tail);
      if rest == "" {
        assert |rest| == |flags[1..]| + |tail.Text()| && flags[1..] == "" && tail == NoTail;
        assert es == [] && [e] + es == [e];
      } else {
        ClusterScans(cfg, args, k, flags[1..], tail, last);
        Scan(cfg, args, k + n, "").BeforeTwice([e], [], [], es, args[k..k + n], []);
        var none: seq<string> := [];
        assert none + args[k..k + n] == args[k..k + n] && none + none == none;
      }
    }
  }

  lemma ShortScans(cfg: Config, args: seq<string>, k: nat, flags: string, tail: Tail, last: bool)
    requires CommandLegal(cfg, Short(flags, tail), last)
    requires var ws := Short(flags, tail).Words(); k + |ws| <= |args| && args[k..k + |ws|] == ws && (last ==> k + |ws| == |args|)
    ensures var cmd := Short(flags, tail); var n := |cmd.Words()|;
      Scan(cfg, args, k, "") == Scan(cfg, args, k + n, "").Before(CommandEvents(cfg, cmd), args[k..k + n], [])
  {
    hide ShortStep, TailLegal, FlagsLegal, FlagEvents, TailEvents, Letters, Scan;
    var ws, p := Short(flags, tail).Words(), flags + tail.Text();
    assert args[k] == args[k..k + |ws|][0] == "-" + p;
    assert args[k + 1..k + |ws|] == args[k..k + |ws|][1..] == tail.Extra();
    ClusterScans(cfg, args, k, flags, tail, last);
    WordStarts(cfg, args, k, p);
  }

  lemma WordStarts(cfg: Config, args: seq<string>, k: nat, p: string)
    requires k < |args| && args[k] == "-" + p && p != "" && p[0] != '-'
    ensures Scan(cfg, args, k, "") == Scan(cfg, args, k, p)
  {
    hide ShortStep;
    assert args[k][1..] == p && args[k][1] == p[0];
  }

  lemma LongScans(cfg: Config, args: seq<string>, k: nat, x: LongText, last: bool)
    requires LongLegal(cfg, x, last)
    requires var ws := Long(x).Words(); k + |ws| <= |args| && args[k..k + |ws|] == ws && (last ==> k + |ws| == |args|)
    ensures var n := |Long(x).Words()|;
      Scan(cfg, args, k, "") == Scan(cfg, args, k + n, "").Before([LongEvent(cfg, x)], args[k..k + n], [])
  {
    var ws, text := Long(x).Words(), x.Text();
    assert args[k] == args[k..k + |ws|][0] == "--" + text;
    assert x.arg.NextWord? ==> args[k + 1] == args[k..k + |ws|][1];
    assert args[k][2..] == text;
    LongReads(cfg, x, last, 1, At(args, k + 1));
    hide LongStep, LongEvent, LongLegal;
  }

  lemma OperandScans(cfg: Config, args: seq<string>, k: nat, w: string)
    requires IsOperand(w) && ModeOf(cfg) != StopFirst && k < |args| && args[k] == w
    ensures Scan(cfg, args, k, "")
         == if ModeOf(cfg) == InOrder then Scan(cfg, args, k + 1, "").Before([Event(1, Some(w))], [w], [])
            else Scan(cfg, args, k + 1, "").Before([], [], [w])
  {
    ModeIs(cfg);
    OperandIs(w);
    hide ModeOf, IsOperand, IsNonOption;
  }

  lemma CommandScans(cfg: Config, args: seq<string>, k: nat, cmd: Command, last: bool)
    requires CommandLegal(cfg, cmd, last)
    requires var ws := cmd.Words(); k + |ws| <= |args| && args[k..k + |ws|] == ws && (last ==> k + |ws| == |args|)
    ensures var ws := cmd.Words();
      Scan(cfg, args, k, "")
      == Scan(cfg, args, k + |ws|, "").Before(CommandEvents(cfg, cmd), if IsLeft(cfg, cmd) then [] else ws,
                                              if IsLeft(cfg, cmd) then ws else [])
  {
    hide Scan, TailLegal, FlagsLegal, FlagEvents, TailEvents, LongLegal, LongEvent, Letters;
    match cmd {
      case Short(flags, tail) => ShortScans(cfg, args, k, flags, tail, last);
      case Long(x) => LongScans(cfg, args, k, x, last);
      case Operand(w) =>
        assert args[k] == args[k..k + 1][0];
        OperandScans(cfg, args, k, w);
    }
  }

  lemma EmptyEnds(cfg: Config, args: seq<string>, k: nat)
    requires Declared(Letters(cfg.options), 'W', LongPrefix) && k + 1 < |args| && args[k + 1] == ""
    ensures Scan(cfg, args, k, "W") == Parse([], args[k..k + 2], args[k + 2..])
  {
    LetterFound(cfg, 'W', LongPrefix);
    assert LongStep(cfg, "", 2, At(args, k + 2)) == End(2);
    hide LongStep, IndexOf, Declared;
    assert ShortStep(cfg, args, k, "W") == End(2);
  }

  /** An empty long option behind -W ends the options, after the flags before it. */
  lemma {:induction false} EndScans(cfg: Config, args: seq<string>, k: nat, flags: string)
    requires Declared(Letters(cfg.options), 'W', LongPrefix) && FlagsLegal(Letters(cfg.options), flags)
    requires k + 1 < |args| && args[k + 1] == ""
    ensures Scan(cfg, args, k, flags + "W") == Parse(FlagEvents(Letters(cfg.options), flags), args[k..k + 2], args[k + 2..])
    decreases |flags|
  {
    hide *;
    var letters := Letters(cfg.options);
    NoFlags(cfg);
    if flags == "" {
      assert "" + "W" == "W";
      EmptyEnds(cfg, args, k);
    } else {
      var e, rest := FlagEvent(letters, flags[0]), flags[1..] + "W";
      assert flags + "W" == [flags[0]] + rest && rest != "";
      FirstFlag(letters, flags);
      FlagScans(cfg, args, k, flags[0], rest);
      EndScans(cfg, args, k, flags[1..]);
      var none: seq<string> := [];
      assert none + args[k..k + 2] == args[k..k + 2] && none + args[k + 2..] == args[k + 2..];
      BeforeIs(Parse(FlagEvents(letters, flags[1..]), args[k..k + 2], args[k + 2..]), [e], none, none);
    }
  }

  lemma MarkedScans(cfg: Config, args: seq<string>, k: nat, flags: string, words: seq<string>)
    requires RestLegal(cfg, EndedByW(flags, words)) && k <= |args| && args[k..] == ["-" + flags + "W", ""] + words
    ensures Scan(cfg, args, k, "") == Parse(FlagEvents(Letters(cfg.options), flags), ["-" + flags + "W", ""], words)
  {
    hide FlagsLegal, FlagEvents, Letters, Declared, ShortStep, Scan;
    assert args[k] == args[k..][0] == "-" + flags + "W" && args[k + 1] == args[k..][1] == "";
    assert args[k..k + 2] == args[k..][..2] == ["-" + flags + "W", ""] && args[k + 2..] == args[k..][2..] == words;
    EndScans(cfg, args, k, flags);
    assert "-" + flags + "W" == "-" + (flags + "W");
    WordStarts(cfg, args, k, flags + "W");
  }

  lemma TerminatorScans(cfg: Config, args: seq<string>, k: nat, words: seq<string>)
    requires k <= |args| && args[k..] == ["--"] + words
    ensures Scan(cfg, args, k, "") == Parse([], ["--"], words)
  {
    assert args[k] == args[k..][0] == "--" && args[k][2..] == "";
    assert args[k..k + 1] == args[k..][..1] == ["--"] && args[k + 1..] == args[k..][1..] == words;
    assert LongStep(cfg, "", 1, At(args, k + 1)) == End(1);
    hide LongStep;
  }

  lemma RestScans(cfg: Config, args: seq<string>, k: nat, rest: Rest)
    requires RestLegal(cfg, rest) && k <= |args| && args[k..] == rest.Words()
    ensures Scan(cfg, args, k, "") == Parse(RestEvents(cfg, rest), rest.Mark(), rest.Left())
  {
    hide FlagsLegal, FlagEvents, Letters, Declared, NextStep, IsOperand, IsNonOption, ModeOf;
    match rest {
      case NoMore =>
      case Terminated(words) => TerminatorScans(cfg, args, k, words);
      case EndedByW(flags, words) => MarkedScans(cfg, args, k, flags, words);
      case Stopped(words) =>
        assert args[k] == args[k..][0];
        ModeIs(cfg);
        OperandIs(args[k]);
        OnlyOneMode(cfg);
    }
  }

  lemma OnlyOneMode(cfg: Config)
    ensures ModeOf(cfg) == StopFirst <==> !cfg.InOrder() && !cfg.Permuting()
  {
  }

  lemma OneMoreCommand(cfg: Config, line: Line)
    requires line.cmds != []
    ensures var c, more := line.cmds[0], Line(line.cmds[1..], line.rest);
      && line.Words() == c.Words() + more.Words() && LineEvents(cfg, line) == CommandEvents(cfg, c) + LineEvents(cfg, more)
      && LineTaken(cfg, line) == (if IsLeft(cfg, c) then [] else c.Words()) + LineTaken(cfg, more)
      && LineLeft(cfg, line) == (if IsLeft(cfg, c) then c.Words() else []) + LineLeft(cfg, more)
      && (Legal(cfg, line) <==> CommandLegal(cfg, c, |line.cmds| == 1 && line.rest.NoMore?) && Legal(cfg, more))
  {
    hide CommandEvents, CommandLegal, Command.Words;
  }

  lemma NoCommands(cfg: Config, rest: Rest)
    ensures var line := Line([], rest);
      && line.Words() == rest.Words() && (rest.NoMore? ==> rest.Words() == []) && LineEvents(cfg, line) == RestEvents(cfg, rest)
      && LineTaken(cfg, line) == rest.Mark() && LineLeft(cfg, line) == rest.Left() && (Legal(cfg, line) <==> RestLegal(cfg, rest))
  {
  }

  lemma {:induction false} LineScans(cfg: Config, args: seq<string>, k: nat, line: Line)
    requires Legal(cfg, line) && k <= |args| && args[k..] == line.Words()
    ensures Scan(cfg, args, k, "") == Parse(LineEvents(cfg, line), LineTaken(cfg, line), LineLeft(cfg, line))
    decreases |line.cmds|
  {
    hide *;
    if line.cmds == [] {
      NoCommands(cfg, line.rest);
      RestScans(cfg, args, k, line.rest);
    } else {
      var c, more := line.cmds[0], Line(line.cmds[1..], line.rest);
      OneMoreCommand(cfg, line);
      var ws := c.Words();
      assert args[k..k + |ws|] == args[k..][..|ws|] == ws;
      assert args[k + |ws|..] == args[k..][|ws|..] == more.Words();
      NoCommands(cfg, line.rest);
      CommandScans(cfg, args, k, c, |line.cmds| == 1 && line.rest.NoMore?);
      LineScans(cfg, args, k + |ws|, more);
      BeforeIs(Parse(LineEvents(cfg, more), LineTaken(cfg, more), LineLeft(cfg, more)), CommandEvents(cfg, c),
               if IsLeft(cfg, c) then [] else ws, if IsLeft(cfg, c) then ws else []);
    }
  }

  lemma BeforeIs(p: Parse, e: seq<Event>, t: seq<string>, l: seq<string>)
    ensures p.Before(e, t, l) == Parse(e + p.events, t + p.taken, l + p.left)
  {
  }

  // ---- every list of words is a line ----

  lemma {:induction false} FirstAt(s: string, c: char) returns (i: nat)
    requires c in s
    ensures i < |s| && s[i] == c && c !in s[..i]
  {
    if s[0] == c {
      i := 0;
    } else {
      i := FirstAt(s[1..], c);
      assert s[1..][i] == s[i + 1] && s[..i + 1] == [s[0]] + s[1..][..i];
      i := i + 1;
    }
  }

  lemma LetterKind(letters: string, c: char) returns (kind: Kind)
    ensures Unknown(letters, c) || Declared(letters, c, kind)
  {
    kind := Flag;
    if !Unknown(letters, c) {
      var i := FirstAt(letters, c);
      kind := KindAt(letters, i);
    }
  }

  /** A long option that reads this text, with the next word as its argument if it takes it. */
  lemma LongFor(cfg: Config, text: string, next: Option<string>) returns (x: LongText)
    requires text != ""
    ensures x.Text() == text && LongLegal(cfg, x, next == None) && (x.arg.NextWord? ==> next == Some(x.arg.arg))
  {
    hide Meant;
    if '=' in text {
      var i := FirstAt(text, '=');
      x := LongText(text[..i], Equals(text[i + 1..]));
      assert text == text[..i] + "=" + text[i + 1..];
    } else {
      x := LongText(text, Nothing);
      if next.Some? && Known(cfg, x) && OptionOf(cfg, x).hasArg == RequiredArgument {
        var y := LongText(text, NextWord(next.value));
        SameOption(cfg, x, y);
        x := y;
      }
    }
  }

  lemma SameOption(cfg: Config, x: LongText, y: LongText)
    requires x.name == y.name && Known(cfg, x)
    ensures Known(cfg, y) && OptionOf(cfg, x) == OptionOf(cfg, y)
  {
    KnownFound(cfg, x);
    KnownFound(cfg, y);
    hide Known, OptionOf;
  }

  /** W with its long option in the same word, in the next one, or missing. */
  lemma PrefixFor(cfg: Config, rest: string, more: seq<string>) returns (tail: Tail)
    requires Declared(Letters(cfg.options), 'W', LongPrefix) && !(rest == "" && more != [] && more[0] == "")
    ensures tail != NoTail && tail.Text() == "W" + rest && |tail.Extra()| <= |more| && more[..|tail.Extra()|] == tail.Extra()
    ensures TailLegal(cfg, tail, |tail.Extra()| == |more|)
  {
    hide Declared, Letters, Known, OptionOf;
    assert rest == "" ==> "W" + rest == "W";
    if rest != "" {
      var x := LongFor(cfg, rest, At(more, 0));
      tail := WJoined(x);
      assert x.arg.NextWord? ==> more[..1] == [more[0]];
    } else if more == [] {
      tail := WMissing;
    } else {
      var x := LongFor(cfg, more[0], At(more, 1));
      tail := WNext(x);
      assert if x.arg.NextWord? then more[..2] == [more[0]] + [more[1]] else more[..1] == [more[0]] + [];
    }
  }

  /** How a word of short options goes on at a letter that is no flag. */
  lemma TailFor(cfg: Config, kind: Kind, p: string, more: seq<string>) returns (tail: Tail)
    requires p != "" && kind != Flag && Declared(Letters(cfg.options), p[0], kind)
    requires !(kind == LongPrefix && p[1..] == "" && more != [] && more[0] == "")
    ensures tail != NoTail && tail.Text() == p && |tail.Extra()| <= |more| && more[..|tail.Extra()|] == tail.Extra()
    ensures TailLegal(cfg, tail, |tail.Extra()| == |more|)
  {
    hide Declared, LongLegal, Letters;
    var c, rest := p[0], p[1..];
    assert p == [c] + rest;
    if kind == LongPrefix {
      PrefixIsW(cfg, c);
      tail := PrefixFor(cfg, rest, more);
    } else {
      if rest != "" {
        tail := Joined(c, rest);
      } else if kind == May || more == [] {
        tail := Bare(c);
      } else {
        tail := Separate(c, more[0]);
        assert more[..1] == [more[0]];
      }
    }
  }

  /** A word of short options as flags and a tail, unless it is ended by an empty long option. */
  lemma {:induction false} ClusterFor(cfg: Config, p: string, more: seq<string>) returns (flags: string, tail: Tail, ended: bool)
    ensures FlagsLegal(Letters(cfg.options), flags)
    ensures if ended then p == flags + "W" && Declared(Letters(cfg.options), 'W', LongPrefix) && more != [] && more[0] == ""
            else
              && p == flags + tail.Text() && |tail.Extra()| <= |more| && more[..|tail.Extra()|] == tail.Extra()
              && TailLegal(cfg, tail, |tail.Extra()| == |more|)
  {
    hide Letters, Declared, Unknown, FlagsLegal, TailLegal;
    flags, tail, ended := "", NoTail, false;
    NothingLegal(cfg);
    if p != "" {
      var kind := LetterKind(Letters(cfg.options), p[0]);
      if Unknown(Letters(cfg.options), p[0]) || kind == Flag {
        flags, tail, ended := ClusterFor(cfg, p[1..], more);
        MoreFlags(Letters(cfg.options), p, flags, tail.Text());
        MoreFlags(Letters(cfg.options), p, flags, "W");
        flags := [p[0]] + flags;
      } else if kind == LongPrefix && p[1..] == "" && more != [] && more[0] == "" {
        PrefixIsW(cfg, p[0]);
        assert p == "" + "W";
        ended := true;
      } else {
        tail := TailFor(cfg, kind, p, more);
        assert "" + tail.Text() == tail.Text();
      }
    }
  }

  lemma NothingLegal(cfg: Config)
    ensures FlagsLegal(Letters(cfg.options), "") && forall last :: TailLegal(cfg, NoTail, last)
  {
  }

  lemma MoreFlags(letters: string, p: string, flags: string, tail: string)
    requires p != "" && (Unknown(letters, p[0]) || Declared(letters, p[0], Flag)) && FlagsLegal(letters, flags)
    ensures FlagsLegal(letters, [p[0]] + flags) && (p[1..] == flags + tail ==> p == [p[0]] + flags + tail)
  {
    hide Declared, Unknown;
    assert p == [p[0]] + p[1..];
    assert [p[0]] + flags + tail == [p[0]] + (flags + tail);
  }

  lemma PrefixIsW(cfg: Config, c: char)
    requires Declared(Letters(cfg.options), c, LongPrefix)
    ensures c == 'W'
  {
    LetterFound(cfg, c, LongPrefix);
  }

  lemma ShortFor(cfg: Config, w: string, more: seq<string>) returns (cmd: Command, rest: Option<Rest>)
    requires !IsOperand(w) && w[1] != '-'
    ensures rest.Some? ==> RestLegal(cfg, rest.value) && rest.value.Words() == [w] + more
    ensures rest == None ==>
      var n := |cmd.Words()|; n <= 1 + |more| && cmd.Words() == ([w] + more)[..n] && CommandLegal(cfg, cmd, n == 1 + |more|)
  {
    hide TailLegal, FlagsLegal, Letters, Declared;
    var flags, tail, ended := ClusterFor(cfg, w[1..], more);
    assert w == "-" + w[1..];
    cmd, rest := Short(flags, tail), None;
    if ended {
      rest := Some(EndedByW(flags, more[1..]));
      assert "-" + flags + "W" == "-" + (flags + "W") && [w] + more == [w, ""] + more[1..];
      assert flags != "" ==> flags[0] == (flags + "W")[0];
    } else {
      assert "-" + flags + tail.Text() == "-" + (flags + tail.Text());
      assert ([w] + more)[..1 + |tail.Extra()|] == [w] + more[..|tail.Extra()|];
    }
  }

  /** The first command of a list of words, or all the rest of the line. */
  lemma CommandFor(cfg: Config, args: seq<string>) returns (cmd: Command, rest: Option<Rest>)
    requires args != []
    ensures rest.Some? ==> RestLegal(cfg, rest.value) && rest.value.Words() == args
    ensures rest == None ==>
      var n := |cmd.Words()|; n <= |args| && cmd.Words() == args[..n] && CommandLegal(cfg, cmd, n == |args|)
  {
    var w, more := args[0], args[1..];
    hide TailLegal, FlagsLegal, LongLegal, Letters, Declared;
    assert args == [w] + more;
    cmd, rest := Operand(w), None;
    if IsOperand(w) {
      if ModeOf(cfg) == StopFirst {
        rest := Some(Stopped(args));
        assert [] + args == args;
      }
    } else if w == "--" {
      rest := Some(Terminated(more));
    } else if w[1] == '-' {
      var x := LongFor(cfg, w[2..], At(more, 0));
      cmd := Long(x);
      assert w == "--" + w[2..];
      assert x.arg.NextWord? ==> args[..2] == [w] + [more[0]];
    } else {
      cmd, rest := ShortFor(cfg, w, more);
    }
  }

  /** Any words at all are what some legal line prints. */
  lemma {:induction false} EveryLine(cfg: Config, args: seq<string>) returns (line: Line)
    ensures Legal(cfg, line) && line.Words() == args
    decreases |args|
  {
    hide *;
    if args == [] {
      line := Line([], NoMore);
      NoCommands(cfg, NoMore);
      assert RestLegal(cfg, NoMore) by { NothingMore(cfg); }
    } else {
      var cmd, rest := CommandFor(cfg, args);
      if rest.Some? {
        line := Line([], rest.value);
        NoCommands(cfg, rest.value);
      } else {
        var n := |cmd.Words()|;
        var more := EveryLine(cfg, args[n..]);
        line := Line([cmd] + more.cmds, more.rest);
        assert line.cmds[1..] == more.cmds;
        assert args == args[..n] + args[n..];
        NoWords(cfg, more);
        OneMoreCommand(cfg, line);
      }
    }
  }

  lemma NothingMore(cfg: Config)
    ensures RestLegal(cfg, NoMore)
  {
  }

  /** Only the line without commands and rest prints no words. */
  lemma NoWords(cfg: Config, line: Line)
    requires Legal(cfg, line)
    ensures line.Words() == [] <==> line.cmds == [] && line.rest.NoMore?
  {
    hide CommandLegal, Command.Words;
  }

  /** What the caller is left with: the return values and arguments of the commands in order, and in nargv the
      program's name, the words of the options, then the words left over. */
  ghost predicate ToldOf(cfg: Config, line: Line, program: string, events: seq<Event>, nargv: seq<string>, optind: int) {
    && events == LineEvents(cfg, line) && nargv == [program] + LineTaken(cfg, line) + LineLeft(cfg, line)
    && optind == 1 + |LineTaken(cfg, line)|
  }

  /** `process_args`' loop of `getopt_long` calls, on any arguments: whatever legal line printed them, the
      caller is told exactly what its commands mean. There is always such a line (`EveryLine`). */
  method ReadLine(cfg: Config, nargv: array<string>) returns (events: seq<Event>, optind: int)
    requires 0 < nargv.Length && forall o :: o in cfg.longs ==> o.val != -1
    modifies nargv
    ensures forall line :: Legal(cfg, line) && line.Words() == old(nargv[1..]) ==>
      ToldOf(cfg, line, old(nargv[0]), events, nargv[..], optind)
  {
    ghost var args := nargv[..];
    assert args[1..] == nargv[1..] && [args[0]] == nargv[..1];
    events, optind := ScanAll(cfg, nargv);
    forall line | Legal(cfg, line) && line.Words() == args[1..]
      ensures ToldOf(cfg, line, args[0], events, nargv[..], optind)
    {
      LineScans(cfg, args, 1, line);
    }
  }
}
