/** `vita-mksfoex` from its command line to its file: the options as they are typed, and what a reader
    finds in the file. */
module Mksfoex {
  import opened Getopt
  import opened GetoptCommands
  import opened Sfo
  import opened SfoTable
  import opened SfoOptions
  import opened Wrappers
  import Strcmp
  import W = SfoWriter

  // ---- process_args ----

  const LONGS := [
    LongOption("dword", RequiredArgument, false, 'd' as int),
    LongOption("string", RequiredArgument, false, 's' as int),
    LongOption("empty", NoArgument, false, 'e' as int)
  ]

  function Tables(posix: bool): Config {
    Config("ed:s:", LONGS, posix)
  }

  datatype Arguments = Arguments(os: seq<Setting>, empty: bool, title: string, file: string)

  /** The options among the events, in order. An event of -d or -s has an argument. */
  function SettingsIn(es: seq<Event>): seq<Setting> {
    if es == [] then []
    else
      var before, e := SettingsIn(es[..|es| - 1]), es[|es| - 1];
      if e.ret == 'd' as int && e.arg.Some? then before + [NumberArg(e.arg.value)]
      else if e.ret == 's' as int && e.arg.Some? then before + [TextArg(e.arg.value)]
      else before
  }

  predicate EmptyIn(es: seq<Event>) {
    exists i :: 0 <= i < |es| && es[i].ret == 'e' as int
  }

  /** What is left of the command line: the title, unless -e was given, and the file. */
  function Operands(os: seq<Setting>, empty: bool, words: seq<string>): Option<Arguments> {
    if |words| < 1 then None
    else if empty then Some(Arguments(os, true, "", words[0]))
    else if |words| < 2 then None
    else Some(Arguments(os, false, words[0], words[1]))
  }

  /** `process_args`, but for entering the options in the table. */
  method ProcessArgs(nargv: array<string>, posix: bool) returns (r: Option<Arguments>)
    requires 0 < nargv.Length
    modifies nargv
    ensures forall line {:trigger Legal(Tables(posix), line)} :: Legal(Tables(posix), line) && line.Words() == old(nargv[1..]) ==>
      var es := LineEvents(Tables(posix), line);
      r == Operands(SettingsIn(es), EmptyIn(es), LineLeft(Tables(posix), line))
  {
    ghost var args := nargv[1..];
    hide *;
    var cfg := Tables(posix);
    NoneIsMinusOne(posix);
    var events, optind := ReadLine(cfg, nargv);
    ghost var some := EveryLine(cfg, args);
    LeftIs(cfg, some, old(nargv[0]), events, nargv[..], optind);
    var os, empty := Collect(events);
    var argc := nargv.Length - optind;
    if argc < 1 {
      r := None;
    } else if empty {
      r := Some(Arguments(os, true, "", nargv[optind]));
    } else if argc < 2 {
      r := None;
    } else {
      r := Some(Arguments(os, false, nargv[optind], nargv[optind + 1]));
    }
    OperandsAre(os, empty, nargv[..], optind);
    forall line | Legal(cfg, line) && line.Words() == args
      ensures r == Operands(SettingsIn(LineEvents(cfg, line)), EmptyIn(LineEvents(cfg, line)), LineLeft(cfg, line))
    {
      LeftIs(cfg, line, old(nargv[0]), events, nargv[..], optind);
    }
  }

  lemma NoneIsMinusOne(posix: bool)
    ensures forall o :: o in Tables(posix).longs ==> o.val != -1
  {
  }

  lemma LeftIs(cfg: Config, line: Line, program: string, events: seq<Event>, nargv: seq<string>, optind: int)
    requires ToldOf(cfg, line, program, events, nargv, optind)
    ensures events == LineEvents(cfg, line) && 1 <= optind <= |nargv| && nargv[optind..] == LineLeft(cfg, line)
  {
    hide LineEvents, LineTaken, LineLeft;
  }

  lemma OperandsAre(os: seq<Setting>, empty: bool, nargv: seq<string>, optind: int)
    requires 1 <= optind <= |nargv|
    ensures Operands(os, empty, nargv[optind..]) ==
      if |nargv| - optind < 1 then None
      else if empty then Some(Arguments(os, true, "", nargv[optind]))
      else if |nargv| - optind < 2 then None
      else Some(Arguments(os, false, nargv[optind], nargv[optind + 1]))
  {
  }

  /** The switch over the events. */
  method Collect(es: seq<Event>) returns (os: seq<Setting>, empty: bool)
    ensures os == SettingsIn(es) && empty == EmptyIn(es)
  {
    os, empty := [], false;
    for i := 0 to |es|
      invariant os == SettingsIn(es[..i]) && empty == EmptyIn(es[..i])
    {
      assert es[..i + 1][..i] == es[..i] && es[..i + 1][i] == es[i];
      assert EmptyIn(es[..i + 1]) == (EmptyIn(es[..i]) || es[i].ret == 'e' as int) by {
        EmptySnoc(es[..i], es[i]);
        assert es[..i] + [es[i]] == es[..i + 1];
      }
      if es[i].ret == 'e' as int {
        empty := true;
      } else if es[i].ret == 'd' as int && es[i].arg.Some? {
        os := os + [NumberArg(es[i].arg.value)];
      } else if es[i].ret == 's' as int && es[i].arg.Some? {
        os := os + [TextArg(es[i].arg.value)];
      }
    }
    assert es[..|es|] == es;
  }

  lemma EmptySnoc(es: seq<Event>, e: Event)
    ensures EmptyIn(es + [e]) <==> EmptyIn(es) || e.ret == 'e' as int
  {
    var all := es + [e];
    assert all[|es|] == e && forall i :: 0 <= i < |es| ==> all[i] == es[i];
  }

  // ---- command lines ----

  /** `-sA=b`, `-s A=b`, `--string=A=b` and `--string A=b`, the long name in full or abbreviated. */
  datatype Form = Joint | Apart | LongEquals(name: string) | LongApart(name: string)

  datatype Item = Valued(given: Given, form: Form) | ShortEmpty | LongEmpty(name: string) | Word(word: string)

  predicate Names(name: string, full: string) {
    name != "" && name <= full
  }

  function LetterOf(g: Given): char {
    if g.TextGiven? then 's' else 'd'
  }

  predicate Typable(posix: bool, x: Item) {
    match x
    case Valued(g, form) =>
      Sound(g) && ((form.LongEquals? || form.LongApart?) ==> Names(form.name, if g.TextGiven? then "string" else "dword"))
    case ShortEmpty => true
    case LongEmpty(name) => Names(name, "empty")
    case Word(w) => !posix && IsOperand(w)
  }

  function CommandOf(x: Item): Command {
    match x
    case Valued(g, Joint) => Short("", Tail.Joined(LetterOf(g), Typed(g).arg))
    case Valued(g, Apart) => Short("", Separate(LetterOf(g), Typed(g).arg))
    case Valued(g, LongEquals(name)) => Long(LongText(name, Equals(Typed(g).arg)))
    case Valued(g, LongApart(name)) => Long(LongText(name, NextWord(Typed(g).arg)))
    case ShortEmpty => Short("e", NoTail)
    case LongEmpty(name) => Long(LongText(name, Nothing))
    case Word(w) => Operand(w)
  }

  function CommandsOf(xs: seq<Item>): seq<Command> {
    seq(|xs|, i requires 0 <= i < |xs| => CommandOf(xs[i]))
  }

  function GivenIn(xs: seq<Item>): seq<Given> {
    if xs == [] then [] else (if xs[0].Valued? then [xs[0].given] else []) + GivenIn(xs[1..])
  }

  function WordsIn(xs: seq<Item>): seq<string> {
    if xs == [] then [] else (if xs[0].Word? then [xs[0].word] else []) + WordsIn(xs[1..])
  }

  predicate EmptyAmong(xs: seq<Item>) {
    exists i :: 0 <= i < |xs| && (xs[i].ShortEmpty? || xs[i].LongEmpty?)
  }

  ghost predicate AllTypable(posix: bool, xs: seq<Item>, rest: Rest) {
    (forall i :: 0 <= i < |xs| ==> Typable(posix, xs[i])) && !rest.EndedByW? && RestLegal(Tables(posix), rest)
  }

  function ItemEvents(x: Item): seq<Event> {
    match x
    case Valued(g, _) => [Event(LetterOf(g) as int, Some(Typed(g).arg))]
    case Word(_) => []
    case _ => [Event('e' as int, None)]
  }

  // ---- the tables ----

  lemma DeclaredHere(posix: bool)
    ensures var l := Letters(Tables(posix).options); Declared(l, 's', Needs) && Declared(l, 'd', Needs) && Declared(l, 'e', Flag)
    ensures ModeOf(Tables(posix)) == if posix then StopFirst else Permute
  {
    var l := "ed:s:";
    assert l[1..][0] == 'd' && !(":" <= l[1..]);
    assert l[0] == 'e' && l[..0] == "" && KindAt(l, 0) == Flag;
    assert l[2..][0] == ':' && l[2..][1] == 's' && ":" <= l[2..] && !("::" <= l[2..]);
    assert l[1] == 'd' && l[..1] == "e" && KindAt(l, 1) == Needs;
    assert l[4..] == ":" && !("::" <= l[4..]);
    assert l[3] == 's' && l[..3] == "ed:" && KindAt(l, 3) == Needs;
  }

  lemma NotEmptyUnknown(posix: bool)
    ensures !Unknown(Letters(Tables(posix).options), 'e')
  {
    assert "ed:s:"[0] == 'e';
  }

  /** A long name in full or abbreviated means its option: the three start with different letters. */
  lemma LongMeant(posix: bool, x: LongText, i: nat)
    requires i < 3 && Names(x.name, LONGS[i].name)
    ensures Known(Tables(posix), x) && OptionOf(Tables(posix), x) == LONGS[i]
  {
    var name := x.name;
    assert LONGS[0].name[0] == 'd' && LONGS[1].name[0] == 's' && LONGS[2].name[0] == 'e';
    assert name[0] == LONGS[i].name[0];
    forall j: int | 0 <= j < 3 && j != i
      ensures !(name <= LONGS[j].name)
    {
    }
    assert Meant(LONGS, name, i);
    assert forall e: int :: Meant(LONGS, name, e) ==> e == i;
  }

  lemma NoEquals(name: string, full: string)
    requires Names(name, full) && '=' !in full
    ensures '=' !in name
  {
    assert forall i :: 0 <= i < |name| ==> name[i] == full[i];
  }

  lemma FullNames()
    ensures '=' !in "string" && '=' !in "dword" && '=' !in "empty"
  {
  }

  // ---- a command line and its file ----

  lemma ItemMeans(posix: bool, x: Item, last: bool)
    requires Typable(posix, x)
    ensures CommandLegal(Tables(posix), CommandOf(x), last) && CommandEvents(Tables(posix), CommandOf(x)) == ItemEvents(x)
    ensures IsLeft(Tables(posix), CommandOf(x)) <==> x.Word?
  {
    hide Declared, Known, OptionOf, Typed, Sound, Letters;
    var cfg := Tables(posix);
    DeclaredHere(posix);
    NotEmptyUnknown(posix);
    FullNames();
    match x {
      case Valued(g, form) =>
        var arg, full := Typed(g).arg, if g.TextGiven? then "string" else "dword";
        HasEquals(g);
        if form.LongEquals? || form.LongApart? {
          NoEquals(form.name, full);
          LongMeant(posix, CommandOf(x).long, if g.TextGiven? then 1 else 0);
        } else {
          assert [] + CommandEvents(cfg, CommandOf(x)) == CommandEvents(cfg, CommandOf(x));
        }
      case ShortEmpty =>
      case LongEmpty(name) =>
        NoEquals(name, "empty");
        LongMeant(posix, CommandOf(x).long, 2);
      case Word(w) =>
    }
  }

  lemma HasEquals(g: Given)
    ensures Typed(g).arg != ""
  {
    hide Numeral;
  }

  lemma {:induction false} SettingsAppend(a: seq<Event>, b: seq<Event>)
    ensures SettingsIn(a + b) == SettingsIn(a) + SettingsIn(b)
    decreases |b|
  {
    if b == [] {
      assert a + b == a && SettingsIn(a) + SettingsIn(b) == SettingsIn(a);
    } else {
      var n, all := |b| - 1, a + b;
      assert all[..|all| - 1] == a + b[..n] && all[|all| - 1] == b[n];
      SettingsAppend(a, b[..n]);
    }
  }

  lemma EmptyAppend(a: seq<Event>, b: seq<Event>)
    ensures EmptyIn(a + b) <==> EmptyIn(a) || EmptyIn(b)
  {
    var all := a + b;
    assert forall i :: 0 <= i < |a| ==> all[i] == a[i];
    assert forall i :: 0 <= i < |b| ==> all[|a| + i] == b[i];
    assert forall i :: |a| <= i < |all| ==> all[i] == b[i - |a|];
  }

  lemma ItemSettings(x: Item)
    ensures SettingsIn(ItemEvents(x)) == (if x.Valued? then [Typed(x.given)] else [])
    ensures EmptyIn(ItemEvents(x)) <==> x.ShortEmpty? || x.LongEmpty?
  {
    hide Typed;
    var es := ItemEvents(x);
    assert |es| == 1 ==> es[..0] == [];
    if x.Valued? {
      TypedIs(x.given);
    } else if !x.Word? {
      assert es[0].ret == 'e' as int;
    }
  }

  lemma FirstGiven(xs: seq<Item>)
    requires xs != []
    ensures AllTyped(GivenIn(xs)) == (if xs[0].Valued? then [Typed(xs[0].given)] else []) + AllTyped(GivenIn(xs[1..]))
  {
    hide Typed;
  }

  lemma FirstEmpty(xs: seq<Item>)
    requires xs != []
    ensures EmptyAmong(xs) <==> xs[0].ShortEmpty? || xs[0].LongEmpty? || EmptyAmong(xs[1..])
  {
    var more := xs[1..];
    assert forall i :: 0 <= i < |more| ==> xs[i + 1] == more[i];
    assert forall i :: 1 <= i < |xs| ==> xs[i] == more[i - 1];
  }

  lemma TypedIs(g: Given)
    ensures Typed(g) == if g.TextGiven? then TextArg(Typed(g).arg) else NumberArg(Typed(g).arg)
  {
  }

  /** What a line of these items means. */
  lemma {:induction false} ItemsMean(posix: bool, xs: seq<Item>, rest: Rest)
    requires AllTypable(posix, xs, rest)
    ensures var cfg, line := Tables(posix), Line(CommandsOf(xs), rest);
      && Legal(cfg, line) && LineLeft(cfg, line) == WordsIn(xs) + rest.Left()
      && SettingsIn(LineEvents(cfg, line)) == AllTyped(GivenIn(xs)) && EmptyIn(LineEvents(cfg, line)) == EmptyAmong(xs)
    decreases |xs|
  {
    hide AllTyped, GivenIn, EmptyAmong, CommandLegal, CommandEvents, CommandOf, Legal, LineEvents, LineLeft, LineTaken,
      SettingsIn, EmptyIn, ItemEvents, Typable, RestLegal, IsLeft, Tables, Typed, Command.Words, Line.Words, Rest.Words, Rest.Left;
    var cfg, line := Tables(posix), Line(CommandsOf(xs), rest);
    if xs == [] {
      NoCommands(cfg, rest);
      NoEvents();
      assert [] + rest.Left() == rest.Left();
      NoItems();
      assert CommandsOf(xs) == [];
    } else {
      var more := Line(CommandsOf(xs[1..]), rest);
      assert CommandsOf(xs)[1..] == CommandsOf(xs[1..]) && CommandsOf(xs)[0] == CommandOf(xs[0]);
      assert Typable(posix, xs[0]) && forall i :: 0 <= i < |xs[1..]| ==> xs[1..][i] == xs[i + 1];
      ItemMeans(posix, xs[0], |line.cmds| == 1 && line.rest.NoMore?);
      ItemsMean(posix, xs[1..], rest);
      OneMoreCommand(cfg, line);
      SettingsAppend(ItemEvents(xs[0]), LineEvents(cfg, more));
      EmptyAppend(ItemEvents(xs[0]), LineEvents(cfg, more));
      ItemSettings(xs[0]);
      FirstGiven(xs);
      FirstEmpty(xs);
      LeftWord(xs, rest.Left());
      WordIs(xs[0]);
    }
  }

  lemma NoItems()
    ensures AllTyped(GivenIn([])) == [] && !EmptyAmong([])
  {
  }

  lemma NoEvents()
    ensures SettingsIn([]) == [] && !EmptyIn([])
  {
  }

  lemma LeftWord(xs: seq<Item>, left: seq<string>)
    requires xs != []
    ensures WordsIn(xs) + left == (if xs[0].Word? then [xs[0].word] else []) + (WordsIn(xs[1..]) + left)
  {
  }

  lemma WordIs(x: Item)
    ensures x.Word? ==> CommandOf(x).Words() == [x.word]
  {
  }

  // ---- the whole run ----

  function OperandsOf(xs: seq<Item>, rest: Rest): seq<string> {
    WordsIn(xs) + rest.Left()
  }

  function TitleOf(xs: seq<Item>, rest: Rest): string {
    var words := OperandsOf(xs, rest);
    if EmptyAmong(xs) || words == [] then "" else words[0]
  }

  /** The entries that the run writes. */
  ghost function Table(xs: seq<Item>, rest: Rest): Option<seq<Entry>> {
    W.Written(AllTyped(GivenIn(xs)), EmptyAmong(xs), TitleOf(xs, rest))
  }

  /** The names that need an entry. */
  ghost function NamesNeeded(xs: seq<Item>): set<string> {
    NameSet(GivenIn(xs)) + (if EmptyAmong(xs) then {} else (set n | n in NamesOf(DEFAULTS)) + {"TITLE", "STITLE"})
  }

  /** Everything typed is bytes, and every text fits its slot or is continued behind it. */
  ghost predicate Regular(xs: seq<Item>, rest: Rest) {
    AllCStrings(GivenIn(xs)) && CString(TitleOf(xs, rest))
    && (Table(xs, rest).Some? ==> forall i :: 0 <= i < |Table(xs, rest).value| ==> Holds(Table(xs, rest).value, i))
  }

  /** A reader finds the names in order, and of each name what was typed last, else the default, else the title. */
  ghost predicate Says(file: string, xs: seq<Item>, rest: Rest) {
    var d := ReadSfo(file);
    d.Some? && (forall i, j :: 0 <= i < j < |d.value| ==> Strcmp.Less(d.value[i].0, d.value[j].0))
    && forall name, v :: (name, v) in d.value <==> Said(GivenIn(xs), EmptyAmong(xs), TitleOf(xs, rest), name) == Some(v)
  }

  /** From the words typed to the file: the run fails exactly when the title or the file name is missing or the
      table is too small for the names, and otherwise writes to the file named last what was typed. */
  method Run(nargv: array<string>, posix: bool, ghost xs: seq<Item>, ghost rest: Rest) returns (r: Option<(string, string)>)
    requires 0 < nargv.Length && AllTypable(posix, xs, rest) && nargv[1..] == Line(CommandsOf(xs), rest).Words()
    requires var w := Table(xs, rest); w.Some? ==> |w.value| < MAX_OPTIONS && InBuffers(w.value)
    modifies nargv
    ensures var words, needed := OperandsOf(xs, rest), if EmptyAmong(xs) then 1 else 2;
      && (r.Some? <==> |words| >= needed && |NamesNeeded(xs)| <= MAX_OPTIONS)
      && (r.Some? ==> r.value.0 == words[needed - 1])
    ensures r.Some? && Regular(xs, rest) ==> Says(r.value.1, xs, rest)
  {
    hide *;
    ItemsMean(posix, xs, rest);
    var a := ProcessArgs(nargv, posix);
    ArgumentsAre(xs, rest, a);
    if a == None {
      return None;
    }
    TableIs(xs, rest);
    var ok, file := W.MakeSfo(a.value.os, a.value.empty, a.value.title);
    GivenSound(posix, xs, rest);
    RunAccepts(GivenIn(xs), EmptyAmong(xs), TitleOf(xs, rest));
    NeededIs(xs);
    if !ok {
      return None;
    }
    if Regular(xs, rest) {
      RunSays(posix, xs, rest, file);
    }
    r := Some((a.value.file, file));
  }

  lemma ArgumentsAre(xs: seq<Item>, rest: Rest, a: Option<Arguments>)
    requires a == Operands(AllTyped(GivenIn(xs)), EmptyAmong(xs), WordsIn(xs) + rest.Left())
    ensures var words, needed := OperandsOf(xs, rest), if EmptyAmong(xs) then 1 else 2;
      && (a.Some? <==> |words| >= needed)
      && (a.Some? ==> a.value == Arguments(AllTyped(GivenIn(xs)), EmptyAmong(xs), TitleOf(xs, rest), words[needed - 1]))
  {
    hide AllTyped, GivenIn, EmptyAmong, WordsIn;
  }

  lemma TableIs(xs: seq<Item>, rest: Rest)
    ensures Table(xs, rest) == W.Written(AllTyped(GivenIn(xs)), EmptyAmong(xs), TitleOf(xs, rest))
  {
    hide W.Written;
  }

  lemma NeededIs(xs: seq<Item>)
    ensures NamesNeeded(xs) == NameSet(GivenIn(xs)) + (if EmptyAmong(xs) then {} else (set n | n in NamesOf(DEFAULTS)) + {"TITLE", "STITLE"})
  {
    hide NameSet, EmptyAmong, NamesOf;
  }

  lemma {:induction false} GivenFrom(xs: seq<Item>, g: Given)
    requires g in GivenIn(xs)
    ensures exists i :: 0 <= i < |xs| && xs[i].Valued? && xs[i].given == g
  {
    if xs[0].Valued? && xs[0].given == g {
    } else {
      GivenFrom(xs[1..], g);
      var i :| 0 <= i < |xs[1..]| && xs[1..][i].Valued? && xs[1..][i].given == g;
      assert xs[i + 1] == xs[1..][i];
    }
  }

  lemma GivenSound(posix: bool, xs: seq<Item>, rest: Rest)
    requires AllTypable(posix, xs, rest)
    ensures AllSound(GivenIn(xs))
  {
    hide Sound, GivenIn, RestLegal;
    forall g | g in GivenIn(xs)
      ensures Sound(g)
    {
      GivenFrom(xs, g);
      var i :| 0 <= i < |xs| && xs[i].Valued? && xs[i].given == g;
      assert Typable(posix, xs[i]);
    }
  }

  lemma RunSays(posix: bool, xs: seq<Item>, rest: Rest, file: string)
    requires AllTypable(posix, xs, rest) && Regular(xs, rest)
    requires Table(xs, rest).Some? && InBuffers(Table(xs, rest).value) && file == File(Table(xs, rest).value)
    ensures Says(file, xs, rest)
  {
    hide GivenIn, EmptyAmong, TitleOf, W.Written, InBuffers, File, ReadSfo, Said, AllSound, AllCStrings, AllTyped, Holds, CString,
      AllTypable, Strcmp.Less;
    GivenSound(posix, xs, rest);
    var gs, empty, title := GivenIn(xs), EmptyAmong(xs), TitleOf(xs, rest);
    FileSays(gs, empty, title, "", Number(0));
    forall name, v
      ensures (name, v) in ReadSfo(file).value <==> Said(gs, empty, title, name) == Some(v)
    {
      FileSays(gs, empty, title, name, v);
    }
  }
}
