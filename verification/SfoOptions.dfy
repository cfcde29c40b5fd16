/** What an SFO file says, in terms of the options of the run: of each name, the last text or the last
    number given, as the first option of that name decides; else the default; else the title. */
module SfoOptions {
  import opened Sfo
  import opened SfoTable
  import opened SfoWriter
  import opened Strcmp
  import opened Wrappers
  import E = ExportYaml

  /** `-s name=text`, or `-d name=number` with the number in octal, decimal or hexadecimal. */
  datatype Given = TextGiven(name: string, text: string) | NumberGiven(name: string, number: nat, base: nat)

  function Numeral(n: nat, base: nat): string {
    if base == 16 then E.HexToStr(n) else if base == 8 then "0" + E.Digits(n, 8) else E.Digits(n, 10)
  }

  function Typed(g: Given): Setting {
    match g
    case TextGiven(name, text) => TextArg(name + "=" + text)
    case NumberGiven(name, number, base) => NumberArg(name + "=" + Numeral(number, base))
  }

  function AllTyped(gs: seq<Given>): seq<Setting> {
    seq(|gs|, i requires 0 <= i < |gs| => Typed(gs[i]))
  }

  predicate Sound(g: Given) {
    '=' !in g.name && (g.NumberGiven? ==> g.number < 0x1_0000_0000 && g.base in {8, 10, 16})
  }

  ghost predicate AllSound(gs: seq<Given>) {
    forall g :: g in gs ==> Sound(g)
  }

  // ---- what was given under a name ----

  /** The first option of a name decides its kind. */
  function FirstKind(gs: seq<Given>, name: string): Option<nat> {
    if gs == [] then None
    else if gs[0].name == name then Some(if gs[0].TextGiven? then STR else VAL)
    else FirstKind(gs[1..], name)
  }

  function LastText(gs: seq<Given>, name: string): Option<string> {
    if gs == [] then None else
      var before, g := gs[..|gs| - 1], gs[|gs| - 1];
      if g.TextGiven? && g.name == name then Some(g.text) else LastText(before, name)
  }

  function LastNumber(gs: seq<Given>, name: string): nat {
    if gs == [] then 0 else
      var before, g := gs[..|gs| - 1], gs[|gs| - 1];
      if g.NumberGiven? && g.name == name then g.number else LastNumber(before, name)
  }

  function Entered(gs: seq<Given>, name: string): Option<Entry> {
    var k := FirstKind(gs, name);
    if k.None? then None else Some(Entry(name, k.value, LastNumber(gs, name), LastText(gs, name)))
  }

  lemma {:induction false} FirstKindSnoc(gs: seq<Given>, g: Given, name: string)
    ensures FirstKind(gs + [g], name) ==
      if FirstKind(gs, name).Some? then FirstKind(gs, name)
      else if g.name == name then Some(if g.TextGiven? then STR else VAL) else None
  {
    var all := gs + [g];
    if gs == [] {
      assert all[1..] == [];
    } else {
      assert all[1..] == gs[1..] + [g];
      FirstKindSnoc(gs[1..], g, name);
    }
  }

  lemma {:induction false} NothingGiven(gs: seq<Given>, name: string)
    ensures FirstKind(gs, name).None? <==> forall g :: g in gs ==> g.name != name
    ensures FirstKind(gs, name).None? ==> LastText(gs, name).None? && LastNumber(gs, name) == 0
  {
    if gs != [] {
      var before, g := gs[..|gs| - 1], gs[|gs| - 1];
      assert gs == before + [g];
      NothingGiven(before, name);
      FirstKindSnoc(before, g, name);
    }
  }

  // ---- the table of a run ----

  lemma NumeralReads(n: nat, base: nat)
    requires n < 0x1_0000_0000 && base in {8, 10, 16}
    ensures E.StrToUl(Numeral(n, base)) == (n, true)
  {
    if base == 16 {
      E.HexReads(n);
    } else if base == 8 {
      E.OctalReads(n);
    } else {
      E.DecimalReads(n);
    }
  }

  function Apply(es: seq<Entry>, g: Given): seq<Entry> {
    if g.TextGiven? then WithText(es, g.name, g.text) else WithNumber(es, g.name, g.number)
  }

  lemma TypedApplies(es: seq<Entry>, g: Given)
    requires Sound(g)
    ensures WithSetting(es, Typed(g)) == Some(Apply(es, g))
  {
    hide E.StrToUl, Numeral, SplitEquals, WithText, WithNumber;
    match g
    case TextGiven(name, text) =>
      SplitsAtFirst(name, text);
    case NumberGiven(name, number, base) =>
      SplitsAtFirst(name, Numeral(number, base));
      NumeralReads(number, base);
  }

  /** One option changes the entry of its name, or makes it, and no other. */
  lemma Applied(es: seq<Entry>, g: Given, name: string)
    requires Unique(es)
    ensures var r, was := Apply(es, g), At(es, name);
      && Unique(r) && NamesOf(r) == (if g.name in NamesOf(es) then NamesOf(es) else NamesOf(es) + [g.name])
      && At(r, name) ==
        if name != g.name then was
        else if g.TextGiven? then Some(if was.Some? then was.value.(data := Some(g.text)) else Entry(name, STR, 0, Some(g.text)))
        else Some(if was.Some? then was.value.(value := g.number) else Entry(name, VAL, g.number, None))
  {
    var r, i := Apply(es, g), Find(es, g.name);
    if g.TextGiven? {
      TextKeeps(es, g.name, g.text);
    } else {
      NumberKeeps(es, g.name, g.number);
    }
    FindIs(r, g.name, i);
  }

  lemma {:induction false} SettingsSnoc(es: seq<Entry>, os: seq<Setting>, o: Setting)
    ensures var r := Settings(es, os);
      Settings(es, os + [o]) ==
        if r.None? then None
        else
          var s := WithSetting(r.value, o);
          if s.None? || |s.value| > MAX_OPTIONS then None else s
    decreases os
  {
    hide WithSetting;
    var all := os + [o];
    if os == [] {
      assert all[0] == o && all[1..] == [];
    } else {
      assert all[0] == os[0] && all[1..] == os[1..] + [o];
      var s := WithSetting(es, os[0]);
      if s.Some? {
        SettingsSnoc(s.value, os[1..], o);
      }
    }
  }

  function NameSet(gs: seq<Given>): set<string> {
    set g | g in gs :: g.name
  }

  lemma {:induction false} Distinct(es: seq<Entry>)
    requires Unique(es)
    ensures |set n | n in NamesOf(es)| == |es|
  {
    var all := set n | n in NamesOf(es);
    if es == [] {
      assert all == {};
    } else {
      var before, e := es[..|es| - 1], es[|es| - 1];
      Distinct(before);
      assert NamesOf(es) == NamesOf(before) + [e.name];
      assert all == (set n | n in NamesOf(before)) + {e.name};
    }
  }

  lemma EnteredSnoc(gs: seq<Given>, g: Given, name: string)
    ensures var r, was := Entered(gs + [g], name), Entered(gs, name);
      r ==
        if name != g.name then was
        else if g.TextGiven? then Some(if was.Some? then was.value.(data := Some(g.text)) else Entry(name, STR, 0, Some(g.text)))
        else Some(if was.Some? then was.value.(value := g.number) else Entry(name, VAL, g.number, None))
  {
    FirstKindSnoc(gs, g, name);
    NothingGiven(gs, name);
    assert (gs + [g])[..|gs|] == gs && (gs + [g])[|gs|] == g;
  }

  lemma NameSetSnoc(gs: seq<Given>, g: Given)
    ensures NameSet(gs + [g]) == NameSet(gs) + {g.name} && |NameSet(gs)| <= |NameSet(gs + [g])|
  {
    assert NameSet(gs + [g]) == NameSet(gs) + {g.name};
    if g.name in NameSet(gs) {
      assert NameSet(gs) + {g.name} == NameSet(gs);
    }
  }

  /** The table holds what was given, under every name and no other. */
  ghost predicate Holding(es: seq<Entry>, gs: seq<Given>, name: string) {
    Unique(es) && At(es, name) == Entered(gs, name) && (set n | n in NamesOf(es)) == NameSet(gs)
  }

  lemma StillHolding(es: seq<Entry>, gs: seq<Given>, g: Given, name: string)
    requires Holding(es, gs, name)
    ensures Holding(Apply(es, g), gs + [g], name) && |Apply(es, g)| == |NameSet(gs + [g])|
  {
    hide At, Entered, NameSet, Apply, Unique;
    Applied(es, g, name);
    EnteredSnoc(gs, g, name);
    NameSetSnoc(gs, g);
    var r := Apply(es, g);
    assert (set n | n in NamesOf(r)) == (set n | n in NamesOf(es)) + {g.name};
    Distinct(r);
  }

  /** The options are accepted exactly when they name no more entries than the table has, and then the table
      has what was given under each name. */
  lemma {:induction false} GivenEntered(gs: seq<Given>, name: string)
    requires AllSound(gs)
    ensures var r := Settings([], AllTyped(gs));
      (r.Some? <==> |NameSet(gs)| <= MAX_OPTIONS) && (r.Some? ==> Holding(r.value, gs, name))
  {
    hide WithSetting, Typed, Apply, Sound, Settings, Holding, NameSet;
    if gs == [] {
      SettingsNone([], AllTyped(gs));
      NothingHeld(name);
    } else {
      var before, g := gs[..|gs| - 1], gs[|gs| - 1];
      assert g in gs && forall h :: h in before ==> h in gs;
      GivenEntered(before, name);
      assert gs == before + [g] && AllTyped(gs) == AllTyped(before) + [Typed(g)];
      SettingsSnoc([], AllTyped(before), Typed(g));
      NameSetSnoc(before, g);
      var r := Settings([], AllTyped(before));
      if r.Some? {
        TypedApplies(r.value, g);
        StillHolding(r.value, before, g, name);
      }
    }
  }

  lemma NothingHeld(name: string)
    ensures Holding([], [], name) && |NameSet([])| == 0
  {
    assert NameSet([]) == {} && (set n | n in NamesOf([])) == {};
  }

  /** An option without '=' is refused, whatever comes before and after it. */
  lemma {:induction false} NoEqualsRefused(es: seq<Entry>, os: seq<Setting>, i: nat)
    requires i < |os| && '=' !in os[i].arg
    ensures Settings(es, os) == None
    decreases os
  {
    if i == 0 {
      NothingToSplit(os[0].arg);
    } else {
      var s := WithSetting(es, os[0]);
      if s.Some? {
        NoEqualsRefused(s.value, os[1..], i - 1);
      }
    }
  }

  // ---- the file of a run ----

  ghost predicate AllCStrings(gs: seq<Given>) {
    forall g :: g in gs ==> CString(g.name) && (g.TextGiven? ==> CString(g.text))
  }

  /** What the file is to say of a name. */
  function Said(gs: seq<Given>, empty: bool, title: string, name: string): Option<Value> {
    var k, t := FirstKind(gs, name), LastText(gs, name);
    if k == Some(VAL) then Some(Number(LastNumber(gs, name)))
    else if k.Some? then if t.Some? then Some(Text(t.value)) else None
    else if empty then None
    else if At(DEFAULTS, name).Some? then Some(Meaning(At(DEFAULTS, name).value).1)
    else if name == "TITLE" || name == "STITLE" then Some(Text(title))
    else None
  }

  /** What was given is fit for the file. */
  lemma {:induction false} EnteredProper(gs: seq<Given>, name: string)
    requires AllSound(gs) && AllCStrings(gs)
    ensures LastNumber(gs, name) < 0x1_0000_0000 && (LastText(gs, name).Some? ==> CString(LastText(gs, name).value))
    ensures FirstKind(gs, name).Some? ==> CString(name) && FirstKind(gs, name).value in {STR, VAL}
    ensures FirstKind(gs, name) == Some(STR) ==> LastText(gs, name).Some?
  {
    hide CString;
    if gs != [] {
      var before, g := gs[..|gs| - 1], gs[|gs| - 1];
      assert g in gs && forall h :: h in before ==> h in gs;
      assert gs == before + [g];
      EnteredProper(before, name);
      FirstKindSnoc(before, g, name);
    }
  }

  lemma AtIs(es: seq<Entry>, e: Entry)
    requires Unique(es)
    ensures e in es <==> At(es, e.name) == Some(e)
  {
    if e in es {
      var i :| 0 <= i < |es| && es[i] == e;
      FindIs(es, e.name, i);
    }
  }

  predicate Plain(s: string) {
    forall i :: 0 <= i < |s| ==> '\0' < s[i] < 256 as char
  }

  lemma PlainIsCString(s: string)
    ensures Plain(s) ==> CString(s)
  {
  }

  lemma FirstNames()
    ensures Plain("APP_VER") && Plain("ATTRIBUTE") && Plain("ATTRIBUTE2") && Plain("ATTRIBUTE_MINOR")
    ensures Plain("CATEGORY") && Plain("CONTENT_ID") && Plain("GC_RO_SIZE")
  {
  }

  lemma LastNames()
    ensures Plain("GC_RW_SIZE") && Plain("PARENTAL_LEVEL") && Plain("PSP2_DISP_VER") && Plain("PSP2_SYSTEM_VER")
    ensures Plain("REGION_DENY") && Plain("SAVEDATA_MAX_SIZE") && Plain("TITLE_ID") && Plain("VERSION")
  {
  }

  lemma DefaultTexts()
    ensures Plain("01.00") && Plain("gd") && Plain("00.000") && Plain("ABCD99999") && Plain("HB0001-ABCD99999_00-0000000000000000")
  {
  }

  lemma DefaultProper(i: nat)
    requires i < |DEFAULTS|
    ensures Proper(DEFAULTS[i])
  {
    hide CString, Plain, Find;
    FirstNames();
    LastNames();
    DefaultTexts();
    var e := DEFAULTS[i];
    PlainIsCString(e.name);
    if e.data.Some? {
      PlainIsCString(e.data.value);
    }
  }

  lemma DefaultsAreProper(name: string)
    ensures At(DEFAULTS, name).Some? ==> Proper(At(DEFAULTS, name).value)
  {
    var i := Find(DEFAULTS, name);
    if i < |DEFAULTS| {
      DefaultProper(i);
    }
  }

  lemma TitlesAt(title: string, name: string)
    ensures At(Titles(title), name) ==
      if name == "TITLE" then Some(Entry("TITLE", STR, 0x80, Some(title)))
      else if name == "STITLE" then Some(Entry("STITLE", STR, 52, Some(title)))
      else None
  {
    var ts := Titles(title);
    assert ts[0].name == "TITLE" && ts[1].name == "STITLE" && |"TITLE"| != |"STITLE"|;
    FindIs(ts, name, if name == "TITLE" then 0 else if name == "STITLE" then 1 else 2);
  }

  /** The entry of a name in the table of the run says what the file is to say. */
  lemma FinalSays(gs: seq<Given>, empty: bool, title: string, name: string)
    requires AllSound(gs) && AllCStrings(gs) && CString(title) && |NameSet(gs)| <= MAX_OPTIONS
    ensures Settings([], AllTyped(gs)).Some?
    ensures var e := At(Final(Settings([], AllTyped(gs)).value, empty, title), name);
      && Unique(Final(Settings([], AllTyped(gs)).value, empty, title))
      && Said(gs, empty, title, name) == (if e.None? then None else Some(Meaning(e.value).1))
      && (e.Some? ==> Proper(e.value))
  {
    hide At, Settings, NameSet, FirstKind, LastText, LastNumber, CString, WithDefaults, AllTyped, Unique;
    GivenEntered(gs, name);
    var given := Settings([], AllTyped(gs)).value;
    EnteredProper(gs, name);
    NothingGiven(gs, name);
    if !empty {
      FinalEntry(given, title, name);
      TitlesAt(title, name);
      DefaultsAreProper(name);
      TitlesProper(title);
    }
  }

  lemma TitlesProper(title: string)
    requires CString(title)
    ensures CString("TITLE") && CString("STITLE")
  {
  }

  /** A reader of the file finds the names in ascending order, and of each name what the options, the
      defaults and the title say; whenever every text of the table fits its slot or is continued behind it. */
  lemma FileSays(gs: seq<Given>, empty: bool, title: string, name: string, v: Value)
    requires AllSound(gs) && AllCStrings(gs) && CString(title)
    requires var w := Written(AllTyped(gs), empty, title);
      w.Some? && InBuffers(w.value) && forall i :: 0 <= i < |w.value| ==> Holds(w.value, i)
    ensures var r := ReadSfo(File(Written(AllTyped(gs), empty, title).value));
      && r.Some? && (forall i, j :: 0 <= i < j < |r.value| ==> Less(r.value[i].0, r.value[j].0))
      && ((name, v) in r.value <==> Said(gs, empty, title, name) == Some(v))
  {
    hide At, Settings, CString, WithDefaults, AllTyped, Said, File, ReadSfo, InBuffers, Holds, Proper, Less, Final, SlotsHold;
    GivenEntered(gs, name);
    var given := Settings([], AllTyped(gs)).value;
    var es, w := Final(given, empty, title), Written(AllTyped(gs), empty, title).value;
    FinalSays(gs, empty, title, name);
    forall e | e in es
      ensures Proper(e)
    {
      FinalSays(gs, empty, title, e.name);
      AtIs(es, e);
    }
    RunReadsBack(AllTyped(gs), empty, title);
    Spoken(es, w, name, v);
  }

  lemma Spoken(es: seq<Entry>, w: seq<Entry>, name: string, v: Value)
    requires Unique(es) && multiset(w) == multiset(es) && Ascending(w)
    ensures forall i, j :: 0 <= i < j < |w| ==> Less(Meanings(w)[i].0, Meanings(w)[j].0)
    ensures (name, v) in Meanings(w) <==> At(es, name).Some? && Meaning(At(es, name).value).1 == v
  {
    hide At, Less, Unique;
    var e := At(es, name);
    if (name, v) in Meanings(w) {
      var i :| 0 <= i < |w| && Meanings(w)[i] == (name, v);
      assert w[i] in multiset(w) && w[i] in es;
      AtIs(es, w[i]);
    }
    AtNamed(es, name);
    if e.Some? {
      AtIs(es, e.value);
      assert e.value in multiset(es) && e.value in w;
      var i :| 0 <= i < |w| && w[i] == e.value;
      assert Meanings(w)[i] == Meaning(e.value);
    }
  }

  lemma AtNamed(es: seq<Entry>, name: string)
    ensures At(es, name).Some? ==> At(es, name).value.name == name
  {
  }

  lemma DefaultAt(name: string, i: nat)
    requires i < |DEFAULTS| && DEFAULTS[i].name == name && forall j :: 0 <= j < i ==> DEFAULTS[j].name != name
    ensures At(DEFAULTS, name) == Some(DEFAULTS[i])
  {
    FindIs(DEFAULTS, name, i);
  }

  lemma PromisedAt()
    ensures At(DEFAULTS, "APP_VER") == Some(Entry("APP_VER", STR, 0, Some("01.00")))
    ensures At(DEFAULTS, "ATTRIBUTE") == Some(Entry("ATTRIBUTE", VAL, 0x8000, None))
    ensures At(DEFAULTS, "ATTRIBUTE2") == Some(Entry("ATTRIBUTE2", VAL, 0xC, None))
    ensures At(DEFAULTS, "CONTENT_ID") == Some(Entry("CONTENT_ID", STR, 48, Some("HB0001-ABCD99999_00-0000000000000000")))
  {
    hide At, Find;
    DefaultAt("APP_VER", 0);
    DefaultAt("ATTRIBUTE", 1);
    DefaultAt("ATTRIBUTE2", 2);
    DefaultAt("CONTENT_ID", 5);
  }

  lemma LatePromisedAt()
    ensures At(DEFAULTS, "SAVEDATA_MAX_SIZE") == Some(Entry("SAVEDATA_MAX_SIZE", VAL, 1048576, None))
    ensures At(DEFAULTS, "VERSION") == Some(Entry("VERSION", STR, 0, Some("01.00")))
  {
    hide At, Find;
    DefaultAt("SAVEDATA_MAX_SIZE", 12);
    DefaultAt("VERSION", 14);
  }

  lemma NoTitlesAt()
    ensures At(DEFAULTS, "TITLE") == None && At(DEFAULTS, "STITLE") == None
  {
    FindIs(DEFAULTS, "TITLE", 15);
    FindIs(DEFAULTS, "STITLE", 15);
  }

  /** The values that are promised for names that no option gives. */
  lemma DefaultsPromised(gs: seq<Given>, title: string, name: string)
    requires forall g :: g in gs ==> g.name != name
    ensures name in {"APP_VER", "VERSION"} ==> Said(gs, false, title, name) == Some(Text("01.00"))
    ensures name == "ATTRIBUTE" ==> Said(gs, false, title, name) == Some(Number(0x8000))
    ensures name == "ATTRIBUTE2" ==> Said(gs, false, title, name) == Some(Number(0xC))
    ensures name == "CONTENT_ID" ==> Said(gs, false, title, name) == Some(Text("HB0001-ABCD99999_00-0000000000000000"))
    ensures name == "SAVEDATA_MAX_SIZE" ==> Said(gs, false, title, name) == Some(Number(1048576))
    ensures name in {"TITLE", "STITLE"} ==> Said(gs, false, title, name) == Some(Text(title))
  {
    hide At, FirstKind;
    NothingGiven(gs, name);
    PromisedAt();
    LatePromisedAt();
    NoTitlesAt();
  }

  /** The options are accepted exactly when the names given, and with them those of the defaults and the
      titles, are no more than the table has room for. */
  lemma RunAccepts(gs: seq<Given>, empty: bool, title: string)
    requires AllSound(gs)
    ensures Written(AllTyped(gs), empty, title).Some? <==>
      |NameSet(gs) + (if empty then {} else (set n | n in NamesOf(DEFAULTS)) + {"TITLE", "STITLE"})| <= MAX_OPTIONS
  {
    hide At, Settings, WithDefaults, AllTyped, Unique, NameSet, NamesOf;
    GivenEntered(gs, "");
    if |NameSet(gs)| <= MAX_OPTIONS {
      var given := Settings([], AllTyped(gs)).value;
      Distinct(given);
      if !empty {
        var half := WithDefaults(given, DEFAULTS);
        DefaultsUnique(given, DEFAULTS);
        DefaultsUnique(half, Titles(title));
        DefaultNames(given, DEFAULTS);
        DefaultNames(half, Titles(title));
        TitleNames(title);
        Distinct(WithDefaults(half, Titles(title)));
        assert NameSet(gs) + ((set n | n in NamesOf(DEFAULTS)) + {"TITLE", "STITLE"})
            == NameSet(gs) + (set n | n in NamesOf(DEFAULTS)) + {"TITLE", "STITLE"};
      } else {
        assert NameSet(gs) + {} == NameSet(gs);
      }
    } else {
      More(NameSet(gs), if empty then {} else (set n | n in NamesOf(DEFAULTS)) + {"TITLE", "STITLE"});
    }
  }

  lemma {:induction false} More(a: set<string>, b: set<string>)
    ensures |a| <= |a + b|
    decreases |b|
  {
    if b == {} {
      assert a + b == a;
    } else {
      var x :| x in b;
      var c := a + (b - {x});
      More(a, b - {x});
      assert a + b == if x in c then c else c + {x};
    }
  }

  lemma TitleNames(title: string)
    ensures (set n | n in NamesOf(Titles(title))) == {"TITLE", "STITLE"}
  {
    assert NamesOf(Titles(title)) == ["TITLE", "STITLE"];
  }

  lemma {:induction false} DefaultNames(es: seq<Entry>, ds: seq<Entry>)
    ensures (set n | n in NamesOf(WithDefaults(es, ds))) == (set n | n in NamesOf(es)) + (set n | n in NamesOf(ds))
    decreases ds
  {
    if ds != [] {
      DefaultNames(WithDefault(es, ds[0]), ds[1..]);
      DefaultName(es, ds[0]);
      assert NamesOf(ds) == [ds[0].name] + NamesOf(ds[1..]);
    }
  }

  lemma DefaultName(es: seq<Entry>, e: Entry)
    ensures (set n | n in NamesOf(WithDefault(es, e))) == (set n | n in NamesOf(es)) + {e.name}
  {
    Present(es, e.name);
    assert NamesOf(es + [e]) == NamesOf(es) + [e.name];
  }
}
