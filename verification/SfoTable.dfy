/** The table of vita-mksfoex.c: options and defaults are entered by name, the table is sorted, and
    the file is laid out from it in three buffers. */
module SfoTable {
  import opened Sfo
  import opened Strcmp
  import opened Wrappers
  import E = ExportYaml

  const MAX_OPTIONS := 256

  // ---- the entries of the table ----

  function NamesOf(es: seq<Entry>): seq<string> {
    seq(|es|, i requires 0 <= i < |es| => es[i].name)
  }

  ghost predicate Unique(es: seq<Entry>) {
    forall i, j :: 0 <= i < j < |es| ==> es[i].name != es[j].name
  }

  /** Index of the first entry of a name, or one past the end. */
  function Find(es: seq<Entry>, name: string): (i: nat)
    ensures i <= |es| && (i < |es| ==> es[i].name == name)
    ensures forall j :: 0 <= j < i ==> es[j].name != name
  {
    if es == [] || es[0].name == name then 0 else 1 + Find(es[1..], name)
  }

  lemma FindIs(es: seq<Entry>, name: string, i: nat)
    requires i <= |es| && (i < |es| ==> es[i].name == name) && forall j :: 0 <= j < i ==> es[j].name != name
    ensures Find(es, name) == i
  {
    var k := Find(es, name);
    assert !(k < i) && !(i < k);
  }

  /** `-s`: the text of an entry that is there, or a new text. */
  function WithText(es: seq<Entry>, name: string, text: string): seq<Entry> {
    var i := Find(es, name);
    if i < |es| then es[i := es[i].(data := Some(text))] else es + [Entry(name, STR, 0, Some(text))]
  }

  /** `-d`: the number of an entry that is there, even of a text, or a new number. */
  function WithNumber(es: seq<Entry>, name: string, value: nat): seq<Entry> {
    var i := Find(es, name);
    if i < |es| then es[i := es[i].(value := value)] else es + [Entry(name, VAL, value, None)]
  }

  /** An entry that does not displace one of its name. */
  function WithDefault(es: seq<Entry>, e: Entry): seq<Entry> {
    if Find(es, e.name) < |es| then es else es + [e]
  }

  function WithDefaults(es: seq<Entry>, ds: seq<Entry>): seq<Entry>
    decreases ds
  {
    if ds == [] then es else WithDefaults(WithDefault(es, ds[0]), ds[1..])
  }

  /** The name before the first '=' and the text after it. */
  function SplitEquals(s: string): Option<(string, string)> {
    if s == "" then None
    else if s[0] == '=' then Some(("", s[1..]))
    else
      var r := SplitEquals(s[1..]);
      if r.None? then None else Some(([s[0]] + r.value.0, r.value.1))
  }

  /** A text is split at its first '='. */
  lemma {:induction false} SplitsAtFirst(name: string, text: string)
    requires '=' !in name
    ensures SplitEquals(name + "=" + text) == Some((name, text))
  {
    if name == "" {
      assert ("" + "=" + text)[1..] == text;
    } else {
      assert (name + "=" + text)[1..] == name[1..] + "=" + text;
      SplitsAtFirst(name[1..], text);
      assert [name[0]] + name[1..] == name;
    }
  }

  lemma {:induction false} NothingToSplit(s: string)
    requires '=' !in s
    ensures SplitEquals(s) == None
  {
    if s != "" {
      NothingToSplit(s[1..]);
    }
  }

  /** `g_defaults`, without the two titles. */
  const DEFAULTS := [
    Entry("APP_VER", STR, 0, Some("01.00")),
    Entry("ATTRIBUTE", VAL, 0x8000, None),
    Entry("ATTRIBUTE2", VAL, 0xC, None),
    Entry("ATTRIBUTE_MINOR", VAL, 0x10, None),
    Entry("CATEGORY", STR, 0, Some("gd")),
    Entry("CONTENT_ID", STR, 48, Some("HB0001-ABCD99999_00-0000000000000000")),
    Entry("GC_RO_SIZE", VAL, 0, None),
    Entry("GC_RW_SIZE", VAL, 0, None),
    Entry("PARENTAL_LEVEL", VAL, 0, None),
    Entry("PSP2_DISP_VER", STR, 0, Some("00.000")),
    Entry("PSP2_SYSTEM_VER", VAL, 0, None),
    Entry("REGION_DENY", VAL, 0, None),
    Entry("SAVEDATA_MAX_SIZE", VAL, 1048576, None),
    Entry("TITLE_ID", STR, 0, Some("ABCD99999")),
    Entry("VERSION", STR, 0, Some("01.00"))
  ]

  function Titles(title: string): seq<Entry> {
    [Entry("TITLE", STR, 0x80, Some(title)), Entry("STITLE", STR, 52, Some(title))]
  }

  datatype Setting = NumberArg(arg: string) | TextArg(arg: string)

  /** One option; None for an option without '='. */
  function WithSetting(es: seq<Entry>, o: Setting): Option<seq<Entry>> {
    var p := SplitEquals(o.arg);
    if p.None? then None
    else if o.NumberArg? then Some(WithNumber(es, p.value.0, E.StrToUl(p.value.1).0))
    else Some(WithText(es, p.value.0, p.value.1))
  }

  // ---- what the operations keep ----

  lemma TextKeeps(es: seq<Entry>, name: string, text: string)
    requires Unique(es)
    ensures var r := WithText(es, name, text);
      && Unique(r) && NamesOf(r) == (if name in NamesOf(es) then NamesOf(es) else NamesOf(es) + [name])
      && Find(r, name) < |r| && r[Find(r, name)].data == Some(text)
      && forall n :: n != name ==> At(r, n) == At(es, n)
  {
    var r, i := WithText(es, name, text), Find(es, name);
    Present(es, name);
    FindIs(r, name, i);
    forall n | n != name
      ensures At(r, n) == At(es, n)
    {
      Elsewhere(es, r, i, n);
    }
    assert i == |es| ==> NamesOf(r) == NamesOf(es) + [name];
    assert i < |es| ==> NamesOf(r) == NamesOf(es);
  }

  function At(es: seq<Entry>, name: string): Option<Entry> {
    var i := Find(es, name);
    if i < |es| then Some(es[i]) else None
  }

  lemma Present(es: seq<Entry>, name: string)
    ensures name in NamesOf(es) <==> Find(es, name) < |es|
  {
    var i := Find(es, name);
    if i < |es| {
      assert NamesOf(es)[i] == name;
    }
  }

  /** Another name's entry is where it was. */
  lemma Elsewhere(es: seq<Entry>, r: seq<Entry>, i: nat, name: string)
    requires i <= |es| && |es| <= |r| && i < |r| == (if i < |es| then |es| else |es| + 1)
    requires r[i].name != name && (i < |es| ==> es[i].name == r[i].name)
    requires forall j :: 0 <= j < |es| && j != i ==> r[j] == es[j]
    ensures At(r, name) == At(es, name)
  {
    var k := Find(es, name);
    FindIs(r, name, if k < |es| then k else |r|);
  }

  lemma NumberKeeps(es: seq<Entry>, name: string, value: nat)
    requires Unique(es)
    ensures var r := WithNumber(es, name, value);
      && Unique(r) && NamesOf(r) == (if name in NamesOf(es) then NamesOf(es) else NamesOf(es) + [name])
      && Find(r, name) < |r| && r[Find(r, name)].value == value
      && forall n :: n != name ==> At(r, n) == At(es, n)
  {
    var r, i := WithNumber(es, name, value), Find(es, name);
    Present(es, name);
    FindIs(r, name, i);
    forall n | n != name
      ensures At(r, n) == At(es, n)
    {
      Elsewhere(es, r, i, n);
    }
    assert i == |es| ==> NamesOf(r) == NamesOf(es) + [name];
    assert i < |es| ==> NamesOf(r) == NamesOf(es);
  }

  lemma DefaultKeeps(es: seq<Entry>, e: Entry)
    requires Unique(es)
    ensures var r := WithDefault(es, e);
      && Unique(r) && At(r, e.name) == (if At(es, e.name).Some? then At(es, e.name) else Some(e))
      && forall n :: n != e.name ==> At(r, n) == At(es, n)
  {
    var r, i := WithDefault(es, e), Find(es, e.name);
    FindIs(r, e.name, i);
    if i == |es| {
      forall n | n != e.name
        ensures At(r, n) == At(es, n)
      {
        Elsewhere(es, r, i, n);
      }
    }
  }

  /** Defaults never displace what was given, and the first default of a name counts. */
  lemma {:induction false} DefaultsKeep(es: seq<Entry>, ds: seq<Entry>, name: string)
    requires Unique(es)
    ensures var r := WithDefaults(es, ds);
      Unique(r) && At(r, name) == if At(es, name).Some? then At(es, name) else At(ds, name)
    decreases ds
  {
    if ds != [] {
      DefaultKeeps(es, ds[0]);
      DefaultsKeep(WithDefault(es, ds[0]), ds[1..], name);
      assert At(ds, name) == if ds[0].name == name then Some(ds[0]) else At(ds[1..], name);
    }
  }

  function Final(given: seq<Entry>, empty: bool, title: string): seq<Entry> {
    if empty then given else WithDefaults(WithDefaults(given, DEFAULTS), Titles(title))
  }

  /** What the table holds under a name: what was given, else the default, else the title. */
  lemma FinalEntry(given: seq<Entry>, title: string, name: string)
    requires Unique(given)
    ensures var r := Final(given, false, title);
      Unique(r) && At(r, name) ==
        if At(given, name).Some? then At(given, name)
        else if At(DEFAULTS, name).Some? then At(DEFAULTS, name)
        else At(Titles(title), name)
  {
    DefaultsKeep(given, DEFAULTS, name);
    DefaultsKeep(WithDefaults(given, DEFAULTS), Titles(title), name);
  }

  // ---- alignment ----

  ghost predicate AllAligned(es: seq<Entry>) {
    forall e :: e in es ==> Room(e) % 4 == 0
  }

  /** The only way to lose the alignment is a number, not a multiple of 4, for an entry that is a text. */
  lemma NumberAlignedIff(es: seq<Entry>, name: string, value: nat)
    requires AllAligned(es) && forall e :: e in es ==> e.kind == STR || e.kind == VAL
    ensures AllAligned(WithNumber(es, name, value)) <==> (At(es, name).Some? && At(es, name).value.kind == STR ==> value % 4 == 0)
  {
    var r, i := WithNumber(es, name, value), Find(es, name);
    if i < |es| {
      RoomOnFour(r[i]);
      assert r[i] in r && forall j :: 0 <= j < |es| && j != i ==> r[j] in es;
    } else {
      RoomOnFour(r[i]);
    }
  }

  lemma TextAligned(es: seq<Entry>, name: string, text: string)
    requires AllAligned(es)
    ensures AllAligned(WithText(es, name, text))
  {
    var r, i := WithText(es, name, text), Find(es, name);
    RoomOnFour(r[i]);
    if i < |es| {
      RoomOnFour(es[i]);
    }
  }

  lemma {:induction false} DefaultsAligned(es: seq<Entry>, ds: seq<Entry>)
    requires AllAligned(es) && AllAligned(ds)
    ensures AllAligned(WithDefaults(es, ds))
    decreases ds
  {
    if ds != [] {
      assert ds[0] in ds;
      DefaultsAligned(WithDefault(es, ds[0]), ds[1..]);
    }
  }

  lemma RegularAligned(ds: seq<Entry>)
    requires forall i :: 0 <= i < |ds| ==> ds[i].kind == VAL || ds[i].value % 4 == 0
    ensures AllAligned(ds)
  {
    hide Room;
    forall e | e in ds
      ensures Room(e) % 4 == 0
    {
      RoomOnFour(e);
    }
  }

  /** An aligned table stays aligned through defaults and titles, so every value offset of its file is
      a multiple of 4. */
  lemma FinalAligned(given: seq<Entry>, empty: bool, title: string)
    requires AllAligned(given)
    ensures AllAligned(Final(given, empty, title))
  {
    if !empty {
      RegularAligned(DEFAULTS);
      RegularAligned(Titles(title));
      hide WithDefaults, AllAligned;
      DefaultsAligned(given, DEFAULTS);
      DefaultsAligned(WithDefaults(given, DEFAULTS), Titles(title));
    }
  }

  /** `-s A=abc -d A=5 -d B=1` gives the table whose second value is not aligned. */
  lemma OffFourReached()
    ensures WithNumber(WithNumber(WithText([], "A", "abc"), "A", 5), "B", 1) == [Entry("A", STR, 5, Some("abc")), Entry("B", VAL, 1, None)]
  {
    var one := WithText([], "A", "abc");
    assert one == [Entry("A", STR, 0, Some("abc"))];
    FindIs(one, "A", 0);
    var two := WithNumber(one, "A", 5);
    FindIs(two, "B", 1);
  }

  // ---- sorting ----

  function Insert(e: Entry, es: seq<Entry>): seq<Entry> {
    if es == [] || StrCmp(e.name, es[0].name) < 0 then [e] + es else [es[0]] + Insert(e, es[1..])
  }

  function Sort(es: seq<Entry>): seq<Entry> {
    if es == [] then [] else Insert(es[0], Sort(es[1..]))
  }

  ghost predicate Ascending(es: seq<Entry>) {
    forall i, j :: 0 <= i < j < |es| ==> Less(es[i].name, es[j].name)
  }

  lemma {:induction false} InsertKeeps(e: Entry, es: seq<Entry>)
    ensures multiset(Insert(e, es)) == multiset{e} + multiset(es) && |Insert(e, es)| == |es| + 1
  {
    if es != [] && StrCmp(e.name, es[0].name) >= 0 {
      InsertKeeps(e, es[1..]);
      assert es == [es[0]] + es[1..];
    }
  }

  lemma {:induction false} InsertAscends(e: Entry, es: seq<Entry>)
    requires Ascending(es) && forall x :: x in es ==> x.name != e.name
    ensures Ascending(Insert(e, es))
  {
    hide Less, StrCmp;
    if es != [] {
      NegativeIff(e.name, es[0].name);
      if StrCmp(e.name, es[0].name) < 0 {
        forall j | 0 <= j < |es|
          ensures Less(e.name, es[j].name)
        {
          if j > 0 {
            LessTransitive(e.name, es[0].name, es[j].name);
          }
        }
      } else {
        var rest := es[1..];
        assert es[0] in es && forall x :: x in rest ==> x in es;
        InsertAscends(e, rest);
        InsertKeeps(e, rest);
        LessTotal(e.name, es[0].name);
        var r := Insert(e, rest);
        forall x | x in r
          ensures Less(es[0].name, x.name)
        {
          assert x in multiset(r);
          assert x == e || x in rest;
        }
      }
    }
  }

  lemma NothingAscends()
    ensures Ascending([])
  {
  }

  /** Sorting permutes the entries, and distinct names end up in strictly ascending order. */
  lemma {:induction false} SortSorts(es: seq<Entry>)
    ensures multiset(Sort(es)) == multiset(es) && |Sort(es)| == |es|
    ensures Unique(es) ==> Ascending(Sort(es))
  {
    hide Insert, Ascending;
    if es == [] {
      NothingAscends();
    } else {
      var rest := es[1..];
      SortSorts(rest);
      InsertKeeps(es[0], Sort(rest));
      assert es == [es[0]] + rest;
      if Unique(es) {
        forall x | x in Sort(rest)
          ensures x.name != es[0].name
        {
          assert x in multiset(Sort(rest));
          assert x in rest;
        }
        InsertAscends(es[0], Sort(rest));
      }
    }
  }

  lemma FirstIsLeast(a: seq<Entry>, b: seq<Entry>)
    requires Ascending(a) && Ascending(b) && multiset(a) == multiset(b) && a != []
    ensures b != [] && a[0] == b[0]
  {
    assert a[0] in multiset(a) && a[0] in b;
    assert b[0] in multiset(b) && b[0] in a;
    var i :| 0 <= i < |b| && b[i] == a[0];
    var j :| 0 <= j < |a| && a[j] == b[0];
    LessTotal(a[0].name, b[0].name);
  }

  /** There is only one such order, whatever sorting algorithm is used. */
  lemma {:induction false} OneOrder(a: seq<Entry>, b: seq<Entry>)
    requires Ascending(a) && Ascending(b) && multiset(a) == multiset(b)
    ensures a == b
  {
    if a == [] {
      assert |multiset(b)| == 0;
    } else {
      FirstIsLeast(a, b);
      assert a == [a[0]] + a[1..] && b == [b[0]] + b[1..];
      assert multiset(a[1..]) == multiset(a) - multiset{a[0]} && multiset(b[1..]) == multiset(b) - multiset{b[0]};
      OneOrder(a[1..], b[1..]);
    }
  }
}
