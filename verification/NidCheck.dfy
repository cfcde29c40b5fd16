/** The rules of vita-nid-check.c over a whole run. The callbacks of the database reader are events;
    `Allowed` says of a run, without any database, that it keeps the rules, and the checker accepts
    exactly those runs. The linked lists are held as sequences in list order. */
module NidCheck {
  import opened Strcmp
  import opened Wrappers
  import B = NidBypass

  // ---- the database ----

  datatype Kind = Function | Variable
  datatype Privilege = NoPrivilege | User | Kernel

  /** `DBEntry`, `DBLibrary`, `DBModule`, without the fields the checker never sets. */
  datatype Entry = Entry(name: string, nid: nat, kind: Kind)
  datatype Library = Library(name: string, nid: nat, privilege: Privilege, functions: seq<Entry>, variables: seq<Entry>)
  datatype Module = Module(name: string, libraries: seq<Library>)

  function FindModule(ms: seq<Module>, name: string): (i: nat)
    ensures i <= |ms| && (i < |ms| ==> ms[i].name == name)
    ensures forall j :: 0 <= j < i ==> ms[j].name != name
  {
    if ms == [] || ms[0].name == name then 0 else 1 + FindModule(ms[1..], name)
  }

  function FindLibrary(ls: seq<Library>, name: string): (i: nat)
    ensures i <= |ls| && (i < |ls| ==> ls[i].name == name)
    ensures forall j :: 0 <= j < i ==> ls[j].name != name
  {
    if ls == [] || ls[0].name == name then 0 else 1 + FindLibrary(ls[1..], name)
  }

  function ListOf(l: Library, kind: Kind): seq<Entry> {
    if kind == Function then l.functions else l.variables
  }

  function NamesOf(es: seq<Entry>): seq<string> {
    seq(|es|, i requires 0 <= i < |es| => es[i].name)
  }

  /** Where `pLibrary` points: its module and itself. */
  datatype Place = Place(m: nat, l: nat)

  /** `VitaNIDCheckParam`; every firmware key of the database stands for the same firmware. */
  datatype State = State(firmware: bool, modules: seq<Module>, mod: Option<nat>, lib: Option<Place>)

  predicate ValidPlace(ms: seq<Module>, p: Place) {
    p.m < |ms| && p.l < |ms[p.m].libraries|
  }

  predicate Valid(s: State) {
    (s.mod.Some? ==> s.mod.value < |s.modules|) && (s.lib.Some? ==> ValidPlace(s.modules, s.lib.value))
  }

  function At(ms: seq<Module>, p: Place): Library
    requires ValidPlace(ms, p)
  {
    ms[p.m].libraries[p.l]
  }

  function Put(ms: seq<Module>, p: Place, l: Library): (r: seq<Module>)
    requires ValidPlace(ms, p)
    ensures |r| == |ms| && forall q :: ValidPlace(r, q) <==> ValidPlace(ms, q)
    ensures forall q :: ValidPlace(ms, q) ==> At(r, q) == if q == p then l else At(ms, q)
    ensures forall i :: 0 <= i < |ms| ==> r[i].name == ms[i].name && |r[i].libraries| == |ms[i].libraries|
  {
    ms[p.m := ms[p.m].(libraries := ms[p.m].libraries[p.l := l])]
  }

  const EMPTY := State(false, [], None, None)

  // ---- events ----

  datatype Event = FirmwareKey | ModuleKey(name: string) | LibraryKey(name: string)
                 | NidField(nid: nat) | PrivilegeField(text: string) | EntryField(kind: Kind, name: string, nid: nat)

  predicate InLibrary(e: Event) {
    e.NidField? || e.PrivilegeField? || e.EntryField?
  }

  function PrivilegeOf(text: string): Privilege {
    if text == "kernel" then Kernel else if text == "user" then User else NoPrivilege
  }

  /** Another entry stands in the way of a new one: the same name at the same privilege, of another
      kind or without an exception. */
  predicate Clash(groups: seq<B.Group>, privilege: Privilege, name: string, kind: Kind, l: Library, e: Entry) {
    e.name == name && l.privilege == privilege && !(e.kind == kind && B.Bypassed(groups, l.name, name))
  }

  /** No entry of the firmware clashes. */
  ghost predicate ClashFree(groups: seq<B.Group>, ms: seq<Module>, privilege: Privilege, name: string, kind: Kind) {
    forall q, k, e :: ValidPlace(ms, q) && e in ListOf(At(ms, q), k) ==> !Clash(groups, privilege, name, kind, At(ms, q), e)
  }

  /** `_check_entry` answers 0. */
  ghost predicate Accepts(groups: seq<B.Group>, ms: seq<Module>, p: Place, name: string, kind: Kind)
    requires ValidPlace(ms, p)
  {
    var cur := At(ms, p);
    var list := ListOf(cur, kind);
    && (list != [] ==> Less(list[|list| - 1].name, name))
    && (forall e :: e in cur.functions || e in cur.variables ==> e.name != name)
    && ClashFree(groups, ms, cur.privilege, name, kind)
  }

  function WithEntry(l: Library, e: Entry): Library {
    if e.kind == Function then l.(functions := l.functions + [e]) else l.(variables := l.variables + [e])
  }

  /** What a callback about the current library leaves of it. */
  function After(l: Library, e: Event): Library
    requires InLibrary(e)
  {
    match e
    case NidField(nid) => l.(nid := nid)
    case PrivilegeField(text) => l.(privilege := PrivilegeOf(text))
    case EntryField(kind, name, nid) => WithEntry(l, Entry(name, nid, kind))
  }

  /** One callback; None is a negative answer, which ends the run. */
  ghost function Step(groups: seq<B.Group>, s: State, e: Event): (r: Option<State>)
    requires Valid(s) && (InLibrary(e) ==> s.lib.Some?)
    ensures r.Some? ==> Valid(r.value)
  {
    if e.FirmwareKey? then Some(s.(firmware := true))
    else if e.ModuleKey? then
      if !s.firmware then Some(s.(mod := None))
      else
        var i := FindModule(s.modules, e.name);
        Some(s.(mod := Some(i), modules := if i < |s.modules| then s.modules else s.modules + [Module(e.name, [])]))
    else if e.LibraryKey? then
      if s.mod.None? then Some(s.(lib := None))
      else
        var m := s.modules[s.mod.value];
        var i := FindLibrary(m.libraries, e.name);
        var added := m.(libraries := m.libraries + [Library(e.name, 0, NoPrivilege, [], [])]);
        Some(s.(lib := Some(Place(s.mod.value, i)),
                modules := if i < |m.libraries| then s.modules else s.modules[s.mod.value := added]))
    else
      var p := s.lib.value;
      if e.EntryField? && ((e.kind == Function && e.name == "") || !Accepts(groups, s.modules, p, e.name, e.kind)) then None
      else Some(s.(modules := Put(s.modules, p, After(At(s.modules, p), e))))
  }

  // ---- what a run says by itself ----

  predicate HasFirmware(es: seq<Event>) {
    FirmwareKey in es
  }

  function ModuleAt(es: seq<Event>): Option<string> {
    if es == [] then None
    else
      var before, e := es[..|es| - 1], es[|es| - 1];
      if e.ModuleKey? then if HasFirmware(before) then Some(e.name) else None
      else ModuleAt(before)
  }

  /** A library is known by its name and that of its module. */
  datatype Key = Key(mod: string, lib: string)

  /** The library that the next event would be about. */
  function LibraryAt(es: seq<Event>): Option<Key> {
    if es == [] then None
    else
      var before, e := es[..|es| - 1], es[|es| - 1];
      if e.LibraryKey? then
        var m := ModuleAt(before);
        if m.None? then None else Some(Key(m.value, e.name))
      else LibraryAt(before)
  }

  /** The privilege a library has after es. */
  function PrivilegeAt(es: seq<Event>, k: Key): Privilege {
    if es == [] then NoPrivilege
    else
      var before, e := es[..|es| - 1], es[|es| - 1];
      if e.PrivilegeField? && LibraryAt(before) == Some(k) then PrivilegeOf(e.text) else PrivilegeAt(before, k)
  }

  predicate IsEntry(es: seq<Event>, i: int, k: Key) {
    0 <= i < |es| && es[i].EntryField? && LibraryAt(es[..i]) == Some(k)
  }

  /** Nothing is said about a library before one is named below a module below a firmware: the
      callbacks would follow a null pointer. */
  ghost predicate WellPlaced(es: seq<Event>) {
    forall i :: 0 <= i < |es| && InLibrary(es[i]) ==> LibraryAt(es[..i]).Some?
  }

  /** An entry of library a, and a later one of library b that comes after the run es: within one
      library names are not shared and each list ascends; across libraries a name may be shared at
      different privileges, or by entries of one kind with an exception for the earlier one. */
  ghost predicate Agree(groups: seq<B.Group>, es: seq<Event>, a: Key, name: string, kind: Kind, b: Key, name': string, kind': Kind) {
    && (a == b ==> name != name')
    && (a == b && kind == kind' ==> Less(name, name'))
    && (a != b && name == name' && PrivilegeAt(es, a) == PrivilegeAt(es, b) ==> kind == kind' && B.Bypassed(groups, a.lib, name))
  }

  /** An entry of library k, after the run es, goes together with every entry of the run. */
  ghost predicate AgreesBefore(groups: seq<B.Group>, es: seq<Event>, e: Event, k: Key)
    requires e.EntryField?
  {
    forall i, a :: IsEntry(es, i, a) ==> Agree(groups, es, a, es[i].name, es[i].kind, k, e.name, e.kind)
  }

  ghost predicate AllowedAfter(groups: seq<B.Group>, es: seq<Event>, e: Event) {
    e.EntryField? ==>
      (e.kind == Function ==> e.name != "") && forall k :: LibraryAt(es) == Some(k) ==> AgreesBefore(groups, es, e, k)
  }

  /** The run keeps the rules: no function without a name, and any two entries agree. */
  ghost predicate Allowed(groups: seq<B.Group>, es: seq<Event>) {
    forall j :: 0 <= j < |es| ==> AllowedAfter(groups, es[..j], es[j])
  }

  /** The whole run; every prefix of the run is run first. */
  ghost function Run(groups: seq<B.Group>, es: seq<Event>): (r: Option<State>)
    requires WellPlaced(es)
    ensures r.Some? ==>
      && Valid(r.value) && r.value.firmware == HasFirmware(es)
      && (r.value.mod.Some? <==> ModuleAt(es).Some?) && (r.value.lib.Some? <==> LibraryAt(es).Some?)
  {
    if es == [] then Some(EMPTY)
    else
      WellPlacedBefore(es);
      var r := Run(groups, es[..|es| - 1]);
      if r.None? then None else Step(groups, r.value, es[|es| - 1])
  }

  lemma WellPlacedBefore(es: seq<Event>)
    requires WellPlaced(es) && es != []
    ensures WellPlaced(es[..|es| - 1]) && (InLibrary(es[|es| - 1]) ==> LibraryAt(es[..|es| - 1]).Some?)
    ensures HasFirmware(es) <==> HasFirmware(es[..|es| - 1]) || es[|es| - 1] == FirmwareKey
  {
    var before := es[..|es| - 1];
    assert forall i :: 0 <= i < |before| ==> before[..i] == es[..i];
    assert es == before + [es[|es| - 1]];
  }

  // ---- the database after a run ----

  /** The names of a library's functions or variables, in the order of the run. */
  function Names(es: seq<Event>, k: Key, kind: Kind): seq<string> {
    if es == [] then []
    else
      var before, e := es[..|es| - 1], es[|es| - 1];
      if e.EntryField? && e.kind == kind && LibraryAt(before) == Some(k) then Names(before, k, kind) + [e.name]
      else Names(before, k, kind)
  }

  function KeyAt(ms: seq<Module>, p: Place): Key
    requires ValidPlace(ms, p)
  {
    Key(ms[p.m].name, At(ms, p).name)
  }

  ghost predicate Known(ms: seq<Module>, k: Key) {
    exists p :: ValidPlace(ms, p) && KeyAt(ms, p) == k
  }

  ghost predicate Matches(es: seq<Event>, l: Library, k: Key) {
    && l.privilege == PrivilegeAt(es, k)
    && NamesOf(l.functions) == Names(es, k, Function) && NamesOf(l.variables) == Names(es, k, Variable)
    && (forall e :: e in l.functions ==> e.kind == Function) && (forall e :: e in l.variables ==> e.kind == Variable)
  }

  ghost predicate Unheard(es: seq<Event>, k: Key) {
    PrivilegeAt(es, k) == NoPrivilege && Names(es, k, Function) == Names(es, k, Variable) == []
  }

  ghost predicate Unique(ms: seq<Module>) {
    && (forall i, j :: 0 <= i < j < |ms| ==> ms[i].name != ms[j].name)
    && (forall p, q :: ValidPlace(ms, p) && ValidPlace(ms, q) && KeyAt(ms, p) == KeyAt(ms, q) ==> p == q)
  }

  /** The database holds what the run says, and nothing twice. */
  ghost predicate Recorded(es: seq<Event>, s: State) {
    && Valid(s) && s.firmware == HasFirmware(es) && Unique(s.modules)
    && ModuleAt(es) == (if s.mod.None? then None else Some(s.modules[s.mod.value].name))
    && LibraryAt(es) == (if s.lib.None? then None else Some(KeyAt(s.modules, s.lib.value)))
    && (forall p :: ValidPlace(s.modules, p) ==> Matches(es, At(s.modules, p), KeyAt(s.modules, p)))
    && (forall k :: !Known(s.modules, k) ==> Unheard(es, k))
  }

  /** What one more event means for the run. */
  lemma OneMore(es: seq<Event>, e: Event)
    ensures var all := es + [e];
      && (HasFirmware(all) <==> HasFirmware(es) || e == FirmwareKey)
      && (ModuleAt(all) == if e.ModuleKey? then if HasFirmware(es) then Some(e.name) else None else ModuleAt(es))
      && (LibraryAt(all) == if e.LibraryKey? then (if ModuleAt(es).None? then None else Some(Key(ModuleAt(es).value, e.name))) else LibraryAt(es))
  {
    assert (es + [e])[..|es|] == es;
  }

  lemma OneMoreFor(es: seq<Event>, e: Event, k: Key)
    ensures var all, here := es + [e], LibraryAt(es) == Some(k);
      && (PrivilegeAt(all, k) == if e.PrivilegeField? && here then PrivilegeOf(e.text) else PrivilegeAt(es, k))
      && forall kind :: Names(all, k, kind) == if e.EntryField? && e.kind == kind && here then Names(es, k, kind) + [e.name] else Names(es, k, kind)
  {
    assert (es + [e])[..|es|] == es;
  }

  /** Events that leave the libraries alone. */
  lemma SameLibraries(es: seq<Event>, e: Event, s: State)
    requires Recorded(es, s) && !e.PrivilegeField? && !e.EntryField?
    ensures forall p :: ValidPlace(s.modules, p) ==> Matches(es + [e], At(s.modules, p), KeyAt(s.modules, p))
    ensures forall k :: !Known(s.modules, k) ==> Unheard(es + [e], k)
  {
    forall k
      ensures PrivilegeAt(es + [e], k) == PrivilegeAt(es, k) && forall kind :: Names(es + [e], k, kind) == Names(es, k, kind)
    {
      OneMoreFor(es, e, k);
    }
  }

  /** A module the firmware did not have: nothing else moves. */
  lemma NewModule(ms: seq<Module>, name: string)
    requires FindModule(ms, name) == |ms| && Unique(ms)
    ensures var ms' := ms + [Module(name, [])];
      && (forall p :: ValidPlace(ms', p) <==> ValidPlace(ms, p)) && Unique(ms')
      && (forall p :: ValidPlace(ms, p) ==> At(ms', p) == At(ms, p) && KeyAt(ms', p) == KeyAt(ms, p))
      && (forall k :: Known(ms', k) <==> Known(ms, k))
  {
    var ms' := ms + [Module(name, [])];
    assert forall p :: ValidPlace(ms', p) <==> ValidPlace(ms, p);
    assert forall p :: ValidPlace(ms, p) ==> At(ms', p) == At(ms, p) && KeyAt(ms', p) == KeyAt(ms, p);
  }

  lemma ModuleKeeps(groups: seq<B.Group>, es: seq<Event>, e: Event, s: State)
    requires Recorded(es, s) && e.ModuleKey?
    ensures Recorded(es + [e], Step(groups, s, e).value)
  {
    OneMore(es, e);
    SameLibraries(es, e, s);
    var t := Step(groups, s, e).value;
    hide Matches, Unheard, ModuleAt, LibraryAt, HasFirmware;
    if s.firmware && FindModule(s.modules, e.name) == |s.modules| {
      NewModule(s.modules, e.name);
      hide Known, Unique, FindModule;
    }
    hide Known, Unique, FindModule;
  }

  lemma LibraryKeeps(groups: seq<B.Group>, es: seq<Event>, e: Event, s: State)
    requires Recorded(es, s) && e.LibraryKey?
    ensures Recorded(es + [e], Step(groups, s, e).value)
  {
    OneMore(es, e);
    SameLibraries(es, e, s);
    if s.mod.Some? {
      var t, i := Step(groups, s, e).value, s.mod.value;
      var n := FindLibrary(s.modules[i].libraries, e.name);
      if n == |s.modules[i].libraries| {
        NewLibrary(s.modules, i, Library(e.name, 0, NoPrivilege, [], []));
        var k := Key(s.modules[i].name, e.name);
        assert !Known(s.modules, k);
        assert Matches(es + [e], At(t.modules, Place(i, n)), k);
      }
    }
  }

  /** A library that its module did not have: the others stay where they are. */
  lemma NewLibrary(ms: seq<Module>, i: nat, l: Library)
    requires i < |ms| && FindLibrary(ms[i].libraries, l.name) == |ms[i].libraries| && Unique(ms)
    ensures var ms', added := ms[i := ms[i].(libraries := ms[i].libraries + [l])], Place(i, |ms[i].libraries|);
      && (forall p :: ValidPlace(ms', p) <==> ValidPlace(ms, p) || p == added) && At(ms', added) == l
      && (forall p :: ValidPlace(ms, p) ==> At(ms', p) == At(ms, p) && KeyAt(ms', p) == KeyAt(ms, p))
      && !Known(ms, KeyAt(ms', added)) && Unique(ms')
      && (forall k :: Known(ms', k) <==> Known(ms, k) || k == KeyAt(ms', added))
  {
    var ms', added := ms[i := ms[i].(libraries := ms[i].libraries + [l])], Place(i, |ms[i].libraries|);
    assert forall p :: ValidPlace(ms, p) ==> ValidPlace(ms', p) && At(ms', p) == At(ms, p) && KeyAt(ms', p) == KeyAt(ms, p);
    assert !Known(ms, KeyAt(ms', added));
    assert ValidPlace(ms', added);
    forall k
      ensures Known(ms', k) <==> Known(ms, k) || k == KeyAt(ms', added)
    {
      if Known(ms, k) {
        var p :| ValidPlace(ms, p) && KeyAt(ms, p) == k;
        assert ValidPlace(ms', p) && KeyAt(ms', p) == k;
      }
    }
  }

  /** A field of the current library changes: keys and places stay. */
  lemma PutKeeps(ms: seq<Module>, p: Place, l: Library)
    requires ValidPlace(ms, p) && Unique(ms) && l.name == At(ms, p).name
    ensures var ms' := Put(ms, p, l);
      && Unique(ms') && (forall q :: ValidPlace(ms', q) ==> KeyAt(ms', q) == KeyAt(ms, q))
      && (forall k :: Known(ms', k) <==> Known(ms, k))
  {
    var ms' := Put(ms, p, l);
    forall k
      ensures Known(ms', k) <==> Known(ms, k)
    {
      if Known(ms, k) {
        var q :| ValidPlace(ms, q) && KeyAt(ms, q) == k;
        assert ValidPlace(ms', q) && KeyAt(ms', q) == k;
      }
    }
  }

  lemma FieldKeeps(groups: seq<B.Group>, es: seq<Event>, e: Event, s: State)
    requires Recorded(es, s) && s.lib.Some? && InLibrary(e) && Step(groups, s, e).Some?
    ensures Recorded(es + [e], Step(groups, s, e).value)
  {
    var t, p := Step(groups, s, e).value, s.lib.value;
    var k, l := KeyAt(s.modules, p), At(t.modules, p);
    OneMore(es, e);
    assert t.modules == Put(s.modules, p, l);
    PutKeeps(s.modules, p, l);
    forall q | ValidPlace(t.modules, q)
      ensures Matches(es + [e], At(t.modules, q), KeyAt(t.modules, q))
    {
      OneMoreFor(es, e, KeyAt(t.modules, q));
      if q == p {
        LibraryFollows(es, e, At(s.modules, p), k);
      } else {
        assert Matches(es, At(s.modules, q), KeyAt(s.modules, q));
      }
    }
    forall j | !Known(t.modules, j)
      ensures Unheard(es + [e], j)
    {
      OneMoreFor(es, e, j);
      assert Known(s.modules, k);
    }
  }

  lemma LibraryFollows(es: seq<Event>, e: Event, l: Library, k: Key)
    requires Matches(es, l, k) && LibraryAt(es) == Some(k) && InLibrary(e)
    ensures Matches(es + [e], After(l, e), k)
  {
    OneMoreFor(es, e, k);
    if e.EntryField? {
      var list := ListOf(l, e.kind);
      var more := list + [Entry(e.name, e.nid, e.kind)];
      assert NamesOf(more) == NamesOf(list) + [e.name];
    }
  }

  // ---- the rules ----

  /** The rules for one more entry of library k, in terms of the run so far. */
  ghost predicate Fits(groups: seq<B.Group>, es: seq<Event>, k: Key, name: string, kind: Kind) {
    && (forall n :: n in Names(es, k, kind) ==> Less(n, name))
    && (forall other :: name !in Names(es, k, other))
    && Excepted(groups, es, PrivilegeAt(es, k), name, kind)
  }

  lemma InNames(list: seq<Entry>, name: string)
    ensures name in NamesOf(list) <==> exists e :: e in list && e.name == name
  {
    if e :| e in list && e.name == name {
      var i :| 0 <= i < |list| && list[i] == e;
      assert NamesOf(list)[i] == name;
    }
  }

  ghost predicate Excepted(groups: seq<B.Group>, es: seq<Event>, privilege: Privilege, name: string, kind: Kind) {
    forall j, other :: name in Names(es, j, other) && PrivilegeAt(es, j) == privilege ==> other == kind && B.Bypassed(groups, j.lib, name)
  }

  lemma ListMatches(es: seq<Event>, s: State, q: Place, kind: Kind, name: string)
    requires Recorded(es, s) && ValidPlace(s.modules, q)
    ensures var l, k := At(s.modules, q), KeyAt(s.modules, q);
      && l.privilege == PrivilegeAt(es, k) && (forall e :: e in ListOf(l, kind) ==> e.kind == kind)
      && (name in Names(es, k, kind) <==> exists e :: e in ListOf(l, kind) && e.name == name)
  {
    assert Matches(es, At(s.modules, q), KeyAt(s.modules, q));
    InNames(ListOf(At(s.modules, q), kind), name);
  }

  lemma HeardOf(es: seq<Event>, s: State, k: Key, kind: Kind, name: string) returns (q: Place)
    requires Recorded(es, s) && name in Names(es, k, kind)
    ensures ValidPlace(s.modules, q) && KeyAt(s.modules, q) == k
  {
    assert kind == Function || kind == Variable;
    hide Names, PrivilegeAt, Matches, Unique;
    assert !Unheard(es, k) && Known(s.modules, k);
    q :| ValidPlace(s.modules, q) && KeyAt(s.modules, q) == k;
  }

  lemma ClashFreeExcepted(groups: seq<B.Group>, es: seq<Event>, s: State, privilege: Privilege, name: string, kind: Kind)
    requires Recorded(es, s) && ClashFree(groups, s.modules, privilege, name, kind)
    ensures Excepted(groups, es, privilege, name, kind)
  {
    forall j, other | name in Names(es, j, other) && PrivilegeAt(es, j) == privilege
      ensures other == kind && B.Bypassed(groups, j.lib, name)
    {
      var q := HeardOf(es, s, j, other, name);
      ListMatches(es, s, q, other, name);
      hide Recorded, Names, PrivilegeAt;
      var e :| e in ListOf(At(s.modules, q), other) && e.name == name;
      assert !Clash(groups, privilege, name, kind, At(s.modules, q), e);
    }
  }

  lemma ExceptedClashFree(groups: seq<B.Group>, es: seq<Event>, s: State, privilege: Privilege, name: string, kind: Kind)
    requires Recorded(es, s) && Excepted(groups, es, privilege, name, kind)
    ensures ClashFree(groups, s.modules, privilege, name, kind)
  {
    var ms := s.modules;
    forall q, k, e | ValidPlace(ms, q) && e in ListOf(At(ms, q), k)
      ensures !Clash(groups, privilege, name, kind, At(ms, q), e)
    {
      ListMatches(es, s, q, k, name);
      hide Recorded, Names, PrivilegeAt;
      if e.name == name && At(ms, q).privilege == privilege {
        assert name in Names(es, KeyAt(ms, q), k);
      }
    }
  }

  lemma ClashFreeIff(groups: seq<B.Group>, es: seq<Event>, s: State, privilege: Privilege, name: string, kind: Kind)
    requires Recorded(es, s)
    ensures ClashFree(groups, s.modules, privilege, name, kind) <==> Excepted(groups, es, privilege, name, kind)
  {
    hide *;
    if ClashFree(groups, s.modules, privilege, name, kind) {
      ClashFreeExcepted(groups, es, s, privilege, name, kind);
    }
    if Excepted(groups, es, privilege, name, kind) {
      ExceptedClashFree(groups, es, s, privilege, name, kind);
    }
  }

  lemma LastName(list: seq<Entry>)
    ensures |NamesOf(list)| == |list| && (list != [] ==> NamesOf(list)[|list| - 1] == list[|list| - 1].name)
  {
  }

  lemma AcceptedFits(groups: seq<B.Group>, es: seq<Event>, s: State, name: string, kind: Kind)
    requires Recorded(es, s) && s.lib.Some?
    requires var k := KeyAt(s.modules, s.lib.value); Sorted(Names(es, k, kind))
    ensures Accepts(groups, s.modules, s.lib.value, name, kind) <==> Fits(groups, es, KeyAt(s.modules, s.lib.value), name, kind)
  {
    var ms, p := s.modules, s.lib.value;
    var cur, k := At(ms, p), KeyAt(ms, p);
    assert ValidPlace(ms, p) && Matches(es, cur, k) && cur.privilege == PrivilegeAt(es, k);
    OwnList(es, cur, k, name, kind);
    OwnNames(es, s, p, name);
    ClashFreeIff(groups, es, s, cur.privilege, name, kind);
  }

  /** The new name sorts behind the last entry, hence behind all of them. */
  lemma OwnList(es: seq<Event>, l: Library, k: Key, name: string, kind: Kind)
    requires Matches(es, l, k) && Sorted(Names(es, k, kind))
    ensures var list := ListOf(l, kind);
      (list != [] ==> Less(list[|list| - 1].name, name)) <==> forall n :: n in Names(es, k, kind) ==> Less(n, name)
  {
    LastName(ListOf(l, kind));
    SortedSnoc(Names(es, k, kind), name);
  }

  lemma OwnNames(es: seq<Event>, s: State, p: Place, name: string)
    requires Recorded(es, s) && ValidPlace(s.modules, p)
    ensures var l, k := At(s.modules, p), KeyAt(s.modules, p);
      (forall e :: e in l.functions || e in l.variables ==> e.name != name) <==> forall other :: name !in Names(es, k, other)
  {
    var l, k := At(s.modules, p), KeyAt(s.modules, p);
    ListMatches(es, s, p, Function, name);
    ListMatches(es, s, p, Variable, name);
    hide Recorded, Names;
    assert ListOf(l, Function) == l.functions && ListOf(l, Variable) == l.variables;
    assert (forall other :: name !in Names(es, k, other)) <==> name !in Names(es, k, Function) && name !in Names(es, k, Variable);
  }

  lemma SameEntries(es: seq<Event>, e: Event)
    ensures forall i, k :: i < |es| ==> (IsEntry(es + [e], i, k) <==> IsEntry(es, i, k))
    ensures forall k :: IsEntry(es + [e], |es|, k) <==> e.EntryField? && LibraryAt(es) == Some(k)
    ensures forall j :: 0 <= j <= |es| ==> (es + [e])[..j] == es[..j]
    ensures forall j :: 0 <= j < |es| ==> (es + [e])[j] == es[j]
  {
    assert es[..|es|] == es;
    forall j | 0 <= j <= |es|
      ensures (es + [e])[..j] == es[..j]
    {
    }
  }

  lemma {:induction false} NamesAre(es: seq<Event>, k: Key, kind: Kind, name: string)
    ensures name in Names(es, k, kind) <==> exists i :: IsEntry(es, i, k) && es[i].kind == kind && es[i].name == name
  {
    if es != [] {
      var before, e := es[..|es| - 1], es[|es| - 1];
      NamesAre(before, k, kind, name);
      assert es == before + [e];
      SameEntries(before, e);
      OneMoreFor(before, e, k);
      hide Names;
      if i :| IsEntry(before, i, k) && before[i].kind == kind && before[i].name == name {
        assert IsEntry(es, i, k);
      }
      if e.EntryField? && LibraryAt(before) == Some(k) {
        assert IsEntry(es, |before|, k);
      }
    }
  }

  lemma FitsAgree(groups: seq<B.Group>, es: seq<Event>, k: Key, name: string, kind: Kind)
    ensures Fits(groups, es, k, name, kind) <==>
      forall a, other, n :: n in Names(es, a, other) ==> Agree(groups, es, a, n, other, k, name, kind)
  {
    hide Names, PrivilegeAt, Less;
    if forall a, other, n :: n in Names(es, a, other) ==> Agree(groups, es, a, n, other, k, name, kind) {
      forall other
        ensures name !in Names(es, k, other)
      {
        assert name in Names(es, k, other) ==> Agree(groups, es, k, name, other, k, name, kind);
      }
      forall j, other | name in Names(es, j, other) && PrivilegeAt(es, j) == PrivilegeAt(es, k)
        ensures other == kind && B.Bypassed(groups, j.lib, name)
      {
        assert Agree(groups, es, j, name, other, k, name, kind);
      }
    }
  }

  /** The rules for one more entry, in terms of the entries before it. */
  lemma FitsIff(groups: seq<B.Group>, es: seq<Event>, e: Event, k: Key)
    requires e.EntryField?
    ensures Fits(groups, es, k, e.name, e.kind) <==> AgreesBefore(groups, es, e, k)
  {
    FitsAgree(groups, es, k, e.name, e.kind);
    forall a, kind, name
      ensures name in Names(es, a, kind) <==> exists i :: IsEntry(es, i, a) && es[i].kind == kind && es[i].name == name
    {
      NamesAre(es, a, kind, name);
    }
    assert forall i, a :: IsEntry(es, i, a) ==> 0 <= i < |es| && es[i].EntryField?;
    assert forall i, a :: IsEntry(es, i, a) ==> es[i].name in Names(es, a, es[i].kind);
  }

  lemma AllowedSnoc(groups: seq<B.Group>, es: seq<Event>)
    requires es != []
    ensures var n := |es| - 1; Allowed(groups, es) <==> Allowed(groups, es[..n]) && AllowedAfter(groups, es[..n], es[n])
  {
    var n := |es| - 1;
    assert forall j :: 0 <= j < n ==> es[..n][..j] == es[..j] && es[..n][j] == es[j];
    hide AllowedAfter;
    if Allowed(groups, es) {
      forall j | 0 <= j < n
        ensures AllowedAfter(groups, es[..n][..j], es[..n][j])
      {
        assert AllowedAfter(groups, es[..j], es[j]);
      }
    }
    if Allowed(groups, es[..n]) && AllowedAfter(groups, es[..n], es[n]) {
      forall j | 0 <= j < |es|
        ensures AllowedAfter(groups, es[..j], es[j])
      {
        assert j < n ==> AllowedAfter(groups, es[..n][..j], es[..n][j]);
      }
    }
  }

  /** The code's test for the next name after `last`. */
  lemma OutOfOrder(last: string, name: string)
    ensures StrCmp(name, last) <= 0 <==> !Less(last, name)
  {
    NegativeIff(last, name);
    Backwards(last, name);
  }

  ghost predicate AllSorted(es: seq<Event>) {
    forall k, kind :: Sorted(Names(es, k, kind))
  }

  /** One callback: it is accepted exactly when the rules allow it, and the records stay right. */
  lemma StepFollows(groups: seq<B.Group>, es: seq<Event>, e: Event, s: State)
    requires Recorded(es, s) && AllSorted(es) && (InLibrary(e) ==> s.lib.Some?)
    ensures Step(groups, s, e).Some? <==> AllowedAfter(groups, es, e)
    ensures Step(groups, s, e).Some? ==> Recorded(es + [e], Step(groups, s, e).value) && AllSorted(es + [e])
  {
    StepAccepts(groups, es, e, s);
    if Step(groups, s, e).Some? {
      StepRecords(groups, es, e, s);
      StaysSorted(groups, es, e);
    }
  }

  lemma StepAccepts(groups: seq<B.Group>, es: seq<Event>, e: Event, s: State)
    requires Recorded(es, s) && AllSorted(es) && (InLibrary(e) ==> s.lib.Some?)
    ensures Step(groups, s, e).Some? <==> AllowedAfter(groups, es, e)
  {
    if e.EntryField? {
      var k := KeyAt(s.modules, s.lib.value);
      AcceptedFits(groups, es, s, e.name, e.kind);
      FitsIff(groups, es, e, k);
      hide Accepts, Fits, AgreesBefore;
    }
  }

  lemma StepRecords(groups: seq<B.Group>, es: seq<Event>, e: Event, s: State)
    requires Recorded(es, s) && (InLibrary(e) ==> s.lib.Some?) && Step(groups, s, e).Some?
    ensures Recorded(es + [e], Step(groups, s, e).value)
  {
    if e.ModuleKey? {
      ModuleKeeps(groups, es, e, s);
    } else if e.LibraryKey? {
      LibraryKeeps(groups, es, e, s);
    } else if InLibrary(e) {
      FieldKeeps(groups, es, e, s);
    } else {
      OneMore(es, e);
      SameLibraries(es, e, s);
      hide Known, Unique, Matches, Unheard;
    }
  }

  lemma StaysSorted(groups: seq<B.Group>, es: seq<Event>, e: Event)
    requires AllSorted(es) && AllowedAfter(groups, es, e)
    ensures AllSorted(es + [e])
  {
    forall k, kind
      ensures Sorted(Names(es + [e], k, kind))
    {
      OneMoreFor(es, e, k);
      assert Sorted(Names(es, k, kind));
      if e.EntryField? && LibraryAt(es) == Some(k) && e.kind == kind {
        FitsIff(groups, es, e, k);
        SortedSnoc(Names(es, k, kind), e.name);
      }
    }
  }

  /** The checker accepts a run exactly when the run keeps the rules; then the database holds what the
      run says, and every list of names in it ascends. */
  lemma {:induction false} AcceptedIff(groups: seq<B.Group>, es: seq<Event>)
    requires WellPlaced(es)
    ensures Run(groups, es).Some? <==> Allowed(groups, es)
    ensures Run(groups, es).Some? ==> Recorded(es, Run(groups, es).value) && AllSorted(es)
  {
    if es == [] {
      NothingYet();
    } else {
      var n := |es| - 1;
      WellPlacedBefore(es);
      AcceptedIff(groups, es[..n]);
      AllowedSnoc(groups, es);
      RunSnoc(groups, es);
      assert es[..n] + [es[n]] == es;
      hide *;
      if Run(groups, es[..n]).Some? {
        StepFollows(groups, es[..n], es[n], Run(groups, es[..n]).value);
      }
    }
  }

  lemma NothingYet()
    ensures Recorded([], EMPTY) && AllSorted([])
  {
    assert forall k :: Unheard([], k);
  }

  lemma RunSnoc(groups: seq<B.Group>, es: seq<Event>)
    requires WellPlaced(es) && es != []
    ensures WellPlaced(es[..|es| - 1])
    ensures Run(groups, es[..|es| - 1]).None? ==> Run(groups, es).None?
    ensures Run(groups, es[..|es| - 1]).Some? ==>
      var s, e := Run(groups, es[..|es| - 1]).value, es[|es| - 1];
      Valid(s) && (InLibrary(e) ==> s.lib.Some?) && Run(groups, es) == Step(groups, s, e)
  {
    WellPlacedBefore(es);
    hide Step, LibraryAt, ModuleAt, Valid;
  }

  // ---- the accepted database ----

  lemma AgreeOf(groups: seq<B.Group>, es: seq<Event>, i: int, j: int, a: Key, b: Key)
    requires Allowed(groups, es) && i < j && IsEntry(es, i, a) && IsEntry(es, j, b)
    ensures Agree(groups, es[..j], a, es[i].name, es[i].kind, b, es[j].name, es[j].kind)
  {
    assert AllowedAfter(groups, es[..j], es[j]) && es[..j][..i] == es[..i];
    assert IsEntry(es[..j], i, a);
  }

  lemma ListsAscend(groups: seq<B.Group>, es: seq<Event>, p: Place)
    requires WellPlaced(es) && Run(groups, es).Some? && ValidPlace(Run(groups, es).value.modules, p)
    ensures var l, k := At(Run(groups, es).value.modules, p), KeyAt(Run(groups, es).value.modules, p);
      && NamesOf(l.functions) == Names(es, k, Function) && NamesOf(l.variables) == Names(es, k, Variable)
      && Sorted(NamesOf(l.functions)) && Sorted(NamesOf(l.variables))
  {
    AcceptedIff(groups, es);
    hide Run, Sorted, Allowed, WellPlaced, Less, StrCmp;
    var s := Run(groups, es).value;
    var l, k := At(s.modules, p), KeyAt(s.modules, p);
    assert Matches(es, l, k);
    assert Sorted(Names(es, k, Function)) && Sorted(Names(es, k, Variable));
  }

  /** In an accepted database both lists of every library strictly ascend and share no name. */
  lemma LibrariesClean(groups: seq<B.Group>, es: seq<Event>, p: Place)
    requires WellPlaced(es) && Run(groups, es).Some? && ValidPlace(Run(groups, es).value.modules, p)
    ensures var l := At(Run(groups, es).value.modules, p);
      && Sorted(NamesOf(l.functions)) && Sorted(NamesOf(l.variables))
      && forall f, v :: f in l.functions && v in l.variables ==> f.name != v.name
  {
    hide Run, Recorded, Sorted, AllSorted, Allowed, WellPlaced, ValidPlace, Names;
    ListsAscend(groups, es, p);
    var s := Run(groups, es).value;
    var l, k := At(s.modules, p), KeyAt(s.modules, p);
    AcceptedIff(groups, es);
    forall f, v | f in l.functions && v in l.variables
      ensures f.name != v.name
    {
      InNames(l.functions, f.name);
      InNames(l.variables, v.name);
      NoFunctionIsVariable(groups, es, k, f.name);
    }
  }

  lemma NoFunctionIsVariable(groups: seq<B.Group>, es: seq<Event>, k: Key, name: string)
    requires Allowed(groups, es)
    ensures !(name in Names(es, k, Function) && name in Names(es, k, Variable))
  {
    hide Allowed, Names;
    NamesAre(es, k, Function, name);
    NamesAre(es, k, Variable, name);
    if name in Names(es, k, Function) && name in Names(es, k, Variable) {
      var i :| IsEntry(es, i, k) && es[i].kind == Function && es[i].name == name;
      var j :| IsEntry(es, j, k) && es[j].kind == Variable && es[j].name == name;
      AgreeOf(groups, es, if i < j then i else j, if i < j then j else i, k, k);
      assert false;
    }
  }

  /** After an accepted run the next entry is accepted exactly when it agrees with every entry before
      it, at the privileges that are in force at that moment. */
  lemma NextEntryIff(groups: seq<B.Group>, es: seq<Event>, e: Event)
    requires WellPlaced(es) && WellPlaced(es + [e]) && Run(groups, es).Some? && e.EntryField? && LibraryAt(es).Some?
    ensures Run(groups, es + [e]).Some? <==> (e.kind == Function ==> e.name != "") && AgreesBefore(groups, es, e, LibraryAt(es).value)
  {
    AcceptedIff(groups, es);
    AcceptedIff(groups, es + [e]);
    AllowedSnoc(groups, es + [e]);
    assert (es + [e])[..|es|] == es;
    hide Run, Allowed, Recorded, AllSorted;
  }

  /** Two entries of different libraries that share a name: the checker let them pass because the
      earlier one is excepted and they are of one kind, or because the privileges of the libraries
      differed when the later one was checked. */
  lemma SharedPair(groups: seq<B.Group>, es: seq<Event>, i: int, j: int, a: Key, b: Key)
    requires WellPlaced(es) && Run(groups, es).Some? && i < j && IsEntry(es, i, a) && IsEntry(es, j, b) && es[i].name == es[j].name
    ensures a != b
    ensures (es[i].kind == es[j].kind && B.Bypassed(groups, a.lib, es[i].name)) || PrivilegeAt(es[..j], a) != PrivilegeAt(es[..j], b)
  {
    AcceptedIff(groups, es);
    AgreeOf(groups, es, i, j, a, b);
  }

  /** No library changes its privilege once it has an entry. */
  ghost predicate Settled(es: seq<Event>) {
    forall i, j, k :: i < j < |es| && IsEntry(es, i, k) && es[j].PrivilegeField? ==> LibraryAt(es[..j]) != Some(k)
  }

  lemma {:induction false} PrivilegeStays(es: seq<Event>, i: int, k: Key, j: nat)
    requires Settled(es) && IsEntry(es, i, k) && i <= j <= |es|
    ensures PrivilegeAt(es[..j], k) == PrivilegeAt(es, k)
    decreases |es| - j
  {
    if j == |es| {
      assert es[..j] == es;
    } else {
      PrivilegeStays(es, i, k, j + 1);
      assert es[..j + 1] == es[..j] + [es[j]];
      OneMoreFor(es[..j], es[j], k);
    }
  }

  /** With settled privileges, entries that share a name at one privilege are of one kind, and the
      earlier one is excepted. */
  lemma SharedNamesExcepted(groups: seq<B.Group>, es: seq<Event>, i: int, j: int, a: Key, b: Key)
    requires WellPlaced(es) && Run(groups, es).Some? && Settled(es)
    requires i < j && IsEntry(es, i, a) && IsEntry(es, j, b)
    requires es[i].name == es[j].name && PrivilegeAt(es, a) == PrivilegeAt(es, b)
    ensures a != b && es[i].kind == es[j].kind && B.Bypassed(groups, a.lib, es[i].name)
  {
    SharedPair(groups, es, i, j, a, b);
    PrivilegeStays(es, i, a, j);
    PrivilegeStays(es, j, b, j);
  }

  /** The same, said of the database: one of the two is excepted. */
  lemma DatabaseShares(groups: seq<B.Group>, es: seq<Event>, p: Place, q: Place, kind: Kind, kind': Kind, name: string)
    requires WellPlaced(es) && Run(groups, es).Some? && Settled(es)
    requires var ms := Run(groups, es).value.modules; ValidPlace(ms, p) && ValidPlace(ms, q) && p != q
    requires var ms := Run(groups, es).value.modules;
      && At(ms, p).privilege == At(ms, q).privilege
      && name in NamesOf(ListOf(At(ms, p), kind)) && name in NamesOf(ListOf(At(ms, q), kind'))
    ensures var ms := Run(groups, es).value.modules;
      kind == kind' && (B.Bypassed(groups, At(ms, p).name, name) || B.Bypassed(groups, At(ms, q).name, name))
  {
    AcceptedIff(groups, es);
    var s := Run(groups, es).value;
    var a, b := KeyAt(s.modules, p), KeyAt(s.modules, q);
    assert Matches(es, At(s.modules, p), a) && Matches(es, At(s.modules, q), b);
    NamesAre(es, a, kind, name);
    NamesAre(es, b, kind', name);
    var i :| IsEntry(es, i, a) && es[i].kind == kind && es[i].name == name;
    var j :| IsEntry(es, j, b) && es[j].kind == kind' && es[j].name == name;
    hide Recorded, Matches, Names, Allowed, AllSorted;
    if i < j {
      SharedNamesExcepted(groups, es, i, j, a, b);
    } else if j < i {
      SharedNamesExcepted(groups, es, j, i, b, a);
    }
  }

  // ---- a privilege that comes too late ----

  /** Library b lists its variable before it says that it is a kernel library. */
  const LATE := [FirmwareKey, ModuleKey("m"), LibraryKey("a"), PrivilegeField("kernel"), EntryField(Function, "f", 1),
                 LibraryKey("b"), EntryField(Variable, "f", 2), PrivilegeField("kernel")]

  lemma LateStep(n: nat, k: Key)
    requires n < 8
    ensures HasFirmware(LATE[..n + 1]) <==> HasFirmware(LATE[..n]) || LATE[n] == FirmwareKey
    ensures ModuleAt(LATE[..n + 1]) == if LATE[n].ModuleKey? then if HasFirmware(LATE[..n]) then Some(LATE[n].name) else None else ModuleAt(LATE[..n])
    ensures LATE[n].LibraryKey? && ModuleAt(LATE[..n]).Some? ==> LibraryAt(LATE[..n + 1]) == Some(Key(ModuleAt(LATE[..n]).value, LATE[n].name))
    ensures !LATE[n].LibraryKey? ==> LibraryAt(LATE[..n + 1]) == LibraryAt(LATE[..n])
    ensures PrivilegeAt(LATE[..n + 1], k) == if LATE[n].PrivilegeField? && LibraryAt(LATE[..n]) == Some(k) then PrivilegeOf(LATE[n].text) else PrivilegeAt(LATE[..n], k)
  {
    assert LATE[..n + 1] == LATE[..n] + [LATE[n]];
    OneMore(LATE[..n], LATE[n]);
    OneMoreFor(LATE[..n], LATE[n], k);
  }

  lemma LatePrivilege(k: Key)
    ensures LibraryAt(LATE[..3]) == LibraryAt(LATE[..4]) == Some(Key("m", "a")) && LibraryAt(LATE[..6]) == LibraryAt(LATE[..7]) == Some(Key("m", "b"))
    ensures PrivilegeAt(LATE[..6], k) == if k == Key("m", "a") then Kernel else NoPrivilege
    ensures PrivilegeAt(LATE, k) == if k == Key("m", "a") || k == Key("m", "b") then Kernel else NoPrivilege
  {
    assert LATE[..0] == [] && LATE[..8] == LATE;
    assert HasFirmware([]) == false && ModuleAt([]) == None && LibraryAt([]) == None && PrivilegeAt([], k) == NoPrivilege;
    LateStep(0, k);
    LateStep(1, k);
    LateStep(2, k);
    LateStep(3, k);
    LateStep(4, k);
    LateStep(5, k);
    LateStep(6, k);
    LateStep(7, k);
    hide HasFirmware, ModuleAt, LibraryAt, PrivilegeAt;
  }

  /** Accepted without any exception, although at the end a function of one kernel library and a
      variable of another share a name. */
  lemma LatePrivilegePasses()
    ensures WellPlaced(LATE) && Run([], LATE).Some? && !Settled(LATE)
    ensures IsEntry(LATE, 4, Key("m", "a")) && IsEntry(LATE, 6, Key("m", "b"))
    ensures LATE[4].name == LATE[6].name && LATE[4].kind != LATE[6].kind
    ensures PrivilegeAt(LATE, Key("m", "a")) == PrivilegeAt(LATE, Key("m", "b"))
  {
    var a, b := Key("m", "a"), Key("m", "b");
    LatePrivilege(a);
    LatePrivilege(b);
    hide LibraryAt, PrivilegeAt;
    assert IsEntry(LATE, 4, a) && IsEntry(LATE, 6, b) by { LateStep(3, a); }
    assert WellPlaced(LATE);
    forall j | 0 <= j < |LATE|
      ensures AllowedAfter([], LATE[..j], LATE[j])
    {
      if j == 4 {
        assert forall i :: 0 <= i < 4 ==> !LATE[i].EntryField?;
      } else if j == 6 {
        forall i, k | IsEntry(LATE[..6], i, k)
          ensures Agree([], LATE[..6], k, LATE[..6][i].name, LATE[..6][i].kind, b, "f", Variable)
        {
          assert i == 4 && LATE[..6][..4] == LATE[..4];
        }
      }
    }
    AcceptedIff([], LATE);
  }

  // ---- the checker ----

  ghost predicate NoClashIn(groups: seq<B.Group>, privilege: Privilege, name: string, kind: Kind, l: Library, list: seq<Entry>) {
    forall e :: e in list ==> !Clash(groups, privilege, name, kind, l, e)
  }

  ghost predicate NoClashInModule(groups: seq<B.Group>, privilege: Privilege, name: string, kind: Kind, m: Module, n: nat)
    requires n <= |m.libraries|
  {
    forall l :: 0 <= l < n ==>
      && NoClashIn(groups, privilege, name, kind, m.libraries[l], m.libraries[l].functions)
      && NoClashIn(groups, privilege, name, kind, m.libraries[l], m.libraries[l].variables)
  }

  lemma ClashFreeByLoops(groups: seq<B.Group>, ms: seq<Module>, privilege: Privilege, name: string, kind: Kind)
    ensures ClashFree(groups, ms, privilege, name, kind) <==>
      forall m :: 0 <= m < |ms| ==> NoClashInModule(groups, privilege, name, kind, ms[m], |ms[m].libraries|)
  {
    if ClashFree(groups, ms, privilege, name, kind) {
      forall m, l, e | 0 <= m < |ms| && 0 <= l < |ms[m].libraries| && (e in ms[m].libraries[l].functions || e in ms[m].libraries[l].variables)
        ensures !Clash(groups, privilege, name, kind, ms[m].libraries[l], e)
      {
        var q := Place(m, l);
        assert ValidPlace(ms, q) && (e in ListOf(At(ms, q), Function) || e in ListOf(At(ms, q), Variable));
      }
    }
    if forall m :: 0 <= m < |ms| ==> NoClashInModule(groups, privilege, name, kind, ms[m], |ms[m].libraries|) {
      forall q, k, e | ValidPlace(ms, q) && e in ListOf(At(ms, q), k)
        ensures !Clash(groups, privilege, name, kind, At(ms, q), e)
      {
        assert NoClashInModule(groups, privilege, name, kind, ms[q.m], |ms[q.m].libraries|);
      }
    }
  }

  /** `VitaNIDCheckParam` and its callbacks. */
  class Checker {
    const bypass: B.Bypass
    var firmware: bool
    var modules: seq<Module>
    var mod: Option<nat>
    var lib: Option<Place>

    constructor (bypass: B.Bypass)
      ensures this.bypass == bypass && View() == EMPTY
    {
      this.bypass := bypass;
      firmware, modules, mod, lib := false, [], None, None;
    }

    function View(): State
      reads this
    {
      State(firmware, modules, mod, lib)
    }

    /** `function_callback`, for one entry of the firmware. */
    method FunctionCallback(l: Library, e: Entry, privilege: Privilege, name: string, kind: Kind) returns (res: int)
      ensures res == if Clash(bypass.groups, privilege, name, kind, l, e) then -1 else 0
    {
      if name != e.name {
        return 0;
      }
      if privilege != l.privilege {
        return 0;
      }
      if e.kind != kind {
        return -1;
      }
      var i := bypass.SearchLibrary(l.name);
      if i < |bypass.groups| {
        var found := bypass.SearchEntry(i, e.name);
        if found {
          return 0;
        }
      }
      res := -1;
    }

    method ExecuteEntries(l: Library, list: seq<Entry>, privilege: Privilege, name: string, kind: Kind) returns (res: int)
      ensures res == if NoClashIn(bypass.groups, privilege, name, kind, l, list) then 0 else -1
    {
      var i := 0;
      while i < |list|
        invariant i <= |list| && NoClashIn(bypass.groups, privilege, name, kind, l, list[..i])
      {
        res := FunctionCallback(l, list[i], privilege, name, kind);
        if res < 0 {
          return -1;
        }
        assert list[..i + 1] == list[..i] + [list[i]];
        i := i + 1;
      }
      assert list[..i] == list;
      res := 0;
    }

    /** `library_callback` for every library of a module. */
    method ModuleCallback(m: Module, privilege: Privilege, name: string, kind: Kind) returns (res: int)
      ensures res == if NoClashInModule(bypass.groups, privilege, name, kind, m, |m.libraries|) then 0 else -1
    {
      var i := 0;
      while i < |m.libraries|
        invariant i <= |m.libraries| && NoClashInModule(bypass.groups, privilege, name, kind, m, i)
      {
        var l := m.libraries[i];
        res := ExecuteEntries(l, l.functions, privilege, name, kind);
        if res < 0 {
          return -1;
        }
        res := ExecuteEntries(l, l.variables, privilege, name, kind);
        if res < 0 {
          return -1;
        }
        i := i + 1;
      }
      res := 0;
    }

    /** `check_in_same_library` over one list. */
    method CheckInSameLibrary(list: seq<Entry>, name: string) returns (res: int)
      ensures res == if exists e :: e in list && e.name == name then -1 else 0
    {
      var i := 0;
      while i < |list|
        invariant i <= |list| && forall e :: e in list[..i] ==> e.name != name
      {
        if name == list[i].name {
          return -1;
        }
        assert list[..i + 1] == list[..i] + [list[i]];
        i := i + 1;
      }
      assert list[..i] == list;
      res := 0;
    }

    /** `_check_entry`. */
    method CheckEntry(name: string, kind: Kind) returns (res: int)
      requires Valid(View()) && lib.Some?
      ensures res == if Accepts(bypass.groups, modules, lib.value, name, kind) then 0 else -1
    {
      var cur := At(modules, lib.value);
      var list := ListOf(cur, kind);
      if list != [] && StrCmp(name, list[|list| - 1].name) <= 0 {
        OutOfOrder(list[|list| - 1].name, name);
        return -1;
      }
      if list != [] {
        OutOfOrder(list[|list| - 1].name, name);
      }
      res := CheckInSameLibrary(cur.functions, name);
      if res < 0 {
        return -1;
      }
      res := CheckInSameLibrary(cur.variables, name);
      if res < 0 {
        return -1;
      }
      ClashFreeByLoops(bypass.groups, modules, cur.privilege, name, kind);
      var i := 0;
      while i < |modules|
        invariant i <= |modules|
        invariant forall m :: 0 <= m < i ==> NoClashInModule(bypass.groups, cur.privilege, name, kind, modules[m], |modules[m].libraries|)
      {
        res := ModuleCallback(modules[i], cur.privilege, name, kind);
        if res < 0 {
          return -1;
        }
        i := i + 1;
      }
      res := 0;
    }

    /** `database_firmware`: every firmware is number 0. */
    method DatabaseFirmware()
      requires Valid(View())
      modifies this
      ensures View() == Step(bypass.groups, old(View()), FirmwareKey).value
    {
      firmware := true;
    }

    /** `module_name`. */
    method ModuleName(name: string)
      requires Valid(View())
      modifies this
      ensures View() == Step(bypass.groups, old(View()), ModuleKey(name)).value
    {
      if !firmware {
        mod := None;
        return;
      }
      var i := 0;
      while i < |modules| && modules[i].name != name
        invariant i <= FindModule(modules, name)
      {
        i := i + 1;
      }
      mod := Some(i);
      if i == |modules| {
        modules := modules + [Module(name, [])];
      }
    }

    /** `library_name`. */
    method LibraryName(name: string)
      requires Valid(View())
      modifies this
      ensures View() == Step(bypass.groups, old(View()), LibraryKey(name)).value
    {
      if mod.None? {
        lib := None;
        return;
      }
      var m := modules[mod.value];
      var i := 0;
      while i < |m.libraries| && m.libraries[i].name != name
        invariant i <= FindLibrary(m.libraries, name)
      {
        i := i + 1;
      }
      lib := Some(Place(mod.value, i));
      if i == |m.libraries| {
        modules := modules[mod.value := m.(libraries := m.libraries + [Library(name, 0, NoPrivilege, [], [])])];
      }
    }

    /** `library_nid`. */
    method LibraryNid(nid: nat)
      requires Valid(View()) && lib.Some?
      modifies this
      ensures View() == Step(bypass.groups, old(View()), NidField(nid)).value
    {
      modules := Put(modules, lib.value, At(modules, lib.value).(nid := nid));
    }

    /** `library_privilege`. */
    method LibraryPrivilege(privilege: string)
      requires Valid(View()) && lib.Some?
      modifies this
      ensures View() == Step(bypass.groups, old(View()), PrivilegeField(privilege)).value
    {
      var l := At(modules, lib.value);
      if privilege == "kernel" {
        l := l.(privilege := Kernel);
      } else if privilege == "user" {
        l := l.(privilege := User);
      } else {
        l := l.(privilege := NoPrivilege);
      }
      modules := Put(modules, lib.value, l);
    }

    /** `entry_function`. */
    method EntryFunction(name: string, nid: nat) returns (res: int)
      requires Valid(View()) && lib.Some?
      modifies this
      ensures var r := Step(bypass.groups, old(View()), EntryField(Function, name, nid));
        (res == if r.Some? then 0 else -1) && View() == if r.Some? then r.value else old(View())
    {
      if |name| == 0 {
        return -1;
      }
      res := CheckEntry(name, Function);
      if res < 0 {
        return res;
      }
      var l := At(modules, lib.value);
      modules := Put(modules, lib.value, l.(functions := l.functions + [Entry(name, nid, Function)]));
    }

    /** `entry_variable`; unlike a function, a variable may have an empty name. */
    method EntryVariable(name: string, nid: nat) returns (res: int)
      requires Valid(View()) && lib.Some?
      modifies this
      ensures var r := Step(bypass.groups, old(View()), EntryField(Variable, name, nid));
        (res == if r.Some? then 0 else -1) && View() == if r.Some? then r.value else old(View())
    {
      res := CheckEntry(name, Variable);
      if res < 0 {
        return res;
      }
      var l := At(modules, lib.value);
      modules := Put(modules, lib.value, l.(variables := l.variables + [Entry(name, nid, Variable)]));
    }

    /** The database reader calls back; only a rejected entry ends the run. */
    method Callback(e: Event) returns (res: int)
      requires Valid(View()) && (InLibrary(e) ==> lib.Some?)
      modifies this
      ensures var r := Step(bypass.groups, old(View()), e);
        (res == if r.Some? then 0 else -1) && View() == if r.Some? then r.value else old(View())
    {
      res := 0;
      match e
      case FirmwareKey => DatabaseFirmware();
      case ModuleKey(name) => ModuleName(name);
      case LibraryKey(name) => LibraryName(name);
      case NidField(nid) => LibraryNid(nid);
      case PrivilegeField(text) => LibraryPrivilege(text);
      case EntryField(kind, name, nid) =>
        if kind == Function {
          res := EntryFunction(name, nid);
        } else {
          res := EntryVariable(name, nid);
        }
    }

    /** All the databases, one callback after the other. */
    method CheckAll(es: seq<Event>) returns (res: int)
      requires WellPlaced(es) && View() == EMPTY
      modifies this
      ensures res == if Allowed(bypass.groups, es) then 0 else -1
      ensures res == 0 ==> Recorded(es, View()) && AllSorted(es)
    {
      var i := 0;
      assert es[..0] == [];
      while i < |es|
        invariant i <= |es| && WellPlaced(es[..i]) && Run(bypass.groups, es[..i]) == Some(View())
      {
        NextPrefix(bypass.groups, es, i);
        res := Callback(es[i]);
        if res < 0 {
          Rejected(bypass.groups, es, i);
          return -1;
        }
        i := i + 1;
      }
      assert es[..i] == es;
      AcceptedIff(bypass.groups, es);
      res := 0;
    }
  }

  lemma NextPrefix(groups: seq<B.Group>, es: seq<Event>, i: nat)
    requires i < |es| && WellPlaced(es) && WellPlaced(es[..i])
    ensures WellPlaced(es[..i + 1]) && (InLibrary(es[i]) ==> LibraryAt(es[..i]).Some?)
    ensures var r := Run(groups, es[..i]);
      Run(groups, es[..i + 1]) == if r.None? || (InLibrary(es[i]) && r.value.lib.None?) then None else Step(groups, r.value, es[i])
  {
    var more := es[..i + 1];
    assert more[..i] == es[..i] && more[i] == es[i];
    assert forall j :: 0 <= j <= i ==> more[..j] == es[..j];
  }

  /** A run is over with the first entry that breaks a rule. */
  lemma Rejected(groups: seq<B.Group>, es: seq<Event>, i: nat)
    requires i < |es| && WellPlaced(es) && WellPlaced(es[..i + 1]) && Run(groups, es[..i + 1]).None?
    ensures !Allowed(groups, es)
  {
    var more := es[..i + 1];
    AcceptedIff(groups, more);
    hide Run, AllowedAfter;
    if Allowed(groups, es) {
      forall j | 0 <= j < |more|
        ensures AllowedAfter(groups, more[..j], more[j])
      {
        assert AllowedAfter(groups, es[..j], es[j]) && more[..j] == es[..j];
      }
    }
  }
}
