/** The import libraries that `sce_elf_module_info_create` collects from the stubs
    (sce-elf.c): one per library NID, each with its stubs sorted by target NID. */
module Imports {
  import opened Wrappers
  import opened VArray
  import opened SceRel

  /** A C string without its NUL. */
  type CString = s: seq<nat> | forall c :: c in s ==> 0 < c < 256 witness []

  /** `vita_imports_lib_t`. */
  datatype LibInfo = LibInfo(name: CString, flags: nat)

  /** `vita_elf_stub_t`. */
  datatype Stub = Stub(addr: nat, libraryNid: nat, targetNid: nat, info: Option<LibInfo>, rels: seq<VarRel>)

  /** `import_library`. */
  datatype Library = Library(nid: nat, info: Option<LibInfo>, functions: seq<Stub>, variables: seq<Stub>)

  const NO_LIBRARY := Library(0, None, [], [])

  function StubSort(a: Stub, b: Stub): int {
    if a.targetNid > b.targetNid then 1 else if a.targetNid < b.targetNid then -1 else 0
  }

  function StubNidSearch(nid: nat, s: Stub): int {
    if s.targetNid > nid then 1 else if s.targetNid < nid then -1 else 0
  }

  /** The first word of a stub, which is what `_stub_nid_search` reads when it is given a stub. */
  function FirstWord(s: Stub): nat { s.addr }

  function LibrarySort(a: Library, b: Library): int {
    if b.nid > a.nid then 1 else if b.nid < a.nid then -1 else 0
  }

  function LibrarySearch(nid: nat, l: Library): int {
    if l.nid > nid then 1 else if l.nid < nid then -1 else 0
  }

  // ---- the stubs of one library ----

  function InsertStub(s: seq<Stub>, stub: Stub): seq<Stub> {
    InsertUnlessRejected(s, stub, StubSort, StubNidSearch, FirstWord)
  }

  function InsertStubs(stubs: seq<Stub>): seq<Stub> {
    if stubs == [] then []
    else InsertStub(InsertStubs(stubs[..|stubs| - 1]), stubs[|stubs| - 1])
  }

  /** A stub is thrown out exactly when the stub at its place has a NID equal to its address. */
  lemma RejectedIff(s: seq<Stub>, stub: Stub)
    ensures InsertStub(s, stub) == s <==>
            var i := Index(s, stub, StubSort); i < |s| && s[i].targetNid == stub.addr
  {
    hide Index;
    var i := Index(s, stub, StubSort);
    assert |InsertAt(s, stub, i)| == |s| + 1;
  }

  ghost predicate Ascending(s: seq<Stub>) {
    forall i, j :: 0 <= i < j < |s| ==> s[i].targetNid <= s[j].targetNid
  }

  ghost predicate StrictlyAscending(s: seq<Stub>) {
    forall i, j :: 0 <= i < j < |s| ==> s[i].targetNid < s[j].targetNid
  }

  lemma InsertStubKeepsOrder(s: seq<Stub>, stub: Stub)
    requires Ascending(s)
    ensures Ascending(InsertStub(s, stub))
  {
    assert Sorted(s, StubSort);
    SortedInsertion(s, stub, StubSort);
    var r := InsertAt(s, stub, Index(s, stub, StubSort));
    assert Sorted(r, StubSort);
    assert forall i, j :: 0 <= i < j < |r| ==> StubSort(r[i], r[j]) <= 0;
  }

  lemma {:induction false} InsertStubsAscending(stubs: seq<Stub>)
    ensures Ascending(InsertStubs(stubs))
  {
    if stubs != [] {
      InsertStubsAscending(stubs[..|stubs| - 1]);
      InsertStubKeepsOrder(InsertStubs(stubs[..|stubs| - 1]), stubs[|stubs| - 1]);
    }
  }

  lemma InsertStubElements(s: seq<Stub>, stub: Stub)
    ensures multiset(InsertStub(s, stub)) == multiset(s) || multiset(InsertStub(s, stub)) == multiset(s) + multiset{stub}
    ensures |InsertStub(s, stub)| == |s| + 1 ==> multiset(InsertStub(s, stub)) == multiset(s) + multiset{stub}
  {
    var i := Index(s, stub, StubSort);
    hide Index;
    assert s[..i] + s[i..] == s;
  }

  lemma {:induction false} InsertStubsFrom(stubs: seq<Stub>)
    ensures multiset(InsertStubs(stubs)) <= multiset(stubs)
    ensures |InsertStubs(stubs)| == |stubs| ==> multiset(InsertStubs(stubs)) == multiset(stubs)
    ensures |InsertStubs(stubs)| <= |stubs|
  {
    hide InsertStub;
    if stubs != [] {
      var n := |stubs| - 1;
      InsertStubsFrom(stubs[..n]);
      InsertStubElements(InsertStubs(stubs[..n]), stubs[n]);
      assert stubs == stubs[..n] + [stubs[n]];
      InsertedLength(InsertStubs(stubs[..n]), stubs[n]);
    }
  }

  lemma InsertedLength(s: seq<Stub>, stub: Stub)
    ensures |s| <= |InsertStub(s, stub)| <= |s| + 1
  {
  }

  /** Whether no stub's address happens to be the target NID of a stub. */
  ghost predicate NoCoincidence(stubs: seq<Stub>) {
    forall a, b :: a in stubs && b in stubs ==> a.addr != b.targetNid
  }

  /** Then every stub is kept, duplicates included: the table is a sorted permutation. */
  lemma {:induction false} NothingRejected(stubs: seq<Stub>)
    requires NoCoincidence(stubs)
    ensures multiset(InsertStubs(stubs)) == multiset(stubs) && Ascending(InsertStubs(stubs))
  {
    hide InsertStub, Ascending;
    InsertStubsAscending(stubs);
    if stubs != [] {
      var n := |stubs| - 1;
      var before := InsertStubs(stubs[..n]);
      NothingRejected(stubs[..n]);
      assert stubs == stubs[..n] + [stubs[n]];
      forall b | b in before
        ensures b.targetNid != stubs[n].addr
      {
        assert b in multiset(stubs[..n]);
        assert b in stubs;
      }
      KeptUnlessCoincident(before, stubs[n]);
    }
  }

  lemma KeptUnlessCoincident(s: seq<Stub>, stub: Stub)
    requires forall b :: b in s ==> b.targetNid != stub.addr
    ensures multiset(InsertStub(s, stub)) == multiset(s) + multiset{stub}
  {
    InsertStubElements(s, stub);
  }

  ghost predicate DistinctTargets(stubs: seq<Stub>) {
    forall i, j :: 0 <= i < j < |stubs| ==> stubs[i].targetNid != stubs[j].targetNid
  }

  lemma DistinctStaysDistinct(s: seq<Stub>, t: seq<Stub>)
    requires DistinctTargets(t) && multiset(s) <= multiset(t)
    ensures DistinctTargets(s)
  {
    forall i, j | 0 <= i < j < |s|
      ensures s[i].targetNid != s[j].targetNid
    {
      if s[i].targetNid == s[j].targetNid {
        assert s[i] in multiset(t) && s[j] in multiset(t);
        var a :| 0 <= a < |t| && t[a] == s[i];
        var b :| 0 <= b < |t| && t[b] == s[j];
        assert a == b;
        TwiceIn(s, i, j);
        OnceIn(t, a);
        assert false;
      }
    }
  }

  lemma TwiceIn(s: seq<Stub>, i: nat, j: nat)
    requires i < j < |s| && s[i] == s[j]
    ensures multiset(s)[s[i]] >= 2
  {
    assert s == s[..i] + [s[i]] + s[i + 1..j] + [s[j]] + s[j + 1..];
  }

  lemma OnceIn(t: seq<Stub>, a: nat)
    requires DistinctTargets(t) && a < |t|
    ensures multiset(t)[t[a]] == 1
  {
    assert t == t[..a] + [t[a]] + t[a + 1..];
    assert t[a] !in t[..a] && t[a] !in t[a + 1..];
  }

  lemma StrictWhenDistinct(stubs: seq<Stub>)
    requires DistinctTargets(stubs)
    ensures StrictlyAscending(InsertStubs(stubs))
  {
    InsertStubsAscending(stubs);
    InsertStubsFrom(stubs);
    DistinctStaysDistinct(InsertStubs(stubs), stubs);
  }

  /** allow_dup == 0 does not keep duplicates out, and it can drop a stub that is no duplicate. */
  lemma DuplicateTestMisses(a: Stub, b: Stub)
    requires a.targetNid == b.targetNid != b.addr
    ensures InsertStubs([a, b]) == [b, a]
  {
    assert [a, b][..1] == [a] && [a][..0] == [];
    assert InsertStubs([a]) == [a];
    assert Index([a], b, StubSort) == 0;
  }

  lemma DuplicateTestDropsAnother(a: Stub, b: Stub)
    requires a.targetNid == b.addr > b.targetNid
    ensures InsertStubs([a, b]) == [a]
  {
    assert [a, b][..1] == [a] && [a][..0] == [];
    assert InsertStubs([a]) == [a];
    assert Index([a], b, StubSort) == 0;
  }

  // ---- the list of libraries ----

  /** What the body of the loop does to the library of a stub. */
  function Touch(l: Library, stub: Stub, isVar: bool): Library {
    Library(stub.libraryNid,
            if stub.info.Some? then stub.info else l.info,
            if isVar then l.functions else InsertStub(l.functions, stub),
            if isVar then InsertStub(l.variables, stub) else l.variables)
  }

  function Locate(libs: seq<Library>, nid: nat): (r: seq<Library>)
    ensures Index(libs, nid, LibrarySearch) < |r|
  {
    var i := Index(libs, nid, LibrarySearch);
    if i < |libs| && LibrarySearch(nid, libs[i]) == 0 then libs else InsertAt(libs, NO_LIBRARY, i)
  }

  function AddStub(libs: seq<Library>, stub: Stub, isVar: bool): seq<Library> {
    var i, found := Index(libs, stub.libraryNid, LibrarySearch), Locate(libs, stub.libraryNid);
    found[i := Touch(found[i], stub, isVar)]
  }

  function AddStubs(libs: seq<Library>, stubs: seq<Stub>, isVar: bool): seq<Library> {
    if stubs == [] then libs
    else AddStub(AddStubs(libs, stubs[..|stubs| - 1], isVar), stubs[|stubs| - 1], isVar)
  }

  type Table = VArray<nat, Library>

  /** One turn of either loop (sce-elf.c:477-486 and 488-497). */
  method AddOne(libs: Table, stub: Stub, isVar: bool)
    requires libs.Valid() && libs.init(libs.zero) == Some(NO_LIBRARY) && libs.search == LibrarySearch
    modifies libs, libs.data
    ensures libs.Valid() && (libs.data == old(libs.data) || fresh(libs.data))
    ensures libs.Contents() == AddStub(old(libs.Contents()), stub, isVar)
  {
    hide InsertStub, Index;
    var cur, found := libs.SortedSearchOrInsert(stub.libraryNid);
    assert libs.Contents() == Locate(old(libs.Contents()), stub.libraryNid);
    libs.data[cur] := Touch(libs.data[cur], stub, isVar);
  }

  method AddEach(libs: Table, stubs: seq<Stub>, isVar: bool)
    requires libs.Valid() && libs.init(libs.zero) == Some(NO_LIBRARY) && libs.search == LibrarySearch
    modifies libs, libs.data
    ensures libs.Valid() && (libs.data == old(libs.data) || fresh(libs.data))
    ensures libs.Contents() == AddStubs(old(libs.Contents()), stubs, isVar)
  {
    hide AddStub;
    for i := 0 to |stubs|
      invariant libs.Valid() && (libs.data == old(libs.data) || fresh(libs.data))
      invariant libs.Contents() == AddStubs(old(libs.Contents()), stubs[..i], isVar)
    {
      assert stubs[..i + 1][..i] == stubs[..i];
      AddOne(libs, stubs[i], isVar);
    }
    assert stubs[..|stubs|] == stubs;
  }

  /** The import half of `sce_elf_module_info_create`. */
  method CollectImports(fstubs: seq<Stub>, vstubs: seq<Stub>) returns (libs: Table)
    ensures fresh(libs) && fresh(libs.data) && libs.Valid()
    ensures libs.Contents() == AddStubs(AddStubs([], fstubs, false), vstubs, true)
  {
    hide AddStubs;
    libs := new VArray<nat, Library>(8, NO_LIBRARY, l => Some(l), LibrarySort, LibrarySearch, (l: Library) => l.nid);
    AddEach(libs, fstubs, false);
    AddEach(libs, vstubs, true);
  }

  ghost predicate Descending(libs: seq<Library>) {
    forall i, j :: 0 <= i < j < |libs| ==> libs[i].nid > libs[j].nid
  }

  /** A descending list is a map from NIDs. */
  ghost function LibraryMap(libs: seq<Library>): map<nat, Library>
    requires Descending(libs)
  {
    map l | l in libs :: l.nid := l
  }

  lemma DescendingIndex(libs: seq<Library>, nid: nat)
    requires Descending(libs)
    ensures var i := Index(libs, nid, LibrarySearch);
      if i < |libs| && libs[i].nid == nid then true
      else (forall j :: 0 <= j < i ==> libs[j].nid > nid) && (forall j :: i <= j < |libs| ==> libs[j].nid < nid)
  {
    IndexFinds(libs, nid, LibrarySearch);
    var i := Index(libs, nid, LibrarySearch);
    hide Index;
    assert i < |libs| && libs[i].nid != nid ==> LibrarySearch(nid, libs[i]) != 0;
    assert forall j :: 0 <= j < |libs| ==> (LibrarySearch(nid, libs[j]) > 0 <==> libs[j].nid > nid);
    assert forall j :: 0 <= j < |libs| ==> (LibrarySearch(nid, libs[j]) < 0 <==> libs[j].nid < nid);
  }

  function Known(m: map<nat, Library>, nid: nat): Library {
    if nid in m then m[nid] else NO_LIBRARY
  }

  /** x replaces the library at i, or goes in between. */
  ghost predicate Replaces(libs: seq<Library>, r: seq<Library>, i: nat, x: Library) {
    || (i < |libs| && libs[i].nid == x.nid && r == libs[i := x])
    || (i <= |libs| && (forall j :: 0 <= j < i ==> libs[j].nid > x.nid) && (forall j :: i <= j < |libs| ==> libs[j].nid < x.nid)
        && r == InsertAt(libs, x, i))
  }

  lemma ReplacedDescends(libs: seq<Library>, r: seq<Library>, i: nat, x: Library)
    requires Descending(libs) && Replaces(libs, r, i, x)
    ensures Descending(r) && i < |r| && r[i] == x
  {
  }

  lemma ReplacedElements(libs: seq<Library>, r: seq<Library>, i: nat, x: Library)
    requires Descending(libs) && Replaces(libs, r, i, x)
    ensures forall l :: l in r <==> l == x || (l in libs && l.nid != x.nid)
  {
    ReplacedDescends(libs, r, i, x);
    if |r| == |libs| {
      assert r == libs[i := x] && libs[i].nid == x.nid;
      ReplacedOne(libs, i, x);
    } else {
      assert r == InsertAt(libs, x, i);
      assert forall l :: l in libs ==> l.nid != x.nid;
      InsertedOne(libs, i, x);
    }
  }

  lemma ReplacedOne(libs: seq<Library>, i: nat, x: Library)
    requires Descending(libs) && i < |libs| && libs[i].nid == x.nid
    ensures forall l :: l in libs[i := x] <==> l == x || (l in libs && l.nid != x.nid)
  {
    var r := libs[i := x];
    assert forall j :: 0 <= j < |libs| && j != i ==> r[j] == libs[j] && libs[j].nid != x.nid;
    assert r[i] == x;
  }

  lemma InsertedOne(libs: seq<Library>, i: nat, x: Library)
    requires i <= |libs|
    ensures forall l :: l in InsertAt(libs, x, i) <==> l == x || l in libs
  {
    assert libs == libs[..i] + libs[i..];
  }

  lemma AddStubReplaces(libs: seq<Library>, stub: Stub, isVar: bool)
    requires Descending(libs)
    ensures Replaces(libs, AddStub(libs, stub, isVar), Index(libs, stub.libraryNid, LibrarySearch),
              Touch(Known(LibraryMap(libs), stub.libraryNid), stub, isVar))
  {
    hide InsertStub, Index;
    var nid := stub.libraryNid;
    var i := Index(libs, nid, LibrarySearch);
    DescendingIndex(libs, nid);
    assert Known(LibraryMap(libs), nid) == if i < |libs| && libs[i].nid == nid then libs[i] else NO_LIBRARY;
  }

  /** `varray_sorted_search_or_insert` and the assignments behind it act as a map update. */
  lemma AddStubUpdates(libs: seq<Library>, stub: Stub, isVar: bool)
    requires Descending(libs)
    ensures Descending(AddStub(libs, stub, isVar))
    ensures var nid, m := stub.libraryNid, LibraryMap(libs);
      LibraryMap(AddStub(libs, stub, isVar)) == m[nid := Touch(Known(m, nid), stub, isVar)]
  {
    var i, x := Index(libs, stub.libraryNid, LibrarySearch), Touch(Known(LibraryMap(libs), stub.libraryNid), stub, isVar);
    AddStubReplaces(libs, stub, isVar);
    hide AddStub, InsertStub, Index, Replaces;
    ReplacedDescends(libs, AddStub(libs, stub, isVar), i, x);
    ReplacedElements(libs, AddStub(libs, stub, isVar), i, x);
  }

  ghost function StubsOf(stubs: seq<Stub>, nid: nat): seq<Stub> {
    if stubs == [] then []
    else
      var n := |stubs| - 1;
      StubsOf(stubs[..n], nid) + (if stubs[n].libraryNid == nid then [stubs[n]] else [])
  }

  ghost function LastInfo(before: Option<LibInfo>, stubs: seq<Stub>): Option<LibInfo> {
    if stubs == [] then before
    else if stubs[|stubs| - 1].info.Some? then stubs[|stubs| - 1].info
    else LastInfo(before, stubs[..|stubs| - 1])
  }

  ghost function Touched(l: Library, nid: nat, stubs: seq<Stub>, isVar: bool): Library {
    if stubs == [] then l
    else Touch(Touched(l, nid, stubs[..|stubs| - 1], isVar), stubs[|stubs| - 1], isVar)
  }

  lemma {:induction false} AddStubsUpdates(libs: seq<Library>, stubs: seq<Stub>, isVar: bool, nid: nat)
    requires Descending(libs)
    ensures Descending(AddStubs(libs, stubs, isVar))
    ensures var m, r := LibraryMap(libs), LibraryMap(AddStubs(libs, stubs, isVar));
      && (nid in r <==> nid in m || StubsOf(stubs, nid) != [])
      && (nid in r ==> r[nid] == Touched(Known(m, nid), nid, StubsOf(stubs, nid), isVar))
  {
    hide AddStub, Touch, LibraryMap;
    if stubs != [] {
      var n := |stubs| - 1;
      AddStubsUpdates(libs, stubs[..n], isVar, nid);
      AddStubUpdates(AddStubs(libs, stubs[..n], isVar), stubs[n], isVar);
      var of := StubsOf(stubs[..n], nid);
      assert (of + [stubs[n]])[..|of|] == of && of + [] == of;
      var l := Known(LibraryMap(libs), nid);
      assert Touched(l, nid, of + [stubs[n]], isVar) == Touch(Touched(l, nid, of, isVar), stubs[n], isVar);
    }
  }

  lemma {:induction false} TouchedParts(l: Library, nid: nat, stubs: seq<Stub>, isVar: bool)
    requires forall s :: s in stubs ==> s.libraryNid == nid
    requires if isVar then l.variables == [] else l.functions == []
    ensures var r := Touched(l, nid, stubs, isVar);
      && r.nid == (if stubs == [] then l.nid else nid)
      && r.info == LastInfo(l.info, stubs)
      && r.functions == (if isVar then l.functions else InsertStubs(stubs))
      && r.variables == (if isVar then InsertStubs(stubs) else l.variables)
  {
    hide InsertStub;
    if stubs != [] {
      TouchedParts(l, nid, stubs[..|stubs| - 1], isVar);
    }
  }

  lemma StubsOfLibrary(stubs: seq<Stub>, nid: nat)
    ensures forall s :: s in StubsOf(stubs, nid) <==> s in stubs && s.libraryNid == nid
  {
    if stubs != [] {
      StubsOfLibrary(stubs[..|stubs| - 1], nid);
      assert stubs == stubs[..|stubs| - 1] + [stubs[|stubs| - 1]];
    }
  }

  /** One entry per library NID, in strictly decreasing order of NID; its tables are the sorted
      insertions of that library's stubs. */
  lemma ImportTable(fstubs: seq<Stub>, vstubs: seq<Stub>, nid: nat)
    ensures var libs := AddStubs(AddStubs([], fstubs, false), vstubs, true);
      && Descending(libs)
      && ((exists l :: l in libs && l.nid == nid) <==> exists s :: s in fstubs + vstubs && s.libraryNid == nid)
      && forall l :: l in libs && l.nid == nid ==>
           l == Library(nid, LastInfo(LastInfo(None, StubsOf(fstubs, nid)), StubsOf(vstubs, nid)),
                        InsertStubs(StubsOf(fstubs, nid)), InsertStubs(StubsOf(vstubs, nid)))
  {
    var mid := AddStubs([], fstubs, false);
    var libs := AddStubs(mid, vstubs, true);
    var fs, vs := StubsOf(fstubs, nid), StubsOf(vstubs, nid);
    hide AddStubs, InsertStubs, Touched, StubsOf, LastInfo;
    assert LibraryMap([]) == map[];
    AddStubsUpdates([], fstubs, false, nid);
    AddStubsUpdates(mid, vstubs, true, nid);
    if fs != [] || vs != [] {
      LibraryParts(LibraryMap(mid), fstubs, vstubs, nid);
    }
    assert (exists l :: l in libs && l.nid == nid) <==> nid in LibraryMap(libs);
    assert (exists s :: s in fstubs + vstubs && s.libraryNid == nid) <==> fs != [] || vs != [] by {
      StubsOfLibrary(fstubs, nid);
      StubsOfLibrary(vstubs, nid);
      assert fs != [] ==> fs[0] in fstubs + vstubs;
      assert vs != [] ==> vs[0] in fstubs + vstubs;
    }
  }

  lemma LibraryParts(mid: map<nat, Library>, fstubs: seq<Stub>, vstubs: seq<Stub>, nid: nat)
    requires nid in mid <==> StubsOf(fstubs, nid) != []
    requires nid in mid ==> mid[nid] == Touched(NO_LIBRARY, nid, StubsOf(fstubs, nid), false)
    requires nid in mid || StubsOf(vstubs, nid) != []
    ensures var fs, vs := StubsOf(fstubs, nid), StubsOf(vstubs, nid);
      Touched(Known(mid, nid), nid, vs, true) == Library(nid, LastInfo(LastInfo(None, fs), vs), InsertStubs(fs), InsertStubs(vs))
  {
    var fs, vs := StubsOf(fstubs, nid), StubsOf(vstubs, nid);
    StubsOfLibrary(fstubs, nid);
    StubsOfLibrary(vstubs, nid);
    TouchedParts(NO_LIBRARY, nid, fs, false);
    assert Known(mid, nid) == Touched(NO_LIBRARY, nid, fs, false);
    assert InsertStubs([]) == [];
    TouchedParts(Known(mid, nid), nid, vs, true);
  }
}
