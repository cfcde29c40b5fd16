/** What a loader finds in an encoded module about each stub, said in terms of the stubs alone. */
module ModuleStubs {
  import opened Wrappers
  import ArmReloc
  import opened SceRel
  import opened Imports
  import opened ModuleImage
  import opened ModuleInfo
  import opened ModuleSize
  import opened ImportTables
  import opened ModuleCreate

  // ---- reading ----

  /** The import records of the module info at h: where they start and how many there are. */
  function RecordAt(mem: Memory, base: nat, h: nat, i: nat): nat {
    base + mem(h + 0x2C) + 0x34 * i
  }

  ghost predicate Records(mem: Memory, h: nat, n: nat) {
    mem(h + 0x30) == mem(h + 0x2C) + 0x34 * n
  }

  /** Entry j of the function tables of record a: an NID and an address. */
  ghost predicate FunctionAt(mem: Memory, a: nat, j: int, nid: nat, address: nat) {
    0 <= j < High(mem(a + 4)) && mem(mem(a + 0x1C) + 4 * j) == nid && mem(mem(a + 0x20) + 4 * j) == address
  }

  /** Entry j of the variable tables of record a: an NID, and a block of relocations that tells its size. */
  ghost predicate VariableAt(mem: Memory, a: nat, j: int, nid: nat, rels: seq<VarRel>) {
    && 0 <= j < Low(mem(a + 8)) && mem(mem(a + 0x24) + 4 * j) == nid
    && RelocationsAt(mem, mem(mem(a + 0x28) + 4 * j), rels)
  }

  ghost predicate RelocationsAt(mem: Memory, p: nat, rels: seq<VarRel>) {
    exists ws :: RelocationWords(mem, p, ws) && ReadVarRels(ws) == rels
  }

  ghost predicate RelocationWords(mem: Memory, p: nat, ws: seq<ArmReloc.word>) {
    mem(p) / 16 == 4 + 4 * |ws| && forall i :: 0 <= i < |ws| ==> mem(p + 4 + 4 * i) == ws[i] as nat
  }

  /** The library description that counts: that of the last stub of the library, variables last. */
  ghost predicate Describes(stubs: seq<Stub>, nid: nat, info: LibInfo) {
    exists i :: LastOf(stubs, nid, i) && stubs[i].info == Some(info)
  }

  ghost predicate LastOf(stubs: seq<Stub>, nid: nat, i: int) {
    0 <= i < |stubs| && stubs[i].libraryNid == nid && forall j :: i < j < |stubs| ==> stubs[j].libraryNid != nid
  }

  /** Record a is that of a library: its NID, its name, the upper half of its flags as version, but at least
      1, and 8 for a weak library. */
  ghost predicate LibraryAt(mem: Memory, a: nat, nid: nat, info: LibInfo) {
    && mem(a + 0x10) == nid && NameAt(mem, mem(a + 0x14), Some(info.name))
    && High(mem(a)) == (if info.flags / 0x1_0000 % 0x1_0000 > 1 then info.flags / 0x1_0000 % 0x1_0000 else 1)
    && Low(mem(a + 4)) == (if info.flags / 8 % 2 == 1 then 8 else 0)
  }

  // ---- the libraries of the stubs ----

  lemma {:induction false} StubsOfAppend(a: seq<Stub>, b: seq<Stub>, nid: nat)
    ensures StubsOf(a + b, nid) == StubsOf(a, nid) + StubsOf(b, nid)
  {
    if b == [] {
      assert a + b == a && StubsOf(b, nid) == [];
    } else {
      StubsOfAppend(a, b[..|b| - 1], nid);
      assert (a + b)[..|a + b| - 1] == a + b[..|b| - 1];
    }
  }

  lemma {:induction false} LastInfoAppend(before: Option<LibInfo>, a: seq<Stub>, b: seq<Stub>)
    ensures LastInfo(before, a + b) == LastInfo(LastInfo(before, a), b)
  {
    if b == [] {
      assert a + b == a;
    } else {
      LastInfoAppend(before, a, b[..|b| - 1]);
      assert (a + b)[..|a + b| - 1] == a + b[..|b| - 1];
    }
  }

  lemma LastAppended(front: seq<Stub>, last: Stub, nid: nat)
    requires last.info.Some?
    ensures StubsOf(front + [last], nid) == if last.libraryNid == nid then StubsOf(front, nid) + [last] else StubsOf(front, nid)
    ensures last.libraryNid == nid ==> LastInfo(None, StubsOf(front + [last], nid)) == last.info
  {
    assert (front + [last])[..|front|] == front;
  }

  lemma StillLast(front: seq<Stub>, last: Stub, nid: nat, info: LibInfo)
    requires last.libraryNid != nid && Describes(front, nid, info)
    ensures Describes(front + [last], nid, info)
  {
    var i :| LastOf(front, nid, i) && front[i].info == Some(info);
    assert LastOf(front + [last], nid, i);
  }

  lemma {:induction false} LastDescribes(stubs: seq<Stub>, nid: nat)
    requires (forall s :: s in stubs ==> s.info.Some?) && exists s :: s in stubs && s.libraryNid == nid
    ensures var info := LastInfo(None, StubsOf(stubs, nid)); info.Some? && Describes(stubs, nid, info.value)
  {
    hide LastInfo, StubsOf;
    var n := |stubs| - 1;
    var front, last := stubs[..n], stubs[n];
    assert stubs == front + [last] && last in stubs;
    LastAppended(front, last, nid);
    if last.libraryNid == nid {
      assert LastOf(stubs, nid, n);
    } else {
      LastDescribes(front, nid);
      StillLast(front, last, nid, LastInfo(None, StubsOf(front, nid)).value);
    }
  }

  lemma LibraryDescribed(fstubs: seq<Stub>, vstubs: seq<Stub>, l: Library)
    requires Usable(fstubs, vstubs) && l in Collected(fstubs, vstubs)
    ensures l.info.Some? && Describes(fstubs + vstubs, l.nid, l.info.value)
    ensures l.functions == InsertStubs(StubsOf(fstubs, l.nid)) && l.variables == InsertStubs(StubsOf(vstubs, l.nid))
  {
    hide AddStubs, InsertStubs, StubsOf, LastInfo, Describes;
    var fs, vs := StubsOf(fstubs, l.nid), StubsOf(vstubs, l.nid);
    ImportTable(fstubs, vstubs, l.nid);
    StubsOfAppend(fstubs, vstubs, l.nid);
    LastInfoAppend(None, fs, vs);
    LastDescribes(fstubs + vstubs, l.nid);
  }

  lemma {:induction false} ImportsAt(segs: Segments, libs: seq<Library>, vstubs: seq<Stub>, i: nat)
    requires Ready(libs, vstubs) && i < |libs|
    ensures libs[i].info.Some? && AllFound(libs[i], vstubs) && ImportsOf(segs, libs, vstubs)[i] == ImportOf(segs, libs[i], vstubs)
  {
    hide ImportOf, AllFound;
    assert libs[i] in libs;
    var n := |libs| - 1;
    if i < n {
      ImportsAt(segs, libs[..n], vstubs, i);
    }
  }

  // ---- one record ----

  lemma LibraryReads(mem: Memory, a: nat, segs: Segments, l: Library, vstubs: seq<Stub>)
    requires l.info.Some? && AllFound(l, vstubs) && ImportAt(mem, a, ImportOf(segs, l, vstubs))
    ensures LibraryAt(mem, a, l.nid, l.info.value)
  {
    hide NameAt, WordsAt, Nids, Entries, Blocks, Low, High;
  }

  lemma FunctionReads(mem: Memory, a: nat, segs: Segments, l: Library, vstubs: seq<Stub>, j: nat)
    requires l.info.Some? && AllFound(l, vstubs) && ImportAt(mem, a, ImportOf(segs, l, vstubs))
    ensures High(mem(a + 4)) == |l.functions|
    ensures j < |l.functions| ==> FunctionAt(mem, a, j, l.functions[j].targetNid, HostAddress(segs, l.functions[j].addr))
  {
    hide NameAt, Blocks, Low, High, VersionOf, FlagsOf, HostAddress;
    if j < |l.functions| {
      assert Nids(l.functions)[j] == l.functions[j].targetNid && Entries(segs, l.functions)[j] == HostAddress(segs, l.functions[j].addr);
    }
  }

  lemma VariableReads(mem: Memory, a: nat, segs: Segments, l: Library, vstubs: seq<Stub>, j: nat)
    requires l.info.Some? && AllFound(l, vstubs) && ImportAt(mem, a, ImportOf(segs, l, vstubs))
    requires AllFit(l.variables) && forall s :: s in l.variables ==> Find(vstubs, l.nid, s.targetNid) == Some(s)
    ensures Low(mem(a + 8)) == |l.variables|
    ensures j < |l.variables| ==> VariableAt(mem, a, j, l.variables[j].targetNid, l.variables[j].rels)
  {
    hide NameAt, Entries, Low, High, VersionOf, FlagsOf, Block, RelocationsAt, Find, VarRel.Fits;
    if j < |l.variables| {
      var s := l.variables[j];
      assert s in l.variables;
      assert Nids(l.variables)[j] == s.targetNid && Blocks(l, vstubs)[j] == Block(s);
      assert WordsAt(mem, mem(mem(a + 0x28) + 4 * j), Block(s));
      hide WordsAt;
      BlockAt(mem, mem(mem(a + 0x28) + 4 * j), s);
    }
  }

  lemma BlockAt(mem: Memory, p: nat, s: Stub)
    requires WordsAt(mem, p, Block(s)) && forall r :: r in s.rels ==> r.Fits()
    ensures RelocationsAt(mem, p, s.rels)
  {
    BlockWords(mem, p, s);
    VarWordsRead(s.rels);
    hide RelocationWords, ReadVarRels, VarWordsOf, VarRel.Fits, WordsAt, Block;
  }

  lemma BlockWords(mem: Memory, p: nat, s: Stub)
    requires WordsAt(mem, p, Block(s))
    ensures RelocationWords(mem, p, VarWordsOf(s.rels))
  {
    var ws, b := VarWordsOf(s.rels), Block(s);
    VarWordsLength(s.rels);
    assert b == [BlockSize(s) * 16] + Nats(ws) && BlockSize(s) == 4 + 4 * |ws|;
    hide *;
    WordsOf(mem, p, b, ws);
  }

  lemma WordsOf(mem: Memory, p: nat, b: seq<nat>, ws: seq<ArmReloc.word>)
    requires WordsAt(mem, p, b) && b == [(4 + 4 * |ws|) * 16] + Nats(ws)
    ensures RelocationWords(mem, p, ws)
  {
    assert mem(p + 4 * 0) == b[0];
    forall i | 0 <= i < |ws|
      ensures mem(p + 4 + 4 * i) == ws[i] as nat
    {
      assert b[i + 1] == Nats(ws)[i] && p + 4 * (i + 1) == p + 4 + 4 * i;
    }
  }

  // ---- the whole run ----

  lemma RecordsRead(mem: Memory, starts: Addresses, base: nat, h: nat, m: Module, segs: Segments, fstubs: seq<Stub>, vstubs: seq<Stub>)
    requires Usable(fstubs, vstubs) && DistinctPairs(vstubs) && m.start.Some?
    requires ModuleAt(mem, starts, base, h, WithImports(m, segs, fstubs, vstubs))
    ensures var libs := Collected(fstubs, vstubs);
      Ready(libs, vstubs) && Records(mem, h, |libs|) && forall i :: 0 <= i < |libs| ==>
        libs[i].info.Some? && AllFound(libs[i], vstubs) && ImportAt(mem, RecordAt(mem, base, h, i), ImportOf(segs, libs[i], vstubs))
  {
    hide Low, High, CharIn, ExportAt, ImportAt, ImportOf, AllFound, Collected, Usable, Ready;
    CollectedReady(fstubs, vstubs);
    var libs := Collected(fstubs, vstubs);
    forall i | 0 <= i < |libs|
      ensures libs[i].info.Some? && AllFound(libs[i], vstubs) && ImportAt(mem, RecordAt(mem, base, h, i), ImportOf(segs, libs[i], vstubs))
    {
      ImportsAt(segs, libs, vstubs, i);
    }
  }

  // Of every module that is read back, with n import records:

  /** Every record is that of a library that stubs name, under the description that its last stub gives. */
  lemma LibraryImported(mem: Memory, starts: Addresses, base: nat, h: nat, m: Module, segs: Segments, fstubs: seq<Stub>, vstubs: seq<Stub>,
                        n: nat, i: nat) returns (nid: nat, info: LibInfo)
    requires Usable(fstubs, vstubs) && DistinctPairs(vstubs) && m.start.Some?
    requires ModuleAt(mem, starts, base, h, WithImports(m, segs, fstubs, vstubs)) && Records(mem, h, n) && i < n
    ensures LibraryAt(mem, RecordAt(mem, base, h, i), nid, info) && Describes(fstubs + vstubs, nid, info)
    ensures n == |Collected(fstubs, vstubs)| && nid == Collected(fstubs, vstubs)[i].nid == mem(RecordAt(mem, base, h, i) + 0x10)
  {
    hide *;
    RecordsRead(mem, starts, base, h, m, segs, fstubs, vstubs);
    var libs := Collected(fstubs, vstubs);
    SameCount(mem, h, n, |libs|);
    var l, a := libs[i], RecordAt(mem, base, h, i);
    assert l in libs;
    nid, info := l.nid, l.info.value;
    LibraryDescribed(fstubs, vstubs, l);
    LibraryReads(mem, a, segs, l, vstubs);
    NidOf(mem, a, nid, info);
  }

  /** The records are in strictly descending order of the NIDs. */
  lemma LibrariesDescend(mem: Memory, starts: Addresses, base: nat, h: nat, m: Module, segs: Segments, fstubs: seq<Stub>, vstubs: seq<Stub>,
                         n: nat, i: nat, j: nat)
    requires Usable(fstubs, vstubs) && DistinctPairs(vstubs) && m.start.Some?
    requires ModuleAt(mem, starts, base, h, WithImports(m, segs, fstubs, vstubs)) && Records(mem, h, n) && i < j < n
    ensures mem(RecordAt(mem, base, h, i) + 0x10) > mem(RecordAt(mem, base, h, j) + 0x10)
  {
    ImportTable(fstubs, vstubs, 0);
    hide AddStubs, ModuleAt, WithImports, Usable, DistinctPairs, RecordAt, LibraryAt, Describes, StubsOf, InsertStubs, LastInfo;
    var x, info := LibraryImported(mem, starts, base, h, m, segs, fstubs, vstubs, n, i);
    var y, other := LibraryImported(mem, starts, base, h, m, segs, fstubs, vstubs, n, j);
  }

  /** Entry j of record i is that of the function stub s. */
  ghost predicate IsFunction(mem: Memory, base: nat, h: nat, n: nat, segs: Segments, i: int, j: int, s: Stub) {
    && 0 <= i < n && mem(RecordAt(mem, base, h, i) + 0x10) == s.libraryNid
    && FunctionAt(mem, RecordAt(mem, base, h, i), j, s.targetNid, HostAddress(segs, s.addr))
  }

  /** Entry j of record i is that of the variable stub s, and leads to its relocations. */
  ghost predicate IsVariable(mem: Memory, base: nat, h: nat, n: nat, i: int, j: int, s: Stub) {
    && 0 <= i < n && mem(RecordAt(mem, base, h, i) + 0x10) == s.libraryNid
    && VariableAt(mem, RecordAt(mem, base, h, i), j, s.targetNid, s.rels)
  }

  /** Every function stub of a library in which no address is a target NID has an entry in its library's record. */
  lemma FunctionImported(mem: Memory, starts: Addresses, base: nat, h: nat, m: Module, segs: Segments, fstubs: seq<Stub>, vstubs: seq<Stub>,
                         n: nat, s: Stub)
    requires Usable(fstubs, vstubs) && DistinctPairs(vstubs) && m.start.Some?
    requires ModuleAt(mem, starts, base, h, WithImports(m, segs, fstubs, vstubs)) && Records(mem, h, n)
    requires s in fstubs && NoCoincidence(StubsOf(fstubs, s.libraryNid))
    ensures exists i, j :: IsFunction(mem, base, h, n, segs, i, j, s)
  {
    hide *;
    RecordsRead(mem, starts, base, h, m, segs, fstubs, vstubs);
    var libs := Collected(fstubs, vstubs);
    SameCount(mem, h, n, |libs|);
    assert s in fstubs + vstubs;
    var i := LibraryIndex(fstubs, vstubs, s);
    var l, a := libs[i], RecordAt(mem, base, h, i);
    FunctionsOwn(fstubs, vstubs, i);
    var j := KeptStub(fstubs, s);
    FunctionReads(mem, a, segs, l, vstubs, j);
    LibraryReads(mem, a, segs, l, vstubs);
    NidOf(mem, a, l.nid, l.info.value);
    FunctionIs(mem, base, h, n, segs, i, j, s);
  }

  lemma KeptStub(stubs: seq<Stub>, s: Stub) returns (j: nat)
    requires s in stubs && NoCoincidence(StubsOf(stubs, s.libraryNid))
    ensures j < |InsertStubs(StubsOf(stubs, s.libraryNid))| && InsertStubs(StubsOf(stubs, s.libraryNid))[j] == s
  {
    hide *;
    var of := StubsOf(stubs, s.libraryNid);
    StubsOfLibrary(stubs, s.libraryNid);
    NothingRejected(of);
    assert s in multiset(InsertStubs(of));
    j :| 0 <= j < |InsertStubs(of)| && InsertStubs(of)[j] == s;
  }

  lemma FunctionIs(mem: Memory, base: nat, h: nat, n: nat, segs: Segments, i: nat, j: nat, s: Stub)
    requires i < n && mem(RecordAt(mem, base, h, i) + 0x10) == s.libraryNid
    requires FunctionAt(mem, RecordAt(mem, base, h, i), j, s.targetNid, HostAddress(segs, s.addr))
    ensures IsFunction(mem, base, h, n, segs, i, j, s)
  {
  }

  /** And every entry of a function table is that of a stub. */
  lemma FunctionEntry(mem: Memory, starts: Addresses, base: nat, h: nat, m: Module, segs: Segments, fstubs: seq<Stub>, vstubs: seq<Stub>,
                      n: nat, i: nat, j: nat) returns (s: Stub)
    requires Usable(fstubs, vstubs) && DistinctPairs(vstubs) && m.start.Some?
    requires ModuleAt(mem, starts, base, h, WithImports(m, segs, fstubs, vstubs)) && Records(mem, h, n)
    requires i < n && j < High(mem(RecordAt(mem, base, h, i) + 4))
    ensures s in fstubs && IsFunction(mem, base, h, n, segs, i, j, s)
  {
    hide *;
    RecordsRead(mem, starts, base, h, m, segs, fstubs, vstubs);
    var libs := Collected(fstubs, vstubs);
    SameCount(mem, h, n, |libs|);
    var l, a := libs[i], RecordAt(mem, base, h, i);
    FunctionsOwn(fstubs, vstubs, i);
    FunctionReads(mem, a, segs, l, vstubs, j);
    s := l.functions[j];
    assert s in l.functions;
    LibraryReads(mem, a, segs, l, vstubs);
    NidOf(mem, a, l.nid, l.info.value);
    FunctionIs(mem, base, h, n, segs, i, j, s);
  }

  /** The same for variables. */
  lemma VariableImported(mem: Memory, starts: Addresses, base: nat, h: nat, m: Module, segs: Segments, fstubs: seq<Stub>, vstubs: seq<Stub>,
                         n: nat, s: Stub)
    requires Usable(fstubs, vstubs) && DistinctPairs(vstubs) && m.start.Some? && AllFit(vstubs)
    requires ModuleAt(mem, starts, base, h, WithImports(m, segs, fstubs, vstubs)) && Records(mem, h, n)
    requires s in vstubs && NoCoincidence(StubsOf(vstubs, s.libraryNid))
    ensures exists i, j :: IsVariable(mem, base, h, n, i, j, s)
  {
    hide *;
    RecordsRead(mem, starts, base, h, m, segs, fstubs, vstubs);
    var libs := Collected(fstubs, vstubs);
    SameCount(mem, h, n, |libs|);
    assert s in fstubs + vstubs;
    var i := LibraryIndex(fstubs, vstubs, s);
    var l, a := libs[i], RecordAt(mem, base, h, i);
    LibraryOwn(fstubs, vstubs, i);
    var j := KeptStub(vstubs, s);
    VariableReads(mem, a, segs, l, vstubs, j);
    LibraryReads(mem, a, segs, l, vstubs);
    NidOf(mem, a, l.nid, l.info.value);
    VariableIs(mem, base, h, n, i, j, s);
  }

  lemma VariableEntry(mem: Memory, starts: Addresses, base: nat, h: nat, m: Module, segs: Segments, fstubs: seq<Stub>, vstubs: seq<Stub>,
                      n: nat, i: nat, j: nat) returns (s: Stub)
    requires Usable(fstubs, vstubs) && DistinctPairs(vstubs) && m.start.Some? && AllFit(vstubs)
    requires ModuleAt(mem, starts, base, h, WithImports(m, segs, fstubs, vstubs)) && Records(mem, h, n)
    requires i < n && j < Low(mem(RecordAt(mem, base, h, i) + 8))
    ensures s in vstubs && IsVariable(mem, base, h, n, i, j, s)
  {
    hide *;
    RecordsRead(mem, starts, base, h, m, segs, fstubs, vstubs);
    var libs := Collected(fstubs, vstubs);
    SameCount(mem, h, n, |libs|);
    LibraryOwn(fstubs, vstubs, i);
    var l, a := libs[i], RecordAt(mem, base, h, i);
    VariableReads(mem, a, segs, l, vstubs, j);
    s := l.variables[j];
    assert s in l.variables;
    LibraryReads(mem, a, segs, l, vstubs);
    NidOf(mem, a, l.nid, l.info.value);
    VariableIs(mem, base, h, n, i, j, s);
  }

  lemma VariableIs(mem: Memory, base: nat, h: nat, n: nat, i: nat, j: nat, s: Stub)
    requires i < n && mem(RecordAt(mem, base, h, i) + 0x10) == s.libraryNid
    requires VariableAt(mem, RecordAt(mem, base, h, i), j, s.targetNid, s.rels)
    ensures IsVariable(mem, base, h, n, i, j, s)
  {
  }

  ghost predicate AllFit(stubs: seq<Stub>) {
    forall s, r :: s in stubs && r in s.rels ==> r.Fits()
  }

  lemma NidOf(mem: Memory, a: nat, nid: nat, info: LibInfo)
    requires LibraryAt(mem, a, nid, info)
    ensures mem(a + 0x10) == nid
  {
  }

  lemma SameCount(mem: Memory, h: nat, n: nat, other: nat)
    requires Records(mem, h, n) && Records(mem, h, other)
    ensures n == other
  {
  }

  lemma LibraryIndex(fstubs: seq<Stub>, vstubs: seq<Stub>, s: Stub) returns (i: nat)
    requires s in fstubs + vstubs
    ensures i < |Collected(fstubs, vstubs)| && Collected(fstubs, vstubs)[i].nid == s.libraryNid
  {
    hide AddStubs, InsertStubs, StubsOf, LastInfo;
    ImportTable(fstubs, vstubs, s.libraryNid);
    var libs := Collected(fstubs, vstubs);
    var l :| l in libs && l.nid == s.libraryNid;
    i :| 0 <= i < |libs| && libs[i] == l;
  }

  lemma FunctionsOwn(fstubs: seq<Stub>, vstubs: seq<Stub>, i: nat)
    requires Usable(fstubs, vstubs) && i < |Collected(fstubs, vstubs)|
    ensures var l := Collected(fstubs, vstubs)[i];
      l.functions == InsertStubs(StubsOf(fstubs, l.nid)) && forall s :: s in l.functions ==> s in fstubs && s.libraryNid == l.nid
  {
    hide AddStubs, InsertStubs, StubsOf;
    var l := Collected(fstubs, vstubs)[i];
    assert l in Collected(fstubs, vstubs);
    LibraryDescribed(fstubs, vstubs, l);
    StubsOfLibrary(fstubs, l.nid);
    InsertStubsFrom(StubsOf(fstubs, l.nid));
    forall s | s in l.functions
      ensures s in fstubs && s.libraryNid == l.nid
    {
      assert s in multiset(l.functions);
      assert s in StubsOf(fstubs, l.nid);
    }
  }

  lemma LibraryOwn(fstubs: seq<Stub>, vstubs: seq<Stub>, i: nat)
    requires Usable(fstubs, vstubs) && DistinctPairs(vstubs) && i < |Collected(fstubs, vstubs)|
    ensures var l := Collected(fstubs, vstubs)[i];
      && l.variables == InsertStubs(StubsOf(vstubs, l.nid))
      && (forall s :: s in l.variables ==> Find(vstubs, l.nid, s.targetNid) == Some(s) && s in vstubs && s.libraryNid == l.nid)
      && (AllFit(vstubs) ==> AllFit(l.variables))
  {
    hide AddStubs, InsertStubs, StubsOf, Find;
    var l := Collected(fstubs, vstubs)[i];
    assert l in Collected(fstubs, vstubs);
    LibraryDescribed(fstubs, vstubs, l);
    VariablesFound(fstubs, vstubs, l);
    StubsOfLibrary(vstubs, l.nid);
    InsertStubsFrom(StubsOf(vstubs, l.nid));
    forall s | s in l.variables
      ensures s in vstubs && s.libraryNid == l.nid
    {
      assert s in multiset(l.variables);
      assert s in StubsOf(vstubs, l.nid);
    }
  }
}
