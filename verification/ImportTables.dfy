/** From the collected libraries to the import tables (`set_module_import`), and when the
    relocation blocks found for the imported variables are those of all variable stubs. */
module ImportTables {
  import opened Wrappers
  import opened VArray
  import opened Imports
  import ArmReloc
  import opened SceRel
  import opened ModuleImage
  import opened ModuleSize

  const WEAK := 0x8

  /** `set_module_import`'s version: the upper half of the library flags, at least 1. */
  function VersionOf(flags: nat): (v: nat)
    ensures 1 <= v < 0x1_0000
  {
    var high := flags / 0x1_0000 % 0x1_0000;
    if high <= 1 then 1 else high
  }

  /** flags & VITA_STUB_GEN_2_FLAG_WEAK. */
  function FlagsOf(flags: nat): (f: nat)
    ensures f < 0x1_0000
  {
    if flags / WEAK % 2 == 1 then 0x8 else 0
  }

  function Nats(ws: seq<ArmReloc.word>): (ns: seq<nat>)
    ensures |ns| == |ws|
  {
    seq(|ws|, i requires 0 <= i < |ws| => ws[i] as nat)
  }

  /** The words of a block: its size in bytes shifted left by four, and the relocation records. */
  function Block(s: Stub): (ws: seq<nat>)
    ensures 4 * |ws| == BlockSize(s)
  {
    VarWordsLength(s.rels);
    [BlockSize(s) * 16] + Nats(VarWordsOf(s.rels))
  }

  /** ns are the values of the words ws. */
  ghost predicate AreWords(ns: seq<nat>, ws: seq<ArmReloc.word>) {
    |ns| == |ws| && forall i :: 0 <= i < |ns| ==> ns[i] < 0x1_0000_0000 && ws[i] == ns[i] as bv32
  }

  lemma WordBack(w: ArmReloc.word)
    ensures w as nat < 0x1_0000_0000 && (w as nat) as bv32 == w
  {
  }

  /** A block tells its own size, and the records behind its header are read back. */
  lemma BlockReadsBack(s: Stub, ws: seq<ArmReloc.word>)
    requires (forall r :: r in s.rels ==> r.Fits()) && AreWords(Block(s)[1..], ws)
    ensures Block(s)[0] / 16 == 4 * |Block(s)| == 4 + RelInfoSize(s.rels)
    ensures ReadVarRels(ws) == s.rels
  {
    hide RelInfoSize, ReadVarRels, VarWordsOf, VarRel.Fits;
    var vs := VarWordsOf(s.rels);
    forall i | 0 <= i < |vs|
      ensures ws[i] == vs[i]
    {
      assert Block(s)[1..][i] == Nats(vs)[i] == vs[i] as nat;
      WordBack(vs[i]);
    }
    assert ws == vs;
    VarWordsRead(s.rels);
  }

  /** The encoder's search for the stub of an imported variable. */
  function Find(vstubs: seq<Stub>, libraryNid: nat, targetNid: nat): (r: Option<Stub>)
    ensures r.Some? ==> r.value in vstubs && r.value.libraryNid == libraryNid && r.value.targetNid == targetNid
    ensures r == None ==> forall s :: s in vstubs ==> !(s.libraryNid == libraryNid && s.targetNid == targetNid)
  {
    if vstubs == [] then None
    else if vstubs[0].libraryNid == libraryNid && vstubs[0].targetNid == targetNid then Some(vstubs[0])
    else
      assert forall s :: s in vstubs <==> s == vstubs[0] || s in vstubs[1..];
      Find(vstubs[1..], libraryNid, targetNid)
  }

  ghost predicate AllFound(l: Library, vstubs: seq<Stub>) {
    forall s :: s in l.variables ==> Find(vstubs, l.nid, s.targetNid).Some?
  }

  function Blocks(l: Library, vstubs: seq<Stub>): (bs: seq<seq<nat>>)
    requires AllFound(l, vstubs)
    ensures |bs| == |l.variables|
  {
    seq(|l.variables|, i requires 0 <= i < |l.variables| => Block(Find(vstubs, l.nid, l.variables[i].targetNid).value))
  }

  function Nids(stubs: seq<Stub>): (ws: seq<nat>)
    ensures |ws| == |stubs|
  {
    seq(|stubs|, i requires 0 <= i < |stubs| => stubs[i].targetNid)
  }

  /** The address of a stub, as it comes back from its host pointer: 0 outside every segment. */
  type Segments = seq<(nat, nat)>

  function HostAddress(segs: Segments, a: nat): nat {
    if exists s :: s in segs && s.0 <= a < s.0 + s.1 then a else 0
  }

  function Entries(segs: Segments, stubs: seq<Stub>): (ws: seq<nat>)
    ensures |ws| == |stubs|
  {
    seq(|stubs|, i requires 0 <= i < |stubs| => HostAddress(segs, stubs[i].addr))
  }

  function ImportOf(segs: Segments, l: Library, vstubs: seq<Stub>): Import
    requires l.info.Some? && AllFound(l, vstubs)
  {
    var lib := l.info.value;
    Import(VersionOf(lib.flags), FlagsOf(lib.flags), l.nid, Some(lib.name),
           Nids(l.functions), Entries(segs, l.functions), Nids(l.variables), Blocks(l, vstubs))
  }

  lemma ImportOfValid(segs: Segments, l: Library, vstubs: seq<Stub>)
    requires l.info.Some? && AllFound(l, vstubs) && |l.functions| < 0x1_0000 && |l.variables| < 0x1_0000
    ensures ImportOf(segs, l, vstubs).Valid()
  {
    hide Nids, Entries, Blocks;
  }

  // ---- variable stubs with distinct (library, target) NIDs ----

  ghost predicate DistinctPairs(stubs: seq<Stub>) {
    forall i, j :: 0 <= i < j < |stubs| ==> stubs[i].libraryNid != stubs[j].libraryNid || stubs[i].targetNid != stubs[j].targetNid
  }

  lemma FindsItself(vstubs: seq<Stub>, s: Stub)
    requires DistinctPairs(vstubs) && s in vstubs
    ensures Find(vstubs, s.libraryNid, s.targetNid) == Some(s)
  {
    var r := Find(vstubs, s.libraryNid, s.targetNid);
    hide Find;
    assert r.Some?;
    var i :| 0 <= i < |vstubs| && vstubs[i] == s;
    var j :| 0 <= j < |vstubs| && vstubs[j] == r.value;
    assert i == j;
  }

  /** The variables of a library are stubs of that library, so each finds itself. */
  lemma VariablesFound(fstubs: seq<Stub>, vstubs: seq<Stub>, l: Library)
    requires DistinctPairs(vstubs) && l in AddStubs(AddStubs([], fstubs, false), vstubs, true)
    ensures forall s :: s in l.variables ==> Find(vstubs, l.nid, s.targetNid) == Some(s)
    ensures AllFound(l, vstubs)
  {
    ImportTable(fstubs, vstubs, l.nid);
    hide AddStubs, Find, InsertStubs, StubsOf, LastInfo;
    assert l.variables == InsertStubs(StubsOf(vstubs, l.nid));
    forall s | s in l.variables
      ensures Find(vstubs, l.nid, s.targetNid) == Some(s)
    {
      InsertStubsFrom(StubsOf(vstubs, l.nid));
      assert s in multiset(StubsOf(vstubs, l.nid));
      StubsOfLibrary(vstubs, l.nid);
      FindsItself(vstubs, s);
    }
  }

  lemma {:induction false} ConcatOfFound(l: Library, vstubs: seq<Stub>, n: nat)
    requires n <= |l.variables| && AllFound(l, vstubs)
    requires forall s :: s in l.variables ==> Find(vstubs, l.nid, s.targetNid) == Some(s)
    ensures 4 * |Concat(Blocks(l, vstubs)[..n])| == StubBytes(l.variables[..n])
  {
    hide Find, Block;
    if n > 0 {
      ConcatOfFound(l, vstubs, n - 1);
      assert Blocks(l, vstubs)[..n][..n - 1] == Blocks(l, vstubs)[..n - 1];
      assert l.variables[..n][..n - 1] == l.variables[..n - 1];
      assert l.variables[n - 1] in l.variables;
      assert Blocks(l, vstubs)[n - 1] == Block(l.variables[n - 1]);
    }
  }

  // ---- what the libraries hold together ----

  function Bytes(libs: seq<Library>): (ws: seq<nat>)
    ensures |ws| == |libs|
  {
    seq(|libs|, i requires 0 <= i < |libs| => StubBytes(libs[i].variables))
  }

  function Counts(libs: seq<Library>): (ws: seq<nat>)
    ensures |ws| == |libs|
  {
    seq(|libs|, i requires 0 <= i < |libs| => |libs[i].variables|)
  }

  lemma {:induction false} StubBytesInsert(s: seq<Stub>, e: Stub, i: nat)
    requires i <= |s|
    ensures StubBytes(InsertAt(s, e, i)) == StubBytes(s) + BlockSize(e)
  {
    hide BlockSize;
    var t := InsertAt(s, e, i);
    if i == |s| {
      assert t[..|s|] == s;
    } else {
      assert t[..|s|] == InsertAt(s[..|s| - 1], e, i);
      StubBytesInsert(s[..|s| - 1], e, i);
    }
  }

  /** An insertion adds the stub's bytes or, when it is rejected, nothing. */
  lemma InsertStubBytes(s: seq<Stub>, e: Stub)
    ensures var r := InsertStub(s, e);
      || (StubBytes(r) == StubBytes(s) + BlockSize(e) && |r| == |s| + 1)
      || (StubBytes(r) == StubBytes(s) && |r| == |s|)
  {
    hide Index;
    StubBytesInsert(s, e, Index(s, e, StubSort));
    hide StubBytes, BlockSize;
  }

  lemma ReplacedSums(libs: seq<Library>, r: seq<Library>, i: nat, x: Library, old': Library)
    requires Replaces(libs, r, i, x)
    requires |r| == |libs| ==> libs[i] == old'
    requires |r| > |libs| ==> old'.variables == []
    ensures Sum(Bytes(r)) + StubBytes(old'.variables) == Sum(Bytes(libs)) + StubBytes(x.variables)
    ensures Sum(Counts(r)) + |old'.variables| == Sum(Counts(libs)) + |x.variables|
  {
    hide Sum;
    if |r| == |libs| {
      assert Bytes(r) == Bytes(libs)[i := StubBytes(x.variables)];
      assert Counts(r) == Counts(libs)[i := |x.variables|];
      SumUpdate(Bytes(libs), i, StubBytes(x.variables));
      SumUpdate(Counts(libs), i, |x.variables|);
    } else {
      assert StubBytes([]) == 0;
      assert Bytes(r) == InsertAt(Bytes(libs), StubBytes(x.variables), i);
      assert Counts(r) == InsertAt(Counts(libs), |x.variables|, i);
      SumInsert(Bytes(libs), i, StubBytes(x.variables));
      SumInsert(Counts(libs), i, |x.variables|);
    }
  }

  lemma KnownAt(libs: seq<Library>, r: seq<Library>, i: nat, x: Library)
    requires Descending(libs) && Replaces(libs, r, i, x)
    ensures |r| == |libs| ==> i < |libs| && Known(LibraryMap(libs), x.nid) == libs[i]
    ensures |r| > |libs| ==> Known(LibraryMap(libs), x.nid) == NO_LIBRARY
  {
  }

  /** One stub more: its bytes and one entry, or neither. */
  lemma AddStubTotals(libs: seq<Library>, stub: Stub)
    requires Descending(libs)
    ensures var r := AddStub(libs, stub, true);
      || (Sum(Bytes(r)) == Sum(Bytes(libs)) + BlockSize(stub) && Sum(Counts(r)) == Sum(Counts(libs)) + 1)
      || (Sum(Bytes(r)) == Sum(Bytes(libs)) && Sum(Counts(r)) == Sum(Counts(libs)))
  {
    var known := Known(LibraryMap(libs), stub.libraryNid);
    var i, x := Index(libs, stub.libraryNid, LibrarySearch), Touch(known, stub, true);
    AddStubReplaces(libs, stub, true);
    KnownAt(libs, AddStub(libs, stub, true), i, x);
    assert |AddStub(libs, stub, true)| >= |libs|;
    ReplacedSums(libs, AddStub(libs, stub, true), i, x, known);
    InsertStubBytes(known.variables, stub);
  }

  lemma {:induction false} AddStubsTotals(libs: seq<Library>, stubs: seq<Stub>)
    requires Descending(libs)
    ensures var r := AddStubs(libs, stubs, true);
      && Sum(Bytes(r)) <= Sum(Bytes(libs)) + StubBytes(stubs) && Sum(Counts(r)) <= Sum(Counts(libs)) + |stubs|
      && (Sum(Bytes(r)) == Sum(Bytes(libs)) + StubBytes(stubs) <==> Sum(Counts(r)) == Sum(Counts(libs)) + |stubs|)
  {
    hide AddStub, Sum, Bytes, Counts, Descending;
    if stubs != [] {
      var n := |stubs| - 1;
      AddStubsTotals(libs, stubs[..n]);
      AddStubsUpdates(libs, stubs[..n], true, 0);
      AddStubTotals(AddStubs(libs, stubs[..n], true), stubs[n]);
    }
  }

  lemma {:induction false} FunctionsAddNoBytes(libs: seq<Library>, stubs: seq<Stub>)
    requires Descending(libs) && (forall l :: l in libs ==> l.variables == [])
    ensures forall l :: l in AddStubs(libs, stubs, false) ==> l.variables == []
  {
    hide AddStub, Descending;
    if stubs != [] {
      var n := |stubs| - 1;
      var before := AddStubs(libs, stubs[..n], false);
      FunctionsAddNoBytes(libs, stubs[..n]);
      AddStubsUpdates(libs, stubs[..n], false, 0);
      FunctionAddsNone(before, stubs[n]);
    }
  }

  lemma FunctionAddsNone(libs: seq<Library>, stub: Stub)
    requires Descending(libs) && forall l :: l in libs ==> l.variables == []
    ensures forall l :: l in AddStub(libs, stub, false) ==> l.variables == []
  {
    hide InsertStub, Index;
    AddStubReplaces(libs, stub, false);
    hide AddStub;
    var i, x := Index(libs, stub.libraryNid, LibrarySearch), Touch(Known(LibraryMap(libs), stub.libraryNid), stub, false);
    ReplacedElements(libs, AddStub(libs, stub, false), i, x);
  }

  lemma {:induction false} NoVariablesNoBytes(libs: seq<Library>)
    requires forall l :: l in libs ==> l.variables == []
    ensures Sum(Bytes(libs)) == 0 && Sum(Counts(libs)) == 0
  {
    forall i | 0 <= i < |libs|
      ensures Bytes(libs)[i] == 0 && Counts(libs)[i] == 0
    {
      assert libs[i] in libs;
    }
    hide Bytes, Counts;
    ZeroSum(Bytes(libs));
    ZeroSum(Counts(libs));
  }

  /** The libraries' blocks take the bytes of all variable stubs exactly when every variable
      stub found its place in a table. */
  lemma AllBytesIff(fstubs: seq<Stub>, vstubs: seq<Stub>)
    ensures var libs := AddStubs(AddStubs([], fstubs, false), vstubs, true);
      Sum(Bytes(libs)) <= StubBytes(vstubs) && (Sum(Bytes(libs)) == StubBytes(vstubs) <==> Sum(Counts(libs)) == |vstubs|)
  {
    hide AddStubs, Sum, Bytes, Counts, StubBytes;
    var mid := AddStubs([], fstubs, false);
    FunctionsAddNoBytes([], fstubs);
    AddStubsUpdates([], fstubs, false, 0);
    NoVariablesNoBytes(mid);
    AddStubsTotals(mid, vstubs);
  }

  ghost predicate Ready(libs: seq<Library>, vstubs: seq<Stub>) {
    forall l :: l in libs ==> l.info.Some? && AllFound(l, vstubs) && |l.functions| < 0x1_0000 && |l.variables| < 0x1_0000
  }

  /** The import tables of all libraries, in their order. */
  function ImportsOf(segs: Segments, libs: seq<Library>, vstubs: seq<Stub>): (ims: seq<Import>)
    requires Ready(libs, vstubs)
    ensures |ims| == |libs| && forall im :: im in ims ==> im.Valid()
  {
    if libs == [] then []
    else
      assert libs[|libs| - 1] in libs;
      ImportOfValid(segs, libs[|libs| - 1], vstubs);
      ImportsOf(segs, libs[..|libs| - 1], vstubs) + [ImportOf(segs, libs[|libs| - 1], vstubs)]
  }

  lemma {:induction false} BlockBytesOfLibraries(segs: Segments, libs: seq<Library>, vstubs: seq<Stub>)
    requires Ready(libs, vstubs)
    requires forall l, s :: l in libs && s in l.variables ==> Find(vstubs, l.nid, s.targetNid) == Some(s)
    ensures BlockBytes(ImportsOf(segs, libs, vstubs)) == Sum(Bytes(libs))
  {
    hide Find, Concat, Blocks, AllFound, StubBytes, Import.Valid;
    if libs != [] {
      var n := |libs| - 1;
      var l := libs[n];
      assert l in libs;
      BlockBytesOfLibraries(segs, libs[..n], vstubs);
      ConcatOfFound(l, vstubs, |l.variables|);
      assert Blocks(l, vstubs)[..|l.variables|] == Blocks(l, vstubs) && l.variables[..|l.variables|] == l.variables;
      var ims := ImportsOf(segs, libs, vstubs);
      assert ims[..|ims| - 1] == ImportsOf(segs, libs[..n], vstubs);
      assert Bytes(libs)[..n] == Bytes(libs[..n]);
    }
  }

  /** For variable stubs with distinct NIDs the block bytes of the imports are never more than those of
      the stubs, and as many exactly when every stub was inserted. */
  lemma BlocksCoverIff(segs: Segments, fstubs: seq<Stub>, vstubs: seq<Stub>)
    requires DistinctPairs(vstubs)
    requires Ready(AddStubs(AddStubs([], fstubs, false), vstubs, true), vstubs)
    ensures var libs := AddStubs(AddStubs([], fstubs, false), vstubs, true);
      && BlockBytes(ImportsOf(segs, libs, vstubs)) <= StubBytes(vstubs)
      && (BlockBytes(ImportsOf(segs, libs, vstubs)) == StubBytes(vstubs) <==> Sum(Counts(libs)) == |vstubs|)
  {
    hide *;
    var libs := AddStubs(AddStubs([], fstubs, false), vstubs, true);
    forall l, s | l in libs && s in l.variables
      ensures Find(vstubs, l.nid, s.targetNid) == Some(s)
    {
      VariablesFound(fstubs, vstubs, l);
    }
    BlockBytesOfLibraries(segs, libs, vstubs);
    AllBytesIff(fstubs, vstubs);
  }

  /** When no address happens to be a target NID, every variable stub is inserted. */
  lemma AllInserted(fstubs: seq<Stub>, vstubs: seq<Stub>)
    requires NoCoincidence(vstubs)
    ensures Sum(Counts(AddStubs(AddStubs([], fstubs, false), vstubs, true))) == |vstubs|
  {
    var mid := AddStubs([], fstubs, false);
    assert Descending([]);
    FunctionsAddNoBytes([], fstubs);
    AddStubsUpdates([], fstubs, false, 0);
    NoVariablesNoBytes(mid);
    CountsGrow(mid, vstubs);
  }

  lemma {:induction false} CountsGrow(libs: seq<Library>, stubs: seq<Stub>)
    requires Descending(libs) && NoCoincidence(stubs) && forall l :: l in libs ==> l.variables == []
    ensures Sum(Counts(AddStubs(libs, stubs, true))) == Sum(Counts(libs)) + |stubs|
  {
    hide AddStub, Sum, Bytes, Counts, Descending, InsertStub, StubsOf, Touched;
    if stubs != [] {
      var n := |stubs| - 1;
      var before, s := AddStubs(libs, stubs[..n], true), stubs[n];
      assert forall x :: x in stubs[..n] ==> x in stubs;
      CountsGrow(libs, stubs[..n]);
      AddStubsUpdates(libs, stubs[..n], true, s.libraryNid);
      var known := Known(LibraryMap(before), s.libraryNid);
      VariablesKnown(libs, stubs[..n], s.libraryNid);
      InsertedLength(known.variables, s);
      KeptUnlessCoincident(known.variables, s);
      assert |InsertStub(known.variables, s)| == |multiset(InsertStub(known.variables, s))| == |known.variables| + 1;
      OneMore(before, s);
    }
  }

  lemma VariablesKnown(libs: seq<Library>, stubs: seq<Stub>, nid: nat)
    requires Descending(libs) && forall l :: l in libs ==> l.variables == []
    ensures Descending(AddStubs(libs, stubs, true))
    ensures forall x :: x in Known(LibraryMap(AddStubs(libs, stubs, true)), nid).variables ==> x in stubs
  {
    AddStubsUpdates(libs, stubs, true, nid);
    var l, of := Known(LibraryMap(libs), nid), StubsOf(stubs, nid);
    assert l.variables == [];
    StubsOfLibrary(stubs, nid);
    TouchedParts(l, nid, of, true);
    InsertStubsFrom(of);
    forall x | x in InsertStubs(of)
      ensures x in stubs
    {
      assert x in multiset(of);
    }
  }

  lemma OneMore(libs: seq<Library>, stub: Stub)
    requires Descending(libs)
    requires var known := Known(LibraryMap(libs), stub.libraryNid); |InsertStub(known.variables, stub)| == |known.variables| + 1
    ensures Sum(Counts(AddStub(libs, stub, true))) == Sum(Counts(libs)) + 1
  {
    var known := Known(LibraryMap(libs), stub.libraryNid);
    var i, x := Index(libs, stub.libraryNid, LibrarySearch), Touch(known, stub, true);
    AddStubReplaces(libs, stub, true);
    KnownAt(libs, AddStub(libs, stub, true), i, x);
    assert |AddStub(libs, stub, true)| >= |libs|;
    ReplacedSums(libs, AddStub(libs, stub, true), i, x, known);
  }
}
