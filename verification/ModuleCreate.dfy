/** From the stubs to the encoded block: `sce_elf_module_info_create` collects the imports, the size pass
    counts, and `sce_elf_module_info_encode` writes (vita-elf-create.c runs them in this order). */
module ModuleCreate {
  import opened Wrappers
  import opened Imports
  import opened ModuleImage
  import opened ModuleInfo
  import opened ModuleRelas
  import opened ModuleSize
  import opened ImportTables
  import opened ModuleEncode
  import opened EncodeModule

  /** Every stub knows its library, and the counts fit their 16-bit fields. */
  ghost predicate Usable(fstubs: seq<Stub>, vstubs: seq<Stub>) {
    && (forall s :: s in fstubs + vstubs ==> s.info.Some?)
    && |fstubs| < 0x1_0000 && |vstubs| < 0x1_0000
  }

  ghost function Collected(fstubs: seq<Stub>, vstubs: seq<Stub>): seq<Library> {
    AddStubs(AddStubs([], fstubs, false), vstubs, true)
  }

  lemma {:induction false} StubsOfLength(stubs: seq<Stub>, nid: nat)
    ensures |StubsOf(stubs, nid)| <= |stubs| && forall s :: s in StubsOf(stubs, nid) ==> s in stubs
  {
    StubsOfLibrary(stubs, nid);
    if stubs != [] {
      StubsOfLength(stubs[..|stubs| - 1], nid);
    }
  }

  lemma {:induction false} InsertStubsLength(stubs: seq<Stub>)
    ensures |InsertStubs(stubs)| <= |stubs|
  {
    if stubs != [] {
      InsertStubsLength(stubs[..|stubs| - 1]);
      InsertedLength(InsertStubs(stubs[..|stubs| - 1]), stubs[|stubs| - 1]);
    }
  }

  lemma {:induction false} InfoKept(before: Option<LibInfo>, stubs: seq<Stub>)
    requires forall s :: s in stubs ==> s.info.Some?
    ensures stubs != [] || before.Some? ==> LastInfo(before, stubs).Some?
  {
    if stubs != [] {
      assert stubs[|stubs| - 1] in stubs;
      InfoKept(before, stubs[..|stubs| - 1]);
    }
  }

  /** Then every collected library has what its import table needs. */
  lemma LibraryReady(fstubs: seq<Stub>, vstubs: seq<Stub>, l: Library)
    requires Usable(fstubs, vstubs) && DistinctPairs(vstubs) && l in Collected(fstubs, vstubs)
    ensures l.info.Some? && AllFound(l, vstubs) && |l.functions| < 0x1_0000 && |l.variables| < 0x1_0000
  {
    VariablesFound(fstubs, vstubs, l);
    ImportTable(fstubs, vstubs, l.nid);
    hide AddStubs, AllFound, InsertStubs, StubsOf, LastInfo;
    var fs, vs := StubsOf(fstubs, l.nid), StubsOf(vstubs, l.nid);
    StubsOfLength(fstubs, l.nid);
    StubsOfLength(vstubs, l.nid);
    InsertStubsLength(fs);
    InsertStubsLength(vs);
    assert fs != [] || vs != [] by {
      var s :| s in fstubs + vstubs && s.libraryNid == l.nid;
      StubsOfLibrary(fstubs, l.nid);
      StubsOfLibrary(vstubs, l.nid);
    }
    forall s: Stub | s in fs + vs
      ensures s.info.Some?
    {
      assert s in fstubs + vstubs;
    }
    assert (forall s :: s in fs ==> s in fs + vs) && (forall s :: s in vs ==> s in fs + vs);
    InfoKept(None, fs);
    InfoKept(LastInfo(None, fs), vs);
  }

  lemma CollectedReady(fstubs: seq<Stub>, vstubs: seq<Stub>)
    requires Usable(fstubs, vstubs) && DistinctPairs(vstubs)
    ensures Ready(Collected(fstubs, vstubs), vstubs)
  {
    hide Collected, Usable, AllFound;
    forall l | l in Collected(fstubs, vstubs)
      ensures l.info.Some? && AllFound(l, vstubs) && |l.functions| < 0x1_0000 && |l.variables| < 0x1_0000
    {
      LibraryReady(fstubs, vstubs, l);
    }
  }

  /** The module with the collected imports. */
  ghost function WithImports(m: Module, segments: Segments, fstubs: seq<Stub>, vstubs: seq<Stub>): Module
    requires Usable(fstubs, vstubs) && DistinctPairs(vstubs)
  {
    CollectedReady(fstubs, vstubs);
    m.(imports := ImportsOf(segments, Collected(fstubs, vstubs), vstubs))
  }

  /** `set_module_import` for every library of the table. */
  method SetImports(segments: Segments, libs: seq<Library>, vstubs: seq<Stub>) returns (ims: seq<Import>)
    requires Ready(libs, vstubs)
    ensures ims == ImportsOf(segments, libs, vstubs)
  {
    ims := [];
    var i := 0;
    while i < |libs|
      invariant i <= |libs| && Ready(libs[..i], vstubs) && ims == ImportsOf(segments, libs[..i], vstubs)
    {
      assert libs[i] in libs;
      assert libs[..i + 1][..i] == libs[..i] && libs[..i + 1][i] == libs[i];
      ims := ims + [ImportOf(segments, libs[i], vstubs)];
      i := i + 1;
    }
    assert libs[..i] == libs;
  }

  /** What the encoder cannot take, whatever the stubs. */
  ghost predicate Unfit(m: Module, segments: Segments, segndx: nat, processParamSize: nat, haveLibc: bool, vstubs: seq<Stub>)
    requires segndx < |segments|
  {
    var sizes := Sizes(m, processParamSize + (if haveLibc then LIBC_PARAM_SIZE else 0), vstubs);
    || Overlaps(segments, segndx, segments[segndx].0 + StartOffset(segments, segndx), Sum(sizes))
    || !KnownParams(processParamSize) || exists im :: im in m.imports && !Small(im)
  }

  /** The image of a module whose header names its nine sections by these offsets and by their sizes. */
  ghost function Encoded(m: Module, starts: Addresses, offsets: Addresses, processParamSize: nat, haveLibc: bool, vstubs: seq<Stub>): Image {
    Full(starts, Header(m, offsets, Sizes(m, processParamSize + (if haveLibc then LIBC_PARAM_SIZE else 0), vstubs)),
         ParamWords(processParamSize, haveLibc), m)
  }

  /** Wherever a loader finds this block, it finds the module in it; the relocations are those of the
      nonzero pointer words, each once. */
  ghost predicate ReadsBack(block: seq<nat>, relas: seq<Abs32>, starts: Addresses, base: nat, origin: nat, m: Module) {
    Distinct(relas) && forall mem: Memory :: WordsAt(mem, origin, block) ==>
      ModuleAt(mem, starts, base, origin, m)
      && relas == RelasOf(mem, ExportsSlots(mem, starts[LIBENT], |m.exports|) + ImportsSlots(mem, starts[LIBSTUBS], |m.imports|))
  }

  function BlockMemory(origin: nat, ws: seq<nat>): Memory {
    (a: nat) => if origin <= a && (a - origin) / 4 < |ws| then ws[(a - origin) / 4] else 0
  }

  lemma BlockThere(origin: nat, ws: seq<nat>)
    ensures WordsAt(BlockMemory(origin, ws), origin, ws)
  {
  }

  lemma EncodedReadsBack(m: Module, base: nat, origin: nat, starts: Addresses, offsets: Addresses, sizes: Addresses,
                         params: nat, vstubs: seq<Stub>)
    requires m.Valid() && sizes == Sizes(m, 4 * params, vstubs) && BlockBytes(m.imports) == StubBytes(vstubs)
    requires forall k :: 0 <= k < 9 ==> starts[k] == base + offsets[k]
    requires var full := Full(starts, Header(m, offsets, sizes), params, m);
      forall k :: 0 <= k < 9 ==> starts[k] == origin + 4 * |Concat(full.secs[..k])|
    ensures var full := Full(starts, Header(m, offsets, sizes), params, m);
      ReadsBack(Concat(full.secs), full.relas, starts, base, origin, m)
  {
    hide BlockBytes, BlockMemory, Concat, Distinct, ExportsSlots, Full, Header, ImportsSlots, Module.Valid, ModuleAt, RelasOf, Sizes,
      StubBytes, WordsAt;
    var full := Full(starts, Header(m, offsets, sizes), params, m);
    var block := Concat(full.secs);
    BlockThere(origin, block);
    LoadedModule(BlockMemory(origin, block), m, base, origin, starts, offsets, sizes, params, vstubs);
    forall mem: Memory | WordsAt(mem, origin, block)
      ensures ModuleAt(mem, starts, base, origin, m)
      ensures full.relas == RelasOf(mem, ExportsSlots(mem, starts[LIBENT], |m.exports|) + ImportsSlots(mem, starts[LIBSTUBS], |m.imports|))
    {
      LoadedModule(mem, m, base, origin, starts, offsets, sizes, params, vstubs);
    }
  }

  lemma ParamWordsKnown(processParamSize: nat, haveLibc: bool)
    requires KnownParams(processParamSize)
    ensures 4 * ParamWords(processParamSize, haveLibc) == processParamSize + (if haveLibc then LIBC_PARAM_SIZE else 0)
  {
  }

  lemma PlacedReadsBack(r: (array<nat>, seq<Abs32>), m: Module, segments: Segments, segndx: nat, starts: Addresses, offsets: Addresses,
                        processParamSize: nat, haveLibc: bool, vstubs: seq<Stub>)
    requires m.Valid() && segndx < |segments| && KnownParams(processParamSize) && BlockBytes(m.imports) == StubBytes(vstubs)
    requires forall k :: 0 <= k < 9 ==> starts[k] == segments[segndx].0 + offsets[k]
    requires Placed(r, starts, segments[segndx].0 + StartOffset(segments, segndx),
                    Encoded(m, starts, offsets, processParamSize, haveLibc, vstubs))
    ensures ReadsBack(r.0[..], r.1, starts, segments[segndx].0, segments[segndx].0 + StartOffset(segments, segndx), m)
  {
    hide BlockBytes, Concat, Full, Header, Module.Valid, Sizes, StubBytes, ReadsBack, ParamWords, StartOffset;
    ParamWordsKnown(processParamSize, haveLibc);
    var sizes := Sizes(m, processParamSize + (if haveLibc then LIBC_PARAM_SIZE else 0), vstubs);
    EncodedReadsBack(m, segments[segndx].0, segments[segndx].0 + StartOffset(segments, segndx), starts, offsets, sizes,
                     ParamWords(processParamSize, haveLibc), vstubs);
  }

  /** Count and encode. */
  method CountAndEncode(m: Module, segments: Segments, segndx: nat, processParamSize: nat, haveLibc: bool, vstubs: seq<Stub>)
    returns (r: Option<(array<nat>, seq<Abs32>)>, ghost starts: Addresses)
    requires m.Valid() && segndx < |segments|
    requires (forall im :: im in m.imports ==> Resolved(im, vstubs)) && BlockBytes(m.imports) <= StubBytes(vstubs)
    ensures r == None <==>
      Unfit(m, segments, segndx, processParamSize, haveLibc, vstubs) || BlockBytes(m.imports) != StubBytes(vstubs)
    ensures r.Some? ==> exists offsets: Addresses ::
      && (forall k :: 0 <= k < 9 ==> starts[k] == segments[segndx].0 + offsets[k])
      && Placed(r.value, starts, segments[segndx].0 + StartOffset(segments, segndx),
                Encoded(m, starts, offsets, processParamSize, haveLibc, vstubs))
    ensures r.Some? ==>
      ReadsBack(r.value.0[..], r.value.1, starts, segments[segndx].0, segments[segndx].0 + StartOffset(segments, segndx), m)
  {
    hide BlockBytes, StubBytes, Concat, Full, Header, ReadsBack, Placed, Small, Overlaps, Sum, Sizes, StartOffset, ParamWords, Module.Valid,
      Resolved;
    var sizes, total := GetSize(m, processParamSize, haveLibc, vstubs);
    r, starts := Encode(m, segments, segndx, sizes, processParamSize, haveLibc, vstubs);
    if r.Some? {
      ghost var offsets: Addresses :|
        && (forall k :: 0 <= k < 9 ==> starts[k] == segments[segndx].0 + offsets[k])
        && Placed(r.value, starts, segments[segndx].0 + StartOffset(segments, segndx),
                  Full(starts, Header(m, offsets, sizes), ParamWords(processParamSize, haveLibc), m));
      PlacedReadsBack(r.value, m, segments, segndx, starts, offsets, processParamSize, haveLibc, vstubs);
    }
  }

  /** Create, count and encode. For stubs whose (library, target) NIDs are distinct, the two passes
      disagree, and the encoder fails, exactly when a stub was not inserted; otherwise the block that is
      written reads back as the module with the collected imports. */
  method CreateAndEncode(m: Module, segments: Segments, segndx: nat, processParamSize: nat, haveLibc: bool, fstubs: seq<Stub>, vstubs: seq<Stub>)
    returns (r: Option<(array<nat>, seq<Abs32>)>, ghost starts: Addresses)
    requires m.Valid() && segndx < |segments| && Usable(fstubs, vstubs) && DistinctPairs(vstubs)
    ensures r == None <==>
      Unfit(WithImports(m, segments, fstubs, vstubs), segments, segndx, processParamSize, haveLibc, vstubs)
      || Sum(Counts(Collected(fstubs, vstubs))) != |vstubs|
    ensures r.Some? ==> exists offsets: Addresses ::
      && (forall k :: 0 <= k < 9 ==> starts[k] == segments[segndx].0 + offsets[k])
      && Placed(r.value, starts, segments[segndx].0 + StartOffset(segments, segndx),
                Encoded(WithImports(m, segments, fstubs, vstubs), starts, offsets, processParamSize, haveLibc, vstubs))
    ensures r.Some? ==> ReadsBack(r.value.0[..], r.value.1, starts, segments[segndx].0, segments[segndx].0 + StartOffset(segments, segndx),
                                  WithImports(m, segments, fstubs, vstubs))
  {
    hide BlockBytes, StubBytes, Encoded, ReadsBack, Placed, Unfit, StartOffset;
    CollectedReady(fstubs, vstubs);
    ImportsFit(segments, fstubs, vstubs);
    var table := CollectImports(fstubs, vstubs);
    var libs := table.data[..table.count];
    var ims := SetImports(segments, libs, vstubs);
    var complete := m.(imports := ims);
    assert complete == WithImports(m, segments, fstubs, vstubs) && complete.Valid();
    r, starts := CountAndEncode(complete, segments, segndx, processParamSize, haveLibc, vstubs);
  }

  /** The collected imports never use more block bytes than the stubs were counted for. */
  lemma ImportsFit(segments: Segments, fstubs: seq<Stub>, vstubs: seq<Stub>)
    requires Usable(fstubs, vstubs) && DistinctPairs(vstubs) && Ready(Collected(fstubs, vstubs), vstubs)
    ensures var ims := ImportsOf(segments, Collected(fstubs, vstubs), vstubs);
      && (forall im :: im in ims ==> Resolved(im, vstubs)) && BlockBytes(ims) <= StubBytes(vstubs)
      && (BlockBytes(ims) == StubBytes(vstubs) <==> Sum(Counts(Collected(fstubs, vstubs))) == |vstubs|)
  {
    hide Ready, AddStubs, BlockBytes, StubBytes, Sum, Counts, DistinctPairs, Resolved;
    ImportsResolved(segments, Collected(fstubs, vstubs), vstubs);
    BlocksCoverIff(segments, fstubs, vstubs);
  }

  /** When no stub's address happens to be the target NID of a stub, every stub is inserted, so distinct
      NIDs are enough for the passes to agree. */
  lemma PassesAgree(fstubs: seq<Stub>, vstubs: seq<Stub>)
    requires NoCoincidence(vstubs)
    ensures Sum(Counts(Collected(fstubs, vstubs))) == |vstubs|
  {
    AllInserted(fstubs, vstubs);
  }

  lemma {:induction false} TargetsDistinct(stubs: seq<Stub>, nid: nat)
    requires DistinctPairs(stubs)
    ensures DistinctTargets(StubsOf(stubs, nid))
  {
    if stubs != [] {
      var n := |stubs| - 1;
      TargetsDistinct(stubs[..n], nid);
      StubsOfLibrary(stubs[..n], nid);
      StubsOfLength(stubs[..n], nid);
      forall s | s in StubsOf(stubs[..n], nid)
        ensures stubs[n].libraryNid == nid ==> s.targetNid != stubs[n].targetNid
      {
        assert s in stubs[..n];
      }
    }
  }

  /** Then the variables of every library are all its stubs, in strictly ascending order of their NIDs. */
  lemma TablesComplete(fstubs: seq<Stub>, vstubs: seq<Stub>, l: Library)
    requires DistinctPairs(vstubs) && NoCoincidence(vstubs) && l in Collected(fstubs, vstubs)
    ensures multiset(l.variables) == multiset(StubsOf(vstubs, l.nid)) && StrictlyAscending(l.variables)
  {
    hide AddStubs, InsertStubs, DistinctPairs, DistinctTargets, StubsOf, LastInfo;
    var of := StubsOf(vstubs, l.nid);
    ImportTable(fstubs, vstubs, l.nid);
    StubsOfLength(vstubs, l.nid);
    TargetsDistinct(vstubs, l.nid);
    NothingRejected(of);
    StrictWhenDistinct(of);
  }
}
