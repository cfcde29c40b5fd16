/** `sce_elf_module_info_encode` as a whole: when it fails, and what it returns otherwise. */
module EncodeModule {
  import opened Wrappers
  import opened Imports
  import opened ModuleImage
  import opened ModuleInfo
  import opened ModuleRelas
  import opened ModuleSize
  import opened ImportTables
  import opened ModuleEncode

  const PROCESS_PARAM_V5_SIZE := 0x30
  const PROCESS_PARAM_V6_SIZE := 0x34

  // ---- the header words do not matter to the tables ----

  lemma ExportIgnoresHeader(starts: Addresses, img: Image, e: Export, h: seq<nat>)
    ensures ModuleImage.EncodeExport(starts, WithSection(img, MODINFO, h), e)
         == WithSection(ModuleImage.EncodeExport(starts, img, e), MODINFO, h)
  {
    var w := WithSection(img, MODINFO, h);
    assert ExportRecordOf(starts, w, e) == ExportRecordOf(starts, img, e);
    assert ExportRelas(starts, w, e) == ExportRelas(starts, img, e);
    hide ExportRecordOf, ExportRelas, EntryWords, OptionalName;
  }

  lemma ImportIgnoresHeader(starts: Addresses, img: Image, im: Import, h: seq<nat>)
    ensures ModuleImage.EncodeImport(starts, WithSection(img, MODINFO, h), im)
         == WithSection(ModuleImage.EncodeImport(starts, img, im), MODINFO, h)
  {
    var w := WithSection(img, MODINFO, h);
    CursorsIgnoreHeader(starts, img, h);
    assert RecordOf(starts, w, im) == RecordOf(starts, img, im) && VarPointers(starts, w, im) == VarPointers(starts, img, im);
    assert ImportRelas(starts, w, im) == ImportRelas(starts, img, im);
  }

  lemma CursorsIgnoreHeader(starts: Addresses, img: Image, h: seq<nat>)
    ensures forall k :: 1 <= k < 9 ==> Cursor(starts, WithSection(img, MODINFO, h), k) == Cursor(starts, img, k)
  {
  }

  lemma {:induction false} ExportsIgnoreHeader(starts: Addresses, img: Image, es: seq<Export>, h: seq<nat>)
    ensures EncodeExports(starts, WithSection(img, MODINFO, h), es) == WithSection(EncodeExports(starts, img, es), MODINFO, h)
  {
    hide ModuleImage.EncodeExport, WithSection;
    if es != [] {
      ExportsIgnoreHeader(starts, img, es[..|es| - 1], h);
      ExportIgnoresHeader(starts, EncodeExports(starts, img, es[..|es| - 1]), es[|es| - 1], h);
    }
  }

  lemma {:induction false} ImportsIgnoreHeader(starts: Addresses, img: Image, ims: seq<Import>, h: seq<nat>)
    ensures EncodeImports(starts, WithSection(img, MODINFO, h), ims) == WithSection(EncodeImports(starts, img, ims), MODINFO, h)
  {
    hide ModuleImage.EncodeImport, WithSection;
    if ims != [] {
      ImportsIgnoreHeader(starts, img, ims[..|ims| - 1], h);
      ImportIgnoresHeader(starts, EncodeImports(starts, img, ims[..|ims| - 1]), ims[|ims| - 1], h);
    }
  }

  /** All tables, before the cursor of the first section has moved. */
  function Tables0(starts: Addresses, m: Module): Image {
    EncodeImports(starts, EncodeExports(starts, EMPTY, m.exports), m.imports)
  }

  lemma FullIsTables(starts: Addresses, header: seq<nat>, params: nat, m: Module)
    ensures Full(starts, header, params, m) == WithSection(Tables0(starts, m), MODINFO, header + seq(params, _ => 0))
  {
    var h := header + seq(params, _ => 0);
    assert [] + h == h;
    assert Begun(header, params) == WithSection(EMPTY, MODINFO, h);
    hide EncodeExports, EncodeImports;
    ExportsIgnoreHeader(starts, EMPTY, m.exports, h);
    ImportsIgnoreHeader(starts, EncodeExports(starts, EMPTY, m.exports), m.imports, h);
  }

  // ---- room at every step ----

  lemma {:induction false} ExportsPrefix(starts: Addresses, img: Image, es: seq<Export>, i: nat)
    requires i <= |es|
    ensures Extends(EncodeExports(starts, img, es[..i]), EncodeExports(starts, img, es))
  {
    if i == |es| {
      assert es[..i] == es;
    } else {
      var n := |es| - 1;
      assert es[..n][..i] == es[..i];
      ExportsPrefix(starts, img, es[..n], i);
      ExportExtends(starts, EncodeExports(starts, img, es[..n]), es[n]);
      ExtendsChain(EncodeExports(starts, img, es[..i]), EncodeExports(starts, img, es[..n]), EncodeExports(starts, img, es));
    }
  }

  lemma ExtendsItself(a: Image)
    ensures Extends(a, a)
  {
  }

  lemma {:induction false} ImportsPrefix(starts: Addresses, img: Image, ims: seq<Import>, i: nat)
    requires i <= |ims|
    ensures Extends(EncodeImports(starts, img, ims[..i]), EncodeImports(starts, img, ims))
  {
    hide Extends, ModuleImage.EncodeImport;
    if i == |ims| {
      assert ims[..i] == ims;
      ExtendsItself(EncodeImports(starts, img, ims));
    } else {
      var n := |ims| - 1;
      assert ims[..n][..i] == ims[..i];
      ImportsPrefix(starts, img, ims[..n], i);
      ImportExtends(starts, EncodeImports(starts, img, ims[..n]), ims[n]);
      ExtendsChain(EncodeImports(starts, img, ims[..i]), EncodeImports(starts, img, ims[..n]), EncodeImports(starts, img, ims));
    }
  }

  ghost predicate RoomFor(s: Addresses, sizes: Addresses) {
    forall k :: 0 <= k < 9 ==> s[k] <= sizes[k]
  }

  lemma ShorterRoomFor(a: Image, b: Image, sizes: Addresses)
    requires Extends(a, b) && RoomFor(Lengths(b), sizes)
    ensures RoomFor(Lengths(a), sizes)
  {
    forall k | 0 <= k < 9
      ensures Lengths(a)[k] <= sizes[k]
    {
      assert a.secs[k] <= b.secs[k];
      assert Lengths(b)[k] <= sizes[k];
    }
  }

  lemma ExportFits(starts: Addresses, sizes: Addresses, m: Module, i: nat)
    requires m.Valid() && i < |m.exports| && RoomFor(Lengths(Tables0(starts, m)), sizes)
    ensures RoomFor(AddExport(Lengths(EncodeExports(starts, EMPTY, m.exports[..i])), m.exports[i]), sizes)
  {
    hide Extends, RoomFor, ModuleImage.EncodeExport, ModuleImage.EncodeImport, AddExport, Lengths;
    var es := m.exports;
    var all := EncodeExports(starts, EMPTY, es);
    ImportsPrefix(starts, all, m.imports, 0);
    assert EncodeImports(starts, all, m.imports[..0]) == all;
    ExportsPrefix(starts, EMPTY, es, i + 1);
    ExtendsChain(EncodeExports(starts, EMPTY, es[..i + 1]), all, Tables0(starts, m));
    ShorterRoomFor(EncodeExports(starts, EMPTY, es[..i + 1]), Tables0(starts, m), sizes);
    assert EncodeExports(starts, EMPTY, es[..i + 1]) == ModuleImage.EncodeExport(starts, EncodeExports(starts, EMPTY, es[..i]), es[i]) by {
      assert es[..i + 1][..i] == es[..i];
    }
    ExportLengths(starts, EncodeExports(starts, EMPTY, es[..i]), es[i]);
  }

  lemma ImportFits(starts: Addresses, sizes: Addresses, m: Module, i: nat)
    requires m.Valid() && i < |m.imports| && RoomFor(Lengths(Tables0(starts, m)), sizes)
    ensures var before := EncodeImports(starts, EncodeExports(starts, EMPTY, m.exports), m.imports[..i]);
      RoomFor(ModuleSize.Incr(AddImport(Lengths(before), m.imports[i]), VSTUB, 4 * |Concat(m.imports[i].blocks)|), sizes)
  {
    hide Extends, RoomFor, ModuleImage.EncodeImport, EncodeExports, AddImport, Lengths, ModuleSize.Incr, Concat;
    var ims, all := m.imports, EncodeExports(starts, EMPTY, m.exports);
    ImportsPrefix(starts, all, ims, i + 1);
    ShorterRoomFor(EncodeImports(starts, all, ims[..i + 1]), Tables0(starts, m), sizes);
    assert EncodeImports(starts, all, ims[..i + 1]) == ModuleImage.EncodeImport(starts, EncodeImports(starts, all, ims[..i]), ims[i]) by {
      assert ims[..i + 1][..i] == ims[..i];
    }
    ImportLengths(starts, EncodeImports(starts, all, ims[..i]), ims[i]);
  }

  /** The sizes that the size pass computed leave room for the tables, and only the last section may
      get more than it needs. */
  lemma TablesFit(starts: Addresses, header: seq<nat>, params: nat, m: Module, vstubs: seq<Stub>)
    requires m.Valid() && |header| == MODULE_INFO_WORDS && BlockBytes(m.imports) <= StubBytes(vstubs)
    ensures var sizes, lengths := Sizes(m, 4 * params, vstubs), Lengths(Tables0(starts, m));
      && RoomFor(lengths, sizes) && sizes[MODINFO] == 0x5C + 4 * params
      && (forall k :: 1 <= k < 8 ==> lengths[k] == sizes[k])
      && lengths[VSTUB] + StubBytes(vstubs) == sizes[VSTUB] + BlockBytes(m.imports)
      && (forall k :: 0 <= k < 9 ==> sizes[k] % 4 == 0)
  {
    hide EncodeExports, EncodeImports, Sizes, Tables0, Module.Valid, Full, BlockBytes, StubBytes;
    SizesAgreeIff(starts, header, params, m, vstubs);
    FullIsTables(starts, header, params, m);
    StubBytesAreWords(vstubs);
    BlockBytesAreWords(m.imports);
    var full := Full(starts, header, params, m);
    assert Tables0(starts, m).secs[MODINFO] == [] by { TablesStartEmpty(starts, m); }
    assert forall k :: 0 <= k < 9 ==> Lengths(full)[k] == 4 * |full.secs[k]|;
  }

  lemma {:induction false} BlockBytesAreWords(ims: seq<Import>)
    ensures BlockBytes(ims) % 4 == 0
  {
    if ims != [] {
      BlockBytesAreWords(ims[..|ims| - 1]);
    }
  }

  lemma TablesStartEmpty(starts: Addresses, m: Module)
    ensures Tables0(starts, m).secs[MODINFO] == []
  {
    hide EncodeExports, EncodeImports;
    ExportsIgnoreHeader(starts, EMPTY, m.exports, []);
    ImportsIgnoreHeader(starts, EncodeExports(starts, EMPTY, m.exports), m.imports, []);
    assert WithSection(EMPTY, MODINFO, []) == EMPTY;
  }

  // ---- the encoder ----

  /** The header, stored at the cursor of the first section, which moves only at the end. */
  method StoreHeader(enc: Encoder, ws: seq<nat>)
    requires enc.Valid() && enc.img == EMPTY && enc.ahead == EMPTY.secs && 4 * |ws| <= enc.sizes[MODINFO]
    modifies enc.data, enc`ahead
    ensures enc.Valid() && enc.ahead == EMPTY.secs[MODINFO := ws]
  {
    hide Cursor, Encoder.Valid, Export.Valid, Import.Valid, Module.Valid;
    enc.CursorWord(MODINFO);
    assert ws[..0] == [] && EMPTY.secs[MODINFO := []] == EMPTY.secs;
    for i := 0 to |ws|
      invariant enc.Valid() && enc.ahead == EMPTY.secs[MODINFO := ws[..i]]
    {
      enc.StoreAhead(enc.addrs[MODINFO] / 4 + i, ws[i], MODINFO, i);
      assert ws[..i + 1] == Stored(ws[..i], i, ws[i]);
    }
    assert ws[..|ws|] == ws;
  }

  method EncodeAllExports(enc: Encoder, m: Module, ghost h: Sections) returns (ok: bool)
    requires enc.Valid() && m.Valid() && enc.img == EMPTY && enc.ahead == h && forall k :: 1 <= k < 9 ==> h[k] == []
    requires RoomFor(Lengths(Tables0(enc.starts, m)), enc.sizes)
    modifies enc.data, enc`cur, enc`addrs, enc`img, enc`ahead, enc`relas
    ensures enc.Valid() && ok && enc.ahead == h && enc.img == EncodeExports(enc.starts, EMPTY, m.exports)
  {
    hide AddExport, EncodeExport, Encoder.Cursors, Encoder.Section, Encoder.Shape, Export.Count, Lengths, Padded,
      Tables0;
    assert EncodeExports(enc.starts, EMPTY, m.exports[..0]) == EMPTY;
    ok := true;
    for i := 0 to |m.exports|
      invariant enc.Valid() && ok && enc.ahead == h && enc.img == EncodeExports(enc.starts, EMPTY, m.exports[..i])
    {
      ExportFits(enc.starts, enc.sizes, m, i);
      CursorsAreLengths(enc);
      assert enc.FitsIn(AddExport(enc.cur, m.exports[i]));
      ExportsLeaveHeader(enc.starts, EMPTY, m.exports[..i]);
      ok := enc.EncodeExport(m.exports[i]);
      assert enc.img == EncodeExports(enc.starts, EMPTY, m.exports[..i + 1]) by {
        assert m.exports[..i + 1][..i] == m.exports[..i];
      }
    }
    assert m.exports[..|m.exports|] == m.exports;
  }

  lemma CursorsAreLengths(enc: Encoder)
    requires enc.Valid()
    ensures enc.cur == Lengths(enc.img)
  {
    hide enc.Section, Padded;
  }

  lemma ExportsLeaveHeader(starts: Addresses, img: Image, es: seq<Export>)
    requires img.secs[MODINFO] == []
    ensures EncodeExports(starts, img, es).secs[MODINFO] == []
  {
    hide EncodeExports;
    ExportsIgnoreHeader(starts, img, es, []);
    assert WithSection(img, MODINFO, []) == img;
  }

  method EncodeAllImports(enc: Encoder, m: Module, vstubs: seq<Stub>, ghost h: Sections) returns (ok: bool)
    requires enc.Valid() && m.Valid() && enc.img == EncodeExports(enc.starts, EMPTY, m.exports)
    requires enc.ahead == h && forall k :: 1 <= k < 9 ==> h[k] == []
    requires forall im :: im in m.imports ==> Resolved(im, vstubs)
    requires RoomFor(Lengths(Tables0(enc.starts, m)), enc.sizes)
    modifies enc.data, enc`cur, enc`addrs, enc`img, enc`ahead, enc`relas
    ensures enc.Valid() && (ok <==> forall im :: im in m.imports ==> Small(im))
    ensures ok ==> enc.ahead == h && enc.img == Tables0(enc.starts, m)
  {
    hide AddImport, Append, Concat, EncodeExports, EncodeImport, Encoder.Cursors, Encoder.Section, Encoder.Shape,
      Export.Count, Incr, Left, Lengths, Padded, Passed, Resolved, Small;
    ghost var all := enc.img;
    assert EncodeImports(enc.starts, all, m.imports[..0]) == all;
    ok := true;
    for i := 0 to |m.imports|
      invariant enc.Valid() && ok && enc.ahead == h && enc.img == EncodeImports(enc.starts, all, m.imports[..i])
      invariant forall j :: 0 <= j < i ==> Small(m.imports[j])
    {
      ImportFits(enc.starts, enc.sizes, m, i);
      CursorsAreLengths(enc);
      assert enc.FitsIn(ModuleSize.Incr(AddImport(enc.cur, m.imports[i]), VSTUB, 4 * |Concat(m.imports[i].blocks)|));
      ok := enc.EncodeImport(m.imports[i], vstubs);
      if !ok {
        assert m.imports[i] in m.imports;
        return;
      }
      assert enc.img == EncodeImports(enc.starts, all, m.imports[..i + 1]) by {
        assert m.imports[..i + 1][..i] == m.imports[..i];
      }
    }
    assert m.imports[..|m.imports|] == m.imports;
    assert enc.img == Tables0(enc.starts, m);
  }

  /** The last three INCRs and the loop that compares the cursors with the sizes. */
  method Finish(enc: Encoder, processParamSize: nat, haveLibc: bool, ghost header: seq<nat>) returns (ok: bool)
    requires enc.Valid() && |header| == MODULE_INFO_WORDS && processParamSize % 4 == 0
    requires enc.img.secs[MODINFO] == [] && enc.ahead == EMPTY.secs[MODINFO := header]
    requires enc.sizes[MODINFO] == 0x5C + processParamSize + (if haveLibc then LIBC_PARAM_SIZE else 0)
    requires forall k :: 1 <= k < 8 ==> Lengths(enc.img)[k] == enc.sizes[k]
    modifies enc`cur, enc`addrs, enc`img, enc`ahead
    ensures enc.Valid() && enc.ahead == EMPTY.secs
    ensures ok <==> Lengths(old(enc.img))[VSTUB] == enc.sizes[VSTUB]
    ensures var params := ParamWords(processParamSize, haveLibc);
      enc.img == WithSection(old(enc.img), MODINFO, header + seq(params, _ => 0))
  {
    hide Cursor, Encoder.Valid, Export.Valid, Import.Valid, Incr, Module.Valid;
    ghost var i0, p := enc.img, processParamSize / 4;
    enc.CursorWord(MODINFO);
    ok := enc.Incr(MODINFO, 0x5C);
    assert Passed(header, 23) == header && Left(header, 23) == [];
    assert enc.img == WithSection(i0, MODINFO, header) by { assert [] + header == header; }
    assert enc.ahead == EMPTY.secs;
    enc.CursorWord(MODINFO);
    assert enc.img.secs[MODINFO] == header;
    ok := enc.Reserve(MODINFO, processParamSize);
    assert enc.img == WithSection(i0, MODINFO, header + Zeros(p));
    enc.CursorWord(MODINFO);
    assert enc.img.secs[MODINFO] == header + Zeros(p);
    if haveLibc {
      ok := enc.Reserve(MODINFO, LIBC_PARAM_SIZE);
      assert enc.img == WithSection(i0, MODINFO, header + Zeros(p) + Zeros(44));
      assert header + Zeros(p) + Zeros(44) == header + seq(p + 44, _ => 0);
    } else {
      assert Zeros(p) == seq(p, _ => 0);
    }
    enc.CursorWord(MODINFO);
    CursorsAreLengths(enc);
    assert forall k :: 0 <= k < 8 ==> enc.cur[k] == enc.sizes[k];
    assert enc.cur[VSTUB] == Lengths(i0)[VSTUB];
    for i := 0 to 9
      invariant i == 9 ==> enc.cur[VSTUB] == enc.sizes[VSTUB]
    {
      if enc.cur[i] != enc.sizes[i] {
        return false;
      }
    }
  }

  /** Some other segment starts where the data is to go. */
  predicate Overlaps(segments: Segments, segndx: nat, first: nat, total: nat) {
    exists i :: 0 <= i < |segments| && i != segndx && first <= segments[i].0 < first + total
  }

  lemma SectionsFull(enc: Encoder, k: nat)
    requires enc.Valid() && enc.ahead == EMPTY.secs && k < 9 && Lengths(enc.img)[k] == enc.sizes[k]
    ensures enc.Section(k) == enc.img.secs[k]
  {
    hide enc.Section;
    assert enc.img.secs[k] + [] == enc.img.secs[k];
  }

  lemma BlockGrows(enc: Encoder, k: nat)
    requires enc.Shape() && k < 9
    ensures |enc.first| == 10 && enc.first[k] <= enc.first[k + 1] <= enc.data.Length
    ensures enc.data[..enc.first[k + 1]] == enc.data[..enc.first[k]] + enc.Section(k)
  {
    assert k + 1 < 9 ==> enc.first[k + 1] <= enc.first[9];
  }

  lemma ConcatNone()
    ensures Concat([]) == []
  {
  }

  lemma ConcatTake(secs: seq<seq<nat>>, n: nat)
    requires n < |secs|
    ensures Concat(secs[..n + 1]) == Concat(secs[..n]) + secs[n]
  {
    assert secs[..n + 1][..n] == secs[..n];
  }

  /** The block is the concatenation of its sections. */
  lemma BlockIsSections(enc: Encoder)
    requires enc.Valid() && enc.ahead == EMPTY.secs && forall k :: 0 <= k < 9 ==> Lengths(enc.img)[k] == enc.sizes[k]
    ensures enc.data[..] == Concat(enc.img.secs)
    ensures forall k :: 0 <= k < 9 ==> enc.starts[k] == enc.origin + 4 * |Concat(enc.img.secs[..k])|
  {
    hide Encoder.Cursors, Encoder.Section, Lengths, Padded, Concat;
    assert |enc.first| == 10 && enc.first[0] == 0 && enc.first[9] == enc.data.Length;
    assert enc.img.secs[..0] == [] && enc.data[..0] == [];
    ConcatNone();
    for n := 0 to 9
      invariant |enc.first| == 10 && enc.first[n] <= enc.data.Length && enc.data[..enc.first[n]] == Concat(enc.img.secs[..n])
      invariant forall k :: 0 <= k <= n ==> enc.first[k] == |Concat(enc.img.secs[..k])|
    {
      SectionsFull(enc, n);
      BlockGrows(enc, n);
      ConcatTake(enc.img.secs, n);
    }
    assert enc.data[..enc.first[9]] == enc.data[..] && enc.img.secs[..9] == enc.img.secs;
  }

  /** Words that hold the concatenation of the sections hold the image. */
  lemma BlockLoads(m: Memory, origin: nat, starts: Addresses, img: Image)
    requires WordsAt(m, origin, Concat(img.secs))
    requires forall k :: 0 <= k < 9 ==> starts[k] == origin + 4 * |Concat(img.secs[..k])|
    ensures Loaded(m, starts, img)
  {
    forall k, i | 0 <= k < 9 && 0 <= i < |img.secs[k]|
      ensures m(starts[k] + 4 * i) == img.secs[k][i]
    {
      hide *;
      ConcatSplit(img.secs, k);
      var before := Concat(img.secs[..k]);
      InsideAt(m, origin, before, img.secs[k], Concat(img.secs)[|before| + |img.secs[k]|..]);
      WordOf(m, origin + 4 * |before|, img.secs[k], i);
    }
  }

  /** The words reserved for the process and libc parameters. */
  function ParamWords(processParamSize: nat, haveLibc: bool): nat {
    (processParamSize + (if haveLibc then LIBC_PARAM_SIZE else 0)) / 4
  }

  ghost predicate KnownParams(size: nat) {
    size == 0 || size == PROCESS_PARAM_V5_SIZE || size == PROCESS_PARAM_V6_SIZE
  }

  /** Where the data goes: behind the segment, at the next multiple of four. */
  function StartOffset(segments: Segments, segndx: nat): nat
    requires segndx < |segments|
  {
    Align4(segments[segndx].1)
  }

  /** A segment has no byte in the given range. */
  predicate Apart(s: (nat, nat), first: nat, total: nat) {
    s.0 + s.1 <= first || first + total <= s.0
  }

  /** The test looks only at where the other segments start. It is exact when the segments start at multiples
      of four and are apart: it fires exactly when the data would lie in one of them. */
  lemma OverlapsIff(segments: Segments, segndx: nat, total: nat)
    requires segndx < |segments| && total > 0
    requires forall i :: 0 <= i < |segments| ==> segments[i].0 % 4 == 0 && segments[i].1 > 0
    requires forall i, j :: 0 <= i < j < |segments| ==> Apart(segments[i], segments[j].0, segments[j].1)
    ensures var own := segments[segndx];
      var first := own.0 + StartOffset(segments, segndx);
      && first % 4 == 0 && own.0 + own.1 <= first < own.0 + own.1 + 4
      && (Overlaps(segments, segndx, first, total) <==> exists i :: 0 <= i < |segments| && !Apart(segments[i], first, total))
  {
    var own := segments[segndx];
    var first := own.0 + StartOffset(segments, segndx);
    forall i | 0 <= i < |segments| && i != segndx
      ensures first <= segments[i].0 < first + total <==> !Apart(segments[i], first, total)
    {
      assert Apart(own, segments[i].0, segments[i].1) || Apart(segments[i], own.0, own.1);
    }
    assert Apart(own, first, total);
  }

  /** The encoder, given the sizes the size pass computed. It fails exactly when a segment is in
      the way, the process parameters have an unknown size, a relocation block is too large, or the
      imports use fewer block bytes than the stubs were counted for ("did not use all space"): the
      overrun check never fires. */
  method Encode(m: Module, segments: Segments, segndx: nat, sizes: Addresses, processParamSize: nat, haveLibc: bool, vstubs: seq<Stub>)
    returns (r: Option<(array<nat>, seq<Abs32>)>, ghost starts: Addresses)
    requires m.Valid() && segndx < |segments|
    requires sizes == Sizes(m, processParamSize + (if haveLibc then LIBC_PARAM_SIZE else 0), vstubs)
    requires (forall im :: im in m.imports ==> Resolved(im, vstubs)) && BlockBytes(m.imports) <= StubBytes(vstubs)
    ensures r == None <==>
      Overlaps(segments, segndx, segments[segndx].0 + StartOffset(segments, segndx), Sum(sizes))
      || !KnownParams(processParamSize) || (exists im :: im in m.imports && !Small(im))
      || BlockBytes(m.imports) != StubBytes(vstubs)
    ensures r.Some? ==> exists offsets: Addresses ::
      && (forall k :: 0 <= k < 9 ==> starts[k] == segments[segndx].0 + offsets[k])
      && Placed(r.value, starts, segments[segndx].0 + StartOffset(segments, segndx),
                Full(starts, Header(m, offsets, sizes), ParamWords(processParamSize, haveLibc), m))
  {
    hide Align4, BlockBytes, Concat, EncodeExports, Encoder.Section, Encoder.Shape, Export.Count, Full, Header,
      Lengths, Overlaps, Padded, Resolved, Sizes, Small, StubBytes, Sum, Tables0, WithSection, RoomFor, ZeroHeader;
    starts := NO_SIZES;
    var base, startOffset := segments[segndx].0, Align4(segments[segndx].1);
    assert StartOffset(segments, segndx) == startOffset;
    var total := Total(sizes);
    var overlap := FindOverlap(segments, segndx, base + startOffset, total);
    if overlap {
      return None, starts;
    }
    if processParamSize != 0 && processParamSize != PROCESS_PARAM_V5_SIZE && processParamSize != PROCESS_PARAM_V6_SIZE {
      return None, starts;
    }
    ghost var params := ParamWords(processParamSize, haveLibc);
    assert 4 * params == processParamSize + (if haveLibc then LIBC_PARAM_SIZE else 0) && processParamSize % 4 == 0;
    TablesFit(NO_SIZES, ZeroHeader(), params, m, vstubs);
    var enc := new Encoder(sizes, base + startOffset);
    starts := enc.starts;
    TablesFit(starts, ZeroHeader(), params, m, vstubs);
    var offsets := Offsets(enc, startOffset);
    var header := Header(m, offsets, sizes);
    assert |header| == 0x17;
    StoreHeader(enc, header);
    ghost var h := enc.ahead;
    var ok := EncodeAllExports(enc, m, h);
    ok := EncodeAllImports(enc, m, vstubs, h);
    if !ok {
      return None, starts;
    }
    TablesStartEmpty(starts, m);
    ok := Finish(enc, processParamSize, haveLibc, header);
    if !ok {
      return None, starts;
    }
    FullIsTables(starts, header, params, m);
    FullLengths(starts, header, params, m, vstubs);
    BlockIsSections(enc);
    r := Some((enc.data, enc.relas));
    assert Placed(r.value, starts, base + startOffset, Full(starts, header, params, m));
  }

  /** A block and relocations that are those of an image. */
  ghost predicate Placed(r: (array<nat>, seq<Abs32>), starts: Addresses, origin: nat, img: Image)
    reads r.0
  {
    r.0[..] == Concat(img.secs) && r.1 == img.relas
    && forall k :: 0 <= k < 9 ==> starts[k] == origin + 4 * |Concat(img.secs[..k])|
  }

  function ZeroHeader(): (ws: seq<nat>)
    ensures |ws| == MODULE_INFO_WORDS
  {
    Zeros(MODULE_INFO_WORDS)
  }

  lemma FullLengths(starts: Addresses, header: seq<nat>, params: nat, m: Module, vstubs: seq<Stub>)
    requires m.Valid() && |header| == MODULE_INFO_WORDS && BlockBytes(m.imports) == StubBytes(vstubs)
    ensures Lengths(Full(starts, header, params, m)) == Sizes(m, 4 * params, vstubs)
  {
    hide *;
    SizesAgreeIff(starts, header, params, m, vstubs);
  }

  method Total(sizes: Addresses) returns (n: nat)
    ensures n == Sum(sizes)
  {
    n := 0;
    for i := 0 to 9
      invariant n == Sum(sizes[..i])
    {
      assert sizes[..i + 1][..i] == sizes[..i];
      n := n + sizes[i];
    }
    assert sizes[..9] == sizes;
  }

  method FindOverlap(segments: Segments, segndx: nat, first: nat, total: nat) returns (found: bool)
    ensures found == Overlaps(segments, segndx, first, total)
  {
    for i := 0 to |segments|
      invariant forall j :: 0 <= j < i && j != segndx ==> !(first <= segments[j].0 < first + total)
    {
      if i != segndx && segments[i].0 >= first && segments[i].0 < first + total {
        return true;
      }
    }
    found := false;
  }

  /** OFFSET of every section, taken before the cursors move. */
  method Offsets(enc: Encoder, startOffset: nat) returns (offsets: Addresses)
    requires enc.Valid() && enc.img == EMPTY && enc.origin >= startOffset
    ensures forall k :: 0 <= k < 9 ==> enc.starts[k] == enc.origin - startOffset + offsets[k]
  {
    hide enc.Section, Padded;
    var addrs := enc.addrs;
    offsets := seq(9, k requires 0 <= k < 9 => addrs[k] + startOffset);
    forall k | 0 <= k < 9
      ensures enc.starts[k] == enc.origin - startOffset + offsets[k]
    {
      enc.CursorWord(k);
      assert EMPTY.secs[k] == [];
    }
  }

  // ---- the results together ----

  lemma SectionsLaid(origin: nat, starts: Addresses, img: Image)
    requires forall k :: 0 <= k < 9 ==> starts[k] == origin + 4 * |Concat(img.secs[..k])|
    ensures var ends := seq(9, k requires 0 <= k < 9 => Cursor(starts, img, k));
      Laid(starts, ends) && Fits(starts, ends, img)
  {
    hide Concat;
    var ends := seq(9, k requires 0 <= k < 9 => Cursor(starts, img, k));
    forall j, k | 0 <= j < k < 9
      ensures starts[j] <= ends[j] <= starts[k] <= ends[k]
    {
      ConcatSplit(img.secs[..k], j);
      assert img.secs[..k][..j] == img.secs[..j];
    }
  }

  /** What `Encode` returns, once it is loaded where it was meant to be: following the pointers
      finds the module; the relocations are those of the nonzero pointers found on the way, one each. */
  lemma LoadedModule(mem: Memory, m: Module, base: nat, origin: nat, starts: Addresses, offsets: Addresses, sizes: Addresses,
                     params: nat, vstubs: seq<Stub>)
    requires m.Valid() && sizes == Sizes(m, 4 * params, vstubs) && BlockBytes(m.imports) == StubBytes(vstubs)
    requires forall k :: 0 <= k < 9 ==> starts[k] == base + offsets[k]
    requires var full := Full(starts, Header(m, offsets, sizes), params, m);
      WordsAt(mem, origin, Concat(full.secs)) && forall k :: 0 <= k < 9 ==> starts[k] == origin + 4 * |Concat(full.secs[..k])|
    ensures ModuleAt(mem, starts, base, origin, m)
    ensures var relas := Full(starts, Header(m, offsets, sizes), params, m).relas;
      && relas == RelasOf(mem, ExportsSlots(mem, starts[LIBENT], |m.exports|) + ImportsSlots(mem, starts[LIBSTUBS], |m.imports|))
      && Distinct(relas)
  {
    hide BlockBytes, Cursor, Distinct, Encoder.Valid, Export.Valid, ExportsSlots, Fits, Full, Header, Import.Valid,
      ImportsSlots, Laid, Lengths, Loaded, Module.Valid, ModuleAt, RelasOf, Sizes, StubBytes, WordsAt;
    var header := Header(m, offsets, sizes);
    var full := Full(starts, header, params, m);
    BlockLoads(mem, origin, starts, full);
    FullLengths(starts, header, params, m, vstubs);
    RecordCounts(mem, starts, header, params, m);
    assert starts[MODINFO] == origin by {
      assert full.secs[..0] == [];
    }
    ModuleReads(mem, starts, base, offsets, sizes, params, m);
    RelasAreThePointers(mem, starts, header, params, m);
    SectionsLaid(origin, starts, full);
    EachPointerOnce(starts, seq(9, k requires 0 <= k < 9 => Cursor(starts, full, k)), header, params, m);
  }

  lemma RecordCounts(mem: Memory, starts: Addresses, header: seq<nat>, params: nat, m: Module)
    requires m.Valid() && Loaded(mem, starts, Full(starts, header, params, m))
    ensures var l := Lengths(Full(starts, header, params, m));
      l[LIBENT] == 0x20 * |m.exports| && l[LIBSTUBS] == 0x34 * |m.imports|
  {
    var img := Begun(header, params);
    var mid := EncodeExports(starts, img, m.exports);
    BegunSections(header, params);
    ImportsRead(mem, starts, mid, m.imports);
    ExtensionLoads(mem, starts, mid, Full(starts, header, params, m));
    ExportsRead(mem, starts, img, m.exports);
  }

  lemma {:induction false} ImportsResolved(segs: Segments, libs: seq<Library>, vstubs: seq<Stub>)
    requires Ready(libs, vstubs)
    ensures forall im :: im in ImportsOf(segs, libs, vstubs) ==> Resolved(im, vstubs)
  {
    hide Find, Block;
    if libs != [] {
      var l := libs[|libs| - 1];
      assert l in libs;
      ImportsResolved(segs, libs[..|libs| - 1], vstubs);
      var im := ImportOf(segs, l, vstubs);
      assert im.Valid() && Resolved(im, vstubs) by {
        ImportOfValid(segs, l, vstubs);
        forall i | 0 <= i < |im.varNids|
          ensures var s := Find(vstubs, im.nid, im.varNids[i]); s.Some? && im.blocks[i] == Block(s.value)
        {
          assert l.variables[i] in l.variables;
        }
      }
    }
  }

  /** The two passes over the imports collected from the stubs: with distinct variable stubs, what
      the encoder needs holds exactly when every variable stub was inserted. */
  lemma PassesAgreeIff(segs: Segments, fstubs: seq<Stub>, vstubs: seq<Stub>, m: Module, starts: Addresses, header: seq<nat>, params: nat)
    requires DistinctPairs(vstubs) && m.Valid() && |header| == MODULE_INFO_WORDS
    requires var libs := AddStubs(AddStubs([], fstubs, false), vstubs, true);
      Ready(libs, vstubs) && m.imports == ImportsOf(segs, libs, vstubs)
    ensures forall im :: im in m.imports ==> Resolved(im, vstubs)
    ensures Lengths(Full(starts, header, params, m)) == Sizes(m, 4 * params, vstubs)
       <==> Sum(Counts(AddStubs(AddStubs([], fstubs, false), vstubs, true))) == |vstubs|
  {
    hide *;
    var libs := AddStubs(AddStubs([], fstubs, false), vstubs, true);
    ImportsResolved(segs, libs, vstubs);
    BlocksCoverIff(segs, fstubs, vstubs);
    SizesAgreeIff(starts, header, params, m, vstubs);
  }
}
