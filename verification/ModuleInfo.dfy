/** The whole module info image: the header, all exports and all imports; what following its
    pointers recovers, and that its relocations are exactly the nonzero pointers. */
module ModuleInfo {
  import opened Wrappers
  import opened Imports
  import opened ModuleImage

  /** `sce_module_info_t`: functions and unwind tables are offsets into their segment. */
  datatype Module = Module(attributes: nat, version: nat, name: CString, kind: nat, nid: nat,
                           tlsStart: nat, tlsFilesz: nat, tlsMemsz: nat, start: Option<nat>, stop: Option<nat>,
                           exidx: Option<(nat, nat)>, extab: Option<(nat, nat)>,
                           exports: seq<Export>, imports: seq<Import>)
  {
    predicate Valid() {
      && attributes < 0x1_0000 && version < 0x1_0000 && |name| <= 26 && kind < 256
      && (forall e :: e in exports ==> e.Valid())
      && (forall im :: im in imports ==> im.Valid())
    }
  }

  const NOWHERE := 0xFFFF_FFFF

  function OrZero(o: Option<(nat, nat)>): (nat, nat) {
    if o.Some? then o.value else (0, 0)
  }

  /** name[27] followed by the type byte. */
  function NameByte(m: Module, j: nat): nat {
    if j == 27 then m.kind else CharAt(m.name, j)
  }

  function NameField(m: Module): (ws: seq<nat>)
    ensures |ws| == 7
  {
    seq(7, i requires 0 <= i => Pack(NameByte(m, 4 * i), NameByte(m, 4 * i + 1), NameByte(m, 4 * i + 2), NameByte(m, 4 * i + 3)))
  }

  function HeaderTail(m: Module, offsets: Addresses, sizes: Addresses): (ws: seq<nat>)
    ensures |ws| == 15
  {
    var linked := m.start.Some?;
    [0, offsets[LIBENT], offsets[LIBENT] + sizes[LIBENT],
     if linked then offsets[LIBSTUBS] else 0, if linked then offsets[LIBSTUBS] + sizes[LIBSTUBS] else 0,
     m.nid, m.tlsStart, m.tlsFilesz, m.tlsMemsz,
     if linked then m.start.value else NOWHERE, if m.stop.Some? then m.stop.value else NOWHERE,
     OrZero(m.exidx).0, OrZero(m.exidx).1, OrZero(m.extab).0, OrZero(m.extab).1]
  }

  /** `sce_module_info_raw`; offsets are relative to the segment base. */
  function Header(m: Module, offsets: Addresses, sizes: Addresses): (ws: seq<nat>)
    ensures |ws| == MODULE_INFO_WORDS
  {
    [Half(m.attributes, m.version)] + NameField(m) + HeaderTail(m, offsets, sizes)
  }

  /** The image with the header and the reserved parameter words. */
  function Begun(header: seq<nat>, params: nat): Image {
    Append(EMPTY, MODINFO, header + seq(params, _ => 0))
  }

  function Full(starts: Addresses, header: seq<nat>, params: nat, m: Module): Image {
    EncodeImports(starts, EncodeExports(starts, Begun(header, params), m.exports), m.imports)
  }

  // ---- reading back ----

  lemma ExportExtends(starts: Addresses, img: Image, e: Export)
    ensures Extends(img, EncodeExport(starts, img, e))
    ensures |EncodeExport(starts, img, e).secs[LIBENT]| == |img.secs[LIBENT]| + 8
    ensures EncodeExport(starts, img, e).secs[LIBSTUBS] == img.secs[LIBSTUBS]
  {
    hide EncodeExport, EntryWords, OptionalName, ExportRecordOf;
    ExportSections(starts, img, e);
  }

  lemma ImportExtends(starts: Addresses, img: Image, im: Import)
    ensures Extends(img, EncodeImport(starts, img, im))
    ensures |EncodeImport(starts, img, im).secs[LIBSTUBS]| == |img.secs[LIBSTUBS]| + 13
    ensures EncodeImport(starts, img, im).secs[LIBENT] == img.secs[LIBENT]
  {
    hide EncodeImport, RecordOf, VarPointers, Concat, OptionalName;
    ImportSections(starts, img, im);
  }

  lemma ExtendsChain(a: Image, b: Image, c: Image)
    requires Extends(a, b) && Extends(b, c)
    ensures Extends(a, c)
  {
    forall k | 0 <= k < 9
      ensures a.secs[k] <= c.secs[k]
    {
      assert a.secs[k] <= b.secs[k] <= c.secs[k];
    }
  }

  /** Record i of the export table is export i. */
  lemma {:induction false} ExportsRead(m: Memory, starts: Addresses, img: Image, es: seq<Export>)
    requires forall e :: e in es ==> e.Valid()
    requires Loaded(m, starts, EncodeExports(starts, img, es))
    ensures Extends(img, EncodeExports(starts, img, es))
    ensures |EncodeExports(starts, img, es).secs[LIBENT]| == |img.secs[LIBENT]| + 8 * |es|
    ensures EncodeExports(starts, img, es).secs[LIBSTUBS] == img.secs[LIBSTUBS]
    ensures forall i :: 0 <= i < |es| ==> ExportAt(m, starts, Cursor(starts, img, LIBENT) + 0x20 * i, es[i])
  {
    hide EncodeExport, ExportAt, Loaded, Export.Valid;
    if es != [] {
      var n := |es| - 1;
      var before := EncodeExports(starts, img, es[..n]);
      ExportExtends(starts, before, es[n]);
      ExtensionLoads(m, starts, before, EncodeExports(starts, img, es));
      ExportsRead(m, starts, img, es[..n]);
      ExportReads(m, starts, before, es[n]);
      ExtendsChain(img, before, EncodeExports(starts, img, es));
    }
  }

  lemma {:induction false} ImportsRead(m: Memory, starts: Addresses, img: Image, ims: seq<Import>)
    requires forall im :: im in ims ==> im.Valid()
    requires Loaded(m, starts, EncodeImports(starts, img, ims))
    ensures Extends(img, EncodeImports(starts, img, ims))
    ensures |EncodeImports(starts, img, ims).secs[LIBSTUBS]| == |img.secs[LIBSTUBS]| + 13 * |ims|
    ensures EncodeImports(starts, img, ims).secs[LIBENT] == img.secs[LIBENT]
    ensures forall i :: 0 <= i < |ims| ==> ImportAt(m, Cursor(starts, img, LIBSTUBS) + 0x34 * i, ims[i])
  {
    hide EncodeImport, ImportAt, Loaded, Import.Valid;
    if ims != [] {
      var n := |ims| - 1;
      var before := EncodeImports(starts, img, ims[..n]);
      ImportExtends(starts, before, ims[n]);
      ExtensionLoads(m, starts, before, EncodeImports(starts, img, ims));
      ImportsRead(m, starts, img, ims[..n]);
      ImportReads(m, starts, before, ims[n]);
      ExtendsChain(img, before, EncodeImports(starts, img, ims));
    }
  }

  /** The module info at h of a segment loaded at base. */
  ghost predicate ModuleAt(m: Memory, starts: Addresses, base: nat, h: nat, x: Module) {
    && Low(m(h)) == x.attributes && High(m(h)) == x.version
    && (forall j :: 0 <= j < 28 ==> CharIn(m, h + 4, j) == NameByte(x, j))
    && m(h + 0x34) == x.nid && m(h + 0x38) == x.tlsStart && m(h + 0x3C) == x.tlsFilesz && m(h + 0x40) == x.tlsMemsz
    && m(h + 0x44) == (if x.start.Some? then x.start.value else NOWHERE)
    && m(h + 0x48) == (if x.stop.Some? then x.stop.value else NOWHERE)
    && (m(h + 0x4C), m(h + 0x50)) == OrZero(x.exidx) && (m(h + 0x54), m(h + 0x58)) == OrZero(x.extab)
    && m(h + 0x28) == m(h + 0x24) + 0x20 * |x.exports|
    && (forall i :: 0 <= i < |x.exports| ==> ExportAt(m, starts, base + m(h + 0x24) + 0x20 * i, x.exports[i]))
    && (if x.start.Some? then
          && m(h + 0x30) == m(h + 0x2C) + 0x34 * |x.imports|
          && (forall i :: 0 <= i < |x.imports| ==> ImportAt(m, base + m(h + 0x2C) + 0x34 * i, x.imports[i]))
        else m(h + 0x2C) == 0 && m(h + 0x30) == 0)
  }

  lemma NameFieldReads(m: Memory, p: nat, x: Module)
    requires x.Valid() && WordsAt(m, p, NameField(x))
    ensures forall j :: 0 <= j < 28 ==> CharIn(m, p, j) == NameByte(x, j)
  {
    forall j | 0 <= j < 28
      ensures CharIn(m, p, j) == NameByte(x, j)
    {
      WordOf(m, p, NameField(x), j / 4);
      hide WordsAt, Pack, Byte, CharAt;
      FieldByte(x, j / 4, j % 4);
    }
  }

  lemma FieldByte(x: Module, i: nat, k: nat)
    requires x.Valid() && i < 7 && k < 4
    ensures Byte(NameField(x)[i], k) == NameByte(x, 4 * i + k)
  {
    hide Byte, Pack, Export.Valid, Import.Valid;
    PackedBytes(NameByte(x, 4 * i), NameByte(x, 4 * i + 1), NameByte(x, 4 * i + 2), NameByte(x, 4 * i + 3));
  }

  lemma HeaderReads(m: Memory, h: nat, x: Module, offsets: Addresses, sizes: Addresses)
    requires x.Valid() && WordsAt(m, h, Header(x, offsets, sizes))
    ensures Low(m(h)) == x.attributes && High(m(h)) == x.version
    ensures forall j :: 0 <= j < 28 ==> CharIn(m, h + 4, j) == NameByte(x, j)
    ensures WordsAt(m, h + 0x20, HeaderTail(x, offsets, sizes))
  {
    var first, name, tail := [Half(x.attributes, x.version)], NameField(x), HeaderTail(x, offsets, sizes);
    HeaderParts(x, offsets, sizes);
    HalfParts(x.attributes, x.version);
    hide *;
    InsideAt(m, h, [], first, name + tail);
    InsideAt(m, h, first, name, tail);
    InsideAt(m, h, first + name, tail, []);
    WordOf(m, h, first, 0);
    NameFieldReads(m, h + 4, x);
  }

  lemma HeaderParts(x: Module, offsets: Addresses, sizes: Addresses)
    ensures var first, name, tail, header := [Half(x.attributes, x.version)], NameField(x), HeaderTail(x, offsets, sizes), Header(x, offsets, sizes);
      header == [] + first + (name + tail) && header == first + name + tail && header == (first + name) + tail + []
  {
    hide Half, NameField, HeaderTail;
  }

  lemma BegunSections(header: seq<nat>, params: nat)
    ensures var b := Begun(header, params);
      b.relas == [] && b.secs[MODINFO] == header + seq(params, _ => 0) && forall k :: 1 <= k < 9 ==> b.secs[k] == []
  {
  }

  lemma TablesRead(m: Memory, starts: Addresses, header: seq<nat>, params: nat, x: Module)
    requires x.Valid() && Loaded(m, starts, Full(starts, header, params, x))
    ensures WordsAt(m, starts[MODINFO], header)
    ensures forall i :: 0 <= i < |x.exports| ==> ExportAt(m, starts, starts[LIBENT] + 0x20 * i, x.exports[i])
    ensures forall i :: 0 <= i < |x.imports| ==> ImportAt(m, starts[LIBSTUBS] + 0x34 * i, x.imports[i])
  {
    hide Begun, EncodeExports, EncodeImports, Export.Count, ExportAt, Extends, ImportAt, Loaded, WordsAt;
    var img := Begun(header, params);
    var mid := EncodeExports(starts, img, x.exports);
    BegunSections(header, params);
    ImportsRead(m, starts, mid, x.imports);
    ExtensionLoads(m, starts, mid, Full(starts, header, params, x));
    ExportsRead(m, starts, img, x.exports);
    ExtensionLoads(m, starts, img, mid);
    assert [] + header == header;
    PartAt(m, starts, img, MODINFO, [], header, seq(params, _ => 0));
  }

  /** Starting from the module info and following its offsets and pointers, a loader finds every
      field of the header, every export, and, when the module has a start function, every import. */
  lemma ModuleReads(m: Memory, starts: Addresses, base: nat, offsets: Addresses, sizes: Addresses, params: nat, x: Module)
    requires x.Valid()
    requires forall k :: 0 <= k < 9 ==> starts[k] == base + offsets[k]
    requires Loaded(m, starts, Full(starts, Header(x, offsets, sizes), params, x))
    requires sizes[LIBENT] == 0x20 * |x.exports| && sizes[LIBSTUBS] == 0x34 * |x.imports|
    ensures ModuleAt(m, starts, base, starts[MODINFO], x)
  {
    hide CharIn, Export.Valid, ExportAt, Full, Header, High, Import.Valid, ImportAt, Loaded, Low, Module.Valid,
      NameByte, OrZero, WordsAt;
    var h := starts[MODINFO];
    TablesRead(m, starts, Header(x, offsets, sizes), params, x);
    HeaderReads(m, h, x, offsets, sizes);
    TailReads(m, h, x, offsets, sizes);
    assert starts[LIBENT] == base + offsets[LIBENT] && starts[LIBSTUBS] == base + offsets[LIBSTUBS];
  }

  lemma TailReads(m: Memory, h: nat, x: Module, offsets: Addresses, sizes: Addresses)
    requires WordsAt(m, h + 0x20, HeaderTail(x, offsets, sizes))
    ensures var ws := HeaderTail(x, offsets, sizes);
      && m(h + 0x24) == ws[1] && m(h + 0x28) == ws[2] && m(h + 0x2C) == ws[3] && m(h + 0x30) == ws[4]
      && m(h + 0x34) == ws[5] && m(h + 0x38) == ws[6] && m(h + 0x3C) == ws[7] && m(h + 0x40) == ws[8]
      && m(h + 0x44) == ws[9] && m(h + 0x48) == ws[10] && m(h + 0x4C) == ws[11] && m(h + 0x50) == ws[12]
      && m(h + 0x54) == ws[13] && m(h + 0x58) == ws[14]
  {
    var ws, p := HeaderTail(x, offsets, sizes), h + 0x20;
    hide HeaderTail;
    assert m(p + 4 * 1) == ws[1] && m(p + 4 * 2) == ws[2] && m(p + 4 * 3) == ws[3] && m(p + 4 * 4) == ws[4];
    assert m(p + 4 * 5) == ws[5] && m(p + 4 * 6) == ws[6] && m(p + 4 * 7) == ws[7] && m(p + 4 * 8) == ws[8];
    assert m(p + 4 * 9) == ws[9] && m(p + 4 * 10) == ws[10] && m(p + 4 * 11) == ws[11] && m(p + 4 * 12) == ws[12];
    assert m(p + 4 * 13) == ws[13] && m(p + 4 * 14) == ws[14];
  }
}
