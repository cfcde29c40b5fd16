/** The size pass (`sce_elf_module_info_get_size`) and when it agrees with the encoder. */
module ModuleSize {
  import opened Wrappers
  import opened VArray
  import opened Imports
  import opened SceRel
  import opened ModuleImage
  import opened ModuleInfo

  /** ALIGN_4. */
  function Align4(n: nat): nat { (n + 3) / 4 * 4 }

  function NameSize(name: Option<CString>): nat {
    if name.Some? then Align4(|name.value| + 1) else 0
  }

  const LIBC_PARAM_SIZE := 0xB0

  function Incr(s: Addresses, k: nat, n: nat): Addresses
    requires k < 9
  {
    s[k := s[k] + n]
  }

  function AddExport(s: Addresses, e: Export): Addresses {
    Incr(Incr(s, LIBENT, 0x20), EXPORT, NameSize(e.name) + e.Count() * 8)
  }

  function AddImport(s: Addresses, im: Import): Addresses {
    var f, v := |im.funcNids| * 4, |im.varNids| * 4;
    Incr(Incr(Incr(Incr(Incr(Incr(s, LIBSTUBS, 0x34), IMPORT, NameSize(im.name)), FNID, f), FSTUB, f), VNID, v), VSTUB, v)
  }

  function AddExports(s: Addresses, es: seq<Export>): Addresses {
    if es == [] then s else AddExport(AddExports(s, es[..|es| - 1]), es[|es| - 1])
  }

  function AddImports(s: Addresses, ims: seq<Import>): Addresses {
    if ims == [] then s else AddImport(AddImports(s, ims[..|ims| - 1]), ims[|ims| - 1])
  }

  /** The header word and the relocation records of a variable stub. */
  function BlockSize(s: Stub): nat { 4 + RelInfoSize(s.rels) }

  function StubBytes(stubs: seq<Stub>): nat {
    if stubs == [] then 0 else StubBytes(stubs[..|stubs| - 1]) + BlockSize(stubs[|stubs| - 1])
  }

  const NO_SIZES: Addresses := [0, 0, 0, 0, 0, 0, 0, 0, 0]

  lemma {:induction false} StubBytesAreWords(stubs: seq<Stub>)
    ensures StubBytes(stubs) % 4 == 0
  {
    if stubs != [] {
      StubBytesAreWords(stubs[..|stubs| - 1]);
      VarWordsLength(stubs[|stubs| - 1].rels);
    }
  }

  function Sizes(m: Module, paramSize: nat, vstubs: seq<Stub>): Addresses {
    var header := Incr(NO_SIZES, MODINFO, 0x5C + paramSize);
    Incr(AddImports(AddExports(header, m.exports), m.imports), VSTUB, StubBytes(vstubs))
  }

  function Sum(s: seq<nat>): nat {
    if s == [] then 0 else Sum(s[..|s| - 1]) + s[|s| - 1]
  }

  lemma {:induction false} SumUpdate(s: seq<nat>, i: nat, n: nat)
    requires i < |s|
    ensures Sum(s[i := n]) == Sum(s) - s[i] + n
  {
    var t := s[i := n];
    if i == |s| - 1 {
      assert t[..i] == s[..i];
    } else {
      assert t[..|s| - 1] == s[..|s| - 1][i := n];
      SumUpdate(s[..|s| - 1], i, n);
    }
  }

  lemma {:induction false} SumInsert(s: seq<nat>, i: nat, n: nat)
    requires i <= |s|
    ensures Sum(InsertAt(s, n, i)) == Sum(s) + n
  {
    var t := InsertAt(s, n, i);
    if i == |s| {
      assert t[..|s|] == s;
    } else {
      assert t[..|s|] == InsertAt(s[..|s| - 1], n, i);
      SumInsert(s[..|s| - 1], i, n);
    }
  }

  lemma IncrTotal(s: Addresses, k: nat, n: nat)
    requires k < 9
    ensures Sum(Incr(s, k, n)) == Sum(s) + n
  {
    SumUpdate(s, k, s[k] + n);
  }

  /** `sce_elf_module_info_get_size`: nine running sizes and their total. */
  method GetSize(m: Module, processParamSize: nat, haveLibc: bool, vstubs: seq<Stub>) returns (sizes: Addresses, total: nat)
    ensures sizes == Sizes(m, processParamSize + (if haveLibc then LIBC_PARAM_SIZE else 0), vstubs)
    ensures total == Sum(sizes)
  {
    hide Sum, AddExport, AddImport, Incr;
    assert Sum(NO_SIZES) == 0 by { ZeroSum(NO_SIZES); }
    sizes, total := SizeHeader(processParamSize, haveLibc);
    ghost var header := sizes;
    for i := 0 to |m.exports|
      invariant sizes == AddExports(header, m.exports[..i]) && total == Sum(sizes)
    {
      assert m.exports[..i + 1][..i] == m.exports[..i];
      sizes, total := SizeExport(sizes, total, m.exports[i]);
    }
    assert m.exports[..|m.exports|] == m.exports;
    ghost var entries := sizes;
    for i := 0 to |m.imports|
      invariant sizes == AddImports(entries, m.imports[..i]) && total == Sum(sizes)
    {
      assert m.imports[..i + 1][..i] == m.imports[..i];
      sizes, total := SizeImport(sizes, total, m.imports[i]);
    }
    assert m.imports[..|m.imports|] == m.imports;
    ghost var tables := sizes;
    IncrTwice(tables, VSTUB, 0, 0);
    for i := 0 to |vstubs|
      invariant sizes == Incr(tables, VSTUB, StubBytes(vstubs[..i])) && total == Sum(sizes)
    {
      assert vstubs[..i + 1][..i] == vstubs[..i];
      IncrTwice(tables, VSTUB, StubBytes(vstubs[..i]), BlockSize(vstubs[i]));
      sizes, total := Grow(sizes, total, VSTUB, BlockSize(vstubs[i]));
    }
    assert vstubs[..|vstubs|] == vstubs;
  }

  lemma {:induction false} ZeroSum(s: seq<nat>)
    requires forall i :: 0 <= i < |s| ==> s[i] == 0
    ensures Sum(s) == 0
  {
    if s != [] {
      ZeroSum(s[..|s| - 1]);
    }
  }

  lemma IncrTwice(s: Addresses, k: nat, a: nat, b: nat)
    requires k < 9
    ensures Incr(Incr(s, k, a), k, b) == Incr(s, k, a + b) && Incr(s, k, 0) == s
  {
  }

  method SizeHeader(processParamSize: nat, haveLibc: bool) returns (sizes: Addresses, total: nat)
    ensures sizes == Incr(NO_SIZES, MODINFO, 0x5C + processParamSize + (if haveLibc then LIBC_PARAM_SIZE else 0))
    ensures total == Sum(sizes)
  {
    hide Sum;
    assert Sum(NO_SIZES) == 0 by { ZeroSum(NO_SIZES); }
    sizes, total := Grow(NO_SIZES, 0, MODINFO, 0x5C);
    sizes, total := Grow(sizes, total, MODINFO, processParamSize);
    if haveLibc {
      sizes, total := Grow(sizes, total, MODINFO, LIBC_PARAM_SIZE);
    }
  }

  /** INCR. */
  method Grow(s: Addresses, total: nat, k: nat, n: nat) returns (s': Addresses, total': nat)
    requires k < 9 && total == Sum(s)
    ensures s' == Incr(s, k, n) && total' == Sum(s')
  {
    IncrTotal(s, k, n);
    s', total' := s[k := s[k] + n], total + n;
  }

  method SizeExport(s: Addresses, total: nat, e: Export) returns (s': Addresses, total': nat)
    requires total == Sum(s)
    ensures s' == AddExport(s, e) && total' == Sum(s')
  {
    hide Sum;
    s', total' := Grow(s, total, LIBENT, 0x20);
    if e.name != None {
      s', total' := Grow(s', total', EXPORT, Align4(|e.name.value| + 1));
    }
    s', total' := Grow(s', total', EXPORT, (e.numFuncs + e.numVars + e.numTls) * 8);
  }

  method SizeImport(s: Addresses, total: nat, im: Import) returns (s': Addresses, total': nat)
    requires total == Sum(s)
    ensures s' == AddImport(s, im) && total' == Sum(s')
  {
    hide Sum;
    s', total' := Grow(s, total, LIBSTUBS, 0x34);
    if im.name != None {
      s', total' := Grow(s', total', IMPORT, Align4(|im.name.value| + 1));
    }
    s', total' := Grow(s', total', FNID, |im.funcNids| * 4);
    s', total' := Grow(s', total', FSTUB, |im.funcNids| * 4);
    s', total' := Grow(s', total', VNID, |im.varNids| * 4);
    s', total' := Grow(s', total', VSTUB, |im.varNids| * 4);
  }

  // ---- agreement with the encoder ----

  /** The bytes each section of an image takes. */
  function Lengths(img: Image): Addresses {
    seq(9, k requires 0 <= k < 9 => 4 * |img.secs[k]|)
  }

  lemma NameSizeAgrees(name: Option<CString>)
    ensures 4 * |OptionalName(name)| == NameSize(name)
  {
  }

  lemma ExportLengths(starts: Addresses, img: Image, e: Export)
    requires e.Valid()
    ensures Lengths(EncodeExport(starts, img, e)) == AddExport(Lengths(img), e)
  {
    hide EncodeExport, OptionalName, EntryWords, ExportRecordOf, NameSize;
    ExportSections(starts, img, e);
    NameSizeAgrees(e.name);
  }

  lemma ImportLengths(starts: Addresses, img: Image, im: Import)
    requires im.Valid()
    ensures Lengths(EncodeImport(starts, img, im)) == Incr(AddImport(Lengths(img), im), VSTUB, 4 * |Concat(im.blocks)|)
  {
    hide EncodeImport, OptionalName, VarPointers, RecordOf, NameSize, Concat;
    ImportSections(starts, img, im);
    NameSizeAgrees(im.name);
  }

  lemma {:induction false} ExportsLengths(starts: Addresses, img: Image, es: seq<Export>)
    requires forall e :: e in es ==> e.Valid()
    ensures Lengths(EncodeExports(starts, img, es)) == AddExports(Lengths(img), es)
  {
    hide EncodeExport, AddExport, Lengths, Export.Valid;
    if es != [] {
      ExportsLengths(starts, img, es[..|es| - 1]);
      ExportLengths(starts, EncodeExports(starts, img, es[..|es| - 1]), es[|es| - 1]);
    }
  }

  function BlockBytes(ims: seq<Import>): nat {
    if ims == [] then 0 else BlockBytes(ims[..|ims| - 1]) + 4 * |Concat(ims[|ims| - 1].blocks)|
  }

  lemma AddImportAfter(s: Addresses, n: nat, im: Import)
    ensures AddImport(Incr(s, VSTUB, n), im) == Incr(AddImport(s, im), VSTUB, n)
  {
    hide NameSize;
  }

  lemma {:induction false} ImportsLengths(starts: Addresses, img: Image, ims: seq<Import>)
    requires forall im :: im in ims ==> im.Valid()
    ensures Lengths(EncodeImports(starts, img, ims)) == Incr(AddImports(Lengths(img), ims), VSTUB, BlockBytes(ims))
  {
    hide EncodeImport, AddImport, Lengths, Import.Valid, Concat;
    if ims != [] {
      var n := |ims| - 1;
      ImportsLengths(starts, img, ims[..n]);
      ImportLengths(starts, EncodeImports(starts, img, ims[..n]), ims[n]);
      AddImportAfter(AddImports(Lengths(img), ims[..n]), BlockBytes(ims[..n]), ims[n]);
    }
  }

  /** Every section but the last agrees always; the last one does exactly when the relocation
      blocks that the imports use are, in bytes, those of all variable stubs. */
  lemma SizesAgreeIff(starts: Addresses, header: seq<nat>, params: nat, x: Module, vstubs: seq<Stub>)
    requires x.Valid() && |header| == MODULE_INFO_WORDS
    ensures var img, sizes := Full(starts, header, params, x), Sizes(x, 4 * params, vstubs);
      (Lengths(img) == sizes <==> BlockBytes(x.imports) == StubBytes(vstubs))
      && (forall k :: 0 <= k < 8 ==> Lengths(img)[k] == sizes[k])
      && Lengths(img)[VSTUB] + StubBytes(vstubs) == sizes[VSTUB] + BlockBytes(x.imports)
  {
    hide EncodeExports, EncodeImports, AddExports, AddImports, Export.Valid, Import.Valid, BlockBytes, StubBytes, Begun;
    var begun := Begun(header, params);
    BegunSections(header, params);
    assert Lengths(begun) == Incr(NO_SIZES, MODINFO, 0x5C + 4 * params);
    ExportsLengths(starts, begun, x.exports);
    ImportsLengths(starts, EncodeExports(starts, begun, x.exports), x.imports);
    hide Lengths;
    var s := AddImports(AddExports(Lengths(begun), x.exports), x.imports);
    assert Lengths(Full(starts, header, params, x)) == Incr(s, VSTUB, BlockBytes(x.imports));
    assert Sizes(x, 4 * params, vstubs) == Incr(s, VSTUB, StubBytes(vstubs));
    assert Incr(s, VSTUB, BlockBytes(x.imports))[VSTUB] == s[VSTUB] + BlockBytes(x.imports);
  }
}
