/** The SCE module data that sce-elf.c appends to a segment: nine sections of 32-bit words
    that point into each other, and the relocations of those pointers. `EncodeExport` and
    `EncodeImport` say what each table contributes to the sections; `ExportAt` and `ImportAt`
    are what a loader sees when it follows the pointers. */
module ModuleImage {
  import opened Wrappers
  import opened Imports

  // ---- sce_section_sizes_t ----

  const MODINFO := 0
  const LIBENT := 1
  const EXPORT := 2
  const LIBSTUBS := 3
  const IMPORT := 4
  const FNID := 5
  const FSTUB := 6
  const VNID := 7
  const VSTUB := 8

  type Sections = s: seq<seq<nat>> | |s| == 9 witness [[], [], [], [], [], [], [], [], []]
  type Addresses = s: seq<nat> | |s| == 9 witness [0, 0, 0, 0, 0, 0, 0, 0, 0]

  /** `vita_elf_rela_t` of type R_ARM_ABS32 without a symbol. */
  datatype Abs32 = Abs32(offset: nat, addend: nat)

  datatype Image = Image(secs: Sections, relas: seq<Abs32>)

  const EMPTY := Image([[], [], [], [], [], [], [], [], []], [])

  function Append(img: Image, k: nat, ws: seq<nat>): Image
    requires k < 9
  {
    img.(secs := img.secs[k := img.secs[k] + ws])
  }

  /** The address of the next word of section k. */
  function Cursor(starts: Addresses, img: Image, k: nat): nat
    requires k < 9
  {
    starts[k] + 4 * |img.secs[k]|
  }

  /** ADDRELA: nothing for a zero word. */
  function One(address: nat, w: nat): seq<Abs32> {
    if w == 0 then [] else [Abs32(address, w)]
  }

  function Each(address: nat, ws: seq<nat>): seq<Abs32> {
    if ws == [] then []
    else
      var n := |ws| - 1;
      Each(address, ws[..n]) + One(address + 4 * n, ws[n])
  }

  // ---- packing ----

  function Half(low: nat, high: nat): nat { low + 0x1_0000 * high }
  function Low(w: nat): nat { w % 0x1_0000 }
  function High(w: nat): nat { w / 0x1_0000 }

  lemma HalfParts(low: nat, high: nat)
    requires low < 0x1_0000
    ensures Low(Half(low, high)) == low && High(Half(low, high)) == high
  {
  }

  function Pack(b0: nat, b1: nat, b2: nat, b3: nat): nat {
    b0 + 0x100 * b1 + 0x1_0000 * b2 + 0x100_0000 * b3
  }

  function Byte(w: nat, k: nat): nat {
    if k == 0 then w % 256 else if k == 1 then w / 0x100 % 256 else if k == 2 then w / 0x1_0000 % 256 else w / 0x100_0000 % 256
  }

  lemma Digit(x: nat, rest: nat)
    requires x < 256
    ensures (x + 256 * rest) % 256 == x && (x + 256 * rest) / 256 == rest
  {
  }

  lemma DividedBytes(w: nat)
    ensures w / 0x1_0000 == w / 256 / 256 && w / 0x100_0000 == w / 256 / 256 / 256
  {
  }

  lemma PackedBytes(b0: nat, b1: nat, b2: nat, b3: nat)
    requires b0 < 256 && b1 < 256 && b2 < 256 && b3 < 256
    ensures var w := Pack(b0, b1, b2, b3); Byte(w, 0) == b0 && Byte(w, 1) == b1 && Byte(w, 2) == b2 && Byte(w, 3) == b3
  {
    var w := Pack(b0, b1, b2, b3);
    assert w == b0 + 256 * (b1 + 256 * (b2 + 256 * b3));
    DividedBytes(w);
    Digit(b0, b1 + 256 * (b2 + 256 * b3));
    Digit(b1, b2 + 256 * b3);
    Digit(b2, b3);
    Digit(b3, 0);
    hide Pack;
  }

  /** Byte j of the zero-filled space of a string. */
  function CharAt(s: CString, j: nat): nat {
    if j < |s| then s[j] else 0
  }

  /** `strcpy` into ALIGN_4(strlen + 1) zeroed bytes. */
  function NameWords(s: CString): (ws: seq<nat>)
    ensures |ws| == (|s| + 4) / 4
  {
    seq((|s| + 4) / 4, i requires 0 <= i => Pack(CharAt(s, 4 * i), CharAt(s, 4 * i + 1), CharAt(s, 4 * i + 2), CharAt(s, 4 * i + 3)))
  }

  function OptionalName(name: Option<CString>): seq<nat> {
    if name.Some? then NameWords(name.value) else []
  }

  // ---- exports ----

  /** What an entry of a host export table points at: the module info, the process parameters,
      or an address of the ELF (0 when no segment holds it). */
  datatype Target = OfModuleInfo | OfProcessParam | At(vaddr: nat)

  /** `sce_module_exports_t`. */
  datatype Export = Export(version: nat, flags: nat, numFuncs: nat, numVars: nat, numTls: nat, nid: nat,
                           name: Option<CString>, nids: seq<nat>, entries: seq<Target>)
  {
    predicate Valid() {
      version < 0x1_0000 && flags < 0x1_0000 && numFuncs < 0x1_0000
      && |nids| == |entries| == Count()
    }

    function Count(): nat { numFuncs + numVars + numTls }
  }

  const MODULE_INFO_WORDS := 0x17

  function Resolve(starts: Addresses, t: Target): nat {
    match t
    case OfModuleInfo => starts[MODINFO]
    case OfProcessParam => starts[MODINFO] + 4 * MODULE_INFO_WORDS
    case At(a) => a
  }

  function EntryWords(starts: Addresses, es: seq<Target>): (ws: seq<nat>)
    ensures |ws| == |es|
  {
    seq(|es|, i requires 0 <= i < |es| => Resolve(starts, es[i]))
  }

  function ExportRecord(e: Export, namePtr: nat, nidPtr: nat, entryPtr: nat): (ws: seq<nat>)
    ensures |ws| == 8
  {
    [Half(0x20, e.version), Half(e.flags, e.numFuncs), e.numVars, e.numTls, e.nid, namePtr, nidPtr, entryPtr]
  }

  function ExportRecordOf(starts: Addresses, img: Image, e: Export): (ws: seq<nat>)
    ensures |ws| == 8
  {
    var tables := Cursor(starts, img, EXPORT);
    var nidPtr := tables + 4 * |OptionalName(e.name)|;
    ExportRecord(e, if e.name.Some? then tables else 0, nidPtr, nidPtr + 4 * |e.nids|)
  }

  function ExportRelas(starts: Addresses, img: Image, e: Export): seq<Abs32> {
    var record := Cursor(starts, img, LIBENT);
    var ws := ExportRecordOf(starts, img, e);
    One(record + 0x14, ws[5]) + One(record + 0x18, ws[6]) + One(record + 0x1C, ws[7])
    + Each(ws[7], EntryWords(starts, e.entries))
  }

  function EncodeExport(starts: Addresses, img: Image, e: Export): Image {
    var s := img.secs;
    Image([s[MODINFO],
           s[LIBENT] + ExportRecordOf(starts, img, e),
           s[EXPORT] + (OptionalName(e.name) + e.nids + EntryWords(starts, e.entries)),
           s[LIBSTUBS], s[IMPORT], s[FNID], s[FSTUB], s[VNID], s[VSTUB]],
          img.relas + ExportRelas(starts, img, e))
  }

  function EncodeExports(starts: Addresses, img: Image, es: seq<Export>): Image {
    if es == [] then img
    else EncodeExport(starts, EncodeExports(starts, img, es[..|es| - 1]), es[|es| - 1])
  }

  // ---- imports ----

  /** `sce_module_imports_t` without its thread-local tables, which are never filled; a variable
      comes with the words of its relocation block. */
  datatype Import = Import(version: nat, flags: nat, nid: nat, name: Option<CString>,
                           funcNids: seq<nat>, funcEntries: seq<nat>, varNids: seq<nat>, blocks: seq<seq<nat>>)
  {
    predicate Valid() {
      version < 0x1_0000 && flags < 0x1_0000 && |funcNids| == |funcEntries| < 0x1_0000 && |varNids| == |blocks| < 0x1_0000
    }
  }

  function Concat(bs: seq<seq<nat>>): seq<nat> {
    if bs == [] then [] else Concat(bs[..|bs| - 1]) + bs[|bs| - 1]
  }

  /** Pointers to blocks stored one after the other. */
  function BlockPointers(first: nat, bs: seq<seq<nat>>): (ws: seq<nat>)
    ensures |ws| == |bs|
  {
    seq(|bs|, i requires 0 <= i < |bs| => first + 4 * |Concat(bs[..i])|)
  }

  function ImportRecord(im: Import, namePtr: nat, fnid: nat, fentry: nat, vnid: nat, ventry: nat): (ws: seq<nat>)
    ensures |ws| == 13
  {
    [Half(0x34, im.version), Half(im.flags, |im.funcNids|), Half(|im.varNids|, 0), 0, im.nid, namePtr, 0,
     fnid, fentry, vnid, ventry, 0, 0]
  }

  function NamePtr(starts: Addresses, img: Image, im: Import): nat {
    if im.name.Some? then Cursor(starts, img, IMPORT) else 0
  }

  /** The pointer to a table in section k, 0 when the table is empty. */
  function TablePtr(starts: Addresses, img: Image, k: nat, count: nat): nat
    requires k < 9
  {
    if count == 0 then 0 else Cursor(starts, img, k)
  }

  function RecordOf(starts: Addresses, img: Image, im: Import): (ws: seq<nat>)
    ensures |ws| == 13
  {
    ImportRecord(im, NamePtr(starts, img, im),
                 TablePtr(starts, img, FNID, |im.funcNids|), TablePtr(starts, img, FSTUB, |im.funcNids|),
                 TablePtr(starts, img, VNID, |im.varNids|), TablePtr(starts, img, VSTUB, |im.varNids|))
  }

  function VarPointers(starts: Addresses, img: Image, im: Import): (ws: seq<nat>)
    ensures |ws| == |im.blocks|
  {
    BlockPointers(Cursor(starts, img, VSTUB) + 4 * |im.blocks|, im.blocks)
  }

  function FunctionRelas(record: nat, ws: seq<nat>, f: nat, entries: seq<nat>): seq<Abs32>
    requires |ws| == 13
  {
    One(record + 0x14, ws[5]) + One(record + 0x1C, ws[7]) + One(record + 0x20, ws[8]) + Each(f, entries)
  }

  function VariableRelas(record: nat, ws: seq<nat>, v: nat, pointers: seq<nat>): seq<Abs32>
    requires |ws| == 13
  {
    One(record + 0x24, ws[9]) + One(record + 0x28, ws[10]) + Each(v, pointers)
  }

  function ImportRelas(starts: Addresses, img: Image, im: Import): seq<Abs32> {
    var record, ws := Cursor(starts, img, LIBSTUBS), RecordOf(starts, img, im);
    FunctionRelas(record, ws, Cursor(starts, img, FSTUB), im.funcEntries)
    + VariableRelas(record, ws, Cursor(starts, img, VSTUB), VarPointers(starts, img, im))
  }

  function EncodeImport(starts: Addresses, img: Image, im: Import): Image {
    var s := img.secs;
    Image([s[MODINFO], s[LIBENT], s[EXPORT],
           s[LIBSTUBS] + RecordOf(starts, img, im),
           s[IMPORT] + OptionalName(im.name),
           s[FNID] + im.funcNids, s[FSTUB] + im.funcEntries,
           s[VNID] + im.varNids, s[VSTUB] + VarPointers(starts, img, im) + Concat(im.blocks)],
          img.relas + ImportRelas(starts, img, im))
  }

  function EncodeImports(starts: Addresses, img: Image, ims: seq<Import>): Image {
    if ims == [] then img
    else EncodeImport(starts, EncodeImports(starts, img, ims[..|ims| - 1]), ims[|ims| - 1])
  }

  // ---- what a loader sees ----

  /** The word at an address. */
  type Memory = nat -> nat

  ghost predicate Loaded(m: Memory, starts: Addresses, img: Image) {
    forall k, i :: 0 <= k < 9 && 0 <= i < |img.secs[k]| ==> m(starts[k] + 4 * i) == img.secs[k][i]
  }

  ghost predicate WordsAt(m: Memory, p: nat, ws: seq<nat>) {
    forall i :: 0 <= i < |ws| ==> m(p + 4 * i) == ws[i]
  }

  /** The byte at p + j. */
  ghost function CharIn(m: Memory, p: nat, j: nat): nat {
    Byte(m(p + 4 * (j / 4)), j % 4)
  }

  /** The NUL-terminated string at p. */
  ghost predicate StringAt(m: Memory, p: nat, s: CString) {
    (forall j :: 0 <= j < |s| ==> CharIn(m, p, j) == s[j]) && CharIn(m, p, |s|) == 0
  }

  ghost predicate NameAt(m: Memory, p: nat, name: Option<CString>) {
    match name
    case None => p == 0
    case Some(s) => StringAt(m, p, s)
  }

  ghost predicate ExportAt(m: Memory, starts: Addresses, a: nat, e: Export) {
    && Low(m(a)) == 0x20 && High(m(a)) == e.version
    && Low(m(a + 4)) == e.flags && High(m(a + 4)) == e.numFuncs
    && m(a + 8) == e.numVars && m(a + 0xC) == e.numTls && m(a + 0x10) == e.nid
    && NameAt(m, m(a + 0x14), e.name)
    && WordsAt(m, m(a + 0x18), e.nids)
    && WordsAt(m, m(a + 0x1C), EntryWords(starts, e.entries))
  }

  ghost predicate ImportAt(m: Memory, a: nat, im: Import) {
    && Low(m(a)) == 0x34 && High(m(a)) == im.version
    && Low(m(a + 4)) == im.flags && High(m(a + 4)) == |im.funcNids|
    && Low(m(a + 8)) == |im.varNids| && High(m(a + 8)) == 0 && m(a + 0x10) == im.nid
    && NameAt(m, m(a + 0x14), im.name)
    && WordsAt(m, m(a + 0x1C), im.funcNids) && WordsAt(m, m(a + 0x20), im.funcEntries)
    && WordsAt(m, m(a + 0x24), im.varNids)
    && forall i :: 0 <= i < |im.blocks| ==> WordsAt(m, m(m(a + 0x28) + 4 * i), im.blocks[i])
  }

  // ---- following the pointers ----

  ghost predicate Extends(a: Image, b: Image) {
    forall k :: 0 <= k < 9 ==> a.secs[k] <= b.secs[k]
  }

  lemma ExtensionLoads(m: Memory, starts: Addresses, a: Image, b: Image)
    requires Extends(a, b) && Loaded(m, starts, b)
    ensures Loaded(m, starts, a)
  {
    forall k, i | 0 <= k < 9 && 0 <= i < |a.secs[k]|
      ensures m(starts[k] + 4 * i) == a.secs[k][i]
    {
      assert a.secs[k] <= b.secs[k];
      assert a.secs[k][i] == b.secs[k][i];
    }
  }

  lemma WordOf(m: Memory, p: nat, ws: seq<nat>, i: nat)
    requires WordsAt(m, p, ws) && i < |ws|
    ensures m(p + 4 * i) == ws[i]
  {
  }

  lemma InsideAt(m: Memory, p: nat, before: seq<nat>, ws: seq<nat>, after: seq<nat>)
    requires WordsAt(m, p, before + ws + after)
    ensures WordsAt(m, p + 4 * |before|, ws)
  {
    var all := before + ws + after;
    forall i | 0 <= i < |ws|
      ensures m(p + 4 * |before| + 4 * i) == ws[i]
    {
      assert all[|before| + i] == ws[i];
      assert m(p + 4 * (|before| + i)) == ws[i];
    }
  }

  lemma SectionAt(m: Memory, starts: Addresses, img: Image, k: nat)
    requires k < 9 && Loaded(m, starts, img)
    ensures WordsAt(m, starts[k], img.secs[k])
  {
  }

  /** Where the words of one part of a section sit. */
  lemma PartAt(m: Memory, starts: Addresses, img: Image, k: nat, before: seq<nat>, ws: seq<nat>, after: seq<nat>)
    requires k < 9 && Loaded(m, starts, img) && img.secs[k] == before + ws + after
    ensures WordsAt(m, starts[k] + 4 * |before|, ws)
  {
    SectionAt(m, starts, img, k);
    InsideAt(m, starts[k], before, ws, after);
  }

  lemma TailAt(m: Memory, starts: Addresses, img: Image, k: nat, before: seq<nat>, ws: seq<nat>)
    requires k < 9 && Loaded(m, starts, img) && img.secs[k] == before + ws
    ensures WordsAt(m, starts[k] + 4 * |before|, ws)
  {
    assert before + ws == before + ws + [];
    PartAt(m, starts, img, k, before, ws, []);
  }

  lemma CharReads(m: Memory, p: nat, s: CString, i: nat, k: nat)
    requires WordsAt(m, p, NameWords(s)) && 4 * i + k <= |s| && k < 4
    ensures Byte(m(p + 4 * i), k) == CharAt(s, 4 * i + k)
  {
    hide Byte, Pack;
    assert m(p + 4 * i) == NameWords(s)[i];
    PackedBytes(CharAt(s, 4 * i), CharAt(s, 4 * i + 1), CharAt(s, 4 * i + 2), CharAt(s, 4 * i + 3));
  }

  lemma NameReads(m: Memory, p: nat, s: CString)
    requires WordsAt(m, p, NameWords(s))
    ensures StringAt(m, p, s)
  {
    forall j | 0 <= j <= |s|
      ensures CharIn(m, p, j) == CharAt(s, j)
    {
      hide Byte, NameWords, WordsAt, CharAt;
      assert 4 * (j / 4) + j % 4 == j;
      CharReads(m, p, s, j / 4, j % 4);
    }
    hide CharIn, WordsAt;
    assert CharIn(m, p, |s|) == CharAt(s, |s|);
  }

  lemma ExportSections(starts: Addresses, img: Image, e: Export)
    ensures EncodeExport(starts, img, e).relas == img.relas + ExportRelas(starts, img, e)
    ensures var r, s := EncodeExport(starts, img, e).secs, img.secs;
      && r[LIBENT] == s[LIBENT] + ExportRecordOf(starts, img, e)
      && r[EXPORT] == s[EXPORT] + (OptionalName(e.name) + e.nids + EntryWords(starts, e.entries))
      && r[MODINFO] == s[MODINFO] && forall k :: 3 <= k < 9 ==> r[k] == s[k]
  {
    hide OptionalName, ExportRecordOf, ExportRelas, EntryWords;
  }

  lemma ExportRecordReads(m: Memory, starts: Addresses, img: Image, e: Export)
    requires Loaded(m, starts, EncodeExport(starts, img, e))
    ensures var a, record := Cursor(starts, img, LIBENT), ExportRecordOf(starts, img, e);
      && m(a) == record[0] && m(a + 4) == record[1] && m(a + 8) == record[2] && m(a + 0xC) == record[3]
      && m(a + 0x10) == record[4] && m(a + 0x14) == record[5] && m(a + 0x18) == record[6] && m(a + 0x1C) == record[7]
  {
    ExportSections(starts, img, e);
    TailAt(m, starts, EncodeExport(starts, img, e), LIBENT, img.secs[LIBENT], ExportRecordOf(starts, img, e));
    RecordFields(m, Cursor(starts, img, LIBENT), ExportRecordOf(starts, img, e));
  }

  lemma ExportTablesRead(m: Memory, starts: Addresses, img: Image, e: Export)
    requires Loaded(m, starts, EncodeExport(starts, img, e))
    ensures var tables, name := Cursor(starts, img, EXPORT), OptionalName(e.name);
      && WordsAt(m, tables, name) && WordsAt(m, tables + 4 * |name|, e.nids)
      && WordsAt(m, tables + 4 * |name| + 4 * |e.nids|, EntryWords(starts, e.entries))
  {
    hide EncodeExport, EntryWords, ExportRecordOf, ExportRelas, Loaded, OptionalName, WordsAt;
    var name, entries := OptionalName(e.name), EntryWords(starts, e.entries);
    var r, before := EncodeExport(starts, img, e), img.secs[EXPORT];
    ExportSections(starts, img, e);
    assert r.secs[EXPORT] == before + name + (e.nids + entries) == (before + name) + e.nids + entries == (before + name + e.nids) + entries;
    PartAt(m, starts, r, EXPORT, before, name, e.nids + entries);
    PartAt(m, starts, r, EXPORT, before + name, e.nids, entries);
    TailAt(m, starts, r, EXPORT, before + name + e.nids, entries);
  }

  /** A loader that meets the record finds the export. */
  lemma ExportReads(m: Memory, starts: Addresses, img: Image, e: Export)
    requires e.Valid() && Loaded(m, starts, EncodeExport(starts, img, e))
    ensures ExportAt(m, starts, Cursor(starts, img, LIBENT), e)
  {
    hide EncodeExport, EntryWords, Loaded, WordsAt, StringAt, Low, High, NameWords, ExportRelas;
    ExportRecordReads(m, starts, img, e);
    HalfParts(0x20, e.version);
    HalfParts(e.flags, e.numFuncs);
    ExportTablesRead(m, starts, img, e);
    if e.name.Some? {
      NameReads(m, Cursor(starts, img, EXPORT), e.name.value);
    }
  }

  lemma RecordFields(m: Memory, a: nat, ws: seq<nat>)
    requires WordsAt(m, a, ws) && |ws| >= 8
    ensures m(a) == ws[0] && m(a + 4) == ws[1] && m(a + 8) == ws[2] && m(a + 0xC) == ws[3]
    ensures m(a + 0x10) == ws[4] && m(a + 0x14) == ws[5] && m(a + 0x18) == ws[6] && m(a + 0x1C) == ws[7]
  {
    assert m(a + 4 * 0) == ws[0] && m(a + 4 * 1) == ws[1] && m(a + 4 * 2) == ws[2] && m(a + 4 * 3) == ws[3];
    assert m(a + 4 * 4) == ws[4] && m(a + 4 * 5) == ws[5] && m(a + 4 * 6) == ws[6] && m(a + 4 * 7) == ws[7];
  }

  lemma MoreFields(m: Memory, a: nat, ws: seq<nat>)
    requires WordsAt(m, a, ws) && |ws| >= 13
    ensures m(a + 0x20) == ws[8] && m(a + 0x24) == ws[9] && m(a + 0x28) == ws[10]
    ensures m(a + 0x2C) == ws[11] && m(a + 0x30) == ws[12]
  {
    assert m(a + 4 * 8) == ws[8] && m(a + 4 * 9) == ws[9] && m(a + 4 * 10) == ws[10];
    assert m(a + 4 * 11) == ws[11] && m(a + 4 * 12) == ws[12];
  }

  lemma {:induction false} ConcatSplit(bs: seq<seq<nat>>, i: nat)
    requires i < |bs|
    ensures |Concat(bs[..i])| + |bs[i]| <= |Concat(bs)|
    ensures Concat(bs) == Concat(bs[..i]) + bs[i] + Concat(bs)[|Concat(bs[..i])| + |bs[i]|..]
  {
    var n := |bs| - 1;
    if i < n {
      ConcatSplit(bs[..n], i);
      assert bs[..n][..i] == bs[..i];
    }
  }

  lemma PointerOf(p: nat, bs: seq<seq<nat>>, i: nat)
    requires i < |bs|
    ensures BlockPointers(p, bs)[i] == p + 4 * |Concat(bs[..i])|
  {
  }

  /** Each pointer leads to its block. */
  lemma BlocksRead(m: Memory, p: nat, bs: seq<seq<nat>>, i: nat)
    requires WordsAt(m, p, Concat(bs)) && i < |bs|
    ensures WordsAt(m, BlockPointers(p, bs)[i], bs[i])
  {
    hide *;
    ConcatSplit(bs, i);
    var before := Concat(bs[..i]);
    InsideAt(m, p, before, bs[i], Concat(bs)[|before| + |bs[i]|..]);
    PointerOf(p, bs, i);
  }

  lemma BlockBehindPointer(m: Memory, table: nat, bs: seq<seq<nat>>, i: nat)
    requires WordsAt(m, table, BlockPointers(table + 4 * |bs|, bs)) && WordsAt(m, table + 4 * |bs|, Concat(bs)) && i < |bs|
    ensures WordsAt(m, m(table + 4 * i), bs[i])
  {
    hide *;
    WordOf(m, table, BlockPointers(table + 4 * |bs|, bs), i);
    BlocksRead(m, table + 4 * |bs|, bs, i);
  }

  lemma ImportReads(m: Memory, starts: Addresses, img: Image, im: Import)
    requires im.Valid() && Loaded(m, starts, EncodeImport(starts, img, im))
    ensures ImportAt(m, Cursor(starts, img, LIBSTUBS), im)
  {
    hide EncodeImport, Loaded, Concat, Cursor;
    ImportRecordReads(m, starts, img, im);
    HalfParts(0x34, im.version);
    HalfParts(im.flags, |im.funcNids|);
    HalfParts(|im.varNids|, 0);
    ImportTablesRead(m, starts, img, im);
    forall i | 0 <= i < |im.blocks|
      ensures WordsAt(m, m(Cursor(starts, img, VSTUB) + 4 * i), im.blocks[i])
    {
      ImportBlocksRead(m, starts, img, im, i);
    }
    if im.name.Some? {
      NameReads(m, NamePtr(starts, img, im), im.name.value);
    }
    assert WordsAt(m, 0, []);
    assert |im.funcNids| == 0 ==> im.funcNids == [] && im.funcEntries == [];
    assert |im.varNids| == 0 ==> im.varNids == [];
  }

  lemma ImportRecordReads(m: Memory, starts: Addresses, img: Image, im: Import)
    requires im.Valid() && Loaded(m, starts, EncodeImport(starts, img, im))
    ensures var a, record := Cursor(starts, img, LIBSTUBS), RecordOf(starts, img, im);
      && m(a) == record[0] && m(a + 4) == record[1] && m(a + 8) == record[2] && m(a + 0x10) == record[4] && m(a + 0x14) == record[5]
      && m(a + 0x1C) == record[7] && m(a + 0x20) == record[8] && m(a + 0x24) == record[9] && m(a + 0x28) == record[10]
      && m(a + 0x2C) == record[11] && m(a + 0x30) == record[12]
  {
    ImportSections(starts, img, im);
    TailAt(m, starts, EncodeImport(starts, img, im), LIBSTUBS, img.secs[LIBSTUBS], RecordOf(starts, img, im));
    RecordFields(m, Cursor(starts, img, LIBSTUBS), RecordOf(starts, img, im));
    MoreFields(m, Cursor(starts, img, LIBSTUBS), RecordOf(starts, img, im));
  }

  lemma ImportTablesRead(m: Memory, starts: Addresses, img: Image, im: Import)
    requires im.Valid() && Loaded(m, starts, EncodeImport(starts, img, im))
    ensures WordsAt(m, Cursor(starts, img, IMPORT), OptionalName(im.name))
    ensures WordsAt(m, Cursor(starts, img, FNID), im.funcNids) && WordsAt(m, Cursor(starts, img, FSTUB), im.funcEntries)
    ensures WordsAt(m, Cursor(starts, img, VNID), im.varNids)
  {
    hide EncodeImport, Loaded, WordsAt, OptionalName, Concat;
    var r, s := EncodeImport(starts, img, im), img.secs;
    ImportSections(starts, img, im);
    TailAt(m, starts, r, IMPORT, s[IMPORT], OptionalName(im.name));
    TailAt(m, starts, r, FNID, s[FNID], im.funcNids);
    TailAt(m, starts, r, FSTUB, s[FSTUB], im.funcEntries);
    TailAt(m, starts, r, VNID, s[VNID], im.varNids);
  }

  lemma ImportBlocksRead(m: Memory, starts: Addresses, img: Image, im: Import, i: nat)
    requires im.Valid() && Loaded(m, starts, EncodeImport(starts, img, im)) && i < |im.blocks|
    ensures WordsAt(m, m(Cursor(starts, img, VSTUB) + 4 * i), im.blocks[i])
  {
    var r, s := EncodeImport(starts, img, im), img.secs;
    var stubs := Cursor(starts, img, VSTUB);
    var pointers := BlockPointers(stubs + 4 * |im.blocks|, im.blocks);
    ImportSections(starts, img, im);
    PartAt(m, starts, r, VSTUB, s[VSTUB], pointers, Concat(im.blocks));
    TailAt(m, starts, r, VSTUB, s[VSTUB] + pointers, Concat(im.blocks));
    BlockBehindPointer(m, stubs, im.blocks, i);
  }

  lemma ImportSections(starts: Addresses, img: Image, im: Import)
    ensures EncodeImport(starts, img, im).relas == img.relas + ImportRelas(starts, img, im)
    ensures var r, s := EncodeImport(starts, img, im).secs, img.secs;
      && r[IMPORT] == s[IMPORT] + OptionalName(im.name)
      && r[FNID] == s[FNID] + im.funcNids && r[FSTUB] == s[FSTUB] + im.funcEntries && r[VNID] == s[VNID] + im.varNids
      && r[VSTUB] == s[VSTUB] + VarPointers(starts, img, im) + Concat(im.blocks)
      && r[LIBSTUBS] == s[LIBSTUBS] + RecordOf(starts, img, im)
      && r[MODINFO] == s[MODINFO] && r[LIBENT] == s[LIBENT] && r[EXPORT] == s[EXPORT]
  {
    hide OptionalName, VarPointers, Concat, RecordOf, ImportRelas;
  }
}
