/** The relocations of the module info image: exactly one for every nonzero pointer word. */
module ModuleRelas {
  import opened Wrappers
  import opened Imports
  import opened ModuleImage
  import opened ModuleInfo

  // ---- the pointer words, found by reading the image ----

  function Table(p: nat, n: nat): (s: seq<nat>)
    ensures |s| == n
  {
    seq(n, i requires 0 <= i => p + 4 * i)
  }

  /** name, nid_table, entry_table, and the words of the entry table. */
  ghost function ExportSlots(m: Memory, a: nat): seq<nat> {
    [a + 0x14, a + 0x18, a + 0x1C] + Table(m(a + 0x1C), High(m(a + 4)) + m(a + 8) + m(a + 0xC))
  }

  /** name and the six table pointers, and the words of the two filled entry tables. */
  ghost function ImportSlots(m: Memory, a: nat): seq<nat> {
    [a + 0x14, a + 0x1C, a + 0x20] + Table(m(a + 0x20), High(m(a + 4)))
    + ([a + 0x24, a + 0x28] + Table(m(a + 0x28), Low(m(a + 8))) + [a + 0x2C, a + 0x30])
  }

  ghost function ExportsSlots(m: Memory, a: nat, n: nat): seq<nat> {
    if n == 0 then [] else ExportsSlots(m, a, n - 1) + ExportSlots(m, a + 0x20 * (n - 1))
  }

  ghost function ImportsSlots(m: Memory, a: nat, n: nat): seq<nat> {
    if n == 0 then [] else ImportsSlots(m, a, n - 1) + ImportSlots(m, a + 0x34 * (n - 1))
  }

  /** One relocation for every nonzero word among the slots, its addend being that word. */
  ghost function RelasOf(m: Memory, slots: seq<nat>): seq<Abs32> {
    if slots == [] then []
    else
      var n := |slots| - 1;
      RelasOf(m, slots[..n]) + One(slots[n], m(slots[n]))
  }

  lemma {:induction false} RelasOfAppend(m: Memory, a: seq<nat>, b: seq<nat>)
    ensures RelasOf(m, a + b) == RelasOf(m, a) + RelasOf(m, b)
  {
    hide One;
    if b == [] {
      assert a + b == a;
    } else {
      var n := |b| - 1;
      RelasOfAppend(m, a, b[..n]);
      assert (a + b)[..|a + b| - 1] == a + b[..n];
    }
  }

  lemma RelasOfThree(m: Memory, x: nat, y: nat, z: nat)
    ensures RelasOf(m, [x]) == One(x, m(x))
    ensures RelasOf(m, [x, y]) == One(x, m(x)) + One(y, m(y))
    ensures RelasOf(m, [x, y, z]) == One(x, m(x)) + One(y, m(y)) + One(z, m(z))
  {
    hide One;
    assert [x, y, z][..2] == [x, y] && [x, y][..1] == [x] && [x][..0] == [];
  }

  lemma {:induction false} RelasOfTable(m: Memory, p: nat, ws: seq<nat>)
    requires WordsAt(m, p, ws)
    ensures RelasOf(m, Table(p, |ws|)) == Each(p, ws)
  {
    hide One;
    if ws != [] {
      var n := |ws| - 1;
      assert Table(p, |ws|)[..n] == Table(p, n);
      assert m(p + 4 * n) == ws[n];
      RelasOfTable(m, p, ws[..n]);
    }
  }

  lemma ExportRelasAreSlots(m: Memory, starts: Addresses, img: Image, e: Export)
    requires e.Valid() && Loaded(m, starts, EncodeExport(starts, img, e))
    ensures ExportRelas(starts, img, e) == RelasOf(m, ExportSlots(m, Cursor(starts, img, LIBENT)))
  {
    hide Cursor, Each, EncodeExport, EntryWords, Half, High, Loaded, Low, One, OptionalName, RelasOf, Table, WordsAt;
    var a, entries := Cursor(starts, img, LIBENT), EntryWords(starts, e.entries);
    ExportRecordReads(m, starts, img, e);
    ExportTablesRead(m, starts, img, e);
    HalfParts(e.flags, e.numFuncs);
    RelasOfThree(m, a + 0x14, a + 0x18, a + 0x1C);
    RelasOfTable(m, m(a + 0x1C), entries);
    RelasOfAppend(m, [a + 0x14, a + 0x18, a + 0x1C], Table(m(a + 0x1C), |entries|));
  }

  lemma FunctionSlots(m: Memory, a: nat, ws: seq<nat>, f: nat, entries: seq<nat>)
    requires |ws| == 13 && m(a + 0x14) == ws[5] && m(a + 0x1C) == ws[7] && m(a + 0x20) == ws[8]
    requires WordsAt(m, f, entries) && (entries != [] ==> ws[8] == f)
    ensures FunctionRelas(a, ws, f, entries) == RelasOf(m, [a + 0x14, a + 0x1C, a + 0x20] + Table(ws[8], |entries|))
  {
    RelasOfThree(m, a + 0x14, a + 0x1C, a + 0x20);
    TableOrNothing(m, f, ws[8], entries);
    RelasOfAppend(m, [a + 0x14, a + 0x1C, a + 0x20], Table(ws[8], |entries|));
  }

  lemma VariableSlots(m: Memory, a: nat, ws: seq<nat>, v: nat, pointers: seq<nat>)
    requires |ws| == 13 && m(a + 0x24) == ws[9] && m(a + 0x28) == ws[10] && m(a + 0x2C) == 0 && m(a + 0x30) == 0
    requires WordsAt(m, v, pointers) && (pointers != [] ==> ws[10] == v)
    ensures VariableRelas(a, ws, v, pointers) == RelasOf(m, [a + 0x24, a + 0x28] + Table(ws[10], |pointers|) + [a + 0x2C, a + 0x30])
  {
    var t := Table(ws[10], |pointers|);
    RelasOfThree(m, a + 0x24, a + 0x28, 0);
    RelasOfThree(m, a + 0x2C, a + 0x30, 0);
    assert One(a + 0x2C, 0) == [] && One(a + 0x30, 0) == [];
    TableOrNothing(m, v, ws[10], pointers);
    RelasOfAppend(m, [a + 0x24, a + 0x28], t);
    RelasOfAppend(m, [a + 0x24, a + 0x28] + t, [a + 0x2C, a + 0x30]);
  }

  lemma ImportRelasAreSlots(m: Memory, starts: Addresses, img: Image, im: Import)
    requires im.Valid() && Loaded(m, starts, EncodeImport(starts, img, im))
    ensures ImportRelas(starts, img, im) == RelasOf(m, ImportSlots(m, Cursor(starts, img, LIBSTUBS)))
  {
    var a, ws := Cursor(starts, img, LIBSTUBS), RecordOf(starts, img, im);
    var f, v := Cursor(starts, img, FSTUB), Cursor(starts, img, VSTUB);
    ImportRecordReads(m, starts, img, im);
    ImportTablesRead(m, starts, img, im);
    ImportPointersRead(m, starts, img, im);
    HalfParts(im.flags, |im.funcNids|);
    HalfParts(|im.varNids|, 0);
    FunctionSlots(m, a, ws, f, im.funcEntries);
    VariableSlots(m, a, ws, v, VarPointers(starts, img, im));
    RelasOfAppend(m, [a + 0x14, a + 0x1C, a + 0x20] + Table(ws[8], |im.funcEntries|),
                  [a + 0x24, a + 0x28] + Table(ws[10], |im.blocks|) + [a + 0x2C, a + 0x30]);
  }

  lemma TableOrNothing(m: Memory, p: nat, q: nat, ws: seq<nat>)
    requires WordsAt(m, p, ws) && (ws != [] ==> q == p)
    ensures RelasOf(m, Table(q, |ws|)) == Each(p, ws)
  {
    if ws != [] {
      RelasOfTable(m, p, ws);
    }
  }

  lemma ImportPointersRead(m: Memory, starts: Addresses, img: Image, im: Import)
    requires Loaded(m, starts, EncodeImport(starts, img, im))
    ensures WordsAt(m, Cursor(starts, img, VSTUB), VarPointers(starts, img, im))
  {
    ImportSections(starts, img, im);
    PartAt(m, starts, EncodeImport(starts, img, im), VSTUB, img.secs[VSTUB], VarPointers(starts, img, im), Concat(im.blocks));
  }

  lemma ExportsStep(m: Memory, starts: Addresses, img: Image, es: seq<Export>, a: nat)
    ensures es == [] ==> EncodeExports(starts, img, es) == img && ExportsSlots(m, a, 0) == [] && RelasOf(m, []) == []
    ensures es != [] ==> EncodeExports(starts, img, es) == EncodeExport(starts, EncodeExports(starts, img, es[..|es| - 1]), es[|es| - 1])
    ensures es != [] ==> ExportsSlots(m, a, |es|) == ExportsSlots(m, a, |es| - 1) + ExportSlots(m, a + 0x20 * (|es| - 1))
  {
    hide EncodeExport, ExportSlots;
  }

  lemma OneExportMore(m: Memory, starts: Addresses, before: Image, e: Export, relas: seq<Abs32>, slots: seq<nat>, a: nat)
    requires e.Valid() && Loaded(m, starts, EncodeExport(starts, before, e))
    requires a == Cursor(starts, before, LIBENT) && before.relas == relas + RelasOf(m, slots)
    ensures EncodeExport(starts, before, e).relas == relas + RelasOf(m, slots + ExportSlots(m, a))
  {
    hide *;
    ExportSections(starts, before, e);
    ExportRelasAreSlots(m, starts, before, e);
    RelasOfAppend(m, slots, ExportSlots(m, a));
    assert (relas + RelasOf(m, slots)) + RelasOf(m, ExportSlots(m, a)) == relas + (RelasOf(m, slots) + RelasOf(m, ExportSlots(m, a)));
  }

  lemma ExportBefore(m: Memory, starts: Addresses, img: Image, es: seq<Export>)
    requires (forall e :: e in es ==> e.Valid()) && Loaded(m, starts, EncodeExports(starts, img, es)) && es != []
    ensures var n := |es| - 1;
      var before := EncodeExports(starts, img, es[..n]);
      && (forall e :: e in es[..n] ==> e.Valid()) && es[n].Valid() && Loaded(m, starts, before)
      && EncodeExports(starts, img, es) == EncodeExport(starts, before, es[n])
      && Cursor(starts, before, LIBENT) == Cursor(starts, img, LIBENT) + 0x20 * n
  {
    var n := |es| - 1;
    var before := EncodeExports(starts, img, es[..n]);
    ExportsStep(m, starts, img, es, 0);
    hide *;
    assert (forall e :: e in es[..n] ==> e in es) && es[n] in es;
    ExportExtends(starts, before, es[n]);
    ExtensionLoads(m, starts, before, EncodeExports(starts, img, es));
    ExportsRead(m, starts, img, es[..n]);
    ExportCursor(starts, img, before, n);
  }

  lemma ExportCursor(starts: Addresses, img: Image, before: Image, n: nat)
    requires |before.secs[LIBENT]| == |img.secs[LIBENT]| + 8 * n
    ensures Cursor(starts, before, LIBENT) == Cursor(starts, img, LIBENT) + 0x20 * n
  {
  }

  lemma {:induction false} ExportsRelasAreSlots(m: Memory, starts: Addresses, img: Image, es: seq<Export>, a: nat)
    requires forall e :: e in es ==> e.Valid()
    requires Loaded(m, starts, EncodeExports(starts, img, es)) && a == Cursor(starts, img, LIBENT)
    ensures EncodeExports(starts, img, es).relas == img.relas + RelasOf(m, ExportsSlots(m, a, |es|))
  {
    hide *;
    ExportsStep(m, starts, img, es, a);
    if es != [] {
      var n := |es| - 1;
      ExportBefore(m, starts, img, es);
      ExportsRelasAreSlots(m, starts, img, es[..n], a);
      OneExportMore(m, starts, EncodeExports(starts, img, es[..n]), es[n], img.relas, ExportsSlots(m, a, n), a + 0x20 * n);
    }
  }

  lemma ImportsStep(m: Memory, starts: Addresses, img: Image, es: seq<Import>, a: nat)
    ensures es == [] ==> EncodeImports(starts, img, es) == img && ImportsSlots(m, a, 0) == [] && RelasOf(m, []) == []
    ensures es != [] ==> EncodeImports(starts, img, es) == EncodeImport(starts, EncodeImports(starts, img, es[..|es| - 1]), es[|es| - 1])
    ensures es != [] ==> ImportsSlots(m, a, |es|) == ImportsSlots(m, a, |es| - 1) + ImportSlots(m, a + 0x34 * (|es| - 1))
  {
    hide EncodeImport, ImportSlots;
  }

  lemma OneImportMore(m: Memory, starts: Addresses, before: Image, im: Import, relas: seq<Abs32>, slots: seq<nat>, a: nat)
    requires im.Valid() && Loaded(m, starts, EncodeImport(starts, before, im))
    requires a == Cursor(starts, before, LIBSTUBS) && before.relas == relas + RelasOf(m, slots)
    ensures EncodeImport(starts, before, im).relas == relas + RelasOf(m, slots + ImportSlots(m, a))
  {
    hide *;
    ImportSections(starts, before, im);
    ImportRelasAreSlots(m, starts, before, im);
    RelasOfAppend(m, slots, ImportSlots(m, a));
    assert (relas + RelasOf(m, slots)) + RelasOf(m, ImportSlots(m, a)) == relas + (RelasOf(m, slots) + RelasOf(m, ImportSlots(m, a)));
  }

  lemma ImportBefore(m: Memory, starts: Addresses, img: Image, ims: seq<Import>)
    requires (forall im :: im in ims ==> im.Valid()) && Loaded(m, starts, EncodeImports(starts, img, ims)) && ims != []
    ensures var n := |ims| - 1;
      var before := EncodeImports(starts, img, ims[..n]);
      && (forall im :: im in ims[..n] ==> im.Valid()) && ims[n].Valid() && Loaded(m, starts, before)
      && EncodeImports(starts, img, ims) == EncodeImport(starts, before, ims[n])
      && Cursor(starts, before, LIBSTUBS) == Cursor(starts, img, LIBSTUBS) + 0x34 * n
  {
    var n := |ims| - 1;
    var before := EncodeImports(starts, img, ims[..n]);
    ImportsStep(m, starts, img, ims, 0);
    hide *;
    assert (forall im :: im in ims[..n] ==> im in ims) && ims[n] in ims;
    ImportExtends(starts, before, ims[n]);
    ExtensionLoads(m, starts, before, EncodeImports(starts, img, ims));
    ImportsRead(m, starts, img, ims[..n]);
    ImportCursor(starts, img, before, n);
  }

  lemma ImportCursor(starts: Addresses, img: Image, before: Image, n: nat)
    requires |before.secs[LIBSTUBS]| == |img.secs[LIBSTUBS]| + 13 * n
    ensures Cursor(starts, before, LIBSTUBS) == Cursor(starts, img, LIBSTUBS) + 0x34 * n
  {
  }

  lemma {:induction false} ImportsRelasAreSlots(m: Memory, starts: Addresses, img: Image, ims: seq<Import>, a: nat)
    requires forall im :: im in ims ==> im.Valid()
    requires Loaded(m, starts, EncodeImports(starts, img, ims)) && a == Cursor(starts, img, LIBSTUBS)
    ensures EncodeImports(starts, img, ims).relas == img.relas + RelasOf(m, ImportsSlots(m, a, |ims|))
  {
    hide *;
    ImportsStep(m, starts, img, ims, a);
    if ims != [] {
      var n := |ims| - 1;
      ImportBefore(m, starts, img, ims);
      ImportsRelasAreSlots(m, starts, img, ims[..n], a);
      OneImportMore(m, starts, EncodeImports(starts, img, ims[..n]), ims[n], img.relas, ImportsSlots(m, a, n), a + 0x34 * n);
    }
  }

  /** Reading the loaded image finds every pointer word; the relocations are those of the
      nonzero ones, each at its own address with its own value as addend, and no others. */
  lemma RelasAreThePointers(m: Memory, starts: Addresses, header: seq<nat>, params: nat, x: Module)
    requires x.Valid() && Loaded(m, starts, Full(starts, header, params, x))
    ensures Full(starts, header, params, x).relas
         == RelasOf(m, ExportsSlots(m, starts[LIBENT], |x.exports|) + ImportsSlots(m, starts[LIBSTUBS], |x.imports|))
  {
    hide Begun, EncodeExports, EncodeImports, Export.Count, ExportAt, ExportsSlots, Extends, ImportAt, ImportsSlots,
      Loaded, RelasOf;
    var img := Begun(header, params);
    var mid := EncodeExports(starts, img, x.exports);
    BegunSections(header, params);
    ImportsRead(m, starts, mid, x.imports);
    ExtensionLoads(m, starts, mid, Full(starts, header, params, x));
    ExportsRead(m, starts, img, x.exports);
    ExportsRelasAreSlots(m, starts, img, x.exports, starts[LIBENT]);
    ImportsRelasAreSlots(m, starts, mid, x.imports, starts[LIBSTUBS]);
    RelasOfAppend(m, ExportsSlots(m, starts[LIBENT], |x.exports|), ImportsSlots(m, starts[LIBSTUBS], |x.imports|));
  }

  // ---- no address twice ----

  ghost predicate Distinct(rs: seq<Abs32>) {
    forall i, j :: 0 <= i < j < |rs| ==> rs[i].offset != rs[j].offset
  }

  ghost predicate Within(rs: seq<Abs32>, low: nat, high: nat) {
    forall r :: r in rs ==> low <= r.offset < high
  }

  ghost predicate Increasing(rs: seq<Abs32>) {
    forall i, j :: 0 <= i < j < |rs| ==> rs[i].offset < rs[j].offset
  }

  lemma IncreasingAppend(a: seq<Abs32>, b: seq<Abs32>, low: nat, mid: nat, mid': nat, high: nat)
    requires Increasing(a) && Increasing(b) && Within(a, low, mid) && Within(b, mid', high) && low <= mid <= mid' <= high
    ensures Increasing(a + b) && Within(a + b, low, high)
  {
    forall i, j | 0 <= i < j < |a + b|
      ensures (a + b)[i].offset < (a + b)[j].offset
    {
      if i < |a| <= j {
        assert (a + b)[i] in a && (a + b)[j] in b;
      }
    }
  }

  lemma OneIncreases(address: nat, w: nat)
    ensures Increasing(One(address, w)) && Within(One(address, w), address, address + 4)
  {
  }

  lemma NoneIncrease(low: nat, high: nat)
    ensures Increasing([]) && Within([], low, high)
  {
  }

  lemma {:induction false} EachIncreases(p: nat, ws: seq<nat>)
    ensures Increasing(Each(p, ws)) && Within(Each(p, ws), p, p + 4 * |ws|)
  {
    if ws == [] {
      NoneIncrease(p, p);
    } else {
      var n := |ws| - 1;
      EachIncreases(p, ws[..n]);
      OneIncreases(p + 4 * n, ws[n]);
      IncreasingAppend(Each(p, ws[..n]), One(p + 4 * n, ws[n]), p, p + 4 * n, p + 4 * n, p + 4 * |ws|);
    }
  }

  /** The sections follow one another. */
  ghost predicate Laid(starts: Addresses, ends: Addresses) {
    forall j, k :: 0 <= j < k < 9 ==> starts[j] <= ends[j] <= starts[k] <= ends[k]
  }

  ghost predicate Fits(starts: Addresses, ends: Addresses, img: Image) {
    forall k :: 0 <= k < 9 ==> Cursor(starts, img, k) <= ends[k]
  }

  /** No relocation lies in the part of a section that is still free. */
  ghost predicate Settled(starts: Addresses, ends: Addresses, img: Image) {
    Distinct(img.relas)
    && forall r, k :: r in img.relas && 0 <= k < 9 ==> !(Cursor(starts, img, k) <= r.offset < ends[k])
  }

  ghost predicate Claimed(starts: Addresses, old': Image, new': Image, r: Abs32) {
    exists k :: 0 <= k < 9 && Cursor(starts, old', k) <= r.offset < Cursor(starts, new', k)
  }

  /** A word claimed between the cursors of two images is behind the cursors of the second. */
  lemma ClaimedBehind(starts: Addresses, ends: Addresses, a: Image, b: Image, r: Abs32, k: nat)
    requires Laid(starts, ends) && Fits(starts, ends, b) && Claimed(starts, a, b, r) && k < 9
    requires forall i :: 0 <= i < 9 ==> Cursor(starts, a, i) <= Cursor(starts, b, i)
    ensures !(Cursor(starts, b, k) <= r.offset < ends[k])
    ensures exists j :: 0 <= j < 9 && Cursor(starts, a, j) <= r.offset < ends[j]
  {
    var j :| 0 <= j < 9 && Cursor(starts, a, j) <= r.offset < Cursor(starts, b, j);
    assert Cursor(starts, b, j) <= ends[j];
    assert j < k ==> ends[j] <= starts[k];
    assert k < j ==> ends[k] <= starts[j];
  }

  lemma StillSettled(starts: Addresses, ends: Addresses, a: Image, b: Image, added: seq<Abs32>)
    requires Laid(starts, ends) && Settled(starts, ends, a) && Fits(starts, ends, b)
    requires forall k :: 0 <= k < 9 ==> Cursor(starts, a, k) <= Cursor(starts, b, k)
    requires b.relas == a.relas + added && Distinct(added)
    requires forall r :: r in added ==> Claimed(starts, a, b, r)
    ensures Settled(starts, ends, b)
  {
    hide Laid, Fits, Claimed, Cursor;
    forall r, k | r in b.relas && 0 <= k < 9
      ensures !(Cursor(starts, b, k) <= r.offset < ends[k])
    {
      if r in added {
        ClaimedBehind(starts, ends, a, b, r, k);
      }
    }
    forall i, j | 0 <= i < j < |b.relas|
      ensures b.relas[i].offset != b.relas[j].offset
    {
      if i < |a.relas| <= j {
        var r := b.relas[j];
        assert r == added[j - |a.relas|] && r in added;
        ClaimedBehind(starts, ends, a, b, r, 0);
        assert b.relas[i] in a.relas;
      }
    }
  }

  lemma ExportSettles(starts: Addresses, ends: Addresses, img: Image, e: Export)
    requires Laid(starts, ends) && Settled(starts, ends, img) && Fits(starts, ends, EncodeExport(starts, img, e))
    ensures Settled(starts, ends, EncodeExport(starts, img, e))
  {
    hide Each, EncodeExport, EntryWords, Half, One, OptionalName, Settled;
    var b := EncodeExport(starts, img, e);
    var a, ws, entries := Cursor(starts, img, LIBENT), ExportRecordOf(starts, img, e), EntryWords(starts, e.entries);
    ExportSections(starts, img, e);
    ExportExtends(starts, img, e);
    var t := Cursor(starts, img, EXPORT);
    assert t <= ws[7] && ws[7] + 4 * |entries| == Cursor(starts, b, EXPORT);
    assert a + 0x20 == Cursor(starts, b, LIBENT) <= t;
    OneIncreases(a + 0x14, ws[5]);
    OneIncreases(a + 0x18, ws[6]);
    OneIncreases(a + 0x1C, ws[7]);
    EachIncreases(ws[7], entries);
    var r2 := One(a + 0x14, ws[5]) + One(a + 0x18, ws[6]);
    IncreasingAppend(One(a + 0x14, ws[5]), One(a + 0x18, ws[6]), a + 0x14, a + 0x18, a + 0x18, a + 0x1C);
    IncreasingAppend(r2, One(a + 0x1C, ws[7]), a + 0x14, a + 0x1C, a + 0x1C, a + 0x20);
    IncreasingAppend(r2 + One(a + 0x1C, ws[7]), Each(ws[7], entries), a + 0x14, a + 0x20, ws[7], ws[7] + 4 * |entries|);
    var added := ExportRelas(starts, img, e);
    assert Distinct(added);
    forall r | r in added
      ensures Claimed(starts, img, b, r)
    {
      if r in Each(ws[7], entries) {
        assert Cursor(starts, img, EXPORT) <= r.offset < Cursor(starts, b, EXPORT);
      } else {
        assert Cursor(starts, img, LIBENT) <= r.offset < Cursor(starts, b, LIBENT);
      }
    }
    assert forall k :: 0 <= k < 9 ==> Cursor(starts, img, k) <= Cursor(starts, b, k);
    StillSettled(starts, ends, img, b, added);
  }

  lemma FunctionPart(a: nat, ws: seq<nat>, f: nat, entries: seq<nat>)
    requires |ws| == 13 && a + 0x34 <= f
    ensures var r := One(a + 0x14, ws[5]) + One(a + 0x1C, ws[7]) + One(a + 0x20, ws[8]);
      FunctionRelas(a, ws, f, entries) == r + Each(f, entries) && Within(r, a, a + 0x24)
      && Within(Each(f, entries), f, f + 4 * |entries|) && Increasing(r + Each(f, entries))
  {
    OneIncreases(a + 0x14, ws[5]);
    OneIncreases(a + 0x1C, ws[7]);
    OneIncreases(a + 0x20, ws[8]);
    EachIncreases(f, entries);
    var r0 := One(a + 0x14, ws[5]) + One(a + 0x1C, ws[7]);
    IncreasingAppend(One(a + 0x14, ws[5]), One(a + 0x1C, ws[7]), a + 0x14, a + 0x18, a + 0x1C, a + 0x20);
    IncreasingAppend(r0, One(a + 0x20, ws[8]), a + 0x14, a + 0x20, a + 0x20, a + 0x24);
    IncreasingAppend(r0 + One(a + 0x20, ws[8]), Each(f, entries), a + 0x14, a + 0x24, f, f + 4 * |entries|);
  }

  lemma VariablePart(a: nat, ws: seq<nat>, v: nat, pointers: seq<nat>)
    requires |ws| == 13 && a + 0x34 <= v
    ensures var r := One(a + 0x24, ws[9]) + One(a + 0x28, ws[10]);
      VariableRelas(a, ws, v, pointers) == r + Each(v, pointers) && Within(r, a + 0x24, a + 0x34)
      && Within(Each(v, pointers), v, v + 4 * |pointers|) && Increasing(r + Each(v, pointers))
  {
    OneIncreases(a + 0x24, ws[9]);
    OneIncreases(a + 0x28, ws[10]);
    EachIncreases(v, pointers);
    IncreasingAppend(One(a + 0x24, ws[9]), One(a + 0x28, ws[10]), a + 0x24, a + 0x28, a + 0x28, a + 0x2C);
    IncreasingAppend(One(a + 0x24, ws[9]) + One(a + 0x28, ws[10]), Each(v, pointers), a + 0x24, a + 0x2C, v, v + 4 * |pointers|);
  }

  lemma ImportParts(starts: Addresses, ends: Addresses, img: Image, im: Import)
    requires Laid(starts, ends) && Fits(starts, ends, EncodeImport(starts, img, im)) && im.Valid()
    ensures Distinct(ImportRelas(starts, img, im))
    ensures forall r :: r in ImportRelas(starts, img, im) ==> Claimed(starts, img, EncodeImport(starts, img, im), r)
  {
    var b := EncodeImport(starts, img, im);
    var a, ws, pointers := Cursor(starts, img, LIBSTUBS), RecordOf(starts, img, im), VarPointers(starts, img, im);
    var f, v := Cursor(starts, img, FSTUB), Cursor(starts, img, VSTUB);
    var f', v' := f + 4 * |im.funcEntries|, v + 4 * |pointers|;
    ImportSections(starts, img, im);
    assert a + 0x34 == Cursor(starts, b, LIBSTUBS) <= f && f' == Cursor(starts, b, FSTUB) <= v && v' <= Cursor(starts, b, VSTUB);
    FunctionPart(a, ws, f, im.funcEntries);
    VariablePart(a, ws, v, pointers);
    var r1 := One(a + 0x14, ws[5]) + One(a + 0x1C, ws[7]) + One(a + 0x20, ws[8]);
    var r2 := One(a + 0x24, ws[9]) + One(a + 0x28, ws[10]);
    CrossDistinct(r1, Each(f, im.funcEntries), r2, Each(v, pointers), a, f, f', v, v');
    forall r | r in ImportRelas(starts, img, im)
      ensures Claimed(starts, img, b, r)
    {
      assert a <= r.offset < a + 0x34 || f <= r.offset < f' || v <= r.offset < v';
      assert Cursor(starts, img, LIBSTUBS) == a && Cursor(starts, img, FSTUB) == f && Cursor(starts, img, VSTUB) == v;
    }
  }

  /** Two increasing lists whose record parts and table parts keep apart. */
  lemma CrossDistinct(r: seq<Abs32>, f: seq<Abs32>, q: seq<Abs32>, v: seq<Abs32>, a: nat, f0: nat, f1: nat, v0: nat, v1: nat)
    requires Increasing(r + f) && Increasing(q + v)
    requires Within(r, a, a + 0x24) && Within(q, a + 0x24, a + 0x34) && Within(f, f0, f1) && Within(v, v0, v1)
    requires a + 0x34 <= f0 <= f1 <= v0
    ensures Distinct(r + f + (q + v))
  {
    var all := r + f + (q + v);
    forall i, j | 0 <= i < j < |all|
      ensures all[i].offset != all[j].offset
    {
      if j < |r + f| {
        assert all[i] == (r + f)[i] && all[j] == (r + f)[j];
      } else if i >= |r + f| {
        assert all[i] == (q + v)[i - |r + f|] && all[j] == (q + v)[j - |r + f|];
      } else {
        assert all[i] in r || all[i] in f;
        assert all[j] in q || all[j] in v;
      }
    }
  }

  lemma ImportSettles(starts: Addresses, ends: Addresses, img: Image, im: Import)
    requires Laid(starts, ends) && Settled(starts, ends, img) && Fits(starts, ends, EncodeImport(starts, img, im)) && im.Valid()
    ensures Settled(starts, ends, EncodeImport(starts, img, im))
  {
    ImportSections(starts, img, im);
    ImportExtends(starts, img, im);
    ImportParts(starts, ends, img, im);
    assert forall k :: 0 <= k < 9 ==> Cursor(starts, img, k) <= Cursor(starts, EncodeImport(starts, img, im), k);
    StillSettled(starts, ends, img, EncodeImport(starts, img, im), ImportRelas(starts, img, im));
  }

  lemma FitsEarlier(starts: Addresses, ends: Addresses, a: Image, b: Image)
    requires Extends(a, b) && Fits(starts, ends, b)
    ensures Fits(starts, ends, a)
  {
    forall k | 0 <= k < 9
      ensures Cursor(starts, a, k) <= ends[k]
    {
      assert a.secs[k] <= b.secs[k];
      assert Cursor(starts, b, k) <= ends[k];
    }
  }

  lemma {:induction false} ExportsSettle(starts: Addresses, ends: Addresses, img: Image, es: seq<Export>)
    requires Laid(starts, ends) && Settled(starts, ends, img) && Fits(starts, ends, EncodeExports(starts, img, es))
    ensures Settled(starts, ends, EncodeExports(starts, img, es))
  {
    if es != [] {
      var n := |es| - 1;
      var before := EncodeExports(starts, img, es[..n]);
      ExportExtends(starts, before, es[n]);
      FitsEarlier(starts, ends, before, EncodeExports(starts, img, es));
      ExportsSettle(starts, ends, img, es[..n]);
      ExportSettles(starts, ends, before, es[n]);
    }
  }

  lemma {:induction false} ImportsSettle(starts: Addresses, ends: Addresses, img: Image, ims: seq<Import>)
    requires forall im :: im in ims ==> im.Valid()
    requires Laid(starts, ends) && Settled(starts, ends, img) && Fits(starts, ends, EncodeImports(starts, img, ims))
    ensures Settled(starts, ends, EncodeImports(starts, img, ims))
  {
    if ims != [] {
      var n := |ims| - 1;
      var before := EncodeImports(starts, img, ims[..n]);
      ImportExtends(starts, before, ims[n]);
      FitsEarlier(starts, ends, before, EncodeImports(starts, img, ims));
      ImportsSettle(starts, ends, img, ims[..n]);
      ImportSettles(starts, ends, before, ims[n]);
    }
  }

  lemma {:induction false} ImportsFit(starts: Addresses, ends: Addresses, img: Image, ims: seq<Import>)
    requires Fits(starts, ends, EncodeImports(starts, img, ims))
    ensures Fits(starts, ends, img)
  {
    if ims != [] {
      var n := |ims| - 1;
      var before := EncodeImports(starts, img, ims[..n]);
      ImportExtends(starts, before, ims[n]);
      FitsEarlier(starts, ends, before, EncodeImports(starts, img, ims));
      ImportsFit(starts, ends, img, ims[..n]);
    }
  }

  /** No word is relocated twice. */
  lemma EachPointerOnce(starts: Addresses, ends: Addresses, header: seq<nat>, params: nat, x: Module)
    requires x.Valid() && Laid(starts, ends) && Fits(starts, ends, Full(starts, header, params, x))
    ensures Distinct(Full(starts, header, params, x).relas)
  {
    var img := Begun(header, params);
    var mid := EncodeExports(starts, img, x.exports);
    BegunSections(header, params);
    ImportsFit(starts, ends, mid, x.imports);
    ExportsSettle(starts, ends, img, x.exports);
    ImportsSettle(starts, ends, mid, x.imports);
  }
}
