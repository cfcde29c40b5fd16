/** The encoder (`sce_elf_module_info_encode`): nine cursors move through one zeroed block, words
    are stored behind and ahead of them, and every moved cursor is checked against the sizes
    computed before. */
module ModuleEncode {
  import opened Wrappers
  import opened VArray
  import opened Imports
  import ArmReloc
  import opened SceRel
  import opened ModuleImage
  import opened ModuleInfo
  import opened ModuleSize
  import opened ImportTables

  function Zeros(n: nat): (z: seq<nat>)
    ensures |z| == n && forall i :: 0 <= i < n ==> z[i] == 0
  {
    seq(n, _ => 0)
  }

  /** A section of n words of which the first ones have been written. */
  function Padded(s: seq<nat>, n: nat): (r: seq<nat>)
    requires |s| <= n
    ensures |r| == n
  {
    s + Zeros(n - |s|)
  }

  /** The first word of each section and, last, the end of the block. */
  ghost predicate Layout(sizes: Addresses, first: seq<nat>) {
    && |first| == 10 && first[0] == 0
    && (forall k :: 0 <= k < 9 ==> sizes[k] % 4 == 0 && first[k + 1] == first[k] + sizes[k] / 4)
    && (forall j, k :: 0 <= j < k <= 9 ==> first[j] + sizes[j] / 4 <= first[k])
  }

  /** What storing v at i does to words written up to the cursor. */
  function Stored(s: seq<nat>, i: nat, v: nat): (r: seq<nat>)
    requires i <= |s|
  {
    if i < |s| then s[i := v] else s + [v]
  }

  /** Where each section starts and, last, the total, in bytes. */
  method PrefixSums(sizes: Addresses) returns (sums: seq<nat>)
    ensures |sums| == 10 && sums[0] == 0 && forall k :: 0 <= k < 9 ==> sums[k + 1] == sums[k] + sizes[k]
  {
    sums := [0];
    for i := 0 to 9
      invariant |sums| == i + 1 && sums[0] == 0 && forall k :: 0 <= k < i ==> sums[k + 1] == sums[k] + sizes[k]
    {
      sums := sums + [sums[i] + sizes[i]];
    }
  }

  lemma LayoutOf(sizes: Addresses, sums: seq<nat>, first: seq<nat>)
    requires |sums| == |first| == 10 && sums[0] == 0 && forall k :: 0 <= k < 9 ==> sizes[k] % 4 == 0 && sums[k + 1] == sums[k] + sizes[k]
    requires forall k :: 0 <= k < 10 ==> first[k] == sums[k] / 4
    ensures Layout(sizes, first) && forall k :: 0 <= k < 10 ==> sums[k] == 4 * first[k]
  {
    SumsDivide(sizes, sums, 9);
    forall j, k | 0 <= j < k <= 9
      ensures first[j] + sizes[j] / 4 <= first[k]
    {
      SumsGrow(sizes, sums, j + 1, k);
    }
  }

  lemma {:induction false} SumsDivide(sizes: Addresses, sums: seq<nat>, n: nat)
    requires |sums| == 10 && sums[0] == 0 && forall k :: 0 <= k < 9 ==> sizes[k] % 4 == 0 && sums[k + 1] == sums[k] + sizes[k]
    requires n < 10
    ensures forall k :: 0 <= k <= n ==> sums[k] % 4 == 0
  {
    if n > 0 {
      SumsDivide(sizes, sums, n - 1);
      assert sums[n - 1 + 1] == sums[n - 1] + sizes[n - 1];
    }
  }

  lemma {:induction false} SumsGrow(sizes: Addresses, sums: seq<nat>, j: nat, k: nat)
    requires |sums| == 10 && forall k :: 0 <= k < 9 ==> sums[k + 1] == sums[k] + sizes[k]
    requires j <= k < 10
    ensures sums[j] <= sums[k]
  {
    if j < k {
      SumsGrow(sizes, sums, j, k - 1);
      assert sums[k - 1 + 1] == sums[k - 1] + sizes[k - 1];
    }
  }

  function WithSection(img: Image, k: nat, ws: seq<nat>): Image
    requires k < 9
  {
    img.(secs := img.secs[k := ws])
  }

  class Encoder {
    const sizes: Addresses
    const origin: nat      // segment_base + start_offset
    const data: array<nat>
    var cur: Addresses
    var addrs: Addresses
    var relas: seq<Abs32>

    ghost const first: seq<nat>
    const starts: Addresses
    /** The words before the cursors, and those stored ahead of them. */
    ghost var img: Image
    ghost var ahead: Sections

    ghost predicate Shape() {
      && Layout(sizes, first) && data.Length == first[9]
      && forall k :: 0 <= k < 9 ==> starts[k] == origin + 4 * first[k]
    }

    ghost predicate Cursors()
      requires Shape()
      reads this
    {
      && relas == img.relas
      && forall k :: 0 <= k < 9 ==>
           cur[k] == 4 * |img.secs[k]| && addrs[k] == 4 * first[k] + cur[k] && cur[k] + 4 * |ahead[k]| <= sizes[k]
    }

    /** Section k of the block. */
    ghost function Section(k: nat): seq<nat>
      requires Shape() && k < 9
      reads data
    {
      assert first[k] + sizes[k] / 4 == first[k + 1] <= first[9] by { assert k + 1 < 9 ==> first[k + 1] <= first[9]; }
      data[first[k]..first[k + 1]]
    }

    ghost predicate Valid()
      reads this, data
    {
      && Shape() && Cursors()
      && forall k :: 0 <= k < 9 ==> Section(k) == Padded(img.secs[k] + ahead[k], sizes[k] / 4)
    }

    /** The section addresses, summed up from the sizes, and the zeroed block behind them. */
    constructor (sizes: Addresses, origin: nat)
      requires forall k :: 0 <= k < 9 ==> sizes[k] % 4 == 0
      ensures Valid() && fresh(data) && this.sizes == sizes && this.origin == origin
      ensures img == EMPTY && ahead == EMPTY.secs && cur == NO_SIZES
    {
      var sums := PrefixSums(sizes);
      this.sizes, this.origin := sizes, origin;
      first := seq(10, i requires 0 <= i < 10 => sums[i] / 4);
      cur := NO_SIZES;
      addrs := sums[..9];
      starts := seq(9, i requires 0 <= i < 9 => origin + sums[i]);
      relas := [];
      img := EMPTY;
      ahead := EMPTY.secs;
      data := new nat[sums[9] / 4](_ => 0);
      new;
      LayoutOf(sizes, sums, first);
      hide *;
      StartsValid(sums);
    }

    lemma StartsValid(sums: seq<nat>)
      requires Layout(sizes, first) && |sums| == 10 && sums[0] == 0 && forall k :: 0 <= k < 10 ==> sums[k] == 4 * first[k]
      requires img == EMPTY && ahead == EMPTY.secs && cur == NO_SIZES && relas == [] && addrs == sums[..9]
      requires data.Length == first[9] && forall i :: 0 <= i < data.Length ==> data[i] == 0
      requires forall k :: 0 <= k < 9 ==> starts[k] == origin + sums[k]
      ensures Valid()
    {
      assert Shape();
      assert Cursors();
      forall k | 0 <= k < 9
        ensures Section(k) == Padded(img.secs[k] + ahead[k], sizes[k] / 4)
      {
        assert k + 1 < 9 ==> first[k + 1] <= first[9];
      }
    }

    /** One word of section k; nothing else moves. */
    method StoreWord(p: nat, v: nat, ghost k: nat, ghost i: nat)
      requires Shape() && k < 9 && i < sizes[k] / 4 && p == first[k] + i
      modifies data
      ensures Section(k) == old(Section(k))[i := v]
      ensures forall j :: 0 <= j < 9 && j != k ==> Section(j) == old(Section(j))
    {
      assert first[k + 1] <= first[9] by { assert k + 1 < 9 ==> first[k + 1] <= first[9]; }
      data[p] := v;
      forall j | 0 <= j < 9 && j != k
        ensures Section(j) == old(Section(j))
      {
        assert j < k ==> first[j + 1] <= first[k];
        assert k < j ==> first[k + 1] <= first[j];
      }
    }

    /** A store into the part of section k that the cursor has passed. */
    method StoreBehind(p: nat, v: nat, ghost k: nat, ghost i: nat)
      requires Valid() && k < 9 && i < |img.secs[k]| && p == first[k] + i
      modifies data, `img
      ensures Valid() && img == WithSection(old(img), k, Stored(old(img.secs)[k], i, v))
    {
      hide Padded, Section, Shape;
      BehindPadded(img.secs[k], ahead[k], sizes[k] / 4, i, v);
      StoreWord(p, v, k, i);
      img := WithSection(img, k, Stored(img.secs[k], i, v));
    }

    /** A store at or before the end of what has been written ahead of the cursor. */
    method StoreAhead(p: nat, v: nat, ghost k: nat, ghost i: nat)
      requires Valid() && k < 9 && i <= |ahead[k]| && |img.secs[k]| + i < sizes[k] / 4 && p == first[k] + |img.secs[k]| + i
      modifies data, `ahead
      ensures Valid() && ahead == old(ahead)[k := Stored(old(ahead)[k], i, v)]
    {
      hide Padded, Section, Shape;
      AheadPadded(img.secs[k], ahead[k], sizes[k] / 4, i, v);
      StoreWord(p, v, k, |img.secs[k]| + i);
      ahead := ahead[k := Stored(ahead[k], i, v)];
    }

    /** INCR: the cursor passes n bytes, over what was written ahead and then over zeros. The check
        fires exactly when the section is too small for them. */
    method Incr(k: nat, n: nat) returns (ok: bool)
      requires Valid() && k < 9 && n % 4 == 0
      modifies `cur, `addrs, `img, `ahead
      ensures ok <==> old(cur)[k] + n <= sizes[k]
      ensures ok ==> Valid() && img == Append(old(img), k, Passed(old(ahead)[k], n / 4))
      ensures ok ==> ahead == old(ahead)[k := Left(old(ahead)[k], n / 4)]
    {
      hide Left, Padded, Passed, Section, Shape;
      cur := cur[k := cur[k] + n];
      if cur[k] > sizes[k] {
        return false;
      }
      addrs := addrs[k := addrs[k] + n];
      PassedPadded(img.secs[k], ahead[k], sizes[k] / 4, n / 4);
      img := Append(img, k, Passed(ahead[k], n / 4));
      ahead := ahead[k := Left(ahead[k], n / 4)];
      ok := true;
    }

    lemma WordInData(p: nat, k: nat, i: nat)
      requires Shape() && k < 9 && i < sizes[k] / 4 && p == first[k] + i
      ensures p < data.Length && i < |Section(k)| && data[p] == Section(k)[i]
    {
      assert first[k + 1] <= first[9] by { assert k + 1 < 9 ==> first[k + 1] <= first[9]; }
    }

    /** Word i of section k, if it has been written or passed. */
    ghost function Word(k: nat, i: nat): nat
      requires k < 9 && i < |img.secs[k]| + |ahead[k]|
      reads this
    {
      if i < |img.secs[k]| then img.secs[k][i] else ahead[k][i - |img.secs[k]|]
    }

    /** ADDRELA of a word behind or ahead of the cursor. */
    method AddRela(p: nat, ghost k: nat, ghost i: nat)
      requires Valid() && k < 9 && i < |img.secs[k]| + |ahead[k]| && p == first[k] + i
      modifies `relas, `img
      ensures Valid()
      ensures img == old(img).(relas := old(img.relas) + One(starts[k] + 4 * i, old(Word(k, i))))
    {
      hide Layout, Section, Zeros;
      WordInData(p, k, i);
      assert Section(k)[i] == Word(k, i);
      ghost var w := Word(k, i);
      var addend := data[p];
      if addend != 0 {
        relas := relas + [Abs32(4 * p + origin, addend)];
      }
      img := img.(relas := img.relas + One(starts[k] + 4 * i, w));
    }

    /** Stores words into a reserved, still zero part of section k. */
    method Fill(p: nat, ws: seq<nat>, ghost k: nat, ghost before: seq<nat>, ghost after: seq<nat>)
      requires Valid() && k < 9 && img.secs[k] == before + Zeros(|ws|) + after && p == first[k] + |before|
      modifies data, `img
      ensures Valid() && img == WithSection(old(img), k, before + ws + after)
    {
      hide Stored, Valid, Zeros;
      assert WithSection(img, k, img.secs[k]) == img && ws[..0] == [] && before + [] + Zeros(|ws|) == before + Zeros(|ws|);
      for i := 0 to |ws|
        invariant Valid() && img == WithSection(old(img), k, before + ws[..i] + Zeros(|ws| - i) + after)
      {
        FillOne(old(img), k, before, ws, after, i);
        StoreBehind(p + i, ws[i], k, |before| + i);
      }
      assert ws[..|ws|] == ws && Zeros(0) == [] && before + ws + [] == before + ws;
    }

    /** SETLOCALPTR: the address of section t's cursor, stored in a reserved word and relocated. */
    method SetLocalPtr(p: nat, t: nat, ghost k: nat, ghost before: seq<nat>, ghost after: seq<nat>)
      requires Valid() && k < 9 && t < 9 && img.secs[k] == before + Zeros(1) + after && p == first[k] + |before|
      modifies data, `img, `relas
      ensures Valid()
      ensures var v := Cursor(starts, old(img), t);
        img == WithSection(old(img), k, before + [v] + after).(relas := old(img.relas) + One(starts[k] + 4 * |before|, v))
    {
      hide Layout, One, Padded, Section, Zeros;
      ghost var v := Cursor(starts, img, t);
      assert addrs[t] + origin == v;
      Fill(p, [addrs[t] + origin], k, before, after);
      ghost var mid := img;
      assert |before| < |mid.secs[k]| && Word(k, |before|) == v;
      AddRela(p, k, |before|);
    }

    /** INCR over words that are filled in later. */
    method Reserve(k: nat, n: nat) returns (ok: bool)
      requires Valid() && k < 9 && n % 4 == 0 && ahead[k] == [] && cur[k] + n <= sizes[k]
      modifies `cur, `addrs, `img, `ahead
      ensures Valid() && ok && ahead == old(ahead)
      ensures img == WithSection(old(img), k, old(img.secs)[k] + Zeros(n / 4))
    {
      hide Valid, Zeros;
      ok := Incr(k, n);
      assert Passed([], n / 4) == Zeros(n / 4) && Left([], n / 4) == [];
    }

    /** The word of an entry of an export table. */
    method EntryValue(t: Target) returns (w: nat)
      requires Valid() && img.secs[MODINFO] == []
      ensures w == Resolve(starts, t)
    {
      hide Section, Padded;
      assert first[0] == 0 && cur[0] == 0 && addrs[0] == 0 && starts[0] == origin;
      match t
      case OfModuleInfo => w := origin;
      case OfProcessParam => w := addrs[MODINFO] + origin + 4 * MODULE_INFO_WORDS;
      case At(a) => w := a;
    }

    /** Entry i of both tables of an export. */
    method TableEntry(nids: nat, entries: nat, e: Export, ghost x: seq<nat>, ghost ws: seq<nat>, i: nat)
      requires Valid() && e.Valid() && i < e.Count() && img.secs[MODINFO] == [] && ws == EntryWords(starts, e.entries)
      requires img.secs[EXPORT] == Tables(x, e.nids, ws, i) && nids == first[EXPORT] + |x| && entries == nids + e.Count()
      modifies data, `img, `relas
      ensures Valid()
      ensures img == WithSection(old(img), EXPORT, Tables(x, e.nids, ws, i + 1))
                     .(relas := old(img.relas) + One(origin + 4 * entries + 4 * i, ws[i]))
    {
      hide Cursors, Layout, One, Padded, Resolve, Section, Tables, Zeros;
      ghost var n := e.Count();
      TablesStep(x, e.nids, ws, i);
      ghost var b, z := x + e.nids[..i], Zeros(n - i - 1);
      Fill(nids + i, [e.nids[i]], EXPORT, b, z + ws[..i] + Zeros(n - i));
      assert img.secs[MODINFO] == [] && img.secs[EXPORT] == b + [e.nids[i]] + (z + ws[..i] + Zeros(n - i));
      var w := EntryValue(e.entries[i]);
      assert w == ws[i];
      ghost var c := x + e.nids[..i + 1] + z + ws[..i];
      Fill(entries + i, [w], EXPORT, c, z);
      assert |c| == |x| + n + i && Word(EXPORT, |c|) == w;
      assert starts[EXPORT] + 4 * |c| == origin + 4 * entries + 4 * i;
      AddRela(entries + i, EXPORT, |c|);
    }

    /** The tables of one export, in the part of EXPORT reserved for them. */
    method ExportTables(nids: nat, entries: nat, e: Export, ghost x: seq<nat>)
      requires Valid() && e.Valid() && img.secs[MODINFO] == []
      requires img.secs[EXPORT] == x + Zeros(e.Count()) + Zeros(e.Count())
      requires nids == first[EXPORT] + |x| && entries == nids + e.Count()
      modifies data, `img, `relas
      ensures Valid()
      ensures var ws := EntryWords(starts, e.entries);
        img == WithSection(old(img), EXPORT, x + e.nids + ws).(relas := old(img.relas) + Each(origin + 4 * entries, ws))
    {
      hide Cursors, EntryWords, One, Padded, Section, Shape, Zeros;
      ghost var n := e.Count();
      ghost var ws, p := EntryWords(starts, e.entries), origin + 4 * entries;
      assert Tables(x, e.nids, ws, 0) == x + Zeros(n) + Zeros(n);
      assert Each(p, ws[..0]) == [];
      assert WithSection(img, EXPORT, img.secs[EXPORT]) == img;
      for i := 0 to e.Count()
        invariant Valid() && img.secs[MODINFO] == []
        invariant img == WithSection(old(img), EXPORT, Tables(x, e.nids, ws, i)).(relas := old(img.relas) + Each(p, ws[..i]))
      {
        assert img.secs[EXPORT] == Tables(x, e.nids, ws, i);
        TableEntry(nids, entries, e, x, ws, i);
        EachStep(p, ws, i);
      }
      assert ws[..n] == ws && Tables(x, e.nids, ws, n) == x + e.nids + ws;
    }

    /** Whether sizes of the sections are within those computed before. */
    ghost predicate FitsIn(s: Addresses) {
      forall k :: 0 <= k < 9 ==> s[k] <= sizes[k]
    }

    /** The fixed fields of an export record. */
    method ExportFields(e: Export) returns (ok: bool)
      requires Valid() && ahead[LIBENT] == [] && cur[LIBENT] + 0x20 <= sizes[LIBENT]
      modifies data, `cur, `addrs, `img, `ahead
      ensures Valid() && ok && ahead == old(ahead)
      ensures img == WithSection(old(img), LIBENT, old(img.secs)[LIBENT] + ExportRecord(e, 0, 0, 0)[..5] + Zeros(3))
    {
      var at := addrs[LIBENT] / 4;
      ghost var before, ws := img.secs[LIBENT], ExportRecord(e, 0, 0, 0)[..5];
      assert |first| == 10 && at == first[LIBENT] + |before|;
      ok := Reserve(LIBENT, 0x20);
      assert Zeros(8) == Zeros(5) + Zeros(3);
      assert img.secs[LIBENT] == before + Zeros(5) + Zeros(3);
      var fields := [Half(0x20, e.version), Half(e.flags, e.numFuncs), e.numVars, e.numTls, e.nid];
      assert fields == ws;
      Fill(at, fields, LIBENT, before, Zeros(3));
    }

    lemma CursorWord(k: nat)
      requires Valid() && k < 9
      ensures |first| == 10 && addrs[k] % 4 == 0 && addrs[k] / 4 == first[k] + |img.secs[k]|
      ensures Cursor(starts, img, k) == addrs[k] + origin && cur[k] == 4 * |img.secs[k]|
    {
      hide Section, Padded;
    }

    /** The name of an export. */
    method ExportName(at: nat, e: Export, ghost i0: Image) returns (ok: bool)
      requires Valid() && ahead[EXPORT] == [] && cur[EXPORT] + NameSize(e.name) <= sizes[EXPORT]
      requires |first| == 10 && at == first[LIBENT] + |i0.secs[LIBENT]|
      requires img == Exporting(i0, i0.secs[LIBENT] + ExportRecordOf(starts, i0, e)[..5] + Zeros(3), i0.secs[EXPORT], i0.relas)
      modifies data, `cur, `addrs, `img, `ahead, `relas
      ensures Valid() && ok && ahead == old(ahead)
      ensures var rec := ExportRecordOf(starts, i0, e);
        img == Exporting(i0, i0.secs[LIBENT] + rec[..6] + Zeros(2), i0.secs[EXPORT] + OptionalName(e.name),
                         i0.relas + One(Cursor(starts, i0, LIBENT) + 0x14, rec[5]))
    {
      hide Align4, Half, NameWords, Valid;
      ghost var rec, b := ExportRecordOf(starts, i0, e), i0.secs[LIBENT];
      ok := true;
      assert Zeros(3) == Zeros(1) + Zeros(2) && rec[..6] == rec[..5] + [rec[5]];
      assert img.secs[LIBENT] == (b + rec[..5]) + Zeros(1) + Zeros(2) && img.secs[EXPORT] == i0.secs[EXPORT];
      CursorWord(EXPORT);
      if e.name.Some? {
        assert Cursor(starts, img, EXPORT) == Cursor(starts, i0, EXPORT) == rec[5];
        SetLocalPtr(at + 5, EXPORT, LIBENT, b + rec[..5], Zeros(2));
        var dst := addrs[EXPORT] / 4;
        NameSizeAgrees(e.name);
        assert NameSize(e.name) == Align4(|e.name.value| + 1) && OptionalName(e.name) == NameWords(e.name.value);
        assert img.secs[EXPORT] == i0.secs[EXPORT];
        ok := Reserve(EXPORT, Align4(|e.name.value| + 1));
        var name := NameWords(e.name.value);
        assert img.secs[EXPORT] == i0.secs[EXPORT] + Zeros(|name|) + [];
        Fill(dst, name, EXPORT, i0.secs[EXPORT], []);
        assert i0.secs[EXPORT] + name + [] == i0.secs[EXPORT] + OptionalName(e.name);
        assert (b + rec[..5]) + [rec[5]] + Zeros(2) == b + rec[..6] + Zeros(2);
      } else {
        assert rec[5] == 0 && One(Cursor(starts, i0, LIBENT) + 0x14, rec[5]) == [] && OptionalName(e.name) == [] && Zeros(1) == [0];
        assert b + rec[..5] + Zeros(3) == b + rec[..6] + Zeros(2) && i0.secs[EXPORT] + [] == i0.secs[EXPORT] && i0.relas + [] == i0.relas;
      }
    }

    /** A pointer of an export record to the cursor of EXPORT, and room for n words there. */
    method TablePointer(at: nat, j: nat, n: nat, ghost i0: Image, ghost rec: seq<nat>, ghost x: seq<nat>, ghost r: seq<Abs32>)
      returns (ok: bool, table: nat)
      requires Valid() && ahead[EXPORT] == [] && cur[EXPORT] + 4 * n <= sizes[EXPORT]
      requires |first| == 10 && at == first[LIBENT] + |i0.secs[LIBENT]| && |rec| == 8 && j < 8
      requires img == Exporting(i0, i0.secs[LIBENT] + rec[..j] + Zeros(8 - j), x, r) && rec[j] == Cursor(starts, img, EXPORT)
      modifies data, `cur, `addrs, `img, `ahead, `relas
      ensures Valid() && ok && ahead == old(ahead) && table == first[EXPORT] + |x| && origin + 4 * table == rec[j]
      ensures img == Exporting(i0, i0.secs[LIBENT] + rec[..j + 1] + Zeros(7 - j), x + Zeros(n),
                               r + One(Cursor(starts, i0, LIBENT) + 4 * j, rec[j]))
    {
      hide One, Valid;
      ghost var b := i0.secs[LIBENT];
      assert Zeros(8 - j) == Zeros(1) + Zeros(7 - j) && rec[..j + 1] == rec[..j] + [rec[j]];
      assert img.secs[LIBENT] == (b + rec[..j]) + Zeros(1) + Zeros(7 - j) && img.secs[EXPORT] == x && img.relas == r;
      CursorWord(EXPORT);
      SetLocalPtr(at + j, EXPORT, LIBENT, b + rec[..j], Zeros(7 - j));
      table := addrs[EXPORT] / 4;
      assert img.secs[EXPORT] == x;
      ok := Reserve(EXPORT, 4 * n);
      assert (b + rec[..j]) + [rec[j]] + Zeros(7 - j) == b + rec[..j + 1] + Zeros(7 - j);
    }

    lemma ExportRoom(e: Export)
      requires FitsIn(AddExport(cur, e))
      ensures cur[LIBENT] + 0x20 <= sizes[LIBENT] && cur[EXPORT] + NameSize(e.name) + 8 * e.Count() <= sizes[EXPORT]
    {
      hide NameSize;
      assert AddExport(cur, e)[LIBENT] <= sizes[LIBENT] && AddExport(cur, e)[EXPORT] <= sizes[EXPORT];
    }

    /** The record and the name of an export. */
    method ExportHead(at: nat, e: Export) returns (ok: bool)
      requires Valid() && ahead[LIBENT] == [] && ahead[EXPORT] == []
      requires FitsIn(AddExport(cur, e)) && |first| == 10 && at == first[LIBENT] + |img.secs[LIBENT]|
      modifies data, `cur, `addrs, `img, `ahead, `relas
      ensures Valid() && ok && ahead == old(ahead)
      ensures var i0, rec := old(img), ExportRecordOf(starts, old(img), e);
        img == Exporting(i0, i0.secs[LIBENT] + rec[..6] + Zeros(2), i0.secs[EXPORT] + OptionalName(e.name),
                         i0.relas + One(Cursor(starts, i0, LIBENT) + 0x14, rec[5]))
    {
      hide AddExport, Cursor, Export.Count, FitsIn, Half, NameSize, One, OptionalName, Valid, Zeros;
      ghost var i0 := img;
      ghost var rec := ExportRecordOf(starts, i0, e);
      ExportRoom(e);
      CursorWord(EXPORT);
      ok := ExportFields(e);
      assert rec[..5] == ExportRecord(e, 0, 0, 0)[..5];
      assert img == Exporting(i0, i0.secs[LIBENT] + rec[..5] + Zeros(3), i0.secs[EXPORT], i0.relas);
      CursorWord(EXPORT);
      assert |img.secs[EXPORT]| == |i0.secs[EXPORT]|;
      ok := ExportName(at, e, i0);
    }

    /** One turn of the encoder's loop over the exports. */
    method EncodeExport(e: Export) returns (ok: bool)
      requires Valid() && e.Valid() && ahead[LIBENT] == [] && ahead[EXPORT] == [] && img.secs[MODINFO] == []
      requires FitsIn(AddExport(cur, e))
      modifies data, `cur, `addrs, `img, `ahead, `relas
      ensures Valid() && ok && ahead == old(ahead)
      ensures img == ModuleImage.EncodeExport(starts, old(img), e)
    {
      hide AddExport, Cursors, Each, EntryWords, Export.Count, ExportRecordOf, FitsIn, NameSize, One, OptionalName,
        Padded, Section, Shape;
      ghost var i0 := img;
      ghost var rec, n := ExportRecordOf(starts, i0, e), e.Count();
      ghost var b, x, a := i0.secs[LIBENT], i0.secs[EXPORT] + OptionalName(e.name), Cursor(starts, i0, LIBENT);
      ghost var r := i0.relas + One(a + 0x14, rec[5]);
      ExportRoom(e);
      CursorWord(LIBENT);
      CursorWord(EXPORT);
      var at := addrs[LIBENT] / 4;
      ok := ExportHead(at, e);
      NameSizeAgrees(e.name);
      ExportingParts(i0, b + rec[..6] + Zeros(2), x, r);
      CursorWord(EXPORT);
      PointersOf(starts, i0, e);
      var nids, entries: nat;
      ok, nids := TablePointer(at, 6, e.Count(), i0, rec, x, r);
      ExportingParts(i0, b + rec[..7] + Zeros(1), x + Zeros(n), r + One(a + 0x18, rec[6]));
      CursorWord(EXPORT);
      ok, entries := TablePointer(at, 7, e.Count(), i0, rec, x + Zeros(n), r + One(a + 0x18, rec[6]));
      ExportingParts(i0, b + rec[..8] + Zeros(0), x + Zeros(n) + Zeros(n), r + One(a + 0x18, rec[6]) + One(a + 0x1C, rec[7]));
      ExportTables(nids, entries, e, x);
      assert b + rec[..8] + Zeros(0) == b + rec;
      ghost var ws := EntryWords(starts, e.entries);
      assert img == Exporting(i0, b + rec, x + e.nids + ws, r + One(a + 0x18, rec[6]) + One(a + 0x1C, rec[7]) + Each(rec[7], ws));
      ExportingAll(starts, i0, e);
    }

    /** A word stored at the cursor of section k, which then passes it. */
    method PushWord(k: nat, v: nat) returns (ok: bool)
      requires Valid() && k < 9 && ahead[k] == [] && cur[k] + 4 <= sizes[k]
      modifies data, `cur, `addrs, `img, `ahead
      ensures Valid() && ok && ahead == old(ahead)
      ensures img == WithSection(old(img), k, old(img.secs)[k] + [v])
    {
      hide Cursor, Cursors, Padded, Section, Zeros;
      CursorWord(k);
      assert sizes[k] % 4 == 0;
      StoreAhead(addrs[k] / 4, v, k, 0);
      ok := Incr(k, 4);
      assert Passed([v], 1) == [v] && Left([v], 1) == [] && Stored([], 0, v) == [v];
    }

    /** The same with the relocation of the word. */
    method PushPointer(k: nat, v: nat) returns (ok: bool)
      requires Valid() && k < 9 && ahead[k] == [] && cur[k] + 4 <= sizes[k]
      modifies data, `cur, `addrs, `img, `ahead, `relas
      ensures Valid() && ok && ahead == old(ahead)
      ensures img == WithSection(old(img), k, old(img.secs)[k] + [v])
                     .(relas := old(img.relas) + One(Cursor(starts, old(img), k), v))
    {
      hide Cursors, One, Padded, Section, Zeros;
      CursorWord(k);
      assert sizes[k] % 4 == 0;
      ghost var i := |img.secs[k]|;
      StoreAhead(addrs[k] / 4, v, k, 0);
      assert Passed([v], 1) == [v] && Left([v], 1) == [] && Stored([], 0, v) == [v];
      assert Word(k, i) == v;
      AddRela(addrs[k] / 4, k, i);
      ok := Incr(k, 4);
    }

    /** One function of an import. */
    method FunctionEntry(nid: nat, entry: nat, ghost i0: Image, ghost t: ImportText) returns (ok: bool)
      requires Valid() && ahead[FNID] == [] && ahead[FSTUB] == [] && img == Importing(i0, t)
      requires 4 * |t.fnid| + 4 <= sizes[FNID] && 4 * |t.fstub| + 4 <= sizes[FSTUB]
      modifies data, `cur, `addrs, `img, `ahead, `relas
      ensures Valid() && ok && ahead == old(ahead)
      ensures img == Importing(i0, t.(fnid := t.fnid + [nid], fstub := t.fstub + [entry],
                                      relas := t.relas + One(starts[FSTUB] + 4 * |t.fstub|, entry)))
    {
      hide One, Valid, WithSection;
      ImportingParts(i0, t);
      CursorWord(FNID);
      ok := PushWord(FNID, nid);
      ImportingUpdates(i0, t, t.fnid + [nid]);
      ghost var u := t.(fnid := t.fnid + [nid]);
      ImportingParts(i0, u);
      CursorWord(FSTUB);
      ok := PushPointer(FSTUB, entry);
      ImportingUpdates(i0, u, u.fstub + [entry]);
    }

    /** The function tables of an import. */
    method FunctionTables(im: Import, ghost i0: Image, ghost t: ImportText) returns (ok: bool)
      requires Valid() && im.Valid() && ahead[FNID] == [] && ahead[FSTUB] == [] && img == Importing(i0, t)
      requires 4 * (|t.fnid| + |im.funcNids|) <= sizes[FNID] && 4 * (|t.fstub| + |im.funcNids|) <= sizes[FSTUB]
      modifies data, `cur, `addrs, `img, `ahead, `relas
      ensures Valid() && ok && ahead == old(ahead)
      ensures img == Importing(i0, t.(fnid := t.fnid + im.funcNids, fstub := t.fstub + im.funcEntries,
                                      relas := t.relas + Each(starts[FSTUB] + 4 * |t.fstub|, im.funcEntries)))
    {
      hide Cursors, Export.Count, Importing, One, Padded, Section, Shape;
      ghost var p := starts[FSTUB] + 4 * |t.fstub|;
      assert WithFunctions(t, [], [], p) == t;
      assert im.funcNids[..0] == [] && im.funcEntries[..0] == [];
      ok := true;
      for i := 0 to |im.funcNids|
        invariant Valid() && ok && ahead == old(ahead)
        invariant img == Importing(i0, WithFunctions(t, im.funcNids[..i], im.funcEntries[..i], p))
      {
        ok := FunctionEntry(im.funcNids[i], im.funcEntries[i], i0, WithFunctions(t, im.funcNids[..i], im.funcEntries[..i], p));
        EachStep(p, im.funcEntries, i);
        assert t.fnid + im.funcNids[..i + 1] == t.fnid + im.funcNids[..i] + [im.funcNids[i]];
        assert t.fstub + im.funcEntries[..i + 1] == t.fstub + im.funcEntries[..i] + [im.funcEntries[i]];
        ghost var a, b := Each(p, im.funcEntries[..i]), One(p + 4 * i, im.funcEntries[i]);
        assert t.relas + (a + b) == t.relas + a + b;
      }
      assert im.funcNids[..|im.funcNids|] == im.funcNids && im.funcEntries[..|im.funcNids|] == im.funcEntries;
    }

    /** Zeros ahead of the cursor count as written: the block was zeroed when it was allocated. */
    ghost method CountZeros(k: nat, n: nat)
      requires Valid() && k < 9 && 4 * (|img.secs[k]| + |ahead[k]| + n) <= sizes[k]
      modifies `ahead
      ensures Valid() && ahead == old(ahead)[k := old(ahead)[k] + Zeros(n)]
    {
      hide Padded, Section, Zeros;
      assert 4 * (sizes[k] / 4) == sizes[k];
      ZerosPadded(img.secs[k], ahead[k], sizes[k] / 4, n);
      ahead := ahead[k := ahead[k] + Zeros(n)];
    }

    /** Words stored one after the other behind those already ahead of VSTUB's cursor. */
    method StoreWords(at: nat, ws: seq<ArmReloc.word>) returns (next: nat)
      requires Valid() && 4 * (|img.secs[VSTUB]| + |ahead[VSTUB]| + |ws|) <= sizes[VSTUB]
      requires |first| == 10 && at == first[VSTUB] + |img.secs[VSTUB]| + |ahead[VSTUB]|
      modifies data, `ahead
      ensures Valid() && ahead == old(ahead)[VSTUB := old(ahead)[VSTUB] + Nats(ws)] && next == at + |ws|
    {
      hide Valid;
      ghost var a := ahead;
      assert Nats(ws[..0]) == [] && a[VSTUB] + [] == a[VSTUB] && a[VSTUB := a[VSTUB]] == a;
      for i := 0 to |ws|
        invariant Valid() && ahead == a[VSTUB := a[VSTUB] + Nats(ws[..i])]
      {
        StoreAhead(at + i, ws[i] as nat, VSTUB, |ahead[VSTUB]|);
        assert a[VSTUB] + Nats(ws[..i + 1]) == Stored(a[VSTUB] + Nats(ws[..i]), |a[VSTUB]| + i, ws[i] as nat);
      }
      next := at + |ws|;
      assert ws[..|ws|] == ws;
    }

    /** The relocation block of one variable. */
    method StoreBlock(at: nat, s: Stub) returns (ok: bool, next: nat)
      requires Valid() && 4 * (|img.secs[VSTUB]| + |ahead[VSTUB]| + |Block(s)|) <= sizes[VSTUB]
      requires |first| == 10 && at == first[VSTUB] + |img.secs[VSTUB]| + |ahead[VSTUB]|
      modifies data, `ahead
      ensures Valid() && ok == (BlockSize(s) <= 0xFF_FFFF)
      ensures ok ==> ahead == old(ahead)[VSTUB := old(ahead)[VSTUB] + Block(s)] && next == at + |Block(s)|
    {
      hide Nats, RelInfoSize, Valid, VarWords;
      ghost var a := ahead[VSTUB];
      ghost var head := [BlockSize(s) * 16];
      assert Block(s) == head + Nats(VarWordsOf(s.rels)) && BlockSize(s) == RelInfoSize(s.rels) + 4;
      var header := (RelInfoSize(s.rels) + 4) * 16;
      next := at;
      StoreAhead(next, header, VSTUB, |a|);
      assert Stored(a, |a|, header) == a + head;
      next := next + 1;
      if header / 16 > 0xFF_FFFF {
        return false, next;
      }
      assert VarWordsOf(s.rels[..0]) == [] && Nats([]) == [] && a + head + [] == a + head;
      for j := 0 to |s.rels|
        invariant Valid() && |ahead| == 9 && ahead == old(ahead)[VSTUB := a + head + Nats(VarWordsOf(s.rels[..j]))]
        invariant next == at + 1 + |VarWordsOf(s.rels[..j])|
      {
        VarWordsAppend(s.rels, j);
        NatsAppend(VarWordsOf(s.rels[..j]), VarWords(s.rels[j]));
        next := StoreWords(next, VarWords(s.rels[j]));
        assert a + head + Nats(VarWordsOf(s.rels[..j])) + Nats(VarWords(s.rels[j])) == a + head + Nats(VarWordsOf(s.rels[..j + 1]));
      }
      assert s.rels[..|s.rels|] == s.rels && a + head + Nats(VarWordsOf(s.rels)) == a + Block(s);
      ok := true;
    }

    /** A pointer stored in the first of the words left for pointers before the blocks, relocated
        and passed. */
    method PushBlockPointer(v: nat)  returns (ok: bool)
      requires Valid() && ahead[VSTUB] != [] && ahead[VSTUB][0] == 0
      modifies data, `cur, `addrs, `img, `ahead, `relas
      ensures Valid() && ok && ahead == old(ahead)[VSTUB := old(ahead)[VSTUB][1..]]
      ensures img == WithSection(old(img), VSTUB, old(img.secs)[VSTUB] + [v])
                     .(relas := old(img.relas) + One(Cursor(starts, old(img), VSTUB), v))
    {
      hide One, Padded, Section, Zeros;
      CursorWord(VSTUB);
      assert sizes[VSTUB] % 4 == 0 && cur[VSTUB] + 4 * |ahead[VSTUB]| <= sizes[VSTUB];
      ghost var i, a := |img.secs[VSTUB]|, ahead[VSTUB];
      StoreAhead(addrs[VSTUB] / 4, v, VSTUB, 0);
      assert Passed(Stored(a, 0, v), 1) == [v] && Left(Stored(a, 0, v), 1) == a[1..];
      assert Word(VSTUB, i) == v;
      AddRela(addrs[VSTUB] / 4, VSTUB, i);
      ok := Incr(VSTUB, 4);
    }

    /** One variable of an import: its NID, the pointer to its block, and the block, which is
        stored ahead of the pointers still to come. */
    method VariableEntry(nid: nat, s: Stub, at: nat, ghost i0: Image, ghost t: ImportText, ghost left: nat, ghost blocks: seq<nat>)
      returns (ok: bool, next: nat)
      requires Valid() && ahead[VNID] == [] && img == Importing(i0, t) && left > 0 && ahead[VSTUB] == Zeros(left) + blocks
      requires 4 * |t.vnid| + 4 <= sizes[VNID] && 4 * (|t.vstub| + left + |blocks|) + BlockSize(s) <= sizes[VSTUB]
      requires |first| == 10 && at == first[VSTUB] + |t.vstub| + left + |blocks|
      modifies data, `cur, `addrs, `img, `ahead, `relas
      ensures Valid() && ok == (BlockSize(s) <= 0xFF_FFFF)
      ensures ok ==> ahead == old(ahead)[VSTUB := Zeros(left - 1) + (blocks + Block(s))] && next == at + |Block(s)|
      ensures ok ==> img == Importing(i0, WithVariable(t, nid, origin + 4 * at, starts))
    {
      hide Block, BlockSize, One, Valid, WithSection;
      ImportingParts(i0, t);
      CursorWord(VNID);
      ok := PushWord(VNID, nid);
      ghost var u := t.(vnid := t.vnid + [nid]);
      ImportingUpdates(i0, t, u.vnid);
      ImportingParts(i0, u);
      assert (Zeros(left) + blocks)[0] == 0 && (Zeros(left) + blocks)[1..] == Zeros(left - 1) + blocks;
      ok := PushBlockPointer(at * 4 + origin);
      ghost var w := u.(vstub := u.vstub + [origin + 4 * at], relas := t.relas + One(starts[VSTUB] + 4 * |t.vstub|, origin + 4 * at));
      ImportingUpdates(i0, u, w.vstub);
      assert img == Importing(i0, w);
      ImportingParts(i0, w);
      ok, next := StoreBlock(at, s);
      assert Zeros(left - 1) + blocks + Block(s) == Zeros(left - 1) + (blocks + Block(s));
    }

    /** Variable i of an import: its stub is looked up and its entries and block are stored. */
    method VariableTurn(im: Import, vstubs: seq<Stub>, i: nat, at: nat, ghost i0: Image, ghost t: ImportText)
      returns (ok: bool, next: nat)
      requires Valid() && im.Valid() && Resolved(im, vstubs) && ahead[VNID] == [] && i < |im.varNids|
      requires ahead[VSTUB] == Zeros(|im.varNids| - i) + Concat(im.blocks[..i]) && img == Importing(i0, WithVariables(t, im, starts, i, 0))
      requires 4 * (|t.vnid| + |im.varNids|) <= sizes[VNID]
      requires 4 * (|t.vstub| + |im.varNids| + |Concat(im.blocks)|) <= sizes[VSTUB]
      requires |first| == 10 && at == first[VSTUB] + |t.vstub| + |im.varNids| + |Concat(im.blocks[..i])|
      modifies data, `cur, `addrs, `img, `ahead, `relas
      ensures Valid() && ok == (4 * |im.blocks[i]| <= 0xFF_FFFF)
      ensures ok ==>
        && ahead == old(ahead)[VSTUB := Zeros(|im.varNids| - (i + 1)) + Concat(im.blocks[..i + 1])]
        && img == Importing(i0, WithVariables(t, im, starts, i + 1, 0))
        && next == first[VSTUB] + |t.vstub| + |im.varNids| + |Concat(im.blocks[..i + 1])|
    {
      hide Block, BlockSize, Cursors, Export.Count, Find, Importing, Layout, Padded, Section, WithVariable,
        WithVariables, Zeros;
      var stub := FindStub(vstubs, im.nid, im.varNids[i]);
      assert stub.Some? && im.blocks[i] == Block(stub.value);
      ConcatSplit(im.blocks, i);
      WithVariablesStep(t, im, starts, i);
      assert origin + 4 * at == VarPointersOf(t, im, starts)[i];
      ok, next := VariableEntry(im.varNids[i], stub.value, at, i0, WithVariables(t, im, starts, i, 0), |im.varNids| - i, Concat(im.blocks[..i]));
      assert Concat(im.blocks[..i + 1]) == Concat(im.blocks[..i]) + im.blocks[i] by {
        assert im.blocks[..i + 1][..i] == im.blocks[..i];
      }
    }

    /** The variable tables of an import and, behind the pointers, the relocation blocks; false
        when a block is too large for its header. */
    method VariableTables(im: Import, vstubs: seq<Stub>, ghost i0: Image, ghost t: ImportText) returns (ok: bool)
      requires Valid() && im.Valid() && Resolved(im, vstubs) && ahead[VNID] == [] && ahead[VSTUB] == [] && img == Importing(i0, t)
      requires 4 * (|t.vnid| + |im.varNids|) <= sizes[VNID]
      requires 4 * (|t.vstub| + |im.varNids| + |Concat(im.blocks)|) <= sizes[VSTUB]
      modifies data, `cur, `addrs, `img, `ahead, `relas
      ensures Valid() && ok == Small(im)
      ensures ok ==> ahead == old(ahead) && img == Importing(i0, WithVariables(t, im, starts, |im.varNids|, |Concat(im.blocks)|))
    {
      hide Cursor, Cursors, Export.Count, Importing, Padded, Resolved, Section, Shape, WithVariables;
      ghost var n := |im.varNids|;
      ImportingParts(i0, t);
      CursorWord(VSTUB);
      var next := addrs[VSTUB] / 4 + |im.varNids|;
      CountZeros(VSTUB, n);
      WithVariablesStart(t, im, starts);
      assert Concat(im.blocks[..0]) == [] && [] + Zeros(n) == Zeros(n) + [];
      ok := true;
      for i := 0 to |im.varNids|
        invariant Valid() && ok && |ahead| == 9 && ahead == old(ahead)[VSTUB := Zeros(n - i) + Concat(im.blocks[..i])]
        invariant img == Importing(i0, WithVariables(t, im, starts, i, 0))
        invariant |first| == 10 && next == first[VSTUB] + |t.vstub| + n + |Concat(im.blocks[..i])|
        invariant forall j :: 0 <= j < i ==> 4 * |im.blocks[j]| <= 0xFF_FFFF
      {
        ok, next := VariableTurn(im, vstubs, i, next, i0, t);
        if !ok {
          assert !Small(im);
          return;
        }
      }
      assert Small(im);
      assert im.blocks[..n] == im.blocks && Zeros(0) + Concat(im.blocks) == Concat(im.blocks);
      ok := PassBlocks(im, i0, t);
    }

    /** INCR over the blocks. */
    method PassBlocks(im: Import, ghost i0: Image, ghost t: ImportText) returns (ok: bool)
      requires Valid() && im.Valid() && ahead[VSTUB] == Concat(im.blocks)
      requires img == Importing(i0, WithVariables(t, im, starts, |im.varNids|, 0))
      requires 4 * (|t.vstub| + |im.varNids| + |Concat(im.blocks)|) <= sizes[VSTUB]
      modifies `cur, `addrs, `img, `ahead
      ensures Valid() && ok && ahead == old(ahead)[VSTUB := []]
      ensures img == Importing(i0, WithVariables(t, im, starts, |im.varNids|, |Concat(im.blocks)|))
    {
      hide Concat, Cursor, Cursors, Each, Export.Count, Importing, Padded, Section, Shape, VarPointersOf, Zeros;
      ghost var bs, u := Concat(im.blocks), WithVariables(t, im, starts, |im.varNids|, 0);
      ImportingParts(i0, u);
      CursorWord(VSTUB);
      assert |u.vstub| == |t.vstub| + |im.varNids| && u.vstub + bs == WithVariables(t, im, starts, |im.varNids|, |bs|).vstub by {
        assert bs[..0] == [] && bs[..|bs|] == bs;
      }
      var vstubsSize := BlocksSize(im.blocks);
      ok := Incr(VSTUB, vstubsSize);
      assert Passed(bs, |bs|) == bs && Left(bs, |bs|) == [];
      ImportingUpdates(i0, u, u.vstub + bs);
    }

    /** A pointer of an import record to the cursor of section k. */
    method RecordPointer(at: nat, j: nat, k: nat, ghost i0: Image, ghost t: ImportText, ghost rec: seq<nat>)
      requires Valid() && img == Importing(i0, t) && |rec| == 13 && j < 13 && k < 9
      requires t.stubs == i0.secs[LIBSTUBS] + rec[..j] + Zeros(13 - j) && rec[j] == Cursor(starts, img, k)
      requires |first| == 10 && at == first[LIBSTUBS] + |i0.secs[LIBSTUBS]|
      modifies data, `img, `relas
      ensures Valid()
      ensures img == Importing(i0, t.(stubs := i0.secs[LIBSTUBS] + rec[..j + 1] + Zeros(12 - j),
                                      relas := t.relas + One(Cursor(starts, i0, LIBSTUBS) + 4 * j, rec[j])))
    {
      hide One, Valid, WithSection;
      ghost var b := i0.secs[LIBSTUBS];
      ImportingParts(i0, t);
      assert Zeros(13 - j) == Zeros(1) + Zeros(12 - j) && rec[..j + 1] == rec[..j] + [rec[j]];
      assert img.secs[LIBSTUBS] == (b + rec[..j]) + Zeros(1) + Zeros(12 - j);
      SetLocalPtr(at + j, k, LIBSTUBS, b + rec[..j], Zeros(12 - j));
      assert (b + rec[..j]) + [rec[j]] + Zeros(12 - j) == b + rec[..j + 1] + Zeros(12 - j);
      ImportingUpdates(i0, t, b + rec[..j + 1] + Zeros(12 - j));
    }

    /** The fixed fields of an import record; the rest of it stays zero for now. */
    method ImportFields(at: nat, im: Import, ghost t: ImportText) returns (ok: bool)
      requires Valid() && ahead[LIBSTUBS] == [] && cur[LIBSTUBS] + 0x34 <= sizes[LIBSTUBS]
      requires |first| == 10 && at == first[LIBSTUBS] + |img.secs[LIBSTUBS]| && t == TextOf(img)
      modifies data, `cur, `addrs, `img, `ahead
      ensures Valid() && ok && ahead == old(ahead)
      ensures img == Importing(old(img), t.(stubs := t.stubs + ImportRecord(im, 0, 0, 0, 0, 0)[..5] + Zeros(8)))
    {
      hide Half, Importing, Valid;
      ghost var i0, b := img, img.secs[LIBSTUBS];
      ImportingSame(img);
      assert t.stubs == b;
      ok := Reserve(LIBSTUBS, 0x34);
      assert Zeros(13) == Zeros(5) + Zeros(8);
      var fields := [Half(0x34, im.version), Half(im.flags, |im.funcNids|), Half(|im.varNids|, 0), 0, im.nid];
      assert fields == ImportRecord(im, 0, 0, 0, 0, 0)[..5];
      assert img.secs[LIBSTUBS] == b + Zeros(5) + Zeros(8);
      Fill(at, fields, LIBSTUBS, b, Zeros(8));
      assert img == WithSection(i0, LIBSTUBS, b + fields + Zeros(8));
      ImportingUpdates(i0, t, b + fields + Zeros(8));
    }

    /** The library name of an import. */
    method ImportName(at: nat, im: Import, ghost i0: Image, ghost t: ImportText, ghost rec: seq<nat>) returns (ok: bool)
      requires Valid() && ahead[IMPORT] == [] && cur[IMPORT] + NameSize(im.name) <= sizes[IMPORT]
      requires |first| == 10 && at == first[LIBSTUBS] + |i0.secs[LIBSTUBS]| && rec == RecordOf(starts, i0, im)
      requires img == Importing(i0, t) && t.stubs == i0.secs[LIBSTUBS] + rec[..5] + Zeros(8) && t.names == i0.secs[IMPORT]
      modifies data, `cur, `addrs, `img, `ahead, `relas
      ensures Valid() && ok && ahead == old(ahead)
      ensures img == Importing(i0, t.(stubs := i0.secs[LIBSTUBS] + rec[..7] + Zeros(6), names := t.names + OptionalName(im.name),
                                      relas := t.relas + One(Cursor(starts, i0, LIBSTUBS) + 0x14, rec[5])))
    {
      hide Align4, Half, Importing, NameWords, TablePtr, Valid;
      ghost var b, a := i0.secs[LIBSTUBS], Cursor(starts, i0, LIBSTUBS);
      assert Zeros(8) == [0, 0] + Zeros(6) && Zeros(7) == [0] + Zeros(6);
      assert rec[6] == 0;
      ImportingParts(i0, t);
      CursorWord(IMPORT);
      ok := true;
      if im.name.Some? {
        assert rec[5] == Cursor(starts, img, IMPORT);
        RecordPointer(at, 5, IMPORT, i0, t, rec);
        ghost var u := t.(stubs := b + rec[..6] + Zeros(7), relas := t.relas + One(a + 0x14, rec[5]));
        ImportingParts(i0, u);
        var dst := addrs[IMPORT] / 4;
        NameSizeAgrees(im.name);
        assert NameSize(im.name) == Align4(|im.name.value| + 1) && OptionalName(im.name) == NameWords(im.name.value);
        ok := Reserve(IMPORT, Align4(|im.name.value| + 1));
        var name := NameWords(im.name.value);
        assert img.secs[IMPORT] == t.names + Zeros(|name|) + [];
        Fill(dst, name, IMPORT, t.names, []);
        assert img == WithSection(Importing(i0, u), IMPORT, t.names + name) by {
          assert t.names + name + [] == t.names + name;
        }
        ImportingUpdates(i0, u, t.names + name);
        assert b + rec[..6] + Zeros(7) == b + rec[..7] + Zeros(6);
      } else {
        assert rec[5] == 0 && One(a + 0x14, 0) == [] && OptionalName(im.name) == [];
        assert b + rec[..5] + Zeros(8) == b + rec[..7] + Zeros(6) && t.names + [] == t.names && t.relas + [] == t.relas;
      }
    }

    /** The function half of an import. */
    method ImportFunctions(at: nat, im: Import, ghost i0: Image, ghost t: ImportText, ghost rec: seq<nat>) returns (ok: bool)
      requires Valid() && im.Valid() && ahead[FNID] == [] && ahead[FSTUB] == [] && img == Importing(i0, t)
      requires |first| == 10 && at == first[LIBSTUBS] + |i0.secs[LIBSTUBS]| && rec == RecordOf(starts, i0, im)
      requires t.stubs == i0.secs[LIBSTUBS] + rec[..7] + Zeros(6) && t.fnid == i0.secs[FNID] && t.fstub == i0.secs[FSTUB]
      requires 4 * (|t.fnid| + |im.funcNids|) <= sizes[FNID] && 4 * (|t.fstub| + |im.funcNids|) <= sizes[FSTUB]
      modifies data, `cur, `addrs, `img, `ahead, `relas
      ensures Valid() && ok && ahead == old(ahead)
      ensures var a := Cursor(starts, i0, LIBSTUBS);
        img == Importing(i0, t.(stubs := i0.secs[LIBSTUBS] + rec[..9] + Zeros(4), fnid := t.fnid + im.funcNids, fstub := t.fstub + im.funcEntries,
                                relas := t.relas + One(a + 0x1C, rec[7]) + One(a + 0x20, rec[8]) + Each(Cursor(starts, i0, FSTUB), im.funcEntries)))
    {
      hide Cursors, Export.Count, Half, Importing, NamePtr, Padded, Section, Shape;
      ghost var b, a := i0.secs[LIBSTUBS], Cursor(starts, i0, LIBSTUBS);
      ImportingParts(i0, t);
      assert rec[7] == (if im.funcNids == [] then 0 else Cursor(starts, img, FNID)) == TablePtr(starts, i0, FNID, |im.funcNids|)
        && rec[8] == (if im.funcNids == [] then 0 else Cursor(starts, img, FSTUB));
      ok := true;
      if |im.funcNids| != 0 {
        RecordPointer(at, 7, FNID, i0, t, rec);
        ghost var u := t.(stubs := b + rec[..8] + Zeros(5), relas := t.relas + One(a + 0x1C, rec[7]));
        ImportingParts(i0, u);
        assert rec[8] == Cursor(starts, img, FSTUB);
        RecordPointer(at, 8, FSTUB, i0, u, rec);
        ghost var w := u.(stubs := b + rec[..9] + Zeros(4), relas := u.relas + One(a + 0x20, rec[8]));
        ok := FunctionTables(im, i0, w);
      } else {
        assert Zeros(6) == [0, 0] + Zeros(4) && One(a + 0x1C, 0) == [] && One(a + 0x20, 0) == [] && Each(Cursor(starts, i0, FSTUB), []) == [];
        assert im.funcNids == [] && im.funcEntries == [] && t.fnid + [] == t.fnid && t.fstub + [] == t.fstub;
        assert b + rec[..7] + Zeros(6) == b + rec[..9] + Zeros(4) && t.relas + [] == t.relas;
      }
    }

    /** The variable half of an import. */
    method ImportVariables(at: nat, im: Import, vstubs: seq<Stub>, ghost i0: Image, ghost t: ImportText, ghost rec: seq<nat>) returns (ok: bool)
      requires Valid() && im.Valid() && Resolved(im, vstubs) && ahead[VNID] == [] && ahead[VSTUB] == [] && img == Importing(i0, t)
      requires |first| == 10 && at == first[LIBSTUBS] + |i0.secs[LIBSTUBS]| && rec == RecordOf(starts, i0, im)
      requires t.stubs == i0.secs[LIBSTUBS] + rec[..9] + Zeros(4) && t.vnid == i0.secs[VNID] && t.vstub == i0.secs[VSTUB]
      requires 4 * (|t.vnid| + |im.varNids|) <= sizes[VNID]
      requires 4 * (|t.vstub| + |im.varNids| + |Concat(im.blocks)|) <= sizes[VSTUB]
      modifies data, `cur, `addrs, `img, `ahead, `relas
      ensures Valid() && ok == Small(im)
      ensures ok ==> ahead == old(ahead)
      ensures var a, ps := Cursor(starts, i0, LIBSTUBS), VarPointers(starts, i0, im);
        ok ==> img == Importing(i0, t.(stubs := i0.secs[LIBSTUBS] + rec, vnid := t.vnid + im.varNids, vstub := t.vstub + ps + Concat(im.blocks),
                                relas := t.relas + One(a + 0x24, rec[9]) + One(a + 0x28, rec[10]) + Each(Cursor(starts, i0, VSTUB), ps)))
    {
      hide BlockPointers, Cursors, Export.Count, Half, Importing, NamePtr, Padded, Resolved, Section, Shape,
        WithVariables;
      ghost var b, a, ps := i0.secs[LIBSTUBS], Cursor(starts, i0, LIBSTUBS), VarPointers(starts, i0, im);
      ImportingParts(i0, t);
      assert rec[9] == (if im.varNids == [] then 0 else Cursor(starts, img, VNID)) == TablePtr(starts, i0, VNID, |im.varNids|)
        && rec[10] == (if im.varNids == [] then 0 else Cursor(starts, img, VSTUB)) && rec[11] == rec[12] == 0;
      assert ps == VarPointersOf(t, im, starts);
      ok := true;
      if |im.varNids| != 0 {
        RecordPointer(at, 9, VNID, i0, t, rec);
        ghost var u := t.(stubs := b + rec[..10] + Zeros(3), relas := t.relas + One(a + 0x24, rec[9]));
        ImportingParts(i0, u);
        assert rec[10] == Cursor(starts, img, VSTUB);
        RecordPointer(at, 10, VSTUB, i0, u, rec);
        assert b + rec[..11] + Zeros(2) == b + rec;
        ghost var w := u.(stubs := b + rec, relas := u.relas + One(a + 0x28, rec[10]));
        ok := VariableTables(im, vstubs, i0, w);
        WithVariablesAll(w, im, starts);
        assert VarPointersOf(w, im, starts) == ps;
      } else {
        assert Small(im) && Concat(im.blocks) == [];
        assert One(a + 0x24, 0) == [] && One(a + 0x28, 0) == [] && Each(Cursor(starts, i0, VSTUB), []) == [];
        assert b + rec[..9] + Zeros(4) == b + rec;
        assert im.varNids == [] && ps == [] && t.vnid + [] == t.vnid && t.vstub + [] == t.vstub && t.relas + [] == t.relas;
      }
    }

    lemma ImportRoom(im: Import)
      requires Valid() && im.Valid() && FitsIn(ModuleSize.Incr(AddImport(cur, im), VSTUB, 4 * |Concat(im.blocks)|))
      ensures var s, f, v := img.secs, |im.funcNids|, |im.varNids|;
        && cur[LIBSTUBS] + 0x34 <= sizes[LIBSTUBS] && 4 * |s[IMPORT]| + NameSize(im.name) <= sizes[IMPORT]
        && 4 * (|s[FNID]| + f) <= sizes[FNID] && 4 * (|s[FSTUB]| + f) <= sizes[FSTUB]
        && 4 * (|s[VNID]| + v) <= sizes[VNID] && 4 * (|s[VSTUB]| + v + |Concat(im.blocks)|) <= sizes[VSTUB]
    {
      hide NameSize, Concat, Section, Padded;
      var n := ModuleSize.Incr(AddImport(cur, im), VSTUB, 4 * |Concat(im.blocks)|);
      assert n[LIBSTUBS] <= sizes[LIBSTUBS] && n[IMPORT] <= sizes[IMPORT] && n[FNID] <= sizes[FNID] && n[FSTUB] <= sizes[FSTUB]
        && n[VNID] <= sizes[VNID] && n[VSTUB] <= sizes[VSTUB];
    }

    /** One turn of the encoder's loop over the imports; false when a relocation block is too large. */
    method EncodeImport(im: Import, vstubs: seq<Stub>) returns (ok: bool)
      requires Valid() && im.Valid() && Resolved(im, vstubs) && forall k :: LIBSTUBS <= k < 9 ==> ahead[k] == []
      requires FitsIn(ModuleSize.Incr(AddImport(cur, im), VSTUB, 4 * |Concat(im.blocks)|))
      modifies data, `cur, `addrs, `img, `ahead, `relas
      ensures Valid() && ok == Small(im)
      ensures ok ==> ahead == old(ahead) && img == ModuleImage.EncodeImport(starts, old(img), im)
    {
      hide AddImport, Append, Concat, Cursor, Each, Export.Valid, FitsIn, Half, Import.Valid, Importing, Left,
        Module.Valid, NamePtr, NameSize, One, OptionalName, Passed, Resolved, Small, TablePtr, VArray.Valid, Valid,
        VarPointers, Zeros;
      ghost var i0, t, rec, a := img, TextOf(img), RecordOf(starts, img, im), Cursor(starts, img, LIBSTUBS);
      ghost var b := i0.secs[LIBSTUBS];
      ImportRoom(im);
      CursorWord(LIBSTUBS);
      CursorWord(IMPORT);
      assert t.stubs == b && t.names == i0.secs[IMPORT] && t.fnid == i0.secs[FNID] && t.fstub == i0.secs[FSTUB]
        && t.vnid == i0.secs[VNID] && t.vstub == i0.secs[VSTUB];
      var at := addrs[LIBSTUBS] / 4;
      ok := ImportFields(at, im, t);
      assert rec[..5] == ImportRecord(im, 0, 0, 0, 0, 0)[..5];
      ghost var t1 := t.(stubs := b + rec[..5] + Zeros(8));
      ImportingParts(i0, t1);
      CursorWord(IMPORT);
      ok := ImportName(at, im, i0, t1, rec);
      ghost var t2 := t1.(stubs := b + rec[..7] + Zeros(6), names := t.names + OptionalName(im.name), relas := t.relas + One(a + 0x14, rec[5]));
      ok := ImportFunctions(at, im, i0, t2, rec);
      ghost var t3 := t2.(stubs := b + rec[..9] + Zeros(4), fnid := t.fnid + im.funcNids, fstub := t.fstub + im.funcEntries,
                          relas := t2.relas + One(a + 0x1C, rec[7]) + One(a + 0x20, rec[8]) + Each(Cursor(starts, i0, FSTUB), im.funcEntries));
      ok := ImportVariables(at, im, vstubs, i0, t3, rec);
      ImportingAll(starts, i0, im);
    }
  }

  // ---- words written behind and ahead of a cursor ----

  /** The next n words the cursor passes. */
  function Passed(ahead: seq<nat>, n: nat): (r: seq<nat>)
    ensures |r| == n
  {
    if n <= |ahead| then ahead[..n] else ahead + Zeros(n - |ahead|)
  }

  function Left(ahead: seq<nat>, n: nat): (r: seq<nat>)
    ensures |r| <= |ahead|
  {
    if n <= |ahead| then ahead[n..] else []
  }

  lemma BehindPadded(s: seq<nat>, ahead: seq<nat>, n: nat, i: nat, v: nat)
    requires |s| + |ahead| <= n && i < |s|
    ensures Padded(s + ahead, n)[i := v] == Padded(Stored(s, i, v) + ahead, n)
  {
  }

  lemma AheadPadded(s: seq<nat>, ahead: seq<nat>, n: nat, i: nat, v: nat)
    requires |s| + |ahead| <= n && i <= |ahead| && |s| + i < n
    ensures |s| + |Stored(ahead, i, v)| <= n
    ensures Padded(s + ahead, n)[|s| + i := v] == Padded(s + Stored(ahead, i, v), n)
  {
  }

  lemma PassedPadded(s: seq<nat>, ahead: seq<nat>, n: nat, d: nat)
    requires |s| + |ahead| <= n && |s| + d <= n
    ensures |s + Passed(ahead, d)| + |Left(ahead, d)| <= n
    ensures Padded(s + ahead, n) == Padded(s + Passed(ahead, d) + Left(ahead, d), n)
  {
  }

  lemma FillOne(img: Image, k: nat, before: seq<nat>, ws: seq<nat>, after: seq<nat>, i: nat)
    requires k < 9 && i < |ws|
    ensures var s, img' := before + ws[..i] + Zeros(|ws| - i) + after, WithSection(img, k, before + ws[..i] + Zeros(|ws| - i) + after);
      img'.secs[k] == s && |before| + i < |s|
      && WithSection(img', k, Stored(s, |before| + i, ws[i])) == WithSection(img, k, before + ws[..i + 1] + Zeros(|ws| - (i + 1)) + after)
  {
    assert Stored(before + ws[..i] + Zeros(|ws| - i) + after, |before| + i, ws[i]) == before + ws[..i + 1] + Zeros(|ws| - (i + 1)) + after;
  }

  /** i with the two export sections and the relocations as far as they have come. */
  function Exporting(i: Image, entries: seq<nat>, tables: seq<nat>, relas: seq<Abs32>): Image {
    Image(i.secs[LIBENT := entries][EXPORT := tables], relas)
  }

  /** The six sections of the imports and the relocations, as far as they have come. */
  datatype ImportText = ImportText(stubs: seq<nat>, names: seq<nat>, fnid: seq<nat>, fstub: seq<nat>,
                                   vnid: seq<nat>, vstub: seq<nat>, relas: seq<Abs32>)

  function Importing(i: Image, t: ImportText): Image {
    Image(i.secs[LIBSTUBS := t.stubs][IMPORT := t.names][FNID := t.fnid][FSTUB := t.fstub][VNID := t.vnid][VSTUB := t.vstub], t.relas)
  }

  function WithFunctions(t: ImportText, nids: seq<nat>, entries: seq<nat>, p: nat): ImportText {
    t.(fnid := t.fnid + nids, fstub := t.fstub + entries, relas := t.relas + Each(p, entries))
  }

  function TextOf(i: Image): ImportText {
    ImportText(i.secs[LIBSTUBS], i.secs[IMPORT], i.secs[FNID], i.secs[FSTUB], i.secs[VNID], i.secs[VSTUB], i.relas)
  }

  lemma ImportingSame(i: Image)
    ensures Importing(i, TextOf(i)) == i
  {
  }

  lemma ImportingParts(i: Image, t: ImportText)
    ensures var r := Importing(i, t);
      && r.secs[LIBSTUBS] == t.stubs && r.secs[IMPORT] == t.names && r.secs[FNID] == t.fnid && r.secs[FSTUB] == t.fstub
      && r.secs[VNID] == t.vnid && r.secs[VSTUB] == t.vstub && r.relas == t.relas
      && r.secs[MODINFO] == i.secs[MODINFO] && r.secs[LIBENT] == i.secs[LIBENT] && r.secs[EXPORT] == i.secs[EXPORT]
  {
  }

  /** The stubs the encoder looks for are there, and the blocks are theirs. */
  ghost predicate Resolved(im: Import, vstubs: seq<Stub>)
    requires im.Valid()
  {
    forall i :: 0 <= i < |im.varNids| ==>
      var s := Find(vstubs, im.nid, im.varNids[i]);
      s.Some? && im.blocks[i] == Block(s.value)
  }

  /** No block is larger than its header can say. */
  ghost predicate Small(im: Import) {
    forall i :: 0 <= i < |im.blocks| ==> 4 * |im.blocks[i]| <= 0xFF_FFFF
  }

  function VarPointersOf(t: ImportText, im: Import, starts: Addresses): (ws: seq<nat>)
    ensures |ws| == |im.blocks|
  {
    BlockPointers(starts[VSTUB] + 4 * |t.vstub| + 4 * |im.blocks|, im.blocks)
  }

  /** i variables and the first n words of the blocks. */
  function WithVariables(t: ImportText, im: Import, starts: Addresses, i: nat, n: nat): ImportText
    requires im.Valid() && i <= |im.varNids| && n <= |Concat(im.blocks)|
  {
    var ps := VarPointersOf(t, im, starts);
    t.(vnid := t.vnid + im.varNids[..i], vstub := t.vstub + ps[..i] + Concat(im.blocks)[..n],
       relas := t.relas + Each(starts[VSTUB] + 4 * |t.vstub|, ps[..i]))
  }

  /** One variable more. */
  function WithVariable(t: ImportText, nid: nat, pointer: nat, starts: Addresses): ImportText {
    t.(vnid := t.vnid + [nid], vstub := t.vstub + [pointer], relas := t.relas + One(starts[VSTUB] + 4 * |t.vstub|, pointer))
  }

  lemma WithVariablesStart(t: ImportText, im: Import, starts: Addresses)
    requires im.Valid()
    ensures WithVariables(t, im, starts, 0, 0) == t
  {
    hide VarPointersOf, Concat;
  }

  lemma ImportingAll(starts: Addresses, i: Image, im: Import)
    ensures var rec, a, ps, s := RecordOf(starts, i, im), Cursor(starts, i, LIBSTUBS), VarPointers(starts, i, im), i.secs;
      ModuleImage.EncodeImport(starts, i, im)
      == Importing(i, ImportText(s[LIBSTUBS] + rec, s[IMPORT] + OptionalName(im.name), s[FNID] + im.funcNids, s[FSTUB] + im.funcEntries,
                                 s[VNID] + im.varNids, s[VSTUB] + ps + Concat(im.blocks),
                                 i.relas + One(a + 0x14, rec[5])
                                 + One(a + 0x1C, rec[7]) + One(a + 0x20, rec[8]) + Each(Cursor(starts, i, FSTUB), im.funcEntries)
                                 + One(a + 0x24, rec[9]) + One(a + 0x28, rec[10]) + Each(Cursor(starts, i, VSTUB), ps)))
  {
    hide RecordOf, VarPointers, OptionalName, Concat, One, Each, Cursor;
    var rec, a, ps := RecordOf(starts, i, im), Cursor(starts, i, LIBSTUBS), VarPointers(starts, i, im);
    var r, r1, r2, r3, r4 := i.relas, One(a + 0x14, rec[5]), One(a + 0x1C, rec[7]), One(a + 0x20, rec[8]), Each(Cursor(starts, i, FSTUB), im.funcEntries);
    var r5, r6, r7 := One(a + 0x24, rec[9]), One(a + 0x28, rec[10]), Each(Cursor(starts, i, VSTUB), ps);
    assert r + (r1 + r2 + r3 + r4 + (r5 + r6 + r7)) == r + r1 + r2 + r3 + r4 + r5 + r6 + r7;
  }

  lemma WithVariablesAll(t: ImportText, im: Import, starts: Addresses)
    requires im.Valid()
    ensures var ps, bs := VarPointersOf(t, im, starts), Concat(im.blocks);
      WithVariables(t, im, starts, |im.varNids|, |bs|)
      == t.(vnid := t.vnid + im.varNids, vstub := t.vstub + ps + bs, relas := t.relas + Each(starts[VSTUB] + 4 * |t.vstub|, ps))
  {
    hide VarPointersOf, Concat, Each;
    var ps, bs := VarPointersOf(t, im, starts), Concat(im.blocks);
    assert im.varNids[..|im.varNids|] == im.varNids && ps[..|ps|] == ps && bs[..|bs|] == bs;
  }

  lemma WithVariablesStep(t: ImportText, im: Import, starts: Addresses, i: nat)
    requires im.Valid() && i < |im.varNids|
    ensures var ps, u := VarPointersOf(t, im, starts), WithVariables(t, im, starts, i, 0);
      && |u.vnid| == |t.vnid| + i && |u.vstub| == |t.vstub| + i
      && WithVariables(t, im, starts, i + 1, 0) == WithVariable(u, im.varNids[i], ps[i], starts)
  {
    hide VarPointersOf, Concat, Each, One;
    var ps, p := VarPointersOf(t, im, starts), starts[VSTUB] + 4 * |t.vstub|;
    EachStep(p, ps, i);
    assert t.relas + (Each(p, ps[..i]) + One(p + 4 * i, ps[i])) == t.relas + Each(p, ps[..i]) + One(p + 4 * i, ps[i]);
    assert im.varNids[..i + 1] == im.varNids[..i] + [im.varNids[i]] && ps[..i + 1] == ps[..i] + [ps[i]];
    assert Concat(im.blocks)[..0] == [];
  }

  lemma ImportingUpdates(i: Image, t: ImportText, ws: seq<nat>)
    ensures WithSection(Importing(i, t), LIBSTUBS, ws) == Importing(i, t.(stubs := ws))
    ensures WithSection(Importing(i, t), IMPORT, ws) == Importing(i, t.(names := ws))
    ensures WithSection(Importing(i, t), FNID, ws) == Importing(i, t.(fnid := ws))
    ensures WithSection(Importing(i, t), FSTUB, ws) == Importing(i, t.(fstub := ws))
    ensures WithSection(Importing(i, t), VNID, ws) == Importing(i, t.(vnid := ws))
    ensures WithSection(Importing(i, t), VSTUB, ws) == Importing(i, t.(vstub := ws))
  {
  }

  lemma ExportingParts(i: Image, entries: seq<nat>, tables: seq<nat>, relas: seq<Abs32>)
    ensures var r := Exporting(i, entries, tables, relas);
      r.secs[LIBENT] == entries && r.secs[EXPORT] == tables && r.secs[MODINFO] == i.secs[MODINFO] && r.relas == relas
  {
  }

  /** With everything in place, the image is that of the specification. */
  lemma ExportingAll(starts: Addresses, i: Image, e: Export)
    ensures var rec, a, ws := ExportRecordOf(starts, i, e), Cursor(starts, i, LIBENT), EntryWords(starts, e.entries);
      ModuleImage.EncodeExport(starts, i, e)
      == Exporting(i, i.secs[LIBENT] + rec, i.secs[EXPORT] + OptionalName(e.name) + e.nids + ws,
                   i.relas + One(a + 0x14, rec[5]) + One(a + 0x18, rec[6]) + One(a + 0x1C, rec[7]) + Each(rec[7], ws))
  {
    hide EntryWords, OptionalName, ExportRecordOf, One, Each, Cursor;
    var rec, a, ws := ExportRecordOf(starts, i, e), Cursor(starts, i, LIBENT), EntryWords(starts, e.entries);
    var x, name := i.secs[EXPORT], OptionalName(e.name);
    assert x + (name + e.nids + ws) == x + name + e.nids + ws;
    var r, r1, r2, r3, r4 := i.relas, One(a + 0x14, rec[5]), One(a + 0x18, rec[6]), One(a + 0x1C, rec[7]), Each(rec[7], ws);
    assert r + (r1 + r2 + r3 + r4) == r + r1 + r2 + r3 + r4;
  }

  lemma PointersOf(starts: Addresses, img: Image, e: Export)
    ensures var rec, tables := ExportRecordOf(starts, img, e), starts[EXPORT] + 4 * |img.secs[EXPORT] + OptionalName(e.name)|;
      rec[6] == tables && rec[7] == tables + 4 * |e.nids|
  {
    hide OptionalName;
  }

  /** Two adjacent tables of which the first i entries are filled. */
  function Tables(x: seq<nat>, a: seq<nat>, b: seq<nat>, i: nat): seq<nat>
    requires i <= |a| == |b|
  {
    x + a[..i] + Zeros(|a| - i) + b[..i] + Zeros(|a| - i)
  }

  lemma TablesStep(x: seq<nat>, a: seq<nat>, b: seq<nat>, i: nat)
    requires i < |a| == |b|
    ensures var n := |a|;
      var z := Zeros(n - i - 1);
      && Tables(x, a, b, i) == (x + a[..i]) + Zeros(|[a[i]]|) + (z + b[..i] + Zeros(n - i))
      && (x + a[..i]) + [a[i]] + (z + b[..i] + Zeros(n - i)) == (x + a[..i + 1] + z + b[..i]) + Zeros(|[b[i]]|) + z
      && Tables(x, a, b, i + 1) == (x + a[..i + 1] + z + b[..i]) + [b[i]] + z
  {
  }

  lemma EachStep(p: nat, ws: seq<nat>, i: nat)
    requires i < |ws|
    ensures Each(p, ws[..i + 1]) == Each(p, ws[..i]) + One(p + 4 * i, ws[i])
  {
    assert ws[..i + 1][..i] == ws[..i];
  }

  lemma ZerosPadded(s: seq<nat>, ahead: seq<nat>, n: nat, d: nat)
    requires |s| + |ahead| + d <= n
    ensures Padded(s + ahead, n) == Padded(s + (ahead + Zeros(d)), n)
  {
  }

  lemma NatsAppend(a: seq<ArmReloc.word>, b: seq<ArmReloc.word>)
    ensures Nats(a + b) == Nats(a) + Nats(b)
  {
  }

  lemma {:induction false} VarWordsConcat(a: seq<VarRel>, b: seq<VarRel>)
    ensures VarWordsOf(a + b) == VarWordsOf(a) + VarWordsOf(b)
  {
    hide VarWords;
    if a == [] {
      assert a + b == b;
    } else {
      assert (a + b)[1..] == a[1..] + b;
      VarWordsConcat(a[1..], b);
    }
  }

  lemma VarWordsAppend(rs: seq<VarRel>, j: nat)
    requires j < |rs|
    ensures VarWordsOf(rs[..j + 1]) == VarWordsOf(rs[..j]) + VarWords(rs[j])
    ensures |VarWordsOf(rs[..j + 1])| <= |VarWordsOf(rs)|
  {
    hide VarWords;
    assert rs[..j + 1] == rs[..j] + [rs[j]] && rs == rs[..j + 1] + rs[j + 1..];
    VarWordsConcat(rs[..j], [rs[j]]);
    VarWordsConcat(rs[..j + 1], rs[j + 1..]);
    assert VarWordsOf([rs[j]]) == VarWords(rs[j]) + VarWordsOf([]);
  }

  /** vstubs_size, summed up over the variables of an import. */
  method BlocksSize(blocks: seq<seq<nat>>) returns (n: nat)
    ensures n == 4 * |Concat(blocks)|
  {
    n := 0;
    for i := 0 to |blocks|
      invariant n == 4 * |Concat(blocks[..i])|
    {
      assert blocks[..i + 1][..i] == blocks[..i];
      n := n + 4 * |blocks[i]|;
    }
    assert blocks[..|blocks|] == blocks;
  }

  /** The search loop of the encoder. */
  method FindStub(vstubs: seq<Stub>, libraryNid: nat, targetNid: nat) returns (r: Option<Stub>)
    ensures r == Find(vstubs, libraryNid, targetNid)
  {
    assert vstubs[0..] == vstubs;
    for j := 0 to |vstubs|
      invariant Find(vstubs, libraryNid, targetNid) == Find(vstubs[j..], libraryNid, targetNid)
    {
      assert vstubs[j..][1..] == vstubs[j + 1..];
      if vstubs[j].libraryNid == libraryNid && vstubs[j].targetNid == targetNid {
        return Some(vstubs[j]);
      }
    }
    r := None;
  }
}
