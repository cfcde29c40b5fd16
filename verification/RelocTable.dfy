/** From REL entries to `.sce.rel` (vita-elf.c, sce-elf.c) and back into memory: the
    converter's tables against a loader that applies what was emitted. */
module RelocTable {
  import opened ArmReloc
  import opened SceRel
  import opened Wrappers

  const SHT_ARM_EXIDX: word := 0x70000001
  const SHN_UNDEF := 0
  const SHN_ABS := 0xFFF1
  const SHN_COMMON := 0xFFF2

  datatype Segment = Segment(kind: word, vaddr: word, memsz: word) {
    /** The range test of the address translations; the end is computed modulo 2^32. */
    predicate Covers(a: word) {
      vaddr as int <= a as int < Plus(vaddr, memsz) as int
    }
  }

  datatype Symbol = Symbol(value: word, shndx: int)

  /** `vita_elf_rela_t`; offset is an address. */
  datatype Rela = Rela(kind: RelType, symbol: Option<Symbol>, offset: word, addend: word)

  /** What one `.sce.rel` entry says. */
  datatype Entry = Entry(symseg: nat, kind: RelType, datseg: nat, symoff: word, datoff: word)

  // ---- address translation ----

  ghost function SegmentOf(segs: seq<Segment>, a: word): Option<nat> {
    SegmentFrom(segs, a, 0)
  }

  ghost function SegmentFrom(segs: seq<Segment>, a: word, i: nat): (r: Option<nat>)
    requires i <= |segs|
    ensures r.Some? ==> i <= r.value < |segs| && segs[r.value].kind != SHT_ARM_EXIDX && segs[r.value].Covers(a)
    ensures forall j :: i <= j < (if r.Some? then r.value else |segs|) ==>
              segs[j].kind == SHT_ARM_EXIDX || !segs[j].Covers(a)
    decreases |segs| - i
  {
    if i == |segs| then None
    else if segs[i].kind != SHT_ARM_EXIDX && segs[i].Covers(a) then Some(i)
    else SegmentFrom(segs, a, i + 1)
  }

  /** `vita_elf_vaddr_to_segndx`; None is -1. */
  method VaddrToSegndx(segs: seq<Segment>, a: word) returns (r: Option<nat>)
    ensures r == SegmentOf(segs, a)
  {
    hide Segment.Covers;
    for i := 0 to |segs|
      invariant SegmentOf(segs, a) == SegmentFrom(segs, a, i)
    {
      if segs[i].kind == SHT_ARM_EXIDX {
        continue;
      }
      if segs[i].Covers(a) {
        return Some(i);
      }
    }
    return None;
  }

  /** `vita_elf_vaddr_to_segoffset`. */
  function SegOffset(segs: seq<Segment>, a: word, i: nat): word
    requires i < |segs|
  {
    if a == 0 then 0 else Disp(a, segs[i].vaddr)
  }

  // ---- loading a REL section ----

  /** A REL entry: place, type and symbol index. */
  datatype Rel = Rel(offset: word, kind: RelType, sym: nat)

  /** A section's address range and the word the file holds at each address in it. */
  datatype Section = Section(addr: word, size: word, at: word -> word)

  const EmptyRela := Rela(RNone, None, 0, 0)

  /** One turn of the loop of `load_rel_table`; None is the failure exit. */
  function LoadRel(symtab: seq<Symbol>, text: Section, rel: Rel): Option<Rela> {
    if Disp(rel.offset, text.addr) >= text.size then Some(EmptyRela)
    else
      var kind := if rel.kind == ThmJump24 then ThmCall else rel.kind;
      if kind == ThmPc11 then Some(EmptyRela.(kind := kind))
      else if kind == RNone || kind == V4bx then Some(EmptyRela.(kind := kind, offset := rel.offset))
      else if !IsNormal(kind) || rel.sym >= |symtab| then None
      else
        var s := symtab[rel.sym];
        Some(Rela(kind, Some(s), rel.offset, RecoverAddend(kind, text.at(rel.offset), s.value, rel.offset)))
  }

  /** The type under which an entry is kept. */
  function KindOf(rel: Rel): RelType {
    if rel.kind == ThmJump24 then ThmCall else rel.kind
  }

  /** An entry that relocates a word of the section against a symbol of the table. */
  predicate Relocates(symtab: seq<Symbol>, text: Section, rel: Rel) {
    Disp(rel.offset, text.addr) < text.size && IsNormal(KindOf(rel)) && rel.sym < |symtab|
  }

  /** The load fails at an entry in the section whose type is neither handled nor ignored, or whose
      symbol is not in the table; an entry that relocates keeps place and symbol and gets its addend. */
  lemma LoadsIff(symtab: seq<Symbol>, text: Section, rel: Rel)
    ensures LoadRel(symtab, text, rel) == None <==>
      Disp(rel.offset, text.addr) < text.size && KindOf(rel) !in {ThmPc11, RNone, V4bx}
      && (!IsNormal(KindOf(rel)) || rel.sym >= |symtab|)
    ensures Relocates(symtab, text, rel) ==>
      var r := LoadRel(symtab, text, rel);
      r.Some? && r.value.kind == KindOf(rel) && r.value.offset == rel.offset && r.value.symbol == Some(symtab[rel.sym])
      && Target(r.value) == Resolved(KindOf(rel), text.at(rel.offset), symtab[rel.sym].value, rel.offset)
    ensures LoadRel(symtab, text, rel).Some? && !Relocates(symtab, text, rel) ==> !IsNormal(LoadRel(symtab, text, rel).value.kind)
  {
    hide DecodeTarget, SymbolPart, Disp, Plus;
  }

  /** One turn of the loop, on the zeroed table entry i. */
  method LoadEntry(symtab: seq<Symbol>, text: Section, rel: Rel, relas: array<Rela>, i: nat) returns (ok: bool)
    requires i < relas.Length && relas[i] == EmptyRela
    modifies relas
    ensures ok <==> LoadRel(symtab, text, rel).Some?
    ensures ok ==> LoadRel(symtab, text, rel) == Some(relas[i])
    ensures forall j :: 0 <= j < relas.Length && j != i ==> relas[j] == old(relas[j])
  {
    hide DecodeTarget, SymbolPart, Disp;
    if Disp(rel.offset, text.addr) >= text.size {
      return true;
    }
    var kind := if rel.kind == ThmJump24 then ThmCall else rel.kind;
    relas[i] := relas[i].(kind := kind);
    if kind == ThmPc11 {
      return true;
    }
    relas[i] := relas[i].(offset := rel.offset);
    var insn := text.at(rel.offset);
    if kind == RNone || kind == V4bx {
      return true;
    }
    if !IsNormal(kind) || rel.sym >= |symtab| {
      return false;
    }
    var target := DecodeTarget(kind, insn, rel.offset);
    relas[i] := relas[i].(symbol := Some(symtab[rel.sym]),
                          addend := Disp(target, SymbolPart(kind, symtab[rel.sym].value)));
    return true;
  }

  /** `load_rel_table`: fills the zeroed table in place, or fails. */
  method LoadRelTable(symtab: seq<Symbol>, text: Section, rels: seq<Rel>) returns (ok: bool, relas: array<Rela>)
    ensures fresh(relas) && relas.Length == |rels|
    ensures ok <==> forall i :: 0 <= i < |rels| ==> LoadRel(symtab, text, rels[i]).Some?
    ensures ok ==> forall i :: 0 <= i < |rels| ==> LoadRel(symtab, text, rels[i]) == Some(relas[i])
  {
    hide LoadRel;
    relas := new Rela[|rels|](_ => EmptyRela);
    for i := 0 to |rels|
      invariant forall j :: 0 <= j < i ==> LoadRel(symtab, text, rels[j]) == Some(relas[j])
      invariant forall j :: i <= j < |rels| ==> relas[j] == EmptyRela
    {
      ok := LoadEntry(symtab, text, rels[i], relas, i);
      if !ok {
        return;
      }
    }
    ok := true;
  }

  // ---- discarding ----

  /** `sce_elf_discard_invalid_relocs` on one entry. */
  function Discard(segs: seq<Segment>, r: Rela): Rela {
    if r.kind == RNone || (r.symbol.Some? && r.symbol.value.shndx in {SHN_UNDEF, SHN_ABS, SHN_COMMON})
       || Uncovered(segs, r.offset)
    then r.(kind := RNone)
    else r
  }

  predicate Uncovered(segs: seq<Segment>, a: word) {
    forall s :: s in segs ==> s.kind == SHT_ARM_EXIDX || !s.Covers(a)
  }

  /** The entry is of a type, its place lies in a segment that is no unwind table, and its symbol, if it
      has one, is defined in a section. */
  ghost predicate Valid(segs: seq<Segment>, r: Rela) {
    && r.kind != RNone
    && (exists i :: 0 <= i < |segs| && segs[i].kind != SHT_ARM_EXIDX && segs[i].Covers(r.offset))
    && (r.symbol.Some? ==> r.symbol.value.shndx != 0 && r.symbol.value.shndx != 0xFFF1 && r.symbol.value.shndx != 0xFFF2)
  }

  lemma DiscardsInvalid(segs: seq<Segment>, r: Rela)
    ensures Discard(segs, r) == if Valid(segs, r) then r else r.(kind := RNone)
  {
    hide Segment.Covers;
    if Uncovered(segs, r.offset) {
      assert forall i :: 0 <= i < |segs| ==> segs[i] in segs;
    }
  }

  method DiscardInvalid(segs: seq<Segment>, relas: array<Rela>)
    modifies relas
    ensures forall i :: 0 <= i < relas.Length ==> relas[i] == Discard(segs, old(relas[i]))
    ensures forall i :: 0 <= i < relas.Length ==>
      relas[i] == (if Valid(segs, old(relas[i])) then old(relas[i]) else old(relas[i]).(kind := RNone))
  {
    for i := 0 to relas.Length
      invariant forall j :: 0 <= j < i ==> relas[j] == Discard(segs, old(relas[j]))
      invariant forall j :: i <= j < relas.Length ==> relas[j] == old(relas[j])
    {
      var r := relas[i];
      if r.kind == RNone || (r.symbol.Some? && r.symbol.value.shndx == SHN_UNDEF) {
        relas[i] := r.(kind := RNone);
        continue;
      }
      if r.symbol.Some? && (r.symbol.value.shndx == SHN_ABS || r.symbol.value.shndx == SHN_COMMON) {
        relas[i] := r.(kind := RNone);
        continue;
      }
      var datseg := VaddrToSegndx(segs, r.offset);
      if datseg == None {
        relas[i] := r.(kind := RNone);
      }
    }
    forall i | 0 <= i < relas.Length
      ensures relas[i] == (if Valid(segs, old(relas[i])) then old(relas[i]) else old(relas[i]).(kind := RNone))
    {
      DiscardsInvalid(segs, old(relas[i]));
    }
  }

  // ---- writing .sce.rel ----

  /** S + A of a table entry; without a symbol the addend is the address. */
  function Target(r: Rela): word {
    if r.symbol.Some? then Plus(r.symbol.value.value, r.addend) else r.addend
  }

  /** The address whose segment the entry names: the symbol's, not S + A. */
  function Anchor(r: Rela): word {
    if r.symbol.Some? then r.symbol.value.value else r.addend
  }

  /** Discarding has left only entries whose place lies in a segment. */
  ghost predicate Placed(segs: seq<Segment>, r: Rela) {
    r.kind != RNone ==> SegmentOf(segs, r.offset).Some?
  }

  /** What `sce_elf_write_rela_sections` emits for one entry. */
  ghost function Emit(segs: seq<Segment>, r: Rela): Option<Entry>
    requires Placed(segs, r)
  {
    if r.kind == RNone then None
    else
      match SegmentOf(segs, Anchor(r))
      case None => None
      case Some(symseg) =>
        var datseg := SegmentOf(segs, r.offset).value;
        Some(Entry(symseg, r.kind, datseg, SegOffset(segs, Target(r), symseg), SegOffset(segs, r.offset, datseg)))
  }

  ghost function EmitAll(segs: seq<Segment>, relas: seq<Rela>): seq<Entry>
    requires forall r :: r in relas ==> Placed(segs, r)
  {
    if relas == [] then []
    else
      var n := |relas| - 1;
      var e := Emit(segs, relas[n]);
      EmitAll(segs, relas[..n]) + Emitted(e)
  }

  // Segment numbers go into four bits.

  function Nibble(i: nat): word
    requires i < 16
  {
    i as word
  }

  function SegOf(w: word): nat {
    (w & 0xF) as nat
  }

  lemma NibbleBack(i: nat)
    requires i < 16
    ensures SegOf(Nibble(i)) == i && Nibble(i) & 0xF == Nibble(i)
  {
  }

  predicate Packable(e: Entry) {
    e.symseg < 16 && e.datseg < 16 && RelTypeOf(RelCode(e.kind)) == e.kind
  }

  function CodeWord(t: RelType): word {
    RelCode(t) as word
  }

  function TypeOfWord(w: word): RelType {
    RelTypeOf((w & 0xFF) as bv8)
  }

  lemma CodeWordBack(t: RelType)
    ensures TypeOfWord(CodeWord(t)) == RelTypeOf(RelCode(t)) && CodeWord(t) & 0xFF == CodeWord(t)
  {
    hide RelTypeOf, RelCode;
  }

  /** `sce_rel_long` and `encode_sce_rel`: the three words of an entry. */
  function EntryWords(e: Entry): (ws: seq<word>)
    requires e.symseg < 16 && e.datseg < 16
    ensures |ws| == 3
  {
    [LongWord(Nibble(e.symseg), CodeWord(e.kind), Nibble(e.datseg)), e.symoff, e.datoff]
  }

  /** What a loader reads from three words. */
  function ReadEntry(w1: word, w2: word, w3: word): Entry {
    Entry(SegOf((w1 >> 4) & 0xF), TypeOfWord((w1 >> 8) & 0xFF), SegOf((w1 >> 16) & 0xF), w2, w3)
  }

  lemma EntryReadsBack(e: Entry)
    requires Packable(e)
    ensures ReadEntry(EntryWords(e)[0], EntryWords(e)[1], EntryWords(e)[2]) == e
  {
    NibbleBack(e.symseg);
    NibbleBack(e.datseg);
    CodeWordBack(e.kind);
    LongWordFields(Nibble(e.symseg), CodeWord(e.kind), Nibble(e.datseg));
    hide SegOf, Nibble, CodeWord, TypeOfWord, LongWord, RelTypeOf, RelCode;
  }

  /** The fields of a record: the segments' numbers and the type in the first word, then the offset of S + A
      in its segment, then the offset of the place. */
  lemma EntryLayout(e: Entry)
    requires Packable(e)
    ensures var ws := EntryWords(e);
      && ws[0] & 0xF == 0 && SegOf((ws[0] >> 4) & 0xF) == e.symseg && (ws[0] >> 8) & 0xFF == CodeWord(e.kind)
      && SegOf((ws[0] >> 16) & 0xF) == e.datseg && ws[0] >> 20 == 0 && ws[1] == e.symoff && ws[2] == e.datoff
  {
    hide SegOf, Nibble, CodeWord, TypeOfWord, LongWord, RelTypeOf, RelCode;
    NibbleBack(e.symseg);
    NibbleBack(e.datseg);
    CodeWordBack(e.kind);
    LongWordFields(Nibble(e.symseg), CodeWord(e.kind), Nibble(e.datseg));
  }

  /** Reading `.sce.rel` from its start, three words at a time. */
  ghost function ReadEntries(ws: seq<word>): seq<Entry> {
    if |ws| < 3 then []
    else ReadEntries(ws[..|ws| - 3]) + [ReadEntry(ws[|ws| - 3], ws[|ws| - 2], ws[|ws| - 1])]
  }

  lemma ReadAppended(ws: seq<word>, e: Entry)
    requires Packable(e)
    ensures ReadEntries(ws + EntryWords(e)) == ReadEntries(ws) + [e]
  {
    EntryReadsBack(e);
    hide ReadEntry, EntryWords;
    assert (ws + EntryWords(e))[..|ws|] == ws;
  }

  ghost predicate Writable(segs: seq<Segment>, r: Rela) {
    Placed(segs, r) && RelTypeOf(RelCode(r.kind)) == r.kind
  }

  ghost function Emitted(o: Option<Entry>): seq<Entry> {
    if o.Some? then [o.value] else []
  }

  /** `memcpy` of one record. */
  method CopyWords(buf: array<word>, pos: nat, ws: seq<word>)
    requires |ws| == 3 && pos + 3 <= buf.Length
    modifies buf
    ensures buf[..pos + 3] == old(buf[..pos]) + ws
  {
    buf[pos], buf[pos + 1], buf[pos + 2] := ws[0], ws[1], ws[2];
  }

  /** Places one record at the cursor. */
  method PutEntry(buf: array<word>, pos: nat, e: Entry) returns (next: nat)
    requires Packable(e) && pos + 3 <= buf.Length
    modifies buf
    ensures next == pos + 3 && ReadEntries(buf[..next]) == old(ReadEntries(buf[..pos])) + [e]
  {
    ReadAppended(buf[..pos], e);
    CopyWords(buf, pos, EntryWords(e));
    next := pos + 3;
  }

  /** The body of the loop in `sce_elf_write_rela_sections`. */
  method WriteOne(segs: seq<Segment>, r: Rela, buf: array<word>, pos: nat) returns (next: nat)
    requires |segs| <= 16 && Writable(segs, r) && pos + 3 <= buf.Length
    modifies buf
    ensures next <= pos + 3
    ensures ReadEntries(buf[..next]) == old(ReadEntries(buf[..pos])) + Emitted(Emit(segs, r))
  {
    hide EntryWords, RelTypeOf, RelCode, SegOffset, Plus, ReadEntry, ReadEntries;
    if r.kind == RNone {
      return pos;
    }
    var datseg := VaddrToSegndx(segs, r.offset);
    var datoff := SegOffset(segs, r.offset, datseg.value);
    var symvaddr := if r.symbol.Some? then Plus(r.symbol.value.value, r.addend) else r.addend;
    var symseg := VaddrToSegndx(segs, if r.symbol.Some? then r.symbol.value.value else r.addend);
    if symseg == None {
      return pos;
    }
    var symoff := SegOffset(segs, symvaddr, symseg.value);
    var e := Entry(symseg.value, r.kind, datseg.value, symoff, datoff);
    assert Emit(segs, r) == Some(e);
    next := PutEntry(buf, pos, e);
  }

  /** `sce_elf_write_rela_sections`: the cursor moves over a buffer with room for every entry;
      what is read back from the used part is what each entry emits. */
  method WriteRelas(segs: seq<Segment>, relas: seq<Rela>) returns (buf: array<word>, pos: nat)
    requires |segs| <= 16 && forall r :: r in relas ==> Writable(segs, r)
    ensures forall r :: r in relas ==> Placed(segs, r)
    ensures fresh(buf) && pos <= buf.Length == 3 * |relas| && ReadEntries(buf[..pos]) == EmitAll(segs, relas)
  {
    hide Emit, ReadEntry, RelTypeOf, RelCode, Placed;
    assert forall r :: r in relas ==> Writable(segs, r) && Placed(segs, r);
    buf := new word[3 * |relas|](_ => 0);
    pos := 0;
    for i := 0 to |relas|
      invariant pos <= 3 * i
      invariant ReadEntries(buf[..pos]) == EmitAll(segs, relas[..i])
    {
      assert relas[..i + 1][..i] == relas[..i];
      pos := WriteOne(segs, relas[i], buf, pos);
    }
    assert relas[..|relas|] == relas;
  }

  // ---- the loader ----

  type Memory = word -> bv8

  /** A little-endian word. */
  function Join(b0: bv8, b1: bv8, b2: bv8, b3: bv8): word {
    (b0 as word) | ((b1 as word) << 8) | ((b2 as word) << 16) | ((b3 as word) << 24)
  }

  function Byte0(w: word): bv8 { (w & 0xFF) as bv8 }
  function Byte1(w: word): bv8 { ((w >> 8) & 0xFF) as bv8 }
  function Byte2(w: word): bv8 { ((w >> 16) & 0xFF) as bv8 }
  function Byte3(w: word): bv8 { ((w >> 24) & 0xFF) as bv8 }

  lemma JoinBytes(b0: bv8, b1: bv8, b2: bv8, b3: bv8)
    ensures var w := Join(b0, b1, b2, b3);
            Byte0(w) == b0 && Byte1(w) == b1 && Byte2(w) == b2 && Byte3(w) == b3
  {
  }

  function ReadWord(m: Memory, a: word): word {
    Join(m(a), m(a + 1), m(a + 2), m(a + 3))
  }

  function StoreWord(m: Memory, a: word, w: word): Memory {
    (x: word) =>
      if x == a then Byte0(w)
      else if x == a + 1 then Byte1(w)
      else if x == a + 2 then Byte2(w)
      else if x == a + 3 then Byte3(w)
      else m(x)
  }

  ghost predicate SameMemory(m: Memory, n: Memory) {
    forall x :: m(x) == n(x)
  }

  lemma StoreReadWord(m: Memory, n: Memory, a: word)
    requires SameMemory(m, n)
    ensures SameMemory(StoreWord(m, a, ReadWord(n, a)), n)
  {
    hide Join, Byte0, Byte1, Byte2, Byte3;
    JoinBytes(n(a), n(a + 1), n(a + 2), n(a + 3));
  }

  /** Applying one entry, segment i being loaded at bases[i]. */
  ghost function LoadEntryAt(m: Memory, bases: seq<word>, e: Entry): Memory
    requires e.symseg < |bases| && e.datseg < |bases|
  {
    var p := Plus(bases[e.datseg], e.datoff);
    var x := Plus(bases[e.symseg], e.symoff);
    StoreWord(m, p, Apply(e.kind, ReadWord(m, p), x, p))
  }

  /** Every entry names segments that exist. */
  ghost predicate InRange(es: seq<Entry>, n: nat) {
    forall e :: e in es ==> e.symseg < n && e.datseg < n
  }

  ghost function LoadAll(m: Memory, bases: seq<word>, entries: seq<Entry>): Memory
    requires InRange(entries, |bases|)
  {
    if entries == [] then m
    else LoadEntryAt(LoadAll(m, bases, entries[..|entries| - 1]), bases, entries[|entries| - 1])
  }

  ghost function LinkBases(segs: seq<Segment>): (b: seq<word>)
    ensures |b| == |segs| && forall i :: 0 <= i < |segs| ==> b[i] == segs[i].vaddr
  {
    seq(|segs|, i requires 0 <= i < |segs| => segs[i].vaddr)
  }

  lemma EntriesInRange(segs: seq<Segment>, relas: seq<Rela>)
    requires forall r :: r in relas ==> Placed(segs, r)
    ensures InRange(EmitAll(segs, relas), |segs|)
  {
    if relas != [] {
      var n := |relas| - 1;
      assert Placed(segs, relas[n]);
      EntriesInRange(segs, relas[..n]);
      forall e | e in EmitAll(segs, relas)
        ensures e.symseg < |segs| && e.datseg < |segs|
      {
        assert e in EmitAll(segs, relas[..n]) || Emit(segs, relas[n]) == Some(e);
      }
    }
  }

  /** Offset 0 stands for address 0 as well as for the segment's start: an address is
      recovered from its offset unless it is 0 and the segment starts elsewhere. */
  lemma OffsetRecoversAddress(segs: seq<Segment>, a: word, i: nat)
    requires i < |segs|
    ensures Plus(segs[i].vaddr, SegOffset(segs, a, i)) == a <==> (a != 0 || segs[i].vaddr == 0)
  {
    PlusDisp(segs[i].vaddr, a);
    assert Plus(segs[i].vaddr, 0) == segs[i].vaddr;
    hide Plus, Disp;
  }

  lemma ZeroIsLeast(a: word)
    ensures a == 0 <==> a as int == 0
  {
  }

  /** Where an address moves when its segment i is loaded at bases[i]. */
  ghost function Moved(segs: seq<Segment>, bases: seq<word>, a: word, i: nat): word
    requires i < |segs| == |bases|
  {
    Plus(a, Disp(bases[i], segs[i].vaddr))
  }

  lemma OffsetMoves(b: word, v: word, a: word)
    ensures Plus(b, Disp(a, v)) == Plus(a, Disp(b, v))
  {
    assert Plus(b, a - v) == b + a - v;
    assert Plus(a, b - v) == b + a - v;
  }

  /** S + A can be told from an offset in its symbol's segment. */
  ghost predicate Expressible(segs: seq<Segment>, r: Rela) {
    var s := SegmentOf(segs, Anchor(r));
    r.kind != RNone && s.Some? ==> Target(r) != 0 || segs[s.value].vaddr == 0
  }

  /** Wherever the segments are loaded, an emitted entry resolves to the moved S + A and
      is applied at the moved place. */
  lemma EmittedResolves(segs: seq<Segment>, bases: seq<word>, r: Rela)
    requires |segs| == |bases| && Placed(segs, r) && Expressible(segs, r) && Emit(segs, r).Some?
    ensures var e := Emit(segs, r).value;
      && e.kind == r.kind && e.symseg < |segs| && e.datseg < |segs|
      && Plus(bases[e.symseg], e.symoff) == Moved(segs, bases, Target(r), e.symseg)
      && Plus(bases[e.datseg], e.datoff) == Moved(segs, bases, r.offset, e.datseg)
  {
    var e := Emit(segs, r).value;
    OffsetMovesWithSegment(segs, bases, Target(r), e.symseg);
    assert segs[e.datseg].Covers(r.offset);
    ZeroIsLeast(segs[e.datseg].vaddr);
    ZeroIsLeast(r.offset);
    OffsetMovesWithSegment(segs, bases, r.offset, e.datseg);
    hide Plus, Disp;
  }

  lemma OffsetMovesWithSegment(segs: seq<Segment>, bases: seq<word>, a: word, i: nat)
    requires i < |segs| == |bases| && (a != 0 || segs[i].vaddr == 0)
    ensures Plus(bases[i], SegOffset(segs, a, i)) == Moved(segs, bases, a, i)
  {
    OffsetMoves(bases[i], segs[i].vaddr, a);
    assert Disp(0, 0) == 0;
    hide Plus, Disp;
  }

  // ---- the image is preserved ----

  /** What a loaded table entry says about the image m: resolving it changes nothing; or it
      is one of the entries that are kept without a symbol and an addend. */
  ghost predicate Faithful(m: Memory, r: Rela) {
    || r.kind == RNone
    || ((r.kind == ThmPc11 || r.kind == V4bx) && r.symbol == None && r.addend == 0)
    || Apply(r.kind, ReadWord(m, r.offset), Target(r), r.offset) == ReadWord(m, r.offset)
  }

  lemma LoadedIsFaithful(symtab: seq<Symbol>, text: Section, rel: Rel, m: Memory)
    requires text.at(rel.offset) == ReadWord(m, rel.offset)
    requires LoadRel(symtab, text, rel).Some?
    ensures Faithful(m, LoadRel(symtab, text, rel).value)
  {
    hide Apply, DecodeTarget, SymbolPart, Plus, Disp, ReadWord;
    var kind := if rel.kind == ThmJump24 then ThmCall else rel.kind;
    if IsNormal(kind) && rel.sym < |symtab| {
      RecoveredAddendKeepsWord(kind, ReadWord(m, rel.offset), symtab[rel.sym].value, rel.offset);
    }
  }

  lemma DiscardedIsFaithful(segs: seq<Segment>, m: Memory, r: Rela)
    requires Faithful(m, r)
    ensures Faithful(m, Discard(segs, r)) && Placed(segs, Discard(segs, r))
  {
    hide Apply, Plus, ReadWord, Segment.Covers;
  }

  /** Loading with every segment at its link address writes back the image that was converted. */
  lemma {:induction false} ImagePreserved(segs: seq<Segment>, m: Memory, relas: seq<Rela>)
    requires forall r :: r in relas ==> Placed(segs, r) && Faithful(m, r) && Expressible(segs, r)
    ensures InRange(EmitAll(segs, relas), |segs|)
    ensures SameMemory(LoadAll(m, LinkBases(segs), EmitAll(segs, relas)), m)
  {
    EntriesInRange(segs, relas);
    if relas != [] {
      var n := |relas| - 1;
      var r := relas[n];
      assert r in relas;
      ImagePreserved(segs, m, relas[..n]);
      var before := EmitAll(segs, relas[..n]);
      var e := Emit(segs, r);
      if e.Some? {
        assert (before + [e.value])[..|before|] == before;
        EntryKeepsImage(segs, LoadAll(m, LinkBases(segs), before), m, r);
      } else {
        assert before + [] == before;
      }
    }
  }

  lemma EntryKeepsImage(segs: seq<Segment>, m: Memory, image: Memory, r: Rela)
    requires SameMemory(m, image) && Placed(segs, r) && Faithful(image, r) && Expressible(segs, r)
    requires Emit(segs, r).Some?
    ensures var e := Emit(segs, r).value; e.symseg < |segs| && e.datseg < |segs|
    ensures SameMemory(LoadEntryAt(m, LinkBases(segs), Emit(segs, r).value), image)
  {
    hide Plus, Disp, Apply, ReadWord, StoreWord, Target, SegmentOf, Expressible, Placed, Moved;
    var e, bases := Emit(segs, r).value, LinkBases(segs);
    EmittedResolves(segs, bases, r);
    UnmovedAddress(segs, Target(r), e.symseg);
    UnmovedAddress(segs, r.offset, e.datseg);
    var w := ReadWord(image, r.offset);
    SameWord(m, image, r.offset);
    LeftAlone(r.kind, w, Target(r), r.offset);
    StoreReadWord(m, image, r.offset);
  }

  lemma SameWord(m: Memory, n: Memory, a: word)
    requires SameMemory(m, n)
    ensures ReadWord(m, a) == ReadWord(n, a)
  {
  }

  lemma LeftAlone(kind: RelType, w: word, target: word, p: word)
    ensures kind == ThmPc11 || kind == V4bx ==> Apply(kind, w, target, p) == w
  {
  }

  lemma UnmovedAddress(segs: seq<Segment>, a: word, i: nat)
    requires i < |segs|
    ensures Moved(segs, LinkBases(segs), a, i) == a
  {
    assert Disp(segs[i].vaddr, segs[i].vaddr) == 0;
    assert Plus(a, 0) == a;
  }

  /** The whole way: a REL section loaded, invalid entries discarded, the rest emitted. The
      segments may have grown in between, as they do when the module data is appended. */
  lemma ConversionPreservesImage(symtab: seq<Symbol>, text: Section, rels: seq<Rel>, segs: seq<Segment>,
                                 grown: seq<Segment>, relas: seq<Rela>, m: Memory)
    requires |relas| == |rels|
    requires forall i :: 0 <= i < |rels| ==>
      LoadRel(symtab, text, rels[i]).Some? && relas[i] == Discard(segs, LoadRel(symtab, text, rels[i]).value)
    requires forall i :: 0 <= i < |rels| ==> text.at(rels[i].offset) == ReadWord(m, rels[i].offset)
    requires forall a :: SegmentOf(segs, a).Some? ==> SegmentOf(grown, a).Some?
    requires forall r :: r in relas ==> Expressible(grown, r)
    ensures forall r :: r in relas ==> Placed(grown, r)
    ensures InRange(EmitAll(grown, relas), |grown|)
    ensures SameMemory(LoadAll(m, LinkBases(grown), EmitAll(grown, relas)), m)
  {
    hide LoadRel, Discard, ReadWord;
    forall r | r in relas
      ensures Placed(grown, r) && Faithful(m, r)
    {
      var i :| 0 <= i < |relas| && relas[i] == r;
      LoadedIsFaithful(symtab, text, rels[i], m);
      DiscardedIsFaithful(segs, m, LoadRel(symtab, text, rels[i]).value);
    }
    ImagePreserved(grown, m, relas);
  }

  /** A record says, at the link addresses: this type, applied at p, with target x. */
  ghost predicate Says(segs: seq<Segment>, e: Entry, t: RelType, p: word, x: word) {
    && e.symseg < |segs| && e.datseg < |segs| && e.kind == t
    && Plus(segs[e.datseg].vaddr, e.datoff) == p && Plus(segs[e.symseg].vaddr, e.symoff) == x
  }

  lemma {:induction false} EmittedIn(segs: seq<Segment>, relas: seq<Rela>, i: nat)
    requires (forall r :: r in relas ==> Placed(segs, r)) && i < |relas| && Emit(segs, relas[i]).Some?
    ensures Emit(segs, relas[i]).value in EmitAll(segs, relas)
  {
    hide Emit, Placed;
    var n := |relas| - 1;
    EmitsLast(segs, relas);
    if i < n {
      EmittedIn(segs, relas[..n], i);
    }
  }

  /** No reference is lost: every relocatable REL entry ends up as a record with its type, its place,
      and symbol plus recovered addend as its target. */
  lemma ConversionKeeps(symtab: seq<Symbol>, text: Section, rels: seq<Rel>, segs: seq<Segment>, grown: seq<Segment>,
                        relas: seq<Rela>, i: nat)
    requires |relas| == |rels| && i < |relas|
    requires forall i :: 0 <= i < |rels| ==>
      LoadRel(symtab, text, rels[i]).Some? && relas[i] == Discard(segs, LoadRel(symtab, text, rels[i]).value)
    requires forall a :: SegmentOf(segs, a).Some? ==> SegmentOf(grown, a).Some?
    requires Expressible(grown, relas[i]) && Relocatable(symtab, text, segs, grown, rels[i])
    ensures forall r :: r in relas ==> Placed(grown, r)
    ensures var rel := rels[i];
      exists e :: e in EmitAll(grown, relas)
        && Says(grown, e, KindOf(rel), rel.offset, Resolved(KindOf(rel), text.at(rel.offset), symtab[rel.sym].value, rel.offset))
  {
    hide LoadRel, Discard, Target, Expressible, EmitAll, Resolved, Plus, Disp;
    DiscardedArePlaced(symtab, text, rels, segs, grown, relas);
    var r, rel := relas[i], rels[i];
    assert r in relas;
    RelocatableIsActive(symtab, text, segs, grown, rel);
    LoadedTarget(segs, symtab, text, rel);
    EmitsActive(grown, r);
    hide Relocatable, Active, Emit;
    EmittedIn(grown, relas, i);
    EmittedResolves(grown, LinkBases(grown), r);
    var e := Emit(grown, r).value;
    UnmovedAddress(grown, Target(r), e.symseg);
    UnmovedAddress(grown, r.offset, e.datseg);
  }

  lemma WiderCovers(s: Segment, extra: word, a: word)
    requires s.Covers(a) && Plus(s.vaddr, s.memsz) as int <= Plus(Plus(s.vaddr, s.memsz), extra) as int
    ensures Segment(s.kind, s.vaddr, Plus(s.memsz, extra)).Covers(a)
  {
    PlusAssociates(s.vaddr, s.memsz, extra);
    hide Plus;
  }

  /** Appending `extra` bytes to segment k keeps every covered address covered, as long as
      the segment does not reach the end of the address space. */
  lemma GrowingKeepsCover(segs: seq<Segment>, k: nat, extra: word, a: word)
    requires k < |segs|
    requires Plus(segs[k].vaddr, segs[k].memsz) as int <= Plus(Plus(segs[k].vaddr, segs[k].memsz), extra) as int
    requires SegmentOf(segs, a).Some?
    ensures SegmentOf(segs[k := Segment(segs[k].kind, segs[k].vaddr, Plus(segs[k].memsz, extra))], a).Some?
  {
    hide Segment.Covers, Plus;
    var i := SegmentOf(segs, a).value;
    var grown := segs[k := Segment(segs[k].kind, segs[k].vaddr, Plus(segs[k].memsz, extra))];
    if i == k {
      WiderCovers(segs[k], extra, a);
    }
    assert grown[i].Covers(a) && grown[i].kind != SHT_ARM_EXIDX;
  }

  // ---- loading elsewhere ----

  /** The entry is emitted and rewrites the word at its place. */
  ghost predicate Active(segs: seq<Segment>, r: Rela) {
    IsNormal(r.kind) && SegmentOf(segs, r.offset).Some? && SegmentOf(segs, Anchor(r)).Some?
  }

  /** The place of an active entry, and its S + A, after the segments have moved. */
  ghost function MovedPlace(segs: seq<Segment>, bases: seq<word>, r: Rela): word
    requires |segs| == |bases| && Active(segs, r)
  {
    Moved(segs, bases, r.offset, SegmentOf(segs, r.offset).value)
  }

  ghost function MovedTarget(segs: seq<Segment>, bases: seq<word>, r: Rela): word
    requires |segs| == |bases| && Active(segs, r)
  {
    Moved(segs, bases, Target(r), SegmentOf(segs, Anchor(r)).value)
  }

  /** Address a is one of the four of the word at p. */
  predicate InWord(a: word, p: word) {
    a == p || a == p + 1 || a == p + 2 || a == p + 3
  }

  /** The words at p and q share no byte. */
  predicate Apart(p: word, q: word) {
    !InWord(p, q) && !InWord(q, p)
  }

  lemma NextBytes(p: word, q: word)
    ensures (p + 1 == q + 1 ==> p == q) && (p + 1 == q + 2 ==> p == q + 1) && (p + 1 == q + 3 ==> p == q + 2)
    ensures (p + 2 == q + 1 ==> q == p + 1) && (p + 2 == q + 2 ==> p == q) && (p + 2 == q + 3 ==> p == q + 1)
    ensures (p + 3 == q + 1 ==> q == p + 2) && (p + 3 == q + 2 ==> q == p + 1) && (p + 3 == q + 3 ==> p == q)
  {
  }

  lemma ApartBytes(p: word, q: word)
    requires Apart(p, q)
    ensures !InWord(p, q) && !InWord(p + 1, q) && !InWord(p + 2, q) && !InWord(p + 3, q)
  {
    NextBytes(p, q);
  }

  lemma BytesJoin(w: word)
    ensures Join(Byte0(w), Byte1(w), Byte2(w), Byte3(w)) == w
  {
  }

  lemma ReadStored(m: Memory, p: word, w: word)
    ensures ReadWord(StoreWord(m, p, w), p) == w
  {
    BytesJoin(w);
    assert p + 1 != p && p + 2 != p && p + 3 != p && p + 2 != p + 1 && p + 3 != p + 1 && p + 3 != p + 2;
    hide Join, Byte0, Byte1, Byte2, Byte3;
  }

  lemma StoreKeepsOther(m: Memory, q: word, w: word, a: word)
    requires !InWord(a, q)
    ensures StoreWord(m, q, w)(a) == m(a)
  {
  }

  /** An entry rewrites the four bytes at its place, if it is active, and no others. */
  lemma EntryStores(segs: seq<Segment>, bases: seq<word>, m: Memory, r: Rela)
    requires |segs| == |bases| && Placed(segs, r) && Expressible(segs, r) && Emit(segs, r).Some?
    ensures var e := Emit(segs, r).value; e.symseg < |bases| && e.datseg < |bases|
    ensures Active(segs, r) ==>
              var p, x := MovedPlace(segs, bases, r), MovedTarget(segs, bases, r);
              SameMemory(LoadEntryAt(m, bases, Emit(segs, r).value), StoreWord(m, p, Apply(r.kind, ReadWord(m, p), x, p)))
    ensures !Active(segs, r) ==> SameMemory(LoadEntryAt(m, bases, Emit(segs, r).value), m)
  {
    EmittedResolves(segs, bases, r);
    var e := Emit(segs, r).value;
    if !Active(segs, r) {
      var p := Plus(bases[e.datseg], e.datoff);
      StoreReadWord(m, m, p);
      hide Plus, Disp, ReadWord, StoreWord;
      assert Apply(r.kind, ReadWord(m, p), Plus(bases[e.symseg], e.symoff), p) == ReadWord(m, p);
    }
    hide Plus, Disp, Apply, ReadWord, StoreWord;
  }

  /** With the segments loaded elsewhere, the word that one entry produces refers to the moved
      S + A. */
  lemma MovedTargetDecodes(segs: seq<Segment>, bases: seq<word>, m: Memory, r: Rela)
    requires |segs| == |bases| && Placed(segs, r) && Expressible(segs, r) && Active(segs, r)
    ensures Emit(segs, r).Some?
    ensures var e := Emit(segs, r).value;
      && e.symseg < |bases| && e.datseg < |bases|
      && var p, x := MovedPlace(segs, bases, r), MovedTarget(segs, bases, r);
         var w := Apply(r.kind, ReadWord(m, p), x, p);
         SameMemory(LoadEntryAt(m, bases, e), StoreWord(m, p, w)) && RefersTo(r.kind, w, x, p)
  {
    EmitsActive(segs, r);
    hide Emit, LoadEntryAt, StoreWord, ReadWord, Apply, MovedPlace, MovedTarget, RefersTo, Expressible;
    EntryStores(segs, bases, m, r);
    var p, x := MovedPlace(segs, bases, r), MovedTarget(segs, bases, r);
    AppliedTargetDecodes(r.kind, ReadWord(m, p), x, p);
  }

  lemma EmitsActive(segs: seq<Segment>, r: Rela)
    requires Active(segs, r) && Placed(segs, r)
    ensures Emit(segs, r).Some?
  {
  }

  lemma LoadsLast(m: Memory, bases: seq<word>, es: seq<Entry>, e: Entry)
    requires InRange(es, |bases|) && e.symseg < |bases| && e.datseg < |bases|
    ensures LoadAll(m, bases, es + [e]) == LoadEntryAt(LoadAll(m, bases, es), bases, e)
  {
    hide LoadEntryAt;
    assert (es + [e])[..|es|] == es;
  }

  lemma EmitsLast(segs: seq<Segment>, relas: seq<Rela>)
    requires relas != [] && forall r :: r in relas ==> Placed(segs, r)
    ensures Placed(segs, relas[|relas| - 1]) && forall r :: r in relas[..|relas| - 1] ==> Placed(segs, r)
    ensures EmitAll(segs, relas) == EmitAll(segs, relas[..|relas| - 1]) + Emitted(Emit(segs, relas[|relas| - 1]))
  {
    hide Emit, Emitted, Placed;
  }

  lemma EmittedInRange(es: seq<Entry>, o: Option<Entry>, n: nat)
    requires InRange(es + Emitted(o), n)
    ensures o.Some? ==> o.value.symseg < n && o.value.datseg < n
  {
    if o.Some? {
      assert o.value == (es + Emitted(o))[|es|];
    }
  }

  /** One more entry after those before it. */
  lemma LoadOneMore(segs: seq<Segment>, bases: seq<word>, m: Memory, relas: seq<Rela>)
    requires |segs| == |bases| && relas != []
    requires forall r :: r in relas ==> Placed(segs, r)
    ensures InRange(EmitAll(segs, relas), |bases|)
    ensures InRange(EmitAll(segs, relas[..|relas| - 1]), |bases|)
    ensures var e := Emit(segs, relas[|relas| - 1]); e.Some? ==> e.value.symseg < |bases| && e.value.datseg < |bases|
    ensures var n := |relas| - 1;
      var before := LoadAll(m, bases, EmitAll(segs, relas[..n]));
      var e := Emit(segs, relas[n]);
      LoadAll(m, bases, EmitAll(segs, relas)) == if e.Some? then LoadEntryAt(before, bases, e.value) else before
  {
    hide Emit, EmitAll, LoadEntryAt, LoadAll, Placed, InRange;
    EntriesInRange(segs, relas);
    EmitsLast(segs, relas);
    var n := |relas| - 1;
    EntriesInRange(segs, relas[..n]);
    var es, e := EmitAll(segs, relas[..n]), Emit(segs, relas[n]);
    EmittedInRange(es, e, |bases|);
    if e.Some? {
      LoadsLast(m, bases, es, e.value);
    } else {
      assert es + [] == es;
    }
  }

  /** Every byte outside the words that are relocated stays as it is. */
  lemma {:induction false} LoadKeepsOthers(segs: seq<Segment>, bases: seq<word>, m: Memory, relas: seq<Rela>, a: word)
    requires |segs| == |bases| && forall r :: r in relas ==> Placed(segs, r) && Expressible(segs, r)
    requires forall r :: r in relas && Active(segs, r) ==> !InWord(a, MovedPlace(segs, bases, r))
    ensures InRange(EmitAll(segs, relas), |bases|)
    ensures LoadAll(m, bases, EmitAll(segs, relas))(a) == m(a)
  {
    hide Emit, LoadEntryAt, InWord, StoreWord, ReadWord, Apply, Active, MovedPlace, MovedTarget, Placed, Expressible;
    if relas != [] {
      var n := |relas| - 1;
      LoadOneMore(segs, bases, m, relas);
      LoadKeepsOthers(segs, bases, m, relas[..n], a);
      var before, r := LoadAll(m, bases, EmitAll(segs, relas[..n])), relas[n];
      assert r in relas;
      if Emit(segs, r).Some? {
        EntryStores(segs, bases, before, r);
        if Active(segs, r) {
          var p, x := MovedPlace(segs, bases, r), MovedTarget(segs, bases, r);
          StoreKeepsOther(before, p, Apply(r.kind, ReadWord(before, p), x, p), a);
        }
      }
    }
  }

  lemma LoadKeepsWord(segs: seq<Segment>, bases: seq<word>, m: Memory, relas: seq<Rela>, p: word)
    requires |segs| == |bases| && forall r :: r in relas ==> Placed(segs, r) && Expressible(segs, r)
    requires forall r :: r in relas && Active(segs, r) ==> Apart(p, MovedPlace(segs, bases, r))
    ensures InRange(EmitAll(segs, relas), |bases|)
    ensures ReadWord(LoadAll(m, bases, EmitAll(segs, relas)), p) == ReadWord(m, p)
  {
    forall r | r in relas && Active(segs, r)
      ensures var q := MovedPlace(segs, bases, r); !InWord(p, q) && !InWord(p + 1, q) && !InWord(p + 2, q) && !InWord(p + 3, q)
    {
      ApartBytes(p, MovedPlace(segs, bases, r));
    }
    hide Active, MovedPlace, InWord, Apart, Join, EmitAll, LoadAll, Placed, Expressible;
    LoadKeepsOthers(segs, bases, m, relas, p);
    LoadKeepsOthers(segs, bases, m, relas, p + 1);
    LoadKeepsOthers(segs, bases, m, relas, p + 2);
    LoadKeepsOthers(segs, bases, m, relas, p + 3);
  }

  /** No two active entries of the table share a byte. */
  ghost predicate PlacesApart(segs: seq<Segment>, bases: seq<word>, relas: seq<Rela>)
    requires |segs| == |bases|
  {
    forall j, k :: 0 <= j < |relas| && 0 <= k < |relas| && j != k && Active(segs, relas[j]) && Active(segs, relas[k]) ==>
      Apart(MovedPlace(segs, bases, relas[j]), MovedPlace(segs, bases, relas[k]))
  }

  /** With the segments loaded anywhere, a run over the whole table leaves, at the moved place
      of every active entry, the word relocated to the moved S + A, which refers to it. */
  lemma {:induction false} LoadedRefersToMoved(segs: seq<Segment>, bases: seq<word>, m: Memory, relas: seq<Rela>, i: nat)
    requires |segs| == |bases| && forall r :: r in relas ==> Placed(segs, r) && Expressible(segs, r)
    requires i < |relas| && Active(segs, relas[i]) && PlacesApart(segs, bases, relas)
    ensures InRange(EmitAll(segs, relas), |bases|)
    ensures var r := relas[i];
      var p, x := MovedPlace(segs, bases, r), MovedTarget(segs, bases, r);
      var w := ReadWord(LoadAll(m, bases, EmitAll(segs, relas)), p);
      w == Apply(r.kind, ReadWord(m, p), x, p) && RefersTo(r.kind, w, x, p)
  {
    hide Emit, LoadEntryAt, Apart, StoreWord, ReadWord, Apply, MovedPlace, MovedTarget, Expressible, EmitAll, LoadAll, RefersTo;
    var n, r := |relas| - 1, relas[i];
    var p, x := MovedPlace(segs, bases, r), MovedTarget(segs, bases, r);
    LoadOneMore(segs, bases, m, relas);
    var before, last := LoadAll(m, bases, EmitAll(segs, relas[..n])), relas[n];
    assert last in relas;
    if i == n {
      forall s | s in relas[..n] && Active(segs, s)
        ensures Apart(p, MovedPlace(segs, bases, s))
      {
        var j :| 0 <= j < n && relas[j] == s;
      }
      LoadKeepsWord(segs, bases, m, relas[..n], p);
      MovedTargetDecodes(segs, bases, before, r);
      ReadStored(before, p, Apply(r.kind, ReadWord(before, p), x, p));
      SameWord(LoadEntryAt(before, bases, Emit(segs, r).value), StoreWord(before, p, Apply(r.kind, ReadWord(before, p), x, p)), p);
    } else {
      LoadedRefersToMoved(segs, bases, m, relas[..n], i);
      if Emit(segs, last).Some? {
        EntryKeepsWord(segs, bases, before, last, p);
      }
    }
  }

  lemma EntryKeepsWord(segs: seq<Segment>, bases: seq<word>, m: Memory, r: Rela, p: word)
    requires |segs| == |bases| && Placed(segs, r) && Expressible(segs, r) && Emit(segs, r).Some?
    requires Active(segs, r) ==> Apart(p, MovedPlace(segs, bases, r))
    ensures var e := Emit(segs, r).value; e.symseg < |bases| && e.datseg < |bases|
    ensures ReadWord(LoadEntryAt(m, bases, Emit(segs, r).value), p) == ReadWord(m, p)
  {
    hide Emit, LoadEntryAt, Apply, MovedPlace, MovedTarget, Expressible, Join, Active, InWord, Apart;
    EntryStores(segs, bases, m, r);
    if Active(segs, r) {
      var q, x := MovedPlace(segs, bases, r), MovedTarget(segs, bases, r);
      var w := Apply(r.kind, ReadWord(m, q), x, q);
      ApartBytes(p, q);
      hide StoreWord;
      StoreKeepsOther(m, q, w, p);
      StoreKeepsOther(m, q, w, p + 1);
      StoreKeepsOther(m, q, w, p + 2);
      StoreKeepsOther(m, q, w, p + 3);
    }
  }

  lemma MovesApart(p: word, a: word, b: word)
    ensures Disp(Plus(p, a), Plus(p, b)) == Disp(a, b)
  {
    hide *;
    PlusDisp(b, a);
    PlusAssociates(p, b, Disp(a, b));
    DispPlus(Plus(p, b), Disp(a, b));
  }

  /** How far segment i is moved. */
  ghost function Shift(segs: seq<Segment>, bases: seq<word>, i: nat): word
    requires i < |segs| == |bases|
  {
    Disp(bases[i], segs[i].vaddr)
  }

  /** What the move asks of a reference of type t against a symbol at `value`, from place p, whose
      word the linker had resolved to y. */
  ghost predicate Movable(segs: seq<Segment>, bases: seq<word>, t: RelType, value: word, p: word, y: word)
    requires |segs| == |bases| && SegmentOf(segs, value).Some? && SegmentOf(segs, p).Some?
  {
    var a, b := Shift(segs, bases, SegmentOf(segs, value).value), Shift(segs, bases, SegmentOf(segs, p).value);
    MovesExactly(t, value, y, a, Disp(a, b))
  }

  /** A REL entry that must end up as a record: it relocates a covered word against a symbol that is
      defined in a section and whose value lies in a segment. */
  ghost predicate Relocatable(symtab: seq<Symbol>, text: Section, segs: seq<Segment>, grown: seq<Segment>, rel: Rel) {
    && Relocates(symtab, text, rel) && SegmentOf(segs, rel.offset).Some?
    && symtab[rel.sym].shndx != 0 && symtab[rel.sym].shndx != 0xFFF1 && symtab[rel.sym].shndx != 0xFFF2
    && SegmentOf(grown, symtab[rel.sym].value).Some?
  }

  /** Exactly these entries become active entries of the table. */
  lemma RelocatableIsActive(symtab: seq<Symbol>, text: Section, segs: seq<Segment>, grown: seq<Segment>, rel: Rel)
    requires LoadRel(symtab, text, rel).Some?
    requires forall a :: SegmentOf(segs, a).Some? ==> SegmentOf(grown, a).Some?
    ensures var r := Discard(segs, LoadRel(symtab, text, rel).value);
      && (Active(grown, r) <==> Relocatable(symtab, text, segs, grown, rel))
      && (Active(grown, r) ==> r.kind == KindOf(rel) && r.offset == rel.offset && r.symbol == Some(symtab[rel.sym]))
  {
    LoadsIff(symtab, text, rel);
    DiscardsInvalid(segs, LoadRel(symtab, text, rel).value);
    hide Discard, LoadRel, Segment.Covers, Plus, Disp;
  }

  lemma LoadedTarget(segs: seq<Segment>, symtab: seq<Symbol>, text: Section, rel: Rel)
    requires Relocates(symtab, text, rel) && LoadRel(symtab, text, rel).Some?
    ensures var r := Discard(segs, LoadRel(symtab, text, rel).value);
      Target(r) == Resolved(KindOf(rel), text.at(rel.offset), symtab[rel.sym].value, rel.offset)
  {
    LoadsIff(symtab, text, rel);
    hide LoadRel, Resolved, Plus, Segment.Covers;
  }

  lemma MovedResolves(segs: seq<Segment>, bases: seq<word>, r: Rela, z: word, y: word, w: word)
    requires |segs| == |bases| && Active(segs, r) && r.symbol.Some?
    requires Movable(segs, bases, r.kind, r.symbol.value.value, r.offset, y)
    requires w == Apply(r.kind, z, y, r.offset) && Target(r) == Resolved(r.kind, w, r.symbol.value.value, r.offset)
    ensures var q, x := MovedPlace(segs, bases, r), MovedTarget(segs, bases, r);
      Apply(r.kind, w, x, q)
      == Apply(r.kind, z, Plus(y, Shift(segs, bases, SegmentOf(segs, r.symbol.value.value).value)), q)
  {
    hide Apply, Resolved, Target, MovesExactly, Plus, Disp;
    var value := r.symbol.value.value;
    var a, b := Shift(segs, bases, SegmentOf(segs, value).value), Shift(segs, bases, SegmentOf(segs, r.offset).value);
    var q, x := MovedPlace(segs, bases, r), MovedTarget(segs, bases, r);
    assert q == Plus(r.offset, b) && x == Plus(Target(r), a);
    MovesApart(r.offset, a, b);
    ResolvedMoves(r.kind, z, y, value, r.offset, q, a);
    ApplyTwice(r.kind, z, y, r.offset, x, q);
  }

  /** Where an address of segs ends up. */
  ghost function MovedAddress(segs: seq<Segment>, bases: seq<word>, a: word): word
    requires |segs| == |bases| && SegmentOf(segs, a).Some?
  {
    Plus(a, Shift(segs, bases, SegmentOf(segs, a).value))
  }

  /** Converting and loading elsewhere is linking there. REL entry i relocates a covered word against a
      symbol in a segment, and says that the linker resolved the instruction z to some target y. Once
      the section is loaded, invalid entries are discarded and the rest is emitted, a loader that puts
      the segments at any bases leaves at the moved place the instruction z resolved to y moved along
      with the symbol's segment. */
  lemma ConversionRebases(symtab: seq<Symbol>, text: Section, rels: seq<Rel>, segs: seq<Segment>, grown: seq<Segment>,
                          relas: seq<Rela>, bases: seq<word>, m: Memory, i: nat, z: word, y: word)
    requires |relas| == |rels| && |grown| == |bases| && i < |relas|
    requires forall i :: 0 <= i < |rels| ==>
      LoadRel(symtab, text, rels[i]).Some? && relas[i] == Discard(segs, LoadRel(symtab, text, rels[i]).value)
    requires forall a :: SegmentOf(segs, a).Some? ==> SegmentOf(grown, a).Some?
    requires forall r :: r in relas ==> Expressible(grown, r)
    requires PlacesApart(grown, bases, relas)
    requires Relocatable(symtab, text, segs, grown, rels[i])
    requires Movable(grown, bases, KindOf(rels[i]), symtab[rels[i].sym].value, rels[i].offset, y)
    requires text.at(rels[i].offset) == Apply(KindOf(rels[i]), z, y, rels[i].offset)
    requires ReadWord(m, MovedAddress(grown, bases, rels[i].offset)) == text.at(rels[i].offset)
    ensures forall r :: r in relas ==> Placed(grown, r)
    ensures InRange(EmitAll(grown, relas), |bases|)
    ensures var q := MovedAddress(grown, bases, rels[i].offset);
      ReadWord(LoadAll(m, bases, EmitAll(grown, relas)), q)
      == Apply(KindOf(rels[i]), z, Plus(y, Shift(grown, bases, SegmentOf(grown, symtab[rels[i].sym].value).value)), q)
  {
    hide LoadRel, Discard, ReadWord, Apply, Target, Expressible, EmitAll, LoadAll, Movable, MovedTarget,
         Resolved, PlacesApart, RefersTo, Plus, Disp;
    DiscardedArePlaced(symtab, text, rels, segs, grown, relas);
    var r, rel := relas[i], rels[i];
    RelocatableIsActive(symtab, text, segs, grown, rel);
    assert MovedPlace(grown, bases, r) == MovedAddress(grown, bases, rel.offset);
    hide Relocatable, MovedPlace, MovedAddress, Active;
    LoadedTarget(segs, symtab, text, rel);
    LoadedRefersToMoved(grown, bases, m, relas, i);
    MovedResolves(grown, bases, r, z, y, text.at(rel.offset));
  }

  lemma DiscardedArePlaced(symtab: seq<Symbol>, text: Section, rels: seq<Rel>, segs: seq<Segment>, grown: seq<Segment>,
                           relas: seq<Rela>)
    requires |relas| == |rels|
    requires forall i :: 0 <= i < |rels| ==>
      LoadRel(symtab, text, rels[i]).Some? && relas[i] == Discard(segs, LoadRel(symtab, text, rels[i]).value)
    requires forall a :: SegmentOf(segs, a).Some? ==> SegmentOf(grown, a).Some?
    ensures forall r :: r in relas ==> Placed(grown, r)
  {
    hide LoadRel;
    forall r | r in relas
      ensures Placed(grown, r)
    {
      var i :| 0 <= i < |relas| && relas[i] == r;
      DiscardPlaces(segs, LoadRel(symtab, text, rels[i]).value);
    }
  }

  lemma DiscardPlaces(segs: seq<Segment>, r: Rela)
    ensures Placed(segs, Discard(segs, r))
  {
    hide Segment.Covers;
  }

  /** An entry kept without a symbol reaches the output exactly when a segment covers address 0. */
  lemma KeptWithoutSymbol(segs: seq<Segment>, r: Rela)
    requires r.kind == V4bx && r.symbol == None && r.addend == 0 && Placed(segs, r)
    ensures Emit(segs, r).Some? <==> SegmentOf(segs, 0).Some?
  {
  }
}
