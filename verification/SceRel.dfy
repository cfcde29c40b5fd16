/** The packed relocation records (sce-elf.h, sce-elf.c): the long record of `.sce.rel` and
    the two records attached to variable imports, with the readings that undo the packing. */
module SceRel {
  import opened ArmReloc

  /** r_info's type byte. */
  function RelCode(t: RelType): bv8 {
    match t
    case RNone => 0 case Abs32 => 2 case Rel32 => 3 case ThmCall => 10 case Call => 28
    case Jump24 => 29 case ThmJump24 => 30 case Target1 => 38 case V4bx => 40 case Target2 => 41
    case Prel31 => 42 case MovwAbsNc => 43 case MovtAbs => 44 case ThmMovwAbsNc => 47
    case ThmMovtAbs => 48 case ThmPc11 => 102 case OtherType(c) => c
  }

  function RelTypeOf(c: bv8): RelType {
    if c == 0 then RNone else if c == 2 then Abs32 else if c == 3 then Rel32
    else if c == 10 then ThmCall else if c == 28 then Call else if c == 29 then Jump24
    else if c == 30 then ThmJump24 else if c == 38 then Target1 else if c == 40 then V4bx
    else if c == 41 then Target2 else if c == 42 then Prel31 else if c == 43 then MovwAbsNc
    else if c == 44 then MovtAbs else if c == 47 then ThmMovwAbsNc else if c == 48 then ThmMovtAbs
    else if c == 102 then ThmPc11 else OtherType(c)
  }

  /** The numbers of elf-defs.h, which are those of ELF for the ARM architecture (section 4.6.1.2). */
  lemma TypeNumbers(c: bv8)
    ensures RelTypeOf(c) == Call <==> c == 28
    ensures RelTypeOf(c) == Jump24 <==> c == 29
    ensures RelTypeOf(c) == Abs32 <==> c == 2
    ensures RelTypeOf(c) == Rel32 <==> c == 3
    ensures RelTypeOf(c) == Target1 <==> c == 38
    ensures RelTypeOf(c) == Target2 <==> c == 41
    ensures RelTypeOf(c) == Prel31 <==> c == 42
    ensures RelTypeOf(c) == MovwAbsNc <==> c == 43
    ensures RelTypeOf(c) == MovtAbs <==> c == 44
    ensures RelTypeOf(c) == ThmMovwAbsNc <==> c == 47
    ensures RelTypeOf(c) == ThmMovtAbs <==> c == 48
    ensures RelTypeOf(c) == ThmCall <==> c == 10
  {
  }

  // ---- the long record ----

  /** First word of the long record; the kind bits, r_code2 and r_dist2 are zero. */
  function LongWord(symseg: word, code: word, datseg: word): word {
    ((symseg & 0xF) << 4) | ((code & 0xFF) << 8) | ((datseg & 0xF) << 16)
  }

  lemma LongWordFields(symseg: word, code: word, datseg: word)
    ensures var w := LongWord(symseg, code, datseg);
      && w & 0xF == 0 && (w >> 4) & 0xF == symseg & 0xF
      && (w >> 8) & 0xFF == code & 0xFF && (w >> 16) & 0xF == datseg & 0xF && w >> 20 == 0
  {
  }

  // ---- records of variable imports ----

  /** `create_vstub_short_rel` / `create_vstub_long_rel`: a place and an addend. */
  datatype VarRel = VarRel(code: word, datseg: word, offset: word, addend: word) {
    predicate Fits() {
      code & 0xFF == code && datseg & 0xF == datseg
    }
  }

  /** The range test of `lookup_vstub_relas`: -32768 <= addend < 32768 as signed numbers. */
  predicate ShortAddend(addend: word) {
    addend + 0x8000 < 0x10000
  }

  function SignExtend16(x: word): word {
    if x & 0x8000 != 0 then (x & 0xFFFF) | 0xFFFF0000 else x & 0xFFFF
  }

  function ShortWord(code: word, datseg: word, addend: word): word {
    1 | ((datseg & 0xF) << 4) | ((code & 0xFF) << 8) | (addend << 16)
  }

  function LongVarWord(code: word, datseg: word): word {
    2 | ((datseg & 0xF) << 4) | ((code & 0xFF) << 8)
  }

  /** The words `sce_elf_module_info_encode` writes for one record. */
  function VarWords(r: VarRel): seq<word> {
    if ShortAddend(r.addend) then [ShortWord(r.code, r.datseg, r.addend), r.offset]
    else [LongVarWord(r.code, r.datseg), r.offset, r.addend]
  }

  function VarWordsOf(rs: seq<VarRel>): seq<word> {
    if rs == [] then [] else VarWords(rs[0]) + VarWordsOf(rs[1..])
  }

  /** rel_info_size: 8 bytes for a short record, 12 for a long one. */
  function RelInfoSize(rs: seq<VarRel>): nat {
    if rs == [] then 0 else (if ShortAddend(rs[0].addend) then 8 else 12) + RelInfoSize(rs[1..])
  }

  function KindOf(w: word): word {
    w & 0xF
  }

  function CodeOf(w: word): word {
    (w >> 8) & 0xFF
  }

  function DatsegOf(w: word): word {
    (w >> 4) & 0xF
  }

  function AddendOf(w: word): word {
    SignExtend16(w >> 16)
  }

  /** The reading of the records: the first word's low bits tell the two kinds apart. */
  function ReadVarRels(ws: seq<word>): seq<VarRel>
    decreases |ws|
  {
    if |ws| >= 2 && KindOf(ws[0]) == 1 then
      [VarRel(CodeOf(ws[0]), DatsegOf(ws[0]), ws[1], AddendOf(ws[0]))] + ReadVarRels(ws[2..])
    else if |ws| >= 3 && KindOf(ws[0]) == 2 then
      [VarRel(CodeOf(ws[0]), DatsegOf(ws[0]), ws[1], ws[2])] + ReadVarRels(ws[3..])
    else []
  }

  lemma ShortWordFields(code: word, datseg: word, addend: word)
    requires code & 0xFF == code && datseg & 0xF == datseg
    ensures var w := ShortWord(code, datseg, addend);
      && KindOf(w) == 1 && CodeOf(w) == code && DatsegOf(w) == datseg
      && w & 0xF == 1 && (w >> 4) & 0xF == datseg && (w >> 8) & 0xFF == code
  {
  }

  lemma ShortWordAddend(code: word, datseg: word, addend: word)
    ensures ShortWord(code, datseg, addend) >> 16 == addend & 0xFFFF
  {
  }

  lemma LongVarWordFields(code: word, datseg: word)
    requires code & 0xFF == code && datseg & 0xF == datseg
    ensures var w := LongVarWord(code, datseg);
      && KindOf(w) == 2 && CodeOf(w) == code && DatsegOf(w) == datseg
      && w & 0xF == 2 && (w >> 4) & 0xF == datseg && (w >> 8) & 0xFF == code && w >> 16 == 0
  {
  }

  lemma RawShortAddend(a: word)
    requires a + 0x8000 < 0x10000
    ensures (a & 0xFFFF) & 0x8000 != 0 ==> (a & 0xFFFF) | 0xFFFF0000 == a
    ensures (a & 0xFFFF) & 0x8000 == 0 ==> a & 0xFFFF == a
  {
  }

  lemma SignExtended16(a: word)
    ensures (a & 0xFFFF) & 0x8000 != 0 ==> SignExtend16(a & 0xFFFF) == (a & 0xFFFF) | 0xFFFF0000
    ensures (a & 0xFFFF) & 0x8000 == 0 ==> SignExtend16(a & 0xFFFF) == a & 0xFFFF
  {
  }

  lemma SixteenBits(a: word)
    requires a + 0x8000 < 0x10000
    ensures SignExtend16(a & 0xFFFF) == a
  {
    hide *;
    RawShortAddend(a);
    SignExtended16(a);
  }

  lemma ShortSixteenBits(a: word)
    requires ShortAddend(a)
    ensures SignExtend16(a & 0xFFFF) == a
  {
    hide SignExtend16;
    SixteenBits(a);
  }

  lemma AddendIsHigh(w: word)
    ensures AddendOf(w) == SignExtend16(w >> 16)
  {
    hide SignExtend16;
  }

  lemma ShortAddendSurvives(code: word, datseg: word, addend: word)
    requires ShortAddend(addend)
    ensures AddendOf(ShortWord(code, datseg, addend)) == addend
  {
    hide *;
    ShortSixteenBits(addend);
    ShortWordAddend(code, datseg, addend);
    AddendIsHigh(ShortWord(code, datseg, addend));
  }

  /** Both sizes are accounted exactly: the size the records add up to is the size written. */
  lemma {:induction false} VarWordsLength(rs: seq<VarRel>)
    ensures 4 * |VarWordsOf(rs)| == RelInfoSize(rs)
  {
    hide ShortAddend;
    if rs != [] {
      VarWordsLength(rs[1..]);
    }
  }

  lemma ShortRead(w: word, offset: word, rest: seq<word>)
    requires KindOf(w) == 1
    ensures ReadVarRels([w, offset] + rest) == [VarRel(CodeOf(w), DatsegOf(w), offset, AddendOf(w))] + ReadVarRels(rest)
  {
    hide KindOf, CodeOf, DatsegOf, AddendOf;
    assert ([w, offset] + rest)[2..] == rest;
  }

  lemma LongRead(w: word, offset: word, addend: word, rest: seq<word>)
    requires KindOf(w) == 2
    ensures ReadVarRels([w, offset, addend] + rest) == [VarRel(CodeOf(w), DatsegOf(w), offset, addend)] + ReadVarRels(rest)
  {
    hide KindOf, CodeOf, DatsegOf, AddendOf;
    assert ([w, offset, addend] + rest)[3..] == rest;
  }

  lemma OneRead(r: VarRel, rest: seq<word>)
    requires r.Fits()
    ensures ReadVarRels(VarWords(r) + rest) == [r] + ReadVarRels(rest)
  {
    hide ShortAddend, ShortWord, LongVarWord, KindOf, CodeOf, DatsegOf, AddendOf, ReadVarRels;
    if ShortAddend(r.addend) {
      ShortWordFields(r.code, r.datseg, r.addend);
      ShortAddendSurvives(r.code, r.datseg, r.addend);
      ShortRead(ShortWord(r.code, r.datseg, r.addend), r.offset, rest);
    } else {
      LongVarWordFields(r.code, r.datseg);
      LongRead(LongVarWord(r.code, r.datseg), r.offset, r.addend, rest);
    }
  }

  /** The records are read back: place, type and addend, the short addend sign-extended. */
  lemma {:induction false} VarWordsRead(rs: seq<VarRel>)
    requires forall r :: r in rs ==> r.Fits()
    ensures ReadVarRels(VarWordsOf(rs)) == rs
  {
    hide VarWords, VarRel.Fits;
    if rs != [] {
      VarWordsRead(rs[1..]);
      assert rs[0].Fits();
      hide ReadVarRels;
      OneRead(rs[0], VarWordsOf(rs[1..]));
      assert rs == [rs[0]] + rs[1..];
    }
  }
}
