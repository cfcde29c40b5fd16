/** Relocation of ARM and Thumb words: what the loader writes for each type
    (ELF for the ARM Architecture, ARM IHI 0044, section 4.6.1) and how the
    converter recovers targets and addends from already linked words (vita-elf.c). */
module ArmReloc {
  type word = bv32

  datatype RelType =
    | RNone | V4bx
    | Abs32 | Target1 | Rel32 | Target2 | Prel31
    | ThmCall | Call | Jump24
    | MovwAbsNc | MovtAbs | ThmMovwAbsNc | ThmMovtAbs
    | ThmJump24 | ThmPc11 | OtherType(code: bv8)

  /** `get_rel_handling` == REL_HANDLE_NORMAL. */
  predicate IsNormal(t: RelType) {
    match t
    case Abs32 | Target1 | Rel32 | Target2 | Prel31 | ThmCall | Call | Jump24
       | MovwAbsNc | MovtAbs | ThmMovwAbsNc | ThmMovtAbs => true
    case _ => false
  }

  /** The halfwords of a 32-bit Thumb instruction, first one high. */
  function ThumbShuffle(x: word): word {
    ((x & 0xFFFF0000) >> 16) | ((x & 0xFFFF) << 16)
  }

  // ---- words, halves and displacements ----

  /** Displacement of x from p, modulo 2^32. */
  function Disp(x: word, p: word): word {
    x - p
  }

  function Plus(p: word, d: word): word {
    p + d
  }

  function LowHalf(x: word): word {
    x & 0xFFFF
  }

  function HighHalf(x: word): word {
    x >> 16
  }

  function ToHigh(h: word): word {
    h << 16
  }

  function HighPart(x: word): word {
    x & 0xFFFF0000
  }

  function EvenPart(x: word): word {
    x & 0xFFFFFFFE
  }

  function Bit0(x: word): word {
    x & 1
  }

  /** Displacements a branch can carry: 25 signed bits, even; 26 signed bits, a multiple of 4. */
  predicate FitsThmBranch(d: word) {
    d & 1 == 0 && (d & 0xFF000000 == 0 || d & 0xFF000000 == 0xFF000000)
  }

  predicate FitsArmBranch(d: word) {
    d & 3 == 0 && (d & 0xFE000000 == 0 || d & 0xFE000000 == 0xFE000000)
  }

  function Low31(x: word): word {
    x & 0x7FFFFFFF
  }

  // ---- the fields, as the loader writes them and as the converter reads them ----

  function ThmBranch(w: word, disp: word): word {
    var s := (disp >> 24) & 1;
    var j1, j2 := ((disp >> 23) & 1) ^ s ^ 1, ((disp >> 22) & 1) ^ s ^ 1;
    ThumbShuffle((ThumbShuffle(w) & 0xF800D000)
                 | (s << 26) | (((disp >> 12) & 0x3FF) << 16)
                 | (j1 << 13) | (j2 << 11) | ((disp >> 1) & 0x7FF))
  }

  function LogicalNot(x: word): word {
    if x == 0 then 1 else 0
  }

  function SignMask(sign: word): word {
    if sign != 0 then 0xFF000000 else 0
  }

  function JoinThmBranch(imm11: word, imm10: word, i2: word, i1: word, sign: word, mask: word): word {
    ((imm11 | (imm10 << 11) | (i2 << 21) | (i1 << 22) | (sign << 23)) << 1) | mask
  }

  function ThmBranchDisp(data: word): word {
    var d := ThumbShuffle(data);
    var upper, lower := d >> 16, d & 0xFFFF;
    var sign := (upper >> 10) & 1;
    var j1, j2 := (lower >> 13) & 1, (lower >> 11) & 1;
    JoinThmBranch(lower & 0x7FF, upper & 0x3FF, LogicalNot(j2 ^ sign), LogicalNot(j1 ^ sign), sign, SignMask(sign))
  }

  function ArmBranch(w: word, disp: word): word {
    (w & 0xFF000000) | ((disp >> 2) & 0x00FFFFFF)
  }

  function SignExtend26(d: word): word {
    if d & 0x02000000 != 0 then d | 0xFC000000 else d
  }

  function ArmBranchDisp(data: word): word {
    SignExtend26((data & 0x00FFFFFF) << 2)
  }

  function ArmMov(w: word, imm16: word): word {
    (w & 0xFFF0F000) | ((imm16 & 0xF000) << 4) | (imm16 & 0xFFF)
  }

  function ArmMovImm(data: word): word {
    ((data & 0xF0000) >> 4) | (data & 0xFFF)
  }

  function ThmMov(w: word, imm16: word): word {
    ThumbShuffle((ThumbShuffle(w) & 0xFBF08F00)
                 | ((imm16 & 0xF000) << 4) | ((imm16 & 0x0800) << 15)
                 | ((imm16 & 0x0700) << 4) | (imm16 & 0xFF))
  }

  function ThmMovImm(data: word): word {
    var d := ThumbShuffle(data);
    (((d >> 16) & 0xF) << 12) | (((d >> 26) & 0x1) << 11) | (((d >> 12) & 0x7) << 8) | (d & 0xFF)
  }

  function Prel31Word(w: word, disp: word): word {
    (w & 0x80000000) | (disp & 0x7FFFFFFF)
  }

  // The encodings as the ARM Architecture Reference Manual (ARM DDI 0406C) draws them; a Thumb word holds
  // its first halfword in the low half.

  /** MOVW and MOVT, A1/A2 (sections A8.8.102 and A8.8.106): imm4 in bits 19:16, imm12 in bits 11:0. */
  lemma ArmMovFields(w: word, imm: word)
    requires imm & 0xFFFF == imm
    ensures var r := ArmMov(w, imm);
      (r >> 16) & 0xF == imm >> 12 && r & 0xFFF == imm & 0xFFF && r & 0xFFF0F000 == w & 0xFFF0F000
  {
  }

  /** T3/T1: imm4 in bits 3:0 and i in bit 10 of the first halfword, imm3 in bits 14:12 and imm8 in bits
      7:0 of the second. */
  lemma ThmMovFields(w: word, imm: word)
    requires imm & 0xFFFF == imm
    ensures var r := ThmMov(w, imm);
      && r & 0xF == imm >> 12 && (r >> 10) & 1 == (imm >> 11) & 1
      && (r >> 28) & 7 == (imm >> 8) & 7 && (r >> 16) & 0xFF == imm & 0xFF && r & 0x8F00FBF0 == w & 0x8F00FBF0
  {
  }

  /** B and BL, A1 (sections A8.8.18 and A8.8.25): imm24 holds the displacement in words. */
  lemma ArmBranchFields(w: word, d: word)
    ensures var r := ArmBranch(w, d); r & 0xFFFFFF == (d >> 2) & 0xFFFFFF && r & 0xFF000000 == w & 0xFF000000
  {
  }

  /** BL, T1, and B.W, T4: S and imm10 in the first halfword, J1, J2 and imm11 in the second; the two bits
      below the sign are J1 XOR NOT S and J2 XOR NOT S. */
  lemma ThmBranchFields(w: word, d: word)
    ensures var r := ThmBranch(w, d);
      && (r >> 10) & 1 == (d >> 24) & 1 && r & 0x3FF == (d >> 12) & 0x3FF && (r >> 16) & 0x7FF == (d >> 1) & 0x7FF
      && ((r >> 29) & 1) ^ ((r >> 10) & 1) ^ 1 == (d >> 23) & 1 && ((r >> 27) & 1) ^ ((r >> 10) & 1) ^ 1 == (d >> 22) & 1
      && r & 0xD000F800 == w & 0xD000F800
  {
  }

  // Each field written with what was read from it changes nothing; a written value is read
  // back as far as the field is wide; the last of two writes wins.

  /** The same displacement without case distinctions. */
  function ThmBranchBits(data: word): word {
    var d := ThumbShuffle(data);
    var s := (d >> 26) & 1;
    JoinThmBranch(d & 0x7FF, (d >> 16) & 0x3FF, ((d >> 11) & 1) ^ s ^ 1, ((d >> 13) & 1) ^ s ^ 1, s, (0 - s) & 0xFF000000)
  }

  lemma LogicalNotBit(x: word)
    requires x == 0 || x == 1
    ensures LogicalNot(x) == x ^ 1 && SignMask(x) == (0 - x) & 0xFF000000
  {
  }

  lemma ThmBranchDispBits(data: word)
    ensures ThmBranchDisp(data) == ThmBranchBits(data)
  {
    var d := ThumbShuffle(data);
    ThmBranchParts(d);
    var s := (d >> 26) & 1;
    LogicalNotBit(s);
    LogicalNotBit(((d >> 11) & 1) ^ s);
    LogicalNotBit(((d >> 13) & 1) ^ s);
  }

  lemma ThmBranchParts(d: word)
    ensures var upper, lower := d >> 16, d & 0xFFFF;
      && (upper >> 10) & 1 == (d >> 26) & 1 && (lower >> 13) & 1 == (d >> 13) & 1
      && (lower >> 11) & 1 == (d >> 11) & 1 && lower & 0x7FF == d & 0x7FF && upper & 0x3FF == (d >> 16) & 0x3FF
    ensures (d >> 26) & 1 == 0 || (d >> 26) & 1 == 1
    ensures ((d >> 11) & 1) ^ ((d >> 26) & 1) == 0 || ((d >> 11) & 1) ^ ((d >> 26) & 1) == 1
    ensures ((d >> 13) & 1) ^ ((d >> 26) & 1) == 0 || ((d >> 13) & 1) ^ ((d >> 26) & 1) == 1
  {
  }

  lemma ThmBitsKept(w: word)
    ensures ThmBranch(w, ThmBranchBits(w)) == w
  {
  }

  lemma ThmBitsRead(w: word, disp: word)
    requires disp & 1 == 0 && (disp & 0xFF000000 == 0 || disp & 0xFF000000 == 0xFF000000)
    ensures ThmBranchBits(ThmBranch(w, disp)) == disp
  {
  }

  lemma ThmBranchField(w: word, disp: word, e: word)
    ensures ThmBranch(w, ThmBranchDisp(w)) == w
    ensures FitsThmBranch(disp) ==> ThmBranchDisp(ThmBranch(w, disp)) == disp
    ensures ThmBranch(ThmBranch(w, disp), e) == ThmBranch(w, e)
  {
    hide ThmBranch, ThmBranchDisp, ThmBranchBits;
    ThmBranchDispBits(w);
    ThmBranchDispBits(ThmBranch(w, disp));
    ThmBitsKept(w);
    if FitsThmBranch(disp) {
      ThmBitsRead(w, disp);
    }
    ThmBranchTwice(w, disp, e);
  }

  lemma ThmBranchTwice(w: word, d: word, e: word)
    ensures ThmBranch(ThmBranch(w, d), e) == ThmBranch(w, e)
  {
  }

  lemma SignExtended(d: word)
    ensures SignExtend26(d) == if d & 0x02000000 != 0 then d | 0xFC000000 else d
  {
  }

  lemma ArmBranchKept(w: word, t: word)
    requires t == (w & 0x00FFFFFF) << 2 || t == ((w & 0x00FFFFFF) << 2) | 0xFC000000
    ensures ArmBranch(w, t) == w
  {
  }

  lemma ArmBranchRead(w: word, disp: word)
    requires disp & 3 == 0
    requires disp & 0xFE000000 == 0 || disp & 0xFE000000 == 0xFE000000
    ensures var d := (ArmBranch(w, disp) & 0x00FFFFFF) << 2;
            if disp & 0xFE000000 == 0 then d == disp && d & 0x02000000 == 0
            else d | 0xFC000000 == disp && d & 0x02000000 != 0
  {
  }

  lemma ArmBranchTwice(w: word, d: word, e: word)
    ensures ArmBranch(ArmBranch(w, d), e) == ArmBranch(w, e)
  {
  }

  lemma ArmBranchField(w: word, disp: word, e: word)
    ensures ArmBranch(w, ArmBranchDisp(w)) == w
    ensures FitsArmBranch(disp) ==> ArmBranchDisp(ArmBranch(w, disp)) == disp
    ensures ArmBranch(ArmBranch(w, disp), e) == ArmBranch(w, e)
  {
    hide ArmBranch, SignExtend26;
    SignExtended((w & 0x00FFFFFF) << 2);
    ArmBranchKept(w, ArmBranchDisp(w));
    if FitsArmBranch(disp) {
      SignExtended((ArmBranch(w, disp) & 0x00FFFFFF) << 2);
      ArmBranchRead(w, disp);
    }
    ArmBranchTwice(w, disp, e);
  }

  lemma ArmMovKept(w: word)
    ensures ArmMov(w, ArmMovImm(w)) == w
  {
  }

  lemma ArmMovRead(w: word, imm: word)
    requires imm & 0xFFFF == imm
    ensures ArmMovImm(ArmMov(w, imm)) == imm
  {
  }

  lemma ArmMovTwice(w: word, d: word, e: word)
    ensures ArmMov(ArmMov(w, d), e) == ArmMov(w, e)
  {
  }

  lemma ThmMovKept(w: word)
    ensures ThmMov(w, ThmMovImm(w)) == w
  {
  }

  lemma ThmMovRead(w: word, imm: word)
    requires imm & 0xFFFF == imm
    ensures ThmMovImm(ThmMov(w, imm)) == imm
  {
  }

  lemma ThmMovTwice(w: word, d: word, e: word)
    ensures ThmMov(ThmMov(w, d), e) == ThmMov(w, e)
  {
  }

  /** Sixteen-bit values survive both kinds of move instruction. */
  lemma MovReads(w: word, imm: word)
    requires LowHalf(imm) == imm
    ensures ArmMovImm(ArmMov(w, imm)) == imm && ThmMovImm(ThmMov(w, imm)) == imm
  {
    assert imm & 0xFFFF == imm;
    hide *;
    ArmMovRead(w, imm);
    ThmMovRead(w, imm);
  }

  lemma Prel31Kept(w: word)
    ensures Prel31Word(w, w) == w
  {
  }

  lemma Prel31Read(w: word, disp: word)
    ensures Low31(Prel31Word(w, disp)) == Low31(disp)
  {
  }

  lemma Prel31Twice(w: word, d: word, e: word)
    ensures Prel31Word(Prel31Word(w, d), e) == Prel31Word(w, e)
  {
  }

  // ---- loader and converter ----

  // The arithmetic facts below are each proved on plain terms, which the solver normalises,
  // and then used with the functions folded.

  lemma RawPlus(x: word, y: word)
    ensures Plus(x, y) == x + y
  {
  }

  lemma RawLow(x: word)
    ensures LowHalf(x) == x & 0xFFFF
  {
  }

  lemma RawToHigh(x: word)
    ensures ToHigh(x) == x << 16
  {
  }

  lemma DispPlus(p: word, d: word)
    ensures Disp(Plus(p, d), p) == d && Plus(p, d) == Plus(d, p)
  {
    assert Disp(p + d, p) == d;
    assert Plus(d, p) == p + d;
  }

  lemma PlusDisp(p: word, x: word)
    ensures Plus(p, Disp(x, p)) == x
  {
    assert Plus(p, x - p) == x;
  }

  /** A part a of a + b is traded for h. */
  lemma Trade(a: word, b: word, h: word)
    ensures Plus(Plus(a, b), Disp(h, a)) == Plus(h, b)
  {
    assert Plus(a + b, h - a) == h + b;
  }

  lemma PlusAssociates(p: word, d: word, b: word)
    ensures Plus(Plus(p, d), b) == Plus(p, Plus(d, b))
  {
    assert Plus(p + d, b) == p + d + b;
    assert Plus(p, d + b) == p + d + b;
  }

  lemma HalvesMakeWord(v: word)
    ensures Plus(HighPart(v), LowHalf(v)) == v
  {
  }

  lemma EvenAndBit(v: word)
    ensures Plus(EvenPart(v), Bit0(v)) == v
  {
  }

  lemma IsBit(v: word)
    ensures Bit0(v) == 0 || Bit0(v) == 1
  {
  }

  lemma LowIsHalf(v: word)
    ensures LowHalf(LowHalf(v)) == LowHalf(v)
  {
  }

  lemma HighIsHalf(v: word)
    ensures LowHalf(HighHalf(v)) == HighHalf(v)
  {
  }

  lemma PlusSwap(a: word, b: word)
    ensures Plus(a, b) == Plus(b, a)
  {
    assert Plus(b, a) == a + b;
  }

  lemma RawHighOfSum(h: word, l: word)
    requires h & 0xFFFF == h && l & 0xFFFF == l
    ensures HighHalf(Plus(h << 16, l)) == h
  {
  }

  lemma RawLowOfSum(v: word, l: word)
    requires l & 0xFFFF == l
    ensures LowHalf(Plus(l, v & 0xFFFF0000)) == l
  {
  }

  lemma FoldedOfSum(h: word, v: word, l: word)
    requires h & 0xFFFF == h && l & 0xFFFF == l
    ensures HighHalf(Plus(ToHigh(h), l)) == h && LowHalf(Plus(l, HighPart(v))) == l
  {
    RawHighOfSum(h, l);
    RawLowOfSum(v, l);
    assert ToHigh(h) == h << 16 && HighPart(v) == v & 0xFFFF0000;
    hide *;
  }

  lemma HalfOfSum(h: word, v: word, l: word)
    requires LowHalf(h) == h && LowHalf(l) == l
    ensures HighHalf(Plus(ToHigh(h), l)) == h && LowHalf(Plus(l, HighPart(v))) == l
  {
    assert h & 0xFFFF == h && l & 0xFFFF == l;
    hide *;
    FoldedOfSum(h, v, l);
  }

  /** The word a loader leaves at address p when a relocation of type t resolves to x. */
  function Apply(t: RelType, w: word, x: word, p: word): word {
    match t
    case Abs32 | Target1 => x
    case Rel32 | Target2 => Disp(x, p)
    case Prel31 => Prel31Word(w, Disp(x, p))
    case ThmCall => ThmBranch(w, Disp(x, p))
    case Call | Jump24 => ArmBranch(w, Disp(x, p))
    case MovwAbsNc => ArmMov(w, LowHalf(x))
    case MovtAbs => ArmMov(w, HighHalf(x))
    case ThmMovwAbsNc => ThmMov(w, LowHalf(x))
    case ThmMovtAbs => ThmMov(w, HighHalf(x))
    case _ => w
  }

  /** `decode_rel_target`: the target an already linked word refers to. */
  function DecodeTarget(t: RelType, data: word, addr: word): word
    requires IsNormal(t)
  {
    match t
    case Abs32 | Target1 => data
    case Rel32 | Target2 => Plus(addr, data)
    case Prel31 => Plus(addr, data)
    case ThmCall => Plus(addr, ThmBranchDisp(data))
    case Call | Jump24 => Plus(addr, ArmBranchDisp(data))
    case MovwAbsNc => ArmMovImm(data)
    case MovtAbs => ToHigh(ArmMovImm(data))
    case ThmMovwAbsNc => ThmMovImm(data)
    case ThmMovtAbs => ToHigh(ThmMovImm(data))
  }

  lemma MovImmHalf(data: word)
    ensures LowHalf(ArmMovImm(data)) == ArmMovImm(data)
  {
  }

  lemma RawThmMovImm(d: word)
    ensures var i := (((d >> 16) & 0xF) << 12) | (((d >> 26) & 0x1) << 11) | (((d >> 12) & 0x7) << 8) | (d & 0xFF);
            i & 0xFFFF == i
  {
  }

  lemma ThmMovImmHalf(data: word)
    ensures LowHalf(ThmMovImm(data)) == ThmMovImm(data)
  {
    hide ThumbShuffle, LowHalf;
    RawThmMovImm(ThumbShuffle(data));
    RawLow(ThmMovImm(data));
  }

  lemma HighOfToHigh(h: word)
    requires LowHalf(h) == h
    ensures HighHalf(ToHigh(h)) == h
  {
  }

  /** A loader that resolves the relocation to the decoded target writes the word back unchanged. */
  lemma DecodedTargetKeepsWord(t: RelType, data: word, addr: word)
    requires IsNormal(t)
    ensures Apply(t, data, DecodeTarget(t, data, addr), addr) == data
  {
    hide ThmBranch, ThmBranchDisp, ArmBranch, ArmBranchDisp, ArmMov, ArmMovImm, ThmMov, ThmMovImm, Prel31Word,
         Disp, Plus, LowHalf, HighHalf, ToHigh;
    match t {
      case Abs32 | Target1 =>
      case Rel32 | Target2 => DispPlus(addr, data);
      case Prel31 => Prel31Kept(data); DispPlus(addr, data);
      case ThmCall => ThmBranchField(data, 0, 0); DispPlus(addr, ThmBranchDisp(data));
      case Call | Jump24 => ArmBranchField(data, 0, 0); DispPlus(addr, ArmBranchDisp(data));
      case MovwAbsNc | MovtAbs => ArmMovKept(data); MovImmHalf(data); HighOfToHigh(ArmMovImm(data));
      case ThmMovwAbsNc | ThmMovtAbs => ThmMovKept(data); ThmMovImmHalf(data); HighOfToHigh(ThmMovImm(data));
    }
  }

  /** The word at address p refers to x: to the whole of it where the type can hold it, apart
      from the Thumb bit of a branch, to the half or the low 31 bits the type holds otherwise. */
  predicate RefersTo(t: RelType, w: word, x: word, p: word)
    requires IsNormal(t)
  {
    var y := DecodeTarget(t, w, p);
    match t
    case Abs32 | Target1 | Rel32 | Target2 => y == x
    case Prel31 => Low31(Disp(y, p)) == Low31(Disp(x, p))
    case ThmCall => FitsThmBranch(EvenPart(Disp(x, p))) ==> Disp(y, p) == EvenPart(Disp(x, p))
    case Call | Jump24 => FitsArmBranch(Disp(x, p)) ==> y == x
    case MovwAbsNc | ThmMovwAbsNc => y == LowHalf(x)
    case MovtAbs | ThmMovtAbs => y == ToHigh(HighHalf(x))
  }

  lemma RawThmBranchEven(w: word, d: word)
    ensures ThmBranch(w, EvenPart(d)) == ThmBranch(w, d)
  {
  }

  lemma ThmCallDecodes(w: word, x: word, p: word)
    ensures RefersTo(ThmCall, Apply(ThmCall, w, x, p), x, p)
  {
    hide ThmBranch, ThmBranchDisp, Disp, Plus, FitsThmBranch, EvenPart;
    var d := EvenPart(Disp(x, p));
    RawThmBranchEven(w, Disp(x, p));
    ThmBranchField(w, d, 0);
    DispPlus(p, d);
  }

  /** What the loader wrote is what the converter reads. */
  lemma AppliedTargetDecodes(t: RelType, w: word, x: word, p: word)
    requires IsNormal(t)
    ensures RefersTo(t, Apply(t, w, x, p), x, p)
  {
    hide ThmBranch, ThmBranchDisp, ArmBranch, ArmBranchDisp, ArmMov, ArmMovImm, ThmMov, ThmMovImm, Prel31Word,
         Disp, Plus, LowHalf, HighHalf, ToHigh, Low31, FitsThmBranch, FitsArmBranch, EvenPart;
    PlusDisp(p, x);
    LowIsHalf(x);
    HighIsHalf(x);
    match t {
      case Abs32 | Target1 | Rel32 | Target2 =>
      case Prel31 => Prel31Read(w, Disp(x, p)); DispPlus(p, Prel31Word(w, Disp(x, p)));
      case ThmCall => ThmCallDecodes(w, x, p);
      case Call | Jump24 => ArmBranchField(w, Disp(x, p), 0);
      case MovwAbsNc | ThmMovwAbsNc => MovReads(w, LowHalf(x));
      case MovtAbs | ThmMovtAbs => MovReads(w, HighHalf(x));
    }
  }

  /** Relocating twice is relocating once, to the second target. */
  lemma ApplyTwice(t: RelType, w: word, x: word, p: word, y: word, q: word)
    requires IsNormal(t)
    ensures Apply(t, Apply(t, w, x, p), y, q) == Apply(t, w, y, q)
  {
    hide ThmBranch, ArmBranch, ArmMov, ThmMov, Prel31Word, Disp, Plus, LowHalf, HighHalf, ToHigh;
    Prel31Twice(w, Disp(x, p), Disp(y, q));
    ThmBranchTwice(w, Disp(x, p), Disp(y, q));
    ArmBranchTwice(w, Disp(x, p), Disp(y, q));
    ArmMovTwice(w, LowHalf(x), LowHalf(y));
    ArmMovTwice(w, HighHalf(x), HighHalf(y));
    ThmMovTwice(w, LowHalf(x), LowHalf(y));
    ThmMovTwice(w, HighHalf(x), HighHalf(y));
  }

  // ---- addends ----

  /** The part of a symbol's value that `load_rel_table` subtracts from the target. */
  function SymbolPart(t: RelType, value: word): word {
    match t
    case MovtAbs | ThmMovtAbs => HighPart(value)
    case MovwAbsNc | ThmMovwAbsNc => LowHalf(value)
    case ThmCall => EvenPart(value)
    case _ => value
  }

  /** The addend `load_rel_table` recovers. */
  function RecoverAddend(t: RelType, data: word, value: word, addr: word): word
    requires IsNormal(t)
  {
    Disp(DecodeTarget(t, data, addr), SymbolPart(t, value))
  }

  /** S + A as `sce_elf_write_rela_sections` computes it. */
  function Resolved(t: RelType, data: word, value: word, addr: word): word
    requires IsNormal(t)
  {
    Plus(value, RecoverAddend(t, data, value, addr))
  }

  lemma HighPartCancels(v: word, h: word)
    requires LowHalf(h) == h
    ensures HighHalf(Plus(v, Disp(ToHigh(h), HighPart(v)))) == h
  {
    hide *;
    HalvesMakeWord(v);
    LowIsHalf(v);
    Trade(HighPart(v), LowHalf(v), ToHigh(h));
    HalfOfSum(h, v, LowHalf(v));
  }

  lemma LowPartCancels(v: word, h: word)
    requires LowHalf(h) == h
    ensures LowHalf(Plus(v, Disp(h, LowHalf(v)))) == h
  {
    hide *;
    HalvesMakeWord(v);
    PlusSwap(HighPart(v), LowHalf(v));
    Trade(LowHalf(v), HighPart(v), h);
    HalfOfSum(h, v, h);
  }

  lemma ThumbBitCancels(v: word, p: word, d: word)
    ensures Disp(Plus(v, Disp(Plus(p, d), EvenPart(v))), p) == Plus(d, Bit0(v))
  {
    hide *;
    EvenAndBit(v);
    Trade(EvenPart(v), Bit0(v), Plus(p, d));
    PlusAssociates(p, d, Bit0(v));
    DispPlus(p, Plus(d, Bit0(v)));
  }

  lemma RawThmBranchBit0(w: word, d: word)
    requires d & 1 == 0
    ensures ThmBranch(w, d + 1) == ThmBranch(w, d) && d + 0 == d
  {
  }

  lemma ThmBranchIgnoresBit0(w: word, d: word, b: word)
    requires d & 1 == 0 && (b == 0 || b == 1)
    ensures ThmBranch(w, Plus(d, b)) == ThmBranch(w, d)
  {
    hide *;
    RawPlus(d, b);
    RawThmBranchBit0(w, d);
    if b == 0 {
      assert Plus(d, b) == d + 0 == d;
    } else {
      assert Plus(d, b) == d + 1;
    }
  }

  lemma ThmBranchBitsEven(w: word)
    ensures ThmBranchBits(w) & 1 == 0
  {
  }

  /** The recovered addend preserves meaning: resolving the relocation against the symbol
      gives back the word the linker left. */
  lemma RecoveredAddendKeepsWord(t: RelType, data: word, value: word, addr: word)
    requires IsNormal(t)
    ensures Apply(t, data, Resolved(t, data, value, addr), addr) == data
  {
    hide ThmBranch, ThmBranchDisp, ArmBranch, ArmBranchDisp, ArmMov, ArmMovImm, ThmMov, ThmMovImm, Prel31Word,
         Disp, Plus, LowHalf, HighHalf, HighPart, EvenPart, Bit0, ToHigh, ThmBranchBits;
    DecodedTargetKeepsWord(t, data, addr);
    MovImmHalf(data);
    ThmMovImmHalf(data);
    match t {
      case MovtAbs => HighPartCancels(value, ArmMovImm(data)); ArmMovKept(data);
      case ThmMovtAbs => HighPartCancels(value, ThmMovImm(data)); ThmMovKept(data);
      case MovwAbsNc => LowPartCancels(value, ArmMovImm(data)); ArmMovKept(data);
      case ThmMovwAbsNc => LowPartCancels(value, ThmMovImm(data)); ThmMovKept(data);
      case ThmCall =>
        ThumbBitCancels(value, addr, ThmBranchDisp(data));
        ThmBranchDispBits(data);
        ThmBranchBitsEven(data);
        IsBit(value);
        ThmBranchIgnoresBit0(data, ThmBranchDisp(data), Bit0(value));
        ThmBranchField(data, 0, 0);
      case Abs32 | Target1 | Rel32 | Target2 | Prel31 | Call | Jump24 =>
        PlusDisp(value, DecodeTarget(t, data, addr));
    }
  }

  // ---- words that refer to variable stubs ----

  /** The types `fixup_vstub_rela` rewrites; their table entries become R_ARM_NONE. */
  predicate IsFixed(t: RelType) {
    match t
    case Abs32 | Target1 | Rel32 | Target2 | MovwAbsNc | MovtAbs | ThmMovwAbsNc | ThmMovtAbs => true
    case _ => false
  }

  /** `fixup_vstub_rela`: the word at vaddr with its reference removed. The Thumb masks are
      those of the two halfwords, the first of which is the low one in memory. */
  function FixupWord(t: RelType, w: word, vaddr: word): word {
    match t
    case Abs32 | Target1 => 0
    case Rel32 | Target2 => Disp(0, vaddr)
    case MovwAbsNc | MovtAbs => w & 0xFFF0F000
    case ThmMovwAbsNc | ThmMovtAbs => w & 0x8F00FBF0
    case _ => w
  }

  lemma FixedArmMov(w: word, imm: word)
    ensures ArmMovImm(w & 0xFFF0F000) == 0 && ArmMov(w & 0xFFF0F000, imm) == ArmMov(w, imm)
  {
  }

  lemma FixedThmMovImm(w: word)
    ensures ThmMovImm(w & 0x8F00FBF0) == 0
  {
  }

  lemma ShuffledMask(w: word)
    ensures ThumbShuffle(w & 0x8F00FBF0) & 0xFBF08F00 == ThumbShuffle(w) & 0xFBF08F00
  {
  }

  lemma FixedThmMov(w: word, imm: word)
    ensures ThmMov(w & 0x8F00FBF0, imm) == ThmMov(w, imm)
  {
    hide ThumbShuffle;
    ShuffledMask(w);
  }

  lemma ToHighZero()
    ensures ToHigh(0) == 0
  {
  }

  /** The fixed-up word refers to address 0, and resolving it later gives exactly what
      resolving the original word would have given. */
  lemma FixupKeepsInstruction(t: RelType, w: word, vaddr: word, x: word, p: word)
    requires IsFixed(t)
    ensures DecodeTarget(t, FixupWord(t, w, vaddr), vaddr) == 0
    ensures Apply(t, FixupWord(t, w, vaddr), x, p) == Apply(t, w, x, p)
  {
    FixedArmMov(w, LowHalf(x));
    FixedArmMov(w, HighHalf(x));
    FixedThmMovImm(w);
    FixedThmMov(w, LowHalf(x));
    FixedThmMov(w, HighHalf(x));
    ToHighZero();
    PlusDisp(vaddr, 0);
    hide ArmMov, ArmMovImm, ThmMov, ThmMovImm, Disp, Plus, LowHalf, HighHalf, ToHigh;
  }

  // ---- moving a MOVW/MOVT pair ----

  /** The carry out of the low halves of a + b. */
  function Carry(a: word, b: word): word {
    (LowHalf(a) + LowHalf(b)) >> 16
  }

  /** What MOVW and MOVT leave in a register when relocated to these targets. */
  function Pair(low: word, high: word): word {
    (HighHalf(high) << 16) | LowHalf(low)
  }

  function Add16(h: word, k: word, c: word): word {
    (h + k + c) & 0xFFFF
  }

  lemma RawHighOfAdd(a: word, d: word)
    ensures (a + d) >> 16 == ((a >> 16) + (d >> 16) + (((a & 0xFFFF) + (d & 0xFFFF)) >> 16)) & 0xFFFF
  {
  }

  lemma RawCarry(a: word, d: word)
    ensures Carry(a, d) == ((a & 0xFFFF) + (d & 0xFFFF)) >> 16
  {
    RawLow(a);
    RawLow(d);
  }

  lemma RawHigh(x: word)
    ensures HighHalf(x) == x >> 16
  {
  }

  lemma RawAdd16(h: word, k: word, c: word)
    ensures Add16(h, k, c) == (h + k + c) & 0xFFFF
  {
  }

  lemma HighOfAdd(a: word, d: word)
    ensures HighHalf(Plus(a, d)) == Add16(HighHalf(a), HighHalf(d), Carry(a, d))
  {
    hide *;
    RawHighOfAdd(a, d);
    RawCarry(a, d);
    RawPlus(a, d);
    RawHigh(a);
    RawHigh(d);
    RawHigh(a + d);
    RawAdd16(a >> 16, d >> 16, ((a & 0xFFFF) + (d & 0xFFFF)) >> 16);
  }

  lemma LowOfAdd(a: word, d: word)
    ensures LowHalf(Plus(a, d)) == LowHalf(Plus(LowHalf(a), LowHalf(d)))
  {
  }

  lemma CarryIsBit(a: word, b: word)
    ensures Carry(a, b) == 0 || Carry(a, b) == 1
  {
  }

  lemma Add16Carry(h: word, k: word)
    ensures Add16(h, k, 0) != Add16(h, k, 1)
  {
  }

  lemma PairHalves(low: word, high: word)
    ensures LowHalf(Pair(low, high)) == LowHalf(low) && HighHalf(Pair(low, high)) == HighHalf(high)
  {
  }

  lemma SameHalves(a: word, b: word)
    requires LowHalf(a) == LowHalf(b) && HighHalf(a) == HighHalf(b)
    ensures a == b
  {
  }

  lemma PairMeans(low: word, high: word, y: word)
    ensures Pair(low, high) == y <==> LowHalf(low) == LowHalf(y) && HighHalf(high) == HighHalf(y)
  {
    PairHalves(low, high);
    hide *;
    if LowHalf(low) == LowHalf(y) && HighHalf(high) == HighHalf(y) {
      SameHalves(Pair(low, high), y);
    }
  }

  /** The targets the converter recovers for a pair that was linked to address x, against a
      symbol of the given value: each keeps its own half of x and the other half of the symbol. */
  lemma PairTargets(t: RelType, u: RelType, w: word, w': word, value: word, x: word, p: word, p': word)
    requires (t == MovwAbsNc && u == MovtAbs) || (t == ThmMovwAbsNc && u == ThmMovtAbs)
    ensures var low := Resolved(t, Apply(t, w, x, p), value, p);
            var high := Resolved(u, Apply(u, w', x, p'), value, p');
            && low == Plus(LowHalf(x), HighPart(value))
            && high == Plus(ToHigh(HighHalf(x)), LowHalf(value))
  {
    hide Plus, Disp, LowHalf, HighHalf, ToHigh, HighPart, EvenPart, Low31, FitsThmBranch, FitsArmBranch, Apply,
         DecodeTarget;
    AppliedTargetDecodes(t, w, x, p);
    AppliedTargetDecodes(u, w', x, p');
    HalvesMakeWord(value);
    PlusSwap(HighPart(value), LowHalf(value));
    Trade(LowHalf(value), HighPart(value), LowHalf(x));
    Trade(HighPart(value), LowHalf(value), ToHigh(HighHalf(x)));
  }

  /** The two halves of the moved targets, and of the target that should have been built. */
  lemma PairCarries(value: word, x: word, delta: word)
    ensures var low, high := Plus(LowHalf(x), HighPart(value)), Plus(ToHigh(HighHalf(x)), LowHalf(value));
      Pair(Plus(low, delta), Plus(high, delta)) == Plus(x, delta) <==> Carry(value, delta) == Carry(x, delta)
  {
    hide *;
    var low, high := Plus(LowHalf(x), HighPart(value)), Plus(ToHigh(HighHalf(x)), LowHalf(value));
    LowIsHalf(x);
    LowIsHalf(value);
    HighIsHalf(x);
    HalfOfSum(HighHalf(x), value, LowHalf(value));
    HalfOfSum(HighHalf(x), value, LowHalf(x));
    LowOfHigh(HighHalf(x), LowHalf(value));
    PairMeans(Plus(low, delta), Plus(high, delta), Plus(x, delta));
    LowOfAdd(low, delta);
    LowOfAdd(x, delta);
    HighOfAdd(high, delta);
    HighOfAdd(x, delta);
    CarryOfLow(high, value, delta);
    SameCarry(HighHalf(x), HighHalf(delta), Carry(value, delta), Carry(x, delta)) by {
      CarryIsBit(value, delta);
      CarryIsBit(x, delta);
    }
  }

  lemma SameCarry(h: word, k: word, c: word, d: word)
    requires (c == 0 || c == 1) && (d == 0 || d == 1)
    ensures Add16(h, k, c) == Add16(h, k, d) <==> c == d
  {
    hide *;
    Add16Carry(h, k);
  }

  /** Nothing is lost when the addend is zero or the move is a multiple of 64 KiB. */
  lemma CarriesAgree(value: word, x: word, delta: word)
    requires value == x || LowHalf(delta) == 0
    ensures Carry(value, delta) == Carry(x, delta)
  {
    hide *;
    if LowHalf(delta) == 0 {
      AlignedDeltaNeverCarries(value, delta);
      AlignedDeltaNeverCarries(x, delta);
    }
  }

  /** A pair linked to x and relocated by delta builds x + delta if and only if delta carries
      out of the symbol's low half exactly when it carries out of the target's; always so when
      the addend is zero (value == x) or delta is a multiple of 64 KiB. */
  lemma PairRebases(t: RelType, u: RelType, w: word, w': word, value: word, x: word, p: word, p': word, delta: word)
    requires (t == MovwAbsNc && u == MovtAbs) || (t == ThmMovwAbsNc && u == ThmMovtAbs)
    ensures var low := Resolved(t, Apply(t, w, x, p), value, p);
            var high := Resolved(u, Apply(u, w', x, p'), value, p');
            Pair(Plus(low, delta), Plus(high, delta)) == Plus(x, delta) <==> Carry(value, delta) == Carry(x, delta)
    ensures value == x || LowHalf(delta) == 0 ==>
              Pair(Plus(Resolved(t, Apply(t, w, x, p), value, p), delta),
                   Plus(Resolved(u, Apply(u, w', x, p'), value, p'), delta)) == Plus(x, delta)
  {
    hide Resolved, Apply, Plus, Pair, Carry, LowHalf, HighHalf, HighPart, ToHigh;
    PairTargets(t, u, w, w', value, x, p, p');
    PairCarries(value, x, delta);
    if value == x || LowHalf(delta) == 0 {
      CarriesAgree(value, x, delta);
    }
  }

  lemma RawLowOfHigh(h: word, l: word)
    requires l & 0xFFFF == l
    ensures LowHalf(Plus(h << 16, l)) == l
  {
  }

  lemma LowOfHigh(h: word, l: word)
    requires LowHalf(l) == l
    ensures LowHalf(Plus(ToHigh(h), l)) == l
  {
    RawLow(l);
    RawToHigh(h);
    hide *;
    RawLowOfHigh(h, l);
  }

  /** Carries depend on low halves only. */
  lemma CarryOfLow(a: word, b: word, d: word)
    requires LowHalf(a) == LowHalf(b)
    ensures Carry(a, d) == Carry(b, d)
  {
    hide LowHalf;
  }

  /** Moving by a multiple of 64 KiB never carries. */
  lemma AlignedDeltaNeverCarries(a: word, delta: word)
    requires LowHalf(delta) == 0
    ensures Carry(a, delta) == 0
  {
  }

  /** A symbol at 0x8100FFF0 with addend 0x20, moved by 0x100: the pair builds a wrong address,
      whatever the two instructions are and wherever they stand. */
  lemma PairCanBreak(w: word, w': word, p: word, p': word)
    ensures var value: word, x: word, delta: word := 0x8100FFF0, 0x81010010, 0x100;
            var low := Resolved(MovwAbsNc, Apply(MovwAbsNc, w, x, p), value, p);
            var high := Resolved(MovtAbs, Apply(MovtAbs, w', x, p'), value, p');
            Pair(Plus(low, delta), Plus(high, delta)) != Plus(x, delta)
  {
    PairRebases(MovwAbsNc, MovtAbs, w, w', 0x8100FFF0, 0x81010010, p, p', 0x100);
    assert Carry(0x8100FFF0, 0x100) != Carry(0x81010010, 0x100);
  }

  // ---- moving any reference ----

  function Low25(x: word): word {
    x & 0x1FFFFFF
  }

  function Low26(x: word): word {
    x & 0x3FFFFFF
  }

  function Low2(x: word): word {
    x & 3
  }

  function AlignedPart(x: word): word {
    x & 0xFFFFFFFC
  }

  lemma RawLow25(d: word, e: word)
    ensures Low25(d) == d & 0x1FFFFFF && Low25((d & 0x1FFFFFF) + e) == Low25(d + e)
  {
  }

  lemma RawLow26(d: word, e: word)
    ensures Low26(d) == d & 0x3FFFFFF && Low26((d & 0x3FFFFFF) + e) == Low26(d + e)
  {
  }

  lemma RawLow31(d: word, e: word)
    ensures Low31(d) == d & 0x7FFFFFFF && Low31((d & 0x7FFFFFFF) + e) == Low31(d + e)
  {
  }

  /** The low bits of a sum depend on the low bits of its terms. */
  lemma LowBitsOfSum(d: word, e: word)
    ensures Low25(Plus(Low25(d), e)) == Low25(Plus(d, e))
    ensures Low26(Plus(Low26(d), e)) == Low26(Plus(d, e))
    ensures Low31(Plus(Low31(d), e)) == Low31(Plus(d, e))
  {
    RawPlus(d & 0x1FFFFFF, e);
    RawPlus(d & 0x3FFFFFF, e);
    RawPlus(d & 0x7FFFFFFF, e);
    RawPlus(d, e);
    RawLow25(d, e);
    RawLow26(d, e);
    RawLow31(d, e);
    hide *;
  }

  lemma ThmBits(w: word, d: word)
    ensures ThmBranch(w, d & 0x1FFFFFF) == ThmBranch(w, d)
  {
  }

  lemma ArmBits(w: word, d: word)
    ensures ArmBranch(w, d & 0x3FFFFFF) == ArmBranch(w, d)
  {
  }

  lemma ArmAlignedBits(w: word, d: word)
    ensures ArmBranch(w, d & 0xFFFFFFFC) == ArmBranch(w, d)
  {
  }

  lemma Prel31Bits(w: word, d: word)
    ensures Prel31Word(w, d & 0x7FFFFFFF) == Prel31Word(w, d)
  {
  }

  /** The bits of a displacement that the instructions hold. */
  lemma BranchBits(w: word, d: word)
    ensures ThmBranch(w, Low25(d)) == ThmBranch(w, d)
    ensures ArmBranch(w, Low26(d)) == ArmBranch(w, d) && ArmBranch(w, AlignedPart(d)) == ArmBranch(w, d)
    ensures Prel31Word(w, Low31(d)) == Prel31Word(w, d)
  {
    assert Low25(d) == d & 0x1FFFFFF && Low26(d) == d & 0x3FFFFFF && Low31(d) == d & 0x7FFFFFFF;
    assert AlignedPart(d) == d & 0xFFFFFFFC;
    hide *;
    ThmBits(w, d);
    ArmBits(w, d);
    ArmAlignedBits(w, d);
    Prel31Bits(w, d);
  }

  lemma ThmEvenBits(w: word, d: word)
    ensures ThmBranch(w, d & 0x1FFFFFE) == ThmBranch(w, d)
  {
  }

  lemma ThmSignBits(w: word, d: word)
    ensures ThmBranch(w, (d & 0x1FFFFFE) | 0xFE000000) == ThmBranch(w, d)
  {
  }

  lemma SignedField(d: word)
    ensures Low25(d & 0x1FFFFFE) == Low25(d & 0xFFFFFFFE) == Low25((d & 0x1FFFFFE) | 0xFE000000)
    ensures (d & 0x1FFFFFE) & 1 == 0 && ((d & 0x1FFFFFE) | 0xFE000000) & 1 == 0
    ensures d & 0x1000000 == 0 ==> (d & 0x1FFFFFE) & 0xFF000000 == 0
    ensures d & 0x1000000 != 0 ==> ((d & 0x1FFFFFE) | 0xFE000000) & 0xFF000000 == 0xFF000000
  {
  }

  /** What is read back from a Thumb branch agrees with what was written, sign extension aside. */
  lemma ThmBitsBack(w: word, d: word)
    ensures Low25(ThmBranchBits(ThmBranch(w, d))) == Low25(EvenPart(d))
  {
    assert EvenPart(d) == d & 0xFFFFFFFE;
    hide *;
    SignedField(d);
    if d & 0x1000000 == 0 {
      ThmEvenBits(w, d);
      ThmBitsRead(w, d & 0x1FFFFFE);
    } else {
      ThmSignBits(w, d);
      ThmBitsRead(w, (d & 0x1FFFFFE) | 0xFE000000);
    }
  }

  lemma RawArmBack(w: word, d: word)
    ensures (ArmBranch(w, d) & 0x00FFFFFF) << 2 == d & 0x3FFFFFC
  {
  }

  lemma RawAligned26(d: word)
    ensures Low26(d & 0x3FFFFFC) == Low26(d & 0xFFFFFFFC)
  {
  }

  lemma ArmBitsBack(w: word, d: word)
    ensures Low26((ArmBranch(w, d) & 0x00FFFFFF) << 2) == Low26(AlignedPart(d))
  {
    assert AlignedPart(d) == d & 0xFFFFFFFC;
    hide *;
    RawArmBack(w, d);
    RawAligned26(d);
  }

  lemma ExtendedBits(d: word)
    ensures Low26(SignExtend26(d)) == Low26(d)
  {
  }

  lemma AlignedAndRest(x: word)
    ensures Plus(AlignedPart(x), Low2(x)) == x
  {
  }

  lemma RawLow2(x: word, e: word)
    requires e & 3 == 0
    ensures Low2(x + e) == Low2(x)
  {
  }

  lemma PlusShuffles(a: word, b: word, e: word)
    ensures Plus(Plus(a, b), e) == Plus(Plus(a, e), b)
  {
    assert Plus(a + b, e) == a + b + e;
    assert Plus(a + e, b) == a + b + e;
  }

  lemma AlignedMoves(d: word, e: word)
    requires e & 3 == 0
    ensures Plus(AlignedPart(d), e) == AlignedPart(Plus(d, e))
  {
    RawPlus(d, e);
    RawLow2(d, e);
    hide *;
    AlignedAndRest(d);
    AlignedAndRest(Plus(d, e));
    PlusShuffles(AlignedPart(d), Low2(d), e);
    DispPlus(Low2(d), Plus(AlignedPart(d), e));
    DispPlus(Low2(d), AlignedPart(Plus(d, e)));
  }

  lemma RawBit0(d: word, e: word)
    requires d & 1 == 0 && e & 1 == 0
    ensures (d + e) & 1 == 0
  {
  }

  lemma EvenSum(d: word, e: word)
    requires d & 1 == 0 && e & 1 == 0
    ensures Plus(d, e) & 1 == 0
  {
    RawPlus(d, e);
    hide *;
    RawBit0(d, e);
  }

  lemma EvenIsEven(d: word)
    ensures EvenPart(d) & 1 == 0
  {
  }

  /** A branch that is read back, moved by e and written again is the branch to the moved
      target, even where the target is out of its reach. */
  lemma ThmBranchMoves(w: word, d: word, b: word, e: word)
    requires e & 1 == 0 && (b == 0 || b == 1)
    ensures ThmBranch(w, Plus(Plus(ThmBranchDisp(ThmBranch(w, d)), b), e)) == ThmBranch(w, Plus(d, e))
  {
    var back, even := ThmBranchBits(ThmBranch(w, d)), EvenPart(d);
    ThmBranchDispBits(ThmBranch(w, d));
    ThmBranchBitsEven(ThmBranch(w, d));
    EvenIsEven(d);
    hide *;
    EvenSum(back, e);
    EvenSum(even, e);
    PlusShuffles(back, b, e);
    ThmBranchIgnoresBit0(w, Plus(back, e), b);
    IsBit(d);
    EvenAndBit(d);
    PlusShuffles(even, Bit0(d), e);
    ThmBranchIgnoresBit0(w, Plus(even, e), Bit0(d));
    ThmBitsBack(w, d);
    LowBitsOfSum(back, e);
    LowBitsOfSum(even, e);
    BranchBits(w, Plus(back, e));
    BranchBits(w, Plus(even, e));
  }

  lemma ArmReadBack(w: word, d: word)
    ensures Low26(ArmBranchDisp(ArmBranch(w, d))) == Low26(AlignedPart(d))
  {
    hide ArmBranch, SignExtend26, Low26, AlignedPart;
    ExtendedBits((ArmBranch(w, d) & 0x00FFFFFF) << 2);
    ArmBitsBack(w, d);
  }

  lemma ArmBranchMoves(w: word, d: word, e: word)
    requires e & 3 == 0
    ensures ArmBranch(w, Plus(ArmBranchDisp(ArmBranch(w, d)), e)) == ArmBranch(w, Plus(d, e))
  {
    hide *;
    var back := ArmBranchDisp(ArmBranch(w, d));
    ArmReadBack(w, d);
    AlignedMoves(d, e);
    LowBitsOfSum(back, e);
    LowBitsOfSum(AlignedPart(d), e);
    BranchBits(w, Plus(back, e));
    BranchBits(w, Plus(AlignedPart(d), e));
    BranchBits(w, Plus(d, e));
  }

  lemma Prel31Moves(w: word, d: word, e: word)
    ensures Prel31Word(w, Plus(Prel31Word(w, d), e)) == Prel31Word(w, Plus(d, e))
  {
    hide *;
    Prel31Read(w, d);
    LowBitsOfSum(Prel31Word(w, d), e);
    LowBitsOfSum(d, e);
    BranchBits(w, Plus(Prel31Word(w, d), e));
    BranchBits(w, Plus(d, e));
  }

  /** Moving the target by delta and the place from p to q moves the displacement. */
  lemma MovedDisp(p: word, d: word, delta: word, q: word)
    ensures Disp(Plus(Plus(p, d), delta), q) == Plus(d, Disp(Plus(p, delta), q))
  {
    hide *;
    var e := Disp(Plus(p, delta), q);
    PlusShuffles(p, d, delta);
    PlusDisp(q, Plus(p, delta));
    PlusAssociates(q, e, d);
    DispPlus(q, Plus(e, d));
    DispPlus(e, d);
  }

  /** What a type asks of a move: branches stay aligned, and the high half of a pair gets the
      carry that its whole target would have got. e is the move of the target from the place. */
  predicate MovesExactly(t: RelType, value: word, y: word, delta: word, e: word) {
    match t
    case ThmCall => e & 1 == 0
    case Call | Jump24 => e & 3 == 0
    case MovtAbs | ThmMovtAbs => Carry(value, delta) == Carry(y, delta)
    case _ => true
  }

  lemma LowHalfMoves(value: word, y: word, delta: word)
    ensures LowHalf(Plus(Plus(value, Disp(LowHalf(y), LowHalf(value))), delta)) == LowHalf(Plus(y, delta))
  {
    hide *;
    var x := Plus(value, Disp(LowHalf(y), LowHalf(value)));
    LowIsHalf(y);
    LowPartCancels(value, LowHalf(y));
    LowOfAdd(x, delta);
    LowOfAdd(y, delta);
  }

  lemma HighHalfMoves(value: word, y: word, delta: word)
    requires Carry(value, delta) == Carry(y, delta)
    ensures HighHalf(Plus(Plus(value, Disp(ToHigh(HighHalf(y)), HighPart(value))), delta)) == HighHalf(Plus(y, delta))
  {
    hide *;
    var h := ToHigh(HighHalf(y));
    HighIsHalf(y);
    LowIsHalf(value);
    HighPartCancels(value, HighHalf(y));
    HalvesMakeWord(value);
    Trade(HighPart(value), LowHalf(value), h);
    var x := Plus(h, LowHalf(value));
    LowOfHigh(HighHalf(y), LowHalf(value));
    CarryOfLow(x, value, delta);
    HighOfAdd(x, delta);
    HighOfAdd(y, delta);
  }

  lemma ThumbTarget(v: word, p: word, d: word)
    ensures Plus(v, Disp(Plus(p, d), EvenPart(v))) == Plus(p, Plus(d, Bit0(v)))
  {
    hide *;
    EvenAndBit(v);
    Trade(EvenPart(v), Bit0(v), Plus(p, d));
    PlusAssociates(p, d, Bit0(v));
  }

  lemma DataMoves(t: RelType, z: word, y: word, value: word, p: word, q: word, delta: word)
    requires t in {Abs32, Target1, Rel32, Target2, Prel31}
    ensures Apply(t, z, Plus(Resolved(t, Apply(t, z, y, p), value, p), delta), q) == Apply(t, z, Plus(y, delta), q)
  {
    hide Prel31Word, Disp, Plus;
    PlusDisp(p, y);
    PlusDisp(value, y);
    PlusDisp(value, DecodeTarget(t, Apply(t, z, y, p), p));
    MovedDisp(p, Apply(t, z, y, p), delta, q);
    MovedDisp(p, Disp(y, p), delta, q);
    Prel31Moves(z, Disp(y, p), Disp(Plus(p, delta), q));
  }

  lemma ThmCallMoves(z: word, y: word, value: word, p: word, q: word, delta: word)
    requires Disp(Plus(p, delta), q) & 1 == 0
    ensures Apply(ThmCall, z, Plus(Resolved(ThmCall, Apply(ThmCall, z, y, p), value, p), delta), q)
         == Apply(ThmCall, z, Plus(y, delta), q)
  {
    hide ThmBranch, ThmBranchDisp, Disp, Plus, EvenPart, Bit0;
    var d, e := ThmBranchDisp(ThmBranch(z, Disp(y, p))), Disp(Plus(p, delta), q);
    PlusDisp(p, y);
    MovedDisp(p, Disp(y, p), delta, q);
    ThumbTarget(value, p, d);
    MovedDisp(p, Plus(d, Bit0(value)), delta, q);
    IsBit(value);
    ThmBranchMoves(z, Disp(y, p), Bit0(value), e);
  }

  lemma ArmCallMoves(t: RelType, z: word, y: word, value: word, p: word, q: word, delta: word)
    requires t in {Call, Jump24} && Disp(Plus(p, delta), q) & 3 == 0
    ensures Apply(t, z, Plus(Resolved(t, Apply(t, z, y, p), value, p), delta), q) == Apply(t, z, Plus(y, delta), q)
  {
    hide ArmBranch, ArmBranchDisp, Disp, Plus;
    var w, e := ArmBranch(z, Disp(y, p)), Disp(Plus(p, delta), q);
    PlusDisp(p, y);
    MovedDisp(p, Disp(y, p), delta, q);
    PlusDisp(value, Plus(p, ArmBranchDisp(w)));
    MovedDisp(p, ArmBranchDisp(w), delta, q);
    ArmBranchMoves(z, Disp(y, p), e);
  }

  lemma MovMoves(t: RelType, z: word, y: word, value: word, p: word, q: word, delta: word)
    requires t in {MovwAbsNc, ThmMovwAbsNc, MovtAbs, ThmMovtAbs}
    requires t in {MovtAbs, ThmMovtAbs} ==> Carry(value, delta) == Carry(y, delta)
    ensures Apply(t, z, Plus(Resolved(t, Apply(t, z, y, p), value, p), delta), q) == Apply(t, z, Plus(y, delta), q)
  {
    hide ArmMov, ArmMovImm, ThmMov, ThmMovImm, Disp, Plus, LowHalf, HighHalf, HighPart, ToHigh, Carry;
    LowIsHalf(y);
    HighIsHalf(y);
    if t in {MovwAbsNc, ThmMovwAbsNc} {
      MovReads(z, LowHalf(y));
      LowHalfMoves(value, y, delta);
    } else {
      MovReads(z, HighHalf(y));
      HighHalfMoves(value, y, delta);
    }
  }

  /** Moving what the converter recovered is linking at the new addresses: an instruction z that
      was resolved to y at p, recovered against the symbol, moved by delta and resolved at q, is
      z resolved to y + delta at q. */
  lemma ResolvedMoves(t: RelType, z: word, y: word, value: word, p: word, q: word, delta: word)
    requires IsNormal(t) && MovesExactly(t, value, y, delta, Disp(Plus(p, delta), q))
    ensures Apply(t, z, Plus(Resolved(t, Apply(t, z, y, p), value, p), delta), q) == Apply(t, z, Plus(y, delta), q)
  {
    hide Apply, Resolved, Disp, Plus, Carry;
    if t in {Abs32, Target1, Rel32, Target2, Prel31} {
      DataMoves(t, z, y, value, p, q, delta);
    } else if t == ThmCall {
      ThmCallMoves(z, y, value, p, q, delta);
    } else if t in {Call, Jump24} {
      ArmCallMoves(t, z, y, value, p, q, delta);
    } else {
      MovMoves(t, z, y, value, p, q, delta);
    }
  }
}
