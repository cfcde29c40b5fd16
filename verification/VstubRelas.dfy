/** `lookup_vstub_relas` of vita-elf.c: the relocations against imported variables leave the table that
    becomes `.sce.rel` and go to the stubs. The tables are one array here, in the order of the list. */
module VstubRelas {
  import opened ArmReloc
  import opened RelocTable
  import opened SceRel
  import opened Wrappers

  /** `vita_elf_rela_t`; symbols are told apart by their place in the symbol table. */
  datatype SymRela = SymRela(kind: RelType, symbol: Option<nat>, offset: word, addend: word)

  // ---- what the loop does ----

  /** The record for a relocation: its kind, its place in the image, and its addend. */
  ghost function RecordOf(segs: seq<Segment>, r: SymRela): VarRel
    requires |segs| <= 16 && SegmentOf(segs, r.offset).Some?
  {
    var i := SegmentOf(segs, r.offset).value;
    VarRel(CodeWord(r.kind), Nibble(i), SegOffset(segs, r.offset, i), r.addend)
  }

  ghost predicate Located(segs: seq<Segment>, relas: seq<SymRela>) {
    |segs| <= 16 && forall r :: r in relas && r.symbol.Some? ==> SegmentOf(segs, r.offset).Some?
  }

  /** The records of one symbol, in the order of the table. */
  ghost function RecordsOf(segs: seq<Segment>, relas: seq<SymRela>, y: nat): seq<VarRel>
    requires Located(segs, relas)
  {
    if relas == [] then []
    else
      var before, r := relas[..|relas| - 1], relas[|relas| - 1];
      if r.symbol == Some(y) then RecordsOf(segs, before, y) + [RecordOf(segs, r)] else RecordsOf(segs, before, y)
  }

  /** A relocation that has been taken over is no longer one of the table. */
  function Taken(r: SymRela, y: nat): SymRela {
    if r.symbol == Some(y) && IsFixed(r.kind) then r.(kind := RNone) else r
  }

  function TakenAll(relas: seq<SymRela>, y: nat): seq<SymRela> {
    seq(|relas|, i requires 0 <= i < |relas| => Taken(relas[i], y))
  }

  function Fixed(m: Memory, r: SymRela): Memory {
    if IsFixed(r.kind) then StoreWord(m, r.offset, FixupWord(r.kind, ReadWord(m, r.offset), r.offset)) else m
  }

  /** The image with the references to one symbol removed, in order. */
  function FixedAll(m: Memory, relas: seq<SymRela>, y: nat): Memory {
    if relas == [] then m
    else
      var before, r := relas[..|relas| - 1], relas[|relas| - 1];
      if r.symbol == Some(y) then Fixed(FixedAll(m, before, y), r) else FixedAll(m, before, y)
  }

  /** Every relocation against the symbol lies in a section with contents. */
  ghost predicate Covered(covers: word -> bool, relas: seq<SymRela>, y: nat) {
    forall r :: r in relas && r.symbol == Some(y) ==> covers(r.offset)
  }

  /** The record fits its fields, and its segment and offset name the place again. */
  lemma RecordResolves(segs: seq<Segment>, r: SymRela)
    requires |segs| <= 16 && SegmentOf(segs, r.offset).Some?
    ensures var i, rel := SegmentOf(segs, r.offset).value, RecordOf(segs, r);
      rel.Fits() && TypeOfWord(rel.code) == RelTypeOf(RelCode(r.kind)) && SegOf(rel.datseg) == i && Plus(segs[i].vaddr, rel.offset) == r.offset && rel.addend == r.addend
  {
    var i := SegmentOf(segs, r.offset).value;
    NibbleBack(i);
    CodeWordBack(r.kind);
    ZeroIsLeast(segs[i].vaddr);
    ZeroIsLeast(r.offset);
    hide Plus, SegOf, Nibble, CodeWord;
    OffsetRecoversAddress(segs, r.offset, i);
  }

  // ---- the loop ----

  class Loader {
    const segs: seq<Segment>
    const covers: word -> bool
    const relas: array<SymRela>
    var image: Memory

    constructor (segs: seq<Segment>, covers: word -> bool, relas: array<SymRela>, image: Memory)
      ensures this.segs == segs && this.covers == covers && this.relas == relas && this.image == image
    {
      this.segs, this.covers, this.relas, this.image := segs, covers, relas, image;
    }

    /** `fixup_vstub_rela`; it fails for a place in no section. */
    method Fixup(r: SymRela) returns (ok: bool, kind: RelType)
      modifies this
      ensures ok == covers(r.offset)
      ensures ok ==> kind == (if IsFixed(r.kind) then RNone else r.kind) && image == Fixed(old(image), r)
      ensures !ok ==> image == old(image)
    {
      kind := r.kind;
      if !covers(r.offset) {
        return false, kind;
      }
      ok := true;
      if IsFixed(r.kind) {
        image := StoreWord(image, r.offset, FixupWord(r.kind, ReadWord(image, r.offset), r.offset));
        kind := RNone;
      }
    }

    /** `create_vstub_short_rel` and `create_vstub_long_rel`; the form follows from the addend. */
    method CreateRel(r: SymRela) returns (rel: VarRel)
      requires |segs| <= 16 && SegmentOf(segs, r.offset).Some?
      ensures rel == RecordOf(segs, r)
    {
      var i := VaddrToSegndx(segs, r.offset);
      rel := VarRel(CodeWord(r.kind), Nibble(i.value), SegOffset(segs, r.offset, i.value), r.addend);
    }

    /** The relocations of one stub. */
    method LookupStub(y: nat) returns (ok: bool, rels: seq<VarRel>)
      requires Located(segs, relas[..])
      modifies this, relas
      ensures ok <==> Covered(covers, old(relas[..]), y)
      ensures ok ==> rels == RecordsOf(segs, old(relas[..]), y) && relas[..] == TakenAll(old(relas[..]), y)
      ensures ok ==> image == FixedAll(old(image), old(relas[..]), y)
    {
      hide RecordOf, RecordsOf, FixedAll, Fixed, SegmentOf;
      NoneYet(segs, y, image);
      ghost var was := relas[..];
      assert was[..0] == [];
      rels := [];
      var j := 0;
      while j < relas.Length
        invariant j <= relas.Length && Located(segs, was[..j]) && Covered(covers, was[..j], y)
        invariant rels == RecordsOf(segs, was[..j], y) && image == FixedAll(old(image), was[..j], y)
        invariant forall i :: 0 <= i < relas.Length ==> relas[i] == if i < j then Taken(was[i], y) else was[i]
      {
        var r := relas[j];
        assert r in was && was[..j + 1] == was[..j] + [r];
        OneMore(segs, was[..j], r, y, old(image));
        if r.symbol == Some(y) {
          var rel := CreateRel(r);
          rels := rels + [rel];
          var kind;
          ok, kind := Fixup(r);
          if !ok {
            return;
          }
          relas[j] := r.(kind := kind);
        }
        j := j + 1;
      }
      assert was[..j] == was;
      ok := true;
    }

    /** `lookup_vstub_relas`: every relocation against a stub's symbol goes to that stub, in the order
        of the table, and none of them is left there. */
    method Lookup(stubs: seq<nat>) returns (ok: bool, lists: seq<seq<VarRel>>)
      requires Located(segs, relas[..]) && Distinct(stubs)
      modifies this, relas
      ensures ok <==> forall y :: y in stubs ==> Covered(covers, old(relas[..]), y)
      ensures ok ==> |lists| == |stubs|
      ensures ok ==> forall i :: 0 <= i < |stubs| ==> lists[i] == RecordsOf(segs, old(relas[..]), stubs[i])
      ensures ok ==> relas[..] == TakenAny(old(relas[..]), stubs) && image == FixedFor(old(image), old(relas[..]), stubs)
    {
      ghost var was := relas[..];
      lists := [];
      hide *;
      TakenNone(was, image);
      assert stubs[..0] == [];
      while |lists| < |stubs|
        invariant |lists| <= |stubs| && Located(segs, was) && Located(segs, relas[..])
        invariant forall i :: 0 <= i < |lists| ==> lists[i] == RecordsOf(segs, was, stubs[i]) && Covered(covers, was, stubs[i])
        invariant relas[..] == TakenAny(was, stubs[..|lists|])
        invariant image == FixedFor(old(image), was, stubs[..|lists|])
      {
        ghost var n := |lists|;
        NextStub(segs, covers, was, stubs, n, old(image));
        var rels;
        ok, rels := LookupStub(stubs[|lists|]);
        if !ok {
          assert stubs[n] in stubs;
          return;
        }
        lists := lists + [rels];
      }
      assert stubs[..|lists|] == stubs;
      ok := true;
    }
  }

  lemma NoneYet(segs: seq<Segment>, y: nat, m: Memory)
    requires |segs| <= 16
    ensures RecordsOf(segs, [], y) == [] && FixedAll(m, [], y) == m
  {
  }

  lemma OneMore(segs: seq<Segment>, before: seq<SymRela>, r: SymRela, y: nat, m: Memory)
    requires Located(segs, before) && (r.symbol.Some? ==> SegmentOf(segs, r.offset).Some?)
    ensures var all := before + [r];
      && Located(segs, all)
      && RecordsOf(segs, all, y) == (if r.symbol == Some(y) then RecordsOf(segs, before, y) + [RecordOf(segs, r)] else RecordsOf(segs, before, y))
      && FixedAll(m, all, y) == (if r.symbol == Some(y) then Fixed(FixedAll(m, before, y), r) else FixedAll(m, before, y))
  {
    assert (before + [r])[..|before|] == before;
  }

  // ---- all stubs ----

  ghost predicate Distinct(ys: seq<nat>) {
    forall i, j :: 0 <= i < j < |ys| ==> ys[i] != ys[j]
  }

  lemma NotBefore(ys: seq<nat>, n: nat)
    requires Distinct(ys) && n < |ys|
    ensures ys[n] !in ys[..n]
  {
  }

  predicate Against(r: SymRela, ys: seq<nat>) {
    r.symbol.Some? && r.symbol.value in ys
  }

  function TakenAny(relas: seq<SymRela>, ys: seq<nat>): seq<SymRela> {
    seq(|relas|, i requires 0 <= i < |relas| =>
      if Against(relas[i], ys) && IsFixed(relas[i].kind) then relas[i].(kind := RNone) else relas[i])
  }

  function FixedFor(m: Memory, relas: seq<SymRela>, ys: seq<nat>): Memory {
    if ys == [] then m else FixedAll(FixedFor(m, relas, ys[..|ys| - 1]), relas, ys[|ys| - 1])
  }

  lemma TakenNone(relas: seq<SymRela>, m: Memory)
    ensures TakenAny(relas, []) == relas && FixedFor(m, relas, []) == m
  {
  }

  lemma TakenMore(segs: seq<Segment>, relas: seq<SymRela>, ys: seq<nat>, y: nat, m: Memory)
    requires Located(segs, relas)
    ensures TakenAll(TakenAny(relas, ys), y) == TakenAny(relas, ys + [y]) && Located(segs, TakenAny(relas, ys + [y]))
    ensures FixedFor(m, relas, ys + [y]) == FixedAll(FixedFor(m, relas, ys), relas, y)
  {
    assert (ys + [y])[..|ys|] == ys;
  }

  /** What other stubs took does not matter to this one. */
  lemma {:induction false} OthersKeep(segs: seq<Segment>, covers: word -> bool, relas: seq<SymRela>, ys: seq<nat>, y: nat, m: Memory)
    requires Located(segs, relas) && y !in ys
    ensures var left := TakenAny(relas, ys);
      && Located(segs, left) && RecordsOf(segs, left, y) == RecordsOf(segs, relas, y)
      && (Covered(covers, left, y) <==> Covered(covers, relas, y)) && FixedAll(m, left, y) == FixedAll(m, relas, y)
  {
    hide RecordOf, Fixed, SegmentOf;
    var left := TakenAny(relas, ys);
    if relas != [] {
      var n := |relas| - 1;
      OthersKeep(segs, covers, relas[..n], ys, y, m);
      assert TakenAny(relas[..n], ys) == left[..n];
      assert relas == relas[..n] + [relas[n]] && left == left[..n] + [left[n]];
    }
  }

  /** The next stub finds what it would have found in the first place. */
  lemma NextStub(segs: seq<Segment>, covers: word -> bool, relas: seq<SymRela>, stubs: seq<nat>, n: nat, m: Memory)
    requires Located(segs, relas) && Distinct(stubs) && n < |stubs|
    ensures var left, y := TakenAny(relas, stubs[..n]), stubs[n];
      && Located(segs, left) && RecordsOf(segs, left, y) == RecordsOf(segs, relas, y)
      && (Covered(covers, left, y) <==> Covered(covers, relas, y))
      && TakenAll(left, y) == TakenAny(relas, stubs[..n + 1]) && Located(segs, TakenAny(relas, stubs[..n + 1]))
      && FixedAll(FixedFor(m, relas, stubs[..n]), left, y) == FixedFor(m, relas, stubs[..n + 1])
  {
    hide *;
    NotBefore(stubs, n);
    OthersKeep(segs, covers, relas, stubs[..n], stubs[n], FixedFor(m, relas, stubs[..n]));
    TakenMore(segs, relas, stubs[..n], stubs[n], m);
    assert stubs[..n + 1] == stubs[..n] + [stubs[n]];
  }

  /** No relocation of the kinds that are fixed up is left for the stubs' symbols, and all others are
      what they were. */
  lemma NoneLeft(relas: seq<SymRela>, ys: seq<nat>, i: nat)
    requires i < |relas|
    ensures var r := TakenAny(relas, ys)[i];
      && !(Against(r, ys) && IsFixed(r.kind))
      && (!Against(relas[i], ys) ==> r == relas[i])
      && r == relas[i].(kind := r.kind)
  {
  }

  ghost function CountAgainst(relas: seq<SymRela>, ys: seq<nat>): nat {
    if relas == [] then 0 else CountAgainst(relas[..|relas| - 1], ys) + if Against(relas[|relas| - 1], ys) then 1 else 0
  }

  ghost function Total(segs: seq<Segment>, relas: seq<SymRela>, ys: seq<nat>): nat
    requires Located(segs, relas)
  {
    if ys == [] then 0 else Total(segs, relas, ys[..|ys| - 1]) + |RecordsOf(segs, relas, ys[|ys| - 1])|
  }

  lemma {:induction false} CountOne(segs: seq<Segment>, relas: seq<SymRela>, ys: seq<nat>, y: nat)
    requires Located(segs, relas) && y !in ys
    ensures CountAgainst(relas, ys + [y]) == CountAgainst(relas, ys) + |RecordsOf(segs, relas, y)|
  {
    if relas != [] {
      CountOne(segs, relas[..|relas| - 1], ys, y);
    }
  }

  lemma {:induction false} CountNone(relas: seq<SymRela>)
    ensures CountAgainst(relas, []) == 0
  {
    if relas != [] {
      CountNone(relas[..|relas| - 1]);
    }
  }

  /** The stubs' lists together have one record for every relocation against one of their symbols. */
  lemma {:induction false} EachToOneStub(segs: seq<Segment>, relas: seq<SymRela>, ys: seq<nat>)
    requires Located(segs, relas) && Distinct(ys)
    ensures Total(segs, relas, ys) == CountAgainst(relas, ys)
  {
    if ys == [] {
      CountNone(relas);
    } else {
      var n := |ys| - 1;
      NotBefore(ys, n);
      EachToOneStub(segs, relas, ys[..n]);
      CountOne(segs, relas, ys[..n], ys[n]);
      assert ys == ys[..n] + [ys[n]];
    }
  }
}
