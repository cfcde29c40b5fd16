/** The removal of the variable stub sections in `sce_elf_rewrite_stubs` (sce-elf.c), and the repair of
    every index behind them. */
module SectionRenumber {
  /** A section header, with the number that the section had at first. */
  datatype Section = Section(id: nat, link: nat, info: nat)

  // ---- where an index goes ----

  function Below(removed: seq<nat>, n: nat): (b: nat)
    ensures b <= |removed|
  {
    if removed == [] then 0 else (if removed[0] < n then 1 else 0) + Below(removed[1..], n)
  }

  ghost predicate Ascending(s: seq<nat>) {
    forall i, j :: 0 <= i < j < |s| ==> s[i] < s[j]
  }

  /** Ascending numbers above r leave room for themselves below n. */
  lemma {:induction false} RoomBelow(removed: seq<nat>, r: int, n: nat)
    requires Ascending(removed) && forall x :: x in removed ==> r < x
    ensures Below(removed, n) <= if n <= r + 1 then 0 else n - r - 1
  {
    if removed != [] {
      var rest := removed[1..];
      assert removed[0] in removed;
      forall x | x in rest
        ensures removed[0] < x
      {
        var i :| 0 <= i < |rest| && rest[i] == x;
        assert removed[i + 1] == x;
      }
      RoomBelow(rest, removed[0], n);
    }
  }

  /** The index after the removals: the one before, minus the sections removed below it. */
  function Moved(removed: seq<nat>, n: nat): nat {
    var b := Below(removed, n);
    if b <= n then n - b else 0
  }

  /** `if (x > cur) x--`. */
  function Down(x: nat, cur: nat): nat {
    if x > cur then x - 1 else x
  }

  function Lowered(s: Section, cur: nat): Section {
    Section(s.id, Down(s.link, cur), Down(s.info, cur))
  }

  /** One more removal, below all that were made before. */
  lemma MovedOn(removed: seq<nat>, r: nat, n: nat)
    requires Ascending([r] + removed)
    ensures Moved([r] + removed, n) == Down(Moved(removed, n), r)
    ensures n <= r ==> Moved(removed, n) == n
    ensures n > r ==> Moved(removed, n) > r
  {
    AboveFirst(r, removed);
    RoomBelow(removed, r, n);
  }

  lemma AboveFirst(r: nat, removed: seq<nat>)
    requires Ascending([r] + removed)
    ensures Ascending(removed) && forall x :: x in removed ==> r < x
  {
    var all := [r] + removed;
    assert forall i :: 0 <= i < |removed| ==> removed[i] == all[i + 1] && all[0] < all[i + 1];
  }

  /** A symbol's section; the symbols of a removed section belong to none. */
  function SymbolMoved(removed: seq<nat>, n: nat): nat {
    if n in removed then 0 else Moved(removed, n)
  }

  /** Where every surviving section of the old table is in the new one, and what its header says. The
      first header is not a section's and is never looked at. */
  ghost predicate Renumbered(was: seq<Section>, removed: seq<nat>, now: seq<Section>) {
    && |was| == |now| + |removed| && now != [] && was != [] && now[0] == was[0]
    && forall n :: 0 < n < |was| && n !in removed ==>
         && 0 < Moved(removed, n) < |now|
         && now[Moved(removed, n)] == Section(was[n].id, Moved(removed, was[n].link), Moved(removed, was[n].info))
  }

  // ---- the loop ----

  class Elf {
    var sections: seq<Section>
    var shstrndx: nat
    var symtabNdx: nat
    var vstubs: seq<nat>
    const symbols: array<nat>

    constructor (sections: seq<Section>, shstrndx: nat, symtabNdx: nat, vstubs: seq<nat>, symbols: array<nat>)
      ensures this.sections == sections && this.shstrndx == shstrndx && this.symtabNdx == symtabNdx
      ensures this.vstubs == vstubs && this.symbols == symbols
    {
      this.sections, this.shstrndx, this.symtabNdx := sections, shstrndx, symtabNdx;
      this.vstubs, this.symbols := vstubs, symbols;
    }

    /** `update_symtab_entries`. */
    method UpdateSymtabEntries(cur: nat)
      modifies symbols
      ensures forall i :: 0 <= i < symbols.Length ==>
        symbols[i] == if old(symbols[i]) == cur then 0 else Down(old(symbols[i]), cur)
    {
      var i := 0;
      while i < symbols.Length
        invariant i <= symbols.Length
        invariant forall j :: 0 <= j < symbols.Length ==>
          symbols[j] == if j >= i then old(symbols[j]) else if old(symbols[j]) == cur then 0 else Down(old(symbols[j]), cur)
      {
        if symbols[i] == cur {
          symbols[i] := 0;
        } else if symbols[i] > cur {
          symbols[i] := symbols[i] - 1;
        }
        i := i + 1;
      }
    }

    /** The links of all sections that are left; the first header is skipped. */
    method UpdateLinks(cur: nat)
      modifies this`sections
      ensures |sections| == |old(sections)| && (sections != [] ==> sections[0] == old(sections[0]))
      ensures forall k :: 0 < k < |sections| ==>
        sections[k] == Lowered(old(sections[k]), cur)
    {
      var k := 1;
      while k < |sections|
        invariant 1 <= k && |sections| == |old(sections)| && (sections != [] ==> sections[0] == old(sections[0]))
        invariant forall j :: 0 < j < |sections| ==>
          sections[j] == if j >= k then old(sections[j]) else Lowered(old(sections[j]), cur)
        decreases |sections| - k
      {
        var s := sections[k];
        if s.link > cur {
          s := s.(link := s.link - 1);
        }
        if s.info > cur {
          s := s.(info := s.info - 1);
        }
        sections := sections[k := s];
        k := k + 1;
      }
    }

    /** One stub section, the last of those that are left; those behind it are already gone. */
    method RemoveOne(ghost all: seq<nat>, ghost was: seq<Section>)
      requires vstubs != [] && vstubs <= all && Ascending(all) && Renumbered(was, all[|vstubs|..], sections)
      requires forall x :: x in all ==> 0 < x < |was|
      modifies this, symbols
      ensures vstubs == old(vstubs)[..|old(vstubs)| - 1]
      ensures Renumbered(was, all[|vstubs|..], sections)
      ensures shstrndx == Down(old(shstrndx), all[|vstubs|]) && symtabNdx == Down(old(symtabNdx), all[|vstubs|])
      ensures forall i :: 0 <= i < symbols.Length ==>
        symbols[i] == if old(symbols[i]) == all[|vstubs|] then 0 else Down(old(symbols[i]), all[|vstubs|])
    {
      var j := |vstubs| - 1;
      var cur := vstubs[j];
      ghost var removed := all[j + 1..];
      Tail(all, j);
      assert cur == all[j] && cur in all;
      Before(was, removed, cur, sections);
      ghost var full := sections;
      sections := sections[..cur] + sections[cur + 1..];
      if shstrndx > cur {
        shstrndx := shstrndx - 1;
      }
      if symtabNdx > cur {
        symtabNdx := symtabNdx - 1;
      }
      UpdateLinks(cur);
      OneRemoved(was, removed, cur, full, sections);
      UpdateSymtabEntries(cur);
      vstubs := vstubs[..j];
    }

    /** The variable half of `sce_elf_rewrite_stubs`: the stub sections go from the last to the first,
        and everything that names a section by number follows. */
    method RemoveStubs()
      requires sections != [] && Ascending(vstubs) && forall x :: x in vstubs ==> 0 < x < |sections|
      modifies this, symbols
      ensures Renumbered(old(sections), old(vstubs), sections) && vstubs == []
      ensures shstrndx == Moved(old(vstubs), old(shstrndx)) && symtabNdx == Moved(old(vstubs), old(symtabNdx))
      ensures forall i :: 0 <= i < symbols.Length ==> symbols[i] == SymbolMoved(old(vstubs), old(symbols[i]))
    {
      ghost var was, all := sections, vstubs;
      NothingMoved(sections);
      assert all[|all|..] == [] && all[0..] == all;
      hide *;
      while vstubs != []
        invariant vstubs <= all && Renumbered(was, all[|vstubs|..], sections)
        invariant shstrndx == Moved(all[|vstubs|..], old(shstrndx)) && symtabNdx == Moved(all[|vstubs|..], old(symtabNdx))
        invariant forall i :: 0 <= i < symbols.Length ==> symbols[i] == SymbolMoved(all[|vstubs|..], old(symbols[i]))
        decreases |vstubs|
      {
        ghost var j := |vstubs| - 1;
        assert all[j] in all;
        AllMovedOn(all, j);
        RemoveOne(all, was);
        assert |vstubs| == j;
      }
    }
  }

  lemma Tail(all: seq<nat>, j: nat)
    requires j < |all| && Ascending(all)
    ensures all[j..] == [all[j]] + all[j + 1..] && Ascending([all[j]] + all[j + 1..])
  {
    assert forall i :: 0 <= i < |all| - j ==> all[j..][i] == all[j + i];
  }

  /** How the next removal changes every number. */
  lemma AllMovedOn(all: seq<nat>, j: nat)
    requires j < |all| && Ascending(all) && 0 < all[j]
    ensures forall n: nat :: Moved(all[j..], n) == Down(Moved(all[j + 1..], n), all[j])
    ensures forall n: nat :: SymbolMoved(all[j..], n) == (if SymbolMoved(all[j + 1..], n) == all[j] then 0 else Down(SymbolMoved(all[j + 1..], n), all[j]))
  {
    Tail(all, j);
    var r, removed := all[j], all[j + 1..];
    forall n: nat
      ensures Moved(all[j..], n) == Down(Moved(removed, n), r)
      ensures SymbolMoved(all[j..], n) == if SymbolMoved(removed, n) == r then 0 else Down(SymbolMoved(removed, n), r)
    {
      MovedOn(removed, r, n);
      SymbolMovedOn(removed, r, n);
    }
  }

  lemma NothingMoved(was: seq<Section>)
    requires was != []
    ensures Renumbered(was, [], was) && forall n: nat :: Moved([], n) == SymbolMoved([], n) == n
  {
  }

  /** A symbol that is not of the removed section has not come to look like one. */
  lemma SymbolMovedOn(removed: seq<nat>, r: nat, n: nat)
    requires Ascending([r] + removed) && 0 < r
    ensures SymbolMoved([r] + removed, n) == if SymbolMoved(removed, n) == r then 0 else Down(SymbolMoved(removed, n), r)
  {
    MovedOn(removed, r, n);
    AboveFirst(r, removed);
    assert n in [r] + removed <==> n == r || n in removed;
  }

  /** The section to be removed has not moved: all removed ones were behind it. */
  lemma Before(was: seq<Section>, removed: seq<nat>, cur: nat, now: seq<Section>)
    requires Renumbered(was, removed, now) && Ascending([cur] + removed) && 0 < cur < |was|
    ensures 0 < cur < |now| && cur !in removed && Moved(removed, cur) == cur
  {
    MovedOn(removed, cur, cur);
    AboveFirst(cur, removed);
  }

  lemma OneRemoved(was: seq<Section>, removed: seq<nat>, cur: nat, full: seq<Section>, now: seq<Section>)
    requires Renumbered(was, removed, full) && Ascending([cur] + removed) && 0 < cur < |full| && cur < |was|
    requires |now| == |full| - 1 && now[0] == full[0]
    requires forall k :: 0 < k < |now| && k < cur ==> now[k] == Lowered(full[k], cur)
    requires forall k :: cur <= k < |now| ==> now[k] == Lowered(full[k + 1], cur)
    ensures Renumbered(was, [cur] + removed, now)
  {
    var all := [cur] + removed;
    forall n | 0 < n < |was| && n !in all
      ensures 0 < Moved(all, n) < |now|
      ensures now[Moved(all, n)] == Section(was[n].id, Moved(all, was[n].link), Moved(all, was[n].info))
    {
      MovedOn(removed, cur, n);
      MovedOn(removed, cur, was[n].link);
      MovedOn(removed, cur, was[n].info);
      assert (n in removed ==> n in all) && all[0] == cur && n != cur;
      var k, f := Moved(all, n), full[Moved(removed, n)];
      assert f == Section(was[n].id, Moved(removed, was[n].link), Moved(removed, was[n].info));
      assert 0 < k < |now| && f == if k < cur then full[k] else full[k + 1];
      assert now[k] == Lowered(f, cur);
    }
  }

  // ---- what an index names ----

  lemma {:induction false} BelowNext(removed: seq<nat>, n: nat)
    requires Ascending(removed)
    ensures Below(removed, n + 1) == Below(removed, n) + if n in removed then 1 else 0
  {
    if removed != [] {
      var r, rest := removed[0], removed[1..];
      assert removed == [r] + rest;
      AboveFirst(r, rest);
      BelowNext(rest, n);
    }
  }

  lemma {:induction false} BelowAll(removed: seq<nat>, n: nat)
    requires forall x :: x in removed ==> x < n
    ensures Below(removed, n) == |removed|
  {
    if removed != [] {
      assert removed[0] in removed && forall x :: x in removed[1..] ==> x in removed;
      BelowAll(removed[1..], n);
    }
  }

  /** Behind a removed section comes the next survivor, or the end of the table. */
  lemma {:induction false} NextSurvivor(was: seq<Section>, removed: seq<nat>, now: seq<Section>, n: nat, m: nat)
    requires Renumbered(was, removed, now) && Ascending(removed) && 0 < n <= m <= |was| && n in removed
    requires forall x :: x in removed ==> 0 < x < |was|
    requires (forall k :: n <= k < m ==> k in removed) && Moved(removed, m) == Moved(removed, n)
    ensures Moved(removed, n) == |now| || exists k :: n < k < |was| && k !in removed && Moved(removed, k) == Moved(removed, n)
    decreases |was| - m
  {
    RoomBelow(removed, 0, m);
    if m == |was| {
      BelowAll(removed, m);
    } else if m in removed {
      BelowNext(removed, m);
      RoomBelow(removed, 0, m + 1);
      NextSurvivor(was, removed, now, n, m + 1);
    }
  }

  /** A link that is moved names the section it named before exactly when that section was not removed;
      the sections' numbers are taken to be told apart. */
  lemma LinkKeptIff(was: seq<Section>, removed: seq<nat>, now: seq<Section>, n: nat)
    requires Renumbered(was, removed, now) && Ascending(removed) && 0 < n < |was|
    requires forall i, j :: 0 <= i < j < |was| ==> was[i].id != was[j].id
    requires forall x :: x in removed ==> 0 < x < |was|
    ensures (Moved(removed, n) < |now| && now[Moved(removed, n)].id == was[n].id) <==> n !in removed
  {
    if n in removed {
      NextSurvivor(was, removed, now, n, n);
    }
  }

  /** A number that is no section's, such as SHN_ABS in a symbol, is changed by every removal. */
  lemma ReservedMoves(removed: seq<nat>, n: nat)
    requires Ascending(removed) && forall x :: x in removed ==> 0 < x < n
    ensures SymbolMoved(removed, n) == n - |removed|
    ensures SymbolMoved(removed, n) == n <==> removed == []
  {
    RoomBelow(removed, 0, n);
    BelowAll(removed, n);
  }
}
