/** The circular doubly linked lists of vita-nid-db.c: a firmware holds a list of modules, a module a
    list of libraries, and a library a list of functions and one of variables. Every list ends in a
    head inside the record that owns it, so a list is never null and never needs a case of its own. */
module NidDb {
  /** What the searches compare: a firmware number, or a name. */
  datatype Key = Firmware(number: nat) | Name(name: string)

  /** `DBFirmware`, `DBModule`, `DBLibrary`, `DBEntry`, and the heads of the lists they own. The heads
      are part of their owner and go away with it. */
  class Node {
    var next: Node
    var prev: Node
    const key: Key
    const heads: seq<Node>

    constructor (key: Key, heads: seq<Node>)
      ensures next == this && prev == this && this.key == key && this.heads == heads
    {
      next, prev := this, this;
      this.key, this.heads := key, heads;
    }
  }

  /** Once around: from the head over the cells and back. */
  function Around(head: Node, cells: seq<Node>): seq<Node> {
    [head] + cells + [head]
  }

  ghost predicate Distinct(s: seq<Node>) {
    forall i, j :: 0 <= i < j < |s| ==> s[i] != s[j]
  }

  /** next and prev are inverse to each other all around, and no node is met twice. */
  ghost predicate Ring(head: Node, cells: seq<Node>)
    reads head, cells
  {
    && Distinct([head] + cells)
    && (forall i :: 0 <= i <= |cells| ==> Around(head, cells)[i].next == Around(head, cells)[i + 1])
    && (forall i :: 0 < i <= |cells| + 1 ==> Around(head, cells)[i].prev == Around(head, cells)[i - 1])
  }

  lemma NeverHead(head: Node, cells: seq<Node>)
    requires Ring(head, cells)
    ensures forall i :: 1 <= i <= |cells| ==> Around(head, cells)[i] == cells[i - 1] != head
  {
    forall i | 1 <= i <= |cells|
      ensures Around(head, cells)[i] == cells[i - 1] != head
    {
      var s := [head] + cells;
      assert s[0] == head && s[i] == cells[i - 1];
    }
  }

  // ---- creating and searching ----

  /** `db_new_firmware`, `db_new_module`, `db_new_library`, `db_new_entry_*`: the new record goes to
      the tail, with empty lists of its own. */
  method Append(head: Node, key: Key, heads: seq<Node>, ghost cells: seq<Node>) returns (n: Node)
    requires Ring(head, cells)
    modifies head, cells
    ensures fresh(n) && n.key == key && n.heads == heads
    ensures Ring(head, cells + [n])
  {
    n := new Node(key, heads);
    var tail := head.prev;
    assert Around(head, cells)[|cells| + 1] == head && Around(head, cells)[|cells|] == tail;
    n.next := tail.next;
    n.prev := tail;
    tail.next.prev := n;
    tail.next := n;
    ghost var was, now := Around(head, cells), Around(head, cells + [n]);
    assert now == was[..|cells| + 1] + [n, head];
    assert n !in [head] + cells && [head] + (cells + [n]) == [head] + cells + [n];
  }

  ghost predicate FirstWith(cells: seq<Node>, key: Key, r: Node?) {
    if r == null then forall c :: c in cells ==> c.key != key
    else r.key == key && exists i :: 0 <= i < |cells| && cells[i] == r && forall j :: 0 <= j < i ==> cells[j].key != key
  }

  /** `db_search_*`: the first record with the key. */
  method Search(head: Node, key: Key, ghost cells: seq<Node>) returns (r: Node?)
    requires Ring(head, cells)
    ensures FirstWith(cells, key, r)
  {
    ghost var around := Around(head, cells);
    NeverHead(head, cells);
    ghost var k := 1;
    var n := head.next;
    assert around[0].next == around[1];
    while n != head
      invariant 1 <= k <= |cells| + 1 && n == around[k]
      invariant forall j :: 0 <= j < k - 1 ==> cells[j].key != key
      decreases |cells| - k
    {
      assert n == cells[k - 1];
      if n.key == key {
        return n;
      }
      assert around[k].next == around[k + 1];
      n := n.next;
      k := k + 1;
    }
    assert k == |cells| + 1;
    r := null;
  }

  function Keys(cells: seq<Node>): seq<Key> {
    seq(|cells|, i requires 0 <= i < |cells| => cells[i].key)
  }

  ghost predicate NoneTwice(keys: seq<Key>) {
    forall i, j :: 0 <= i < j < |keys| ==> keys[i] != keys[j]
  }

  /** `db_search_or_new_*`: no key is ever there twice, and the order is that of first appearance. */
  method SearchOrNew(head: Node, key: Key, heads: seq<Node>, ghost cells: seq<Node>)
    returns (r: Node, ghost cells': seq<Node>)
    requires Ring(head, cells)
    modifies head, cells
    ensures Ring(head, cells') && r in cells' && r.key == key
    ensures key in Keys(cells) ==> cells' == cells && unchanged(head, cells)
    ensures key !in Keys(cells) ==> cells' == cells + [r] && fresh(r) && r.heads == heads
    ensures NoneTwice(Keys(cells)) ==> NoneTwice(Keys(cells'))
  {
    var found := Search(head, key, cells);
    if found == null {
      assert key !in Keys(cells) by {
        forall i | 0 <= i < |cells|
          ensures Keys(cells)[i] != key
        {
          assert cells[i] in cells;
        }
      }
      r := Append(head, key, heads, cells);
      cells' := cells + [r];
      assert Keys(cells') == Keys(cells) + [key];
    } else {
      ghost var i :| 0 <= i < |cells| && cells[i] == found;
      assert Keys(cells)[i] == key;
      r, cells' := found, cells;
    }
  }

  // ---- visiting ----

  /** The nodes a visit reaches before its callback answers with an error. */
  function Reached(cells: seq<Node>, callback: Node -> int): seq<Node> {
    if cells == [] then []
    else if callback(cells[0]) < 0 then [cells[0]]
    else [cells[0]] + Reached(cells[1..], callback)
  }

  lemma {:induction false} ReachedAll(cells: seq<Node>, callback: Node -> int)
    ensures Reached(cells, callback) <= cells
    ensures Reached(cells, callback) == cells || exists n :: n in cells && callback(n) < 0
    ensures (forall n :: n in cells ==> callback(n) >= 0) ==> Reached(cells, callback) == cells
  {
    if cells != [] && callback(cells[0]) >= 0 {
      ReachedAll(cells[1..], callback);
      assert [cells[0]] + cells[1..] == cells;
    }
  }

  /** `db_execute_*_vector`: every node once, in order, up to the first error. */
  method Execute(head: Node, callback: Node -> int, ghost cells: seq<Node>) returns (res: int, ghost visited: seq<Node>)
    requires Ring(head, cells)
    ensures visited == Reached(cells, callback)
    ensures res == if exists n :: n in cells && callback(n) < 0 then -1 else 0
  {
    ghost var around := Around(head, cells);
    NeverHead(head, cells);
    ghost var k := 1;
    visited := [];
    var n := head.next;
    assert around[0].next == around[1];
    while n != head
      invariant 1 <= k <= |cells| + 1 && n == around[k]
      invariant forall j :: 0 <= j < k - 1 ==> callback(cells[j]) >= 0
      invariant visited + Reached(cells[k - 1..], callback) == Reached(cells, callback)
      decreases |cells| - k
    {
      assert n == cells[k - 1] && around[k].next == around[k + 1];
      var next := n.next;
      visited := visited + [n];
      res := callback(n);
      if res < 0 {
        return -1, visited;
      }
      assert cells[k - 1..][1..] == cells[k..];
      n := next;
      k := k + 1;
    }
    assert k == |cells| + 1;
    res := 0;
  }

  // ---- freeing ----

  /** A record with all that hangs below it, and a list of such records with its head. */
  datatype Tree = Tree(node: Node, lists: seq<List>)
  datatype List = List(head: Node, items: seq<Tree>)

  function Nodes(f: seq<Tree>): seq<Node> {
    seq(|f|, i requires 0 <= i < |f| => f[i].node)
  }

  function Heads(ls: seq<List>): seq<Node> {
    seq(|ls|, i requires 0 <= i < |ls| => ls[i].head)
  }

  function Elements(s: seq<Node>): set<Node> {
    set n | n in s
  }

  /** Everything below the records of f. */
  function Inner(f: seq<Tree>): set<Node>
    decreases f
  {
    if f == [] then {} else Under(f[0].lists) + Inner(f[1..])
  }

  function Under(ls: seq<List>): set<Node>
    decreases ls
  {
    if ls == [] then {} else {ls[0].head} + Elements(Nodes(ls[0].items)) + Inner(ls[0].items) + Under(ls[1..])
  }

  /** The records of f and everything below them. */
  function Cells(f: seq<Tree>): set<Node> {
    Elements(Nodes(f)) + Inner(f)
  }

  /** The lists of all the records of f, and of the records in those lists, are rings of their own. */
  ghost predicate Held(f: seq<Tree>)
    reads Inner(f)
    decreases f
  {
    f != [] ==>
      && f[0].node.heads == Heads(f[0].lists)
      && HeldLists(f[0].lists) && Held(f[1..])
      && Under(f[0].lists) !! Inner(f[1..])
  }

  ghost predicate HeldLists(ls: seq<List>)
    reads Under(ls)
    decreases ls
  {
    ls != [] ==>
      && HeldList(ls[0]) && HeldLists(ls[1..])
      && {ls[0].head} + Cells(ls[0].items) !! Under(ls[1..])
  }

  ghost predicate HeldList(l: List)
    reads l.head, Nodes(l.items), Inner(l.items)
    decreases l, 0
  {
    && Ring(l.head, Nodes(l.items)) && Held(l.items)
    && {l.head} + Elements(Nodes(l.items)) !! Inner(l.items)
  }

  /** Everything below a record goes before the record itself. */
  function BottomUp(f: seq<Tree>): seq<Node>
    decreases f
  {
    if f == [] then [] else BottomUpLists(f[0].lists) + [f[0].node] + BottomUp(f[1..])
  }

  function BottomUpLists(ls: seq<List>): seq<Node>
    decreases ls
  {
    if ls == [] then [] else BottomUp(ls[0].items) + BottomUpLists(ls[1..])
  }

  // A link is only read or written while its record has not been freed.

  function NextOf(n: Node, ghost alive: set<Node>): Node
    requires n in alive
    reads n
  {
    n.next
  }

  function PrevOf(n: Node, ghost alive: set<Node>): Node
    requires n in alive
    reads n
  {
    n.prev
  }

  /** Around the list without n: the same nodes, and only the ends are ever the same node. */
  lemma WithoutOne(head: Node, before: seq<Node>, n: Node, after: seq<Node>)
    requires Distinct([head] + (before + [n] + after))
    ensures Distinct([head] + (before + after)) && n !in [head] + (before + after)
    ensures var was, now, k := Around(head, before + [n] + after), Around(head, before + after), |before| + 1;
      && |was| == |now| + 1 && was[k] == n && was[..k] == now[..k] && was[k + 1..] == now[k..]
      && (forall i, j :: 0 <= i < j < |was| && !(i == 0 && j == |was| - 1) ==> was[i] != was[j])
  {
    var a, b := [head] + (before + [n] + after), [head] + (before + after);
    var was, now, k := Around(head, before + [n] + after), Around(head, before + after), |before| + 1;
    assert a == [head] + before + [n] + after && b == [head] + before + after;
    assert a[k] == n && b == a[..k] + a[k + 1..];
    assert was == a + [head] && now == b + [head];
    assert was[k + 1..] == a[k + 1..] + [head];
    assert forall j :: 0 < j < |a| ==> a[0] != a[j];
  }

  lemma Shifted(was: seq<Node>, now: seq<Node>, k: nat, i: nat)
    requires |was| == |now| + 1 && k < |was| && was[..k] == now[..k] && was[k + 1..] == now[k..] && i < |now|
    ensures now[i] == if i < k then was[i] else was[i + 1]
  {
    if i < k {
      assert now[i] == now[..k][i] == was[..k][i];
    } else {
      assert now[i] == now[k..][i - k] == was[k + 1..][i - k];
    }
  }

  /** The two neighbours of n are joined; every other link stays. */
  method Unlink(n: Node, head: Node, ghost before: seq<Node>, ghost after: seq<Node>, ghost alive: set<Node>)
    requires Ring(head, before + [n] + after) && {head, n} + Elements(before) + Elements(after) <= alive
    modifies head, before, after
    ensures Ring(head, before + after)
  {
    ghost var was, now, k := Around(head, before + [n] + after), Around(head, before + after), |before| + 1;
    WithoutOne(head, before, n, after);
    assert was[k].next == was[k + 1] && was[k].prev == was[k - 1];
    assert was[k + 1] in {head} + Elements(after) && was[k - 1] in {head} + Elements(before);
    var next := NextOf(n, alive);
    var prev := PrevOf(n, alive);
    next.prev := prev;
    prev.next := next;
    forall i | 0 <= i <= |before + after|
      ensures now[i].next == now[i + 1]
    {
      Shifted(was, now, k, i);
      Shifted(was, now, k, i + 1);
      if i < k - 1 {
        assert was[i].next == was[i + 1];
      } else if i >= k {
        assert was[i + 1].next == was[i + 2];
      }
    }
    forall i | 0 < i <= |before + after| + 1
      ensures now[i].prev == now[i - 1]
    {
      Shifted(was, now, k, i);
      Shifted(was, now, k, i - 1);
      if i < k {
        assert was[i].prev == was[i - 1];
      } else if i > k {
        assert was[i + 1].prev == was[i];
      }
    }
  }

  lemma FirstRecord(f: seq<Tree>)
    requires f != []
    ensures Nodes(f) == [f[0].node] + Nodes(f[1..])
    ensures Elements(Nodes(f)) == {f[0].node} + Elements(Nodes(f[1..]))
    ensures Inner(f) == Under(f[0].lists) + Inner(f[1..])
    ensures BottomUp(f) == BottomUpLists(f[0].lists) + [f[0].node] + BottomUp(f[1..])
    ensures Held(f) ==> f[0].node.heads == Heads(f[0].lists) && HeldLists(f[0].lists) && Held(f[1..])
    ensures Held(f) ==> Under(f[0].lists) !! Inner(f[1..])
  {
    assert Nodes(f) == [f[0].node] + Nodes(f[1..]);
  }

  lemma FirstList(ls: seq<List>)
    requires ls != []
    ensures Heads(ls) == [ls[0].head] + Heads(ls[1..])
    ensures Under(ls) == {ls[0].head} + Cells(ls[0].items) + Under(ls[1..])
    ensures BottomUpLists(ls) == BottomUp(ls[0].items) + BottomUpLists(ls[1..])
    ensures HeldLists(ls) ==> HeldList(ls[0]) && HeldLists(ls[1..])
    ensures HeldLists(ls) ==> {ls[0].head} + Cells(ls[0].items) !! Under(ls[1..])
  {
  }

  /** The first record, what hangs below it, and the rest of the list have nothing in common. */
  lemma FirstApart(head: Node, f: seq<Tree>)
    requires HeldList(List(head, f)) && f != []
    ensures var n, u, c := f[0].node, Under(f[0].lists), Cells(f[1..]);
      && Cells(f) == {n} + u + c && n !in u && n !in c && u !! c && head !in {n} + u + c
    ensures Elements(Nodes(f[1..])) <= Cells(f[1..]) && Inner(f[1..]) <= Cells(f[1..])
    ensures {head} + Elements(Nodes(f[1..])) !! Inner(f[1..])
    ensures Ring(head, [] + [f[0].node] + Nodes(f[1..])) && [] + Nodes(f[1..]) == Nodes(f[1..])
  {
    FirstRecord(f);
    var s, after := [head] + Nodes(f), Nodes(f[1..]);
    assert s[0] == head && s[1] == f[0].node && forall i :: 0 <= i < |after| ==> s[i + 2] == after[i];
    assert f[0].node !in after && head !in after;
    assert Nodes(f) == [] + [f[0].node] + after;
  }

  lemma FirstLink(head: Node, f: seq<Tree>)
    requires Ring(head, Nodes(f))
    ensures if f == [] then head.next == head else head.next == f[0].node != head
    ensures f != [] ==> f[0].node.next == if |f| == 1 then head else f[1].node
    ensures |f| > 1 ==> f[1].node != head
  {
    var around, s := Around(head, Nodes(f)), [head] + Nodes(f);
    assert around[0].next == around[1];
    if f != [] {
      assert s[0] == head && s[1] == f[0].node && around[1].next == around[2];
      assert |f| > 1 ==> s[2] == f[1].node;
    }
  }

  /** What is left of the list once its first record is out of the ring. */
  lemma RestHeld(head: Node, f: seq<Tree>)
    requires f != [] && Ring(head, Nodes(f[1..])) && Held(f[1..])
    requires {head} + Elements(Nodes(f[1..])) !! Inner(f[1..])
    ensures HeldList(List(head, f[1..]))
  {
  }

  lemma Shrink(alive: set<Node>, left: set<Node>, all: set<Node>, head: Node, n: Node, u: set<Node>, rest: set<Node>)
    requires left - ({n} + u + rest) == alive - all && {head} + ({n} + u + rest) <= left
    requires n !in u && n !in rest && u !! rest && head !in {n} + u + rest
    ensures (left - u - {n}) - rest == alive - all && {head} + rest <= left - u - {n}
    ensures {n} + u <= left && rest <= {n} + u + rest
  {
    assert (left - u - {n}) - rest == left - ({n} + u + rest);
  }

  lemma ShrinkList(alive: set<Node>, left: set<Node>, all: set<Node>, head: Node, cells: set<Node>, rest: set<Node>)
    requires left - ({head} + cells + rest) == alive - all && {head} + cells + rest <= left
    requires {head} + cells !! rest
    ensures (left - cells - {head}) - rest == alive - all && rest <= left - cells - {head}
    ensures {head} + cells <= left
  {
    assert (left - cells - {head}) - rest == left - ({head} + cells + rest);
  }

  /** `db_free_fw`, `db_free_module`, `db_free_library`, `db_free_entry`: the record leaves its list
      and everything below it is freed before the record is. */
  method Free(n: Node, head: Node, ghost t: Tree, ghost before: seq<Node>, ghost after: seq<Node>, ghost alive: set<Node>)
    returns (ghost freed: seq<Node>, ghost left: set<Node>)
    requires t.node == n && n.heads == Heads(t.lists) && HeldLists(t.lists) && Ring(head, before + [n] + after)
    requires {head, n} + Elements(before) + Elements(after) !! Under(t.lists)
    requires {head, n} + Elements(before) + Elements(after) + Under(t.lists) <= alive
    modifies head, before, after, Under(t.lists)
    ensures Ring(head, before + after)
    ensures freed == BottomUpLists(t.lists) + [n] && left == alive - Under(t.lists) - {n}
    decreases t
  {
    Unlink(n, head, before, after, alive);
    hide *;
    freed, left := FreeLists(n.heads, t.lists, alive);
    freed := freed + [n];
    left := left - {n};
  }

  /** Every list that a record owns, in the order of its heads; a head is not looked at again. */
  method FreeLists(heads: seq<Node>, ghost ls: seq<List>, ghost alive: set<Node>)
    returns (ghost freed: seq<Node>, ghost left: set<Node>)
    requires heads == Heads(ls) && HeldLists(ls) && Under(ls) <= alive
    modifies Under(ls)
    ensures freed == BottomUpLists(ls) && left == alive - Under(ls)
    decreases ls
  {
    freed, left := [], alive;
    ghost var rest := ls;
    var i := 0;
    HeadsAre(ls);
    hide *;
    while i < |heads|
      invariant 0 <= i <= |heads| == |ls| && rest == ls[i..] && HeldLists(rest) && Under(rest) <= Under(ls)
      invariant freed + BottomUpLists(rest) == BottomUpLists(ls)
      invariant left - Under(rest) == alive - Under(ls) && Under(rest) <= left
    {
      FirstList(rest);
      ShrinkList(alive, left, Under(ls), rest[0].head, Cells(rest[0].items), Under(rest[1..]));
      assert rest[0] == ls[i] && heads[i] == rest[0].head;
      ghost var more;
      more, left := FreeList(heads[i], ls[i], left);
      left := left - {heads[i]};
      freed := freed + more;
      rest := rest[1..];
      i := i + 1;
    }
    NoLists();
  }

  lemma HeadsAre(ls: seq<List>)
    ensures |Heads(ls)| == |ls| && forall i :: 0 <= i < |ls| ==> Heads(ls)[i] == ls[i].head
  {
  }

  lemma NoLists()
    ensures Under([]) == {} && BottomUpLists([]) == []
  {
  }

  /** One turn of the walk. */
  method FreeFirst(n: Node, head: Node, ghost f: seq<Tree>, ghost alive: set<Node>)
    returns (next: Node, ghost freed: seq<Node>, ghost left: set<Node>)
    requires HeldList(List(head, f)) && f != [] && n == f[0].node && {head} + Cells(f) <= alive
    modifies head, Cells(f)
    ensures HeldList(List(head, f[1..]))
    ensures if f[1..] == [] then next == head else next == f[1].node != head
    ensures freed == BottomUpLists(f[0].lists) + [n] && left == alive - Under(f[0].lists) - {n}
    decreases f, 0
  {
    FirstRecord(f);
    FirstApart(head, f);
    assert Held(f) && Ring(head, Nodes(f));
    FirstLink(head, f);
    next := NextOf(n, alive);
    assert next == n.next;
    assert Elements([]) == {};
    freed, left := Free(n, head, f[0], [], Nodes(f[1..]), alive);
    RestHeld(head, f);
  }

  /** `db_execute_*_vector` with a callback that frees: the next record is looked up before the
      current one is gone, so the walk sees every record once and ends in an empty list. */
  method FreeList(head: Node, ghost l: List, ghost alive: set<Node>) returns (ghost freed: seq<Node>, ghost left: set<Node>)
    requires l.head == head && HeldList(l) && {head} + Cells(l.items) <= alive
    modifies head, Cells(l.items)
    ensures Ring(head, [])
    ensures freed == BottomUp(l.items) && left == alive - Cells(l.items)
    decreases l, 1
  {
    freed, left := [], alive;
    ghost var k, rest := 0, l.items;
    var n := NextOf(head, left);
    FirstLink(head, rest);
    var next: Node;
    hide *;
    while n != head
      invariant 0 <= k <= |l.items| && rest == l.items[k..]
      invariant HeldList(List(head, rest)) && Cells(rest) <= Cells(l.items)
      invariant rest == [] <==> n == head
      invariant rest != [] ==> n == rest[0].node
      invariant freed + BottomUp(rest) == BottomUp(l.items)
      invariant {head} + Cells(rest) <= left && left - Cells(rest) == alive - Cells(l.items)
      decreases |l.items| - k
    {
      FirstRecord(rest);
      FirstApart(head, rest);
      Shrink(alive, left, Cells(l.items), head, rest[0].node, Under(rest[0].lists), Cells(rest[1..]));
      ghost var more;
      next, more, left := FreeFirst(n, head, rest, left);
      freed := freed + more;
      rest := rest[1..];
      n := next;
      k := k + 1;
    }
    NothingHeld(head);
  }

  lemma NothingHeld(head: Node)
    ensures HeldList(List(head, [])) ==> Ring(head, [])
    ensures Cells([]) == {} && BottomUp([]) == []
  {
    assert Nodes([]) == [];
  }

  lemma DistinctConcat(a: seq<Node>, b: seq<Node>)
    requires Distinct(a) && Distinct(b) && Elements(a) !! Elements(b)
    ensures Distinct(a + b) && Elements(a + b) == Elements(a) + Elements(b)
  {
    forall i, j | 0 <= i < j < |a + b|
      ensures (a + b)[i] != (a + b)[j]
    {
      if i < |a| <= j {
        assert a[i] in Elements(a) && b[j - |a|] in Elements(b);
      }
    }
  }

  /** Every place is a record that is freed, or a head inside such a record. */
  ghost predicate Accounted(cells: set<Node>, freed: seq<Node>) {
    Elements(freed) <= cells && forall c :: c in cells ==> c in freed || exists n :: n in freed && c in n.heads
  }

  /** For a record: what hangs below it is accounted for by what is freed before it and its heads. */
  ghost predicate AccountedLists(cells: set<Node>, freed: seq<Node>, heads: seq<Node>) {
    Elements(freed) <= cells && forall c :: c in cells ==> c in freed || c in heads || exists n :: n in freed && c in n.heads
  }

  ghost predicate Once(f: seq<Tree>)
    reads Inner(f)
  {
    Held(f) && Distinct(Nodes(f)) && Elements(Nodes(f)) !! Inner(f)
  }

  lemma OnceFirst(f: seq<Tree>)
    requires Once(f) && f != []
    ensures var n, u, c := f[0].node, Under(f[0].lists), Cells(f[1..]);
      Cells(f) == {n} + u + c && n !in u && n !in c && u !! c && Once(f[1..])
  {
    FirstRecord(f);
    var all, rest := Nodes(f), Nodes(f[1..]);
    assert forall i :: 0 <= i < |rest| ==> rest[i] == all[i + 1];
    assert all[0] == f[0].node && f[0].node !in rest;
    assert f[0].node in Elements(all) && Elements(rest) <= Elements(all);
  }

  /** No record below f is freed twice and none is forgotten. */
  lemma {:induction false} EachFreedOnce(f: seq<Tree>)
    requires Once(f)
    ensures Distinct(BottomUp(f)) && Accounted(Cells(f), BottomUp(f))
    decreases f
  {
    if f != [] {
      var t, n, rest := f[0].lists, f[0].node, f[1..];
      FirstRecord(f);
      OnceFirst(f);
      EachFreedOnceLists(t);
      EachFreedOnce(rest);
      hide *;
      OneMore(Under(t), BottomUpLists(t), n, Heads(t));
      Together({n} + Under(t), BottomUpLists(t) + [n], Cells(rest), BottomUp(rest));
    }
  }

  lemma {:induction false} EachFreedOnceLists(ls: seq<List>)
    requires HeldLists(ls)
    ensures Distinct(BottomUpLists(ls)) && AccountedLists(Under(ls), BottomUpLists(ls), Heads(ls))
    decreases ls
  {
    if ls != [] {
      var l, rest := ls[0], ls[1..];
      FirstList(ls);
      HeldOnce(l);
      EachFreedOnce(l.items);
      EachFreedOnceLists(rest);
      hide *;
      TogetherLists(l.head, Cells(l.items), BottomUp(l.items), Under(rest), BottomUpLists(rest), Heads(rest));
    }
  }

  lemma HeldOnce(l: List)
    requires HeldList(l)
    ensures Once(l.items)
  {
    var s := [l.head] + Nodes(l.items);
    assert forall i :: 0 <= i < |Nodes(l.items)| ==> Nodes(l.items)[i] == s[i + 1];
  }

  lemma OneMore(cells: set<Node>, freed: seq<Node>, n: Node, heads: seq<Node>)
    requires Distinct(freed) && AccountedLists(cells, freed, heads) && n !in cells && n.heads == heads
    ensures Distinct(freed + [n]) && Accounted({n} + cells, freed + [n])
  {
    DistinctConcat(freed, [n]);
    assert n in freed + [n] && forall c :: c in freed ==> c in freed + [n];
  }

  lemma Together(cells: set<Node>, freed: seq<Node>, cells': set<Node>, freed': seq<Node>)
    requires Distinct(freed) && Distinct(freed') && cells !! cells'
    requires Accounted(cells, freed) && Accounted(cells', freed')
    ensures Distinct(freed + freed') && Accounted(cells + cells', freed + freed')
  {
    DistinctConcat(freed, freed');
    assert forall c :: c in freed || c in freed' <==> c in freed + freed';
  }

  lemma TogetherLists(head: Node, cells: set<Node>, freed: seq<Node>, cells': set<Node>, freed': seq<Node>, heads: seq<Node>)
    requires Distinct(freed) && Distinct(freed') && {head} + cells !! cells'
    requires Accounted(cells, freed) && AccountedLists(cells', freed', heads)
    ensures Distinct(freed + freed') && AccountedLists({head} + cells + cells', freed + freed', [head] + heads)
  {
    DistinctConcat(freed, freed');
    assert forall c :: c in freed || c in freed' <==> c in freed + freed';
    assert forall c :: c == head || c in heads <==> c in [head] + heads;
  }

  /** `db_free_context`: every record of the database is freed exactly once, what is below a record
      before the record, and nothing is used after it has been freed. */
  method FreeContext(context: Node, ghost firmwares: seq<Tree>, ghost alive: set<Node>)
    returns (ghost freed: seq<Node>, ghost left: set<Node>)
    requires HeldList(List(context, firmwares)) && {context} + Cells(firmwares) <= alive
    modifies context, Cells(firmwares)
    ensures freed == BottomUp(firmwares) + [context] && left == alive - Cells(firmwares) - {context}
    ensures Distinct(freed) && Accounted({context} + Cells(firmwares), freed)
  {
    HeldOnce(List(context, firmwares));
    EachFreedOnce(firmwares);
    assert context !in Cells(firmwares) by {
      NeverHead(context, Nodes(firmwares));
      assert forall i :: 0 <= i < |firmwares| ==> Around(context, Nodes(firmwares))[i + 1] == Nodes(firmwares)[i];
    }
    freed, left := FreeList(context, List(context, firmwares), alive);
    hide *;
    ContextLast(context, Cells(firmwares), BottomUp(firmwares));
    freed := freed + [context];
    left := left - {context};
  }

  lemma ContextLast(context: Node, cells: set<Node>, freed: seq<Node>)
    requires Distinct(freed) && Accounted(cells, freed) && context !in cells
    ensures Distinct(freed + [context]) && Accounted({context} + cells, freed + [context])
  {
    DistinctConcat(freed, [context]);
    assert context in freed + [context] && forall c :: c in freed ==> c in freed + [context];
  }

  // ---- a whole database ----

  /** Lists that are still empty. */
  function Empty(heads: seq<Node>): seq<List> {
    seq(|heads|, i requires 0 <= i < |heads| => List(heads[i], []))
  }

  ghost predicate SelfLinked(heads: seq<Node>)
    reads heads
  {
    Distinct(heads) && forall h :: h in heads ==> h.next == h && h.prev == h
  }

  lemma EmptyOne(head: Node)
    requires head.next == head && head.prev == head
    ensures HeldList(List(head, [])) && Cells([]) == {}
  {
    assert Nodes([]) == [];
  }

  lemma EmptyFirst(heads: seq<Node>)
    requires SelfLinked(heads) && heads != []
    ensures var rest := heads[1..];
      && SelfLinked(rest) && heads[0] !in Elements(rest) && Elements(heads) == {heads[0]} + Elements(rest)
      && Empty(heads) == [List(heads[0], [])] + Empty(rest)
  {
    var rest := heads[1..];
    assert forall i :: 0 <= i < |rest| ==> rest[i] == heads[i + 1];
    assert heads == [heads[0]] + rest;
    assert Empty(heads) == [List(heads[0], [])] + Empty(rest);
  }

  lemma {:induction false} EmptyHeld(heads: seq<Node>)
    requires SelfLinked(heads)
    ensures HeldLists(Empty(heads)) && Under(Empty(heads)) == Elements(heads) && Heads(Empty(heads)) == heads
  {
    if heads != [] {
      var rest, e := heads[1..], Empty(heads);
      EmptyFirst(heads);
      EmptyHeld(rest);
      assert heads[0] in heads;
      EmptyOne(heads[0]);
      assert e[0] == List(heads[0], []) && e[1..] == Empty(rest);
      FirstList(e);
      assert heads == [heads[0]] + rest;
    }
  }

  lemma {:induction false} HeldSnoc(f: seq<Tree>, t: Tree)
    requires Held(f) && t.node.heads == Heads(t.lists) && HeldLists(t.lists) && Inner(f) !! Under(t.lists)
    ensures Held(f + [t]) && Inner(f + [t]) == Inner(f) + Under(t.lists)
  {
    var g := f + [t];
    if f == [] {
      assert g == [t];
      FirstRecord(g);
      assert Inner([]) == {} && Held([]);
    } else {
      FirstRecord(f);
      HeldSnoc(f[1..], t);
      FirstRecord(g);
      assert g[1..] == f[1..] + [t] && g[0] == f[0];
    }
  }

  /** The heads inside a new record, each linked to itself. */
  method NewHeads(lists: nat) returns (heads: seq<Node>)
    ensures |heads| == lists && SelfLinked(heads) && forall h :: h in heads ==> fresh(h)
  {
    heads := [];
    while |heads| < lists
      invariant |heads| <= lists && SelfLinked(heads) && forall h :: h in heads ==> fresh(h)
      modifies {}
    {
      var h := new Node(Name(""), []);
      heads := heads + [h];
    }
  }

  /** A new record with `lists` empty lists of its own (`db_new_firmware` and `db_new_module` one,
      `db_new_library` two, `db_new_entry_*` none) at the tail of a well linked list. */
  method Create(head: Node, key: Key, lists: nat, ghost items: seq<Tree>, ghost alive: set<Node>) returns (n: Node)
    requires HeldList(List(head, items)) && {head} + Cells(items) <= alive
    modifies head, Nodes(items)
    ensures fresh(n) && n.key == key && |n.heads| == lists && forall h :: h in n.heads ==> fresh(h)
    ensures HeldList(List(head, items + [Tree(n, Empty(n.heads))]))
  {
    assert Held(items) && Ring(head, Nodes(items)) && {head} + Elements(Nodes(items)) !! Inner(items);
    var heads := NewHeads(lists);
    n := Append(head, key, heads, Nodes(items));
    EmptyHeld(heads);
    assert Inner(items) <= alive && Elements(heads) !! alive;
    assert Elements(Nodes(items)) <= alive;
    RecordAdded(head, items, n, heads);
  }

  lemma RecordAdded(head: Node, items: seq<Tree>, n: Node, heads: seq<Node>)
    requires Ring(head, Nodes(items) + [n]) && Held(items) && n.heads == heads
    requires var e := Empty(heads); HeldLists(e) && Under(e) == Elements(heads) && Heads(e) == heads
    requires Elements(heads) !! Inner(items) && {head} + Elements(Nodes(items)) !! Inner(items)
    requires {head, n} + Elements(Nodes(items)) !! Elements(heads) && n !in Inner(items)
    ensures HeldList(List(head, items + [Tree(n, Empty(heads))]))
  {
    var t := Tree(n, Empty(heads));
    HeldSnoc(items, t);
    assert Nodes(items + [t]) == Nodes(items) + [n];
    assert Elements(Nodes(items) + [n]) == Elements(Nodes(items)) + {n};
  }
}
