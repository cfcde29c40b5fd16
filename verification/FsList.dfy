/** The directory tree of fs_list.c and its two traversals without a stack: `fs_list_execute` in
    pre-order, and `fs_list_execute2`, which frees every node right after its last child. */
module FsList {
  /** `FSListEntry`. */
  class Node {
    var parent: Node?
    var child: Node?
    var next: Node?
    var nChild: int
    constructor () {
      parent, child, next, nChild := null, null, null, 0;
    }
  }

  /** What the links describe. */
  datatype Tree = Tree(node: Node, kids: seq<Tree>)

  type Links = map<Node, Node?>

  /** The three link fields of all nodes; no traversal writes them. */
  datatype Graph = Graph(parent: Links, child: Links, next: Links)

  function Head(f: seq<Tree>): Node? {
    if f == [] then null else f[0].node
  }

  /** f is a list of siblings below par; count gives the number of children of each node. */
  ghost predicate Siblings(g: Graph, count: map<Node, int>, f: seq<Tree>, par: Node?)
    decreases f
  {
    f != [] ==>
    var n := f[0].node;
    && n in g.parent && n in g.child && n in g.next && n in count
    && g.parent[n] == par && g.next[n] == Head(f[1..]) && count[n] == |f[0].kids|
    && (f[0].kids != [] ==> g.child[n] == f[0].kids[0].node)
    && Siblings(g, count, f[0].kids, n)
    && Siblings(g, count, f[1..], par)
  }

  function PostOrder(f: seq<Tree>): seq<Node>
    decreases f
  {
    if f == [] then [] else PostOrder(f[0].kids) + [f[0].node] + PostOrder(f[1..])
  }

  function PreOrder(f: seq<Tree>): seq<Node>
    decreases f
  {
    if f == [] then [] else [f[0].node] + PreOrder(f[0].kids) + PreOrder(f[1..])
  }

  /** A node whose children are being visited, and the siblings behind it; then the same one
      level up. */
  datatype Path = Top | Below(node: Node, rest: seq<Tree>, up: Path)

  function Parent(p: Path): Node? {
    if p == Top then null else p.node
  }

  ghost predicate Distinct(s: seq<Node>) {
    forall i, j :: 0 <= i < j < |s| ==> s[i] != s[j]
  }

  // ---- freeing in post-order ----

  function PostRest(p: Path): seq<Node> {
    if p == Top then [] else [p.node] + PostOrder(p.rest) + PostRest(p.up)
  }

  /** The open nodes: each counts only the children that are left. */
  ghost predicate Open(g: Graph, count: map<Node, int>, p: Path, children: nat) {
    p != Top ==>
    && p.node in g.parent && p.node in g.child && p.node in g.next && p.node in count
    && g.parent[p.node] == Parent(p.up) && g.next[p.node] == Head(p.rest) && count[p.node] == children
    && Siblings(g, count, p.rest, Parent(p.up))
    && Open(g, count, p.up, 1 + |p.rest|)
  }

  lemma {:induction false} SiblingsKeep(g: Graph, count: map<Node, int>, f: seq<Tree>, par: Node?, x: Node, v: int)
    requires Siblings(g, count, f, par) && x !in PostOrder(f)
    ensures Siblings(g, count[x := v], f, par)
    decreases f
  {
    if f != [] {
      SiblingsKeep(g, count, f[0].kids, f[0].node, x, v);
      SiblingsKeep(g, count, f[1..], par, x, v);
    }
  }

  lemma {:induction false} OpenKeeps(g: Graph, count: map<Node, int>, p: Path, children: nat, x: Node, v: int)
    requires Open(g, count, p, children) && x !in PostRest(p)
    ensures Open(g, count[x := v], p, children)
  {
    if p != Top {
      SiblingsKeep(g, count, p.rest, Parent(p.up), x, v);
      OpenKeeps(g, count, p.up, 1 + |p.rest|, x, v);
    }
  }

  /** What is left of the tree: f with its first node current, below the open nodes of p. */
  ghost predicate Left(g: Graph, count: map<Node, int>, f: seq<Tree>, p: Path) {
    && Siblings(g, count, f, Parent(p)) && Open(g, count, p, |f|)
    && Distinct(PostOrder(f) + PostRest(p)) && (f == [] ==> p == Top)
  }

  /** The current node has children: they come first. */
  lemma Descend(g: Graph, count: map<Node, int>, f: seq<Tree>, p: Path)
    requires Left(g, count, f, p) && f != [] && f[0].kids != []
    ensures var q := Below(f[0].node, f[1..], p);
      && Left(g, count, f[0].kids, q)
      && PostOrder(f[0].kids) + PostRest(q) == PostOrder(f) + PostRest(p)
      && g.child[f[0].node] == Head(f[0].kids)
  {
    var q := Below(f[0].node, f[1..], p);
    assert PostOrder(f[0].kids) + PostRest(q) == PostOrder(f) + PostRest(p);
  }

  /** What is left after the first node of f, which has no children left, is freed. */
  function Freed(f: seq<Tree>, p: Path): (seq<Tree>, Path)
    requires f != []
  {
    if |f| > 1 then (f[1..], p)
    else if p == Top then ([], Top)
    else ([Tree(p.node, [])] + p.rest, p.up)
  }

  function Decremented(count: map<Node, int>, par: Node?): map<Node, int> {
    if par == null || par !in count then count else count[par := count[par] - 1]
  }

  lemma LeafFirst(f: seq<Tree>)
    requires f != [] && f[0].kids == []
    ensures PostOrder(f) == [f[0].node] + PostOrder(f[1..])
  {
    assert PostOrder(f[0].kids) == [];
  }

  lemma FreedOrder(f: seq<Tree>, p: Path)
    requires f != [] && f[0].kids == []
    ensures var (f', p') := Freed(f, p);
      PostOrder(f) + PostRest(p) == [f[0].node] + (PostOrder(f') + PostRest(p'))
  {
    LeafFirst(f);
    if |f| == 1 && p != Top {
      var t := [Tree(p.node, [])] + p.rest;
      LeafFirst(t);
      assert t[1..] == p.rest && PostOrder(f[1..]) == [];
      assert [p.node] + PostOrder(p.rest) + PostRest(p.up) == PostOrder(t) + PostRest(p.up);
    }
  }

  lemma DistinctTail(x: Node, s: seq<Node>)
    requires Distinct([x] + s)
    ensures Distinct(s) && x !in s
  {
    forall i, j | 0 <= i < j < |s|
      ensures s[i] != s[j]
    {
      assert ([x] + s)[i + 1] != ([x] + s)[j + 1];
    }
    forall i | 0 <= i < |s|
      ensures s[i] != x
    {
      assert ([x] + s)[0] != ([x] + s)[i + 1];
    }
  }

  lemma DistinctParts(a: seq<Node>, x: Node, b: seq<Node>)
    requires Distinct(a + ([x] + b))
    ensures x !in a && x !in b
  {
    var s := a + ([x] + b);
    forall i | 0 <= i < |a|
      ensures a[i] != x
    {
      assert s[i] != s[|a|];
    }
    forall i | 0 <= i < |b|
      ensures b[i] != x
    {
      assert s[|a|] != s[|a| + 1 + i];
    }
  }

  lemma RestFirst(p: Path)
    requires p != Top
    ensures PostRest(p) == [p.node] + (PostOrder(p.rest) + PostRest(p.up))
  {
  }

  lemma ParentElsewhere(f: seq<Tree>, p: Path)
    requires Distinct(PostOrder(f) + PostRest(p)) && p != Top && f != [] && f[0].kids == []
    ensures p.node !in PostOrder(f[1..]) && p.node !in PostOrder(p.rest) && p.node !in PostRest(p.up)
  {
    hide PostOrder, Distinct, PostRest;
    LeafFirst(f);
    var a, b, c := PostOrder(f), PostOrder(p.rest), PostRest(p.up);
    RestFirst(p);
    DistinctParts(a, p.node, b + c);
    assert forall i :: 0 <= i < |PostOrder(f[1..])| ==> a[i + 1] == PostOrder(f[1..])[i];
    assert forall i :: 0 <= i < |b| ==> (b + c)[i] == b[i];
    assert forall i :: 0 <= i < |c| ==> (b + c)[|b| + i] == c[i];
  }

  /** The first node of f has no children left: it can go, and its parent counts one child less. */
  lemma Release(g: Graph, count: map<Node, int>, f: seq<Tree>, p: Path)
    requires Left(g, count, f, p) && f != [] && f[0].kids == []
    ensures var (f', p') := Freed(f, p);
      && Left(g, Decremented(count, Parent(p)), f', p')
      && PostOrder(f) + PostRest(p) == [f[0].node] + (PostOrder(f') + PostRest(p'))
      && count[f[0].node] == 0 && g.parent[f[0].node] == Parent(p) && g.next[f[0].node] == Head(f[1..])
  {
    var (f', p') := Freed(f, p);
    FreedOrder(f, p);
    DistinctTail(f[0].node, PostOrder(f') + PostRest(p'));
    assert count[f[0].node] == 0 && g.parent[f[0].node] == Parent(p) && g.next[f[0].node] == Head(f[1..]);
    if p == Top {
      assert Siblings(g, count, f[1..], null);
    } else {
      var count' := Decremented(count, p.node);
      assert count' == count[p.node := |f| - 1];
      ParentElsewhere(f, p);
      SiblingsKeep(g, count, f[1..], p.node, p.node, |f| - 1);
      SiblingsKeep(g, count, p.rest, Parent(p.up), p.node, |f| - 1);
      OpenKeeps(g, count, p.up, 1 + |p.rest|, p.node, |f| - 1);
      hide PostOrder, PostRest, Distinct;
      if |f| == 1 {
        Reopened(g, count', p);
      } else {
        assert Open(g, count', p, |f[1..]|);
      }
    }
  }

  /** An open node whose last child is gone looks like one that never had any. */
  lemma Reopened(g: Graph, count: map<Node, int>, p: Path)
    requires p != Top && p.node in g.parent && p.node in g.child && p.node in g.next && p.node in count && count[p.node] == 0
    requires g.parent[p.node] == Parent(p.up) && g.next[p.node] == Head(p.rest)
    requires Siblings(g, count, p.rest, Parent(p.up))
    ensures Siblings(g, count, [Tree(p.node, [])] + p.rest, Parent(p.up))
  {
    var t := [Tree(p.node, [])] + p.rest;
    assert t[0] == Tree(p.node, []) && t[1..] == p.rest;
    assert Siblings(g, count, t[0].kids, p.node);
  }

  /** Nodes not visited yet count twice, open nodes once. */
  function Work(p: Path): nat {
    if p == Top then 0 else 1 + 2 * |PostOrder(p.rest)| + Work(p.up)
  }

  /** A traversal that frees: the nodes not freed yet, what the links say about them, and the
      nodes freed so far. */
  datatype State = State(alive: set<Node>, count: map<Node, int>, left: seq<Tree>, path: Path, freed: seq<Node>)

  function Remaining(s: State): seq<Node> {
    PostOrder(s.left) + PostRest(s.path)
  }

  ghost predicate Coupled(g: Graph, s: State)
    reads s.alive`parent, s.alive`child, s.alive`next, s.alive`nChild
  {
    && s.alive <= g.parent.Keys && s.alive <= g.child.Keys && s.alive <= g.next.Keys && s.alive <= s.count.Keys
    && (forall n :: n in s.alive ==> n.parent == g.parent[n] && n.child == g.child[n] && n.next == g.next[n] && n.nChild == s.count[n])
    && Left(g, s.count, s.left, s.path)
    && (forall i :: 0 <= i < |Remaining(s)| ==> Remaining(s)[i] in s.alive)
    && (forall n :: n in s.alive ==> n in Remaining(s))
  }

  // A field can only be read of a node that has not been freed.

  function ChildOf(n: Node, ghost alive: set<Node>): Node?
    requires n in alive
    reads n
  {
    n.child
  }

  function NextOf(n: Node, ghost alive: set<Node>): Node?
    requires n in alive
    reads n
  {
    n.next
  }

  function ParentOf(n: Node, ghost alive: set<Node>): Node?
    requires n in alive
    reads n
  {
    n.parent
  }

  function CountOf(n: Node, ghost alive: set<Node>): int
    requires n in alive
    reads n
  {
    n.nChild
  }

  /** The state after the first node of what is left has been freed. */
  function After(s: State): State
    requires s.left != []
  {
    var (f, p) := Freed(s.left, s.path);
    State(s.alive - {s.left[0].node}, Decremented(s.count, Parent(s.path)), f, p, s.freed + [s.left[0].node])
  }

  /** `fs_list_fini_callback`: it is only called for nodes without children left, and its parent
      is still there. */
  method FiniCallback(n: Node, ghost g: Graph, ghost s: State)
    requires Coupled(g, s) && s.left != [] && s.left[0].node == n && s.left[0].kids == []
    modifies s.alive`nChild
    ensures old(n.nChild) == 0
    ensures Coupled(g, After(s)) && After(s).freed + Remaining(After(s)) == s.freed + Remaining(s)
    ensures After(s).alive <= s.alive && |Remaining(After(s))| < |Remaining(s)|
  {
    hide Distinct, Freed, Head, Open, Parent, PostOrder, PostRest, Siblings;
    Release(g, s.count, s.left, s.path);
    FirstAlive(g, s);
    RemainingAfter(s);
    ghost var t := After(s);
    assert t.count == Decremented(s.count, Parent(s.path)) && Remaining(t) == PostOrder(t.left) + PostRest(t.path);
    var parent := ParentOf(n, s.alive);
    if parent != null {
      parent.nChild := CountOf(parent, s.alive) - 1;
    }
  }

  lemma RemainingAfter(s: State)
    requires s.left != [] && s.left[0].kids == [] && Distinct(Remaining(s))
    ensures var n, r, r' := s.left[0].node, Remaining(s), Remaining(After(s));
      && r == [n] + r' && n !in r' && (forall x :: x in r ==> x == n || x in r')
      && (forall i :: 0 <= i < |r'| ==> r'[i] in r && r'[i] != n)
      && s.freed + r == After(s).freed + r'
  {
    FreedOrder(s.left, s.path);
    hide PostOrder, PostRest, Freed;
    var n, r, r' := s.left[0].node, Remaining(s), Remaining(After(s));
    assert r == [n] + r';
    DistinctTail(n, r');
    forall i | 0 <= i < |r'|
      ensures r'[i] in r && r'[i] != n
    {
      assert r[i + 1] == r'[i];
    }
  }

  lemma InPostOrder(f: seq<Tree>)
    requires f != []
    ensures f[0].node in PostOrder(f)
  {
    assert PostOrder(f) == PostOrder(f[0].kids) + [f[0].node] + PostOrder(f[1..]);
    assert PostOrder(f)[|PostOrder(f[0].kids)|] == f[0].node;
  }

  lemma FirstAlive(g: Graph, s: State)
    requires Coupled(g, s) && s.left != []
    ensures s.left[0].node in s.alive
    ensures Parent(s.path) != null ==> Parent(s.path) in s.alive
  {
    InPostOrder(s.left);
    var r := Remaining(s);
    assert s.left[0].node in r;
    if s.path != Top {
      assert PostRest(s.path)[0] == s.path.node && r[|PostOrder(s.left)|] == s.path.node;
    }
  }

  lemma StepDown(g: Graph, s: State)
    requires Coupled(g, s) && s.left != [] && s.left[0].kids != []
    ensures var f := s.left; var t := s.(left := f[0].kids, path := Below(f[0].node, f[1..], s.path));
      Coupled(g, t) && Remaining(t) == Remaining(s) && g.child[f[0].node] == Head(t.left)
  {
    Descend(g, s.count, s.left, s.path);
    hide Left, PostOrder, PostRest;
    var t := s.(left := s.left[0].kids, path := Below(s.left[0].node, s.left[1..], s.path));
    assert Remaining(t) == Remaining(s);
    hide Remaining;
  }

  /** The fields of the current node. */
  lemma FirstFacts(g: Graph, s: State)
    requires Coupled(g, s) && s.left != []
    ensures var n := s.left[0].node;
      && n in s.alive && n.nChild == |s.left[0].kids| && n.next == Head(s.left[1..]) && n.parent == Parent(s.path)
      && (s.left[0].kids != [] ==> n.child == Head(s.left[0].kids))
  {
    FirstAlive(g, s);
    assert Siblings(g, s.count, s.left, Parent(s.path));
    SiblingFacts(g, s.count, s.left, Parent(s.path));
  }

  lemma SiblingFacts(g: Graph, count: map<Node, int>, f: seq<Tree>, par: Node?)
    requires Siblings(g, count, f, par) && f != []
    ensures var n := f[0].node;
      && n in g.parent && n in g.child && n in g.next && n in count
      && count[n] == |f[0].kids| && g.next[n] == Head(f[1..]) && g.parent[n] == par
      && (f[0].kids != [] ==> g.child[n] == Head(f[0].kids))
  {
  }

  /** Where the traversal goes on after the current node has been freed. */
  lemma AfterHead(s: State)
    requires s.left != []
    ensures Head(After(s).left) == (if |s.left| > 1 then Head(s.left[1..]) else Parent(s.path))
    ensures |s.left| == 1 && After(s).left != [] ==> After(s).left[0].kids == []
    ensures After(s).left == [] ==> After(s).path == Top
  {
  }

  lemma NothingLeft(s: State, s0: State)
    requires s.left == [] && s.path == Top && s0.path == Top && s.freed + Remaining(s) == Remaining(s0)
    ensures s.freed == PostOrder(s0.left)
  {
    assert Remaining(s) == [] && Remaining(s0) == PostOrder(s0.left);
  }

  lemma DownIsLess(f: seq<Tree>)
    requires f != []
    ensures |PostOrder(f[0].kids)| < |PostOrder(f)|
  {
  }

  /** `fs_list_execute2` with the freeing callback, from the first of a list of root entries:
      every node is freed exactly once, in post-order, and none is read after it has been freed. */
  method Fini(root: Node, ghost g: Graph, ghost s0: State) returns (ghost freed: seq<Node>)
    requires s0.left != [] && root == s0.left[0].node && s0.path == Top && s0.freed == [] && Coupled(g, s0)
    modifies s0.alive`nChild
    ensures freed == PostOrder(s0.left)
  {
    hide After, Coupled, Parent, PostOrder, Remaining;
    ghost var s := s0;
    var curr: Node? := root;
    while curr != null
      invariant Coupled(g, s) && s.alive <= s0.alive && curr == Head(s.left)
      invariant s.freed + Remaining(s) == Remaining(s0) && (s.left == [] ==> s.path == Top)
      decreases |Remaining(s)|, |PostOrder(s.left)|
    {
      FirstFacts(g, s);
      if CountOf(curr, s.alive) != 0 {
        StepDown(g, s);
        DownIsLess(s.left);
        curr := ChildOf(curr, s.alive);
        s := s.(left := s.left[0].kids, path := Below(s.left[0].node, s.left[1..], s.path));
      } else if NextOf(curr, s.alive) != null {
        var tmp := NextOf(curr, s.alive);
        AfterHead(s);
        FiniCallback(curr, g, s);
        s := After(s);
        curr := tmp;
      } else {
        ghost var before := s;
        while curr != null && NextOf(curr, s.alive) == null
          invariant Coupled(g, s) && s.alive <= s0.alive && curr == Head(s.left)
          invariant s.freed + Remaining(s) == Remaining(s0) && (s.left == [] ==> s.path == Top)
          invariant s.left != [] ==> curr in s.alive && s.left[0].kids == []
          invariant s == before || |Remaining(s)| < |Remaining(before)|
          decreases |Remaining(s)|
        {
          FirstFacts(g, s);
          var tmp := ParentOf(curr, s.alive);
          AfterHead(s);
          FiniCallback(curr, g, s);
          s := After(s);
          curr := tmp;
          if curr != null {
            FirstFacts(g, s);
          }
        }
        if curr != null {
          FirstFacts(g, s);
          var tmp := NextOf(curr, s.alive);
          AfterHead(s);
          FiniCallback(curr, g, s);
          s := After(s);
          curr := tmp;
        }
      }
    }
    NothingLeft(s, s0);
    freed := s.freed;
  }

  // ---- visiting in pre-order ----

  function PreRest(p: Path): seq<Node> {
    if p == Top then [] else PreOrder(p.rest) + PreRest(p.up)
  }

  /** The nodes above, with the siblings behind each; their counts are still complete. */
  ghost predicate Above(g: Graph, count: map<Node, int>, p: Path) {
    p != Top ==>
    && p.node in g.parent && p.node in g.next
    && g.parent[p.node] == Parent(p.up) && g.next[p.node] == Head(p.rest)
    && Siblings(g, count, p.rest, Parent(p.up)) && Above(g, count, p.up)
  }

  /** The heap holds what the graph says. */
  ghost predicate Holds(g: Graph, count: map<Node, int>)
    reads g.parent.Keys`parent, g.child.Keys`child, g.next.Keys`next, count.Keys`nChild
  {
    && (forall n :: n in g.parent ==> n.parent == g.parent[n]) && (forall n :: n in g.child ==> n.child == g.child[n])
    && (forall n :: n in g.next ==> n.next == g.next[n]) && (forall n :: n in count ==> n.nChild == count[n])
  }

  /** The first negative result of the callback stops the traversal. */
  ghost predicate Stopped(f: Node -> int, order: seq<Node>, visited: seq<Node>, res: int) {
    && visited <= order
    && (forall i :: 0 <= i < |visited| - 1 ==> f(visited[i]) >= 0)
    && (if res < 0 then visited != [] && res == f(visited[|visited| - 1])
        else res == 0 && visited == order && forall i :: 0 <= i < |order| ==> f(order[i]) >= 0)
  }

  lemma PreDown(f: seq<Tree>, p: Path)
    requires f != []
    ensures PreOrder(f) + PreRest(p) == [f[0].node] + (PreOrder(f[0].kids) + PreRest(Below(f[0].node, f[1..], p)))
  {
  }

  /** The inner loop: up until a node has a sibling behind it, and on to that one. */
  method Climb(from: Node, ghost g: Graph, ghost count: map<Node, int>, ghost p0: Path)
    returns (curr: Node?, ghost l: seq<Tree>, ghost p: Path)
    requires Holds(g, count) && from.next == null && from.parent == Parent(p0) && Above(g, count, p0)
    ensures curr == Head(l) && Siblings(g, count, l, Parent(p)) && Above(g, count, p)
    ensures PreOrder(l) + PreRest(p) == PreRest(p0) && (l == [] ==> p == Top)
  {
    assert Siblings(g, count, [], Parent(p0)) && PreOrder([]) == [];
    curr, l, p := from, [], p0;
    while curr != null && curr.next == null
      invariant Siblings(g, count, l, Parent(p)) && Above(g, count, p) && PreOrder(l) + PreRest(p) == PreRest(p0)
      invariant curr == null ==> l == [] && p == Top
      invariant curr != null ==> curr.next == Head(l) && curr.parent == Parent(p)
      decreases p, curr != null
    {
      curr := curr.parent;
      assert l == [];
      if p != Top {
        l, p := p.rest, p.up;
      }
    }
    if curr != null {
      curr := curr.next;
    }
  }

  /** `fs_list_execute` from the first of the children of an entry that has no siblings and no
      parent: exactly its descendants are visited, once each, in pre-order. */
  method Execute(first: Node?, callback: Node -> int, ghost g: Graph, ghost count: map<Node, int>, ghost f: seq<Tree>, ghost root: Path)
    returns (res: int, visited: seq<Node>)
    requires Holds(g, count) && first == Head(f) && Siblings(g, count, f, Parent(root)) && Above(g, count, root)
    requires root == Top || (root.rest == [] && root.up == Top)
    ensures first == null ==> res == -1 && visited == []
    ensures first != null ==> Stopped(callback, PreOrder(f), visited, res)
  {
    visited := [];
    var curr := first;
    if curr == null {
      return -1, visited;
    }
    ghost var l, p, order := f, root, PreOrder(f);
    RootRest(root);
    while curr != null
      invariant curr == Head(l) && Siblings(g, count, l, Parent(p)) && Above(g, count, p)
      invariant visited + (PreOrder(l) + PreRest(p)) == order
      invariant forall i :: 0 <= i < |visited| ==> callback(visited[i]) >= 0
      invariant l == [] ==> p == Top
      decreases |PreOrder(l) + PreRest(p)|
    {
      PreDown(l, p);
      res := callback(curr);
      ghost var q := Below(l[0].node, l[1..], p);
      VisitOne(visited, curr, PreOrder(l[0].kids) + PreRest(q));
      visited := visited + [curr];
      if res < 0 {
        assert Stopped(callback, order, visited, res);
        return;
      }
      VisitedHead(g, count, l, p);
      if curr.nChild != 0 {
        curr := curr.child;
        l, p := l[0].kids, q;
      } else if curr.next != null {
        curr := curr.next;
        assert PreOrder(l[0].kids) + PreRest(q) == PreOrder(l[1..]) + PreRest(p);
        l := l[1..];
      } else {
        assert PreOrder(l[0].kids) + PreRest(q) == PreRest(p);
        curr, l, p := Climb(curr, g, count, p);
      }
    }
    assert PreOrder(l) + PreRest(p) == [];
    res := 0;
    assert visited == order;
    assert Stopped(callback, order, visited, res);
  }

  /** What the fields of the current node say, and what comes after it. */
  lemma VisitedHead(g: Graph, count: map<Node, int>, l: seq<Tree>, p: Path)
    requires Holds(g, count) && Siblings(g, count, l, Parent(p)) && Above(g, count, p) && l != []
    ensures var n, q := l[0].node, Below(l[0].node, l[1..], p);
      && n.nChild == |l[0].kids| && n.next == Head(l[1..]) && n.parent == Parent(p) && (l[0].kids != [] ==> n.child == Head(l[0].kids))
      && Parent(q) == n && Siblings(g, count, l[0].kids, Parent(q)) && Siblings(g, count, l[1..], Parent(p)) && Above(g, count, q)
      && (l[0].kids == [] ==> PreOrder(l[0].kids) + PreRest(q) == PreOrder(l[1..]) + PreRest(p))
      && (l[0].kids == [] && l[1..] == [] ==> PreOrder(l[0].kids) + PreRest(q) == PreRest(p))
  {
    SiblingFacts(g, count, l, Parent(p));
    assert Siblings(g, count, l[0].kids, l[0].node) && Siblings(g, count, l[1..], Parent(p));
    assert PreOrder([]) == [] && PreRest(Below(l[0].node, l[1..], p)) == PreOrder(l[1..]) + PreRest(p);
  }

  lemma VisitOne(a: seq<Node>, x: Node, b: seq<Node>)
    ensures a + ([x] + b) == a + [x] + b && a + [x] <= a + [x] + b
  {
  }

  lemma RootRest(p: Path)
    requires p == Top || (p.rest == [] && p.up == Top)
    ensures PreRest(p) == []
  {
  }
}
