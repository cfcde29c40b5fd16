/** The tree builder of yamltree.c: recursive descent over libyaml's events with one event of
    lookahead. `Events` prints a node; `ParseNode` is a reference parser without state. */
module YamlTree {
  import opened Wrappers

  /** `yaml_event_t`, without positions, tags and styles. */
  datatype Event = NoEvent | StreamStart | StreamEnd | DocStart | DocEnd | AliasOf(anchor: string) | ScalarOf(value: string)
                 | SeqStart | SeqEnd | MapStart | MapEnd

  /** `yaml_node`; an alias occurs in event streams but never in a parsed tree. */
  datatype Node = Scalar(value: string) | Sequence(nodes: seq<Node>) | Mapping(pairs: seq<Pair>) | Alias(anchor: string)
  datatype Pair = Pair(lhs: Node, rhs: Node)

  // ---- printing ----

  function Events(n: Node): (es: seq<Event>)
    ensures es != []
    decreases n, 1
  {
    match n
    case Scalar(v) => [ScalarOf(v)]
    case Alias(a) => [AliasOf(a)]
    case Sequence(ns) => [SeqStart] + EventsOf(ns) + [SeqEnd]
    case Mapping(ps) => [MapStart] + PairEvents(ps) + [MapEnd]
  }

  function EventsOf(ns: seq<Node>): seq<Event>
    decreases ns, 0
  {
    if ns == [] then [] else Events(ns[0]) + EventsOf(ns[1..])
  }

  function PairEvents(ps: seq<Pair>): seq<Event>
    decreases ps, 0
  {
    if ps == [] then [] else EventsOfPair(ps[0]) + PairEvents(ps[1..])
  }

  function EventsOfPair(p: Pair): seq<Event>
    decreases p, 2
  {
    Events(p.lhs) + Events(p.rhs)
  }

  predicate AliasFree(n: Node)
    decreases n, 1
  {
    match n
    case Scalar(_) => true
    case Alias(_) => false
    case Sequence(ns) => AllAliasFree(ns)
    case Mapping(ps) => PairsAliasFree(ps)
  }

  predicate AllAliasFree(ns: seq<Node>)
    decreases ns, 0
  {
    ns == [] || (AliasFree(ns[0]) && AllAliasFree(ns[1..]))
  }

  predicate PairsAliasFree(ps: seq<Pair>)
    decreases ps, 0
  {
    ps == [] || (PairAliasFree(ps[0]) && PairsAliasFree(ps[1..]))
  }

  predicate PairAliasFree(p: Pair)
    decreases p, 2
  {
    AliasFree(p.lhs) && AliasFree(p.rhs)
  }

  // ---- the reference parser ----

  /** A node and the number of events it takes. */
  function ParseNode(es: seq<Event>): (r: Option<(Node, nat)>)
    ensures r.Some? ==> 0 < r.value.1 <= |es|
    decreases |es|, 0
  {
    if es == [] then None
    else
      match es[0]
      case ScalarOf(v) => Some((Scalar(v), 1))
      case SeqStart =>
        (match ParseNodes(es[1..])
         case None => None
         case Some((ns, k)) => Some((Sequence(ns), 1 + k)))
      case MapStart =>
        (match ParsePairs(es[1..])
         case None => None
         case Some((ps, k)) => Some((Mapping(ps), 1 + k)))
      case _ => None
  }

  function Prepend<T>(x: T, k: nat, rest: Option<(seq<T>, nat)>): Option<(seq<T>, nat)> {
    if rest == None then None else Some(([x] + rest.value.0, k + rest.value.1))
  }

  /** Nodes up to and including the end of the sequence. */
  function ParseNodes(es: seq<Event>): (r: Option<(seq<Node>, nat)>)
    ensures r.Some? ==> 0 < r.value.1 <= |es|
    decreases |es|, 1
  {
    if es == [] then None
    else if es[0] == SeqEnd then Some(([], 1))
    else
      match ParseNode(es)
      case None => None
      case Some((n, k)) => Prepend(n, k, ParseNodes(es[k..]))
  }

  function ParsePair(es: seq<Event>): (r: Option<(Pair, nat)>)
    ensures r.Some? ==> 0 < r.value.1 <= |es|
    decreases |es|, 1
  {
    match ParseNode(es)
    case None => None
    case Some((l, k)) =>
      match ParseNode(es[k..])
      case None => None
      case Some((r, j)) => Some((Pair(l, r), k + j))
  }

  function ParsePairs(es: seq<Event>): (r: Option<(seq<Pair>, nat)>)
    ensures r.Some? ==> 0 < r.value.1 <= |es|
    decreases |es|, 2
  {
    if es == [] then None
    else if es[0] == MapEnd then Some(([], 1))
    else
      match ParsePair(es)
      case None => None
      case Some((p, k)) => Prepend(p, k, ParsePairs(es[k..]))
  }

  lemma FirstEvent(n: Node)
    ensures Events(n)[0] != SeqEnd && Events(n)[0] != MapEnd && Events(n)[0] != DocStart && Events(n)[0] != StreamEnd
  {
  }

  lemma NodesCons(es: seq<Event>)
    requires es != [] && es[0] != SeqEnd
    ensures ParseNode(es) == None ==> ParseNodes(es) == None
    ensures ParseNode(es).Some? ==> var (n, k) := ParseNode(es).value; ParseNodes(es) == Prepend(n, k, ParseNodes(es[k..]))
  {
    hide ParseNode;
  }

  lemma PairsCons(es: seq<Event>)
    requires es != [] && es[0] != MapEnd
    ensures ParsePair(es) == None ==> ParsePairs(es) == None
    ensures ParsePair(es).Some? ==> var (p, k) := ParsePair(es).value; ParsePairs(es) == Prepend(p, k, ParsePairs(es[k..]))
  {
    hide ParsePair;
  }

  /** On the events of a node followed by anything, the parser returns that node and consumes
      exactly its events, unless there is an alias in it. */
  lemma {:induction false} ParsesPrinted(n: Node, rest: seq<Event>)
    ensures ParseNode(Events(n) + rest) == if AliasFree(n) then Some((n, |Events(n)|)) else None
    decreases n, 1
  {
    var es := Events(n) + rest;
    match n
    case Scalar(v) =>
    case Alias(a) =>
    case Sequence(ns) =>
      assert es[1..] == EventsOf(ns) + ([SeqEnd] + rest);
      ParsesPrintedNodes(ns, rest);
      hide EventsOf, ParseNodes, AllAliasFree;
    case Mapping(ps) =>
      assert es[1..] == PairEvents(ps) + ([MapEnd] + rest);
      ParsesPrintedPairs(ps, rest);
      hide PairEvents, ParsePairs, PairsAliasFree;
  }

  lemma {:induction false} ParsesPrintedNodes(ns: seq<Node>, rest: seq<Event>)
    ensures ParseNodes(EventsOf(ns) + ([SeqEnd] + rest))
         == if AllAliasFree(ns) then Some((ns, |EventsOf(ns)| + 1)) else None
    decreases ns, 0
  {
    hide ParseNode, Events, AliasFree;
    var es := EventsOf(ns) + ([SeqEnd] + rest);
    if ns == [] {
      assert es == [SeqEnd] + rest;
    } else {
      var tail := EventsOf(ns[1..]) + ([SeqEnd] + rest);
      assert es == Events(ns[0]) + tail && es[|Events(ns[0])|..] == tail;
      assert AllAliasFree(ns) == (AliasFree(ns[0]) && AllAliasFree(ns[1..]));
      assert |EventsOf(ns)| == |Events(ns[0])| + |EventsOf(ns[1..])|;
      hide AliasFree, AllAliasFree, Events, EventsOf, ParseNode, ParseNodes;
      FirstEvent(ns[0]);
      ParsesPrinted(ns[0], tail);
      ParsesPrintedNodes(ns[1..], rest);
      NodesCons(es);
      assert ns == [ns[0]] + ns[1..];
    }
  }

  lemma PairPrinted(p: Pair, rest: seq<Event>)
    ensures ParsePair(EventsOfPair(p) + rest) == if PairAliasFree(p) then Some((p, |EventsOfPair(p)|)) else None
    decreases p, 2
  {
    hide ParseNode, Events, AliasFree;
    var l, r := Events(p.lhs), Events(p.rhs);
    var es := EventsOfPair(p) + rest;
    assert es == l + (r + rest) && es[|l|..] == r + rest;
    ParsesPrinted(p.lhs, r + rest);
    ParsesPrinted(p.rhs, rest);
  }

  lemma {:induction false} ParsesPrintedPairs(ps: seq<Pair>, rest: seq<Event>)
    ensures ParsePairs(PairEvents(ps) + ([MapEnd] + rest))
         == if PairsAliasFree(ps) then Some((ps, |PairEvents(ps)| + 1)) else None
    decreases ps, 0
  {
    hide ParsePair, PairAliasFree;
    var es := PairEvents(ps) + ([MapEnd] + rest);
    if ps == [] {
      assert es == [MapEnd] + rest;
    } else {
      var tail := PairEvents(ps[1..]) + ([MapEnd] + rest);
      var e := EventsOfPair(ps[0]);
      assert e != [] && e[0] != MapEnd by {
        FirstEvent(ps[0].lhs);
      }
      assert es == e + tail && es[|e|..] == tail;
      assert PairsAliasFree(ps) == (PairAliasFree(ps[0]) && PairsAliasFree(ps[1..]));
      assert |PairEvents(ps)| == |e| + |PairEvents(ps[1..])|;
      hide Events, PairAliasFree, PairEvents, PairsAliasFree, ParsePair, ParsePairs;
      PairPrinted(ps[0], tail);
      ParsesPrintedPairs(ps[1..], rest);
      PairsCons(es);
      assert ps == [ps[0]] + ps[1..];
    }
  }

  /** And it returns a node only when the events begin with that node's. */
  lemma {:induction false} ParsedWasPrinted(es: seq<Event>)
    ensures ParseNode(es).Some? ==> var (n, k) := ParseNode(es).value; es[..k] == Events(n) && AliasFree(n)
    decreases |es|, 0
  {
    if ParseNode(es).Some? {
      var (n, k) := ParseNode(es).value;
      if es[0] == SeqStart {
        ParsedNodesPrinted(es[1..]);
        hide ParseNodes, EventsOf, AllAliasFree;
        assert es[..k] == [SeqStart] + es[1..][..k - 1];
      } else if es[0] == MapStart {
        ParsedPairsPrinted(es[1..]);
        hide ParsePairs, PairEvents, PairsAliasFree;
        assert es[..k] == [MapStart] + es[1..][..k - 1];
      }
    }
  }

  lemma {:induction false} ParsedNodesPrinted(es: seq<Event>)
    ensures ParseNodes(es).Some? ==> var (ns, k) := ParseNodes(es).value; es[..k] == EventsOf(ns) + [SeqEnd] && AllAliasFree(ns)
    decreases |es|, 1
  {
    hide ParseNode, Events, AliasFree;
    if ParseNodes(es).Some? && es[0] != SeqEnd {
      NodesCons(es);
      var (n, k) := ParseNode(es).value;
      var (ns, j) := ParseNodes(es[k..]).value;
      ParsedWasPrinted(es);
      ParsedNodesPrinted(es[k..]);
      hide ParseNodes;
      assert es[..k + j] == es[..k] + es[k..][..j];
      assert ([n] + ns)[1..] == ns;
    }
  }

  lemma PairWasPrinted(es: seq<Event>)
    ensures ParsePair(es).Some? ==> var (p, k) := ParsePair(es).value; es[..k] == EventsOfPair(p) && PairAliasFree(p)
    decreases |es|, 1
  {
    hide ParseNode, Events, AliasFree;
    if ParsePair(es).Some? {
      var (l, k) := ParseNode(es).value;
      var (r, j) := ParseNode(es[k..]).value;
      ParsedWasPrinted(es);
      ParsedWasPrinted(es[k..]);
      assert es[..k + j] == es[..k] + es[k..][..j];
    }
  }

  lemma {:induction false} ParsedPairsPrinted(es: seq<Event>)
    ensures ParsePairs(es).Some? ==> var (ps, k) := ParsePairs(es).value; es[..k] == PairEvents(ps) + [MapEnd] && PairsAliasFree(ps)
    decreases |es|, 2
  {
    hide ParsePair, EventsOfPair, PairAliasFree;
    if ParsePairs(es).Some? && es[0] != MapEnd {
      PairsCons(es);
      var (p, k) := ParsePair(es).value;
      var (ps, i) := ParsePairs(es[k..]).value;
      PairWasPrinted(es);
      ParsedPairsPrinted(es[k..]);
      hide ParsePairs;
      assert es[..k + i] == es[..k] + es[k..][..i];
      assert ([p] + ps)[1..] == ps;
    }
  }

  // ---- documents and streams ----

  function DocumentEvents(n: Node): seq<Event> {
    [DocStart] + Events(n) + [DocEnd]
  }

  function DocumentsEvents(docs: seq<Node>): seq<Event> {
    if docs == [] then [] else DocumentEvents(docs[0]) + DocumentsEvents(docs[1..])
  }

  /** A stream of libyaml's grammar. */
  function StreamEvents(docs: seq<Node>): seq<Event> {
    [StreamStart] + DocumentsEvents(docs) + [StreamEnd]
  }

  function ParseDocument(es: seq<Event>): (r: Option<(Node, nat)>)
    ensures r.Some? ==> 0 < r.value.1 <= |es|
  {
    if es == [] || es[0] != DocStart then None
    else
      match ParseNode(es[1..])
      case None => None
      case Some((n, k)) => if 1 + k < |es| && es[1 + k] == DocEnd then Some((n, k + 2)) else None
  }

  /** What the loop of `parse_yaml_stream` does: it takes one event, which is only compared with
      the end of the stream, before it looks for a document. */
  function ParseDocuments(es: seq<Event>): (r: Option<(seq<Node>, nat)>)
    ensures r.Some? ==> 0 < r.value.1 <= |es|
    decreases |es|
  {
    if es == [] then None
    else if es[0] == StreamEnd then Some(([], 1))
    else
      match ParseDocument(es[1..])
      case None => None
      case Some((n, k)) => Prepend(n, 1 + k, ParseDocuments(es[1 + k..]))
  }

  lemma DocumentParses(n: Node, rest: seq<Event>)
    ensures ParseDocument(DocumentEvents(n) + rest) == if AliasFree(n) then Some((n, |DocumentEvents(n)|)) else None
  {
    hide ParseNode, Events, AliasFree;
    var es := DocumentEvents(n) + rest;
    assert es[1..] == Events(n) + ([DocEnd] + rest);
    ParsesPrinted(n, [DocEnd] + rest);
  }

  /** A stream of the grammar is accepted exactly when it holds one document without aliases:
      without one, the end of the stream is taken for its start; behind the first, the start of
      the second is swallowed. */
  lemma StreamParsesIff(docs: seq<Node>)
    ensures ParseDocuments(StreamEvents(docs))
         == if |docs| == 1 && AliasFree(docs[0]) then Some((docs, |StreamEvents(docs)|)) else None
  {
    hide ParseNode, Events, AliasFree;
    var es := StreamEvents(docs);
    if docs == [] {
      assert es[1..] == [StreamEnd];
    } else {
      var n, rest := docs[0], DocumentsEvents(docs[1..]) + [StreamEnd];
      assert es[1..] == DocumentEvents(n) + rest;
      DocumentParses(n, rest);
      if AliasFree(n) {
        var k := |DocumentEvents(n)|;
        assert es[1 + k..] == rest;
        if |docs| == 1 {
          assert rest == [StreamEnd] && ParseDocuments(rest) == Some(([], 1)) && docs == [n] + [];
        } else {
          SecondDocumentFails(docs[1..]);
        }
        hide ParseDocuments;
        DocumentsCons(es);
      }
    }
  }

  lemma DocumentsCons(es: seq<Event>)
    requires es != [] && es[0] != StreamEnd
    ensures ParseDocument(es[1..]) == None ==> ParseDocuments(es) == None
    ensures ParseDocument(es[1..]).Some? ==>
      var (n, k) := ParseDocument(es[1..]).value; ParseDocuments(es) == Prepend(n, 1 + k, ParseDocuments(es[1 + k..]))
  {
    hide ParseDocument;
  }

  lemma SecondDocumentFails(docs: seq<Node>)
    requires docs != []
    ensures ParseDocuments(DocumentsEvents(docs) + [StreamEnd]) == None
  {
    hide ParseNode, Events;
    var es := DocumentsEvents(docs) + [StreamEnd];
    var rest := [DocEnd] + DocumentsEvents(docs[1..]) + [StreamEnd];
    assert es[0] == DocStart && es[1..] == Events(docs[0]) + rest;
    FirstEvent(docs[0]);
    assert es[1..][0] != DocStart;
  }

  // ---- the stateful parser ----

  function PrependAll<T>(xs: seq<T>, k: nat, rest: Option<(seq<T>, nat)>): Option<(seq<T>, nat)> {
    if rest == None then None else Some((xs + rest.value.0, k + rest.value.1))
  }

  lemma PrependMore<T>(xs: seq<T>, k: nat, x: T, j: nat, rest: Option<(seq<T>, nat)>)
    ensures PrependAll(xs, k, Prepend(x, j, rest)) == PrependAll(xs + [x], k + j, rest)
  {
    if rest.Some? {
      assert xs + ([x] + rest.value.0) == xs + [x] + rest.value.0;
    }
  }

  /** `parser_context`. libyaml hands out `events`; after them it fails if the input is broken,
      and otherwise goes on with empty events. */
  class Parser {
    const events: seq<Event>
    const broken: bool
    var read: nat
    var failed: bool     // parser.error
    var event: Event
    var next: Event
    var problem: bool    // error->problem is set

    constructor (events: seq<Event>, broken: bool)
      ensures this.events == events && this.broken == broken && read == 0 && !failed && !problem
    {
      this.events, this.broken := events, broken;
      read, failed, problem, event, next := 0, false, false, NoEvent, NoEvent;
    }

    function At(i: nat): Event {
      if i < |events| then events[i] else NoEvent
    }

    /** The lookahead is event c; before the first event is fetched, c is -1. */
    ghost predicate Ready(c: int)
      reads this
    {
      c >= -1 && read == c + 1 && (c >= 0 ==> next == At(c)) && !problem && !failed
    }

    /** Whether consuming the events before i leaves the lookahead intact. */
    ghost predicate Reaches(i: nat) {
      broken ==> i < |events|
    }

    /** `yaml_parser_parse`. */
    method Fetch()
      modifies this`next, this`read, this`failed
      ensures next == At(old(read)) && read == old(read) + 1
      ensures failed == (old(failed) || (broken && old(read) >= |events|))
    {
      next := At(read);
      if read >= |events| && broken {
        failed := true;
      }
      read := read + 1;
    }

    /** `set_error`. */
    method SetError() returns (r: bool)
      modifies this`problem
      ensures r == (!old(problem) && failed) && problem == (old(problem) || failed)
    {
      if !problem && failed {
        problem := true;
        return true;
      }
      r := false;
    }

    /** `process_event`. */
    method ProcessEvent(ghost c: int) returns (r: int)
      requires Ready(c)
      modifies this
      ensures event == old(next) && r == (if Reaches(c + 1) then 0 else -1)
      ensures if r == 0 then Ready(c + 1) else problem
    {
      event := next;
      Fetch();
      var e := SetError();
      r := if e then -1 else 0;
    }

    /** `next_event`. */
    method NextEvent(ghost c: int) returns (t: Event)
      requires Ready(c)
      modifies this
      ensures Reaches(c + 1) ==> t == event == old(next) && Ready(c + 1)
      ensures !Reaches(c + 1) ==> t == NoEvent && problem
    {
      var r := ProcessEvent(c);
      if r < 0 {
        return NoEvent;
      }
      t := event;
    }

    /** The events from c on, as the reference parser sees them; a lookahead past the end of a
        broken input spoils what was just parsed. */
    ghost predicate Parses<T>(r: Option<T>, expected: Option<(T, nat)>, c: nat)
      reads this
    {
      && (r.Some? <==> expected.Some? && Reaches(c + expected.value.1))
      && (r.Some? ==> r.value == expected.value.0 && Ready(c + expected.value.1))
    }

    /** `process_node`. */
    method ProcessNode(ghost c: nat) returns (r: Option<Node>)
      requires Ready(c) && c <= |events|
      modifies this
      ensures Parses(r, ParseNode(events[c..]), c)
      decreases |events| - c, 0
    {
      hide ParseNodes, ParsePairs;
      ghost var es := events[c..];
      assert c < |events| ==> es[0] == events[c] && es[1..] == events[c + 1..];
      var t := NextEvent(c);
      match t
      case AliasOf(_) =>
        problem := true;
        r := None;
      case ScalarOf(v) =>
        r := Some(Scalar(v));
      case SeqStart =>
        r := ProcessSequence(c + 1);
      case MapStart =>
        r := ProcessMapping(c + 1);
      case _ =>
        r := None;
    }

    /** `process_sequence`, after the event that starts it. */
    method ProcessSequence(ghost c: nat) returns (r: Option<Node>)
      requires Ready(c) && c <= |events|
      modifies this
      ensures Parses(r, AsSequence(ParseNodes(events[c..])), c)
      decreases |events| - c, 1
    {
      hide ParseNode, ParseNodes;
      var nodes: seq<Node> := [];
      ghost var d := c;
      PrependNone(ParseNodes(events[c..]));
      while next != SeqEnd
        invariant c <= d <= |events| && Ready(d)
        invariant ParseNodes(events[c..]) == PrependAll(nodes, d - c, ParseNodes(events[d..]))
        decreases |events| - d
      {
        ghost var es := events[d..];
        NodesNext(es);
        var node := ProcessNode(d);
        if node == None {
          assert ParseNode(es).Some? ==> es[ParseNode(es).value.1..] == [];
          return None;
        }
        ghost var k := ParseNode(es).value.1;
        assert es[k..] == events[d + k..];
        PrependMore(nodes, d - c, node.value, k, ParseNodes(es[k..]));
        nodes := nodes + [node.value];
        d := d + k;
      }
      assert events[d..] != [] && events[d..][0] == SeqEnd;
      NodesEnd(events[d..]);
      var e := ProcessEvent(d);
      assert nodes + [] == nodes;
      if e < 0 {
        return None;
      }
      r := Some(Sequence(nodes));
    }

    /** `process_mapping`, after the event that starts it. */
    method ProcessMapping(ghost c: nat) returns (r: Option<Node>)
      requires Ready(c) && c <= |events|
      modifies this
      ensures Parses(r, AsMapping(ParsePairs(events[c..])), c)
      decreases |events| - c, 1
    {
      hide ParseNode, ParsePair, ParsePairs;
      var pairs: seq<Pair> := [];
      ghost var d := c;
      PrependNone(ParsePairs(events[c..]));
      while next != MapEnd
        invariant c <= d <= |events| && Ready(d)
        invariant ParsePairs(events[c..]) == PrependAll(pairs, d - c, ParsePairs(events[d..]))
        decreases |events| - d
      {
        ghost var es := events[d..];
        PairsNext(es);
        var lhs := ProcessNode(d);
        if lhs == None {
          assert ParseNode(es).Some? ==> es[ParseNode(es).value.1..] == [];
          PairNeedsBoth(es);
          return None;
        }
        ghost var k := ParseNode(es).value.1;
        assert es[k..] == events[d + k..];
        var rhs := ProcessNode(d + k);
        PairNeedsBoth(es);
        if rhs == None {
          assert ParsePair(es).Some? ==> es[ParsePair(es).value.1..] == [];
          return None;
        }
        ghost var j := ParseNode(es[k..]).value.1;
        assert es[k + j..] == events[d + k + j..];
        PrependMore(pairs, d - c, Pair(lhs.value, rhs.value), k + j, ParsePairs(es[k + j..]));
        pairs := pairs + [Pair(lhs.value, rhs.value)];
        d := d + k + j;
      }
      assert events[d..] != [] && events[d..][0] == MapEnd;
      PairsEnd(events[d..]);
      var e := ProcessEvent(d);
      assert pairs + [] == pairs;
      if e < 0 {
        return None;
      }
      r := Some(Mapping(pairs));
    }

    ghost function Tail(c: nat): seq<Event> {
      if c <= |events| then events[c..] else []
    }

    /** `process_document`. */
    method ProcessDocument(ghost c: nat) returns (r: Option<Node>)
      requires Ready(c)
      modifies this
      ensures Parses(r, ParseDocument(Tail(c)), c)
    {
      hide ParseNode;
      var t := NextEvent(c);
      if t != DocStart {
        if !problem {
          problem := true;
        }
        return None;
      }
      assert events[c..][1..] == events[c + 1..];
      var doc := ProcessNode(c + 1);
      if doc == None {
        return None;
      }
      ghost var d := c + 1 + ParseNode(events[c + 1..]).value.1;
      var u := NextEvent(d);
      if u != DocEnd {
        if !problem {
          problem := true;
        }
        return None;
      }
      r := doc;
    }

    /** The body of the loop of `parse_yaml_stream`, behind event d. */
    method DocumentTurn(ghost d: nat) returns (doc: Option<Node>, ghost k: nat)
      requires Ready(d + 1) && d <= |events| && (d < |events| ==> events[d] != StreamEnd)
      modifies this
      ensures doc == None ==> ParseDocuments(events[d..]) == None || !Reaches(d + ParseDocuments(events[d..]).value.1)
      ensures doc.Some? ==> d + 1 + k <= |events| && Ready(d + 1 + k)
      ensures doc.Some? ==> ParseDocuments(events[d..]) == Prepend(doc.value, 1 + k, ParseDocuments(events[d + 1 + k..]))
    {
      hide ParseDocuments;
      ghost var es := events[d..];
      DocumentsNext(es);
      assert Tail(d + 1) == if d < |events| then es[1..] else [];
      assert ParseDocument([]) == None;
      doc := ProcessDocument(d + 1);
      k := 0;
      if doc.Some? {
        k := ParseDocument(es[1..]).value.1;
        assert es[1 + k..] == events[d + 1 + k..];
      }
    }

    /** `parse_yaml_stream`. */
    method ParseStream() returns (r: Option<seq<Node>>)
      requires Ready(-1)
      modifies this
      ensures events != [] && events[0] == StreamStart ==>
        (r.Some? <==> ParseDocuments(events).Some? && Reaches(ParseDocuments(events).value.1))
      ensures r.Some? ==> events != [] && events[0] == StreamStart && r.value == ParseDocuments(events).value.0
    {
      hide ParseDocument, ParseDocuments, Prepend;
      var e := ProcessEvent(-1);
      if e < 0 {
        return None;
      }
      if next != StreamStart {
        problem := true;
        return None;
      }
      var docs: seq<Node> := [];
      ghost var d: nat := 0;
      assert events[0..] == events;
      PrependNone(ParseDocuments(events));
      var t := NextEvent(d);
      while t != StreamEnd
        invariant d <= |events| && (Reaches(d + 1) ==> t == At(d) && Ready(d + 1)) && (!Reaches(d + 1) ==> t == NoEvent && problem)
        invariant ParseDocuments(events) == PrependAll(docs, d, ParseDocuments(events[d..]))
        decreases |events| - d
      {
        if problem {
          return None;
        }
        var doc;
        ghost var k;
        doc, k := DocumentTurn(d);
        if doc == None {
          return None;
        }
        PrependMore(docs, d, doc.value, 1 + k, ParseDocuments(events[d + 1 + k..]));
        docs := docs + [doc.value];
        d := d + 1 + k;
        t := NextEvent(d);
      }
      assert events[d..][0] == StreamEnd;
      DocumentsEnd(events[d..]);
      assert docs + [] == docs;
      r := Some(docs);
    }
  }

  function AsSequence(r: Option<(seq<Node>, nat)>): Option<(Node, nat)> {
    if r == None then None else Some((Sequence(r.value.0), r.value.1))
  }

  function AsMapping(r: Option<(seq<Pair>, nat)>): Option<(Node, nat)> {
    if r == None then None else Some((Mapping(r.value.0), r.value.1))
  }

  lemma PrependNone<T>(rest: Option<(seq<T>, nat)>)
    ensures PrependAll([], 0, rest) == rest
  {
    assert rest.Some? ==> [] + rest.value.0 == rest.value.0;
  }

  lemma NodesNext(es: seq<Event>)
    requires es != [] ==> es[0] != SeqEnd
    ensures ParseNode(es) == None ==> ParseNodes(es) == None
    ensures ParseNode(es).Some? ==> var (n, k) := ParseNode(es).value; ParseNodes(es) == Prepend(n, k, ParseNodes(es[k..]))
    ensures ParseNodes([]) == None
  {
    if es != [] {
      NodesCons(es);
    }
  }

  lemma PairsNext(es: seq<Event>)
    requires es != [] ==> es[0] != MapEnd
    ensures ParsePair(es) == None ==> ParsePairs(es) == None
    ensures ParsePair(es).Some? ==> var (p, k) := ParsePair(es).value; ParsePairs(es) == Prepend(p, k, ParsePairs(es[k..]))
    ensures ParsePairs([]) == None
  {
    if es != [] {
      PairsCons(es);
    }
  }

  lemma PairNeedsBoth(es: seq<Event>)
    ensures ParseNode(es) == None ==> ParsePair(es) == None
    ensures ParseNode(es).Some? ==> var (l, k) := ParseNode(es).value;
      && (ParseNode(es[k..]) == None ==> ParsePair(es) == None)
      && (ParseNode(es[k..]).Some? ==> ParsePair(es) == Some((Pair(l, ParseNode(es[k..]).value.0), k + ParseNode(es[k..]).value.1)))
    ensures ParseNode([]) == None
  {
  }

  lemma NodesEnd(es: seq<Event>)
    requires es != [] && es[0] == SeqEnd
    ensures ParseNodes(es) == Some(([], 1))
  {
  }

  lemma PairsEnd(es: seq<Event>)
    requires es != [] && es[0] == MapEnd
    ensures ParsePairs(es) == Some(([], 1))
  {
  }

  lemma DocumentsNext(es: seq<Event>)
    requires es != [] ==> es[0] != StreamEnd
    ensures es == [] ==> ParseDocuments(es) == None
    ensures es != [] && ParseDocument(es[1..]) == None ==> ParseDocuments(es) == None
    ensures es != [] && ParseDocument(es[1..]).Some? ==>
      var (n, k) := ParseDocument(es[1..]).value; ParseDocuments(es) == Prepend(n, 1 + k, ParseDocuments(es[1 + k..]))
    ensures ParseDocuments([]) == None
  {
    if es != [] {
      DocumentsCons(es);
    }
  }

  lemma DocumentsEnd(es: seq<Event>)
    requires es != [] && es[0] == StreamEnd
    ensures ParseDocuments(es) == Some(([], 1))
  {
  }
}
