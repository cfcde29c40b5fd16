/** The exceptions of vita-nid-bypass.c: entries of a library that may share their name with an entry
    of another library. Both of its linked lists are held as sequences in list order. */
module NidBypass {
  import Y = YamlTree

  /** `NIDDbBypassLibrary`. */
  datatype Group = Group(library: string, entries: seq<string>)

  /** Index of the first group of a library, or one past the end. */
  function Find(groups: seq<Group>, library: string): (i: nat)
    ensures i <= |groups| && (i < |groups| ==> groups[i].library == library)
    ensures forall j :: 0 <= j < i ==> groups[j].library != library
  {
    if groups == [] || groups[0].library == library then 0 else 1 + Find(groups[1..], library)
  }

  predicate Bypassed(groups: seq<Group>, library: string, name: string) {
    var i := Find(groups, library);
    i < |groups| && name in groups[i].entries
  }

  lemma FindIs(groups: seq<Group>, library: string, i: nat)
    requires i <= |groups| && (i < |groups| ==> groups[i].library == library)
    requires forall j :: 0 <= j < i ==> groups[j].library != library
    ensures Find(groups, library) == i
  {
    var k := Find(groups, library);
    assert !(k < i) && !(i < k);
  }

  /** The entry is written somewhere below a `bypass` key of the document. */
  predicate Listed(doc: Y.Node, library: string, name: string) {
    doc.Mapping? && exists i :: 0 <= i < |doc.pairs| && doc.pairs[i].lhs == Y.Scalar("bypass") && Below(doc.pairs[i].rhs, library, name)
  }

  predicate Below(child: Y.Node, library: string, name: string) {
    child.Mapping? && exists i :: 0 <= i < |child.pairs| && OfLibrary(child.pairs[i], library, name)
  }

  predicate OfLibrary(p: Y.Pair, library: string, name: string) {
    p.lhs == Y.Scalar(library) && p.rhs.Sequence? && Y.Scalar(name) in p.rhs.nodes
  }

  /** A library is named by a scalar, and its entries are scalars. */
  predicate LibraryOk(p: Y.Pair) {
    p.lhs.Scalar? && (p.rhs.Sequence? ==> forall e :: e in p.rhs.nodes ==> e.Scalar?)
  }

  /** So are the libraries of a `bypass` key; what other keys hold does not matter. */
  predicate RootOk(p: Y.Pair) {
    p.lhs.Scalar? && (p.lhs.value == "bypass" && p.rhs.Mapping? ==> forall q :: q in p.rhs.pairs ==> LibraryOk(q))
  }

  predicate Accepted(doc: Y.Node) {
    doc.Mapping? && forall p :: p in doc.pairs ==> RootOk(p)
  }

  /** `NIDDbBypass`. */
  class Bypass {
    var groups: seq<Group>

    constructor ()
      ensures groups == [] && forall l, n :: !Bypassed(groups, l, n)
    {
      groups := [];
    }

    /** `nid_db_bypass_search_library`. */
    method SearchLibrary(name: string) returns (i: nat)
      ensures i == Find(groups, name)
    {
      i := 0;
      while i < |groups|
        invariant i <= |groups| && forall j :: 0 <= j < i ==> groups[j].library != name
      {
        if groups[i].library == name {
          break;
        }
        i := i + 1;
      }
      FindIs(groups, name, i);
    }

    /** `nid_db_bypass_search_entry_by_name`. */
    method SearchEntry(i: nat, name: string) returns (found: bool)
      requires i < |groups|
      ensures found <==> name in groups[i].entries
    {
      var k := 0;
      while k < |groups[i].entries|
        invariant k <= |groups[i].entries| && name !in groups[i].entries[..k]
      {
        if groups[i].entries[k] == name {
          return true;
        }
        k := k + 1;
      }
      found := false;
    }

    /** `search_or_create_library`: nothing becomes bypassed yet. */
    method SearchOrCreateLibrary(name: string) returns (i: nat)
      modifies this
      ensures i == Find(groups, name) < |groups|
      ensures forall l, n :: Bypassed(groups, l, n) <==> Bypassed(old(groups), l, n)
    {
      i := SearchLibrary(name);
      if i == |groups| {
        groups := groups + [Group(name, [])];
        FindIs(groups, name, i);
        forall l | l != name
          ensures var k := Find(old(groups), l); Find(groups, l) == if k < i then k else i + 1
        {
          var k := Find(old(groups), l);
          FindIs(groups, l, if k < i then k else i + 1);
        }
      }
    }

    /** `search_or_create_entry_by_name`: exactly this entry becomes bypassed. */
    method SearchOrCreateEntry(library: string, i: nat, name: string)
      requires i == Find(groups, library) < |groups|
      modifies this
      ensures i == Find(groups, library) < |groups|
      ensures forall l, n :: Bypassed(groups, l, n) <==> Bypassed(old(groups), l, n) || (l == library && n == name)
    {
      var found := SearchEntry(i, name);
      if !found {
        groups := groups[i := groups[i].(entries := groups[i].entries + [name])];
        forall l
          ensures Find(groups, l) == Find(old(groups), l)
        {
          FindIs(groups, l, Find(old(groups), l));
        }
      }
    }

    /** `process_nid_db_bypass_libraries`. */
    method ReadLibrary(p: Y.Pair) returns (ok: bool)
      modifies this
      ensures forall l, n :: Bypassed(old(groups), l, n) ==> Bypassed(groups, l, n)
      ensures forall l, n :: Bypassed(groups, l, n) ==> Bypassed(old(groups), l, n) || OfLibrary(p, l, n)
      ensures ok ==> forall l, n :: OfLibrary(p, l, n) ==> Bypassed(groups, l, n)
      ensures ok <==> LibraryOk(p)
    {
      if !p.lhs.Scalar? {
        return false;
      }
      var library := p.lhs.value;
      var i := SearchOrCreateLibrary(library);
      if p.rhs.Sequence? {
        var nodes := p.rhs.nodes;
        var k := 0;
        while k < |nodes|
          invariant k <= |nodes| && i == Find(groups, library) < |groups|
          invariant forall j :: 0 <= j < k ==> nodes[j].Scalar?
          invariant forall l, n :: Bypassed(groups, l, n) <==>
            Bypassed(old(groups), l, n) || (l == library && Y.Scalar(n) in nodes[..k])
        {
          if !nodes[k].Scalar? {
            return false;
          }
          assert nodes[..k + 1] == nodes[..k] + [nodes[k]];
          SearchOrCreateEntry(library, i, nodes[k].value);
          k := k + 1;
        }
        assert nodes[..k] == nodes;
      }
      ok := true;
    }

    /** `process_nid_db_bypass_root`. */
    method ReadRoot(p: Y.Pair) returns (ok: bool)
      modifies this
      ensures forall l, n :: Bypassed(old(groups), l, n) ==> Bypassed(groups, l, n)
      ensures forall l, n :: Bypassed(groups, l, n) ==> Bypassed(old(groups), l, n) || (p.lhs == Y.Scalar("bypass") && Below(p.rhs, l, n))
      ensures ok && p.lhs == Y.Scalar("bypass") ==> forall l, n :: Below(p.rhs, l, n) ==> Bypassed(groups, l, n)
      ensures ok <==> RootOk(p)
    {
      if !p.lhs.Scalar? {
        return false;
      }
      if p.lhs.value == "bypass" && p.rhs.Mapping? {
        var pairs := p.rhs.pairs;
        var k := 0;
        while k < |pairs|
          invariant k <= |pairs| && forall j :: 0 <= j < k ==> LibraryOk(pairs[j])
          invariant forall l, n :: Bypassed(old(groups), l, n) ==> Bypassed(groups, l, n)
          invariant forall l, n :: Bypassed(groups, l, n) ==> Bypassed(old(groups), l, n) || Below(p.rhs, l, n)
          invariant forall j, l, n :: 0 <= j < k && OfLibrary(pairs[j], l, n) ==> Bypassed(groups, l, n)
        {
          ok := ReadLibrary(pairs[k]);
          if !ok {
            return false;
          }
          k := k + 1;
        }
      }
      ok := true;
    }

    /** `parse_nid_db_bypass_yaml`. A document that is rejected half way leaves the entries read so far
        in force, because `load_nid_db_bypass_by_path` answers success all the same. */
    method Load(doc: Y.Node) returns (ok: bool)
      modifies this
      ensures forall l, n :: Bypassed(old(groups), l, n) ==> Bypassed(groups, l, n)
      ensures forall l, n :: Bypassed(groups, l, n) ==> Bypassed(old(groups), l, n) || Listed(doc, l, n)
      ensures ok ==> forall l, n :: Listed(doc, l, n) ==> Bypassed(groups, l, n)
      ensures ok <==> Accepted(doc)
    {
      if !doc.Mapping? {
        return false;
      }
      var k := 0;
      while k < |doc.pairs|
        invariant k <= |doc.pairs| && forall j :: 0 <= j < k ==> RootOk(doc.pairs[j])
        invariant forall l, n :: Bypassed(old(groups), l, n) ==> Bypassed(groups, l, n)
        invariant forall l, n :: Bypassed(groups, l, n) ==> Bypassed(old(groups), l, n) || Listed(doc, l, n)
        invariant forall j, l, n :: 0 <= j < k && doc.pairs[j].lhs == Y.Scalar("bypass") && Below(doc.pairs[j].rhs, l, n) ==> Bypassed(groups, l, n)
      {
        ok := ReadRoot(doc.pairs[k]);
        if !ok {
          return false;
        }
        k := k + 1;
      }
      ok := true;
    }
  }
}
