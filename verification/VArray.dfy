/** Growable arrays (utils/varray.c). The spare slot behind the last allocated element is the
    scratch space of `varray_remove`. */
module VArray {
  import opened Wrappers

  function InsertAt<T>(s: seq<T>, e: T, i: nat): (r: seq<T>)
    requires i <= |s|
    ensures |r| == |s| + 1
  {
    s[..i] + [e] + s[i..]
  }

  function RemoveAt<T>(s: seq<T>, i: nat): (r: seq<T>)
    requires i < |s|
    ensures |r| == |s| - 1
  {
    s[..i] + s[i + 1..]
  }

  /** Where the binary search of `get_sorted_insert_index` ends. */
  function Bisect<K, T>(s: seq<T>, key: K, compar: (K, T) -> int, low: nat, high: nat): (r: nat)
    requires low <= high <= |s|
    ensures low <= r <= high
    decreases high - low
  {
    if low == high then low
    else
      var test := (low + high) / 2;
      var c := compar(key, s[test]);
      if c == 0 then test
      else if c > 0 then Bisect(s, key, compar, test + 1, high)
      else Bisect(s, key, compar, low, test)
  }

  function Index<K, T>(s: seq<T>, key: K, compar: (K, T) -> int): (r: nat)
    ensures r <= |s|
  {
    Bisect(s, key, compar, 0, |s|)
  }

  /** The key is compared consistently with the order of the elements. */
  ghost predicate Consistent<K, T>(s: seq<T>, key: K, compar: (K, T) -> int) {
    forall i, j :: 0 <= i < j < |s| ==>
      (compar(key, s[j]) > 0 ==> compar(key, s[i]) > 0) && (compar(key, s[i]) < 0 ==> compar(key, s[j]) < 0)
  }

  ghost predicate Hit<K, T>(s: seq<T>, key: K, compar: (K, T) -> int, i: nat) {
    i < |s| && compar(key, s[i]) == 0
  }

  ghost predicate Absent<K, T>(s: seq<T>, key: K, compar: (K, T) -> int, i: nat) {
    i <= |s|
    && (forall j :: 0 <= j < i ==> compar(key, s[j]) > 0)
    && (forall j :: i <= j < |s| ==> compar(key, s[j]) < 0)
  }

  lemma {:induction false} BisectFinds<K, T>(s: seq<T>, key: K, compar: (K, T) -> int, low: nat, high: nat)
    requires low <= high <= |s| && Consistent(s, key, compar)
    requires forall j :: 0 <= j < low ==> compar(key, s[j]) > 0
    requires forall j :: high <= j < |s| ==> compar(key, s[j]) < 0
    ensures var r := Bisect(s, key, compar, low, high); Hit(s, key, compar, r) || Absent(s, key, compar, r)
    decreases high - low
  {
    if low < high {
      var test := (low + high) / 2;
      var c := compar(key, s[test]);
      if c > 0 {
        BisectFinds(s, key, compar, test + 1, high);
      } else if c < 0 {
        BisectFinds(s, key, compar, low, test);
      }
    }
  }

  /** In a consistent array the search ends on an equal element, or else no element is equal and
      the index separates the greater from the smaller ones. */
  lemma IndexFinds<K, T>(s: seq<T>, key: K, compar: (K, T) -> int)
    requires Consistent(s, key, compar)
    ensures Hit(s, key, compar, Index(s, key, compar)) <==> exists i :: 0 <= i < |s| && compar(key, s[i]) == 0
    ensures !Hit(s, key, compar, Index(s, key, compar)) ==> Absent(s, key, compar, Index(s, key, compar))
  {
    BisectFinds(s, key, compar, 0, |s|);
  }

  // ---- sorted insertion ----

  ghost predicate Preorder<T(!new)>(sort: (T, T) -> int) {
    && (forall a, b :: sort(a, b) <= 0 <==> sort(b, a) >= 0)
    && (forall a, b, c :: sort(a, b) <= 0 && sort(b, c) <= 0 ==> sort(a, c) <= 0)
  }

  ghost predicate Sorted<T>(s: seq<T>, sort: (T, T) -> int) {
    forall i, j :: 0 <= i < j < |s| ==> sort(s[i], s[j]) <= 0
  }

  /** Inserting where the search ends keeps an array sorted, whether or not an equal element is
      there already. */
  lemma SortedInsertion<T(!new)>(s: seq<T>, e: T, sort: (T, T) -> int)
    requires Preorder(sort) && Sorted(s, sort)
    ensures Sorted(InsertAt(s, e, Index(s, e, sort)), sort)
  {
    SortedIsConsistent(s, e, sort);
    IndexFinds(s, e, sort);
    hide Index;
    IndexSplits(s, e, sort, Index(s, e, sort));
  }

  lemma SortedIsConsistent<T(!new)>(s: seq<T>, e: T, sort: (T, T) -> int)
    requires Preorder(sort) && Sorted(s, sort)
    ensures Consistent(s, e, sort)
  {
    forall i, j | 0 <= i < j < |s|
      ensures (sort(e, s[j]) > 0 ==> sort(e, s[i]) > 0) && (sort(e, s[i]) < 0 ==> sort(e, s[j]) < 0)
    {
      assert sort(s[i], s[j]) <= 0;
      assert sort(e, s[j]) > 0 ==> sort(e, s[i]) > 0;
      assert sort(e, s[j]) >= 0 ==> sort(s[j], e) <= 0;
    }
  }

  lemma IndexSplits<T(!new)>(s: seq<T>, e: T, sort: (T, T) -> int, k: nat)
    requires Preorder(sort) && Sorted(s, sort)
    requires Hit(s, e, sort, k) || Absent(s, e, sort, k)
    ensures Sorted(InsertAt(s, e, k), sort)
  {
    forall i | 0 <= i < |s|
      ensures i < k ==> sort(s[i], e) <= 0
      ensures i >= k ==> sort(e, s[i]) <= 0
    {
      if Hit(s, e, sort, k) {
        assert sort(e, s[k]) <= 0 && sort(s[k], e) <= 0;
        assert i < k ==> sort(s[i], s[k]) <= 0;
        assert k < i ==> sort(s[k], s[i]) <= 0;
      }
    }
    SortedAround(s, e, sort, k);
  }

  lemma SortedAround<T>(s: seq<T>, e: T, sort: (T, T) -> int, k: nat)
    requires Sorted(s, sort) && k <= |s|
    requires forall i :: 0 <= i < k ==> sort(s[i], e) <= 0
    requires forall i :: k <= i < |s| ==> sort(e, s[i]) <= 0
    ensures Sorted(InsertAt(s, e, k), sort)
  {
    var r := InsertAt(s, e, k);
    forall i, j | 0 <= i < j < |r|
      ensures sort(r[i], r[j]) <= 0
    {
      var a := if i <= k then i else i - 1;
      var b := if j <= k then j else j - 1;
      if j == k {
        assert r[j] == e && r[i] == s[i];
      } else if i == k {
        assert r[i] == e && r[j] == s[b];
      } else {
        assert r[i] == s[a] && r[j] == s[b] && a < b;
      }
    }
  }

  /** What `varray_sorted_insert_ex` with allow_dup == 0 makes of an array: the new element itself
      is handed to the key comparison, at the one index where the sort comparison ended. */
  predicate Rejected<K, T>(s: seq<T>, e: T, sort: (T, T) -> int, search: (K, T) -> int, asKey: T -> K) {
    var i := Index(s, e, sort);
    i < |s| && search(asKey(e), s[i]) == 0
  }

  function InsertUnlessRejected<K, T>(s: seq<T>, e: T, sort: (T, T) -> int, search: (K, T) -> int, asKey: T -> K): seq<T> {
    if Rejected(s, e, sort, search, asKey) then s else InsertAt(s, e, Index(s, e, sort))
  }

  // ---- the array ----

  class VArray<K, T> {
    var data: array<T>
    var count: nat
    var allocation: nat
    const zero: T
    const init: T -> Option<T>
    const sort: (T, T) -> int
    const search: (K, T) -> int
    /** An element read where a key is expected. */
    const asKey: T -> K

    ghost predicate Valid()
      reads this
    {
      count <= allocation && data.Length == if allocation == 0 then 0 else allocation + 1
    }

    ghost function Contents(): (s: seq<T>)
      requires Valid()
      reads this, data
      ensures |s| == count
    {
      data[..count]
    }

    /** `varray_init`. */
    constructor (initial: nat, zero: T, init: T -> Option<T>, sort: (T, T) -> int, search: (K, T) -> int, asKey: T -> K)
      ensures Valid() && Contents() == [] && fresh(data)
      ensures this.zero == zero && this.init == init && this.sort == sort && this.search == search && this.asKey == asKey
    {
      data := new T[if initial == 0 then 0 else initial + 1](_ => zero);
      count := 0;
      allocation := initial;
      this.zero, this.init, this.sort, this.search, this.asKey := zero, init, sort, search, asKey;
    }

    /** `grow_array` under GROW_IF_NECESSARY. */
    method Grow()
      requires Valid()
      modifies this
      ensures Valid() && count == old(count) && count < allocation
      ensures data == old(data) || fresh(data)
      ensures Contents() == old(Contents())
    {
      if count >= allocation {
        var newAllocation := if allocation == 0 then 16 else allocation * 2;
        var newData := new T[newAllocation + 1](_ => zero);
        forall i | 0 <= i < data.Length {
          newData[i] := data[i];
        }
        data := newData;
        allocation := newAllocation;
      }
    }

    /** `varray_push`; -1 stands for NULL. */
    method Push(element: Option<T>) returns (index: int)
      requires Valid()
      modifies this, data
      ensures Valid() && (data == old(data) || fresh(data))
      ensures var e := if element.Some? then element else init(zero);
        if e.Some? then index == old(count) && Contents() == old(Contents()) + [e.value]
        else index == -1 && Contents() == old(Contents())
    {
      Grow();
      var e := element;
      if element == None {
        data[count] := zero;
        e := init(data[count]);
        if e == None {
          return -1;
        }
      }
      data[count] := e.value;
      count := count + 1;
      index := count - 1;
    }

    /** What `varray_insert` does when the initialiser fails: the array holds s, shifted up from
        index, under the old count. */
    method FailInsert(index: nat, ghost s: seq<T>)
      requires Valid() && count < allocation && index <= count == |s|
      requires data[..index] == s[..index] && data[index + 1..count + 1] == s[index..]
      modifies this`count, data
      ensures Valid() && Contents() == if index == |s| then s else s[..|s| - 1]
    {
      assert index < |s| ==> RemoveAt(Contents(), index) == s[..|s| - 1];
      var unused := Remove(index);
    }

    /** The elements from index on move up by one. */
    method MakeRoom(index: nat)
      requires Valid() && index <= count
      modifies this, data
      ensures Valid() && count == old(count) < allocation
      ensures data == old(data) || fresh(data)
      ensures data[..index] == old(Contents())[..index] && data[index + 1..count + 1] == old(Contents())[index..]
    {
      Grow();
      if index < count {
        forall i | index <= i < count {
          data[i + 1] := data[i];
        }
      }
    }

    /** `varray_insert`. When the initialiser of a new element fails, `varray_remove` runs before
        the element has been counted, and the last element is lost unless the new one is last. */
    method Insert(element: Option<T>, index: int) returns (r: int)
      requires Valid()
      modifies this, data
      ensures Valid() && (data == old(data) || fresh(data))
      ensures var s, e := old(Contents()), if element.Some? then element else init(zero);
        if !(0 <= index <= |s|) then r == -1 && Contents() == s
        else if e.Some? then r == index && Contents() == InsertAt(s, e.value, index)
        else r == -1 && Contents() == if index == |s| then s else s[..|s| - 1]
    {
      if index > count || index < 0 {
        return -1;
      }
      ghost var s := Contents();
      MakeRoom(index);
      var e := element;
      if element == None {
        data[index] := zero;
        e := init(data[index]);
        if e == None {
          FailInsert(index, s);
          return -1;
        }
      }
      data[index] := e.value;
      count := count + 1;
      assert Contents() == InsertAt(s, e.value, index);
      r := index;
    }

    /** `varray_pop`: the slot of the removed element, or -1. */
    method Pop() returns (r: int)
      requires Valid()
      modifies this`count
      ensures Valid()
      ensures var s := old(Contents());
        if s == [] then r == -1 && Contents() == s
        else r == count == |s| - 1 && data[r] == s[|s| - 1] && Contents() == s[..|s| - 1]
    {
      if count == 0 {
        return -1;
      }
      count := count - 1;
      r := count;
    }

    /** `varray_remove`: the removed element is kept, until the next insertion, in the slot that
        the removal frees. The move takes one element more than there are behind the index. */
    method Remove(index: int) returns (r: int)
      requires Valid()
      modifies this`count, data
      ensures Valid()
      ensures var s := old(Contents());
        if !(0 <= index < |s|) then r == -1 && Contents() == s
        else r == count == |s| - 1 && data[r] == s[index] && Contents() == RemoveAt(s, index)
    {
      if index >= count || index < 0 {
        return -1;
      }
      if index == count - 1 {
        r := Pop();
        return;
      }
      ghost var s := Contents();
      data[allocation] := data[index];
      forall i | index <= i < count {
        data[i] := data[i + 1];
      }
      count := count - 1;
      data[count] := data[allocation];
      r := count;
      assert Contents() == RemoveAt(s, index);
    }

    /** `get_sorted_insert_index`. */
    method SortedInsertIndex<Q>(key: Q, compar: (Q, T) -> int) returns (r: nat)
      requires Valid()
      ensures r == Index(Contents(), key, compar)
    {
      var low, high := 0, count;
      while low < high
        invariant low <= high <= count
        invariant Index(Contents(), key, compar) == Bisect(Contents(), key, compar, low, high)
      {
        var test := (low + high) / 2;
        var result := compar(key, data[test]);
        if result == 0 {
          return test;
        } else if result > 0 {
          low := test + 1;
        } else {
          high := test;
        }
      }
      r := low;
    }

    /** `varray_sorted_insert_ex`. */
    method SortedInsertEx(element: T, allowDup: bool) returns (r: int)
      requires Valid()
      modifies this, data
      ensures Valid() && (data == old(data) || fresh(data))
      ensures var s := old(Contents());
        if allowDup then r == Index(s, element, sort) && Contents() == InsertAt(s, element, r)
        else
          && r == (if Rejected(s, element, sort, search, asKey) then -1 else Index(s, element, sort))
          && Contents() == InsertUnlessRejected(s, element, sort, search, asKey)
    {
      var insertIdx := SortedInsertIndex(element, sort);
      if !allowDup && insertIdx < count && search(asKey(element), data[insertIdx]) == 0 {
        return -1;
      }
      r := Insert(Some(element), insertIdx);
    }

    /** `varray_sorted_search_or_insert`. */
    method SortedSearchOrInsert(key: K) returns (r: int, found: bool)
      requires Valid() && init(zero).Some?
      modifies this, data
      ensures Valid() && (data == old(data) || fresh(data))
      ensures var s := old(Contents());
        var i := Index(s, key, search);
        r == i && found == Hit(s, key, search, i)
        && Contents() == if found then s else InsertAt(s, init(zero).value, i)
    {
      var insertIdx := SortedInsertIndex(key, search);
      if insertIdx < count && search(key, data[insertIdx]) == 0 {
        return insertIdx, true;
      }
      found := false;
      r := Insert(None, insertIdx);
    }
  }
}
