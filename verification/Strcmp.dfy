/** The order of C strings. */
module Strcmp {
  /** `strcmp`. */
  function StrCmp(a: string, b: string): (r: int)
    ensures r == 0 <==> a == b
  {
    if a == "" && b == "" then 0
    else if a == "" then -1
    else if b == "" then 1
    else if a[0] != b[0] then if a[0] < b[0] then -1 else 1
    else assert a == [a[0]] + a[1..] && b == [b[0]] + b[1..]; StrCmp(a[1..], b[1..])
  }

  /** The strings agree up to k, where a ends and b goes on, or a has the smaller character. */
  predicate SmallerAt(a: string, b: string, k: int) {
    0 <= k <= |a| && k < |b| && a[..k] == b[..k] && (k < |a| ==> a[k] < b[k])
  }

  /** The lexicographic order. */
  predicate Less(a: string, b: string) {
    exists k :: 0 <= k < |b| && SmallerAt(a, b, k)
  }

  lemma SmallerNext(a: string, b: string, k: int)
    requires a != "" && b != "" && a[0] == b[0]
    ensures SmallerAt(a, b, k + 1) <==> SmallerAt(a[1..], b[1..], k) || (k == -1 && SmallerAt(a, b, 0))
  {
    if 0 <= k < |a| && k + 1 < |b| {
      assert a[..k + 1] == [a[0]] + a[1..][..k] && b[..k + 1] == [b[0]] + b[1..][..k];
      assert a[..k + 1][1..] == a[1..][..k] && b[..k + 1][1..] == b[1..][..k];
    }
  }

  lemma SameFirst(a: string, b: string, k: int)
    ensures SmallerAt(a, b, k) && k > 0 ==> a[0] == b[0]
  {
    if SmallerAt(a, b, k) && k > 0 {
      assert a[..k][0] == a[0] && b[..k][0] == b[0];
    }
  }

  /** `strcmp` compares lexicographically. */
  lemma {:induction false} NegativeIff(a: string, b: string)
    ensures StrCmp(a, b) < 0 <==> Less(a, b)
  {
    if a != "" && b != "" && a[0] == b[0] {
      NegativeIff(a[1..], b[1..]);
      hide StrCmp;
      if Less(a[1..], b[1..]) {
        var k :| 0 <= k < |b[1..]| && SmallerAt(a[1..], b[1..], k);
        SmallerNext(a, b, k);
        assert SmallerAt(a, b, k + 1);
      }
      if Less(a, b) {
        var k :| 0 <= k < |b| && SmallerAt(a, b, k);
        SmallerNext(a, b, k - 1);
        assert SmallerAt(a[1..], b[1..], k - 1);
      }
    } else if b != "" && (a == "" || a[0] < b[0]) {
      assert SmallerAt(a, b, 0);
    } else {
      forall k | 0 <= k < |b|
        ensures !SmallerAt(a, b, k)
      {
        SameFirst(a, b, k);
      }
    }
  }

  lemma {:induction false} Backwards(a: string, b: string)
    ensures StrCmp(a, b) == -StrCmp(b, a)
  {
    if a != "" && b != "" && a[0] == b[0] {
      Backwards(a[1..], b[1..]);
    }
  }

  /** The order is total. */
  lemma LessTotal(a: string, b: string)
    ensures Less(a, b) <==> a != b && !Less(b, a)
  {
    NegativeIff(a, b);
    NegativeIff(b, a);
    Backwards(a, b);
  }

  lemma LessTransitive(a: string, b: string, c: string)
    requires Less(a, b) && Less(b, c)
    ensures Less(a, c)
  {
    var i :| 0 <= i < |b| && SmallerAt(a, b, i);
    var j :| 0 <= j < |c| && SmallerAt(b, c, j);
    var k := if i < j then i else j;
    assert a[..k] == a[..i][..k] && b[..k] == b[..i][..k] == b[..j][..k] && c[..k] == c[..j][..k];
    assert i < j ==> b[..j][i] == c[..j][i];
    assert j < i ==> a[..i][j] == b[..i][j];
    assert SmallerAt(a, c, k);
  }

  ghost predicate Sorted(names: seq<string>) {
    forall i, j :: 0 <= i < j < |names| ==> Less(names[i], names[j])
  }

  lemma SortedSnoc(names: seq<string>, name: string)
    requires Sorted(names)
    ensures Sorted(names + [name]) <==> (names != [] ==> Less(names[|names| - 1], name))
    ensures Sorted(names + [name]) <==> forall n :: n in names ==> Less(n, name)
  {
    hide Less;
    var all, k := names + [name], |names|;
    if names != [] && Less(names[k - 1], name) {
      forall i | 0 <= i < k
        ensures Less(names[i], name)
      {
        if i < k - 1 {
          LessTransitive(names[i], names[k - 1], name);
        }
      }
    }
    if Sorted(all) {
      forall i | 0 <= i < k
        ensures Less(names[i], name)
      {
        assert all[i] == names[i] && all[k] == name;
      }
    }
  }
}
