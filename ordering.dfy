/** The two pieces of SQL every listing query uses: `ORDER BY created_at
    DESC` over the rows a query selects, and `LIMIT ? OFFSET ?`. The
    storage engine leaves the order of rows with equal keys open, so the
    ordering is a ghost choice among the admissible ones. */
module Ordering {
  import opened Common

  /** No row comes before a row with a larger key. */
  ghost predicate SortedDesc<T>(s: seq<T>, key: T -> int) {
    forall i, j :: 0 <= i < j < |s| ==> key(s[i]) >= key(s[j])
  }

  /** No row occurs twice. */
  ghost predicate Distinct<T>(s: seq<T>) {
    forall i, j :: 0 <= i < j < |s| ==> s[i] != s[j]
  }

  ghost predicate IsLargest<T>(x: T, items: set<T>, key: T -> int) {
    x in items && forall y :: y in items ==> key(y) <= key(x)
  }

  /** Every finite non-empty set of rows has a row with the largest key. */
  lemma {:induction false} LargestExists<T>(items: set<T>, key: T -> int)
    requires items != {}
    ensures exists x :: IsLargest(x, items, key)
    decreases items
  {
    var x :| x in items;
    if items - {x} == {} {
      forall y | y in items ensures key(y) <= key(x) {
        assert y !in items - {x};
      }
      assert IsLargest(x, items, key);
    } else {
      LargestExists(items - {x}, key);
      var m :| IsLargest(m, items - {x}, key);
      if key(x) <= key(m) {
        assert IsLargest(m, items, key);
      } else {
        assert IsLargest(x, items, key);
      }
    }
  }

  /** The selected rows in descending key order: each row exactly once. */
  ghost function OrderedDesc<T(!new)>(items: set<T>, key: T -> int): (r: seq<T>)
    ensures forall x :: x in r <==> x in items
    ensures |r| == |items|
    ensures Distinct(r)
    ensures SortedDesc(r, key)
    decreases items
  {
    if items == {} then []
    else
      LargestExists(items, key);
      var x :| IsLargest(x, items, key);
      var rest := OrderedDesc(items - {x}, key);
      assert forall i :: 0 <= i < |rest| ==> rest[i] in items - {x};
      [x] + rest
  }

  /** `LIMIT limit OFFSET offset`: skip `offset` rows, keep at most `limit`. */
  function Page<T>(s: seq<T>, limit: nat, offset: nat): (r: seq<T>)
    ensures |r| == if offset >= |s| then 0 else Min(limit, |s| - offset)
    ensures forall i :: 0 <= i < |r| ==> r[i] == s[offset + i]
  {
    if offset >= |s| then [] else s[offset..offset + Min(limit, |s| - offset)]
  }

  /** Two adjacent windows make up the window that spans both: `OFFSET`
      skips exactly the rows before the window. */
  lemma AdjacentPages<T>(s: seq<T>, a: nat, b: nat, offset: nat)
    ensures Page(s, a, offset) + Page(s, b, offset + a) == Page(s, a + b, offset)
  {
    var p, q, r := Page(s, a, offset), Page(s, b, offset + a), Page(s, a + b, offset);
    assert |p + q| == |r|;
    forall i | 0 <= i < |r| ensures (p + q)[i] == r[i] {
      if i >= |p| {
        assert (p + q)[i] == q[i - |p|] == s[offset + a + (i - |p|)];
      }
    }
  }

  /** A window of an ordered, duplicate-free listing is itself ordered and
      duplicate-free. */
  lemma PageKeepsOrder<T>(s: seq<T>, key: T -> int, limit: nat, offset: nat)
    requires SortedDesc(s, key) && Distinct(s)
    ensures SortedDesc(Page(s, limit, offset), key)
    ensures Distinct(Page(s, limit, offset))
    ensures forall x :: x in Page(s, limit, offset) ==> x in s
  {
    var r := Page(s, limit, offset);
    forall x | x in r ensures x in s {
      var i :| 0 <= i < |r| && r[i] == x;
      assert s[offset + i] == x;
    }
  }
}
