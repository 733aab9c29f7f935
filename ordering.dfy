/** Strict total orders and the sorted enumeration of a finite set.

    A `std::map` or `std::set` keyed by a type with a strict total `operator<`
    visits its keys in increasing order; `Enumerate` is that visiting order. */
module Ordering {

  ghost predicate StrictTotal<K(!new)>(less: (K, K) -> bool) {
    && (forall x :: !less(x, x))
    && (forall x, y, z :: less(x, y) && less(y, z) ==> less(x, z))
    && (forall x, y :: x != y ==> less(x, y) || less(y, x))
  }

  /** `k` is the smallest element of `s`. */
  predicate IsLeast<K>(less: (K, K) -> bool, k: K, s: set<K>) {
    k in s && forall x :: x in s && x != k ==> less(k, x)
  }

  lemma {:induction false} LeastExists<K(!new)>(less: (K, K) -> bool, s: set<K>)
    requires StrictTotal(less)
    requires s != {}
    ensures exists k :: IsLeast(less, k, s)
    decreases |s|
  {
    var x :| x in s;
    var rest := s - {x};
    if rest == {} {
      assert s == {x};
      assert IsLeast(less, x, s);
    } else {
      LeastExists(less, rest);
      var k :| IsLeast(less, k, rest);
      if less(x, k) {
        forall y | y in s && y != x ensures less(x, y) {
          if y != k { assert less(k, y); }
        }
        assert IsLeast(less, x, s);
      } else {
        assert IsLeast(less, k, s);
      }
    }
  }

  lemma LeastUnique<K(!new)>(less: (K, K) -> bool, s: set<K>, a: K, b: K)
    requires StrictTotal(less)
    requires IsLeast(less, a, s) && IsLeast(less, b, s)
    ensures a == b
  {
  }

  /** The keys of `s` in increasing order: the least key, then the rest. */
  ghost function Enumerate<K(!new)>(less: (K, K) -> bool, s: set<K>): seq<K>
    requires StrictTotal(less)
    decreases |s|
  {
    if s == {} then []
    else
      LeastExists(less, s);
      var k :| IsLeast(less, k, s);
      [k] + Enumerate(less, s - {k})
  }

  ghost predicate StrictlySorted<K>(less: (K, K) -> bool, e: seq<K>) {
    forall i, j :: 0 <= i < j < |e| ==> less(e[i], e[j])
  }

  /** The enumeration lists every element of `s` exactly once, in increasing order. */
  lemma {:induction false} EnumerateSpec<K(!new)>(less: (K, K) -> bool, s: set<K>)
    requires StrictTotal(less)
    ensures |Enumerate(less, s)| == |s|
    ensures forall x :: x in Enumerate(less, s) <==> x in s
    ensures StrictlySorted(less, Enumerate(less, s))
    decreases |s|
  {
    if s != {} {
      LeastExists(less, s);
      var k :| IsLeast(less, k, s);
      var e := Enumerate(less, s);
      var tail := Enumerate(less, s - {k});
      assert e == [k] + tail by {
        var k' :| IsLeast(less, k', s) && e == [k'] + Enumerate(less, s - {k'});
        LeastUnique(less, s, k, k');
      }
      EnumerateSpec(less, s - {k});
      forall j | 0 < j < |e| ensures less(e[0], e[j]) {
        assert e[j] == tail[j - 1];
        assert e[j] in s - {k};
      }
    }
  }

  /** Distinct positions of a strictly sorted sequence hold distinct elements. */
  lemma SortedDistinct<K(!new)>(less: (K, K) -> bool, e: seq<K>, i: int, j: int)
    requires StrictTotal(less)
    requires StrictlySorted(less, e)
    requires 0 <= i < |e| && 0 <= j < |e| && i != j
    ensures e[i] != e[j]
  {
    if i < j { assert less(e[i], e[j]); } else { assert less(e[j], e[i]); }
  }

  /** Taking the least element first and enumerating the rest is the enumeration. */
  lemma EnumerateUnfold<K(!new)>(less: (K, K) -> bool, s: set<K>, k: K)
    requires StrictTotal(less)
    requires IsLeast(less, k, s)
    ensures Enumerate(less, s) == [k] + Enumerate(less, s - {k})
  {
    var k' :| IsLeast(less, k', s) && Enumerate(less, s) == [k'] + Enumerate(less, s - {k'});
    LeastUnique(less, s, k, k');
  }

  /** The next key a `std::map` or `std::set` iteration visits: the least of
      the keys not yet visited. */
  method Least<K(!new)>(less: (K, K) -> bool, s: set<K>) returns (k: K)
    requires StrictTotal(less)
    requires s != {}
    ensures IsLeast(less, k, s)
    ensures Enumerate(less, s) == [k] + Enumerate(less, s - {k})
  {
    LeastExists(less, s);
    k :| IsLeast(less, k, s);
    EnumerateUnfold(less, s, k);
  }
}
