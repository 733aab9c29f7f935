/** `std::priority_queue<std::pair<double, Node>, std::vector<...>,
    std::greater<>>`: a bag of (priority, node) pairs whose `top` is the least
    pair, comparing priorities first and nodes second. */
module Queues {
  import opened Ordering
  import opened Nodes

  type Entry = (real, Node)

  type Queue = multiset<Entry>

  /** `std::pair<double, Node>::operator<`. */
  predicate EntryLess(a: Entry, b: Entry) {
    a.0 < b.0 || (!(b.0 < a.0) && Less(a.1, b.1))
  }

  lemma EntryLessStrictTotal()
    ensures StrictTotal(EntryLess)
  {
    forall x: Entry, y: Entry, z: Entry | EntryLess(x, y) && EntryLess(y, z) ensures EntryLess(x, z) {
    }
    forall x: Entry, y: Entry | x != y ensures EntryLess(x, y) || EntryLess(y, x) {
    }
  }

  /** `top()` then `pop()`: the least entry and the queue without one copy of it. */
  method Pop(q: Queue) returns (top: Entry, rest: Queue)
    requires q != multiset{}
    ensures top in q
    ensures forall x | x in q :: !EntryLess(x, top)
    ensures rest == q - multiset{top}
  {
    EntryLessStrictTotal();
    var elems := set x | x in q;
    assert elems != {} by {
      var y :| y in q;
      assert y in elems;
    }
    top := Least(EntryLess, elems);
    rest := q - multiset{top};
  }
}
