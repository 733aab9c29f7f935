/** `Graph::fuzzySearch` (src/Graph.cpp): a bounded top-K ranking of the
    names of the name table against a query.

    The two string similarities of the rapidfuzz library (`fuzz::ratio` and
    `fuzz::partial_ratio`) are parameters of the model; all it relies on is
    that each scores in 0..100. The `std::multimap<double, string>` is a
    sequence of entries in the multimap's iteration order: ascending score,
    and among equal scores in order of insertion. */
module Fuzzy {
  import opened Base
  import opened Ordering
  import opened GraphCodec
  import opened Graphs

  /** A string similarity scoring in 0..100. */
  type Similarity = f: (string, string) -> real | forall a, b :: 0.0 <= f(a, b) <= 100.0
    witness (a: string, b: string) => 0.0

  /** The arguments of one call. */
  datatype Request = Request(ratio: Similarity, partial: Similarity, query: string, threshold: real, maxSize: nat)

  /** An entry of the multimap: a score and a name. */
  type Entry = (real, string)

  /** The score of one name: the full ratio, raised to the partial ratio when
      the query is no longer than the name, and 200 for the query itself. */
  function Score(rq: Request, name: string): (s: real)
    ensures s == 200.0 <==> name == rq.query
    ensures name != rq.query ==> rq.ratio(rq.query, name) <= s <= 100.0
    ensures name != rq.query ==> s == rq.ratio(rq.query, name) || (|rq.query| <= |name| && s == rq.partial(rq.query, name))
  {
    if name == rq.query then 200.0
    else if |rq.query| <= |name| && rq.ratio(rq.query, name) < rq.partial(rq.query, name) then rq.partial(rq.query, name)
    else rq.ratio(rq.query, name)
  }

  /** Scores never decrease along the multimap. */
  predicate Ascending(res: seq<Entry>) {
    forall i, j | 0 <= i < j < |res| :: res[i].0 <= res[j].0
  }

  /** The position where `multimap::insert` puts a new entry with score `x`:
      after every entry whose score is not greater. */
  function Slot(res: seq<Entry>, x: real): (k: nat)
    ensures k <= |res|
    ensures forall i | 0 <= i < k :: res[i].0 <= x
    ensures k < |res| ==> x < res[k].0
  {
    if res == [] || x < res[0].0 then 0 else 1 + Slot(res[1..], x)
  }

  /** `res.insert({score, name})`. */
  function Insert(res: seq<Entry>, e: Entry): (r: seq<Entry>)
    ensures |r| == |res| + 1
    ensures multiset(r) == multiset(res) + multiset{e}
  {
    if res == [] || e.0 < res[0].0 then [e] + res
    else
      var tail := Insert(res[1..], e);
      assert res == [res[0]] + res[1..];
      [res[0]] + tail
  }

  /** The new entry goes after every entry whose score is not greater and
      before the first whose score is greater. */
  lemma {:induction false} InsertSlot(res: seq<Entry>, e: Entry)
    ensures Insert(res, e) == res[..Slot(res, e.0)] + [e] + res[Slot(res, e.0)..]
    decreases |res|
  {
    if res != [] && res[0].0 <= e.0 {
      InsertSlot(res[1..], e);
      assert res[1..][..Slot(res[1..], e.0)] == res[1..Slot(res, e.0)];
      assert res[1..][Slot(res[1..], e.0)..] == res[Slot(res, e.0)..];
    }
  }

  /** Inserting keeps the multimap in ascending order. */
  lemma {:induction false} InsertAscending(res: seq<Entry>, e: Entry)
    requires Ascending(res)
    ensures Ascending(Insert(res, e))
    decreases |res|
  {
    if res != [] && res[0].0 <= e.0 {
      InsertAscending(res[1..], e);
      var tail := Insert(res[1..], e);
      forall x | x in tail ensures res[0].0 <= x.0 {
        assert x in multiset(res[1..]) + multiset{e};
        if x != e {
          assert x in res[1..];
        }
      }
      assert Insert(res, e) == [res[0]] + tail;
    }
  }

  /** The lowest entry after an insertion: the new one if it scores below
      every entry, otherwise the old lowest. */
  lemma InsertFirst(res: seq<Entry>, e: Entry)
    ensures Insert(res, e)[0] == if res == [] || e.0 < res[0].0 then e else res[0]
  {
  }

  /** The highest entry after an insertion: the new one if no entry scores
      higher, otherwise the old highest. */
  lemma {:induction false} InsertLast(res: seq<Entry>, e: Entry)
    requires Ascending(res)
    ensures res != [] && e.0 < res[|res| - 1].0 ==> Insert(res, e)[|res|] == res[|res| - 1]
    ensures (res == [] || res[|res| - 1].0 <= e.0) ==> Insert(res, e)[|res|] == e
    decreases |res|
  {
    if res != [] && res[0].0 <= e.0 {
      InsertLast(res[1..], e);
      assert Insert(res, e) == [res[0]] + Insert(res[1..], e);
    }
  }

  /** One turn of the loop on the multimap. `None` is the turn that reads
      `res.begin()` of an empty multimap, which happens only for
      `max_size == 0`. */
  function Offer(res: seq<Entry>, e: Entry, threshold: real, maxSize: nat): Option<seq<Entry>> {
    if |res| < maxSize then Some(Insert(res, e))
    else if e.0 < threshold then Some(res)
    else if res == [] then None
    else if res[0].0 < e.0 then Some(Insert(res[1..], e))
    else Some(res)
  }

  /** The multimap after visiting `names` in order. */
  function Ranking(rq: Request, names: seq<string>): Option<seq<Entry>> {
    if names == [] then Some([])
    else
      var prev := Ranking(rq, names[..|names| - 1]);
      var name := names[|names| - 1];
      if prev.None? then None else Offer(prev.value, (Score(rq, name), name), rq.threshold, rq.maxSize)
  }

  /** The names of the multimap from its last entry to its first, as the
      reverse iteration emits them. */
  function Descending(res: seq<Entry>): (r: seq<string>)
    ensures |r| == |res|
    ensures forall i | 0 <= i < |res| :: r[i] == res[|res| - 1 - i].1
  {
    if res == [] then [] else Descending(res[1..]) + [res[0].1]
  }

  /** Visiting one more name is one more turn. */
  lemma RankingStep(rq: Request, names: seq<string>, name: string)
    ensures Ranking(rq, names + [name])
            == if Ranking(rq, names).None? then None
               else Offer(Ranking(rq, names).value, (Score(rq, name), name), rq.threshold, rq.maxSize)
  {
    assert (names + [name])[..|names|] == names;
  }

  /** The loop over the name table, in key order, then the reverse copy. */
  method FuzzySearch(graph: Graph, rq: Request) returns (r: Option<seq<string>>)
    ensures r.None? <==> Ranking(rq, SortedNames(graph.locationMap.Keys)).None?
    ensures r.Some? ==> r.value == Descending(Ranking(rq, SortedNames(graph.locationMap.Keys)).value)
  {
    var l := graph.locationMap;
    var res := Rank(l, rq);
    if res.None? {
      return None;
    }
    var result := Emit(res.value);
    r := Some(result);
  }

  /** The first loop: every name of the table, in key order, offered to the
      multimap. */
  method Rank(l: Locations, rq: Request) returns (r: Option<seq<Entry>>)
    ensures r == Ranking(rq, SortedNames(l.Keys))
  {
    var todo := l.Keys;
    ghost var done: seq<string> := [];
    var res: seq<Entry> := [];
    while todo != {}
      invariant todo <= l.Keys
      invariant done + SortedNames(todo) == SortedNames(l.Keys)
      invariant Ranking(rq, done) == Some(res)
      decreases |todo|
    {
      var name := LeastName(todo);
      var next := Turn(res, (Score(rq, name), name), rq.threshold, rq.maxSize);
      RankingStep(rq, done, name);
      NextName(done, todo, l.Keys, name);
      if next.None? {
        RankingStuck(rq, done + [name], SortedNames(todo - {name}));
        return None;
      }
      res := next.value;
      done := done + [name];
      todo := todo - {name};
    }
    SortedNamesSpec(todo);
    assert done == SortedNames(l.Keys);
    r := Some(res);
  }

  /** Taking the least name off `todo` moves it to the end of `done`. */
  lemma NextName(done: seq<string>, todo: set<string>, all: set<string>, name: string)
    requires todo <= all && name in todo
    requires done + SortedNames(todo) == SortedNames(all)
    requires SortedNames(todo) == [name] + SortedNames(todo - {name})
    ensures todo - {name} <= all && |todo - {name}| < |todo|
    ensures (done + [name]) + SortedNames(todo - {name}) == SortedNames(all)
  {
    assert (done + [name]) + SortedNames(todo - {name}) == done + SortedNames(todo);
  }

  /** The body of the first loop. `None` is the turn that reads `begin()`
      of an empty multimap. */
  method Turn(res: seq<Entry>, e: Entry, threshold: real, maxSize: nat) returns (r: Option<seq<Entry>>)
    ensures r == Offer(res, e, threshold, maxSize)
  {
    r := Some(res);
    if |res| < maxSize {
      r := Some(Insert(res, e));
    } else if e.0 >= threshold {
      if res == [] {
        return None;
      }
      if e.0 > res[0].0 {
        r := Some(Insert(res[1..], e));
      }
    }
  }

  /** The second loop: the names from `rbegin()` to `rend()`. */
  method Emit(res: seq<Entry>) returns (result: seq<string>)
    ensures result == Descending(res)
  {
    result := [];
    var i := |res|;
    while i > 0
      invariant 0 <= i <= |res|
      invariant result == Descending(res[i..])
    {
      i := i - 1;
      assert res[i..][1..] == res[i + 1..];
      result := result + [res[i].1];
    }
    assert res[0..] == res;
  }

  /** Once a turn has read `begin()` of an empty multimap, no later turn
      recovers. */
  lemma {:induction false} RankingStuck(rq: Request, names: seq<string>, more: seq<string>)
    requires Ranking(rq, names).None?
    ensures Ranking(rq, names + more).None?
    decreases |more|
  {
    if more == [] {
      assert names + more == names;
    } else {
      var front := more[..|more| - 1];
      RankingStuck(rq, names, front);
      assert more == front + [more[|more| - 1]];
      assert names + more == (names + front) + [more[|more| - 1]];
      RankingStep(rq, names + front, more[|more| - 1]);
    }
  }

  /** A turn on a multimap with room for at least one entry fills it by one,
      up to `max_size`. */
  lemma OfferSize(res: seq<Entry>, e: Entry, threshold: real, maxSize: nat)
    requires 1 <= maxSize && |res| <= maxSize
    ensures Offer(res, e, threshold, maxSize).Some?
    ensures |Offer(res, e, threshold, maxSize).value| == if |res| < maxSize then |res| + 1 else maxSize
  {
  }

  /** With room for at least one entry the call succeeds and holds exactly
      `min(|names|, max_size)` entries. */
  lemma {:induction false} RankingSize(rq: Request, names: seq<string>)
    requires rq.maxSize >= 1
    ensures Ranking(rq, names).Some?
    ensures |Ranking(rq, names).value| == if |names| < rq.maxSize then |names| else rq.maxSize
    decreases |names|
  {
    if names != [] {
      var front, last := names[..|names| - 1], names[|names| - 1];
      RankingSize(rq, front);
      assert names == front + [last];
      RankingStep(rq, front, last);
      OfferSize(Ranking(rq, front).value, (Score(rq, last), last), rq.threshold, rq.maxSize);
    }
  }

  /** With `max_size == 0` the multimap stays empty, and the call reads
      `begin()` of it exactly when some name scores at least the threshold. */
  lemma {:induction false} RankingZero(rq: Request, names: seq<string>)
    requires rq.maxSize == 0
    ensures Ranking(rq, names).None? <==> exists i | 0 <= i < |names| :: Score(rq, names[i]) >= rq.threshold
    ensures Ranking(rq, names).Some? ==> Ranking(rq, names).value == []
    decreases |names|
  {
    if names != [] {
      var front, last := names[..|names| - 1], names[|names| - 1];
      RankingZero(rq, front);
      assert names == front + [last];
      RankingStep(rq, front, last);
      if Ranking(rq, front).None? {
        var i :| 0 <= i < |front| && Score(rq, front[i]) >= rq.threshold;
        assert names[i] == front[i];
      } else if Score(rq, last) < rq.threshold {
        forall i | 0 <= i < |names| ensures Score(rq, names[i]) < rq.threshold {
          if i < |front| {
            assert names[i] == front[i];
          }
        }
      } else {
        assert Score(rq, names[|names| - 1]) >= rq.threshold;
      }
    }
  }

  /** A turn keeps the multimap ascending and adds no entry but the offered
      one. */
  lemma OfferSound(res: seq<Entry>, e: Entry, threshold: real, maxSize: nat)
    requires Ascending(res)
    requires Offer(res, e, threshold, maxSize).Some?
    ensures Ascending(Offer(res, e, threshold, maxSize).value)
    ensures forall x | x in Offer(res, e, threshold, maxSize).value :: x in res || x == e
  {
    var r := Offer(res, e, threshold, maxSize).value;
    if |res| < maxSize {
      InsertAscending(res, e);
      forall x | x in r ensures x in res || x == e {
        assert x in multiset(res) + multiset{e};
      }
    } else if e.0 >= threshold && res[0].0 < e.0 {
      InsertAscending(res[1..], e);
      forall x | x in r ensures x in res || x == e {
        assert x in multiset(res[1..]) + multiset{e};
        if x != e {
          assert x in res[1..];
        }
      }
    }
  }

  /** Every entry is the score of a name visited so far, and the entries are
      in ascending order of score. */
  lemma {:induction false} RankingSound(rq: Request, names: seq<string>)
    requires Ranking(rq, names).Some?
    ensures Ascending(Ranking(rq, names).value)
    ensures forall x | x in Ranking(rq, names).value :: x.1 in names && x.0 == Score(rq, x.1)
    decreases |names|
  {
    if names != [] {
      var front, last := names[..|names| - 1], names[|names| - 1];
      assert names == front + [last];
      RankingStep(rq, front, last);
      RankingSound(rq, front);
      OfferSound(Ranking(rq, front).value, (Score(rq, last), last), rq.threshold, rq.maxSize);
    }
  }

  /** A turn on a multimap with room takes the offered entry and keeps every
      entry. */
  lemma OfferRoom(res: seq<Entry>, e: Entry, threshold: real, maxSize: nat)
    requires |res| < maxSize
    ensures Offer(res, e, threshold, maxSize).Some?
    ensures forall x | x in res || x == e :: x in Offer(res, e, threshold, maxSize).value
  {
    var r := Offer(res, e, threshold, maxSize).value;
    forall x | x in res || x == e ensures x in r {
      assert x in multiset(res) + multiset{e};
    }
  }

  /** While the multimap has room, every visited name is in it. */
  lemma {:induction false} RankingAll(rq: Request, names: seq<string>)
    requires |names| <= rq.maxSize
    ensures Ranking(rq, names).Some?
    ensures forall n | n in names :: exists x | x in Ranking(rq, names).value :: x.1 == n
    decreases |names|
  {
    if names != [] {
      var front, last := names[..|names| - 1], names[|names| - 1];
      assert names == front + [last];
      RankingStep(rq, front, last);
      RankingAll(rq, front);
      RankingSize(rq, front);
      var res := Ranking(rq, front).value;
      var e := (Score(rq, last), last);
      OfferRoom(res, e, rq.threshold, rq.maxSize);
      var res' := Ranking(rq, names).value;
      forall n | n in names ensures exists x | x in res' :: x.1 == n {
        if n == last {
          assert e in res';
        } else {
          assert n in front;
          var x :| x in res && x.1 == n;
          assert x in res';
        }
      }
    }
  }

  /** On a full multimap, an entry that is not the lowest survives the turn. */
  lemma KeptOrEvicted(res: seq<Entry>, e: Entry, x: Entry, threshold: real, maxSize: nat)
    requires |res| >= maxSize && res != []
    requires x in res && x != res[0]
    ensures Offer(res, e, threshold, maxSize).Some?
    ensures x in Offer(res, e, threshold, maxSize).value
  {
    if e.0 >= threshold && res[0].0 < e.0 {
      assert res == [res[0]] + res[1..];
      assert x in res[1..];
      assert x in multiset(res[1..]) + multiset{e};
    }
  }

  /** On a full, ascending multimap the lowest score kept never falls, and an
      offered entry that is not kept scores below the threshold or no higher
      than it. */
  lemma MinRises(res: seq<Entry>, e: Entry, threshold: real, maxSize: nat)
    requires |res| >= maxSize && res != []
    requires Ascending(res)
    ensures Offer(res, e, threshold, maxSize).Some?
    ensures Offer(res, e, threshold, maxSize).value != []
    ensures res[0].0 <= Offer(res, e, threshold, maxSize).value[0].0
    ensures e !in Offer(res, e, threshold, maxSize).value ==> e.0 < threshold || e.0 <= Offer(res, e, threshold, maxSize).value[0].0
  {
    if e.0 >= threshold && res[0].0 < e.0 {
      InsertFirst(res[1..], e);
      assert e in multiset(Insert(res[1..], e));
    }
  }

  /** A name that was visited but is not in the result did not make the cut:
      the multimap is full, and the name scores below the threshold or no
      higher than the lowest score kept. */
  lemma {:induction false} RankingDropped(rq: Request, names: seq<string>, n: string)
    requires rq.maxSize >= 1
    requires n in names
    requires Ranking(rq, names).Some?
    requires forall x | x in Ranking(rq, names).value :: x.1 != n
    ensures |Ranking(rq, names).value| == rq.maxSize
    ensures Score(rq, n) < rq.threshold || Score(rq, n) <= Ranking(rq, names).value[0].0
    decreases |names|
  {
    RankingSize(rq, names);
    var front, last := names[..|names| - 1], names[|names| - 1];
    assert names == front + [last];
    RankingStep(rq, front, last);
    RankingSize(rq, front);
    RankingSound(rq, front);
    var res := Ranking(rq, front).value;
    var e := (Score(rq, last), last);
    if |names| <= rq.maxSize {
      RankingAll(rq, names);
      assert false;
    }
    assert |res| == rq.maxSize;
    MinRises(res, e, rq.threshold, rq.maxSize);
    if n != last {
      assert n in front;
      if x :| x in res && x.1 == n {
        if x != res[0] {
          KeptOrEvicted(res, e, x, rq.threshold, rq.maxSize);
        }
      } else {
        RankingDropped(rq, front, n);
      }
    }
  }

  /** On a full or not full multimap whose highest entry scores above the
      offered one, that highest entry stays highest. */
  lemma OfferKeepsTop(res: seq<Entry>, e: Entry, threshold: real, maxSize: nat)
    requires Ascending(res) && res != []
    requires e.0 < res[|res| - 1].0
    requires Offer(res, e, threshold, maxSize).Some?
    ensures Offer(res, e, threshold, maxSize).value != []
    ensures Offer(res, e, threshold, maxSize).value[|Offer(res, e, threshold, maxSize).value| - 1] == res[|res| - 1]
  {
    if |res| < maxSize {
      InsertLast(res, e);
    } else if e.0 >= threshold && res[0].0 < e.0 {
      assert |res| > 1;
      InsertLast(res[1..], e);
    }
  }

  /** An offered entry that scores above every entry becomes the highest,
      unless the multimap is full and the entry is below the threshold. */
  lemma OfferTakesTop(res: seq<Entry>, e: Entry, threshold: real, maxSize: nat)
    requires Ascending(res)
    requires forall x | x in res :: x.0 < e.0
    requires 1 <= maxSize && e.0 >= threshold
    ensures Offer(res, e, threshold, maxSize).Some?
    ensures Offer(res, e, threshold, maxSize).value != []
    ensures Offer(res, e, threshold, maxSize).value[|Offer(res, e, threshold, maxSize).value| - 1] == e
  {
    if |res| < maxSize {
      InsertLast(res, e);
    } else {
      assert res[0] in res;
      InsertLast(res[1..], e);
    }
  }

  /** No name occurs twice. */
  predicate Distinct(names: seq<string>) {
    forall i, j | 0 <= i < j < |names| :: names[i] != names[j]
  }

  /** Dropping the last name keeps the rest distinct, and the last name
      does not occur among them. */
  lemma DistinctFront(names: seq<string>)
    requires names != [] && Distinct(names)
    ensures Distinct(names[..|names| - 1])
    ensures names[|names| - 1] !in names[..|names| - 1]
  {
    var front := names[..|names| - 1];
    forall i | 0 <= i < |front| ensures front[i] != names[|names| - 1] {
      assert front[i] == names[i];
    }
  }

  /** The query itself, when it is a name, ends up as the highest entry,
      provided the threshold does not exceed its score of 200. */
  lemma {:induction false} RankingExactLast(rq: Request, names: seq<string>)
    requires rq.maxSize >= 1
    requires rq.threshold <= 200.0
    requires rq.query in names
    requires Distinct(names)
    ensures Ranking(rq, names).Some?
    ensures Ranking(rq, names).value != []
    ensures Ranking(rq, names).value[|Ranking(rq, names).value| - 1] == (200.0, rq.query)
    decreases |names|
  {
    var front, last := names[..|names| - 1], names[|names| - 1];
    assert names == front + [last];
    DistinctFront(names);
    if last == rq.query {
      ExactArrives(rq, front, last);
    } else {
      RankingExactLast(rq, front);
      ExactStays(rq, front, last);
    }
  }

  /** Offering the query after names that differ from it puts it on top. */
  lemma ExactArrives(rq: Request, front: seq<string>, last: string)
    requires rq.maxSize >= 1 && rq.threshold <= 200.0
    requires last == rq.query && last !in front
    ensures Ranking(rq, front + [last]).Some?
    ensures Ranking(rq, front + [last]).value != []
    ensures Ranking(rq, front + [last]).value[|Ranking(rq, front + [last]).value| - 1] == (200.0, rq.query)
  {
    RankingStep(rq, front, last);
    RankingSize(rq, front);
    RankingSound(rq, front);
    var res := Ranking(rq, front).value;
    var e := (Score(rq, last), last);
    forall x | x in res ensures x.0 < e.0 {
      assert x.1 in front;
    }
    OfferTakesTop(res, e, rq.threshold, rq.maxSize);
  }

  /** Offering another name keeps the query on top. */
  lemma ExactStays(rq: Request, front: seq<string>, last: string)
    requires rq.maxSize >= 1
    requires last != rq.query
    requires Ranking(rq, front).Some? && Ranking(rq, front).value != []
    requires Ranking(rq, front).value[|Ranking(rq, front).value| - 1] == (200.0, rq.query)
    ensures Ranking(rq, front + [last]).Some?
    ensures Ranking(rq, front + [last]).value != []
    ensures Ranking(rq, front + [last]).value[|Ranking(rq, front + [last]).value| - 1] == (200.0, rq.query)
  {
    var res := Ranking(rq, front).value;
    var e := (Score(rq, last), last);
    RankingStep(rq, front, last);
    RankingSound(rq, front);
    assert e.0 < res[|res| - 1].0 by {
      assert e.0 <= 100.0;
    }
    assert Offer(res, e, rq.threshold, rq.maxSize).Some?;
    OfferKeepsTop(res, e, rq.threshold, rq.maxSize);
  }

  /** A name of the table that equals the query comes first in the result. */
  lemma ExactNameFirst(rq: Request, l: Locations)
    requires rq.maxSize >= 1
    requires rq.threshold <= 200.0
    requires rq.query in l
    ensures Ranking(rq, SortedNames(l.Keys)).Some?
    ensures Descending(Ranking(rq, SortedNames(l.Keys)).value) != []
    ensures Descending(Ranking(rq, SortedNames(l.Keys)).value)[0] == rq.query
  {
    var names := SortedNames(l.Keys);
    StrLessStrictTotal();
    EnumerateSpec(StrLess, l.Keys);
    forall i, j | 0 <= i < j < |names| ensures names[i] != names[j] {
      SortedDistinct(StrLess, names, i, j);
    }
    assert Distinct(names);
    RankingExactLast(rq, names);
  }

  /** For `max_size >= 1` the result holds `min(|location_map|, max_size)`
      names. */
  lemma ResultSize(rq: Request, l: Locations)
    requires rq.maxSize >= 1
    ensures Ranking(rq, SortedNames(l.Keys)).Some?
    ensures |Descending(Ranking(rq, SortedNames(l.Keys)).value)| == if |l| < rq.maxSize then |l| else rq.maxSize
  {
    SortedNamesSpec(l.Keys);
    RankingSize(rq, SortedNames(l.Keys));
  }

  /** The result lists names in order of non-increasing score. */
  lemma ResultOrder(rq: Request, names: seq<string>, i: int, j: int)
    requires Ranking(rq, names).Some?
    requires 0 <= i < j < |Ranking(rq, names).value|
    ensures Score(rq, Descending(Ranking(rq, names).value)[j]) <= Score(rq, Descending(Ranking(rq, names).value)[i])
  {
    var res := Ranking(rq, names).value;
    RankingSound(rq, names);
    assert res[|res| - 1 - i] in res && res[|res| - 1 - j] in res;
  }
}
