/**
 * The records the script writes, and `items.sort(key=lambda x: x["start"])`.
 * Python's list sort is stable: it orders by key and keeps records with equal
 * keys in the order they were appended. `StableSort` is that result, written
 * as insertion sort.
 */
module Events {
  import opened Wrappers
  import opened Ordering
  import opened Seqs

  /** One entry of `today.json`. */
  datatype Event = Event(title: string, start: string, location: Option<string>, kanton: string, source: string)

  /** No record is followed by one with a smaller start. */
  predicate Sorted(xs: seq<Event>) {
    forall i, j :: 0 <= i < j < |xs| ==> !StrLess(xs[j].start, xs[i].start)
  }

  /** The records whose start is k, in their order. */
  function WithStart(xs: seq<Event>, k: string): (r: seq<Event>)
    ensures |r| <= |xs|
  {
    if xs == [] then []
    else (if xs[0].start == k then [xs[0]] else []) + WithStart(xs[1..], k)
  }

  lemma {:induction false} WithStartAppend(xs: seq<Event>, ys: seq<Event>, k: string)
    ensures WithStart(xs + ys, k) == WithStart(xs, k) + WithStart(ys, k)
    decreases |xs|
  {
    if xs == [] {
      assert xs + ys == ys;
    } else {
      var h := if xs[0].start == k then [xs[0]] else [];
      assert (xs + ys)[0] == xs[0] && (xs + ys)[1..] == xs[1..] + ys;
      assert WithStart(xs + ys, k) == h + WithStart(xs[1..] + ys, k);
      WithStartAppend(xs[1..], ys, k);
      AppendAssoc(h, WithStart(xs[1..], k), WithStart(ys, k));
    }
  }

  /** x placed before the first record whose start is strictly greater. */
  function Insert(xs: seq<Event>, x: Event): (r: seq<Event>)
    ensures |r| == |xs| + 1
  {
    if xs == [] then [x]
    else if StrLess(x.start, xs[0].start) then [x] + xs
    else [xs[0]] + Insert(xs[1..], x)
  }

  /** Python's stable sort by start: the records inserted one by one, in order. */
  function StableSort(xs: seq<Event>): (r: seq<Event>)
    ensures |r| == |xs|
  {
    if xs == [] then [] else Insert(StableSort(xs[..|xs| - 1]), xs[|xs| - 1])
  }

  lemma {:induction false} InsertMultiset(xs: seq<Event>, x: Event)
    ensures multiset(Insert(xs, x)) == multiset(xs) + multiset{x}
    decreases |xs|
  {
    if xs != [] && !StrLess(x.start, xs[0].start) {
      InsertMultiset(xs[1..], x);
      assert xs == [xs[0]] + xs[1..];
    }
  }

  lemma {:induction false} InsertSorted(xs: seq<Event>, x: Event)
    requires Sorted(xs)
    ensures Sorted(Insert(xs, x))
    decreases |xs|
  {
    if xs == [] {
    } else if StrLess(x.start, xs[0].start) {
      var r := Insert(xs, x);
      forall i, j | 0 <= i < j < |r| ensures !StrLess(r[j].start, r[i].start) {
        if i == 0 {
          var y := xs[j - 1];
          if y.start != xs[0].start {
            StrLessTotal(y.start, xs[0].start);
            StrLessTransitive(x.start, xs[0].start, y.start);
          }
          StrLessAsymmetric(x.start, y.start);
        }
      }
    } else {
      InsertSorted(xs[1..], x);
      var r := Insert(xs, x);
      var t := Insert(xs[1..], x);
      forall j | 0 < j < |r| ensures !StrLess(r[j].start, xs[0].start) {
        assert r[j] in multiset(t) by { assert r[j] == t[j - 1]; }
        InsertMultiset(xs[1..], x);
        if r[j] != x {
          assert r[j] in multiset(xs[1..]);
          var k :| 0 <= k < |xs[1..]| && xs[1..][k] == r[j];
          assert xs[k + 1] == r[j];
        }
      }
    }
  }

  /**
   * Inserting x keeps the records of each start in their order and puts x
   * after every record with the same start.
   */
  lemma {:induction false} InsertStable(xs: seq<Event>, x: Event, k: string)
    requires Sorted(xs)
    ensures WithStart(Insert(xs, x), k) == WithStart(xs, k) + (if x.start == k then [x] else [])
    decreases |xs|
  {
    var hx := if x.start == k then [x] else [];
    if xs == [] {
      assert [x][1..] == [];
      assert WithStart([x], k) == hx + WithStart([], k);
    } else if StrLess(x.start, xs[0].start) {
      assert ([x] + xs)[0] == x && ([x] + xs)[1..] == xs;
      assert WithStart([x] + xs, k) == hx + WithStart(xs, k);
      if x.start == k {
        NoneWithSmallerStart(xs, x.start);
      }
    } else {
      var h0 := if xs[0].start == k then [xs[0]] else [];
      var t := Insert(xs[1..], x);
      assert ([xs[0]] + t)[0] == xs[0] && ([xs[0]] + t)[1..] == t;
      assert WithStart(Insert(xs, x), k) == h0 + WithStart(t, k);
      assert Sorted(xs[1..]);
      InsertStable(xs[1..], x, k);
      AppendAssoc(h0, WithStart(xs[1..], k), hx);
    }
  }

  /** In a sorted list headed by a start above k, no record has start k. */
  lemma {:induction false} NoneWithSmallerStart(xs: seq<Event>, k: string)
    requires Sorted(xs) && xs != [] && StrLess(k, xs[0].start)
    ensures WithStart(xs, k) == []
    decreases |xs|
  {
    StrLessIrreflexive(k);
    if |xs| > 1 {
      StrLessTotal(xs[0].start, xs[1].start);
      if xs[0].start != xs[1].start {
        StrLessTransitive(k, xs[0].start, xs[1].start);
      }
      NoneWithSmallerStart(xs[1..], k);
    }
  }

  /** The sort orders the records by start. */
  lemma {:induction false} StableSortSorted(xs: seq<Event>)
    ensures Sorted(StableSort(xs))
    decreases |xs|
  {
    if xs != [] {
      StableSortSorted(xs[..|xs| - 1]);
      InsertSorted(StableSort(xs[..|xs| - 1]), xs[|xs| - 1]);
    }
  }

  /** The sort neither loses nor adds a record. */
  lemma {:induction false} StableSortPermutes(xs: seq<Event>)
    ensures multiset(StableSort(xs)) == multiset(xs)
    decreases |xs|
  {
    if xs != [] {
      StableSortPermutes(xs[..|xs| - 1]);
      InsertMultiset(StableSort(xs[..|xs| - 1]), xs[|xs| - 1]);
      SplitLast(xs);
    }
  }

  /** The sort is stable: records with equal starts stay in their original order. */
  lemma {:induction false} StableSortStable(xs: seq<Event>, k: string)
    ensures WithStart(StableSort(xs), k) == WithStart(xs, k)
    decreases |xs|
  {
    if xs != [] {
      var init, last := xs[..|xs| - 1], xs[|xs| - 1];
      StableSortStable(init, k);
      StableSortSorted(init);
      InsertStable(StableSort(init), last, k);
      SplitLast(xs);
      WithStartAppend(init, [last], k);
      assert [last][1..] == [];
    }
  }

  /** Finds the place of x by a scan from the front, and inserts it there. */
  method InsertByStart(xs: seq<Event>, x: Event) returns (r: seq<Event>)
    ensures r == Insert(xs, x)
  {
    var j := 0;
    while j < |xs| && !StrLess(x.start, xs[j].start)
      invariant 0 <= j <= |xs|
      invariant Insert(xs, x) == xs[..j] + Insert(xs[j..], x)
    {
      var rest := Insert(xs[j + 1..], x);
      assert xs[j..][0] == xs[j] && xs[j..][1..] == xs[j + 1..];
      assert Insert(xs[j..], x) == [xs[j]] + rest;
      assert xs[..j + 1] == xs[..j] + [xs[j]];
      AppendAssoc(xs[..j], [xs[j]], rest);
      j := j + 1;
    }
    if j < |xs| {
      assert xs[j..][0] == xs[j];
      assert Insert(xs[j..], x) == [x] + xs[j..];
    } else {
      assert xs[j..] == [];
    }
    r := xs[..j] + [x] + xs[j..];
  }

  /**
   * `items.sort(key=lambda x: x["start"])`: the records ordered by start,
   * equal starts in their original order, nothing lost or added.
   */
  method SortByStart(items: seq<Event>) returns (r: seq<Event>)
    ensures r == StableSort(items)
    ensures Sorted(r) && multiset(r) == multiset(items)
    ensures forall k :: WithStart(r, k) == WithStart(items, k)
  {
    r := [];
    var i := 0;
    while i < |items|
      invariant 0 <= i <= |items|
      invariant r == StableSort(items[..i])
    {
      assert items[..i + 1][..i] == items[..i];
      r := InsertByStart(r, items[i]);
      i := i + 1;
    }
    assert items[..|items|] == items;
    StableSortSorted(items);
    StableSortPermutes(items);
    forall k {
      StableSortStable(items, k);
    }
  }
}
