/** The single-item frequency counter: every item of every transaction is
    counted (the flattened item list and its value counts), and the items whose
    count reaches the support threshold become the size-one rows of the table. */
module SingleItems {
  import opened Tables

  /** The item list: every item of every transaction, in order. */
  function Flatten(ts: seq<Transaction>): seq<Item>
    decreases |ts|
  {
    if ts == [] then [] else ts[0] + Flatten(ts[1..])
  }

  /** The value count of `x`: how often it occurs in the item list. An item
      listed twice in one transaction is counted twice. */
  function ItemCount(ts: seq<Transaction>, x: Item): nat
  {
    multiset(Flatten(ts))[x]
  }

  /** The item list of one more transaction ends with that transaction's items. */
  lemma {:induction false} FlattenAppend(ts: seq<Transaction>, t: Transaction)
    ensures Flatten(ts + [t]) == Flatten(ts) + t
    decreases |ts|
  {
    if ts == [] {
      assert [t][1..] == [];
    } else {
      assert (ts + [t])[1..] == ts[1..] + [t];
      FlattenAppend(ts[1..], t);
    }
  }

  /** The value count of an item is the sum, over the transactions, of how often
      each one lists it. */
  lemma ItemCountSums(ts: seq<Transaction>, t: Transaction, x: Item)
    ensures ItemCount([], x) == 0
    ensures ItemCount(ts + [t], x) == ItemCount(ts, x) + multiset(t)[x]
  {
    FlattenAppend(ts, t);
  }

  /** An item of some transaction means there is a transaction. */
  lemma {:induction false} FlattenNonEmpty(ts: seq<Transaction>, x: Item)
    requires x in Flatten(ts)
    ensures |ts| > 0
  {
  }

  /** The item occurs in the flattened list exactly when some transaction lists it. */
  lemma {:induction false} FlattenMembers(ts: seq<Transaction>, x: Item)
    ensures x in Flatten(ts) <==> exists i :: 0 <= i < |ts| && x in ts[i]
    decreases |ts|
  {
    if ts != [] {
      FlattenMembers(ts[1..], x);
      if x in Flatten(ts[1..]) {
        var i :| 0 <= i < |ts| - 1 && x in ts[1..][i];
        assert x in ts[i + 1];
      }
      if exists i :: 0 <= i < |ts| && x in ts[i] {
        var i :| 0 <= i < |ts| && x in ts[i];
        if i > 0 {
          assert x in ts[1..][i - 1];
        }
      }
    }
  }

  /** What the value counts report, in the order they report it: every
      distinct item once, by non-increasing count. Ties are ordered by the
      library, so the order is a parameter of the model. */
  predicate IsValueCountsOrder(order: seq<Item>, ts: seq<Transaction>)
  {
    && Distinct(order)
    && (forall x :: x in order ==> x in Flatten(ts))
    && (forall x :: x in Flatten(ts) ==> x in order)
    && (forall i, j :: 0 <= i < j < |order| ==> ItemCount(ts, order[i]) >= ItemCount(ts, order[j]))
  }

  /** The single-item support filter: count >= (min_support / 100) * N. */
  predicate ItemIsFrequent(count: nat, n: nat, minSupport: real)
  {
    count as real >= (minSupport / 100.0) * n as real
  }

  /** The filter on counts and the filter on support agree: an item is kept
      exactly when its support 100 * count / N reaches min_support. */
  lemma ItemIsFrequentIffSupport(count: nat, n: nat, minSupport: real)
    requires n > 0
    ensures ItemIsFrequent(count, n, minSupport) <==> Support(count, n) >= minSupport
  {
    var c, m, nr := count as real, minSupport, n as real;
    assert Support(count, n) == c * 100.0 / nr;
    assert (m / 100.0) * nr == m * nr / 100.0;
    if c >= m * nr / 100.0 {
      assert c * 100.0 >= m * nr;
      assert c * 100.0 / nr >= m * nr / nr;
    }
    if c * 100.0 / nr >= m {
      assert c * 100.0 >= m * nr;
    }
  }

  /** A count that passes a threshold passes every lower one. */
  lemma ThresholdMonotone(count: nat, n: nat, low: real, high: real)
    requires low <= high
    ensures ItemIsFrequent(count, n, high) ==> ItemIsFrequent(count, n, low)
  {
    var lo, hi, nr := low / 100.0, high / 100.0, n as real;
    assert lo <= hi;
    assert lo * nr <= hi * nr;
  }

  /** The frequent items, in the order of the value counts. */
  function FrequentItems(ts: seq<Transaction>, order: seq<Item>, minSupport: real): seq<Item>
    decreases |order|
  {
    if order == [] then []
    else
      var x := order[|order| - 1];
      FrequentItems(ts, order[..|order| - 1], minSupport)
        + (if ItemIsFrequent(ItemCount(ts, x), |ts|, minSupport) then [x] else [])
  }

  /** An item is frequent exactly when it is counted and passes the filter, and
      the frequent items keep the value-count order. */
  lemma FrequentItemsMembers(ts: seq<Transaction>, order: seq<Item>, minSupport: real)
    ensures forall x :: x in FrequentItems(ts, order, minSupport) <==>
      x in order && ItemIsFrequent(ItemCount(ts, x), |ts|, minSupport)
    ensures IsSubseq(FrequentItems(ts, order, minSupport), order)
  {
    FrequentItemsMember(ts, order, minSupport);
    FrequentItemsOrder(ts, order, minSupport);
  }

  /** Membership half of the frequent items' property. */
  lemma {:induction false} FrequentItemsMember(ts: seq<Transaction>, order: seq<Item>, minSupport: real)
    ensures forall x :: x in FrequentItems(ts, order, minSupport) <==>
      x in order && ItemIsFrequent(ItemCount(ts, x), |ts|, minSupport)
    decreases |order|
  {
    if order != [] {
      var order', x := order[..|order| - 1], order[|order| - 1];
      var prev := FrequentItems(ts, order', minSupport);
      FrequentItemsMember(ts, order', minSupport);
      assert order == order' + [x];
      if ItemIsFrequent(ItemCount(ts, x), |ts|, minSupport) {
        assert FrequentItems(ts, order, minSupport) == prev + [x];
      } else {
        assert FrequentItems(ts, order, minSupport) == prev;
      }
    }
  }

  /** Order half of the frequent items' property. */
  lemma {:induction false} FrequentItemsOrder(ts: seq<Transaction>, order: seq<Item>, minSupport: real)
    ensures IsSubseq(FrequentItems(ts, order, minSupport), order)
    decreases |order|
  {
    if order != [] {
      var order', x := order[..|order| - 1], order[|order| - 1];
      var prev := FrequentItems(ts, order', minSupport);
      FrequentItemsOrder(ts, order', minSupport);
      SubseqSnoc(prev, order', x);
      assert order == order' + [x];
      if ItemIsFrequent(ItemCount(ts, x), |ts|, minSupport) {
        assert FrequentItems(ts, order, minSupport) == prev + [x];
      } else {
        assert FrequentItems(ts, order, minSupport) == prev;
      }
    }
  }

  /** Raising min_support keeps a sub-list of the frequent items. */
  lemma {:induction false} FrequentItemsMonotone(ts: seq<Transaction>, order: seq<Item>, low: real, high: real)
    requires low <= high
    ensures IsSubseq(FrequentItems(ts, order, high), FrequentItems(ts, order, low))
    decreases |order|
  {
    if order == [] {
    } else {
      var order', x := order[..|order| - 1], order[|order| - 1];
      var hi', lo' := FrequentItems(ts, order', high), FrequentItems(ts, order', low);
      FrequentItemsMonotone(ts, order', low, high);
      var c, n := ItemCount(ts, x), |ts|;
      ThresholdMonotone(c, n, low, high);
      if ItemIsFrequent(c, n, high) {
        assert FrequentItems(ts, order, high) == hi' + [x];
        assert FrequentItems(ts, order, low) == lo' + [x];
        SubseqSnoc(hi', lo', x);
      } else if ItemIsFrequent(c, n, low) {
        assert FrequentItems(ts, order, high) == hi';
        assert FrequentItems(ts, order, low) == lo' + [x];
        SubseqSnoc(hi', lo', x);
      } else {
        assert FrequentItems(ts, order, high) == hi';
        assert FrequentItems(ts, order, low) == lo';
      }
    }
  }

  /** The row of a single item: the item, its value count and its support. */
  function SingleRow(ts: seq<Transaction>, x: Item): Row
    requires |ts| > 0
  {
    Row(Single(x), ItemCount(ts, x), Support(ItemCount(ts, x), |ts|))
  }

  /** The single-item rows, one per frequent item, in order. */
  function SingleRows(ts: seq<Transaction>, items: seq<Item>): seq<Row>
    requires |ts| > 0 || items == []
  {
    seq(|items|, i requires 0 <= i < |items| => SingleRow(ts, items[i]))
  }

  /** The single-item rows are exactly the rows of the given items. */
  lemma SingleRowsMembers(ts: seq<Transaction>, items: seq<Item>)
    requires |ts| > 0
    ensures forall r :: r in SingleRows(ts, items) <==>
      r.key.Single? && r.key.item in items && r == SingleRow(ts, r.key.item)
  {
    forall r ensures r in SingleRows(ts, items) <==>
      r.key.Single? && r.key.item in items && r == SingleRow(ts, r.key.item)
    {
      if r.key.Single? && r.key.item in items && r == SingleRow(ts, r.key.item) {
        var i :| 0 <= i < |items| && items[i] == r.key.item;
        assert SingleRows(ts, items)[i] == r;
      }
    }
  }
}
