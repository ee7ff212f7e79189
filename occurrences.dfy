/** The occurrence counter: each candidate itemset is tested against every
    transaction for containment, the counts are collected in a dictionary, turned
    into rows with their support, and filtered by the support threshold. */
module Occurrences {
  import opened Tables
  import opened SingleItems

  /** The candidate's items are a subset of the transaction's items. */
  predicate ContainsAll(t: Transaction, c: seq<Item>)
  {
    forall x :: x in c ==> x in t
  }

  /** The number of transactions that contain every item of `c`. */
  function TxCount(c: seq<Item>, ts: seq<Transaction>): (count: nat)
    ensures count <= |ts|
    decreases |ts|
  {
    if ts == [] then 0
    else (if ContainsAll(ts[0], c) then 1 else 0) + TxCount(c, ts[1..])
  }

  /** A larger itemset is contained in no more transactions than a smaller one. */
  lemma {:induction false} TxCountAntitone(small: seq<Item>, large: seq<Item>, ts: seq<Transaction>)
    requires forall x :: x in small ==> x in large
    ensures TxCount(large, ts) <= TxCount(small, ts)
    decreases |ts|
  {
    if ts != [] {
      TxCountAntitone(small, large, ts[1..]);
    }
  }

  /** The transactions that contain an item are at most its value count, and
      exactly that many when no transaction lists an item twice. */
  lemma {:induction false} TxCountOfOneItem(x: Item, ts: seq<Transaction>)
    ensures TxCount([x], ts) <= ItemCount(ts, x)
    ensures (forall i :: 0 <= i < |ts| ==> Distinct(ts[i])) ==> TxCount([x], ts) == ItemCount(ts, x)
    decreases |ts|
  {
    if ts != [] {
      TxCountOfOneItem(x, ts[1..]);
      assert Flatten(ts) == ts[0] + Flatten(ts[1..]);
      assert multiset(Flatten(ts))[x] == multiset(ts[0])[x] + multiset(Flatten(ts[1..]))[x];
      assert ContainsAll(ts[0], [x]) <==> x in ts[0];
      if forall i :: 0 <= i < |ts| ==> Distinct(ts[i]) {
        assert forall i :: 0 <= i < |ts| - 1 ==> ts[1..][i] == ts[i + 1];
        DistinctCountsOnce(ts[0], x);
      }
    }
  }

  /** In a list without repetitions an element occurs at most once. */
  lemma {:induction false} DistinctCountsOnce(t: seq<Item>, x: Item)
    requires Distinct(t)
    ensures multiset(t)[x] == if x in t then 1 else 0
    decreases |t|
  {
    if t != [] {
      assert t == [t[0]] + t[1..];
      assert Distinct(t[1..]);
      assert t[0] !in t[1..];
      DistinctCountsOnce(t[1..], x);
    }
  }

  /** The counting loop: the dictionary from each candidate (as a tuple) to its
      count, held as its keys in insertion order and the key-to-count map. */
  method CountCandidates(candidates: seq<seq<Item>>, ts: seq<Transaction>)
    returns (keys: seq<seq<Item>>, counts: map<seq<Item>, nat>)
    ensures Distinct(keys)
    ensures forall c :: c in keys <==> c in candidates
    ensures forall c :: c in counts <==> c in candidates
    ensures forall c :: c in counts ==> counts[c] == TxCount(c, ts)
    ensures Distinct(candidates) ==> keys == candidates
  {
    keys, counts := [], map[];
    for i := 0 to |candidates|
      invariant Distinct(keys)
      invariant forall c :: c in keys <==> c in candidates[..i]
      invariant forall c :: c in counts <==> c in candidates[..i]
      invariant forall c :: c in counts ==> counts[c] == TxCount(c, ts)
      invariant Distinct(candidates) ==> keys == candidates[..i]
    {
      var candidate := candidates[i];
      var count := TxCount(candidate, ts);
      assert candidates[..i + 1] == candidates[..i] + [candidate];
      if candidate !in counts {
        keys := keys + [candidate];
      }
      counts := counts[candidate := count];
    }
    assert candidates[..|candidates|] == candidates;
  }

  /** The rows of the itemset table built from that dictionary, in its order. */
  function DictionaryRows(keys: seq<seq<Item>>, counts: map<seq<Item>, nat>, n: nat): seq<Row>
    requires forall i :: 0 <= i < |keys| ==> keys[i] in counts
    requires n > 0 || keys == []
  {
    seq(|keys|, i requires 0 <= i < |keys| =>
      Row(Multi(keys[i]), counts[keys[i]], Support(counts[keys[i]], n)))
  }

  /** A dictionary holding each key's transaction count gives, for each key in
      its order, the row with that count and its support. */
  lemma DictionaryRowsOfCounts(keys: seq<seq<Item>>, counts: map<seq<Item>, nat>, ts: seq<Transaction>)
    requires |ts| > 0
    requires forall i :: 0 <= i < |keys| ==> keys[i] in counts && counts[keys[i]] == TxCount(keys[i], ts)
    ensures DictionaryRows(keys, counts, |ts|) == MultiRows(ts, keys)
  {
  }

  /** The row of a candidate: the itemset, its count and its support. */
  function MultiRow(ts: seq<Transaction>, c: seq<Item>): Row
    requires |ts| > 0
  {
    Row(Multi(c), TxCount(c, ts), Support(TxCount(c, ts), |ts|))
  }

  /** The itemset table of the candidates, in order. */
  function MultiRows(ts: seq<Transaction>, candidates: seq<seq<Item>>): seq<Row>
    requires |ts| > 0 || candidates == []
  {
    seq(|candidates|, i requires 0 <= i < |candidates| => MultiRow(ts, candidates[i]))
  }

  /** The rows whose support is at least `minSupport`, in order. */
  function AtLeastSupport(rows: seq<Row>, minSupport: real): seq<Row>
    decreases |rows|
  {
    if rows == [] then []
    else
      var last := rows[|rows| - 1];
      AtLeastSupport(rows[..|rows| - 1], minSupport) + (if last.support >= minSupport then [last] else [])
  }

  /** The support filter keeps exactly the rows at or above the threshold (the
      comparison is inclusive) and keeps their order. */
  lemma {:induction false} AtLeastSupportMembers(rows: seq<Row>, minSupport: real)
    ensures forall r :: r in AtLeastSupport(rows, minSupport) <==> r in rows && r.support >= minSupport
    ensures IsSubseq(AtLeastSupport(rows, minSupport), rows)
    decreases |rows|
  {
    if rows != [] {
      var rows', last := rows[..|rows| - 1], rows[|rows| - 1];
      var prev := AtLeastSupport(rows', minSupport);
      AtLeastSupportMembers(rows', minSupport);
      SubseqSnoc(prev, rows', last);
      assert rows == rows' + [last];
      if last.support >= minSupport {
        assert AtLeastSupport(rows, minSupport) == prev + [last];
      } else {
        assert AtLeastSupport(rows, minSupport) == prev;
      }
    }
  }

  /** The candidate rows are exactly the rows of the given candidates. */
  lemma MultiRowsMembers(ts: seq<Transaction>, candidates: seq<seq<Item>>)
    requires |ts| > 0
    ensures forall r :: r in MultiRows(ts, candidates) <==>
      r.key.Multi? && r.key.items in candidates && r == MultiRow(ts, r.key.items)
  {
    forall r ensures r in MultiRows(ts, candidates) <==>
      r.key.Multi? && r.key.items in candidates && r == MultiRow(ts, r.key.items)
    {
      if r.key.Multi? && r.key.items in candidates && r == MultiRow(ts, r.key.items) {
        var i :| 0 <= i < |candidates| && candidates[i] == r.key.items;
        assert MultiRows(ts, candidates)[i] == r;
      }
    }
  }
}
