/** Shared vocabulary of the miner: items, transactions, the keys and rows of the
    frequent-itemset table, and two facts about sequences used by every stage. */
module Tables {

  /** An item token, as it appears between separators in a transaction record. */
  type Item = string

  /** One transaction: its item tokens in the order the record lists them. */
  type Transaction = seq<Item>

  /** The key under which a frequent itemset is stored. The miner keys a single
      item by the bare token and a generated itemset by the tuple of its items,
      so the two shapes are kept apart here. */
  datatype Key = Single(item: Item) | Multi(items: seq<Item>)

  /** One row of the frequent-itemset table: the itemset, its frequency and its
      support in percent of the number of transactions. */
  datatype Row = Row(key: Key, frequency: nat, support: real)

  /** Support in percent: (count / N) * 100. */
  function Support(count: nat, n: nat): real
    requires n > 0
  {
    (count as real / n as real) * 100.0
  }

  predicate Distinct<T(==)>(s: seq<T>)
  {
    forall i, j :: 0 <= i < j < |s| ==> s[i] != s[j]
  }

  predicate DistinctKeys(rows: seq<Row>)
  {
    forall i, j :: 0 <= i < j < |rows| ==> rows[i].key != rows[j].key
  }

  /** `p` is obtained from `s` by deleting elements, keeping the order of the rest. */
  predicate IsSubseq<T(==)>(p: seq<T>, s: seq<T>)
    decreases |s|
  {
    if p == [] then true
    else if s == [] then false
    else (p[|p| - 1] == s[|s| - 1] && IsSubseq(p[..|p| - 1], s[..|s| - 1]))
         || IsSubseq(p, s[..|s| - 1])
  }

  /** Every element of a subsequence is an element of the sequence. */
  lemma {:induction false} SubseqElements<T>(p: seq<T>, s: seq<T>)
    requires IsSubseq(p, s)
    ensures forall x :: x in p ==> x in s
    decreases |s|
  {
    if p != [] {
      var p', s' := p[..|p| - 1], s[..|s| - 1];
      if p[|p| - 1] == s[|s| - 1] && IsSubseq(p', s') {
        SubseqElements(p', s');
        assert p == p' + [s[|s| - 1]];
        assert s == s' + [s[|s| - 1]];
      } else {
        SubseqElements(p, s');
        assert s == s' + [s[|s| - 1]];
      }
    }
  }

  /** A subsequence of a subsequence of `c` is a subsequence of `c`. */
  lemma {:induction false} SubseqTransitive<T>(a: seq<T>, b: seq<T>, c: seq<T>)
    requires IsSubseq(a, b) && IsSubseq(b, c)
    ensures IsSubseq(a, c)
    decreases |c|
  {
    if a != [] {
      assert b != [] && c != [];
      var a', b', c' := a[..|a| - 1], b[..|b| - 1], c[..|c| - 1];
      if b[|b| - 1] == c[|c| - 1] && IsSubseq(b', c') {
        if a[|a| - 1] == b[|b| - 1] && IsSubseq(a', b') {
          SubseqTransitive(a', b', c');
        } else {
          SubseqTransitive(a, b', c');
        }
      } else {
        SubseqTransitive(a, b, c');
      }
    }
  }

  /** Every sequence is a subsequence of itself. */
  lemma {:induction false} SubseqReflexive<T>(s: seq<T>)
    ensures IsSubseq(s, s)
    decreases |s|
  {
    if s != [] {
      SubseqReflexive(s[..|s| - 1]);
    }
  }

  /** Appending one element on the right of the sequence keeps a subsequence. */
  lemma SubseqSnoc<T>(p: seq<T>, s: seq<T>, x: T)
    requires IsSubseq(p, s)
    ensures IsSubseq(p, s + [x]) && IsSubseq(p + [x], s + [x])
  {
    assert (s + [x])[..|s|] == s;
    assert (p + [x])[..|p|] == p;
  }

  /** A subsequence of a sequence without repetitions has none either. */
  lemma {:induction false} DistinctSubseq<T>(p: seq<T>, s: seq<T>)
    requires IsSubseq(p, s) && Distinct(s)
    ensures Distinct(p)
    decreases |s|
  {
    if p != [] {
      var p', s' := p[..|p| - 1], s[..|s| - 1];
      if p[|p| - 1] == s[|s| - 1] && IsSubseq(p', s') {
        DistinctSubseq(p', s');
        SubseqElements(p', s');
        forall i | 0 <= i < |p'| ensures p'[i] != p[|p| - 1] {
          assert p'[i] in s';
          var k :| 0 <= k < |s'| && s'[k] == p'[i];
          assert s[k] == p'[i];
        }
      } else {
        DistinctSubseq(p, s');
      }
    }
  }
}
