/** The itemset enumerator: `generate_itemsets` builds every sub-list of the
    frequent items (the power set) by doubling a list of subsets once per item,
    and the miner keeps those of length at least two as candidates. */
module Itemsets {
  import opened Tables

  function Pow2(n: nat): (r: nat)
    ensures r >= 1
  {
    if n == 0 then 1 else 2 * Pow2(n - 1)
  }

  /** Each subset of `ps` extended by `x`: the list comprehension of one round
      of generate_itemsets. */
  function Extend(ps: seq<seq<Item>>, x: Item): seq<seq<Item>>
  {
    seq(|ps|, j requires 0 <= j < |ps| => ps[j] + [x])
  }

  /** The list of subsets generate_itemsets holds after it has seen the items of
      `s`, in its own order: the empty list first, then every earlier subset
      again with the newest item appended. */
  function PowerSeq(s: seq<Item>): (r: seq<seq<Item>>)
    ensures |r| == Pow2(|s|)
    decreases |s|
  {
    if s == [] then [[]]
    else
      var prev := PowerSeq(s[..|s| - 1]);
      prev + Extend(prev, s[|s| - 1])
  }

  /** The members of `ps` longer than `n`, in order: the length filter that
      turns the generated subsets into candidates. */
  function WithLengthAbove(ps: seq<seq<Item>>, n: int): seq<seq<Item>>
    decreases |ps|
  {
    if ps == [] then []
    else
      var last := ps[|ps| - 1];
      WithLengthAbove(ps[..|ps| - 1], n) + (if |last| > n then [last] else [])
  }

  /** The length filter keeps exactly the members longer than `n`, in order. */
  lemma WithLengthAboveMembers(ps: seq<seq<Item>>, n: int)
    ensures forall p :: p in WithLengthAbove(ps, n) <==> p in ps && |p| > n
    ensures IsSubseq(WithLengthAbove(ps, n), ps)
  {
    WithLengthAboveMember(ps, n);
    WithLengthAboveOrder(ps, n);
  }

  /** Membership half of the length filter's property. */
  lemma {:induction false} WithLengthAboveMember(ps: seq<seq<Item>>, n: int)
    ensures forall p :: p in WithLengthAbove(ps, n) <==> p in ps && |p| > n
    decreases |ps|
  {
    if ps != [] {
      var ps', last := ps[..|ps| - 1], ps[|ps| - 1];
      var prev := WithLengthAbove(ps', n);
      WithLengthAboveMember(ps', n);
      assert ps == ps' + [last];
      if |last| > n {
        assert WithLengthAbove(ps, n) == prev + [last];
      } else {
        assert WithLengthAbove(ps, n) == prev;
      }
    }
  }

  /** Order half of the length filter's property. */
  lemma {:induction false} WithLengthAboveOrder(ps: seq<seq<Item>>, n: int)
    ensures IsSubseq(WithLengthAbove(ps, n), ps)
    decreases |ps|
  {
    if ps != [] {
      var ps', last := ps[..|ps| - 1], ps[|ps| - 1];
      var prev := WithLengthAbove(ps', n);
      WithLengthAboveOrder(ps', n);
      SubseqSnoc(prev, ps', last);
      assert ps == ps' + [last];
      if |last| > n {
        assert WithLengthAbove(ps, n) == prev + [last];
      } else {
        assert WithLengthAbove(ps, n) == prev;
      }
    }
  }

  /** generate_itemsets: the power set of `items` without the empty set, each
      subset in the order of `items`. */
  method GenerateItemsets(items: seq<Item>) returns (subsets: seq<seq<Item>>)
    ensures subsets == PowerSeq(items)[1..]
    ensures |subsets| == Pow2(|items|) - 1
    ensures forall p :: p in subsets <==> p != [] && IsSubseq(p, items)
    ensures Distinct(items) ==> Distinct(subsets)
  {
    var all: seq<seq<Item>> := [[]];
    for i := 0 to |items|
      invariant all == PowerSeq(items[..i])
    {
      var newCombinations := Extend(all, items[i]);
      all := all + newCombinations;
      assert items[..i + 1][..i] == items[..i];
    }
    assert items[..|items|] == items;
    PowerSeqShape(items);
    PowerSeqMembers(items);
    subsets := all[1..];
    forall p
      ensures p in subsets <==> p != [] && IsSubseq(p, items)
    {
      if p != [] && IsSubseq(p, items) {
        var j :| 0 <= j < |all| && all[j] == p;
        assert j != 0;
        assert subsets[j - 1] == p;
      }
    }
    if Distinct(items) {
      PowerSeqDistinct(items);
    }
  }

  /** The empty list comes first and only there. */
  lemma {:induction false} PowerSeqShape(s: seq<Item>)
    ensures |PowerSeq(s)| >= 1 && PowerSeq(s)[0] == []
    ensures forall j :: 1 <= j < |PowerSeq(s)| ==> PowerSeq(s)[j] != []
    decreases |s|
  {
    if s != [] {
      PowerSeqShape(s[..|s| - 1]);
    }
  }

  /** The members are exactly the sub-lists of `s` that keep its order. */
  lemma {:induction false} PowerSeqMembers(s: seq<Item>)
    ensures forall p :: p in PowerSeq(s) <==> IsSubseq(p, s)
    decreases |s|
  {
    if s != [] {
      var s', x := s[..|s| - 1], s[|s| - 1];
      PowerSeqMembers(s');
      assert s == s' + [x];
      forall p
        ensures p in PowerSeq(s) <==> IsSubseq(p, s)
      {
        PowerSeqMemberStep(s', x, p);
      }
    }
  }

  /** One round of the loop: a list is in the doubled list exactly when it
      keeps the order of the items seen so far plus the new one. */
  lemma PowerSeqMemberStep(s': seq<Item>, x: Item, p: seq<Item>)
    requires forall q :: q in PowerSeq(s') <==> IsSubseq(q, s')
    ensures p in PowerSeq(s' + [x]) <==> IsSubseq(p, s' + [x])
  {
    var s := s' + [x];
    assert s[..|s| - 1] == s' && s[|s| - 1] == x;
    var prev := PowerSeq(s');
    assert PowerSeq(s) == prev + Extend(prev, x);
    if p in prev {
      SubseqSnoc(p, s', x);
    } else if p in Extend(prev, x) {
      var j :| 0 <= j < |prev| && Extend(prev, x)[j] == p;
      SubseqSnoc(prev[j], s', x);
    }
    if IsSubseq(p, s) {
      if p == [] {
        assert IsSubseq(p, s');
      } else if p[|p| - 1] == x && IsSubseq(p[..|p| - 1], s') {
        var j :| 0 <= j < |prev| && prev[j] == p[..|p| - 1];
        assert Extend(prev, x)[j] == p;
      } else {
        assert IsSubseq(p, s');
      }
    }
  }

  /** Extending distinct lists by the same item keeps them distinct. */
  lemma ExtendDistinct(ps: seq<seq<Item>>, x: Item)
    requires Distinct(ps)
    ensures Distinct(Extend(ps, x))
  {
    var ext := Extend(ps, x);
    forall i, j | 0 <= i < j < |ext| ensures ext[i] != ext[j] {
      assert ext[i][..|ext[i]| - 1] == ps[i];
      assert ext[j][..|ext[j]| - 1] == ps[j];
    }
  }

  /** On distinct items the subsets are pairwise different lists. */
  lemma {:induction false} PowerSeqDistinct(s: seq<Item>)
    requires Distinct(s)
    ensures Distinct(PowerSeq(s))
    decreases |s|
  {
    if s != [] {
      var s', x := s[..|s| - 1], s[|s| - 1];
      var prev := PowerSeq(s');
      var ext := Extend(prev, x);
      var all := PowerSeq(s);
      assert all == prev + ext;
      PowerSeqDistinct(s');
      PowerSeqMembers(s');
      ExtendDistinct(prev, x);
      assert x !in s';
      forall i, j | 0 <= i < j < |all|
        ensures all[i] != all[j]
      {
        if j < |prev| {
          assert all[i] == prev[i] && all[j] == prev[j];
        } else if i >= |prev| {
          assert all[i] == ext[i - |prev|] && all[j] == ext[j - |prev|];
        } else {
          SubseqElements(prev[i], s');
          assert all[i] == prev[i] && all[j] == prev[j - |prev|] + [x];
          assert x in all[j];
        }
      }
    }
  }

  lemma {:induction false} ExtendAppend(ps: seq<seq<Item>>, q: seq<Item>, x: Item)
    ensures Extend(ps + [q], x) == Extend(ps, x) + [q + [x]]
  {
  }

  lemma {:induction false} WithLengthAboveAppend(a: seq<seq<Item>>, b: seq<seq<Item>>, n: int)
    ensures WithLengthAbove(a + b, n) == WithLengthAbove(a, n) + WithLengthAbove(b, n)
    decreases |b|
  {
    if b == [] {
      assert a + b == a;
    } else {
      var b' := b[..|b| - 1];
      WithLengthAboveAppend(a, b', n);
      assert (a + b)[..|a + b| - 1] == a + b';
    }
  }

  /** Extending every subset by one item lengthens each by one. */
  lemma {:induction false} WithLengthAboveExtend(ps: seq<seq<Item>>, x: Item, n: int)
    ensures |WithLengthAbove(Extend(ps, x), n + 1)| == |WithLengthAbove(ps, n)|
    decreases |ps|
  {
    if ps != [] {
      var ps' := ps[..|ps| - 1];
      WithLengthAboveExtend(ps', x, n);
      assert ps == ps' + [ps[|ps| - 1]];
      ExtendAppend(ps', ps[|ps| - 1], x);
      WithLengthAboveAppend(Extend(ps', x), [ps[|ps| - 1] + [x]], n + 1);
      WithLengthAboveAppend(ps', [ps[|ps| - 1]], n);
    }
  }

  /** Of the 2^k subsets of k items, 2^k - 1 are non-empty and 2^k - k - 1 have
      at least two items. */
  lemma {:induction false} PowerSeqLengthCounts(s: seq<Item>)
    ensures |WithLengthAbove(PowerSeq(s), 0)| == Pow2(|s|) - 1
    ensures |WithLengthAbove(PowerSeq(s), 1)| == Pow2(|s|) - |s| - 1
    decreases |s|
  {
    if s != [] {
      var s', x := s[..|s| - 1], s[|s| - 1];
      var prev := PowerSeq(s');
      var ext := Extend(prev, x);
      var half := Pow2(|s'|);
      assert PowerSeq(s) == prev + ext;
      assert Pow2(|s|) == 2 * half;
      PowerSeqLengthCounts(s');
      WithLengthAboveAll(prev, -1);
      WithLengthAboveAppend(prev, ext, 0);
      WithLengthAboveAppend(prev, ext, 1);
      WithLengthAboveExtend(prev, x, -1);
      WithLengthAboveExtend(prev, x, 0);
      assert |WithLengthAbove(ext, 0)| == half;
      assert |WithLengthAbove(ext, 1)| == half - 1;
    }
  }

  lemma {:induction false} WithLengthAboveAll(ps: seq<seq<Item>>, n: int)
    requires n < 0
    ensures WithLengthAbove(ps, n) == ps
    decreases |ps|
  {
    if ps != [] {
      WithLengthAboveAll(ps[..|ps| - 1], n);
      assert ps == ps[..|ps| - 1] + [ps[|ps| - 1]];
    }
  }

  /** The candidates of the miner: the generated subsets with more than one item. */
  function Candidates(items: seq<Item>): seq<seq<Item>>
  {
    WithLengthAbove(PowerSeq(items)[1..], 1)
  }

  /** Candidate generation on k items yields 2^k - k - 1 lists. */
  lemma CandidatesCount(items: seq<Item>)
    ensures |Candidates(items)| == Pow2(|items|) - |items| - 1
  {
    var all := PowerSeq(items);
    PowerSeqShape(items);
    PowerSeqLengthCounts(items);
    assert all == [all[0]] + all[1..];
    WithLengthAboveAppend([all[0]], all[1..], 1);
    assert WithLengthAbove([all[0]], 1) == [];
  }

  /** The candidates are exactly the order-keeping sub-lists of the items with
      at least two members, and on distinct items no candidate repeats. */
  lemma CandidatesMembers(items: seq<Item>)
    ensures forall p :: p in Candidates(items) <==> |p| >= 2 && IsSubseq(p, items)
    ensures Distinct(items) ==> Distinct(Candidates(items))
  {
    var all := PowerSeq(items);
    PowerSeqShape(items);
    PowerSeqMembers(items);
    WithLengthAboveMembers(all[1..], 1);
    forall p | |p| >= 2 && IsSubseq(p, items)
      ensures p in all[1..]
    {
      var j :| 0 <= j < |all| && all[j] == p;
      assert all[1..][j - 1] == p;
    }
    if Distinct(items) {
      PowerSeqDistinct(items);
      assert Distinct(all[1..]) by {
        forall i, j | 0 <= i < j < |all| - 1 ensures all[1..][i] != all[1..][j] {
          assert all[1..][i] == all[i + 1] && all[1..][j] == all[j + 1];
        }
      }
      DistinctSubseq(Candidates(items), all[1..]);
    }
  }
}
