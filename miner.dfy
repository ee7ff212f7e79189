/** The brute-force association miner: parse the records, keep the frequent
    single items, enumerate and count every larger combination of them, keep the
    frequent ones, and derive the rules between frequent itemsets. */
module Miner {
  import opened Tables
  import opened Transactions
  import opened SingleItems
  import opened Itemsets
  import opened Occurrences
  import opened Rules

  /** The frequent-itemset table: the frequent single items in value-count
      order, then the frequent candidates in enumeration order. */
  function FrequentTable(ts: seq<Transaction>, order: seq<Item>, minSupport: real): seq<Row>
    requires |ts| > 0 || order == []
  {
    var items := FrequentItems(ts, order, minSupport);
    assert order == [] ==> items == [];
    assert items == [] ==> Candidates(items) == [];
    SingleRows(ts, items) + AtLeastSupport(MultiRows(ts, Candidates(items)), minSupport)
  }

  /** Membership in the frequent-itemset table, stated without the table: a
      single item that passes the count filter, or a sub-list of at least
      two frequent items whose support reaches the threshold; either with the
      count and support the miner computes for it. */
  predicate Qualifies(r: Row, ts: seq<Transaction>, order: seq<Item>, minSupport: real)
  {
    |ts| > 0 &&
    match r.key
    case Single(x) =>
      r == SingleRow(ts, x) && x in order && ItemIsFrequent(ItemCount(ts, x), |ts|, minSupport)
    case Multi(p) =>
      r == MultiRow(ts, p) && |p| >= 2 && IsSubseq(p, FrequentItems(ts, order, minSupport))
      && r.support >= minSupport
  }

  /** A row carries the count and support of its own itemset. */
  predicate HasOwnCountAndSupport(r: Row, ts: seq<Transaction>)
  {
    && |ts| > 0
    && r.support == Support(r.frequency, |ts|)
    && match r.key
       case Single(x) => r.frequency == ItemCount(ts, x)
       case Multi(xs) => |xs| >= 2 && Distinct(xs) && r.frequency == TxCount(xs, ts)
  }

  lemma ValueCountsOrderNeedsTransactions(order: seq<Item>, ts: seq<Transaction>)
    requires IsValueCountsOrder(order, ts)
    ensures |ts| > 0 || order == []
  {
    if order != [] {
      FlattenNonEmpty(ts, order[0]);
    }
  }

  /** A row is in the table exactly when it qualifies. */
  lemma FrequentTableMembers(ts: seq<Transaction>, order: seq<Item>, minSupport: real)
    requires IsValueCountsOrder(order, ts)
    ensures |ts| > 0 || order == []
    ensures forall r :: r in FrequentTable(ts, order, minSupport) <==> Qualifies(r, ts, order, minSupport)
  {
    ValueCountsOrderNeedsTransactions(order, ts);
    if |ts| == 0 {
      assert FrequentTable(ts, order, minSupport) == [];
    } else {
      var items := FrequentItems(ts, order, minSupport);
      var cands := Candidates(items);
      FrequentItemsMembers(ts, order, minSupport);
      CandidatesMembers(items);
      SingleRowsMembers(ts, items);
      MultiRowsMembers(ts, cands);
      AtLeastSupportMembers(MultiRows(ts, cands), minSupport);
      assert FrequentTable(ts, order, minSupport)
          == SingleRows(ts, items) + AtLeastSupport(MultiRows(ts, cands), minSupport);
    }
  }

  /** Every row of the table carries its own count and support, and its
      support is at least min_support. */
  lemma FrequentTableSupport(ts: seq<Transaction>, order: seq<Item>, minSupport: real)
    requires IsValueCountsOrder(order, ts)
    ensures |ts| > 0 || order == []
    ensures forall r :: r in FrequentTable(ts, order, minSupport) ==>
      HasOwnCountAndSupport(r, ts) && r.support >= minSupport
  {
    FrequentTableMembers(ts, order, minSupport);
    var items := FrequentItems(ts, order, minSupport);
    FrequentItemsMembers(ts, order, minSupport);
    DistinctSubseq(items, order);
    forall r | r in FrequentTable(ts, order, minSupport)
      ensures HasOwnCountAndSupport(r, ts) && r.support >= minSupport
    {
      assert Qualifies(r, ts, order, minSupport);
      if r.key.Single? {
        ItemIsFrequentIffSupport(ItemCount(ts, r.key.item), |ts|, minSupport);
      } else {
        DistinctSubseq(r.key.items, items);
      }
    }
  }

  /** The rows of items without repetitions have distinct keys. */
  lemma SingleRowsDistinctKeys(ts: seq<Transaction>, items: seq<Item>)
    requires |ts| > 0 && Distinct(items)
    ensures DistinctKeys(SingleRows(ts, items))
  {
    var rows := SingleRows(ts, items);
    forall i, j | 0 <= i < j < |rows| ensures rows[i].key != rows[j].key {
      assert rows[i].key == Single(items[i]) && rows[j].key == Single(items[j]);
    }
  }

  /** The kept rows of candidates without repetitions have distinct keys. */
  lemma KeptRowsDistinctKeys(ts: seq<Transaction>, cands: seq<seq<Item>>, minSupport: real)
    requires |ts| > 0 && Distinct(cands)
    ensures DistinctKeys(AtLeastSupport(MultiRows(ts, cands), minSupport))
    ensures forall r :: r in AtLeastSupport(MultiRows(ts, cands), minSupport) ==> r.key.Multi?
  {
    var multis := MultiRows(ts, cands);
    var kept := AtLeastSupport(multis, minSupport);
    AtLeastSupportMembers(multis, minSupport);
    MultiRowsMembers(ts, cands);
    assert Distinct(multis) by {
      forall i, j | 0 <= i < j < |multis| ensures multis[i] != multis[j] {
        assert multis[i].key == Multi(cands[i]) && multis[j].key == Multi(cands[j]);
      }
    }
    DistinctSubseq(kept, multis);
    forall i, j | 0 <= i < j < |kept| ensures kept[i].key != kept[j].key {
      assert kept[i] in multis && kept[j] in multis;
    }
  }

  /** Single-item rows followed by itemset rows, each part without repeated
      keys, have no repeated key. */
  lemma AppendDistinctKeys(singles: seq<Row>, multis: seq<Row>)
    requires DistinctKeys(singles) && DistinctKeys(multis)
    requires forall r :: r in singles ==> r.key.Single?
    requires forall r :: r in multis ==> r.key.Multi?
    ensures DistinctKeys(singles + multis)
  {
    var table := singles + multis;
    forall i, j | 0 <= i < j < |table| ensures table[i].key != table[j].key {
      if j < |singles| {
        assert table[i] == singles[i] && table[j] == singles[j];
      } else if i >= |singles| {
        assert table[i] == multis[i - |singles|] && table[j] == multis[j - |singles|];
      } else {
        assert table[i] in singles && table[j] in multis;
      }
    }
  }

  /** No itemset appears twice in the table. */
  lemma FrequentTableDistinctKeys(ts: seq<Transaction>, order: seq<Item>, minSupport: real)
    requires IsValueCountsOrder(order, ts)
    ensures |ts| > 0 || order == []
    ensures DistinctKeys(FrequentTable(ts, order, minSupport))
  {
    ValueCountsOrderNeedsTransactions(order, ts);
    if |ts| > 0 {
      var items := FrequentItems(ts, order, minSupport);
      FrequentItemsMembers(ts, order, minSupport);
      DistinctSubseq(items, order);
      var cands := Candidates(items);
      CandidatesMembers(items);
      SingleRowsDistinctKeys(ts, items);
      SingleRowsMembers(ts, items);
      KeptRowsDistinctKeys(ts, cands, minSupport);
      AppendDistinctKeys(SingleRows(ts, items), AtLeastSupport(MultiRows(ts, cands), minSupport));
    }
  }

  /** Monotonicity: raising min_support never adds a row to the table. */
  lemma FrequentTableMonotone(ts: seq<Transaction>, order: seq<Item>, low: real, high: real)
    requires IsValueCountsOrder(order, ts)
    requires low <= high
    ensures |ts| > 0 || order == []
    ensures forall r :: r in FrequentTable(ts, order, high) ==> r in FrequentTable(ts, order, low)
  {
    FrequentTableMembers(ts, order, low);
    FrequentTableMembers(ts, order, high);
    FrequentItemsMonotone(ts, order, low, high);
    forall r | Qualifies(r, ts, order, high)
      ensures Qualifies(r, ts, order, low)
    {
      if r.key.Single? {
        ThresholdMonotone(ItemCount(ts, r.key.item), |ts|, low, high);
      } else {
        SubseqTransitive(r.key.items, FrequentItems(ts, order, high), FrequentItems(ts, order, low));
      }
    }
  }

  lemma SupportMonotone(small: nat, large: nat, n: nat)
    requires n > 0 && small <= large
    ensures Support(small, n) <= Support(large, n)
  {
    var nr := n as real;
    assert small as real / nr <= large as real / nr;
  }

  /** A single item is the antecedent of no rule: the only non-empty subset of
      its items is itself. */
  lemma SingleItemHasNoConsequent(x: Item, c: Key)
    requires c.Multi? ==> |c.items| >= 2 && Distinct(c.items)
    ensures !IsRule(Single(x), c)
  {
    if c.Single? {
      assert c.item in TokenSet(c);
    } else {
      assert c.items[0] in TokenSet(c) && c.items[1] in TokenSet(c);
    }
  }

  /** The antecedent of a rule is contained in no more transactions than its
      consequent, so its support is at most the consequent's. */
  lemma RuleSupportOrdered(a: Row, c: Row, ts: seq<Transaction>)
    requires HasOwnCountAndSupport(a, ts) && HasOwnCountAndSupport(c, ts) && IsRule(a.key, c.key)
    ensures a.frequency <= c.frequency && a.support <= c.support
  {
    if a.key.Single? {
      SingleItemHasNoConsequent(a.key.item, c.key);
      assert false;
    } else {
      var xs := a.key.items;
      if c.key.Single? {
        var y := c.key.item;
        assert y in TokenSet(c.key);
        TxCountAntitone([y], xs, ts);
        TxCountOfOneItem(y, ts);
      } else {
        var ys := c.key.items;
        assert forall y :: y in ys ==> y in TokenSet(c.key);
        TxCountAntitone(ys, xs, ts);
      }
      SupportMonotone(a.frequency, c.frequency, |ts|);
    }
  }

  /** A rule whose consequent has non-zero support has a confidence between
      0 and 100. */
  lemma RuleConfidenceBounded(a: Row, c: Row, ts: seq<Transaction>)
    requires HasOwnCountAndSupport(a, ts) && HasOwnCountAndSupport(c, ts) && IsRule(a.key, c.key) && c.support != 0.0
    ensures 0.0 <= Confidence(a.support, c.support) <= 100.0
  {
    RuleSupportOrdered(a, c, ts);
    SupportNonNegative(a.frequency, |ts|);
    QuotientAtMostOne(a.support, c.support);
  }

  lemma SupportNonNegative(count: nat, n: nat)
    requires n > 0
    ensures Support(count, n) >= 0.0
  {
    assert count as real / n as real >= 0.0;
  }

  lemma QuotientAtMostOne(x: real, y: real)
    requires 0.0 <= x <= y && y > 0.0
    ensures 0.0 <= x / y <= 1.0
  {
    assert x / y * y == x;
  }

  /** Two order-keeping sub-lists of a list without repetitions that hold the
      same items are the same list. */
  lemma {:induction false} SubseqDeterminedByItems(p: seq<Item>, q: seq<Item>, s: seq<Item>)
    requires Distinct(s) && IsSubseq(p, s) && IsSubseq(q, s)
    requires forall x :: x in p <==> x in q
    ensures p == q
    decreases |s|
  {
    if s == [] {
    } else {
      var s', x := s[..|s| - 1], s[|s| - 1];
      assert x !in s';
      SameItemsBothEmpty(p, q);
      if p == [] {
      } else if x in p {
        var p', q' := p[..|p| - 1], q[..|q| - 1];
        SubseqUsesLast(p, s);
        SubseqUsesLast(q, s);
        SubseqElements(p', s');
        SubseqElements(q', s');
        assert p == p' + [x] && q == q' + [x];
        forall z ensures z in p' <==> z in q' {
          assert z in p' ==> z != x && z in p;
          assert z in q' ==> z != x && z in q;
        }
        SubseqDeterminedByItems(p', q', s');
      } else {
        SubseqSkipsLast(p, s);
        SubseqSkipsLast(q, s);
        SubseqDeterminedByItems(p, q, s');
      }
    }
  }

  /** Two lists with the same items are both empty or both not. */
  lemma SameItemsBothEmpty(p: seq<Item>, q: seq<Item>)
    requires forall x :: x in p <==> x in q
    ensures p == [] <==> q == []
  {
    if p != [] {
      assert p[0] in q;
    }
    if q != [] {
      assert q[0] in p;
    }
  }

  /** An order-keeping sub-list of distinct items that holds the last item ends
      with it, and its rest keeps the order of the other items. */
  lemma SubseqUsesLast(p: seq<Item>, s: seq<Item>)
    requires s != [] && Distinct(s) && IsSubseq(p, s) && s[|s| - 1] in p
    ensures p != [] && p[|p| - 1] == s[|s| - 1] && IsSubseq(p[..|p| - 1], s[..|s| - 1])
  {
    if !(p[|p| - 1] == s[|s| - 1] && IsSubseq(p[..|p| - 1], s[..|s| - 1])) {
      SubseqElements(p, s[..|s| - 1]);
    }
  }

  /** An order-keeping sub-list without the last item keeps the order of the
      other items. */
  lemma SubseqSkipsLast(p: seq<Item>, s: seq<Item>)
    requires s != [] && IsSubseq(p, s) && s[|s| - 1] !in p
    ensures IsSubseq(p, s[..|s| - 1])
  {
    if p != [] {
      assert p[|p| - 1] in p;
    }
  }

  /** The keys the table can hold, given the frequent items: a frequent item,
      or an order-keeping sub-list of at least two of them. */
  predicate DrawnFrom(k: Key, items: seq<Item>)
  {
    match k
    case Single(x) => x in items
    case Multi(p) => |p| >= 2 && IsSubseq(p, items)
  }

  /** Two itemsets drawn from the same frequent items with the same items are
      the same key. */
  lemma SameItemsSameKey(a: Key, c: Key, items: seq<Item>)
    requires Distinct(items) && a.Multi? && c.Multi?
    requires IsSubseq(a.items, items) && IsSubseq(c.items, items)
    ensures TokenSet(a) == TokenSet(c) ==> a == c
  {
    if TokenSet(a) == TokenSet(c) {
      assert forall z :: z in a.items <==> z in TokenSet(a);
      assert forall z :: z in c.items <==> z in TokenSet(c);
      SubseqDeterminedByItems(a.items, c.items, items);
    }
  }

  /** Different keys drawn from distinct frequent items hold different sets of
      items. */
  lemma DrawnKeysDistinctSets(a: Key, c: Key, items: seq<Item>)
    requires Distinct(items) && DrawnFrom(a, items) && DrawnFrom(c, items) && a != c
    ensures TokenSet(a) != TokenSet(c)
  {
    if a.Multi? && c.Multi? {
      SameItemsSameKey(a, c, items);
    } else if a.Multi? {
      DistinctSubseq(a.items, items);
      assert a.items[0] in TokenSet(a) && a.items[1] in TokenSet(a);
    } else if c.Multi? {
      DistinctSubseq(c.items, items);
      assert c.items[0] in TokenSet(c) && c.items[1] in TokenSet(c);
    } else {
      assert a.item in TokenSet(a);
    }
  }

  /** No set of items appears twice in the table: two rows never hold the same
      itemset, whatever the order of its items. */
  lemma FrequentTableDistinctItemSets(ts: seq<Transaction>, order: seq<Item>, minSupport: real)
    requires IsValueCountsOrder(order, ts)
    ensures |ts| > 0 || order == []
    ensures forall i, j :: 0 <= i < j < |FrequentTable(ts, order, minSupport)| ==>
      TokenSet(FrequentTable(ts, order, minSupport)[i].key) != TokenSet(FrequentTable(ts, order, minSupport)[j].key)
  {
    ValueCountsOrderNeedsTransactions(order, ts);
    var table := FrequentTable(ts, order, minSupport);
    var items := FrequentItems(ts, order, minSupport);
    FrequentTableDistinctKeys(ts, order, minSupport);
    FrequentTableDrawnFrom(ts, order, minSupport);
    FrequentItemsMembers(ts, order, minSupport);
    DistinctSubseq(items, order);
    forall i, j | 0 <= i < j < |table|
      ensures TokenSet(table[i].key) != TokenSet(table[j].key)
    {
      assert table[i] in table && table[j] in table;
      DrawnKeysDistinctSets(table[i].key, table[j].key, items);
    }
  }

  /** Between the keys the table can hold, a rule goes from an itemset to a
      non-empty proper subset of its items. */
  lemma DrawnRuleIsProperSubset(a: Key, c: Key, items: seq<Item>)
    requires Distinct(items) && DrawnFrom(a, items) && DrawnFrom(c, items) && IsRule(a, c)
    ensures TokenSet(c) < TokenSet(a) && TokenSet(c) != {}
  {
    if c.Multi? {
      DistinctSubseq(c.items, items);
    }
    if a.Single? {
      SingleItemHasNoConsequent(a.item, c);
      assert false;
    } else if c.Single? {
      DistinctSubseq(a.items, items);
      assert c.item in TokenSet(c);
      assert a.items[0] in TokenSet(a) && a.items[1] in TokenSet(a);
    } else {
      SameItemsSameKey(a, c, items);
      assert c.items[0] in TokenSet(c);
    }
  }

  /** Every row of the table holds a key drawn from the frequent items. */
  lemma FrequentTableDrawnFrom(ts: seq<Transaction>, order: seq<Item>, minSupport: real)
    requires IsValueCountsOrder(order, ts)
    ensures |ts| > 0 || order == []
    ensures forall r :: r in FrequentTable(ts, order, minSupport) ==>
      DrawnFrom(r.key, FrequentItems(ts, order, minSupport))
  {
    FrequentTableMembers(ts, order, minSupport);
    FrequentItemsMembers(ts, order, minSupport);
    forall r | r in FrequentTable(ts, order, minSupport)
      ensures DrawnFrom(r.key, FrequentItems(ts, order, minSupport))
    {
      assert Qualifies(r, ts, order, minSupport);
    }
  }

  /** Every rule of the table goes from an itemset to a non-empty proper
      subset of its items. */
  lemma RuleIsProperSubset(ts: seq<Transaction>, order: seq<Item>, minSupport: real, a: Row, c: Row)
    requires IsValueCountsOrder(order, ts)
    requires |ts| > 0 || order == []
    requires a in FrequentTable(ts, order, minSupport) && c in FrequentTable(ts, order, minSupport)
    requires IsRule(a.key, c.key)
    ensures TokenSet(c.key) < TokenSet(a.key)
    ensures TokenSet(c.key) != {}
  {
    FrequentTableDrawnFrom(ts, order, minSupport);
    var items := FrequentItems(ts, order, minSupport);
    FrequentItemsMembers(ts, order, minSupport);
    DistinctSubseq(items, order);
    DrawnRuleIsProperSubset(a.key, c.key, items);
  }

  /** With a positive min_support every row of the table has positive
      support, so no rule divides by zero. */
  lemma PositiveSupportNoZeroDivisor(ts: seq<Transaction>, order: seq<Item>, minSupport: real)
    requires IsValueCountsOrder(order, ts) && minSupport > 0.0
    ensures |ts| > 0 || order == []
    ensures !HasZeroDivisor(FrequentTable(ts, order, minSupport))
  {
    FrequentTableSupport(ts, order, minSupport);
    var table := FrequentTable(ts, order, minSupport);
    forall i, j | 0 <= i < |table| && 0 <= j < |table| ensures !DividesByZero(table[i], table[j]) {
      assert table[j] in table;
    }
  }

  /** The rule table the miner reports, stated without its loops. */
  function MinedRules(ts: seq<Transaction>, order: seq<Item>, minSupport: real, minConfidence: real): seq<Rule>
    requires |ts| > 0 || order == []
    requires !HasZeroDivisor(FrequentTable(ts, order, minSupport))
  {
    FilterByConfidence(CandidateRules(FrequentTable(ts, order, minSupport)), minConfidence)
  }

  /** Every rule between rows of the table that does not divide by zero has a
      confidence between 0 and 100 and goes to a non-empty proper subset. */
  lemma TableRulesBounded(ts: seq<Transaction>, order: seq<Item>, minSupport: real)
    requires IsValueCountsOrder(order, ts)
    ensures |ts| > 0 || order == []
    ensures forall a, c ::
      a in FrequentTable(ts, order, minSupport) && c in FrequentTable(ts, order, minSupport) && IsRule(a.key, c.key) ==>
        && (c.support != 0.0 ==> 0.0 <= Confidence(a.support, c.support) <= 100.0)
        && TokenSet(c.key) < TokenSet(a.key) && TokenSet(c.key) != {}
  {
    ValueCountsOrderNeedsTransactions(order, ts);
    var table := FrequentTable(ts, order, minSupport);
    FrequentTableSupport(ts, order, minSupport);
    forall a, c | a in table && c in table && IsRule(a.key, c.key)
      ensures c.support != 0.0 ==> 0.0 <= Confidence(a.support, c.support) <= 100.0
      ensures TokenSet(c.key) < TokenSet(a.key) && TokenSet(c.key) != {}
    {
      if c.support != 0.0 {
        RuleConfidenceBounded(a, c, ts);
      }
      RuleIsProperSubset(ts, order, minSupport, a, c);
    }
  }

  /** The reported rules are exactly the rules between rows of the table whose
      confidence is at or above min_confidence; each has a confidence of at
      most 100 and goes to a non-empty proper subset of its antecedent. */
  lemma MinedRulesMembers(ts: seq<Transaction>, order: seq<Item>, minSupport: real, minConfidence: real)
    requires IsValueCountsOrder(order, ts) && (|ts| > 0 || order == [])
    requires !HasZeroDivisor(FrequentTable(ts, order, minSupport))
    ensures forall r :: r in MinedRules(ts, order, minSupport, minConfidence) <==>
      && r.confidence >= minConfidence
      && exists a, c :: a in FrequentTable(ts, order, minSupport) && c in FrequentTable(ts, order, minSupport)
           && IsRule(a.key, c.key) && r == RuleOf(a, c)
    ensures forall r :: r in MinedRules(ts, order, minSupport, minConfidence) ==>
      && 0.0 <= r.confidence <= 100.0
      && TokenSet(r.consequent) < TokenSet(r.antecedent) && TokenSet(r.consequent) != {}
  {
    var table := FrequentTable(ts, order, minSupport);
    CandidateRulesMembers(table);
    FilterByConfidenceMembers(CandidateRules(table), minConfidence);
    TableRulesBounded(ts, order, minSupport);
  }

  /** The miner itself: the rule table and the frequent-itemset table for the
      records, given the order in which the value counts list the items, or
      the division by zero that aborts it. */
  method BruteForceAssociation(records: seq<string>, order: seq<Item>, minSupport: real, minConfidence: real)
    returns (result: Outcome<(seq<Rule>, seq<Row>)>)
    requires IsValueCountsOrder(order, ParseRows(records))
    ensures |records| > 0 || order == []
    ensures result.ZeroDivisionError? <==> HasZeroDivisor(FrequentTable(ParseRows(records), order, minSupport))
    ensures minSupport > 0.0 ==> result.Ok?
    ensures result.Ok? ==>
      && !HasZeroDivisor(FrequentTable(ParseRows(records), order, minSupport))
      && result.value.1 == FrequentTable(ParseRows(records), order, minSupport)
      && result.value.0 == MinedRules(ParseRows(records), order, minSupport, minConfidence)
    ensures result.Ok? ==> DistinctKeys(result.value.1)
    ensures result.Ok? ==> forall i, j :: 0 <= i < j < |result.value.1| ==>
      TokenSet(result.value.1[i].key) != TokenSet(result.value.1[j].key)
    ensures result.Ok? ==> forall r :: r in result.value.1 ==> r.support >= minSupport
    ensures result.Ok? ==> forall r :: r in result.value.0 <==>
      && r.confidence >= minConfidence
      && exists a, c :: a in result.value.1 && c in result.value.1 && IsRule(a.key, c.key) && r == RuleOf(a, c)
    ensures result.Ok? ==> forall r :: r in result.value.0 ==>
      && 0.0 <= r.confidence <= 100.0
      && TokenSet(r.consequent) < TokenSet(r.antecedent) && TokenSet(r.consequent) != {}
  {
    var ts := ParseRows(records);
    var n := |ts|;
    ValueCountsOrderNeedsTransactions(order, ts);
    var freqItems := FrequentItems(ts, order, minSupport);
    FrequentItemsMembers(ts, order, minSupport);
    DistinctSubseq(freqItems, order);
    assert order == [] ==> freqItems == [];
    var freqRows := SingleRows(ts, freqItems);

    var potential := GenerateItemsets(freqItems);
    var valid := WithLengthAbove(potential, 1);
    assert valid == Candidates(freqItems);
    CandidatesMembers(freqItems);
    var keys, counts := CountCandidates(valid, ts);
    assert freqItems == [] ==> valid == [];
    var itemsetRows := DictionaryRows(keys, counts, n);
    if n > 0 {
      DictionaryRowsOfCounts(keys, counts, ts);
    }
    var frequent := freqRows + AtLeastSupport(itemsetRows, minSupport);
    assert frequent == FrequentTable(ts, order, minSupport);

    FrequentTableDistinctKeys(ts, order, minSupport);
    FrequentTableDistinctItemSets(ts, order, minSupport);
    FrequentTableSupport(ts, order, minSupport);
    if minSupport > 0.0 {
      PositiveSupportNoZeroDivisor(ts, order, minSupport);
    }
    var candidateRules := GenerateRules(frequent);
    if candidateRules.ZeroDivisionError? {
      return ZeroDivisionError;
    }
    var rules := FilterByConfidence(candidateRules.value, minConfidence);
    MinedRulesMembers(ts, order, minSupport, minConfidence);
    result := Ok((rules, frequent));
  }
}
