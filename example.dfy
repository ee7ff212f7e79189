/** A worked example, the four transactions [A, B], [A, B, C], [A] and [B, C]
    at 50% support and 50% confidence, taken through the model: A and B occur three times, C twice, {A, B} in two of the four
    transactions, and the rule from {A, B} to A has confidence 100 * 50 / 75. */
module MinerExample {
  import opened Tables
  import opened Transactions
  import opened SingleItems
  import opened Occurrences
  import opened Rules
  import opened Miner

  const RECORDS: seq<string> := ["A, B", "A, B, C", "A", "B, C"]
  const ORDER: seq<Item> := ["A", "B", "C"]

  /** The records split into the transactions [A, B], [A, B, C], [A], [B, C]. */
  lemma ExampleParse()
    ensures ParseRows(RECORDS) == [["A", "B"], ["A", "B", "C"], ["A"], ["B", "C"]]
  {
    SplitSinglePiece("A");
    SplitSinglePiece("B");
    SplitSinglePiece("C");
    assert "A, B" == "A" + SEPARATOR + "B";
    SplitAfterPiece("A", "B");
    assert Split("A, B") == ["A", "B"];
    assert "B, C" == "B" + SEPARATOR + "C";
    SplitAfterPiece("B", "C");
    assert Split("B, C") == ["B", "C"];
    assert "A, B, C" == "A" + SEPARATOR + "B, C";
    SplitAfterPiece("A", "B, C");
    assert Split("A, B, C") == ["A", "B", "C"];
    var ts := ParseRows(RECORDS);
    assert RECORDS[0] == "A, B" && RECORDS[1] == "A, B, C" && RECORDS[2] == "A" && RECORDS[3] == "B, C";
    assert |ts| == 4;
    assert ts[0] == ["A", "B"] && ts[1] == ["A", "B", "C"];
    assert ts[2] == ["A"] && ts[3] == ["B", "C"];
  }

  /** The item list of the example. */
  lemma ExampleFlatten(ts: seq<Transaction>)
    requires ts == [["A", "B"], ["A", "B", "C"], ["A"], ["B", "C"]]
    ensures Flatten(ts) == ["A", "B", "A", "B", "C", "A", "B", "C"]
  {
    assert Flatten(ts[4..]) == [];
    assert Flatten(ts[3..]) == ["B", "C"] by { assert ts[3..][1..] == ts[4..]; }
    assert Flatten(ts[2..]) == ["A", "B", "C"] by { assert ts[2..][1..] == ts[3..]; }
    assert Flatten(ts[1..]) == ["A", "B", "C", "A", "B", "C"] by { assert ts[1..][1..] == ts[2..]; }
  }

  /** The value counts: A and B three times, C twice. */
  lemma ExampleItemCounts(ts: seq<Transaction>)
    requires ts == [["A", "B"], ["A", "B", "C"], ["A"], ["B", "C"]]
    ensures ItemCount(ts, "A") == 3 && ItemCount(ts, "B") == 3 && ItemCount(ts, "C") == 2
  {
    ExampleFlatten(ts);
    var a, b, c := "A", "B", "C";
    assert a != b && b != c && a != c by { assert a[0] != b[0] && b[0] != c[0] && a[0] != c[0]; }
    var f := Flatten(ts);
    assert multiset(f) == multiset{a, b, a, b, c, a, b, c};
  }

  /** The value counts list A, B, C in that order. */
  lemma ExampleCounts(ts: seq<Transaction>)
    requires ts == [["A", "B"], ["A", "B", "C"], ["A"], ["B", "C"]]
    ensures ItemCount(ts, "A") == 3 && ItemCount(ts, "B") == 3 && ItemCount(ts, "C") == 2
    ensures IsValueCountsOrder(ORDER, ts)
  {
    ExampleFlatten(ts);
    ExampleItemCounts(ts);
    assert forall x :: x in Flatten(ts) <==> x in ORDER;
    assert Distinct(ORDER);
  }

  /** All three items pass the 50% threshold. */
  lemma ExampleFrequentItems(ts: seq<Transaction>)
    requires ts == [["A", "B"], ["A", "B", "C"], ["A"], ["B", "C"]]
    ensures FrequentItems(ts, ORDER, 50.0) == ORDER
  {
    ExampleCounts(ts);
    assert ItemIsFrequent(3, 4, 50.0) && ItemIsFrequent(2, 4, 50.0);
    assert FrequentItems(ts, ["A"], 50.0) == ["A"] by { assert ["A"][..0] == []; }
    assert FrequentItems(ts, ["A", "B"], 50.0) == ["A", "B"] by { assert ["A", "B"][..1] == ["A"]; }
    assert ORDER[..2] == ["A", "B"];
  }

  /** {A, B} is contained in the first two transactions only. */
  lemma ExamplePairCount(ts: seq<Transaction>)
    requires ts == [["A", "B"], ["A", "B", "C"], ["A"], ["B", "C"]]
    ensures TxCount(["A", "B"], ts) == 2
  {
    var ab := ["A", "B"];
    assert TxCount(ab, ts[4..]) == 0;
    assert TxCount(ab, ts[3..]) == 0 by { assert ts[3..][1..] == ts[4..]; assert ab[0] !in ts[3]; }
    assert TxCount(ab, ts[2..]) == 0 by { assert ts[2..][1..] == ts[3..]; assert ab[1] !in ts[2]; }
    assert TxCount(ab, ts[1..]) == 1 by { assert ts[1..][1..] == ts[2..]; assert ContainsAll(ts[1], ab); }
    assert ContainsAll(ts[0], ab);
  }

  /** Both rows of the rule are frequent at 50%: {A, B} with count 2 and
      support 50, A with count 3 and support 75. */
  lemma ExampleRows(ts: seq<Transaction>)
    requires ts == [["A", "B"], ["A", "B", "C"], ["A"], ["B", "C"]]
    ensures IsValueCountsOrder(ORDER, ts)
    ensures Row(Multi(["A", "B"]), 2, 50.0) in FrequentTable(ts, ORDER, 50.0)
    ensures Row(Single("A"), 3, 75.0) in FrequentTable(ts, ORDER, 50.0)
  {
    ExampleCounts(ts);
    ExampleFrequentItems(ts);
    ExamplePairCount(ts);
    RowsOfFourTransactions(ts);
  }

  /** In four transactions where A occurs three times, {A, B} is contained in
      two, and every item passes 50%, the two rows are in the table. */
  lemma RowsOfFourTransactions(ts: seq<Transaction>)
    requires IsValueCountsOrder(ORDER, ts) && |ts| == 4
    requires ItemCount(ts, "A") == 3 && TxCount(["A", "B"], ts) == 2
    requires FrequentItems(ts, ORDER, 50.0) == ORDER
    ensures Row(Multi(["A", "B"]), 2, 50.0) in FrequentTable(ts, ORDER, 50.0)
    ensures Row(Single("A"), 3, 75.0) in FrequentTable(ts, ORDER, 50.0)
  {
    var ab, a := MultiRow(ts, ["A", "B"]), SingleRow(ts, "A");
    assert ab == Row(Multi(["A", "B"]), 2, 50.0);
    assert a == Row(Single("A"), 3, 75.0);
    OrderSubseqs();
    FrequentTableMembers(ts, ORDER, 50.0);
    assert Qualifies(ab, ts, ORDER, 50.0);
    assert Qualifies(a, ts, ORDER, 50.0);
  }

  /** At 50% support and 50% confidence the rule {A, B} => A is reported,
      with confidence 200 / 3 (66.67%) and the support 50 of {A, B}. */
  lemma ExampleRuleIsMined()
    ensures IsValueCountsOrder(ORDER, ParseRows(RECORDS)) && |ParseRows(RECORDS)| == 4
    ensures !HasZeroDivisor(FrequentTable(ParseRows(RECORDS), ORDER, 50.0))
    ensures Rule(Multi(["A", "B"]), Single("A"), 200.0 / 3.0, 50.0)
      in MinedRules(ParseRows(RECORDS), ORDER, 50.0, 50.0)
  {
    ExampleParse();
    var ts := ParseRows(RECORDS);
    ExampleRows(ts);
    var ab, a := Row(Multi(["A", "B"]), 2, 50.0), Row(Single("A"), 3, 75.0);
    assert IsRule(ab.key, a.key) by {
      assert TokenSet(a.key) == {"A"};
      assert "A" in TokenSet(ab.key);
    }
    PositiveSupportNoZeroDivisor(ts, ORDER, 50.0);
    assert RuleOf(ab, a) == Rule(Multi(["A", "B"]), Single("A"), 200.0 / 3.0, 50.0);
    MinedRulesMembers(ts, ORDER, 50.0, 50.0);
  }

  /** Three one-item records. */
  lemma ThreeRecordsParse()
    ensures ParseRows(["A", "B", "C"]) == [["A"], ["B"], ["C"]]
  {
    SplitSinglePiece("A");
    SplitSinglePiece("B");
    SplitSinglePiece("C");
  }

  /** The item list of the three records. */
  lemma ThreeRecordsFlatten(ts: seq<Transaction>)
    requires ts == [["A"], ["B"], ["C"]]
    ensures Flatten(ts) == ORDER
  {
    assert Flatten(ts[3..]) == [];
    assert Flatten(ts[2..]) == ["C"] by { assert ts[2..][1..] == ts[3..]; }
    assert Flatten(ts[1..]) == ["B", "C"] by { assert ts[1..][1..] == ts[2..]; }
  }

  /** Each of the three items occurs once. */
  lemma ThreeRecordsCounts(ts: seq<Transaction>)
    requires ts == [["A"], ["B"], ["C"]]
    ensures ItemCount(ts, "A") == 1 && ItemCount(ts, "B") == 1 && ItemCount(ts, "C") == 1
    ensures IsValueCountsOrder(ORDER, ts)
  {
    ThreeRecordsFlatten(ts);
    var m := multiset(Flatten(ts));
    assert m == multiset{"A", "B", "C"};
    assert forall x :: x in Flatten(ts) <==> x in ORDER;
  }

  /** All three items pass a 0% threshold. */
  lemma ThreeRecordsItems(ts: seq<Transaction>)
    requires ts == [["A"], ["B"], ["C"]]
    ensures IsValueCountsOrder(ORDER, ts)
    ensures FrequentItems(ts, ORDER, 0.0) == ORDER
  {
    ThreeRecordsCounts(ts);
    assert ItemIsFrequent(1, 3, 0.0);
    assert FrequentItems(ts, ["A"], 0.0) == ["A"] by { assert ["A"][..0] == []; }
    assert FrequentItems(ts, ["A", "B"], 0.0) == ["A", "B"] by { assert ["A", "B"][..1] == ["A"]; }
    assert ORDER[..2] == ["A", "B"];
  }

  /** {A, B} and {A, B, C} keep the order of the items. */
  lemma OrderSubseqs()
    ensures IsSubseq(["A", "B"], ORDER) && IsSubseq(["A", "B", "C"], ORDER)
  {
    assert ORDER[..2] == ["A", "B"];
    SubseqReflexive(["A", "B"]);
    SubseqReflexive(ORDER);
  }

  /** At 0% support the table holds {A, B, C} and {A, B}, both with count 0. */
  lemma ThreeRecordsRows(ts: seq<Transaction>)
    requires ts == [["A"], ["B"], ["C"]]
    ensures IsValueCountsOrder(ORDER, ts)
    ensures Row(Multi(["A", "B", "C"]), 0, 0.0) in FrequentTable(ts, ORDER, 0.0)
    ensures Row(Multi(["A", "B"]), 0, 0.0) in FrequentTable(ts, ORDER, 0.0)
  {
    ThreeRecordsItems(ts);
    OrderSubseqs();
    PairNeverTogether(ts);
    var big, small := MultiRow(ts, ["A", "B", "C"]), MultiRow(ts, ["A", "B"]);
    assert big == Row(Multi(["A", "B", "C"]), 0, 0.0);
    assert small == Row(Multi(["A", "B"]), 0, 0.0);
    FrequentTableMembers(ts, ORDER, 0.0);
    assert Qualifies(big, ts, ORDER, 0.0);
    assert Qualifies(small, ts, ORDER, 0.0);
  }

  /** Three one-item records mined at 0% support: every two- and three-item
      combination is kept with count 0 and support 0, so the rule from
      {A, B, C} to {A, B} divides 0 by 0 and the rule stage fails. */
  lemma ExampleZeroSupportFails()
    ensures IsValueCountsOrder(ORDER, ParseRows(["A", "B", "C"])) && |ParseRows(["A", "B", "C"])| == 3
    ensures HasZeroDivisor(FrequentTable(ParseRows(["A", "B", "C"]), ORDER, 0.0))
  {
    ThreeRecordsParse();
    var ts := ParseRows(["A", "B", "C"]);
    ThreeRecordsRows(ts);
    var table := FrequentTable(ts, ORDER, 0.0);
    var big, small := Row(Multi(["A", "B", "C"]), 0, 0.0), Row(Multi(["A", "B"]), 0, 0.0);
    var i :| 0 <= i < |table| && table[i] == big;
    var j :| 0 <= j < |table| && table[j] == small;
    assert TokenSet(small.key) <= TokenSet(big.key);
    assert DividesByZero(table[i], table[j]);
  }

  /** No transaction of three one-item records holds both A and B, let alone
      A, B and C. */
  lemma PairNeverTogether(ts: seq<Transaction>)
    requires ts == [["A"], ["B"], ["C"]]
    ensures TxCount(["A", "B"], ts) == 0 && TxCount(["A", "B", "C"], ts) == 0
  {
    TxCountAntitone(["A", "B"], ["A", "B", "C"], ts);
    var ab := ["A", "B"];
    assert TxCount(ab, ts[3..]) == 0;
    assert TxCount(ab, ts[2..]) == 0 by { assert ts[2..][1..] == ts[3..]; assert ab[0] !in ts[2]; }
    assert TxCount(ab, ts[1..]) == 0 by { assert ts[1..][1..] == ts[2..]; assert ab[0] !in ts[1]; }
    assert ab[1] !in ts[0];
  }
}
