/** The rule generator: every ordered pair of rows of the frequent-itemset table
    whose second itemset is a subset of the first, and different from it,
    becomes a rule with confidence 100 * support(antecedent) / support(consequent)
    and the antecedent's support; the rules are then filtered by confidence. */
module Rules {
  import opened Tables

  /** The outcome of the rule stage: its result, or the division by a zero
      support that aborts it. */
  datatype Outcome<T> = Ok(value: T) | ZeroDivisionError

  /** (supA / supC) * 100, defined for a non-zero divisor only. */
  function Confidence(supA: real, supC: real): real
    requires supC != 0.0
  {
    (supA / supC) * 100.0
  }

  /** The items of an itemset key, read as a set of item tokens. */
  function TokenSet(k: Key): set<Item>
  {
    match k
    case Single(x) => {x}
    case Multi(xs) => set x | x in xs
  }

  /** The rule condition: the consequent's items are among the antecedent's,
      and the two keys differ. Keys are compared as sets of item tokens; this is
      the intended reading of the subset test, not Python's `set()` of a bare
      item string, which gives its characters (`IsRuleAsWritten`). */
  predicate IsRule(antecedent: Key, consequent: Key)
  {
    TokenSet(consequent) <= TokenSet(antecedent) && antecedent != consequent
  }

  /** Python's `set(k)` for a key: a bare item string becomes the set of its
      one-character strings, a tuple the set of its items. */
  function PythonSet(k: Key): set<string>
  {
    match k
    case Single(x) => set i | 0 <= i < |x| :: [x[i]]
    case Multi(xs) => set x | x in xs
  }

  /** The rule condition as the source writes it, on Python sets of the keys. */
  predicate IsRuleAsWritten(antecedent: Key, consequent: Key)
  {
    PythonSet(consequent) <= PythonSet(antecedent) && antecedent != consequent
  }

  /** As written, ("Milk", "Bread") => "Milk" is no rule: the Python set of
      "Milk" is its characters, and the antecedent does not list them. */
  lemma AsWrittenMissesSingleConsequent()
    ensures IsRule(Multi(["Milk", "Bread"]), Single("Milk"))
    ensures !IsRuleAsWritten(Multi(["Milk", "Bread"]), Single("Milk"))
  {
    var c := PythonSet(Single("Milk"));
    assert ["Milk"[0]] in c;
    assert ["Milk"[0]] == "M";
    assert "M" !in PythonSet(Multi(["Milk", "Bread"]));
    assert "Milk" in TokenSet(Multi(["Milk", "Bread"]));
  }

  /** As written, one single item is a consequent of another whose name holds
      all its characters. */
  lemma AsWrittenRelatesTwoSingles()
    ensures IsRuleAsWritten(Single("ab"), Single("a"))
    ensures !IsRule(Single("ab"), Single("a"))
  {
    assert PythonSet(Single("a")) == {"a"};
    assert "a" == ["ab"[0]];
    assert "a" in PythonSet(Single("ab"));
  }

  /** As written, the empty item name, left by a leading or trailing separator,
      is a consequent of every other single item, because its Python set is
      empty. */
  lemma AsWrittenRelatesEmptyItem()
    ensures IsRuleAsWritten(Single("A"), Single(""))
    ensures !IsRule(Single("A"), Single(""))
  {
    assert PythonSet(Single("")) == {};
    assert "" !in TokenSet(Single("A"));
  }

  /** As written, ("a", "b") => "ab" is a rule: the Python set of "ab" is
      {"a", "b"}, which the antecedent lists, although "ab" is not one of its
      items. */
  lemma AsWrittenRelatesItemsToName()
    ensures IsRuleAsWritten(Multi(["a", "b"]), Single("ab"))
    ensures !IsRule(Multi(["a", "b"]), Single("ab"))
  {
    assert "ab"[0] == 'a' && "ab"[1] == 'b';
    assert PythonSet(Single("ab")) == {"a", "b"};
    assert "ab" !in TokenSet(Multi(["a", "b"]));
  }

  /** As written, "AB" => ("A", "B") is a rule: the Python set of "AB" is
      {"A", "B"}, which holds both items of the consequent. */
  lemma AsWrittenRelatesNameToItems()
    ensures IsRuleAsWritten(Single("AB"), Multi(["A", "B"]))
    ensures !IsRule(Single("AB"), Multi(["A", "B"]))
  {
    assert "AB"[0] == 'A' && "AB"[1] == 'B';
    assert PythonSet(Single("AB")) == {"A", "B"};
    assert "A" in TokenSet(Multi(["A", "B"]));
  }

  /** On one-character item names the two readings coincide. */
  lemma {:induction false} ReadingsAgreeOnOneCharacterItems(a: Key, c: Key)
    requires forall x :: x in TokenSet(a) + TokenSet(c) ==> |x| == 1
    ensures IsRule(a, c) <==> IsRuleAsWritten(a, c)
  {
    CharSetOfOneCharacter(a);
    CharSetOfOneCharacter(c);
  }

  lemma CharSetOfOneCharacter(k: Key)
    requires forall x :: x in TokenSet(k) ==> |x| == 1
    ensures PythonSet(k) == TokenSet(k)
  {
    if k.Single? {
      assert k.item in TokenSet(k);
      assert k.item == [k.item[0]];
    }
  }

  /** A rule: the ordered pair of keys, its confidence and its support. */
  datatype Rule = Rule(antecedent: Key, consequent: Key, confidence: real, support: real)

  /** A pair of rows that satisfies the rule condition but whose consequent has
      support 0, so that its confidence divides by zero. */
  predicate DividesByZero(a: Row, c: Row)
  {
    IsRule(a.key, c.key) && c.support == 0.0
  }

  /** Some pair of rows of the table divides by zero. */
  predicate HasZeroDivisor(table: seq<Row>)
  {
    exists i, j | 0 <= i < |table| && 0 <= j < |table| :: DividesByZero(table[i], table[j])
  }

  /** The rule an antecedent row and a consequent row make. */
  function RuleOf(a: Row, c: Row): Rule
    requires c.support != 0.0
  {
    Rule(a.key, c.key, Confidence(a.support, c.support), a.support)
  }

  /** The rules of antecedent `a` against consequents `cs`, in order: the inner loop. */
  function RulesFor(a: Row, cs: seq<Row>): seq<Rule>
    requires forall j :: 0 <= j < |cs| ==> !DividesByZero(a, cs[j])
    decreases |cs|
  {
    if cs == [] then []
    else
      var c := cs[|cs| - 1];
      assert !DividesByZero(a, cs[|cs| - 1]);
      RulesFor(a, cs[..|cs| - 1]) + (if IsRule(a.key, c.key) then [RuleOf(a, c)] else [])
  }

  /** The rules of antecedents `as` against the whole table: the outer loop. */
  function RulesOver(antecedents: seq<Row>, table: seq<Row>): seq<Rule>
    requires forall i, j :: 0 <= i < |antecedents| && 0 <= j < |table| ==> !DividesByZero(antecedents[i], table[j])
    decreases |antecedents|
  {
    if antecedents == [] then []
    else RulesOver(antecedents[..|antecedents| - 1], table) + RulesFor(antecedents[|antecedents| - 1], table)
  }

  /** Every rule of the table, in nested-loop order, before the confidence filter. */
  function CandidateRules(table: seq<Row>): seq<Rule>
    requires !HasZeroDivisor(table)
  {
    RulesOver(table, table)
  }

  /** The rule table built from the rule dictionary and the support list, which
      the loop fills side by side. */
  function RuleFrame(keys: seq<(Key, Key)>, confidence: map<(Key, Key), real>, supports: seq<real>): seq<Rule>
    requires |keys| == |supports|
    requires forall i :: 0 <= i < |keys| ==> keys[i] in confidence
  {
    seq(|keys|, i requires 0 <= i < |keys| =>
      Rule(keys[i].0, keys[i].1, confidence[keys[i]], supports[i]))
  }

  /** Adding one entry to the dictionary and the support list adds one rule at the end. */
  lemma RuleFrameAppend(keys: seq<(Key, Key)>, confidence: map<(Key, Key), real>, supports: seq<real>,
                        key: (Key, Key), conf: real, support: real)
    requires |keys| == |supports|
    requires forall i :: 0 <= i < |keys| ==> keys[i] in confidence
    requires key !in confidence
    ensures forall i :: 0 <= i < |keys| + 1 ==> (keys + [key])[i] in confidence[key := conf]
    ensures RuleFrame(keys + [key], confidence[key := conf], supports + [support])
         == RuleFrame(keys, confidence, supports) + [Rule(key.0, key.1, conf, support)]
  {
  }

  /** The inner loop for one antecedent: each consequent that satisfies the
      rule condition adds its confidence to the dictionary and the antecedent's
      support to the list, in step. It stops with `ok` false at the first
      consequent with support 0. The dictionary holds no key of this
      antecedent yet. */
  method AddRulesFor(antecedent: Row, table: seq<Row>,
                     keys: seq<(Key, Key)>, confidence: map<(Key, Key), real>, supports: seq<real>)
    returns (ok: bool, keys': seq<(Key, Key)>, confidence': map<(Key, Key), real>, supports': seq<real>)
    requires DistinctKeys(table)
    requires |keys| == |supports|
    requires forall k :: k in confidence <==> k in keys
    requires forall k :: k in confidence ==> k.0 != antecedent.key
    ensures ok <==> forall j :: 0 <= j < |table| ==> !DividesByZero(antecedent, table[j])
    ensures ok ==> |keys'| == |supports'|
    ensures ok ==> forall k :: k in confidence' <==> k in keys'
    ensures ok ==> forall k :: k in confidence' ==>
      k in confidence || (k.0 == antecedent.key && exists cj :: 0 <= cj < |table| && k.1 == table[cj].key)
    ensures ok ==>
      RuleFrame(keys', confidence', supports') == RuleFrame(keys, confidence, supports) + RulesFor(antecedent, table)
  {
    ok, keys', confidence', supports' := true, keys, confidence, supports;
    for j := 0 to |table|
      invariant |keys'| == |supports'|
      invariant forall k :: k in confidence' <==> k in keys'
      invariant forall k :: k in confidence' ==>
        k in confidence || (k.0 == antecedent.key && exists cj :: 0 <= cj < j && k.1 == table[cj].key)
      invariant forall cj :: 0 <= cj < j ==> !DividesByZero(antecedent, table[cj])
      invariant RuleFrame(keys', confidence', supports')
        == RuleFrame(keys, confidence, supports) + RulesFor(antecedent, table[..j])
    {
      var consequent := table[j];
      assert table[..j + 1][..j] == table[..j];
      if IsRule(antecedent.key, consequent.key) {
        if consequent.support == 0.0 {
          return false, keys', confidence', supports';
        }
        var key := (antecedent.key, consequent.key);
        var conf := Confidence(antecedent.support, consequent.support);
        assert key !in confidence';
        RuleFrameAppend(keys', confidence', supports', key, conf, antecedent.support);
        if key !in confidence' {
          keys' := keys' + [key];
        }
        confidence' := confidence'[key := conf];
        supports' := supports' + [antecedent.support];
      }
    }
    assert table[..|table|] == table;
  }

  /** The nested loop over antecedents and consequents, which stops at the
      first pair whose confidence divides by zero. The dictionary is held as
      its keys in insertion order and the key-to-confidence map; the result is
      the rule table they make with the support list. */
  method GenerateRules(table: seq<Row>) returns (result: Outcome<seq<Rule>>)
    requires DistinctKeys(table)
    ensures result.ZeroDivisionError? <==> HasZeroDivisor(table)
    ensures result.Ok? ==> !HasZeroDivisor(table) && result.value == CandidateRules(table)
  {
    var keys: seq<(Key, Key)>, confidence: map<(Key, Key), real>, supports: seq<real> := [], map[], [];
    for i := 0 to |table|
      invariant |keys| == |supports|
      invariant forall k :: k in confidence <==> k in keys
      invariant forall k :: k in confidence ==> exists ai :: 0 <= ai < i && k.0 == table[ai].key
      invariant forall ai, cj :: 0 <= ai < i && 0 <= cj < |table| ==> !DividesByZero(table[ai], table[cj])
      invariant RuleFrame(keys, confidence, supports) == RulesOver(table[..i], table)
    {
      var ok;
      ok, keys, confidence, supports := AddRulesFor(table[i], table, keys, confidence, supports);
      if !ok {
        return ZeroDivisionError;
      }
      assert table[..i + 1][..i] == table[..i];
      assert table[..i + 1][i] == table[i];
    }
    assert table[..|table|] == table;
    result := Ok(RuleFrame(keys, confidence, supports));
  }

  /** The confidence filter: the rules whose confidence reaches the threshold,
      each with its own support, in order. */
  function FilterByConfidence(rules: seq<Rule>, minConfidence: real): seq<Rule>
    decreases |rules|
  {
    if rules == [] then []
    else
      var last := rules[|rules| - 1];
      FilterByConfidence(rules[..|rules| - 1], minConfidence)
        + (if last.confidence >= minConfidence then [last] else [])
  }

  /** The filter keeps exactly the rules at or above the threshold, unchanged
      and in their relative order. */
  lemma {:induction false} FilterByConfidenceMembers(rules: seq<Rule>, minConfidence: real)
    ensures forall r :: r in FilterByConfidence(rules, minConfidence) <==>
      r in rules && r.confidence >= minConfidence
    ensures IsSubseq(FilterByConfidence(rules, minConfidence), rules)
    decreases |rules|
  {
    if rules != [] {
      var rules', last := rules[..|rules| - 1], rules[|rules| - 1];
      var prev := FilterByConfidence(rules', minConfidence);
      FilterByConfidenceMembers(rules', minConfidence);
      SubseqSnoc(prev, rules', last);
      assert rules == rules' + [last];
      if last.confidence >= minConfidence {
        assert FilterByConfidence(rules, minConfidence) == prev + [last];
      } else {
        assert FilterByConfidence(rules, minConfidence) == prev;
      }
    }
  }

  /** The inner loop's rules are exactly those the pairs of `a` with some
      consequent in `cs` make. */
  lemma {:induction false} RulesForMembers(a: Row, cs: seq<Row>)
    requires forall j :: 0 <= j < |cs| ==> !DividesByZero(a, cs[j])
    ensures forall r :: r in RulesFor(a, cs) <==>
      exists c :: c in cs && IsRule(a.key, c.key) && r == RuleOf(a, c)
    decreases |cs|
  {
    if cs != [] {
      var cs', c := cs[..|cs| - 1], cs[|cs| - 1];
      RulesForMembers(a, cs');
      assert cs == cs' + [c];
      forall r ensures r in RulesFor(a, cs) <==> exists c :: c in cs && IsRule(a.key, c.key) && r == RuleOf(a, c)
      {
        if exists d :: d in cs && IsRule(a.key, d.key) && r == RuleOf(a, d) {
          var d :| d in cs && IsRule(a.key, d.key) && r == RuleOf(a, d);
          if d != c {
            assert d in cs';
          }
        }
      }
    }
  }

  /** The outer loop's rules are exactly those of the pairs with antecedent in
      `as` and consequent in the table. */
  lemma {:induction false} RulesOverMembers(antecedents: seq<Row>, table: seq<Row>)
    requires forall i, j :: 0 <= i < |antecedents| && 0 <= j < |table| ==> !DividesByZero(antecedents[i], table[j])
    ensures forall r :: r in RulesOver(antecedents, table) <==>
      exists a, c :: a in antecedents && c in table && IsRule(a.key, c.key) && r == RuleOf(a, c)
    decreases |antecedents|
  {
    if antecedents != [] {
      var as', a := antecedents[..|antecedents| - 1], antecedents[|antecedents| - 1];
      RulesOverMembers(as', table);
      RulesForMembers(a, table);
      assert antecedents == as' + [a];
      forall r ensures r in RulesOver(antecedents, table) <==>
        exists a, c :: a in antecedents && c in table && IsRule(a.key, c.key) && r == RuleOf(a, c)
      {
        if exists b, c :: b in antecedents && c in table && IsRule(b.key, c.key) && r == RuleOf(b, c) {
          var b, c :| b in antecedents && c in table && IsRule(b.key, c.key) && r == RuleOf(b, c);
          if b != a {
            assert b in as';
          }
        }
      }
    }
  }

  /** Every rule comes from a pair of rows of the table that satisfies the rule
      condition, and every such pair gives a rule. */
  lemma CandidateRulesMembers(table: seq<Row>)
    requires !HasZeroDivisor(table)
    ensures forall r :: r in CandidateRules(table) <==>
      exists a, c :: a in table && c in table && IsRule(a.key, c.key) && r == RuleOf(a, c)
  {
    RulesOverMembers(table, table);
  }
}
