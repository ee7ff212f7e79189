# Brute-force association miner, modelled in Dafny

This project models the brute-force association-rule miner of
`Mohammed_Sameer_Khan_Midterm_Project.py`: `generate_itemsets` and
`brute_force_association`. It proves properties of that model. The miner runs
in five stages:

1. **Parsing.** Each record's item field is split on `", "` into a
   transaction (module `Transactions`).
2. **Single items.** Every item token of every transaction is counted. The
   items whose count reaches `(min_support / 100) * N` are kept as size-one
   rows, each with its support `100 * count / N` (module `SingleItems`).
3. **Power set.** The frequent items are expanded into their power set without
   the empty set, and only the lists of two or more items are kept (module
   `Itemsets`).
4. **Containment counting.** Each candidate gets the number of transactions
   that hold all its items and its support. The candidates at or above
   min_support are kept after the single-item rows (module `Occurrences`).
5. **Rules.** Every ordered pair of rows whose second itemset is a subset of
   the first, and differs from it, becomes a rule. Its confidence is
   `100 * support(antecedent) / support(consequent)` and its support is the
   antecedent's. Rules below min_confidence are dropped (module `Rules`).

Module `Tables` holds the shared types: items, keys, rows, sub-sequences.
Module `Miner` composes the stages, as `BruteForceAssociation`, and proves the
end-to-end properties. Module `MinerExample` works through two small inputs.

Decisions the model makes, in the source's terms:

- **Keys.** The frequent-itemset table keys a single item by the bare string
  and a generated itemset by the tuple of its items. The model keeps the two
  apart as `Key = Single(item) | Multi(items)`.
- **`value_counts` order.** It lists items by non-increasing count, and pandas
  decides the order of ties. The order is therefore a parameter, `order`. The
  requirement `IsValueCountsOrder` says it lists every distinct item once, by
  non-increasing count.
- **Dictionaries.** `itemset_occurrences` and `association_dict` are modelled
  as a key sequence in insertion order plus a key-to-value `map`. This is what
  a Python `dict` keeps. The loops assign through the dict exactly as the source
  does.
- **Exact arithmetic.** Supports and confidences are exact `real`s.
- **Division by zero.** The supports read back from the table are plain Python
  floats, so a zero divisor at line 50 raises `ZeroDivisionError`. The model
  returns `ZeroDivisionError` in `Outcome` exactly when some rule pair has a
  consequent with support 0. `Miner.PositiveSupportNoZeroDivisor` proves this
  cannot happen when min_support > 0. `MinerExample.ExampleZeroSupportFails`
  shows that it does happen at min_support = 0: three one-item records give
  zero-count itemsets that are still kept.
- **No transactions.** With N = 0 there are no items, so both tables are empty
  and nothing is divided by N.

Where the code does something other than what its intent suggests, the model
follows the code:

- The size-one rows come out in `value_counts` order, not sorted by item name.
- Size-one frequencies count tokens. An item listed twice in one transaction
  is counted twice (`SingleItems.ItemCount`). Larger itemsets count
  transactions. `Occurrences.TxCountOfOneItem` proves the two agree when no
  transaction repeats an item.
- The code checks no parameters and raises no format or parameter errors.
  Its one failure on string records, at min_support ≤ 0, is the
  `ZeroDivisionError` above, which a caller with a positive min_support never
  meets.

In one place the model departs from the code on purpose. The rule condition at
line 49 applies Python's `set()` to a key; on a single-item key, a bare
string, that gives the set of its characters. The model compares every key as
its set of item tokens (`Rules.IsRule`), the evidently intended reading. The
as-written reading is `Rules.IsRuleAsWritten`. The two differ when an item
name does not have exactly one character: a longer name, or the empty name
that a leading or trailing ", " leaves. "## Findings" records the inputs.

## Model

| member | source | states |
|---|---|---|
| Transactions.Split | Mohammed_Sameer_Khan_Midterm_Project.py:15 | splitting on ", " always gives at least one piece, as Python's `split` does |
| Transactions.JoinSplit | Mohammed_Sameer_Khan_Midterm_Project.py:15 | re-joining the pieces with ", " restores the record, so the split loses nothing |
| Transactions.SplitPiecesHaveNoSeparator | Mohammed_Sameer_Khan_Midterm_Project.py:15 | no piece contains the separator |
| Transactions.SplitJoin | Mohammed_Sameer_Khan_Midterm_Project.py:15 | separator-free pieces joined with ", " split back into exactly those pieces |
| Transactions.ParseRowsRoundTrip | Mohammed_Sameer_Khan_Midterm_Project.py:15 | `Transactions.ParseRows` gives one transaction per record, which re-joins to that record and has no piece holding the separator |
| SingleItems.FlattenMembers | Mohammed_Sameer_Khan_Midterm_Project.py:18 | in `SingleItems.Flatten`, the item list, an item is in the item list exactly when some transaction lists it |
| SingleItems.ItemCountSums | Mohammed_Sameer_Khan_Midterm_Project.py:18-19 | `SingleItems.ItemCount`, the value count, is the sum over the transactions of how often each lists the item, starting from 0 |
| SingleItems.ItemIsFrequentIffSupport | Mohammed_Sameer_Khan_Midterm_Project.py:22-24 | the filter count >= (min_support/100)*N holds exactly when the reported support 100*count/N is >= min_support (inclusive) |
| SingleItems.ThresholdMonotone | Mohammed_Sameer_Khan_Midterm_Project.py:22 | a count passing a threshold passes every lower threshold |
| SingleItems.FrequentItemsMembers | Mohammed_Sameer_Khan_Midterm_Project.py:19-22 | in `SingleItems.FrequentItems`, an item is kept exactly when value_counts lists it and its count passes the filter; the kept items keep the value-count order |
| SingleItems.FrequentItemsMonotone | Mohammed_Sameer_Khan_Midterm_Project.py:22 | the items kept at a higher min_support are an order-keeping sub-list of those kept at a lower one |
| SingleItems.SingleRowsMembers | Mohammed_Sameer_Khan_Midterm_Project.py:22-24 | the size-one rows are exactly the kept items, each with its value count and support |
| Itemsets.PowerSeq | Mohammed_Sameer_Khan_Midterm_Project.py:7-10 | the list grown by the loop has 2^k entries for k items |
| Itemsets.GenerateItemsets | Mohammed_Sameer_Khan_Midterm_Project.py:6-11 | the loop returns 2^k - 1 lists: exactly the non-empty order-keeping sub-lists of the items, all distinct when the items are |
| Itemsets.PowerSeqShape | Mohammed_Sameer_Khan_Midterm_Project.py:7-11 | the grown list starts with the empty list and has no other empty entry, so dropping the first leaves only non-empty lists |
| Itemsets.PowerSeqMembers | Mohammed_Sameer_Khan_Midterm_Project.py:7-10 | a list is grown exactly when it is an order-keeping sub-list of the items |
| Itemsets.PowerSeqDistinct | Mohammed_Sameer_Khan_Midterm_Project.py:7-10 | over distinct items no list is grown twice |
| Itemsets.PowerSeqLengthCounts | Mohammed_Sameer_Khan_Midterm_Project.py:9-11 | the power set has 2^k - 1 non-empty lists and 2^k - k - 1 lists of length at least 2 |
| Itemsets.WithLengthAboveMembers | Mohammed_Sameer_Khan_Midterm_Project.py:28 | the length filter keeps exactly the lists longer than the bound, in order |
| Itemsets.CandidatesCount | Mohammed_Sameer_Khan_Midterm_Project.py:27-28 | k frequent items give 2^k - k - 1 candidates |
| Itemsets.CandidatesMembers | Mohammed_Sameer_Khan_Midterm_Project.py:27-28 | the candidates are exactly the order-keeping sub-lists of at least two frequent items, without repetition |
| Occurrences.TxCount | Mohammed_Sameer_Khan_Midterm_Project.py:33 | a candidate's count is at most N |
| Occurrences.TxCountAntitone | Mohammed_Sameer_Khan_Midterm_Project.py:33 | a superset is contained in no more transactions than its subset |
| Occurrences.TxCountOfOneItem | Mohammed_Sameer_Khan_Midterm_Project.py:19 | the transactions holding an item number at most its value count, and exactly that many when no transaction repeats an item |
| Occurrences.CountCandidates | Mohammed_Sameer_Khan_Midterm_Project.py:31-34 | the dictionary maps each candidate to the number of transactions containing all its items; its keys are the candidates in order |
| Occurrences.DictionaryRowsOfCounts | Mohammed_Sameer_Khan_Midterm_Project.py:36-37 | `Occurrences.DictionaryRows`, the table built from the count dictionary, gives each key, in dictionary order, the row with its transaction count and support |
| Occurrences.MultiRowsMembers | Mohammed_Sameer_Khan_Midterm_Project.py:36-37 | the itemset rows are exactly the candidates, each with its count and support |
| Occurrences.AtLeastSupportMembers | Mohammed_Sameer_Khan_Midterm_Project.py:40 | the support filter keeps exactly the rows with support >= min_support (inclusive), in order |
| Rules.RuleFrameAppend | Mohammed_Sameer_Khan_Midterm_Project.py:51-55 | adding one dict entry and one support value adds one rule, with its own support, at the end of the rule table |
| Rules.GenerateRules | Mohammed_Sameer_Khan_Midterm_Project.py:43-55 | the nested loop fails exactly when some rule pair divides by a zero support; otherwise it yields the rules of all pairs in nested-loop order, each with the antecedent's support |
| Rules.AddRulesFor | Mohammed_Sameer_Khan_Midterm_Project.py:48-52 | one pass of the inner loop for one antecedent fails exactly when some consequent of a rule divides by a zero support; otherwise it adds that antecedent's rules to the dictionary and support list, in order, and every new dictionary key pairs that antecedent with the key of a row of the table |
| Rules.RulesForMembers | Mohammed_Sameer_Khan_Midterm_Project.py:48-52 | the inner loop adds a rule exactly for each consequent satisfying the rule condition |
| Rules.RulesOverMembers | Mohammed_Sameer_Khan_Midterm_Project.py:47-52 | the outer loop's rules are exactly those of the qualifying (antecedent, consequent) pairs |
| Rules.CandidateRulesMembers | Mohammed_Sameer_Khan_Midterm_Project.py:47-52 | a rule is generated exactly when it comes from a pair of table rows whose consequent's items are among the antecedent's and whose keys differ |
| Rules.FilterByConfidenceMembers | Mohammed_Sameer_Khan_Midterm_Project.py:56 | the confidence filter keeps exactly the rules with confidence >= min_confidence, unchanged and in order |
| Rules.AsWrittenMissesSingleConsequent | Mohammed_Sameer_Khan_Midterm_Project.py:49 | under `Rules.IsRuleAsWritten`, the condition as written, ("Milk", "Bread") => "Milk" is not a rule although "Milk" is among the antecedent's items |
| Rules.AsWrittenRelatesTwoSingles | Mohammed_Sameer_Khan_Midterm_Project.py:49 | as written, "ab" => "a" is a rule although the two are unrelated items |
| Rules.AsWrittenRelatesEmptyItem | Mohammed_Sameer_Khan_Midterm_Project.py:49 | as written, the empty item name is a consequent of the single item "A", because its Python set is empty; under the token-set reading it is not |
| Rules.AsWrittenRelatesItemsToName | Mohammed_Sameer_Khan_Midterm_Project.py:49 | as written, ("a", "b") => "ab" is a rule, because the Python set of "ab" is its characters; under the token-set reading it is not |
| Rules.AsWrittenRelatesNameToItems | Mohammed_Sameer_Khan_Midterm_Project.py:49 | as written, "AB" => ("A", "B") is a rule, because the Python set of "AB" holds both items; under the token-set reading it is not |
| Rules.ReadingsAgreeOnOneCharacterItems | Mohammed_Sameer_Khan_Midterm_Project.py:49 | with one-character item names the as-written condition `Rules.IsRuleAsWritten` and the token-set condition `Rules.IsRule` agree in both directions |
| Miner.FrequentTableMembers | Mohammed_Sameer_Khan_Midterm_Project.py:22-40 | a row is in `Miner.FrequentTable`, the concatenated table of line 40, exactly when it is a kept single item, or a sub-list of at least two frequent items whose support reaches min_support, with its count and support |
| Miner.FrequentTableSupport | Mohammed_Sameer_Khan_Midterm_Project.py:22-40 | every row of the table carries its own count and support, and its support is >= min_support |
| Miner.FrequentTableDistinctKeys | Mohammed_Sameer_Khan_Midterm_Project.py:40-43 | no itemset appears twice in the table, so the support dict has the table's rows in its order |
| Miner.FrequentTableDistinctItemSets | Mohammed_Sameer_Khan_Midterm_Project.py:22-40 | no two rows of the table hold the same set of items, whatever their order |
| Miner.FrequentTableMonotone | Mohammed_Sameer_Khan_Midterm_Project.py:22-40 | raising min_support never adds a row to the table |
| Miner.SingleItemHasNoConsequent | Mohammed_Sameer_Khan_Midterm_Project.py:49 | under the token-set reading a single item is the antecedent of no rule |
| Miner.RuleSupportOrdered | Mohammed_Sameer_Khan_Midterm_Project.py:49-50 | a rule's antecedent has no larger count or support than its consequent |
| Miner.RuleConfidenceBounded | Mohammed_Sameer_Khan_Midterm_Project.py:50 | a rule's confidence, `Rules.Confidence` = (support of the antecedent / support of the consequent) * 100, lies between 0 and 100 |
| Miner.SubseqDeterminedByItems | Mohammed_Sameer_Khan_Midterm_Project.py:27-28 | two candidates with the same items are the same candidate |
| Miner.DrawnRuleIsProperSubset | Mohammed_Sameer_Khan_Midterm_Project.py:49 | between keys the table can hold, a rule goes to a non-empty proper subset of the antecedent's items |
| Miner.RuleIsProperSubset | Mohammed_Sameer_Khan_Midterm_Project.py:49 | every rule of the table goes from an itemset to a non-empty proper subset of its items |
| Miner.PositiveSupportNoZeroDivisor | Mohammed_Sameer_Khan_Midterm_Project.py:50 | with min_support > 0 no rule pair divides by zero |
| Miner.TableRulesBounded | Mohammed_Sameer_Khan_Midterm_Project.py:47-50 | every rule pair of the table goes to a non-empty proper subset and, when it divides by a non-zero support, has confidence in [0, 100] |
| Miner.MinedRulesMembers | Mohammed_Sameer_Khan_Midterm_Project.py:43-56 | the rules of `Miner.MinedRules`, the reported table, are exactly the rule pairs of the table with confidence >= min_confidence; each has confidence in [0, 100] and a non-empty proper-subset consequent |
| Miner.BruteForceAssociation | Mohammed_Sameer_Khan_Midterm_Project.py:14-58 | the miner fails exactly when a rule divides by zero, never when min_support > 0; otherwise it returns the frequent table, in which no two rows hold the same set of items, and its rules, with every property above |
| MinerExample.ExampleParse | Mohammed_Sameer_Khan_Midterm_Project.py:15 | the records "A, B", "A, B, C", "A", "B, C" split into their items |
| MinerExample.ExampleRuleIsMined | Mohammed_Sameer_Khan_Midterm_Project.py:14-58 | on those records at 50% / 50%, {A, B} => A is reported with confidence 200/3 and support 50 |
| MinerExample.ExampleZeroSupportFails | Mohammed_Sameer_Khan_Midterm_Project.py:40-50 | on records "A", "B", "C" at 0% support the table holds zero-support itemsets and a rule pair divides by zero |

## Left out

- `apriori_algorithm` and `fpgrowth_algorithm` (lines 62-77): they call mlxtend, whose code is not part of this model.
- `display_manual_rules` and `display_algorithmic_rules` (lines 80-87): console output only.
- The menu loop, `input()` parsing, URL construction and the `pd.read_csv` download (lines 90-133): I/O. The records arrive as a parameter.
- `timeit` measurements (lines 129-131): instrumentation.
- pandas `value_counts` tie order: a parameter of the model, constrained by `IsValueCountsOrder`.
- Float rounding of supports and confidences: the model uses exact reals, so the inclusive comparisons are stated and proved exactly.
- Missing values in the item column: pandas splits them to NaN, and iterating that value at line 18 raises `TypeError`. The model takes every record as a string.
- DataFrame mechanics (`reset_index`, `concat`, column naming) are modelled as the sequences of rows they produce.
- Rules.GenerateRules: the rule condition is the token-set reading (`Rules.IsRule`), not Python's `set()` of a bare item string at line 49; so the rules generated, and whether the loop fails on a zero divisor, can differ from the code when an item name does not have exactly one character (a longer name, or the empty name) (see "## Findings").
- Rules.AddRulesFor: the inner loop tests the token-set reading of line 49, not the as-written one, so the rules it adds, and whether it fails on a zero divisor, can differ from the code when an item name does not have exactly one character (a longer name, or the empty name).
- Miner.BruteForceAssociation: the rule condition is the token-set reading of line 49, not the as-written one, so its rule table can differ from the code's when an item name does not have exactly one character (a longer name, or the empty name), as under "## Findings".
- Miner.BruteForceAssociation: does not model the partially built rule dictionary at the moment the division fails; it reports only that the query failed.

## Findings

| source | as written | input that shows it | evidently intended | confidence | as-written member | corrected member |
|---|---|---|---|---|---|---|
| Mohammed_Sameer_Khan_Midterm_Project.py:49 | `set(consequent)` and `set(antecedent)` on a single-item key, a bare string, give its set of characters, not the one-item set | antecedent ("Milk", "Bread"), consequent "Milk": no rule; antecedent "ab", consequent "a": a rule; antecedent "A", consequent "" (from the record "A, "): a rule; antecedent ("a", "b"), consequent "ab": a rule; antecedent "AB", consequent ("A", "B"): a rule | every key is compared as its set of item tokens, so a rule goes from an itemset to a proper subset of it | not executed | Rules.AsWrittenMissesSingleConsequent, Rules.AsWrittenRelatesTwoSingles, Rules.AsWrittenRelatesEmptyItem, Rules.AsWrittenRelatesItemsToName, Rules.AsWrittenRelatesNameToItems (on Rules.IsRuleAsWritten) | Miner.RuleIsProperSubset (on Rules.IsRule, used by the rest of the model) |
