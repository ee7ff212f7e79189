/** The transaction store: each record's item field is split into its item
    tokens on the two-character separator ", ", with the semantics of Python's
    `str.split(sep)` (leftmost occurrences, empty pieces kept). */
module Transactions {
  import opened Tables

  const SEPARATOR: string := ", "

  /** The separator begins at position `i` of `s`. */
  predicate SeparatorAt(s: string, i: int)
  {
    0 <= i < |s| - 1 && s[i] == SEPARATOR[0] && s[i + 1] == SEPARATOR[1]
  }

  predicate ContainsSeparator(s: string)
  {
    exists i | 0 <= i < |s| - 1 :: SeparatorAt(s, i)
  }

  /** Splits `s` at every leftmost occurrence of the separator. Like Python's
      `split`, the result is never empty: "" splits into [""]. */
  function Split(s: string): (pieces: seq<string>)
    ensures |pieces| >= 1
    decreases |s|
  {
    if |s| < 2 then [s]
    else if s[..2] == SEPARATOR then [""] + Split(s[2..])
    else
      var rest := Split(s[1..]);
      [[s[0]] + rest[0]] + rest[1..]
  }

  /** Joins pieces with the separator in between (Python's `", ".join`). */
  function Join(pieces: seq<string>): string
    requires |pieces| >= 1
    decreases |pieces|
  {
    if |pieces| == 1 then pieces[0] else pieces[0] + SEPARATOR + Join(pieces[1..])
  }

  /** The transactions of the data set: one split record per row. */
  function ParseRows(rows: seq<string>): (ts: seq<Transaction>)
  {
    seq(|rows|, i requires 0 <= i < |rows| => Split(rows[i]))
  }

  /** Each transaction is its record split into item tokens: one transaction
      per record, which re-joins to that record and holds no separator. */
  lemma ParseRowsRoundTrip(rows: seq<string>)
    ensures |ParseRows(rows)| == |rows|
    ensures forall i :: 0 <= i < |rows| ==> Join(ParseRows(rows)[i]) == rows[i]
    ensures forall i, p :: 0 <= i < |rows| && p in ParseRows(rows)[i] ==> !ContainsSeparator(p)
  {
    forall i | 0 <= i < |rows|
      ensures Join(ParseRows(rows)[i]) == rows[i]
      ensures forall p :: p in ParseRows(rows)[i] ==> !ContainsSeparator(p)
    {
      JoinSplit(rows[i]);
      SplitPiecesHaveNoSeparator(rows[i]);
    }
  }

  /** Splitting loses nothing: joining the pieces restores the record. */
  lemma {:induction false} JoinSplit(s: string)
    ensures Join(Split(s)) == s
    decreases |s|
  {
    if |s| >= 2 {
      if s[..2] == SEPARATOR {
        JoinSplit(s[2..]);
        assert s == s[..2] + s[2..];
      } else {
        var rest := Split(s[1..]);
        JoinSplit(s[1..]);
        assert s == [s[0]] + s[1..];
        if |rest| > 1 {
          assert rest[1..][1..] == rest[2..];
        }
      }
    }
  }

  /** No piece of a split still holds the separator. */
  lemma {:induction false} SplitPiecesHaveNoSeparator(s: string)
    ensures forall p :: p in Split(s) ==> !ContainsSeparator(p)
    decreases |s|
  {
    if |s| < 2 {
    } else if s[..2] == SEPARATOR {
      SplitPiecesHaveNoSeparator(s[2..]);
    } else {
      var rest := Split(s[1..]);
      SplitPiecesHaveNoSeparator(s[1..]);
      JoinSplit(s[1..]);
      var head := [s[0]] + rest[0];
      assert rest[0] in rest;
      if |rest| > 1 {
        assert Join(rest) == rest[0] + SEPARATOR + Join(rest[1..]);
      }
      assert rest[0] == s[1..][..|rest[0]|];
      forall i | SeparatorAt(head, i)
        ensures false
      {
        if i > 0 {
          assert SeparatorAt(rest[0], i - 1);
        }
      }
      forall p | p in rest[1..] ensures !ContainsSeparator(p) {
        assert p in rest;
      }
    }
  }

  /** A record that starts with a separator-free piece followed by the separator
      splits into that piece and the split of the remainder. */
  lemma {:induction false} SplitAfterPiece(p: string, rest: string)
    requires !ContainsSeparator(p)
    ensures Split(p + SEPARATOR + rest) == [p] + Split(rest)
    decreases |p|
  {
    var s := p + SEPARATOR + rest;
    if p == [] {
      assert s[..2] == SEPARATOR && s[2..] == rest;
    } else {
      if |p| >= 2 {
        assert s[..2] == p[..2];
        assert !SeparatorAt(p, 0);
      } else {
        assert s[1] == SEPARATOR[0];
      }
      assert s[..2] != SEPARATOR;
      assert !ContainsSeparator(p[1..]) by {
        forall i | SeparatorAt(p[1..], i) ensures false {
          assert SeparatorAt(p, i + 1);
        }
      }
      SplitAfterPiece(p[1..], rest);
      assert s[1..] == p[1..] + SEPARATOR + rest;
      assert [s[0]] + p[1..] == p;
    }
  }

  /** A separator-free string is a single piece. */
  lemma {:induction false} SplitSinglePiece(p: string)
    requires !ContainsSeparator(p)
    ensures Split(p) == [p]
    decreases |p|
  {
    if |p| >= 2 {
      assert !SeparatorAt(p, 0);
      assert p[..2] != SEPARATOR;
      assert !ContainsSeparator(p[1..]) by {
        forall i | SeparatorAt(p[1..], i) ensures false {
          assert SeparatorAt(p, i + 1);
        }
      }
      SplitSinglePiece(p[1..]);
      assert [p[0]] + p[1..] == p;
    }
  }

  /** The other round trip: separator-free pieces joined and split again come
      back unchanged, so `Split` is the unique such decomposition of a record. */
  lemma {:induction false} SplitJoin(pieces: seq<string>)
    requires |pieces| >= 1
    requires forall p :: p in pieces ==> !ContainsSeparator(p)
    ensures Split(Join(pieces)) == pieces
    decreases |pieces|
  {
    if |pieces| == 1 {
      SplitSinglePiece(pieces[0]);
    } else {
      assert pieces[0] in pieces;
      assert forall p :: p in pieces[1..] ==> p in pieces;
      SplitJoin(pieces[1..]);
      SplitAfterPiece(pieces[0], Join(pieces[1..]));
      assert [pieces[0]] + pieces[1..] == pieces;
    }
  }
}
