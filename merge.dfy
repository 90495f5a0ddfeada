/**
 * pd.merge(left, right, how='left'): a left outer join that keeps the left
 * frame's row order and, for each left row, the matching right rows in the
 * right frame's order.  Keys are compared by cell equality, so two NaT keys
 * (or two missing keys) match each other, as they do in pandas.
 */
module Merge {
  import opened Tables

  /** The rows of `rows` whose `key` cell is `v`, in their original order. */
  function Matches(rows: seq<Row>, key: string, v: Cell): (ms: seq<Row>)
    ensures |ms| <= |rows|
    ensures forall m :: m in ms ==> m in rows && Get(m, key) == v
    ensures forall k :: 0 <= k < |rows| && Get(rows[k], key) == v ==> rows[k] in ms
  {
    if rows == [] then []
    else (if Get(rows[0], key) == v then [rows[0]] else []) + Matches(rows[1..], key, v)
  }

  /** Matches keeps the rows' order: filtering a concatenation filters each
      part and concatenates the results, so a matching row precedes another
      in the result exactly when it does in `rows`. */
  lemma {:induction false} MatchesAppend(a: seq<Row>, b: seq<Row>, key: string, v: Cell)
    ensures Matches(a + b, key, v) == Matches(a, key, v) + Matches(b, key, v)
  {
    if a == [] {
      assert a + b == b;
    } else {
      assert (a + b)[0] == a[0];
      assert (a + b)[1..] == a[1..] + b;
      MatchesAppend(a[1..], b, key, v);
    }
  }

  /** The indices from `lo` on whose row's `key` cell is `v`. */
  function MatchingIndices(rows: seq<Row>, key: string, v: Cell, lo: nat): set<int> {
    set k | lo <= k < |rows| && Get(rows[k], key) == v
  }

  lemma MatchingIndicesStep(rows: seq<Row>, key: string, v: Cell, lo: nat)
    requires lo < |rows|
    ensures Get(rows[lo], key) == v ==>
      && MatchingIndices(rows, key, v, lo) == MatchingIndices(rows, key, v, lo + 1) + {lo}
      && lo !in MatchingIndices(rows, key, v, lo + 1)
    ensures Get(rows[lo], key) != v ==> MatchingIndices(rows, key, v, lo) == MatchingIndices(rows, key, v, lo + 1)
  {
  }

  /** Matches keeps every matching row once: its length is the number of
      indices whose row matches. */
  lemma MatchesCount(rows: seq<Row>, key: string, v: Cell)
    ensures |Matches(rows, key, v)| == |set k | 0 <= k < |rows| && Get(rows[k], key) == v|
  {
    MatchesCountFrom(rows, key, v, 0);
    assert rows[0..] == rows;
  }

  lemma {:induction false} MatchesCountFrom(rows: seq<Row>, key: string, v: Cell, lo: nat)
    requires lo <= |rows|
    ensures |Matches(rows[lo..], key, v)| == |MatchingIndices(rows, key, v, lo)|
    decreases |rows| - lo
  {
    if lo == |rows| {
      assert MatchingIndices(rows, key, v, lo) == {};
    } else {
      MatchesCountFrom(rows, key, v, lo + 1);
      MatchingIndicesStep(rows, key, v, lo);
      var tail := rows[lo..];
      assert tail[0] == rows[lo] && tail[1..] == rows[lo + 1..];
    }
  }

  lemma {:induction false} NoMatches(rows: seq<Row>, key: string, v: Cell)
    requires forall k :: 0 <= k < |rows| ==> Get(rows[k], key) != v
    ensures Matches(rows, key, v) == []
  {
    if rows != [] {
      NoMatches(rows[1..], key, v);
    }
  }

  /** `cols` with every occurrence of `x` left out. */
  function Without(cols: seq<string>, x: string): (r: seq<string>)
    ensures ColumnSet(r) == ColumnSet(cols) - {x}
    ensures Distinct(cols) ==> Distinct(r)
  {
    if cols == [] then []
    else
      var rest := Without(cols[1..], x);
      assert cols == [cols[0]] + cols[1..];
      ColumnSetAppend([cols[0]], cols[1..]);
      if cols[0] == x then
        assert [] + rest == rest;
        rest
      else
        ColumnSetAppend([cols[0]], rest);
        if Distinct(cols) then
          assert cols[0] !in cols[1..] by {
            forall j | 0 <= j < |cols[1..]| ensures cols[1..][j] != cols[0] {
              assert cols[1..][j] == cols[j + 1];
            }
          }
          assert cols[0] !in ColumnSet(rest);
          DistinctCons(cols[0], rest);
          [cols[0]] + rest
        else
          [cols[0]] + rest
  }

  /** The right frame's columns that the result gains: with `on=key` the two
      key columns are one, with `left_on`/`right_on` both are kept. */
  function RightColumns(r: Table, lkey: string, rkey: string): seq<string> {
    if lkey == rkey then Without(r.columns, rkey) else r.columns
  }

  function NullRow(cols: seq<string>): (n: Row)
    ensures n.Keys == ColumnSet(cols)
    ensures forall c :: c in n ==> n[c] == Null
  {
    map c | c in cols :: Null
  }

  /** Every cell of `small` is in `big`, unchanged. */
  predicate Extends(big: Row, small: Row) {
    forall c :: c in small ==> c in big && big[c] == small[c]
  }

  function MatchesOf(lrow: Row, r: Table, lkey: string, rkey: string): seq<Row> {
    Matches(r.rows, rkey, Get(lrow, lkey))
  }

  /** How many output rows one left row yields: max(1, #matches). */
  function Fanout(lrow: Row, r: Table, lkey: string, rkey: string): nat {
    var n := |MatchesOf(lrow, r, lkey, rkey)|;
    if n == 0 then 1 else n
  }

  /** The output rows of one left row: one per match, or a single row whose
      right-hand cells are all missing. */
  function JoinRow(lrow: Row, r: Table, lkey: string, rkey: string): (out: seq<Row>)
    ensures |out| == Fanout(lrow, r, lkey, rkey)
    ensures forall k :: 0 <= k < |out| ==> Extends(out[k], lrow)
  {
    var ms := MatchesOf(lrow, r, lkey, rkey);
    if ms == [] then [NullRow(RightColumns(r, lkey, rkey)) + lrow]
    else seq(|ms|, k requires 0 <= k < |ms| => ms[k] + lrow)
  }

  function JoinRows(lrows: seq<Row>, r: Table, lkey: string, rkey: string): seq<Row> {
    if lrows == [] then []
    else JoinRow(lrows[0], r, lkey, rkey) + JoinRows(lrows[1..], r, lkey, rkey)
  }

  /** The sum over the left rows of max(1, #matches). */
  function SumFanout(lrows: seq<Row>, r: Table, lkey: string, rkey: string): (n: nat)
    ensures n >= |lrows|
  {
    if lrows == [] then 0
    else Fanout(lrows[0], r, lkey, rkey) + SumFanout(lrows[1..], r, lkey, rkey)
  }

  function LeftMerge(l: Table, r: Table, lkey: string, rkey: string): (m: Table)
    ensures |m.rows| >= |l.rows|
  {
    JoinRowsLength(l.rows, r, lkey, rkey);
    Table(l.columns + RightColumns(r, lkey, rkey), JoinRows(l.rows, r, lkey, rkey))
  }

  /** Where the output rows of left row i begin. */
  function Position(lrows: seq<Row>, r: Table, lkey: string, rkey: string, i: nat): nat
    requires i <= |lrows|
  {
    SumFanout(lrows[..i], r, lkey, rkey)
  }

  lemma {:induction false} JoinRowsLength(lrows: seq<Row>, r: Table, lkey: string, rkey: string)
    ensures |JoinRows(lrows, r, lkey, rkey)| == SumFanout(lrows, r, lkey, rkey)
  {
    if lrows != [] {
      JoinRowsLength(lrows[1..], r, lkey, rkey);
    }
  }

  lemma {:induction false} JoinRowsAppend(a: seq<Row>, b: seq<Row>, r: Table, lkey: string, rkey: string)
    ensures JoinRows(a + b, r, lkey, rkey) == JoinRows(a, r, lkey, rkey) + JoinRows(b, r, lkey, rkey)
    ensures SumFanout(a + b, r, lkey, rkey) == SumFanout(a, r, lkey, rkey) + SumFanout(b, r, lkey, rkey)
  {
    if a == [] {
      assert a + b == b;
    } else {
      assert (a + b)[0] == a[0];
      assert (a + b)[1..] == a[1..] + b;
      JoinRowsAppend(a[1..], b, r, lkey, rkey);
    }
  }

  /** The output rows of left row i are exactly JoinRow(i), placed right after
      those of the rows before it. */
  lemma JoinRowsBlock(lrows: seq<Row>, r: Table, lkey: string, rkey: string, i: nat)
    requires i < |lrows|
    ensures Position(lrows, r, lkey, rkey, i + 1) == Position(lrows, r, lkey, rkey, i) + Fanout(lrows[i], r, lkey, rkey)
    ensures Position(lrows, r, lkey, rkey, i + 1) <= |JoinRows(lrows, r, lkey, rkey)|
    ensures JoinRows(lrows, r, lkey, rkey)[Position(lrows, r, lkey, rkey, i)..Position(lrows, r, lkey, rkey, i + 1)]
            == JoinRow(lrows[i], r, lkey, rkey)
  {
    var pre, post := lrows[..i], lrows[i + 1..];
    assert lrows[..i + 1] == pre + [lrows[i]];
    assert lrows == lrows[..i + 1] + post;
    JoinRowsAppend(lrows[..i + 1], post, r, lkey, rkey);
    JoinRowsAppend(pre, [lrows[i]], r, lkey, rkey);
    JoinRowsLength(pre, r, lkey, rkey);
    assert [lrows[i]][1..] == [];
  }

  /** Output length: the sum over left rows of max(1, #matching right rows),
      hence never fewer rows than the left frame. */
  lemma LeftMergeRowCount(l: Table, r: Table, lkey: string, rkey: string)
    ensures |LeftMerge(l, r, lkey, rkey).rows| == SumFanout(l.rows, r, lkey, rkey)
    ensures |LeftMerge(l, r, lkey, rkey).rows| >= |l.rows|
  {
    JoinRowsLength(l.rows, r, lkey, rkey);
  }

  lemma PositionsIncrease(lrows: seq<Row>, r: Table, lkey: string, rkey: string, i: nat, j: nat)
    requires i < j <= |lrows|
    ensures Position(lrows, r, lkey, rkey, i) + (j - i) <= Position(lrows, r, lkey, rkey, j)
  {
    assert lrows[..j] == lrows[..i] + lrows[i..j];
    JoinRowsAppend(lrows[..i], lrows[i..j], r, lkey, rkey);
  }

  /** Every left row appears in the output, in the left frame's order, with
      all of its cells unchanged. */
  lemma LeftMergeKeepsLeftRows(l: Table, r: Table, lkey: string, rkey: string)
    ensures forall i :: 0 <= i < |l.rows| ==>
      && Position(l.rows, r, lkey, rkey, i) < |LeftMerge(l, r, lkey, rkey).rows|
      && Extends(LeftMerge(l, r, lkey, rkey).rows[Position(l.rows, r, lkey, rkey, i)], l.rows[i])
    ensures forall i, j :: 0 <= i < j < |l.rows| ==>
      Position(l.rows, r, lkey, rkey, i) < Position(l.rows, r, lkey, rkey, j)
  {
    forall i | 0 <= i < |l.rows|
      ensures Position(l.rows, r, lkey, rkey, i) < |LeftMerge(l, r, lkey, rkey).rows|
      ensures Extends(LeftMerge(l, r, lkey, rkey).rows[Position(l.rows, r, lkey, rkey, i)], l.rows[i])
    {
      JoinRowsBlock(l.rows, r, lkey, rkey, i);
      var p := Position(l.rows, r, lkey, rkey, i);
      assert LeftMerge(l, r, lkey, rkey).rows[p] == JoinRow(l.rows[i], r, lkey, rkey)[0];
    }
    forall i, j | 0 <= i < j < |l.rows|
      ensures Position(l.rows, r, lkey, rkey, i) < Position(l.rows, r, lkey, rkey, j)
    {
      PositionsIncrease(l.rows, r, lkey, rkey, i, j);
    }
  }

  /** A left row with no match yields one row: the left row with a missing
      cell in every column the right frame contributes. */
  lemma LeftMergeUnmatchedRow(l: Table, r: Table, lkey: string, rkey: string, i: nat)
    requires i < |l.rows|
    requires MatchesOf(l.rows[i], r, lkey, rkey) == []
    ensures Position(l.rows, r, lkey, rkey, i) < |LeftMerge(l, r, lkey, rkey).rows|
    ensures LeftMerge(l, r, lkey, rkey).rows[Position(l.rows, r, lkey, rkey, i)]
            == NullRow(RightColumns(r, lkey, rkey)) + l.rows[i]
    ensures forall c :: c in RightColumns(r, lkey, rkey) && c !in l.rows[i] ==>
      LeftMerge(l, r, lkey, rkey).rows[Position(l.rows, r, lkey, rkey, i)][c] == Null
  {
    JoinRowsBlock(l.rows, r, lkey, rkey, i);
    var p := Position(l.rows, r, lkey, rkey, i);
    assert LeftMerge(l, r, lkey, rkey).rows[p] == JoinRow(l.rows[i], r, lkey, rkey)[0];
  }

  /** A left row with matches yields, in the right frame's order, one row per
      matching right row holding the cells of both. */
  lemma LeftMergeMatchedRows(l: Table, r: Table, lkey: string, rkey: string, i: nat)
    requires i < |l.rows|
    ensures forall k :: 0 <= k < |MatchesOf(l.rows[i], r, lkey, rkey)| ==>
      && Position(l.rows, r, lkey, rkey, i) + k < |LeftMerge(l, r, lkey, rkey).rows|
      && LeftMerge(l, r, lkey, rkey).rows[Position(l.rows, r, lkey, rkey, i) + k]
         == MatchesOf(l.rows[i], r, lkey, rkey)[k] + l.rows[i]
  {
    JoinRowsBlock(l.rows, r, lkey, rkey, i);
    var p, q := Position(l.rows, r, lkey, rkey, i), Position(l.rows, r, lkey, rkey, i + 1);
    var out := JoinRows(l.rows, r, lkey, rkey);
    var ms := MatchesOf(l.rows[i], r, lkey, rkey);
    var m := LeftMerge(l, r, lkey, rkey);
    var block := JoinRow(l.rows[i], r, lkey, rkey);
    assert m.rows == out && out[p..q] == block && |block| == q - p;
    forall k | 0 <= k < |ms|
      ensures p + k < |m.rows| && m.rows[p + k] == ms[k] + l.rows[i]
    {
      JoinRowMatch(l.rows[i], r, lkey, rkey, k);
      assert out[p + k] == block[k];
    }
  }

  lemma JoinRowMatch(lrow: Row, r: Table, lkey: string, rkey: string, k: nat)
    requires k < |MatchesOf(lrow, r, lkey, rkey)|
    ensures JoinRow(lrow, r, lkey, rkey)[k] == MatchesOf(lrow, r, lkey, rkey)[k] + lrow
  {
  }



  /** Every output row holds a cell for exactly the output columns. */
  lemma JoinRowKeys(lrow: Row, r: Table, lkey: string, rkey: string)
    requires WellFormed(r)
    requires lkey == rkey ==> rkey in lrow
    ensures forall q :: 0 <= q < |JoinRow(lrow, r, lkey, rkey)| ==>
      JoinRow(lrow, r, lkey, rkey)[q].Keys == ColumnSet(RightColumns(r, lkey, rkey)) + lrow.Keys
  {
    var ms := MatchesOf(lrow, r, lkey, rkey);
    var out := JoinRow(lrow, r, lkey, rkey);
    if ms != [] {
      forall q | 0 <= q < |out|
        ensures out[q].Keys == ColumnSet(RightColumns(r, lkey, rkey)) + lrow.Keys
      {
        JoinRowMatch(lrow, r, lkey, rkey, q);
        assert ms[q] in ms;
        assert ms[q].Keys == ColumnSet(r.columns);
      }
    }
  }

  lemma {:induction false} JoinRowsKeys(lrows: seq<Row>, r: Table, lkey: string, rkey: string, lcols: set<string>)
    requires WellFormed(r)
    requires forall k :: 0 <= k < |lrows| ==> lrows[k].Keys == lcols
    requires lkey == rkey ==> rkey in lcols
    ensures forall q :: 0 <= q < |JoinRows(lrows, r, lkey, rkey)| ==>
      JoinRows(lrows, r, lkey, rkey)[q].Keys == ColumnSet(RightColumns(r, lkey, rkey)) + lcols
  {
    if lrows != [] {
      JoinRowKeys(lrows[0], r, lkey, rkey);
      JoinRowsKeys(lrows[1..], r, lkey, rkey, lcols);
      var head: seq<Row>, tail: seq<Row> := JoinRow(lrows[0], r, lkey, rkey), JoinRows(lrows[1..], r, lkey, rkey);
      forall q | 0 <= q < |head + tail|
        ensures (head + tail)[q].Keys == ColumnSet(RightColumns(r, lkey, rkey)) + lcols
      {
        if q >= |head| {
          assert (head + tail)[q] == tail[q - |head|];
        }
      }
    }
  }

  /** With distinct column names on the two sides (apart from a shared `on`
      key), the merge of two well-formed frames is well formed. */
  lemma LeftMergeWellFormed(l: Table, r: Table, lkey: string, rkey: string)
    requires WellFormed(l) && WellFormed(r)
    requires lkey == rkey ==> lkey in l.columns
    requires forall c :: c in RightColumns(r, lkey, rkey) ==> c !in l.columns
    ensures WellFormed(LeftMerge(l, r, lkey, rkey))
  {
    var m := LeftMerge(l, r, lkey, rkey);
    DistinctAppend(l.columns, RightColumns(r, lkey, rkey));
    ColumnSetAppend(l.columns, RightColumns(r, lkey, rkey));
    JoinRowsKeys(l.rows, r, lkey, rkey, ColumnSet(l.columns));
  }

  /** A right row whose key equals a left row's key is joined with it: some
      output row holds both, the left row's cells taking precedence. */
  lemma LeftMergeHasMatch(l: Table, r: Table, lkey: string, rkey: string, i: nat, j: nat)
    requires i < |l.rows| && j < |r.rows|
    requires Get(r.rows[j], rkey) == Get(l.rows[i], lkey)
    ensures exists q ::
      && 0 <= q < |LeftMerge(l, r, lkey, rkey).rows|
      && LeftMerge(l, r, lkey, rkey).rows[q] == r.rows[j] + l.rows[i]
  {
    var ms := MatchesOf(l.rows[i], r, lkey, rkey);
    assert r.rows[j] in ms;
    var k :| 0 <= k < |ms| && ms[k] == r.rows[j];
    JoinRowsBlock(l.rows, r, lkey, rkey, i);
    JoinRowMatch(l.rows[i], r, lkey, rkey, k);
    var p, p' := Position(l.rows, r, lkey, rkey, i), Position(l.rows, r, lkey, rkey, i + 1);
    var out := JoinRows(l.rows, r, lkey, rkey);
    assert out[p + k] == out[p..p'][k];
    assert LeftMerge(l, r, lkey, rkey).rows[p + k] == r.rows[j] + l.rows[i];
  }

  /** No two rows share a key value. */
  predicate UniqueKeys(rows: seq<Row>, key: string) {
    forall j, k :: 0 <= j < k < |rows| ==> Get(rows[j], key) != Get(rows[k], key)
  }

  lemma {:induction false} AtMostOneMatch(rows: seq<Row>, key: string, v: Cell)
    requires UniqueKeys(rows, key)
    ensures |Matches(rows, key, v)| <= 1
  {
    if rows != [] {
      var rest := rows[1..];
      assert forall k :: 0 <= k < |rest| ==> rest[k] == rows[k + 1];
      AtMostOneMatch(rest, key, v);
      if Get(rows[0], key) == v {
        NoMatches(rest, key, v);
      }
    }
  }

  lemma {:induction false} SumFanoutUnique(lrows: seq<Row>, r: Table, lkey: string, rkey: string)
    requires UniqueKeys(r.rows, rkey)
    ensures SumFanout(lrows, r, lkey, rkey) == |lrows|
  {
    if lrows != [] {
      AtMostOneMatch(r.rows, rkey, Get(lrows[0], lkey));
      SumFanoutUnique(lrows[1..], r, lkey, rkey);
    }
  }

  /** A right frame whose keys are unique never multiplies left rows: the
      join has exactly as many rows as the left frame. */
  lemma LeftMergeUniqueKeys(l: Table, r: Table, lkey: string, rkey: string)
    requires UniqueKeys(r.rows, rkey)
    ensures |LeftMerge(l, r, lkey, rkey).rows| == |l.rows|
  {
    LeftMergeRowCount(l, r, lkey, rkey);
    SumFanoutUnique(l.rows, r, lkey, rkey);
  }
}
