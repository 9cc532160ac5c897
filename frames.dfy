/**
 * Data frames as the catalog builder and the recommender use them: a table
 * is a set of column labels and a sequence of rows, a row maps labels to
 * cells. The whole-table operations are the pandas ones the source calls:
 * `rename(columns=...)`, `merge(..., how='left')`, `drop_duplicates(subset=...,
 * keep='first')` and boolean-mask selection.
 */
module Frames {
  import opened Wrappers
  import opened Seqs

  /** A cell as read from CSV: missing (NaN), text, or a whole number. */
  datatype Cell = Null | Str(text: string) | Num(n: int)

  /** One row, keyed by column label. */
  type Row = map<string, Cell>

  /** A data frame: its column labels and its rows in order. */
  datatype Table = Table(columns: set<string>, rows: seq<Row>)

  /** The value of column `c` in `r`; a column the row lacks reads as missing. */
  function Get(r: Row, c: string): Cell {
    if c in r then r[c] else Null
  }

  /** Column `c` as a key function, for deduplication and lookups. */
  function Column(c: string): Row -> Cell {
    r => Get(r, c)
  }

  // ---------------------------------------------------------------------
  // Renaming a column

  function RenameRow(r: Row, from: string, to: string): (r': Row)
    ensures Get(r', to) == if from in r then r[from] else Get(r, to)
    ensures from != to && from in r ==> from !in r'
    ensures forall c :: c != from && c != to ==> Get(r', c) == Get(r, c)
  {
    if from in r then (r - {from})[to := r[from]] else r
  }

  /** `rename(columns={from: to})`: the column labelled `from`, if any, is labelled `to`. */
  function RenameColumn(t: Table, from: string, to: string): (t': Table)
    ensures t'.columns == if from in t.columns then t.columns - {from} + {to} else t.columns
    ensures |t'.rows| == |t.rows|
    ensures forall i :: 0 <= i < |t.rows| ==> t'.rows[i] == RenameRow(t.rows[i], from, to)
  {
    Table(if from in t.columns then t.columns - {from} + {to} else t.columns,
          seq(|t.rows|, i requires 0 <= i < |t.rows| => RenameRow(t.rows[i], from, to)))
  }

  // ---------------------------------------------------------------------
  // Left joins

  /** The rows of `right` whose `key` cell is `v`, in table order (missing matches missing, as in pandas). */
  function Matching(right: seq<Row>, key: string, v: Cell): seq<Row> {
    Filter(right, (r: Row) => Get(r, key) == v)
  }

  /** The `take` cell of the first row of `right` whose `key` is `v`; missing when there is none. */
  function FirstMatch(right: seq<Row>, key: string, v: Cell, take: string): Cell {
    var ms := Matching(right, key, v);
    if ms == [] then Null else Get(ms[0], take)
  }

  /** The rows one left row contributes to a left merge: one per match, or one null-filled row. */
  function JoinRow(l: Row, right: seq<Row>, key: string, take: string): (out: seq<Row>)
    ensures |out| >= 1
    ensures out[0] == l[take := FirstMatch(right, key, Get(l, key), take)]
  {
    var ms := Matching(right, key, Get(l, key));
    if ms == [] then [l[take := Null]]
    else seq(|ms|, i requires 0 <= i < |ms| => l[take := Get(ms[i], take)])
  }

  /**
   * `pd.merge(left, right[[key, take]], on=key, how='left')` on the rows:
   * left order is kept, and each left row is repeated once per matching
   * right row, in right order.
   */
  function LeftJoinRows(ls: seq<Row>, right: seq<Row>, key: string, take: string): (out: seq<Row>)
    ensures |out| >= |ls|
    decreases |ls|
  {
    if ls == [] then [] else JoinRow(ls[0], right, key, take) + LeftJoinRows(ls[1..], right, key, take)
  }

  function LeftJoin(left: Table, right: Table, key: string, take: string): Table {
    Table(left.columns + {take}, LeftJoinRows(left.rows, right.rows, key, take))
  }

  /** The reference join: each left row gets the `take` cell of its first match, or a missing one. */
  function LookupJoin(ls: seq<Row>, right: seq<Row>, key: string, take: string): (out: seq<Row>)
    ensures |out| == |ls|
    ensures forall i :: 0 <= i < |ls| ==> out[i] == ls[i][take := FirstMatch(right, key, Get(ls[i], key), take)]
    decreases |ls|
  {
    if ls == [] then [] else [ls[0][take := FirstMatch(right, key, Get(ls[0], key), take)]] + LookupJoin(ls[1..], right, key, take)
  }

  // ---------------------------------------------------------------------
  // Deduplication

  /** `drop_duplicates(subset=col, keep='first')` on the rows. */
  function DropDuplicates(rows: seq<Row>, col: string): (out: seq<Row>)
    ensures forall i, j :: 0 <= i < j < |out| ==> Get(out[i], col) != Get(out[j], col)
  {
    KeepFirstBy(rows, Column(col), {})
  }

  predicate UniqueKeys(rows: seq<Row>, col: string) {
    forall i, j :: 0 <= i < j < |rows| ==> Get(rows[i], col) != Get(rows[j], col)
  }

  // ---------------------------------------------------------------------
  // Null filling and first matches

  /** A left row with no match in `right` gets a missing `take` cell. */
  lemma {:induction false} NoMatchGetsNull(right: seq<Row>, key: string, v: Cell, take: string)
    requires forall j :: 0 <= j < |right| ==> Get(right[j], key) != v
    ensures FirstMatch(right, key, v, take) == Null
  {
    FilterNone(right, (r: Row) => Get(r, key) == v);
  }

  /** A left row whose first match in `right` is at `j` gets that row's `take` cell. */
  lemma {:induction false} FirstMatchIsFirst(right: seq<Row>, key: string, v: Cell, take: string, j: nat)
    requires j < |right| && Get(right[j], key) == v
    requires forall k :: 0 <= k < j ==> Get(right[k], key) != v
    ensures FirstMatch(right, key, v, take) == Get(right[j], take)
    decreases j
  {
    if j > 0 {
      FirstMatchIsFirst(right[1..], key, v, take, j - 1);
      assert Matching(right, key, v) == Matching(right[1..], key, v);
    }
  }

  /** With unique keys on the right there is at most one match, so a left join adds no rows. */
  lemma {:induction false} UniqueKeysSingleMatch(right: seq<Row>, key: string, v: Cell)
    requires UniqueKeys(right, key)
    ensures |Matching(right, key, v)| <= 1
    decreases |right|
  {
    if right != [] {
      UniqueKeysSingleMatch(right[1..], key, v);
      if Get(right[0], key) == v {
        forall x | x in right[1..] ensures Get(x, key) != v {
          var k :| 0 <= k < |right[1..]| && right[1..][k] == x;
          assert right[k + 1] == x;
        }
        FilterNone(right[1..], (r: Row) => Get(r, key) == v);
      }
    }
  }

  lemma {:induction false} LeftJoinUniqueIsLookup(ls: seq<Row>, right: seq<Row>, key: string, take: string)
    requires UniqueKeys(right, key)
    ensures LeftJoinRows(ls, right, key, take) == LookupJoin(ls, right, key, take)
    decreases |ls|
  {
    if ls != [] {
      UniqueKeysSingleMatch(right, key, Get(ls[0], key));
      LeftJoinUniqueIsLookup(ls[1..], right, key, take);
    }
  }

  // ---------------------------------------------------------------------
  // Every left row survives a left join, in order

  /** The first-match rows form a subsequence of the left merge: no left row is dropped or reordered. */
  lemma {:induction false} LookupIsSubseqOfLeftJoin(ls: seq<Row>, right: seq<Row>, key: string, take: string)
    ensures IsSubseq(LookupJoin(ls, right, key, take), LeftJoinRows(ls, right, key, take))
    decreases |ls|
  {
    if ls != [] {
      LookupIsSubseqOfLeftJoin(ls[1..], right, key, take);
      SubseqConsBlock(ls[0][take := FirstMatch(right, key, Get(ls[0], key), take)], JoinRow(ls[0], right, key, take),
                      LookupJoin(ls[1..], right, key, take), LeftJoinRows(ls[1..], right, key, take));
    }
  }

  /** A left join maps a subsequence of its left side to a subsequence of its result. */
  lemma {:induction false} LeftJoinMonotone(a: seq<Row>, b: seq<Row>, right: seq<Row>, key: string, take: string)
    requires IsSubseq(a, b)
    ensures IsSubseq(LeftJoinRows(a, right, key, take), LeftJoinRows(b, right, key, take))
    decreases |b|
  {
    if a == [] {
    } else if a[0] == b[0] {
      LeftJoinMonotone(a[1..], b[1..], right, key, take);
      SubseqPrepend(JoinRow(a[0], right, key, take), LeftJoinRows(a[1..], right, key, take), LeftJoinRows(b[1..], right, key, take));
    } else {
      LeftJoinMonotone(a, b[1..], right, key, take);
      SubseqPrependRight(JoinRow(b[0], right, key, take), LeftJoinRows(a, right, key, take), LeftJoinRows(b[1..], right, key, take));
    }
  }

  // ---------------------------------------------------------------------
  // Deduplication after a left join

  /** A block of rows that all carry key `v` contributes its first row, or nothing if `v` was seen. */
  lemma {:induction false} KeepFirstBlock(block: seq<Row>, tail: seq<Row>, col: string, v: Cell, seen: set<Cell>)
    requires block != []
    requires forall i :: 0 <= i < |block| ==> Get(block[i], col) == v
    ensures KeepFirstBy(block + tail, Column(col), seen)
         == if v in seen then KeepFirstBy(tail, Column(col), seen)
            else [block[0]] + KeepFirstBy(tail, Column(col), seen + {v})
    decreases |block|
  {
    var key := Column(col);
    assert (block + tail)[0] == block[0];
    assert (block + tail)[1..] == block[1..] + tail;
    if |block| > 1 {
      KeepFirstBlock(block[1..], tail, col, v, seen + {v});
      assert seen + {v} + {v} == seen + {v};
      if v in seen {
        KeepFirstBlock(block[1..], tail, col, v, seen);
      }
    } else {
      assert block[1..] + tail == tail;
      assert seen + {v} == seen || v !in seen;
    }
  }

  /**
   * Deduplicating on `col` after a left join that does not write `col` is
   * the same as deduplicating first and joining each kept row to its first
   * match: the row kept for each key is the first one in merged order, and
   * its joined cell comes from the first matching right row.
   */
  lemma {:induction false} DedupAfterJoin(ls: seq<Row>, right: seq<Row>, key: string, take: string, col: string, seen: set<Cell>)
    requires take != col
    ensures KeepFirstBy(LeftJoinRows(ls, right, key, take), Column(col), seen)
         == LookupJoin(KeepFirstBy(ls, Column(col), seen), right, key, take)
    decreases |ls|
  {
    if ls != [] {
      var v := Get(ls[0], col);
      var block := JoinRow(ls[0], right, key, take);
      var ms := Matching(right, key, Get(ls[0], key));
      assert forall i :: 0 <= i < |block| ==> Get(block[i], col) == v by {
        forall i | 0 <= i < |block| ensures Get(block[i], col) == v {
          if ms == [] {
            assert block[i] == ls[0][take := Null];
          } else {
            assert block[i] == ls[0][take := Get(ms[i], take)];
          }
        }
      }
      KeepFirstBlock(block, LeftJoinRows(ls[1..], right, key, take), col, v, seen);
      if v in seen {
        DedupAfterJoin(ls[1..], right, key, take, col, seen);
      } else {
        DedupAfterJoin(ls[1..], right, key, take, col, seen + {v});
        var kept := KeepFirstBy(ls[1..], Column(col), seen + {v});
        assert KeepFirstBy(ls, Column(col), seen) == [ls[0]] + kept;
        assert LookupJoin([ls[0]] + kept, right, key, take)
            == [block[0]] + LookupJoin(kept, right, key, take) by {
          assert ([ls[0]] + kept)[1..] == kept;
        }
      }
    }
  }
}
