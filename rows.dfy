/**
 * Row selection on a table held as a sequence of rows: `df.dropna(subset=…)`
 * and `df[df[col] == x]` both keep the rows satisfying a predicate, in their
 * original order.
 */
module Rows {

  function Filter<R(==)>(rows: seq<R>, keep: R -> bool): (r: seq<R>)
    ensures |r| <= |rows|
    ensures forall x | x in r :: x in rows && keep(x)
    ensures forall i | 0 <= i < |rows| && keep(rows[i]) :: rows[i] in r
  {
    if |rows| == 0 then []
    else Filter(rows[..|rows| - 1], keep) + (if keep(rows[|rows| - 1]) then [rows[|rows| - 1]] else [])
  }

  /** The positions of the rows that keep holds of, in increasing order. */
  function KeptIndices<R>(rows: seq<R>, keep: R -> bool): (idx: seq<nat>)
    ensures forall k | 0 <= k < |idx| :: idx[k] < |rows| && keep(rows[idx[k]])
    ensures forall a, b | 0 <= a < b < |idx| :: idx[a] < idx[b]
    ensures forall i | 0 <= i < |rows| && keep(rows[i]) :: i in idx
  {
    if |rows| == 0 then []
    else KeptIndices(rows[..|rows| - 1], keep) + (if keep(rows[|rows| - 1]) then [|rows| - 1] else [])
  }

  /** Filtering keeps exactly the rows at KeptIndices, in order: the survivors keep their relative order. */
  lemma {:induction false} FilterIsKeptIndices<R>(rows: seq<R>, keep: R -> bool)
    ensures |Filter(rows, keep)| == |KeptIndices(rows, keep)|
    ensures forall k | 0 <= k < |Filter(rows, keep)| :: Filter(rows, keep)[k] == rows[KeptIndices(rows, keep)[k]]
  {
    if |rows| > 0 {
      var init := rows[..|rows| - 1];
      FilterIsKeptIndices(init, keep);
      forall k | 0 <= k < |KeptIndices(init, keep)|
        ensures rows[KeptIndices(init, keep)[k]] == init[KeptIndices(init, keep)[k]]
      {
      }
    }
  }

  /** A kept row at or before the i-th kept position is among the first i + 1 rows of the filtered table. */
  lemma FilterEarlierRow<R>(rows: seq<R>, keep: R -> bool, i: nat, j: nat) returns (m: nat)
    requires i < |KeptIndices(rows, keep)|
    requires j <= KeptIndices(rows, keep)[i] && keep(rows[j])
    ensures m <= i && m < |Filter(rows, keep)| && Filter(rows, keep)[m] == rows[j]
  {
    FilterIsKeptIndices(rows, keep);
    var idx := KeptIndices(rows, keep);
    assert j in idx;
    m :| 0 <= m < |idx| && idx[m] == j;
  }

  /** A selection that every row passes keeps the table as it is. */
  lemma {:induction false} FilterKeepsAll<R>(rows: seq<R>, keep: R -> bool)
    requires forall i | 0 <= i < |rows| :: keep(rows[i])
    ensures Filter(rows, keep) == rows
  {
    if |rows| > 0 {
      var init := rows[..|rows| - 1];
      FilterKeepsAll(init, keep);
      assert init + [rows[|rows| - 1]] == rows;
    }
  }

  /** `df.dropna(subset=…, inplace=True)`: the rows whose required cells are all present, in order. */
  method DropNa<R(==)>(rows: seq<R>, present: R -> bool) returns (kept: seq<R>)
    ensures kept == Filter(rows, present)
  {
    kept := [];
    for i := 0 to |rows|
      invariant kept == Filter(rows[..i], present)
    {
      assert rows[..i + 1][..i] == rows[..i];
      if present(rows[i]) {
        kept := kept + [rows[i]];
      }
    }
    assert rows[..|rows|] == rows;
  }
}
