/** Boolean-mask selection, shared by `select`/`drop` (`np.where(mask)` on
    the column labels), `_ply_select` (a list comprehension with a filter)
    and `_ply_filter` (`self[mask]`): the elements at the true positions of
    the mask, in their original order. */
module Masks {

  /** `rows[mask]`: the rows at true positions, in order. */
  function KeepRows<R>(rows: seq<R>, mask: seq<bool>): (r: seq<R>)
    requires |mask| == |rows|
    ensures |r| <= |rows|
    ensures forall x :: x in r ==> x in rows
    decreases |rows|
  {
    if rows == [] then []
    else
      var n := |rows| - 1;
      KeepRows(rows[..n], mask[..n]) + if mask[n] then [rows[n]] else []
  }

  /** The true positions of a mask, increasing. */
  function TrueIndices(mask: seq<bool>): (idx: seq<nat>)
    ensures forall j :: 0 <= j < |idx| ==> idx[j] < |mask| && mask[idx[j]]
    ensures forall j, l :: 0 <= j < l < |idx| ==> idx[j] < idx[l]
    ensures forall i :: 0 <= i < |mask| && mask[i] ==> i in idx
    decreases |mask|
  {
    if mask == [] then []
    else
      var n := |mask| - 1;
      var idx := TrueIndices(mask[..n]) + if mask[n] then [n] else [];
      assert forall i :: 0 <= i < n ==> mask[..n][i] == mask[i];
      idx
  }

  /** The rows at the given positions, in the order the positions are listed. */
  function Pick<R>(rows: seq<R>, idx: seq<nat>): (r: seq<R>)
    requires forall j :: 0 <= j < |idx| ==> idx[j] < |rows|
    ensures |r| == |idx|
  {
    seq(|idx|, j requires 0 <= j < |idx| => rows[idx[j]])
  }

  /** Mask selection picks the rows at the mask's true positions, in
      increasing position order. */
  lemma {:induction false} KeepRowsPicksTrueIndices<R>(rows: seq<R>, mask: seq<bool>)
    requires |mask| == |rows|
    ensures KeepRows(rows, mask) == Pick(rows, TrueIndices(mask))
    decreases |rows|
  {
    if rows != [] {
      var n := |rows| - 1;
      KeepRowsPicksTrueIndices(rows[..n], mask[..n]);
    }
  }

  /** A row is selected exactly when it sits at some true position. */
  lemma {:induction false} KeepRowsMembers<R>(rows: seq<R>, mask: seq<bool>)
    requires |mask| == |rows|
    ensures forall x :: x in KeepRows(rows, mask) <==> exists i :: 0 <= i < |rows| && mask[i] && rows[i] == x
    decreases |rows|
  {
    if rows != [] {
      var n := |rows| - 1;
      KeepRowsMembers(rows[..n], mask[..n]);
      forall x | exists i :: 0 <= i < |rows| && mask[i] && rows[i] == x
        ensures x in KeepRows(rows, mask)
      {
        var i :| 0 <= i < |rows| && mask[i] && rows[i] == x;
        if i < n {
          assert mask[..n][i] && rows[..n][i] == x;
        }
      }
    }
  }

  /** An all-true mask keeps every row. */
  lemma {:induction false} KeepRowsAll<R>(rows: seq<R>)
    ensures KeepRows(rows, seq(|rows|, _ => true)) == rows
    decreases |rows|
  {
    if rows != [] {
      var n := |rows| - 1;
      assert seq(|rows|, _ => true)[..n] == seq(n, _ => true);
      KeepRowsAll(rows[..n]);
      assert rows[..n] + [rows[n]] == rows;
    }
  }
}
