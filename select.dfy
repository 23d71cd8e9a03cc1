/** The rank-vector column selector of ply_ng/select.py.

    Each selector argument has already been turned into one integer per
    column of the table (the flattening step is not part of this model):
    zero leaves a column alone, a positive value marks it, a negative one
    excludes it. `ResolveSelection` folds the selectors into one accumulator,
    later selectors overwriting earlier ones wherever they are nonzero, and
    collects the columns marked exactly 1 in first-seen order. `Select` and
    `Drop` keep the columns whose entry is the accumulator's maximum and is
    not negative. */
module ColumnSelect {
  import opened Masks

  predicate Distinct(s: seq<string>) {
    forall i, j :: 0 <= i < j < |s| ==> s[i] != s[j]
  }

  /** Every selector has one entry per column. */
  predicate WellShaped(n: nat, selectors: seq<seq<int>>) {
    forall k :: 0 <= k < |selectors| ==> |selectors[k]| == n
  }

  /** The value a selector entry writes: drop mode writes its negation. */
  function Written(v: int, drop: bool): int {
    if drop then -v else v
  }

  // ---------------------------------------------------------------------------
  // The accumulator

  /** `column_indices[visible] = selector[visible]` (times -1 in drop mode),
      where `visible` are the positions at which the selector is nonzero. */
  function Overwrite(acc: seq<int>, selector: seq<int>, drop: bool): (r: seq<int>)
    requires |selector| == |acc|
    ensures |r| == |acc|
  {
    seq(|acc|, j requires 0 <= j < |acc| => if selector[j] != 0 then Written(selector[j], drop) else acc[j])
  }

  /** The accumulator after all selectors, starting from zeros. */
  function Accumulated(n: nat, selectors: seq<seq<int>>, drop: bool): (acc: seq<int>)
    requires WellShaped(n, selectors)
    ensures |acc| == n
    decreases |selectors|
  {
    if selectors == [] then seq(n, _ => 0)
    else Overwrite(Accumulated(n, selectors[..|selectors| - 1], drop), selectors[|selectors| - 1], drop)
  }

  /** Each slot holds what the last selector that is nonzero there wrote,
      and zero when no selector touches it. */
  lemma {:induction false} LaterSelectorsWin(n: nat, selectors: seq<seq<int>>, drop: bool, j: nat)
    requires WellShaped(n, selectors) && j < n
    ensures (forall k :: 0 <= k < |selectors| ==> selectors[k][j] == 0) ==>
            Accumulated(n, selectors, drop)[j] == 0
    ensures forall k :: 0 <= k < |selectors| && selectors[k][j] != 0 &&
                        (forall l :: k < l < |selectors| ==> selectors[l][j] == 0) ==>
                        Accumulated(n, selectors, drop)[j] == Written(selectors[k][j], drop)
    decreases |selectors|
  {
    if selectors != [] {
      var last := |selectors| - 1;
      var prefix := selectors[..last];
      LaterSelectorsWin(n, prefix, drop, j);
      var prev := Accumulated(n, prefix, drop);
      assert Accumulated(n, selectors, drop)[j] ==
             if selectors[last][j] != 0 then Written(selectors[last][j], drop) else prev[j];
      forall k | 0 <= k < |selectors| && selectors[k][j] != 0 &&
                 (forall l :: k < l < |selectors| ==> selectors[l][j] == 0)
        ensures Accumulated(n, selectors, drop)[j] == Written(selectors[k][j], drop)
      {
        if k < last {
          assert selectors[last][j] == 0;
          assert prefix[k] == selectors[k];
          assert forall l :: k < l < last ==> prefix[l] == selectors[l];
        }
      }
      if forall k :: 0 <= k < |selectors| ==> selectors[k][j] == 0 {
        assert selectors[last][j] == 0;
        assert forall k :: 0 <= k < last ==> prefix[k] == selectors[k];
      }
    }
  }

  // ---------------------------------------------------------------------------
  // The ordering list

  /** The inner loop over `np.where(selector == 1)`, run on positions [0, m):
      each column marked exactly 1 is appended unless already present. */
  function AppendMarked(columns: seq<string>, ordering: seq<string>, selector: seq<int>, m: nat): (r: seq<string>)
    requires |selector| == |columns| && m <= |columns|
    ensures ordering <= r
    ensures forall c :: c in r ==> c in ordering || c in columns
    decreases m
  {
    if m == 0 then ordering
    else
      var o := AppendMarked(columns, ordering, selector, m - 1);
      if selector[m - 1] == 1 && columns[m - 1] !in o then o + [columns[m - 1]] else o
  }

  /** `ordering` after all selectors: only columns of the table. */
  function Ordering(columns: seq<string>, selectors: seq<seq<int>>): (r: seq<string>)
    requires WellShaped(|columns|, selectors)
    ensures forall c :: c in r ==> c in columns
    ensures selectors == [] ==> r == []
    decreases |selectors|
  {
    if selectors == [] then []
    else AppendMarked(columns, Ordering(columns, selectors[..|selectors| - 1]), selectors[|selectors| - 1], |columns|)
  }

  /** Column `c` is marked exactly 1 by some selector. */
  ghost predicate MarkedOne(columns: seq<string>, selectors: seq<seq<int>>, c: string)
    requires WellShaped(|columns|, selectors)
  {
    exists k, j :: 0 <= k < |selectors| && 0 <= j < |columns| && selectors[k][j] == 1 && columns[j] == c
  }

  /** The positions a selector marks 1 whose column `ordering` lacks. */
  function NewMarks(columns: seq<string>, ordering: seq<string>, selector: seq<int>): (mask: seq<bool>)
    requires |selector| == |columns|
    ensures |mask| == |columns|
  {
    seq(|columns|, j requires 0 <= j < |columns| => selector[j] == 1 && columns[j] !in ordering)
  }

  /** On distinct labels, one selector appends, in table order, the columns
      it marks 1 that are not yet in the ordering. */
  lemma {:induction false} AppendMarkedGrows(columns: seq<string>, ordering: seq<string>, selector: seq<int>, m: nat)
    requires |selector| == |columns| && m <= |columns|
    ensures ordering <= AppendMarked(columns, ordering, selector, m)
    ensures forall c :: c in AppendMarked(columns, ordering, selector, m) <==>
                        c in ordering || exists j :: 0 <= j < m && selector[j] == 1 && columns[j] == c
    ensures Distinct(ordering) ==> Distinct(AppendMarked(columns, ordering, selector, m))
    ensures Distinct(columns) ==>
              AppendMarked(columns, ordering, selector, m) ==
              ordering + KeepRows(columns[..m], NewMarks(columns, ordering, selector)[..m])
    decreases m, 1
  {
    if m > 0 {
      AppendMarkedGrows(columns, ordering, selector, m - 1);
    }
    if Distinct(columns) {
      AppendMarkedInTableOrder(columns, ordering, selector, m);
    }
  }

  lemma {:induction false} AppendMarkedInTableOrder(columns: seq<string>, ordering: seq<string>, selector: seq<int>, m: nat)
    requires |selector| == |columns| && m <= |columns| && Distinct(columns)
    ensures AppendMarked(columns, ordering, selector, m) ==
            ordering + KeepRows(columns[..m], NewMarks(columns, ordering, selector)[..m])
    decreases m, 0
  {
    if m > 0 {
      AppendMarkedInTableOrder(columns, ordering, selector, m - 1);
      NotYetAppended(columns, ordering, selector, m - 1);
      var marks := NewMarks(columns, ordering, selector);
      var x := columns[m - 1];
      var last := if marks[m - 1] then [x] else [];
      var w := KeepRows(columns[..m - 1], marks[..m - 1]);
      assert AppendMarked(columns, ordering, selector, m) == (ordering + w) + last;
      assert columns[..m][..m - 1] == columns[..m - 1];
      assert marks[..m][..m - 1] == marks[..m - 1];
      assert KeepRows(columns[..m], marks[..m]) == w + last;
      assert ordering + (w + last) == (ordering + w) + last;
    }
  }

  /** On distinct labels, the column at position `m` is in the ordering
      after the first `m` positions only if it was there before. */
  lemma NotYetAppended(columns: seq<string>, ordering: seq<string>, selector: seq<int>, m: nat)
    requires |selector| == |columns| && m < |columns| && Distinct(columns)
    ensures columns[m] in AppendMarked(columns, ordering, selector, m) <==> columns[m] in ordering
    decreases m, 2
  {
    AppendMarkedGrows(columns, ordering, selector, m);
    assert forall j :: 0 <= j < m ==> columns[j] != columns[m];
  }

  /** `ordering` holds exactly the columns some selector marks 1, each once,
      and a later selector only appends to it: columns appear in first-seen order. */
  lemma {:induction false} OrderingCollectsMarked(columns: seq<string>, selectors: seq<seq<int>>)
    requires WellShaped(|columns|, selectors)
    ensures Distinct(Ordering(columns, selectors))
    ensures forall c :: c in Ordering(columns, selectors) <==> MarkedOne(columns, selectors, c)
    ensures forall k :: 0 <= k <= |selectors| ==> Ordering(columns, selectors[..k]) <= Ordering(columns, selectors)
    decreases |selectors|
  {
    if selectors == [] {
      assert selectors[..0] == selectors;
    } else {
      var last := |selectors| - 1;
      var prefix := selectors[..last];
      OrderingCollectsMarked(columns, prefix);
      AppendMarkedGrows(columns, Ordering(columns, prefix), selectors[last], |columns|);
      forall k | 0 <= k <= |selectors|
        ensures Ordering(columns, selectors[..k]) <= Ordering(columns, selectors)
      {
        if k == |selectors| {
          assert selectors[..k] == selectors;
        } else {
          assert selectors[..k] == prefix[..k];
        }
      }
      forall c
        ensures c in Ordering(columns, selectors) <==> MarkedOne(columns, selectors, c)
      {
        if MarkedOne(columns, selectors, c) {
          var k, j :| 0 <= k < |selectors| && 0 <= j < |columns| && selectors[k][j] == 1 && columns[j] == c;
          if k < last {
            assert prefix[k][j] == 1;
            assert MarkedOne(columns, prefix, c);
          }
        }
        if MarkedOne(columns, prefix, c) {
          var k, j :| 0 <= k < |prefix| && 0 <= j < |columns| && prefix[k][j] == 1 && columns[j] == c;
          assert selectors[k][j] == 1;
        }
      }
    }
  }

  /** A later selector appends to the ordering, in table order, exactly the
      columns it marks 1 that earlier selectors did not. */
  lemma OrderingAppendsNewMarks(columns: seq<string>, selectors: seq<seq<int>>)
    requires WellShaped(|columns|, selectors) && Distinct(columns) && selectors != []
    ensures var prev := Ordering(columns, selectors[..|selectors| - 1]);
            Ordering(columns, selectors) == prev + KeepRows(columns, NewMarks(columns, prev, selectors[|selectors| - 1]))
  {
    var prev := Ordering(columns, selectors[..|selectors| - 1]);
    var selector := selectors[|selectors| - 1];
    AppendMarkedGrows(columns, prev, selector, |columns|);
    assert columns[..|columns|] == columns;
    assert NewMarks(columns, prev, selector)[..|columns|] == NewMarks(columns, prev, selector);
  }

  // ---------------------------------------------------------------------------
  // resolve_selection

  /** The accumulator `resolve_selection` returns: all ones without selectors. */
  function ResolvedIndices(n: nat, selectors: seq<seq<int>>, drop: bool): (acc: seq<int>)
    requires WellShaped(n, selectors)
    ensures |acc| == n
  {
    if selectors == [] then seq(n, _ => 1) else Accumulated(n, selectors, drop)
  }

  /** The ordering `resolve_selection` returns: every column without selectors. */
  function ResolvedOrdering(columns: seq<string>, selectors: seq<seq<int>>): seq<string>
    requires WellShaped(|columns|, selectors)
  {
    if selectors == [] then columns else Ordering(columns, selectors)
  }

  method ResolveSelection(columns: seq<string>, selectors: seq<seq<int>>, drop: bool)
    returns (ordering: seq<string>, columnIndices: seq<int>)
    requires WellShaped(|columns|, selectors)
    ensures ordering == ResolvedOrdering(columns, selectors)
    ensures columnIndices == ResolvedIndices(|columns|, selectors, drop)
  {
    var n := |columns|;
    if |selectors| > 0 {
      ordering := [];
      var acc := new int[n](_ => 0);
      var k := 0;
      while k < |selectors|
        invariant 0 <= k <= |selectors|
        invariant acc.Length == n
        invariant acc[..] == Accumulated(n, selectors[..k], drop)
        invariant ordering == Ordering(columns, selectors[..k])
      {
        var selector := selectors[k];
        assert selectors[..k + 1][..k] == selectors[..k];
        ghost var before := acc[..];
        var j := 0;
        while j < n
          invariant 0 <= j <= n
          invariant forall i :: 0 <= i < j ==> acc[i] == Overwrite(before, selector, drop)[i]
          invariant forall i :: j <= i < n ==> acc[i] == before[i]
        {
          if selector[j] != 0 {
            acc[j] := Written(selector[j], drop);
          }
          j := j + 1;
        }
        assert acc[..] == Overwrite(before, selector, drop);
        ghost var orderingBefore := ordering;
        j := 0;
        while j < n
          invariant 0 <= j <= n
          invariant ordering == AppendMarked(columns, orderingBefore, selector, j)
        {
          if selector[j] == 1 && columns[j] !in ordering {
            ordering := ordering + [columns[j]];
          }
          j := j + 1;
        }
        k := k + 1;
      }
      assert selectors[..|selectors|] == selectors;
      columnIndices := acc[..];
    } else {
      ordering := columns;
      columnIndices := seq(n, _ => 1);
    }
  }

  // ---------------------------------------------------------------------------
  // select and drop

  predicate AllZero(acc: seq<int>) {
    forall j :: 0 <= j < |acc| ==> acc[j] == 0
  }

  /** `np.max`. */
  function Max(acc: seq<int>): (m: int)
    requires |acc| > 0
    ensures forall j :: 0 <= j < |acc| ==> acc[j] <= m
    ensures exists j :: 0 <= j < |acc| && acc[j] == m
  {
    if |acc| == 1 then acc[0]
    else
      var rest := Max(acc[..|acc| - 1]);
      if acc[|acc| - 1] > rest then acc[|acc| - 1] else rest
  }

  /** `np.where(mask)` applied to distinct column labels: the columns where
      the mask holds, each once, in table order. */
  lemma {:induction false} MaskedColumns(columns: seq<string>, mask: seq<bool>)
    requires |mask| == |columns| && Distinct(columns)
    ensures Distinct(KeepRows(columns, mask))
    ensures forall c :: c in KeepRows(columns, mask) <==> exists j :: 0 <= j < |columns| && mask[j] && columns[j] == c
    ensures KeepRows(columns, mask) == Pick(columns, TrueIndices(mask))
    decreases |columns|
  {
    KeepRowsMembers(columns, mask);
    KeepRowsPicksTrueIndices(columns, mask);
    if columns != [] {
      var n := |columns| - 1;
      assert Distinct(columns[..n]);
      MaskedColumns(columns[..n], mask[..n]);
      var w := KeepRows(columns[..n], mask[..n]);
      assert columns[n] !in w;
      if mask[n] {
        DistinctAppend(w, columns[n]);
      }
    }
  }

  lemma DistinctAppend(s: seq<string>, x: string)
    requires Distinct(s) && x !in s
    ensures Distinct(s + [x])
  {
    forall i, j | 0 <= i < j < |s| + 1
      ensures (s + [x])[i] != (s + [x])[j]
    {
      if j == |s| {
        assert (s + [x])[i] == s[i];
      }
    }
  }

  /** `(column_indices == m) & (column_indices >= 0)`. */
  function KeepMask(acc: seq<int>, m: int): (mask: seq<bool>)
    ensures |mask| == |acc|
  {
    seq(|acc|, j requires 0 <= j < |acc| => acc[j] == m && acc[j] >= 0)
  }

  /** `np.where((column_indices == np.max(column_indices)) & (column_indices >= 0))`
      applied to the column labels. */
  function Kept(columns: seq<string>, acc: seq<int>): (r: seq<string>)
    requires |acc| == |columns| && !AllZero(acc)
    ensures forall c :: c in r ==> c in columns
  {
    KeepRows(columns, KeepMask(acc, Max(acc)))
  }

  /** `[c for c in ordering if c in kept]`. */
  function Restrict(ordering: seq<string>, kept: seq<string>): (r: seq<string>)
    ensures forall c :: c in r ==> c in ordering && c in kept
    decreases |ordering|
  {
    if ordering == [] then []
    else
      var n := |ordering| - 1;
      Restrict(ordering[..n], kept) + if ordering[n] in kept then [ordering[n]] else []
  }

  /** The positions of `xs` whose element is in `kept`. */
  function Members(xs: seq<string>, kept: seq<string>): (mask: seq<bool>)
    ensures |mask| == |xs|
  {
    seq(|xs|, i requires 0 <= i < |xs| => xs[i] in kept)
  }

  /** Restricting keeps the kept members of the ordering, in ordering order. */
  lemma {:induction false} RestrictFilters(ordering: seq<string>, kept: seq<string>)
    requires Distinct(ordering)
    ensures Distinct(Restrict(ordering, kept))
    ensures forall c :: c in Restrict(ordering, kept) <==> c in ordering && c in kept
    ensures (forall c :: c in ordering ==> c in kept) ==> Restrict(ordering, kept) == ordering
    ensures Restrict(ordering, kept) == KeepRows(ordering, Members(ordering, kept))
    decreases |ordering|
  {
    if ordering != [] {
      var n := |ordering| - 1;
      var x := ordering[n];
      RestrictFilters(ordering[..n], kept);
      var w := Restrict(ordering[..n], kept);
      assert ordering[..n] + [x] == ordering;
      assert forall c :: c in ordering[..n] ==> c != x;
      assert x !in w;
      if x in kept {
        DistinctAppend(w, x);
      }
    }
    RestrictIsMasked(ordering, kept);
  }

  lemma {:induction false} RestrictIsMasked(ordering: seq<string>, kept: seq<string>)
    ensures Restrict(ordering, kept) == KeepRows(ordering, Members(ordering, kept))
    decreases |ordering|
  {
    if ordering != [] {
      var n := |ordering| - 1;
      RestrictIsMasked(ordering[..n], kept);
      assert Members(ordering, kept)[..n] == Members(ordering[..n], kept);
    }
  }

  /** What `select` returns, as a list of column labels. */
  function Selected(columns: seq<string>, selectors: seq<seq<int>>): (r: seq<string>)
    requires WellShaped(|columns|, selectors)
    ensures forall c :: c in r ==> c in columns
  {
    var acc := ResolvedIndices(|columns|, selectors, false);
    if AllZero(acc) then []
    else
      var kept := Kept(columns, acc);
      var ordering := ResolvedOrdering(columns, selectors);
      if forall c :: c in kept ==> c in ordering then Restrict(ordering, kept) else kept
  }

  /** What `drop` returns, as a list of column labels. */
  function Dropped(columns: seq<string>, selectors: seq<seq<int>>): (r: seq<string>)
    requires WellShaped(|columns|, selectors)
    ensures forall c :: c in r ==> c in columns
    ensures |r| <= |columns|
  {
    var acc := ResolvedIndices(|columns|, selectors, true);
    if AllZero(acc) then [] else Kept(columns, acc)
  }

  /** `select` on a table with the given column labels. */
  method Select(columns: seq<string>, selectors: seq<seq<int>>) returns (result: seq<string>)
    requires WellShaped(|columns|, selectors)
    ensures result == Selected(columns, selectors)
  {
    var ordering, columnIndices := ResolveSelection(columns, selectors, false);
    if AllZero(columnIndices) {
      return [];
    }
    var kept := Kept(columns, columnIndices);
    if forall c :: c in kept ==> c in ordering {
      result := Restrict(ordering, kept);
    } else {
      result := kept;
    }
  }

  /** `drop` on a table with the given column labels. */
  method Drop(columns: seq<string>, selectors: seq<seq<int>>) returns (result: seq<string>)
    requires WellShaped(|columns|, selectors)
    ensures result == Dropped(columns, selectors)
  {
    var _, columnIndices := ResolveSelection(columns, selectors, true);
    if AllZero(columnIndices) {
      return [];
    }
    result := Kept(columns, columnIndices);
  }

  // ---------------------------------------------------------------------------
  // Properties of select and drop

  /** With no selectors `select` and `drop` return every column in table order. */
  lemma NoSelectorsKeepsAll(columns: seq<string>)
    requires Distinct(columns)
    ensures Selected(columns, []) == columns
    ensures Dropped(columns, []) == columns
  {
    var n := |columns|;
    var acc := seq(n, _ => 1);
    assert ResolvedIndices(n, [], false) == acc;
    assert ResolvedIndices(n, [], true) == acc;
    assert ResolvedOrdering(columns, []) == columns;
    if n > 0 {
      assert acc[0] == 1;
      assert !AllZero(acc);
      var m := Max(acc);
      assert m == 1;
      assert KeepMask(acc, m) == seq(n, _ => true);
      KeepRowsAll(columns);
      RestrictFilters(columns, columns);
    }
  }

  /** The kept columns are exactly those whose entry is the maximum and not
      negative, each once. */
  lemma KeptAreMaximal(columns: seq<string>, acc: seq<int>)
    requires |acc| == |columns| && !AllZero(acc) && Distinct(columns)
    ensures Distinct(Kept(columns, acc))
    ensures forall c :: c in Kept(columns, acc) <==>
                        exists j :: 0 <= j < |columns| && columns[j] == c && acc[j] == Max(acc) && acc[j] >= 0
    ensures Kept(columns, acc) == Pick(columns, TrueIndices(KeepMask(acc, Max(acc))))
  {
    var mask := KeepMask(acc, Max(acc));
    MaskedColumns(columns, mask);
    forall c
      ensures c in Kept(columns, acc) <==>
              exists j :: 0 <= j < |columns| && columns[j] == c && acc[j] == Max(acc) && acc[j] >= 0
    {
      if exists j :: 0 <= j < |columns| && columns[j] == c && acc[j] == Max(acc) && acc[j] >= 0 {
        var j :| 0 <= j < |columns| && columns[j] == c && acc[j] == Max(acc) && acc[j] >= 0;
        assert mask[j];
      }
    }
  }

  /** `select` returns the kept columns, each once, possibly reordered; an
      all-zero accumulator selects nothing. */
  lemma SelectedAreTheKept(columns: seq<string>, selectors: seq<seq<int>>)
    requires WellShaped(|columns|, selectors) && Distinct(columns)
    ensures Distinct(Selected(columns, selectors))
    ensures var acc := ResolvedIndices(|columns|, selectors, false);
            if AllZero(acc) then Selected(columns, selectors) == []
            else forall c :: c in Selected(columns, selectors) <==> c in Kept(columns, acc)
    ensures var acc := ResolvedIndices(|columns|, selectors, false);
            var ordering := ResolvedOrdering(columns, selectors);
            !AllZero(acc) ==>
              Selected(columns, selectors) ==
              if forall c :: c in Kept(columns, acc) ==> c in ordering
              then KeepRows(ordering, Members(ordering, Kept(columns, acc)))
              else Pick(columns, TrueIndices(KeepMask(acc, Max(acc))))
  {
    var acc := ResolvedIndices(|columns|, selectors, false);
    if !AllZero(acc) {
      var kept := Kept(columns, acc);
      KeptAreMaximal(columns, acc);
      var ordering := ResolvedOrdering(columns, selectors);
      if selectors != [] {
        OrderingCollectsMarked(columns, selectors);
      }
      RestrictFilters(ordering, kept);
    }
  }

  /** A selector is a plain mark when every entry is 0 or 1 (a column name). */
  ghost predicate PlainMarks(selectors: seq<seq<int>>) {
    forall k, j :: 0 <= k < |selectors| && 0 <= j < |selectors[k]| ==> selectors[k][j] == 0 || selectors[k][j] == 1
  }

  /** Position `j` is named by some selector. */
  function Marked(n: nat, selectors: seq<seq<int>>): (mask: seq<bool>)
    requires WellShaped(n, selectors)
    ensures |mask| == n
  {
    seq(n, j requires 0 <= j < n => exists k :: 0 <= k < |selectors| && selectors[k][j] == 1)
  }

  /** Under `select` by names, a named column ends at 1 and every other
      column at 0. */
  lemma SelectAccumulator(n: nat, selectors: seq<seq<int>>)
    requires WellShaped(n, selectors) && PlainMarks(selectors)
    ensures forall j :: 0 <= j < n ==>
              Accumulated(n, selectors, false)[j] == if Marked(n, selectors)[j] then 1 else 0
  {
    var acc := Accumulated(n, selectors, false);
    var marked := Marked(n, selectors);
    forall j | 0 <= j < n
      ensures acc[j] == if marked[j] then 1 else 0
    {
      LaterSelectorsWin(n, selectors, false, j);
      if marked[j] {
        var k := LastNonzero(selectors, j);
      }
    }
  }

  /** Selecting by names keeps exactly the named positions: they end at 1,
      the maximum, and every other position at 0. */
  lemma SelectByNamesMask(n: nat, selectors: seq<seq<int>>)
    requires WellShaped(n, selectors) && PlainMarks(selectors)
    requires exists k, j :: 0 <= k < |selectors| && 0 <= j < n && selectors[k][j] == 1
    ensures !AllZero(Accumulated(n, selectors, false))
    ensures KeepMask(Accumulated(n, selectors, false), Max(Accumulated(n, selectors, false))) == Marked(n, selectors)
  {
    var acc := Accumulated(n, selectors, false);
    var marked := Marked(n, selectors);
    SelectAccumulator(n, selectors);
    var k0, j0 :| 0 <= k0 < |selectors| && 0 <= j0 < n && selectors[k0][j0] == 1;
    assert marked[j0];
    assert Max(acc) == 1;
    assert KeepMask(acc, 1) == marked;
  }

  /** The ordering holds the same columns as the named positions select. */
  lemma OrderingHoldsMarked(columns: seq<string>, selectors: seq<seq<int>>)
    requires WellShaped(|columns|, selectors) && Distinct(columns)
    ensures forall c :: c in Ordering(columns, selectors) <==> c in KeepRows(columns, Marked(|columns|, selectors))
  {
    var n := |columns|;
    var marked := Marked(n, selectors);
    var kept := KeepRows(columns, marked);
    MaskedColumns(columns, marked);
    OrderingCollectsMarked(columns, selectors);
    var ordering := Ordering(columns, selectors);
    forall c | c in ordering ensures c in kept {
      assert MarkedOne(columns, selectors, c);
      var k, j :| 0 <= k < |selectors| && 0 <= j < n && selectors[k][j] == 1 && columns[j] == c;
      assert marked[j];
    }
    forall c | c in kept ensures c in ordering {
      var j :| 0 <= j < n && marked[j] && columns[j] == c;
      var k :| 0 <= k < |selectors| && selectors[k][j] == 1;
      assert MarkedOne(columns, selectors, c);
    }
  }

  /** Selecting by names only (one 1 per named column) returns the named
      columns in the order they were first named, so `select` can reorder. */
  lemma SelectByNamesFollowsOrdering(columns: seq<string>, selectors: seq<seq<int>>)
    requires WellShaped(|columns|, selectors) && Distinct(columns) && PlainMarks(selectors)
    requires exists k, j :: 0 <= k < |selectors| && 0 <= j < |columns| && selectors[k][j] == 1
    ensures Selected(columns, selectors) == Ordering(columns, selectors)
  {
    var n := |columns|;
    var acc := Accumulated(n, selectors, false);
    var kept := KeepRows(columns, Marked(n, selectors));
    var ordering := Ordering(columns, selectors);
    SelectByNamesMask(n, selectors);
    OrderingHoldsMarked(columns, selectors);
    SelectedReordered(columns, selectors, acc, kept, ordering);
    OrderingCollectsMarked(columns, selectors);
    RestrictFilters(ordering, kept);
  }

  /** The last selector that is nonzero at position `j`, when there is one. */
  lemma LastNonzero(selectors: seq<seq<int>>, j: nat) returns (k: nat)
    requires exists k :: 0 <= k < |selectors| && j < |selectors[k]| && selectors[k][j] != 0
    ensures k < |selectors| && j < |selectors[k]| && selectors[k][j] != 0
    ensures forall l :: k < l < |selectors| && j < |selectors[l]| ==> selectors[l][j] == 0
  {
    k := |selectors| - 1;
    while !(j < |selectors[k]| && selectors[k][j] != 0)
      invariant 0 <= k < |selectors|
      invariant exists k' :: 0 <= k' <= k && j < |selectors[k']| && selectors[k'][j] != 0
      invariant forall l :: k < l < |selectors| && j < |selectors[l]| ==> selectors[l][j] == 0
      decreases k
    {
      k := k - 1;
    }
  }

  /** Position `j` is named by no selector. */
  function Unmarked(n: nat, selectors: seq<seq<int>>): (mask: seq<bool>)
    requires WellShaped(n, selectors)
    ensures |mask| == n
  {
    seq(n, j requires 0 <= j < n => forall k :: 0 <= k < |selectors| ==> selectors[k][j] == 0)
  }

  /** Under `drop`, a named column ends at -1 and every other column at 0. */
  lemma DropAccumulator(n: nat, selectors: seq<seq<int>>)
    requires WellShaped(n, selectors) && PlainMarks(selectors)
    ensures forall j :: 0 <= j < n ==>
              Accumulated(n, selectors, true)[j] == if Unmarked(n, selectors)[j] then 0 else -1
  {
    var acc := Accumulated(n, selectors, true);
    var unmarked := Unmarked(n, selectors);
    forall j | 0 <= j < n
      ensures acc[j] == if unmarked[j] then 0 else -1
    {
      LaterSelectorsWin(n, selectors, true, j);
      if !unmarked[j] {
        var k := LastNonzero(selectors, j);
      }
    }
  }

  /** Dropping by names keeps exactly the positions no selector names: the
      maximum of the -1/0 accumulator picks them out. */
  lemma DropByNamesMask(n: nat, selectors: seq<seq<int>>)
    requires WellShaped(n, selectors) && PlainMarks(selectors)
    requires exists k, j :: 0 <= k < |selectors| && 0 <= j < n && selectors[k][j] == 1
    ensures !AllZero(Accumulated(n, selectors, true))
    ensures KeepMask(Accumulated(n, selectors, true), Max(Accumulated(n, selectors, true))) == Unmarked(n, selectors)
  {
    var acc := Accumulated(n, selectors, true);
    var unmarked := Unmarked(n, selectors);
    DropAccumulator(n, selectors);
    var k0, j0 :| 0 <= k0 < |selectors| && 0 <= j0 < n && selectors[k0][j0] == 1;
    assert !unmarked[j0];
    assert acc[j0] == -1;
    if exists j :: 0 <= j < n && unmarked[j] {
      var j :| 0 <= j < n && unmarked[j];
      assert acc[j] == 0;
      assert Max(acc) == 0;
      assert KeepMask(acc, 0) == unmarked;
    } else {
      assert Max(acc) == -1;
      assert KeepMask(acc, -1) == unmarked;
    }
  }

  /** Dropping by names only removes exactly the named columns and keeps the
      rest in table order; this needs some selector to name a column, since
      an all-zero accumulator drops everything. */
  lemma DropByNamesKeepsTheRest(columns: seq<string>, selectors: seq<seq<int>>)
    requires WellShaped(|columns|, selectors) && Distinct(columns) && PlainMarks(selectors)
    requires exists k, j :: 0 <= k < |selectors| && 0 <= j < |columns| && selectors[k][j] == 1
    ensures Dropped(columns, selectors) == KeepRows(columns, Unmarked(|columns|, selectors))
    ensures Dropped(columns, selectors) == Pick(columns, TrueIndices(Unmarked(|columns|, selectors)))
  {
    DropByNamesMask(|columns|, selectors);
    assert ResolvedIndices(|columns|, selectors, true) == Accumulated(|columns|, selectors, true);
    KeepRowsPicksTrueIndices(columns, Unmarked(|columns|, selectors));
  }

  // ---------------------------------------------------------------------------
  // The selections of tests/test_select.py on columns x, y, z, with the
  // selector vectors the flattening step produces for them

  /** `KeepRows` on three columns, unfolded. */
  lemma KeepRowsOfThree(a: string, b: string, c: string, ma: bool, mb: bool, mc: bool)
    ensures KeepRows([a, b, c], [ma, mb, mc]) ==
            (if ma then [a] else []) + (if mb then [b] else []) + (if mc then [c] else [])
  {
    assert [a, b, c][..2] == [a, b] && [ma, mb, mc][..2] == [ma, mb];
    assert [a, b][..1] == [a] && [ma, mb][..1] == [ma];
    assert [a][..0] == [] && [ma][..0] == [];
    assert KeepRows([a], [ma]) == (if ma then [a] else []);
    assert KeepRows([a, b], [ma, mb]) == KeepRows([a], [ma]) + (if mb then [b] else []);
    assert KeepRows([a, b, c], [ma, mb, mc]) == KeepRows([a, b], [ma, mb]) + (if mc then [c] else []);
  }

  /** `Restrict` of a three-column ordering, unfolded. */
  lemma RestrictOfThree(a: string, b: string, c: string, kept: seq<string>)
    ensures Restrict([a, b, c], kept) ==
            (if a in kept then [a] else []) + (if b in kept then [b] else []) + (if c in kept then [c] else [])
  {
    assert [a, b, c][..2] == [a, b];
    assert [a, b][..1] == [a];
    assert [a][..0] == [];
    assert Restrict([a], kept) == (if a in kept then [a] else []);
    assert Restrict([a, b], kept) == Restrict([a], kept) + (if b in kept then [b] else []);
    assert Restrict([a, b, c], kept) == Restrict([a, b], kept) + (if c in kept then [c] else []);
  }

  /** Two selectors, unfolded. */
  lemma AccumulatedOfTwo(n: nat, s1: seq<int>, s2: seq<int>, drop: bool)
    requires |s1| == n && |s2| == n
    ensures Accumulated(n, [s1, s2], drop) == Overwrite(Overwrite(Accumulated(n, [], drop), s1, drop), s2, drop)
  {
    assert [s1, s2][..1] == [s1];
    assert [s1][..0] == [];
    assert Accumulated(n, [s1], drop) == Overwrite(Accumulated(n, [], drop), s1, drop);
  }

  /** `Overwrite` on three columns, unfolded. */
  lemma OverwriteOfThree(a: int, b: int, c: int, x: int, y: int, z: int, drop: bool)
    ensures Overwrite([a, b, c], [x, y, z], drop) ==
            [if x != 0 then Written(x, drop) else a,
             if y != 0 then Written(y, drop) else b,
             if z != 0 then Written(z, drop) else c]
  {
  }

  lemma MaxOfThree(a: int, b: int, c: int)
    ensures Max([a, b, c]) == if a >= b && a >= c then a else if b >= c then b else c
  {
    assert [a, b, c][..2] == [a, b];
    assert [a, b][..1] == [a];
  }

  /** `AppendMarked` over three columns, unfolded. */
  lemma AppendMarkedOfThree(columns: seq<string>, o: seq<string>, x: int, y: int, z: int)
    requires |columns| == 3
    ensures var o1 := if x == 1 && columns[0] !in o then o + [columns[0]] else o;
            var o2 := if y == 1 && columns[1] !in o1 then o1 + [columns[1]] else o1;
            AppendMarked(columns, o, [x, y, z], 3) ==
            if z == 1 && columns[2] !in o2 then o2 + [columns[2]] else o2
  {
  }

  /** Two selectors' orderings on three columns, unfolded. */
  lemma OrderingOfTwo(columns: seq<string>, s1: seq<int>, s2: seq<int>)
    requires |columns| == 3 && |s1| == 3 && |s2| == 3
    ensures Ordering(columns, [s1, s2]) ==
            AppendMarked(columns, AppendMarked(columns, [], s1, 3), s2, 3)
  {
    assert [s1, s2][..1] == [s1];
    assert [s1][..0] == [];
    assert Ordering(columns, [s1]) == AppendMarked(columns, [], s1, 3);
  }

  lemma NamesAccumulated()
    ensures Accumulated(3, [[1, 0, 0], [0, 1, 0]], false) == [1, 1, 0]
  {
    AccumulatedOfTwo(3, [1, 0, 0], [0, 1, 0], false);
    assert Accumulated(3, [], false) == [0, 0, 0];
    OverwriteOfThree(0, 0, 0, 1, 0, 0, false);
    OverwriteOfThree(1, 0, 0, 0, 1, 0, false);
  }

  lemma NamesKept()
    ensures !AllZero([1, 1, 0]) && Kept(["x", "y", "z"], [1, 1, 0]) == ["x", "y"]
  {
    assert [1, 1, 0][0] != 0;
    MaxOfThree(1, 1, 0);
    assert KeepMask([1, 1, 0], 1) == [true, true, false];
    KeepRowsOfThree("x", "y", "z", true, true, false);
  }

  lemma NamesOrdering()
    ensures Ordering(["x", "y", "z"], [[1, 0, 0], [0, 1, 0]]) == ["x", "y"]
  {
    var cols := ["x", "y", "z"];
    OrderingOfTwo(cols, [1, 0, 0], [0, 1, 0]);
    AppendMarkedOfThree(cols, [], 1, 0, 0);
    AppendMarkedOfThree(cols, ["x"], 0, 1, 0);
  }

  /** `select('x', 'y')` */
  lemma SelectNamesExample()
    ensures Selected(["x", "y", "z"], [[1, 0, 0], [0, 1, 0]]) == ["x", "y"]
  {
    NamesAccumulated();
    NamesKept();
    NamesOrdering();
    SelectedReordered(["x", "y", "z"], [[1, 0, 0], [0, 1, 0]], [1, 1, 0], ["x", "y"], ["x", "y"]);
    assert ["x", "y"][..1] == ["x"] && ["x"][..0] == [];
    assert Restrict(["x"], ["x", "y"]) == ["x"];
  }

  /** `Selected` when the ordering covers the kept columns: the kept columns
      in ordering order. */
  lemma SelectedReordered(columns: seq<string>, selectors: seq<seq<int>>, acc: seq<int>,
                          kept: seq<string>, ordering: seq<string>)
    requires WellShaped(|columns|, selectors) && selectors != []
    requires Accumulated(|columns|, selectors, false) == acc && !AllZero(acc)
    requires Kept(columns, acc) == kept && Ordering(columns, selectors) == ordering
    requires forall c :: c in kept ==> c in ordering
    ensures Selected(columns, selectors) == Restrict(ordering, kept)
  {
  }

  lemma StarAccumulated()
    ensures Accumulated(3, [[1, 1, 1], [0, -1, 0]], false) == [1, -1, 1]
  {
    AccumulatedOfTwo(3, [1, 1, 1], [0, -1, 0], false);
    assert Accumulated(3, [], false) == [0, 0, 0];
    OverwriteOfThree(0, 0, 0, 1, 1, 1, false);
    OverwriteOfThree(1, 1, 1, 0, -1, 0, false);
  }

  lemma StarKept()
    ensures !AllZero([1, -1, 1]) && Kept(["x", "y", "z"], [1, -1, 1]) == ["x", "z"]
  {
    assert [1, -1, 1][0] != 0;
    MaxOfThree(1, -1, 1);
    assert KeepMask([1, -1, 1], 1) == [true, false, true];
    KeepRowsOfThree("x", "y", "z", true, false, true);
  }

  lemma StarOrdering()
    ensures Ordering(["x", "y", "z"], [[1, 1, 1], [0, -1, 0]]) == ["x", "y", "z"]
  {
    var cols := ["x", "y", "z"];
    OrderingOfTwo(cols, [1, 1, 1], [0, -1, 0]);
    AppendMarkedOfThree(cols, [], 1, 1, 1);
    AppendMarkedOfThree(cols, ["x", "y", "z"], 0, -1, 0);
  }

  /** `select('*', '-y')` */
  lemma SelectStarExample()
    ensures Selected(["x", "y", "z"], [[1, 1, 1], [0, -1, 0]]) == ["x", "z"]
  {
    StarAccumulated();
    StarKept();
    StarOrdering();
    SelectedReordered(["x", "y", "z"], [[1, 1, 1], [0, -1, 0]], [1, -1, 1], ["x", "z"], ["x", "y", "z"]);
    RestrictOfThree("x", "y", "z", ["x", "z"]);
  }

  /** `select(~X.x, ~X.y)`: only z survives. */
  lemma SelectInvertedExample()
    ensures Selected(["x", "y", "z"], [[-1, 0, 0], [0, -1, 0]]) == ["z"]
  {
    var cols := ["x", "y", "z"];
    AccumulatedOfTwo(3, [-1, 0, 0], [0, -1, 0], false);
    assert Accumulated(3, [], false) == [0, 0, 0];
    OverwriteOfThree(0, 0, 0, -1, 0, 0, false);
    OverwriteOfThree(-1, 0, 0, 0, -1, 0, false);
    var acc := Accumulated(3, [[-1, 0, 0], [0, -1, 0]], false);
    assert acc == [-1, -1, 0];
    MaxOfThree(-1, -1, 0);
    assert KeepMask(acc, 0) == [false, false, true];
    KeepRowsOfThree("x", "y", "z", false, false, true);
    OrderingOfTwo(cols, [-1, 0, 0], [0, -1, 0]);
    AppendMarkedOfThree(cols, [], -1, 0, 0);
    AppendMarkedOfThree(cols, [], 0, -1, 0);
    assert Ordering(cols, [[-1, 0, 0], [0, -1, 0]]) == [];
    assert Kept(cols, acc) == ["z"];
    assert "z" !in Ordering(cols, [[-1, 0, 0], [0, -1, 0]]);
  }
}
