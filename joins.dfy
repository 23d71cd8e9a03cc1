/** The join-key normalisation of ply_ng/joins.py (`_get_join_parameters`):
    the `by` keyword becomes the `left_on` and `right_on` arguments of the
    merge, and `suffixes` defaults to ("_x", "_y"). Keys are of an abstract
    type `K` (column names or symbolic expressions alike). */
module Joins {
  import opened Wrappers

  /** The `by` keyword: absent (or None), a tuple, a list, or any other
      value, which is neither a tuple nor a list (a string such as 'x' is one). */
  datatype By<K> = Absent | Scalar(key: K) | TupleBy(items: seq<K>) | ListBy(elems: seq<Elem<K>>)

  /** An element of a list `by`: a tuple, or anything else. */
  datatype Elem<K> = Plain(key: K) | Tup(items: seq<K>)

  /** A `left_on` or `right_on` value: None, one key, or a list of keys. */
  datatype On<K> = NoKey | Single(key: K) | Keys(keys: seq<K>)

  datatype JoinParameters<K> = JoinParameters(leftOn: On<K>, rightOn: On<K>, suffixes: (string, string))

  /** Unpacking into two names met a different number of values. */
  datatype JoinError = UnpackArity(got: nat)

  const DefaultSuffixes: (string, string) := ("_x", "_y")

  /** `[x if isinstance(x, tuple) else (x, x) for x in by]` */
  function Paired<K>(elems: seq<Elem<K>>): (rows: seq<seq<K>>)
    ensures |rows| == |elems|
    ensures forall i :: 0 <= i < |elems| ==>
              rows[i] == match elems[i] case Plain(k) => [k, k] case Tup(items) => items
  {
    seq(|elems|, i requires 0 <= i < |elems| => match elems[i] case Plain(k) => [k, k] case Tup(items) => items)
  }

  /** The length of the shortest row. */
  function MinLength<K>(rows: seq<seq<K>>): (m: nat)
    requires |rows| > 0
    ensures forall i :: 0 <= i < |rows| ==> m <= |rows[i]|
    ensures exists i :: 0 <= i < |rows| && m == |rows[i]|
    decreases |rows|
  {
    if |rows| == 1 then |rows[0]|
    else
      var rest := MinLength(rows[..|rows| - 1]);
      if |rows[|rows| - 1]| < rest then |rows[|rows| - 1]| else rest
  }

  /** `zip(*rows)`: one column per position of the shortest row; nothing when
      there are no rows. */
  function Zip<K>(rows: seq<seq<K>>): (columns: seq<seq<K>>)
    ensures rows == [] ==> columns == []
    ensures rows != [] ==> |columns| == MinLength(rows)
    ensures forall c :: 0 <= c < |columns| ==> |columns[c]| == |rows|
    ensures forall c, i :: 0 <= c < |columns| && 0 <= i < |rows| ==> columns[c][i] == rows[i][c]
  {
    if rows == [] then []
    else
      var m := MinLength(rows);
      seq(m, c requires 0 <= c < m => seq(|rows|, i requires 0 <= i < |rows| => rows[i][c]))
  }

  /** `_get_join_parameters`: `suffixes` is `None` when the keyword is absent. */
  function GetJoinParameters<K>(on: By<K>, suffixes: Option<(string, string)>): (r: Result<JoinParameters<K>, JoinError>)
    ensures r.Ok? ==> r.value.suffixes == if suffixes.None? then ("_x", "_y") else suffixes.value
    ensures r.Err? ==> (on.TupleBy? || on.ListBy?) && r.error.got != 2
    ensures on.TupleBy? ==> (r.Ok? <==> |on.items| == 2)
    ensures (on.Absent? || on.Scalar?) ==> r.Ok? && r.value.leftOn == r.value.rightOn
  {
    var sfx := match suffixes case None => DefaultSuffixes case Some(s) => s;
    match on
    case TupleBy(items) =>
      if |items| == 2 then Ok(JoinParameters(Single(items[0]), Single(items[1]), sfx))
      else Err(UnpackArity(|items|))
    case ListBy(elems) =>
      var columns := Zip(Paired(elems));
      if |columns| == 2 then Ok(JoinParameters(Keys(columns[0]), Keys(columns[1]), sfx))
      else Err(UnpackArity(|columns|))
    case Absent => Ok(JoinParameters(NoKey, NoKey, sfx))
    case Scalar(k) => Ok(JoinParameters(Single(k), Single(k), sfx))
  }

  // ---------------------------------------------------------------------------
  // Properties

  /** No `by` leaves both sides to the merge's default; a `by` that is
      neither a tuple nor a list is used on both sides. */
  lemma ScalarOnBothSides<K>(on: By<K>, suffixes: Option<(string, string)>)
    requires on.Absent? || on.Scalar?
    ensures GetJoinParameters(on, suffixes).Ok?
    ensures var p := GetJoinParameters(on, suffixes).value;
            p.leftOn == p.rightOn && (on.Absent? <==> p.leftOn.NoKey?) &&
            (on.Scalar? ==> p.leftOn == Single(on.key))
  {
  }

  /** A tuple `by` splits into its two halves, and any other length is an
      unpacking error. */
  lemma TupleSplits<K>(items: seq<K>, suffixes: Option<(string, string)>)
    ensures GetJoinParameters(TupleBy(items), suffixes).Ok? <==> |items| == 2
    ensures |items| == 2 ==>
            GetJoinParameters(TupleBy(items), suffixes).value.leftOn == Single(items[0]) &&
            GetJoinParameters(TupleBy(items), suffixes).value.rightOn == Single(items[1])
    ensures |items| != 2 ==> GetJoinParameters(TupleBy(items), suffixes) == Err(UnpackArity(|items|))
  {
  }

  /** The left key of a list element: the key itself, or the tuple's first item. */
  function LeftKey<K>(e: Elem<K>): K
    requires e.Plain? || |e.items| >= 2
  {
    match e case Plain(k) => k case Tup(items) => items[0]
  }

  function RightKey<K>(e: Elem<K>): K
    requires e.Plain? || |e.items| >= 2
  {
    match e case Plain(k) => k case Tup(items) => items[1]
  }

  /** Every tuple in a list `by` has at least two items, and one has exactly two. */
  ghost predicate PairsAvailable<K>(elems: seq<Elem<K>>) {
    (forall i :: 0 <= i < |elems| ==> elems[i].Plain? || |elems[i].items| >= 2) &&
    ((forall i :: 0 <= i < |elems| ==> elems[i].Tup?) ==> exists i :: 0 <= i < |elems| && |elems[i].items| == 2)
  }

  /** A list `by` unzips into two lists of the same length as `by`, in its
      order: plain elements on both sides, tuples split into their first and
      second items (later items of longer tuples are dropped). It fails when
      the list is empty or its shortest row is not of length two. */
  lemma ListUnzips<K>(elems: seq<Elem<K>>, suffixes: Option<(string, string)>)
    ensures GetJoinParameters(ListBy(elems), suffixes).Ok? <==> elems != [] && PairsAvailable(elems)
    ensures elems == [] ==> GetJoinParameters(ListBy(elems), suffixes) == Err(UnpackArity(0))
    ensures GetJoinParameters(ListBy(elems), suffixes).Ok? ==>
            var p := GetJoinParameters(ListBy(elems), suffixes).value;
            p.leftOn.Keys? && p.rightOn.Keys? &&
            |p.leftOn.keys| == |elems| && |p.rightOn.keys| == |elems| &&
            (forall i :: 0 <= i < |elems| ==> p.leftOn.keys[i] == LeftKey(elems[i]) && p.rightOn.keys[i] == RightKey(elems[i]))
  {
    var rows := Paired(elems);
    if elems != [] {
      var m := MinLength(rows);
      if m == 2 {
        forall i | 0 <= i < |elems| ensures elems[i].Plain? || |elems[i].items| >= 2 {
          assert |rows[i]| >= 2;
        }
        if forall i :: 0 <= i < |elems| ==> elems[i].Tup? {
          var i :| 0 <= i < |rows| && m == |rows[i]|;
          assert |elems[i].items| == 2;
        }
      }
      if PairsAvailable(elems) {
        forall i | 0 <= i < |elems| ensures |rows[i]| >= 2 {
        }
        if exists i :: 0 <= i < |elems| && elems[i].Plain? {
          var i :| 0 <= i < |elems| && elems[i].Plain?;
          assert |rows[i]| == 2;
        } else {
          var i :| 0 <= i < |elems| && |elems[i].items| == 2;
          assert |rows[i]| == 2;
        }
        assert m == 2;
      }
    }
  }

  /** A list of plain keys gives the same list on both sides. */
  lemma PlainListOnBothSides<K>(keys: seq<K>, suffixes: Option<(string, string)>)
    requires keys != []
    ensures var p := GetJoinParameters(ListBy(seq(|keys|, i requires 0 <= i < |keys| => Plain(keys[i]))), suffixes);
            p.Ok? && p.value.leftOn == Keys(keys) && p.value.rightOn == Keys(keys)
  {
    var elems := seq(|keys|, i requires 0 <= i < |keys| => Plain(keys[i]));
    ListUnzips(elems, suffixes);
    assert elems[0].Plain?;
  }

  // The `by` values of tests/test_joins.py

  /** `by='x'` */
  lemma JoinByScalarExample()
    ensures GetJoinParameters(Scalar("x"), None) == Ok(JoinParameters(Single("x"), Single("x"), ("_x", "_y")))
  {
  }

  /** `by=[('x', 'x'), ('y', 'y')]` */
  lemma JoinByPairsExample()
    ensures GetJoinParameters(ListBy([Tup(["x", "x"]), Tup(["y", "y"])]), None) ==
            Ok(JoinParameters(Keys(["x", "y"]), Keys(["x", "y"]), ("_x", "_y")))
  {
    var pairs := [Tup(["x", "x"]), Tup(["y", "y"])];
    assert |pairs[0].items| == 2;
    ListUnzips(pairs, None);
    var p := GetJoinParameters(ListBy(pairs), None).value;
    assert p.leftOn.keys == ["x", "y"] && p.rightOn.keys == ["x", "y"];
  }

  /** `by=['x', 'y']` */
  lemma JoinByNamesExample()
    ensures GetJoinParameters(ListBy([Plain("x"), Plain("y")]), None) ==
            Ok(JoinParameters(Keys(["x", "y"]), Keys(["x", "y"]), ("_x", "_y")))
  {
    var plain := [Plain("x"), Plain("y")];
    ListUnzips(plain, None);
    var q := GetJoinParameters(ListBy(plain), None).value;
    assert q.leftOn.keys == ["x", "y"] && q.rightOn.keys == ["x", "y"];
  }

  /** `by=['x'], suffixes=('_one', '_two')`, and an empty list */
  lemma JoinSuffixAndEmptyExamples()
    ensures GetJoinParameters(ListBy([Plain("x")]), Some(("_one", "_two"))) ==
            Ok(JoinParameters(Keys(["x"]), Keys(["x"]), ("_one", "_two")))
    ensures GetJoinParameters<string>(ListBy([]), None) == Err(UnpackArity(0))
  {
    var one := [Plain("x")];
    ListUnzips(one, Some(("_one", "_two")));
    var q := GetJoinParameters(ListBy(one), Some(("_one", "_two"))).value;
    assert q.leftOn.keys == ["x"] && q.rightOn.keys == ["x"];
  }
}
