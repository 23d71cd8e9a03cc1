/** The DataFrame methods of ply_ng/pandas_stream.py: the string-based column
    selector `_ply_select`, the row filter `_ply_filter` and the column
    update `_ply_mutate`. A table is reduced to what each method looks at:
    its column labels, its rows, or its columns as a map. */
module PandasStream {
  import opened Wrappers
  import opened Masks

  // ---------------------------------------------------------------------------
  // _ply_select

  /** The ValueErrors `_ply_select` raises, plus the IndexError that `arg[0]`
      raises on an empty argument that is not a column name. */
  datatype SelectError =
    | RepeatedStar
    | RepeatedInclude(column: string)
    | RepeatedExclude(column: string)
    | Unparseable(arg: string)
    | EmptyArgument
    | ExcludesWithoutStar
    | StarWithIncludes
    | OverlappingIncludeExclude

  /** `has_star`, `include_columns` and `exclude_columns` during the scan. */
  datatype ScanState = ScanState(hasStar: bool, includes: seq<string>, excludes: seq<string>)

  /** One iteration of the scan over the arguments. The exact column-name
      match is tried before the `-name` reading. */
  function Step(columns: seq<string>, st: ScanState, arg: string): Result<ScanState, SelectError> {
    if arg == "*" then
      if st.hasStar then Err(RepeatedStar) else Ok(st.(hasStar := true))
    else if arg in columns then
      if arg in st.includes then Err(RepeatedInclude(arg)) else Ok(st.(includes := st.includes + [arg]))
    else if |arg| == 0 then
      Err(EmptyArgument)
    else if arg[0] == '-' && arg[1..] in columns then
      if arg in st.excludes then Err(RepeatedExclude(arg[1..])) else Ok(st.(excludes := st.excludes + [arg[1..]]))
    else
      Err(Unparseable(arg))
  }

  /** The scan over all arguments, left to right, stopping at the first error. */
  function Scan(columns: seq<string>, args: seq<string>): (r: Result<ScanState, SelectError>)
    decreases |args|
  {
    if args == [] then Ok(ScanState(false, [], []))
    else
      match Scan(columns, args[..|args| - 1])
      case Err(e) => Err(e)
      case Ok(st) => Step(columns, st, args[|args| - 1])
  }

  /** Position `i` of `source` is not excluded. */
  function NotExcluded(source: seq<string>, excluded: seq<string>): (mask: seq<bool>)
    ensures |mask| == |source|
  {
    seq(|source|, i requires 0 <= i < |source| => source[i] !in excluded)
  }

  /** `[col for col in source if col not in excluded]`; its order is stated
      by `WithoutKeepsOrder`. */
  function Without(source: seq<string>, excluded: seq<string>): (r: seq<string>)
    ensures forall c :: c in r <==> c in source && c !in excluded
    ensures |r| <= |source|
    decreases |source|
  {
    if source == [] then []
    else
      var n := |source| - 1;
      Without(source[..n], excluded) + if source[n] in excluded then [] else [source[n]]
  }

  /** The column list `_ply_select` returns (the table it returns is the input
      restricted to these columns, in this order), or the error it raises. */
  function SelectColumns(columns: seq<string>, args: seq<string>): (r: Result<seq<string>, SelectError>)
    ensures args == [] ==> r == Ok([])
  {
    match Scan(columns, args)
    case Err(e) => Err(e)
    case Ok(st) =>
      if |st.excludes| > 0 && !st.hasStar then Err(ExcludesWithoutStar)
      else if st.hasStar && |st.includes| > 0 then Err(StarWithIncludes)
      else if exists c :: c in st.includes && c in st.excludes then Err(OverlappingIncludeExclude)
      else Ok(Without(if st.hasStar then columns else st.includes, st.excludes))
  }

  /** A scan error is final: a longer argument list fails with the same error. */
  lemma {:induction false} ScanErrorSticks(columns: seq<string>, args: seq<string>, i: nat)
    requires i <= |args| && Scan(columns, args[..i]).Err?
    ensures Scan(columns, args) == Scan(columns, args[..i])
    decreases |args| - i
  {
    if i < |args| {
      assert args[..i + 1][..i] == args[..i];
      ScanErrorSticks(columns, args, i + 1);
    } else {
      assert args[..i] == args;
    }
  }

  /** Scanning one more argument is one more `Step`, and a failing step
      decides the whole scan. */
  lemma ScanStep(columns: seq<string>, args: seq<string>, i: nat, st: ScanState)
    requires i < |args| && Scan(columns, args[..i]) == Ok(st)
    ensures Scan(columns, args[..i + 1]) == Step(columns, st, args[i])
    ensures Step(columns, st, args[i]).Err? ==> Scan(columns, args) == Step(columns, st, args[i])
  {
    assert args[..i + 1][..i] == args[..i];
    if Step(columns, st, args[i]).Err? {
      ScanErrorSticks(columns, args, i + 1);
    }
  }

  /** `_ply_select` of ply_ng/pandas_stream.py, with list membership. */
  method PlySelect(columns: seq<string>, args: seq<string>) returns (r: Result<seq<string>, SelectError>)
    ensures r == SelectColumns(columns, args)
  {
    var inputColumns := columns;
    var hasStar := false;
    var includes: seq<string> := [];
    var excludes: seq<string> := [];
    var i := 0;
    while i < |args|
      invariant 0 <= i <= |args|
      invariant Scan(columns, args[..i]) == Ok(ScanState(hasStar, includes, excludes))
    {
      var arg := args[i];
      ScanStep(columns, args, i, ScanState(hasStar, includes, excludes));
      if arg == "*" {
        if hasStar {
          return Err(RepeatedStar);
        }
        hasStar := true;
      } else if arg in inputColumns {
        if arg in includes {
          return Err(RepeatedInclude(arg));
        }
        includes := includes + [arg];
      } else if |arg| == 0 {
        return Err(EmptyArgument);
      } else if arg[0] == '-' && arg[1..] in inputColumns {
        if arg in excludes {
          return Err(RepeatedExclude(arg[1..]));
        }
        excludes := excludes + [arg[1..]];
      } else {
        return Err(Unparseable(arg));
      }
      i := i + 1;
    }
    assert args[..i] == args;
    if |excludes| > 0 && !hasStar {
      return Err(ExcludesWithoutStar);
    }
    if hasStar && |includes| > 0 {
      return Err(StarWithIncludes);
    }
    if exists c :: c in includes && c in excludes {
      return Err(OverlappingIncludeExclude);
    }
    var source := if hasStar then columns else includes;
    r := Ok(Without(source, excludes));
  }

  // ---------------------------------------------------------------------------
  // What the scan computes, argument by argument

  /** An argument read as a column to include. */
  predicate IsInclude(columns: seq<string>, a: string) {
    a != "*" && a in columns
  }

  /** An argument read as `-name` for a column `name`. */
  predicate IsExclude(columns: seq<string>, a: string) {
    a != "*" && a !in columns && |a| > 0 && a[0] == '-' && a[1..] in columns
  }

  predicate Parseable(columns: seq<string>, a: string) {
    a == "*" || IsInclude(columns, a) || IsExclude(columns, a)
  }

  /** Position `k` of `args` is an include argument. */
  function IncludeMask(columns: seq<string>, args: seq<string>): (mask: seq<bool>)
    ensures |mask| == |args|
  {
    seq(|args|, k requires 0 <= k < |args| => IsInclude(columns, args[k]))
  }

  /** The include arguments, in argument order (`IncludesKeepOrder`). */
  function Includes(columns: seq<string>, args: seq<string>): (r: seq<string>)
    ensures forall c :: c in r <==> c in args && IsInclude(columns, c)
    decreases |args|
  {
    if args == [] then []
    else
      var n := |args| - 1;
      Includes(columns, args[..n]) + if IsInclude(columns, args[n]) then [args[n]] else []
  }

  /** The output comprehension keeps the source's order: it is the mask
      selection of the positions whose column is not excluded. */
  lemma {:induction false} WithoutKeepsOrder(source: seq<string>, excluded: seq<string>)
    ensures Without(source, excluded) == KeepRows(source, NotExcluded(source, excluded))
    decreases |source|
  {
    if source != [] {
      var n := |source| - 1;
      WithoutKeepsOrder(source[..n], excluded);
      assert NotExcluded(source, excluded)[..n] == NotExcluded(source[..n], excluded);
    }
  }

  /** The includes are the include arguments in argument order: the mask
      selection of the include positions of `args`. */
  lemma {:induction false} IncludesKeepOrder(columns: seq<string>, args: seq<string>)
    ensures Includes(columns, args) == KeepRows(args, IncludeMask(columns, args))
    decreases |args|
  {
    if args != [] {
      var n := |args| - 1;
      IncludesKeepOrder(columns, args[..n]);
      assert IncludeMask(columns, args)[..n] == IncludeMask(columns, args[..n]);
    }
  }

  /** The names the exclude arguments refer to, in argument order. */
  function Excludes(columns: seq<string>, args: seq<string>): (r: seq<string>)
    ensures forall c :: c in r ==> c in columns
    ensures forall k :: 0 <= k < |args| && IsExclude(columns, args[k]) ==> args[k][1..] in r
    decreases |args|
  {
    if args == [] then []
    else
      var n := |args| - 1;
      var r := Excludes(columns, args[..n]) + if IsExclude(columns, args[n]) then [args[n][1..]] else [];
      assert forall k :: 0 <= k < n ==> args[..n][k] == args[k];
      r
  }

  /** Every argument parses, `*` appears at most once and no column is
      included twice: the conditions under which the scan completes. */
  ghost predicate ScanSucceeds(columns: seq<string>, args: seq<string>) {
    forall k :: 0 <= k < |args| ==>
      Parseable(columns, args[k]) &&
      (args[k] == "*" ==> "*" !in args[..k]) &&
      (IsInclude(columns, args[k]) ==> args[k] !in args[..k])
  }

  /** The argument at position `n` is acceptable after the arguments before it. */
  ghost predicate StepSucceeds(columns: seq<string>, before: seq<string>, a: string) {
    Parseable(columns, a) && (a == "*" ==> "*" !in before) && (IsInclude(columns, a) ==> a !in before)
  }

  lemma ScanSucceedsSnoc(columns: seq<string>, args: seq<string>)
    requires args != []
    ensures ScanSucceeds(columns, args) <==>
            ScanSucceeds(columns, args[..|args| - 1]) &&
            StepSucceeds(columns, args[..|args| - 1], args[|args| - 1])
  {
    var n := |args| - 1;
    var p := args[..n];
    assert forall k :: 0 <= k < n ==> p[k] == args[k] && p[..k] == args[..k];
  }

  /** One step from the state that summarises `before` succeeds exactly when
      the argument is acceptable there, and then summarises `before + [a]`. */
  lemma StepMeaning(columns: seq<string>, args: seq<string>)
    requires args != []
    ensures var before := args[..|args| - 1];
            var st := ScanState("*" in before, Includes(columns, before), Excludes(columns, before));
            Step(columns, st, args[|args| - 1]).Ok? <==> StepSucceeds(columns, before, args[|args| - 1])
    ensures var before := args[..|args| - 1];
            var st := ScanState("*" in before, Includes(columns, before), Excludes(columns, before));
            Step(columns, st, args[|args| - 1]).Ok? ==>
            Step(columns, st, args[|args| - 1]).value == ScanState("*" in args, Includes(columns, args), Excludes(columns, args))
  {
    var before := args[..|args| - 1];
    var a := args[|args| - 1];
    assert args == before + [a];
    var st := ScanState("*" in before, Includes(columns, before), Excludes(columns, before));
    assert "*" in args <==> "*" in before || a == "*";
    if a == "*" {
    } else if a in columns {
      assert IsInclude(columns, a);
    } else if |a| == 0 {
      assert !Parseable(columns, a);
    } else if a[0] == '-' && a[1..] in columns {
      assert IsExclude(columns, a);
      assert a !in st.excludes;
    } else {
      assert !Parseable(columns, a);
    }
  }

  /** The scan completes exactly when every argument parses, the star is not
      repeated and no include is repeated; its state then records whether a
      star was seen, the includes in argument order and the excluded names
      in argument order. */
  lemma {:induction false} ScanMeaning(columns: seq<string>, args: seq<string>)
    ensures Scan(columns, args).Ok? <==> ScanSucceeds(columns, args)
    ensures Scan(columns, args).Ok? ==>
            Scan(columns, args).value == ScanState("*" in args, Includes(columns, args), Excludes(columns, args))
    decreases |args|
  {
    if args != [] {
      var n := |args| - 1;
      var p := args[..n];
      var a := args[n];
      ScanMeaning(columns, p);
      ScanSucceedsSnoc(columns, args);
      StepMeaning(columns, args);
      if Scan(columns, p).Ok? {
        assert Scan(columns, args) == Step(columns, Scan(columns, p).value, a);
      } else {
        assert Scan(columns, args).Err?;
      }
    }
  }

  /** The conditions under which `_ply_select` returns, and what it returns:
      with a star, the table's columns in table order minus the excluded
      names; without one, the included names in argument order. */
  lemma SelectOutcome(columns: seq<string>, args: seq<string>)
    ensures SelectColumns(columns, args).Ok? <==>
            ScanSucceeds(columns, args) &&
            (Excludes(columns, args) != [] ==> "*" in args) &&
            ("*" in args ==> Includes(columns, args) == [])
    ensures SelectColumns(columns, args).Ok? ==>
            SelectColumns(columns, args).value ==
            if "*" in args then Without(columns, Excludes(columns, args)) else Includes(columns, args)
  {
    ScanMeaning(columns, args);
    if Scan(columns, args).Ok? {
      var st := Scan(columns, args).value;
      assert st == ScanState("*" in args, Includes(columns, args), Excludes(columns, args));
      SelectAfterScan(columns, args, st);
      if !st.hasStar {
        WithoutNothing(st.includes);
      }
    } else {
      assert SelectColumns(columns, args).Err?;
    }
  }

  /** The checks after a completed scan; the overlap check never fires
      once the two before it have passed. */
  lemma SelectAfterScan(columns: seq<string>, args: seq<string>, st: ScanState)
    requires Scan(columns, args) == Ok(st)
    ensures SelectColumns(columns, args).Ok? <==>
            (|st.excludes| > 0 ==> st.hasStar) && (st.hasStar ==> |st.includes| == 0)
    ensures SelectColumns(columns, args).Ok? ==>
            SelectColumns(columns, args).value ==
            if st.hasStar then Without(columns, st.excludes) else Without(st.includes, [])
  {
    if !(|st.excludes| > 0 && !st.hasStar) && !(st.hasStar && |st.includes| > 0) {
      assert st.includes == [] || st.excludes == [];
      assert !exists c :: c in st.includes && c in st.excludes;
    }
  }

  /** The repeated-exclude check compares `-name` with stored bare names, and
      the overlap check is pre-empted by the two checks before it: neither
      error is ever raised. */
  lemma UnreachableSelectErrors(columns: seq<string>, args: seq<string>)
    ensures SelectColumns(columns, args).Err? ==>
            !SelectColumns(columns, args).error.RepeatedExclude? &&
            !SelectColumns(columns, args).error.OverlappingIncludeExclude?
  {
    NoRepeatedExcludeInScan(columns, args);
    if Scan(columns, args).Ok? {
      var st := Scan(columns, args).value;
      if exists c :: c in st.includes && c in st.excludes {
        var c :| c in st.includes && c in st.excludes;
        assert |st.includes| > 0 && |st.excludes| > 0;
        assert SelectColumns(columns, args) == Err(if st.hasStar then StarWithIncludes else ExcludesWithoutStar);
      }
    }
  }

  lemma {:induction false} NoRepeatedExcludeInScan(columns: seq<string>, args: seq<string>)
    ensures Scan(columns, args).Err? ==>
              !Scan(columns, args).error.RepeatedExclude? && !Scan(columns, args).error.OverlappingIncludeExclude?
    ensures Scan(columns, args).Ok? ==> forall c :: c in Scan(columns, args).value.excludes ==> c in columns
    decreases |args|
  {
    if args != [] {
      NoRepeatedExcludeInScan(columns, args[..|args| - 1]);
    }
  }

  /** Without a star an exclude is always an error, so the output is the
      includes; with a star there are no includes, so the output is
      every column that is not excluded. */
  lemma SelectedColumnsAreNamed(columns: seq<string>, args: seq<string>)
    requires SelectColumns(columns, args).Ok?
    ensures forall c :: c in SelectColumns(columns, args).value <==>
              if "*" in args then c in columns && !(exists k :: 0 <= k < |args| && IsExclude(columns, args[k]) && args[k][1..] == c)
              else c in args && IsInclude(columns, c)
  {
    SelectOutcome(columns, args);
    ExcludesAreNamed(columns, args);
  }

  lemma {:induction false} ExcludesAreNamed(columns: seq<string>, args: seq<string>)
    ensures forall c :: c in Excludes(columns, args) <==>
              exists k :: 0 <= k < |args| && IsExclude(columns, args[k]) && args[k][1..] == c
    decreases |args|
  {
    if args != [] {
      var n := |args| - 1;
      ExcludesAreNamed(columns, args[..n]);
      assert forall k :: 0 <= k < n ==> args[..n][k] == args[k];
    }
  }

  // The argument lists of tests/test_pandas_stream.py on the columns x, y

  lemma SelectErrorExamples()
    ensures SelectColumns(["x", "y"], ["z"]) == Err(Unparseable("z"))
    ensures SelectColumns(["x", "y"], ["-z"]) == Err(Unparseable("-z"))
    ensures SelectColumns(["x", "y"], ["-x"]) == Err(ExcludesWithoutStar)
    ensures SelectColumns(["x", "y"], ["*", "x"]) == Err(StarWithIncludes)
    ensures SelectColumns(["x", "y"], ["*", "*"]) == Err(RepeatedStar)
    ensures SelectColumns(["x", "y"], ["x", "x"]) == Err(RepeatedInclude("x"))
    ensures SelectColumns(["x", "y"], [""]) == Err(EmptyArgument)
  {
    assert ["-z"][0][1..] == "z";
    assert ["-x"][0][1..] == "x";
    assert ["*", "x"][..1] == ["*"];
    assert ["*", "*"][..1] == ["*"];
    assert ["x", "x"][..1] == ["x"];
  }

  lemma SelectStarExample()
    ensures SelectColumns(["x", "y"], ["*"]) == Ok(["x", "y"])
  {
    WithoutNothing(["x", "y"]);
  }

  lemma SelectReorderExample()
    ensures SelectColumns(["x", "y"], ["y", "x"]) == Ok(["y", "x"])
  {
    assert ["y", "x"][..1] == ["y"];
    assert ["y"][..0] == [];
    assert [] + ["y"] == ["y"] && ["y"] + ["x"] == ["y", "x"];
    assert Scan(["x", "y"], ["y"]) == Step(["x", "y"], ScanState(false, [], []), "y");
    assert Scan(["x", "y"], ["y"]) == Ok(ScanState(false, ["y"], []));
    assert Scan(["x", "y"], ["y", "x"]) == Step(["x", "y"], ScanState(false, ["y"], []), "x");
    assert Scan(["x", "y"], ["y", "x"]) == Ok(ScanState(false, ["y", "x"], []));
    WithoutNothing(["y", "x"]);
  }

  lemma SelectStarMinusExample()
    ensures SelectColumns(["x", "y"], ["*", "-y"]) == Ok(["x"])
  {
    assert ["*", "-y"][..1] == ["*"];
    assert "-y"[1..] == "y";
    assert Scan(["x", "y"], ["*"]) == Ok(ScanState(true, [], []));
    assert "-y" != "*" && "-y" !in ["x", "y"] && "-y"[0] == '-' && "-y" !in [];
    assert [] + ["-y"[1..]] == ["y"];
    assert Step(["x", "y"], ScanState(true, [], []), "-y") == Ok(ScanState(true, [], ["y"]));
    assert Scan(["x", "y"], ["*", "-y"]) == Ok(ScanState(true, [], ["y"]));
    assert ["x", "y"][..1] == ["x"];
    assert Without(["x", "y"], ["y"]) == ["x"];
  }

  lemma ScanStarMinusBoth()
    ensures Scan(["x", "y"], ["*", "-x", "-y"]) == Ok(ScanState(true, [], ["x", "y"]))
  {
    assert ["*", "-x", "-y"][..2] == ["*", "-x"];
    assert ["*", "-x"][..1] == ["*"];
    assert "-x"[1..] == "x" && "-y"[1..] == "y";
    assert Scan(["x", "y"], ["*"]) == Ok(ScanState(true, [], []));
    assert "-x" != "*" && "-x" !in ["x", "y"] && "-x"[0] == '-' && "-x" !in [];
    assert [] + ["-x"[1..]] == ["x"] && ["x"] + ["-y"[1..]] == ["x", "y"];
    assert Step(["x", "y"], ScanState(true, [], []), "-x") == Ok(ScanState(true, [], ["x"]));
    assert Scan(["x", "y"], ["*", "-x"]) == Ok(ScanState(true, [], ["x"]));
    assert "-y" != "*" && "-y" !in ["x", "y"] && "-y"[0] == '-' && "-y" !in ["x"];
    assert Step(["x", "y"], ScanState(true, [], ["x"]), "-y") == Ok(ScanState(true, [], ["x", "y"]));
  }

  lemma SelectStarMinusBothExample()
    ensures SelectColumns(["x", "y"], ["*", "-x", "-y"]) == Ok([])
  {
    ScanStarMinusBoth();
    assert ["x", "y"][..1] == ["x"];
    assert Without(["x", "y"], ["x", "y"]) == [];
  }

  lemma SelectExamples()
    ensures SelectColumns(["x", "y"], []) == Ok([])
    ensures SelectColumns(["x", "y"], ["*"]) == Ok(["x", "y"])
    ensures SelectColumns(["x", "y"], ["y", "x"]) == Ok(["y", "x"])
    ensures SelectColumns(["x", "y"], ["*", "-y"]) == Ok(["x"])
    ensures SelectColumns(["x", "y"], ["*", "-x", "-y"]) == Ok([])
  {
    SelectStarExample();
    SelectReorderExample();
    SelectStarMinusExample();
    SelectStarMinusBothExample();
  }

  lemma ScanRepeatedExclude()
    ensures Scan(["x", "y"], ["*", "-y", "-y"]) == Ok(ScanState(true, [], ["y", "y"]))
  {
    assert ["*", "-y", "-y"][..2] == ["*", "-y"];
    assert ["*", "-y"][..1] == ["*"];
    assert "-y"[1..] == "y";
    assert Scan(["x", "y"], ["*"]) == Ok(ScanState(true, [], []));
    assert "-y"[1..] in ["x", "y"] && "-y" != "*";
    assert [] + ["-y"[1..]] == ["y"] && ["y"] + ["-y"[1..]] == ["y", "y"];
    assert Step(["x", "y"], ScanState(true, [], []), "-y") == Ok(ScanState(true, [], ["y"]));
    assert Scan(["x", "y"], ["*", "-y"]) == Ok(ScanState(true, [], ["y"]));
    assert "-y"[0] == '-' && "-y" !in ["x", "y"] && "-y" !in ["y"];
    assert Step(["x", "y"], ScanState(true, [], ["y"]), "-y") == Ok(ScanState(true, [], ["y", "y"]));
  }

  /** A repeated exclude is accepted and acts like a single one. */
  lemma RepeatedExcludeAccepted()
    ensures SelectColumns(["x", "y"], ["*", "-y", "-y"]) == Ok(["x"])
  {
    ScanRepeatedExclude();
    assert ["x", "y"][..1] == ["x"];
    assert Without(["x", "y"], ["y", "y"]) == ["x"];
  }

  lemma {:induction false} WithoutNothing(source: seq<string>)
    ensures Without(source, []) == source
    decreases |source|
  {
    if source != [] {
      WithoutNothing(source[..|source| - 1]);
      assert source[..|source| - 1] + [source[|source| - 1]] == source;
    }
  }

  // ---------------------------------------------------------------------------
  // _ply_filter

  /** Boolean indexing with a mask whose length differs from the table's. */
  datatype FilterError = MaskLengthMismatch

  /** Element-wise `&` of two boolean masks. */
  function And(x: seq<bool>, y: seq<bool>): (r: seq<bool>)
    requires |x| == |y|
    ensures |r| == |x|
  {
    seq(|x|, i requires 0 <= i < |x| => x[i] && y[i])
  }

  /** `reduce(lambda x, y: x & y, masks)`: a left fold from the first mask. */
  function AndAll(masks: seq<seq<bool>>): (r: seq<bool>)
    requires |masks| > 0 && forall k :: 0 <= k < |masks| ==> |masks[k]| == |masks[0]|
    ensures |r| == |masks[0]|
    decreases |masks|
  {
    if |masks| == 1 then masks[0]
    else And(AndAll(masks[..|masks| - 1]), masks[|masks| - 1])
  }

  /** The folded mask is true exactly where every mask is true. */
  lemma {:induction false} AndAllMeansEvery(masks: seq<seq<bool>>)
    requires |masks| > 0 && forall k :: 0 <= k < |masks| ==> |masks[k]| == |masks[0]|
    ensures forall i :: 0 <= i < |masks[0]| ==>
              (AndAll(masks)[i] <==> forall k :: 0 <= k < |masks| ==> masks[k][i])
    decreases |masks|
  {
    if |masks| > 1 {
      var n := |masks| - 1;
      AndAllMeansEvery(masks[..n]);
      assert forall k :: 0 <= k < n ==> masks[..n][k] == masks[k];
    }
  }

  /** Each condition evaluated on the table (`to_callable(condition)(self)`). */
  function Evaluated<R>(rows: seq<R>, conditions: seq<seq<R> -> seq<bool>>): (masks: seq<seq<bool>>)
    ensures |masks| == |conditions|
  {
    seq(|conditions|, k requires 0 <= k < |conditions| => conditions[k](rows))
  }

  /** `_ply_filter`: no conditions return the table itself; otherwise the rows
      where the AND of all condition masks holds. */
  function Filter<R>(rows: seq<R>, conditions: seq<seq<R> -> seq<bool>>): (r: Result<seq<R>, FilterError>)
    ensures r.Ok? ==> |r.value| <= |rows|
    ensures conditions == [] ==> r == Ok(rows)
  {
    if conditions == [] then Ok(rows)
    else
      var masks := Evaluated(rows, conditions);
      if exists k :: 0 <= k < |masks| && |masks[k]| != |rows| then Err(MaskLengthMismatch)
      else Ok(KeepRows(rows, AndAll(masks)))
  }

  /** Where every condition holds: an independent, quantified statement of
      the row mask `_ply_filter` applies. */
  function EveryConditionHolds<R>(rows: seq<R>, conditions: seq<seq<R> -> seq<bool>>): (mask: seq<bool>)
    ensures |mask| == |rows|
  {
    seq(|rows|, i requires 0 <= i < |rows| =>
      forall k :: 0 <= k < |conditions| ==> i < |conditions[k](rows)| && conditions[k](rows)[i])
  }

  /** Filtering keeps exactly the rows at which every condition holds, in
      their original order (see `KeepRowsPicksTrueIndices`), and fails
      exactly when some mask has the wrong length; without conditions the
      table is returned unchanged. */
  lemma FilterKeepsRowsWhereAllHold<R>(rows: seq<R>, conditions: seq<seq<R> -> seq<bool>>)
    ensures conditions == [] ==> Filter(rows, conditions) == Ok(rows)
    ensures Filter(rows, conditions).Ok? <==>
            forall k :: 0 <= k < |conditions| ==> |conditions[k](rows)| == |rows|
    ensures Filter(rows, conditions).Ok? ==>
            Filter(rows, conditions).value == KeepRows(rows, EveryConditionHolds(rows, conditions))
  {
    if conditions != [] {
      var masks := Evaluated(rows, conditions);
      if forall k :: 0 <= k < |masks| ==> |masks[k]| == |rows| {
        AndAllMeansEvery(masks);
        var all := EveryConditionHolds(rows, conditions);
        assert forall k :: 0 <= k < |masks| ==> masks[k] == conditions[k](rows);
        forall i | 0 <= i < |rows| ensures AndAll(masks)[i] == all[i] {
          assert AndAll(masks)[i] <==> forall k :: 0 <= k < |masks| ==> masks[k][i];
        }
        assert AndAll(masks) == all;
      }
    } else {
      KeepRowsAll(rows);
      assert EveryConditionHolds(rows, conditions) == seq(|rows|, _ => true);
    }
  }

  // ---------------------------------------------------------------------------
  // _ply_mutate

  /** A table as `_ply_mutate` sees it: its columns by name, and its index.
      Column contents are opaque values. */
  datatype Frame<C> = Frame(columns: map<string, C>, index: C)

  /** The table after the given keyword assignments, in call order: each
      value is evaluated on the input table `df`. */
  function Mutated<C>(df: Frame<C>, kwargs: seq<(string, Frame<C> -> C)>): (r: Frame<C>)
    ensures df.columns.Keys <= r.columns.Keys
    ensures forall k :: 0 <= k < |kwargs| && kwargs[k].0 != "index" ==> kwargs[k].0 in r.columns
    decreases |kwargs|
  {
    if kwargs == [] then df
    else
      var n := |kwargs| - 1;
      var prev := Mutated(df, kwargs[..n]);
      assert forall k :: 0 <= k < n ==> kwargs[..n][k] == kwargs[k];
      if kwargs[n].0 == "index" then prev.(index := kwargs[n].1(df))
      else prev.(columns := prev.columns[kwargs[n].0 := kwargs[n].1(df)])
  }

  /** The columns afterwards are those of the input table plus every name
      assigned by a keyword other than `index`. */
  lemma {:induction false} MutatedKeys<C>(df: Frame<C>, kwargs: seq<(string, Frame<C> -> C)>)
    ensures Mutated(df, kwargs).columns.Keys ==
            df.columns.Keys + (set k | 0 <= k < |kwargs| && kwargs[k].0 != "index" :: kwargs[k].0)
    decreases |kwargs|
  {
    if kwargs != [] {
      var n := |kwargs| - 1;
      var prefix := kwargs[..n];
      MutatedKeys(df, prefix);
      assert (set k | 0 <= k < |kwargs| && kwargs[k].0 != "index" :: kwargs[k].0) ==
             (set k | 0 <= k < n && prefix[k].0 != "index" :: prefix[k].0) +
             (if kwargs[n].0 != "index" then {kwargs[n].0} else {});
    }
  }

  /** Each assigned name holds its value evaluated on the input table. */
  lemma {:induction false} MutatedAssigns<C>(df: Frame<C>, kwargs: seq<(string, Frame<C> -> C)>)
    requires forall i, j :: 0 <= i < j < |kwargs| ==> kwargs[i].0 != kwargs[j].0
    ensures forall k :: 0 <= k < |kwargs| && kwargs[k].0 != "index" ==> Mutated(df, kwargs).columns[kwargs[k].0] == kwargs[k].1(df)
    decreases |kwargs|
  {
    if kwargs != [] {
      var n := |kwargs| - 1;
      var prefix := kwargs[..n];
      MutatedAssigns(df, prefix);
      forall k | 0 <= k < |kwargs| && kwargs[k].0 != "index"
        ensures Mutated(df, kwargs).columns[kwargs[k].0] == kwargs[k].1(df)
      {
        if k < n {
          assert prefix[k] == kwargs[k];
          assert kwargs[k].0 != kwargs[n].0;
        }
      }
    }
  }

  /** The `index` keyword, when given, becomes the index. */
  lemma {:induction false} MutatedIndex<C>(df: Frame<C>, kwargs: seq<(string, Frame<C> -> C)>)
    requires forall i, j :: 0 <= i < j < |kwargs| ==> kwargs[i].0 != kwargs[j].0
    ensures forall k :: 0 <= k < |kwargs| && kwargs[k].0 == "index" ==> Mutated(df, kwargs).index == kwargs[k].1(df)
    decreases |kwargs|
  {
    if kwargs != [] {
      var n := |kwargs| - 1;
      var prefix := kwargs[..n];
      if kwargs[n].0 == "index" {
        assert Mutated(df, kwargs).index == kwargs[n].1(df);
        assert forall k :: 0 <= k < n ==> kwargs[k].0 != "index";
      } else {
        assert forall i, j :: 0 <= i < j < |prefix| ==> prefix[i].0 != prefix[j].0;
        MutatedIndex(df, prefix);
        assert Mutated(df, kwargs).index == Mutated(df, prefix).index;
        assert forall k :: 0 <= k < n ==> prefix[k] == kwargs[k];
      }
    }
  }

  /** Columns no keyword names are those of the input table; a column
      called `index` is never touched, since that keyword sets the index. */
  lemma {:induction false} MutatedKeeps<C>(df: Frame<C>, kwargs: seq<(string, Frame<C> -> C)>)
    ensures forall c :: c in df.columns && (c == "index" || forall k :: 0 <= k < |kwargs| ==> kwargs[k].0 != c) ==>
              Mutated(df, kwargs).columns[c] == df.columns[c]
    decreases |kwargs|
  {
    if kwargs != [] {
      var n := |kwargs| - 1;
      var prefix := kwargs[..n];
      MutatedKeeps(df, prefix);
      var prev := Mutated(df, prefix);
      forall c | c in df.columns && (c == "index" || forall k :: 0 <= k < |kwargs| ==> kwargs[k].0 != c)
        ensures Mutated(df, kwargs).columns[c] == df.columns[c]
      {
        assert c == "index" || forall k :: 0 <= k < |prefix| ==> prefix[k].0 != c by {
          if c != "index" {
            forall k | 0 <= k < |prefix| ensures prefix[k].0 != c {
              assert prefix[k] == kwargs[k];
            }
          }
        }
        assert prev.columns[c] == df.columns[c];
        assert kwargs[n].0 == "index" || kwargs[n].0 != c;
      }
    }
  }

  /** With no keyword `index`, the index is that of the input table. */
  lemma {:induction false} MutatedKeepsIndex<C>(df: Frame<C>, kwargs: seq<(string, Frame<C> -> C)>)
    ensures (forall k :: 0 <= k < |kwargs| ==> kwargs[k].0 != "index") ==> Mutated(df, kwargs).index == df.index
    decreases |kwargs|
  {
    if kwargs != [] && forall k :: 0 <= k < |kwargs| ==> kwargs[k].0 != "index" {
      var n := |kwargs| - 1;
      var prefix := kwargs[..n];
      assert forall k :: 0 <= k < |prefix| ==> prefix[k].0 != "index" by {
        forall k | 0 <= k < |prefix| ensures prefix[k].0 != "index" {
          assert prefix[k] == kwargs[k];
        }
      }
      MutatedKeepsIndex(df, prefix);
      assert kwargs[n].0 != "index";
    }
  }

  /** `_ply_mutate(self, **kwargs)`: each keyword value, evaluated on the
      input table, becomes the column of that name; the keyword `index`
      replaces the index instead. `kwargs` lists the keywords in call
      order, so the names are distinct. */
  method PlyMutate<C>(df: Frame<C>, kwargs: seq<(string, Frame<C> -> C)>) returns (r: Frame<C>)
    requires forall i, j :: 0 <= i < j < |kwargs| ==> kwargs[i].0 != kwargs[j].0
    ensures r.columns.Keys == df.columns.Keys + (set k | 0 <= k < |kwargs| && kwargs[k].0 != "index" :: kwargs[k].0)
    ensures forall k :: 0 <= k < |kwargs| && kwargs[k].0 != "index" ==> r.columns[kwargs[k].0] == kwargs[k].1(df)
    ensures forall c :: c in df.columns && (c == "index" || forall k :: 0 <= k < |kwargs| ==> kwargs[k].0 != c) ==>
              r.columns[c] == df.columns[c]
    ensures forall k :: 0 <= k < |kwargs| && kwargs[k].0 == "index" ==> r.index == kwargs[k].1(df)
    ensures (forall k :: 0 <= k < |kwargs| ==> kwargs[k].0 != "index") ==> r.index == df.index
  {
    r := Frame(df.columns, df.index);
    var i := 0;
    while i < |kwargs|
      invariant 0 <= i <= |kwargs|
      invariant r == Mutated(df, kwargs[..i])
    {
      var (name, value) := kwargs[i];
      var evaluated := value(df);
      assert kwargs[..i + 1][..i] == kwargs[..i];
      if name == "index" {
        r := r.(index := evaluated);
      } else {
        r := r.(columns := r.columns[name := evaluated]);
      }
      i := i + 1;
    }
    assert kwargs[..i] == kwargs;
    MutatedKeys(df, kwargs);
    MutatedAssigns(df, kwargs);
    MutatedIndex(df, kwargs);
    MutatedKeeps(df, kwargs);
    MutatedKeepsIndex(df, kwargs);
  }
}
