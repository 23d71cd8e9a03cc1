/** The `_ply_select` of ply_ng/pandas-stream.py: the same scan as in
    ply_ng/pandas_stream.py, except that column membership is tested
    against a set of the column names. */
module PandasStreamSet {
  import opened Wrappers
  import opened PandasStream

  /** Testing membership in `set(self.columns)` instead of the list gives the
      same outcome as the list version, error for error. */
  method PlySelectBySet(columns: seq<string>, args: seq<string>) returns (r: Result<seq<string>, SelectError>)
    ensures r == SelectColumns(columns, args)
  {
    var inputColumns := set c | c in columns;
    var hasStar := false;
    var includes: seq<string> := [];
    var excludes: seq<string> := [];
    var i := 0;
    while i < |args|
      invariant 0 <= i <= |args|
      invariant Scan(columns, args[..i]) == Ok(ScanState(hasStar, includes, excludes))
    {
      var arg := args[i];
      ScanStep(columns, args, i, ScanState(hasStar, includes, excludes));
      if arg == "*" {
        if hasStar {
          return Err(RepeatedStar);
        }
        hasStar := true;
      } else if arg in inputColumns {
        if arg in includes {
          return Err(RepeatedInclude(arg));
        }
        includes := includes + [arg];
      } else if |arg| == 0 {
        return Err(EmptyArgument);
      } else if arg[0] == '-' && arg[1..] in inputColumns {
        if arg in excludes {
          return Err(RepeatedExclude(arg[1..]));
        }
        excludes := excludes + [arg[1..]];
      } else {
        return Err(Unparseable(arg));
      }
      i := i + 1;
    }
    assert args[..i] == args;
    if |excludes| > 0 && !hasStar {
      return Err(ExcludesWithoutStar);
    }
    if hasStar && |includes| > 0 {
      return Err(StarWithIncludes);
    }
    if exists c :: c in includes && c in excludes {
      return Err(OverlappingIncludeExclude);
    }
    var source := if hasStar then columns else includes;
    r := Ok(Without(source, excludes));
  }
}
