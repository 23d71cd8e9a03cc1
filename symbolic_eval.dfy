/** The lazy expression tree of ply_ng/symbolic_eval.py and its evaluator.

    Python has one universe of objects: an `Expression` is an object like any
    other and can be stored in a list, bound in a context or returned by a
    call. The model keeps that single universe in `Obj`: host objects the
    model does not look into (`Atom`), plain lists and tuples (`Container`),
    and the three symbolic node kinds. Attribute lookup and calls on host
    objects are the two capabilities of a `Host`, passed in as functions. */
module SymbolicEval {
  import opened Wrappers

  /** A context key. `X` is `Symbol(0)`; the tests also bind names. */
  datatype Key = Position(n: nat) | Named(name: string)

  datatype Obj<A> =
    | Atom(atom: A)                       // any host object without `_eval`
    | Container(items: seq<Obj<A>>)       // a plain list or tuple, which has no `_eval` either
    | Symbol(key: Key)                    // `Symbol(key)`
    | GetAttr(obj: Obj<A>, name: string)  // `GetAttr(obj, name)`
    | Call(func: Obj<A>, args: seq<Obj<A>>, kwargs: seq<Keyword<A>>)  // `Call(func, args, kwargs)`

  /** One entry of a keyword-argument dictionary, in insertion order. */
  datatype Keyword<A> = Keyword(name: string, value: Obj<A>)

  /** The objects for which `hasattr(obj, '_eval')` holds. */
  predicate IsSymbolic<A>(o: Obj<A>) {
    o.Symbol? || o.GetAttr? || o.Call?
  }

  /** What the evaluator needs from the host language: `getattr` on a
      non-symbolic object (None for AttributeError) and calling it (Err
      carries whatever the callee raised, including "not callable"). */
  datatype Host<!A> = Host(
    getattr: (Obj<A>, string) -> Option<Obj<A>>,
    apply: (Obj<A>, seq<Obj<A>>, seq<Keyword<A>>) -> Result<Obj<A>, string>)

  type Context<A> = map<Key, Obj<A>>

  datatype EvalError =
    | UnboundSymbol(key: Key)         // KeyError from the context lookup
    | MissingAttribute(name: string)  // AttributeError from getattr
    | Raised(reason: string)          // anything the called function raised

  /** What `log=True` prints: one line on entering a node, one on returning. */
  datatype LogLine<A> = Evaluating(node: Obj<A>) | Returning(node: Obj<A>, value: Obj<A>)

  /** A result together with the lines printed while computing it. */
  datatype Traced<T, A> = Traced(result: Result<T, EvalError>, log: seq<LogLine<A>>)

  function Emit<A>(log: bool, line: LogLine<A>): seq<LogLine<A>> {
    if log then [line] else []
  }

  /** `getattr(v, name)`: on an Expression, Python's failed ordinary lookup
      falls back to `Expression.__getattr__`, which builds a node. */
  function Attribute<A>(h: Host<A>, v: Obj<A>, name: string): Option<Obj<A>>
  {
    if IsSymbolic(v) then Some(GetAttr(v, name)) else h.getattr(v, name)
  }

  /** `f(*args, **kwargs)`: on an Expression, `Expression.__call__` builds a node. */
  function Invoke<A>(h: Host<A>, f: Obj<A>, args: seq<Obj<A>>, kwargs: seq<Keyword<A>>): Result<Obj<A>, string>
  {
    if IsSymbolic(f) then Ok(Call(f, args, kwargs)) else h.apply(f, args, kwargs)
  }

  /** `eval_if_symbolic(o, context, log=log)`, with the `_eval` methods of the
      three node kinds inlined. */
  function EvalIfSymbolic<A>(h: Host<A>, o: Obj<A>, ctx: Context<A>, log: bool): (r: Traced<Obj<A>, A>)
    ensures !IsSymbolic(o) ==> r == Traced(Ok(o), [])
    decreases o, 1
  {
    match o
    case Atom(_) => Traced(Ok(o), [])
    case Container(_) => Traced(Ok(o), [])
    case Symbol(k) =>
      Traced(if k in ctx then Ok(ctx[k]) else Err(UnboundSymbol(k)), [])
    case GetAttr(obj, name) =>
      var enter := Emit(log, Evaluating(o));
      var sub := EvalIfSymbolic(h, obj, ctx, log);
      if sub.result.Err? then Traced(Err(sub.result.error), enter + sub.log)
      else (
        match Attribute(h, sub.result.value, name)
        case None => Traced(Err(MissingAttribute(name)), enter + sub.log)
        case Some(v) => Traced(Ok(v), enter + sub.log + Emit(log, Returning(o, v)))
      )
    case Call(f, args, kwargs) =>
      var enter := Emit(log, Evaluating(o));
      var fe := EvalIfSymbolic(h, f, ctx, log);
      if fe.result.Err? then Traced(Err(fe.result.error), enter + fe.log)
      else
        var ae := EvalArgs(h, args, ctx, log);
        if ae.result.Err? then Traced(Err(ae.result.error), enter + fe.log + ae.log)
        else
          var ke := EvalKwargs(h, kwargs, ctx, log);
          if ke.result.Err? then Traced(Err(ke.result.error), enter + fe.log + ae.log + ke.log)
          else (
            match Invoke(h, fe.result.value, ae.result.value, ke.result.value)
            case Err(reason) => Traced(Err(Raised(reason)), enter + fe.log + ae.log + ke.log)
            case Ok(v) => Traced(Ok(v), enter + fe.log + ae.log + ke.log + Emit(log, Returning(o, v)))
          )
  }

  /** `[eval_if_symbolic(v, context) for v in args]`: left to right, stopping
      at the first exception. */
  function EvalArgs<A>(h: Host<A>, args: seq<Obj<A>>, ctx: Context<A>, log: bool): Traced<seq<Obj<A>>, A>
    decreases args, 0
  {
    if args == [] then Traced(Ok([]), [])
    else
      var first := EvalIfSymbolic(h, args[0], ctx, log);
      if first.result.Err? then Traced(Err(first.result.error), first.log)
      else
        var rest := EvalArgs(h, args[1..], ctx, log);
        if rest.result.Err? then Traced(Err(rest.result.error), first.log + rest.log)
        else Traced(Ok([first.result.value] + rest.result.value), first.log + rest.log)
  }

  /** `dict((k, eval_if_symbolic(v, context)) for k, v in kwargs.items())`. */
  function EvalKwargs<A>(h: Host<A>, kwargs: seq<Keyword<A>>, ctx: Context<A>, log: bool): Traced<seq<Keyword<A>>, A>
    decreases kwargs, 0
  {
    if kwargs == [] then Traced(Ok([]), [])
    else
      var first := EvalIfSymbolic(h, kwargs[0].value, ctx, log);
      if first.result.Err? then Traced(Err(first.result.error), first.log)
      else
        var rest := EvalKwargs(h, kwargs[1..], ctx, log);
        if rest.result.Err? then Traced(Err(rest.result.error), first.log + rest.log)
        else Traced(Ok([Keyword(kwargs[0].name, first.result.value)] + rest.result.value), first.log + rest.log)
  }

  // ---------------------------------------------------------------------------
  // The `log` option is observational

  lemma {:induction false} LogOnlyPrints<A>(h: Host<A>, o: Obj<A>, ctx: Context<A>)
    ensures EvalIfSymbolic(h, o, ctx, true).result == EvalIfSymbolic(h, o, ctx, false).result
    ensures EvalIfSymbolic(h, o, ctx, false).log == []
    decreases o, 1
  {
    match o
    case Atom(_) =>
    case Container(_) =>
    case Symbol(_) =>
    case GetAttr(obj, _) =>
      LogOnlyPrints(h, obj, ctx);
    case Call(f, args, kwargs) =>
      LogOnlyPrints(h, f, ctx);
      LogOnlyPrintsArgs(h, args, ctx);
      LogOnlyPrintsKwargs(h, kwargs, ctx);
  }

  lemma {:induction false} LogOnlyPrintsArgs<A>(h: Host<A>, args: seq<Obj<A>>, ctx: Context<A>)
    ensures EvalArgs(h, args, ctx, true).result == EvalArgs(h, args, ctx, false).result
    ensures EvalArgs(h, args, ctx, false).log == []
    decreases args, 0
  {
    if args != [] {
      LogOnlyPrints(h, args[0], ctx);
      LogOnlyPrintsArgs(h, args[1..], ctx);
    }
  }

  lemma {:induction false} LogOnlyPrintsKwargs<A>(h: Host<A>, kwargs: seq<Keyword<A>>, ctx: Context<A>)
    ensures EvalKwargs(h, kwargs, ctx, true).result == EvalKwargs(h, kwargs, ctx, false).result
    ensures EvalKwargs(h, kwargs, ctx, false).log == []
    decreases kwargs, 0
  {
    if kwargs != [] {
      LogOnlyPrints(h, kwargs[0].value, ctx);
      LogOnlyPrintsKwargs(h, kwargs[1..], ctx);
    }
  }

  // ---------------------------------------------------------------------------
  // Positional and keyword arguments

  /** Successful argument evaluation evaluates every argument, in order, and
      fails exactly when some argument fails, with the error of the first one. */
  lemma {:induction false} EvalArgsPointwise<A>(h: Host<A>, args: seq<Obj<A>>, ctx: Context<A>, log: bool)
    ensures EvalArgs(h, args, ctx, log).result.Ok? <==>
            forall i :: 0 <= i < |args| ==> EvalIfSymbolic(h, args[i], ctx, log).result.Ok?
    ensures EvalArgs(h, args, ctx, log).result.Ok? ==>
            var vs := EvalArgs(h, args, ctx, log).result.value;
            |vs| == |args| &&
            forall i :: 0 <= i < |args| ==> EvalIfSymbolic(h, args[i], ctx, log).result == Ok(vs[i])
    ensures EvalArgs(h, args, ctx, log).result.Err? ==>
            exists i :: 0 <= i < |args| &&
              EvalIfSymbolic(h, args[i], ctx, log).result == Err(EvalArgs(h, args, ctx, log).result.error) &&
              forall j :: 0 <= j < i ==> EvalIfSymbolic(h, args[j], ctx, log).result.Ok?
  {
    if args != [] {
      EvalArgsPointwise(h, args[1..], ctx, log);
      var first := EvalIfSymbolic(h, args[0], ctx, log);
      var rest := EvalArgs(h, args[1..], ctx, log);
      if first.result.Ok? {
        if rest.result.Err? {
          var i :| 0 <= i < |args[1..]| &&
            EvalIfSymbolic(h, args[1..][i], ctx, log).result == Err(rest.result.error) &&
            forall j :: 0 <= j < i ==> EvalIfSymbolic(h, args[1..][j], ctx, log).result.Ok?;
          assert EvalIfSymbolic(h, args[i + 1], ctx, log).result == Err(rest.result.error);
          assert forall j :: 1 <= j < i + 1 ==> args[j] == args[1..][j - 1];
        } else {
          assert forall i :: 1 <= i < |args| ==> args[i] == args[1..][i - 1];
        }
      }
    }
  }

  /** The evaluated keyword arguments keep every name, in order, each with the
      value its own expression evaluates to; they fail exactly when some value
      fails, with the error of the first one. */
  lemma {:induction false} EvalKwargsKeepsNames<A>(h: Host<A>, kwargs: seq<Keyword<A>>, ctx: Context<A>, log: bool)
    ensures EvalKwargs(h, kwargs, ctx, log).result.Ok? <==>
            forall i :: 0 <= i < |kwargs| ==> EvalIfSymbolic(h, kwargs[i].value, ctx, log).result.Ok?
    ensures EvalKwargs(h, kwargs, ctx, log).result.Ok? ==>
            var kvs := EvalKwargs(h, kwargs, ctx, log).result.value;
            |kvs| == |kwargs| &&
            forall i :: 0 <= i < |kwargs| ==>
              kvs[i].name == kwargs[i].name &&
              EvalIfSymbolic(h, kwargs[i].value, ctx, log).result == Ok(kvs[i].value)
    ensures EvalKwargs(h, kwargs, ctx, log).result.Err? ==>
            exists i :: 0 <= i < |kwargs| &&
              EvalIfSymbolic(h, kwargs[i].value, ctx, log).result == Err(EvalKwargs(h, kwargs, ctx, log).result.error) &&
              forall j :: 0 <= j < i ==> EvalIfSymbolic(h, kwargs[j].value, ctx, log).result.Ok?
  {
    if kwargs != [] {
      EvalKwargsKeepsNames(h, kwargs[1..], ctx, log);
      assert forall i :: 1 <= i < |kwargs| ==> kwargs[i] == kwargs[1..][i - 1];
      var first := EvalIfSymbolic(h, kwargs[0].value, ctx, log);
      var rest := EvalKwargs(h, kwargs[1..], ctx, log);
      if first.result.Ok? && rest.result.Err? {
        var i :| 0 <= i < |kwargs[1..]| &&
          EvalIfSymbolic(h, kwargs[1..][i].value, ctx, log).result == Err(rest.result.error) &&
          forall j :: 0 <= j < i ==> EvalIfSymbolic(h, kwargs[1..][j].value, ctx, log).result.Ok?;
        assert EvalIfSymbolic(h, kwargs[i + 1].value, ctx, log).result == Err(rest.result.error);
      }
    }
  }

  // ---------------------------------------------------------------------------
  // Evaluation order of a Call node

  /** The callee is evaluated first: if it fails, the call fails with that
      error whatever the arguments would have done. */
  lemma CallCalleeFirst<A>(h: Host<A>, f: Obj<A>, args: seq<Obj<A>>, kwargs: seq<Keyword<A>>,
                           ctx: Context<A>, log: bool)
    requires EvalIfSymbolic(h, f, ctx, log).result.Err?
    ensures EvalIfSymbolic(h, Call(f, args, kwargs), ctx, log).result ==
            Err(EvalIfSymbolic(h, f, ctx, log).result.error)
  {
  }

  /** Then the positional arguments, left to right: the first failing one
      decides the error, whatever the keyword arguments would have done. */
  lemma CallPositionalBeforeKeywords<A>(h: Host<A>, f: Obj<A>, args: seq<Obj<A>>, kwargs: seq<Keyword<A>>,
                                        ctx: Context<A>, log: bool, i: nat)
    requires EvalIfSymbolic(h, f, ctx, log).result.Ok?
    requires i < |args| && EvalIfSymbolic(h, args[i], ctx, log).result.Err?
    requires forall j :: 0 <= j < i ==> EvalIfSymbolic(h, args[j], ctx, log).result.Ok?
    ensures EvalIfSymbolic(h, Call(f, args, kwargs), ctx, log).result ==
            Err(EvalIfSymbolic(h, args[i], ctx, log).result.error)
  {
    EvalArgsPointwise(h, args, ctx, log);
  }

  /** Then the keyword arguments, in order: with the callee and every
      positional argument evaluated, the first failing keyword value decides
      the error and the callee is not applied. */
  lemma CallKeywordsBeforeApplying<A>(h: Host<A>, f: Obj<A>, args: seq<Obj<A>>, kwargs: seq<Keyword<A>>,
                                      ctx: Context<A>, log: bool, i: nat)
    requires EvalIfSymbolic(h, f, ctx, log).result.Ok?
    requires forall j :: 0 <= j < |args| ==> EvalIfSymbolic(h, args[j], ctx, log).result.Ok?
    requires i < |kwargs| && EvalIfSymbolic(h, kwargs[i].value, ctx, log).result.Err?
    requires forall j :: 0 <= j < i ==> EvalIfSymbolic(h, kwargs[j].value, ctx, log).result.Ok?
    ensures EvalIfSymbolic(h, Call(f, args, kwargs), ctx, log).result ==
            Err(EvalIfSymbolic(h, kwargs[i].value, ctx, log).result.error)
  {
    EvalArgsPointwise(h, args, ctx, log);
    EvalKwargsKeepsNames(h, kwargs, ctx, log);
    var e := EvalKwargs(h, kwargs, ctx, log).result;
    assert e.Err?;
    var i' :| 0 <= i' < |kwargs| &&
      EvalIfSymbolic(h, kwargs[i'].value, ctx, log).result == Err(e.error) &&
      forall j :: 0 <= j < i' ==> EvalIfSymbolic(h, kwargs[j].value, ctx, log).result.Ok?;
    assert i' == i;
  }

  /** When every operand evaluates, the callee is applied to the evaluated
      positional arguments and the keyword arguments under their own names. */
  lemma {:induction false} CallAppliesLast<A>(h: Host<A>, f: Obj<A>, args: seq<Obj<A>>, kwargs: seq<Keyword<A>>,
                                              ctx: Context<A>, log: bool)
    requires EvalIfSymbolic(h, f, ctx, log).result.Ok?
    requires forall i :: 0 <= i < |args| ==> EvalIfSymbolic(h, args[i], ctx, log).result.Ok?
    requires forall i :: 0 <= i < |kwargs| ==> EvalIfSymbolic(h, kwargs[i].value, ctx, log).result.Ok?
    ensures var vs := seq(|args|, i requires 0 <= i < |args| => EvalIfSymbolic(h, args[i], ctx, log).result.value);
            var kvs := seq(|kwargs|, i requires 0 <= i < |kwargs| =>
                         Keyword(kwargs[i].name, EvalIfSymbolic(h, kwargs[i].value, ctx, log).result.value));
            EvalIfSymbolic(h, Call(f, args, kwargs), ctx, log).result ==
              match Invoke(h, EvalIfSymbolic(h, f, ctx, log).result.value, vs, kvs)
              case Ok(v) => Ok(v)
              case Err(reason) => Err(Raised(reason))
  {
    EvalArgsPointwise(h, args, ctx, log);
    EvalKwargsKeepsNames(h, kwargs, ctx, log);
    var vs := seq(|args|, i requires 0 <= i < |args| => EvalIfSymbolic(h, args[i], ctx, log).result.value);
    var kvs := seq(|kwargs|, i requires 0 <= i < |kwargs| =>
                 Keyword(kwargs[i].name, EvalIfSymbolic(h, kwargs[i].value, ctx, log).result.value));
    assert EvalArgs(h, args, ctx, log).result.value == vs;
    assert EvalKwargs(h, kwargs, ctx, log).result.value == kvs;
  }

  // ---------------------------------------------------------------------------
  // Leaves, attribute access and the tree growing on symbolic values

  /** A symbol evaluates to its own binding, whatever else the context binds. */
  lemma SymbolReadsOwnBinding<A>(h: Host<A>, k: Key, v: Obj<A>, ctx: Context<A>, log: bool)
    ensures EvalIfSymbolic(h, Symbol(k), ctx[k := v], log).result == Ok(v)
    ensures k !in ctx ==> EvalIfSymbolic(h, Symbol(k), ctx, log).result == Err(UnboundSymbol(k))
  {
  }

  /** `GetAttr(obj, name)` evaluates `obj` and looks up the stored name on the
      result; when `obj` fails, no lookup happens and its error is the result. */
  lemma GetAttrLooksUpStoredName<A>(h: Host<A>, obj: Obj<A>, name: string, ctx: Context<A>, log: bool)
    ensures var sub := EvalIfSymbolic(h, obj, ctx, log).result;
            var r := EvalIfSymbolic(h, GetAttr(obj, name), ctx, log).result;
            (sub.Err? ==> r == Err(sub.error)) &&
            (sub.Ok? && !IsSymbolic(sub.value) ==>
               r == if h.getattr(sub.value, name).Some? then Ok(h.getattr(sub.value, name).value)
                    else Err(MissingAttribute(name)))
  {
  }

  /** When an operand evaluates to an Expression, attribute access and calls
      on it build a larger tree instead of executing anything: the result does
      not depend on the host at all. */
  lemma ExpressionValuesGrowTheTree<A>(h1: Host<A>, h2: Host<A>, k: Key, e: Obj<A>, name: string,
                                        args: seq<Obj<A>>, kwargs: seq<Keyword<A>>, ctx: Context<A>, log: bool)
    requires IsSymbolic(e)
    requires forall i :: 0 <= i < |args| ==> !IsSymbolic(args[i])
    requires forall i :: 0 <= i < |kwargs| ==> !IsSymbolic(kwargs[i].value)
    ensures EvalIfSymbolic(h1, GetAttr(Symbol(k), name), ctx[k := e], log).result == Ok(GetAttr(e, name))
    ensures EvalIfSymbolic(h1, GetAttr(Symbol(k), name), ctx[k := e], log).result ==
            EvalIfSymbolic(h2, GetAttr(Symbol(k), name), ctx[k := e], log).result
    ensures EvalIfSymbolic(h1, Call(Symbol(k), args, kwargs), ctx[k := e], log).result == Ok(Call(e, args, kwargs))
    ensures EvalIfSymbolic(h1, Call(Symbol(k), args, kwargs), ctx[k := e], log).result ==
            EvalIfSymbolic(h2, Call(Symbol(k), args, kwargs), ctx[k := e], log).result
  {
    var c := ctx[k := e];
    PlainValuesEvaluateToThemselves(h1, args, kwargs, c, log);
    PlainValuesEvaluateToThemselves(h2, args, kwargs, c, log);
  }

  /** Arguments without `_eval` evaluate to themselves, keyword names and
      order included. */
  lemma PlainValuesEvaluateToThemselves<A>(h: Host<A>, args: seq<Obj<A>>, kwargs: seq<Keyword<A>>,
                                           ctx: Context<A>, log: bool)
    requires forall i :: 0 <= i < |args| ==> !IsSymbolic(args[i])
    requires forall i :: 0 <= i < |kwargs| ==> !IsSymbolic(kwargs[i].value)
    ensures EvalArgs(h, args, ctx, log).result == Ok(args)
    ensures EvalKwargs(h, kwargs, ctx, log).result == Ok(kwargs)
  {
    EvalArgsPointwise(h, args, ctx, log);
    assert EvalArgs(h, args, ctx, log).result.value == args;
    EvalKwargsKeepsNames(h, kwargs, ctx, log);
    var kvs := EvalKwargs(h, kwargs, ctx, log).result.value;
    assert forall i :: 0 <= i < |kwargs| ==> kvs[i] == Keyword(kwargs[i].name, kwargs[i].value);
    assert kvs == kwargs;
  }

  /** A plain list or tuple is passed to the callee as it is: expressions
      inside it are not evaluated, even when they could not be. */
  lemma ContainerArgumentIsNotEvaluated<A>(h: Host<A>, f: A, items: seq<Obj<A>>, ctx: Context<A>, log: bool)
    requires h.apply(Atom(f), [Container(items)], []).Ok?
    ensures EvalIfSymbolic(h, Call(Atom(f), [Container(items)], []), ctx, log).result ==
            Ok(h.apply(Atom(f), [Container(items)], []).value)
  {
    var arg: Obj<A> := Container(items);
    EvalArgsPointwise(h, [arg], ctx, log);
    assert EvalIfSymbolic(h, [arg][0], ctx, log).result.Ok?;
    assert EvalArgs(h, [arg], ctx, log).result.Ok?;
    assert EvalArgs(h, [arg], ctx, log).result.value == [arg];
  }

  // ---------------------------------------------------------------------------
  // Evaluation reads only the symbols in evaluated positions

  /** The keys an evaluation may look up: those of symbols reachable without
      entering a plain list or tuple. */
  function EvaluatedKeys<A>(o: Obj<A>): set<Key>
    decreases o, 1
  {
    match o
    case Atom(_) => {}
    case Container(_) => {}
    case Symbol(k) => {k}
    case GetAttr(obj, _) => EvaluatedKeys(obj)
    case Call(f, args, kwargs) => EvaluatedKeys(f) + ArgsKeys(args) + KwargsKeys(kwargs)
  }

  function ArgsKeys<A>(args: seq<Obj<A>>): set<Key>
    decreases args, 0
  {
    if args == [] then {} else EvaluatedKeys(args[0]) + ArgsKeys(args[1..])
  }

  function KwargsKeys<A>(kwargs: seq<Keyword<A>>): set<Key>
    decreases kwargs, 0
  {
    if kwargs == [] then {} else EvaluatedKeys(kwargs[0].value) + KwargsKeys(kwargs[1..])
  }

  ghost predicate AgreeOn<A>(keys: set<Key>, ctx1: Context<A>, ctx2: Context<A>) {
    forall k :: k in keys ==> (k in ctx1 <==> k in ctx2) && (k in ctx1 ==> ctx1[k] == ctx2[k])
  }

  /** Two contexts that agree on the evaluated keys of a tree give the same
      evaluation, log included: building a tree consults no context, and
      evaluating it consults only its own symbols. */
  lemma {:induction false} EvaluationIsLocal<A>(h: Host<A>, o: Obj<A>, ctx1: Context<A>, ctx2: Context<A>, log: bool)
    requires AgreeOn(EvaluatedKeys(o), ctx1, ctx2)
    ensures EvalIfSymbolic(h, o, ctx1, log) == EvalIfSymbolic(h, o, ctx2, log)
    decreases o, 1
  {
    match o
    case Atom(_) =>
    case Container(_) =>
    case Symbol(k) =>
      assert k in EvaluatedKeys(o);
    case GetAttr(obj, _) =>
      EvaluationIsLocal(h, obj, ctx1, ctx2, log);
    case Call(f, args, kwargs) =>
      EvaluationIsLocal(h, f, ctx1, ctx2, log);
      EvaluationIsLocalArgs(h, args, ctx1, ctx2, log);
      EvaluationIsLocalKwargs(h, kwargs, ctx1, ctx2, log);
  }

  lemma {:induction false} EvaluationIsLocalArgs<A>(h: Host<A>, args: seq<Obj<A>>, ctx1: Context<A>, ctx2: Context<A>, log: bool)
    requires AgreeOn(ArgsKeys(args), ctx1, ctx2)
    ensures EvalArgs(h, args, ctx1, log) == EvalArgs(h, args, ctx2, log)
    decreases args, 0
  {
    if args != [] {
      EvaluationIsLocal(h, args[0], ctx1, ctx2, log);
      EvaluationIsLocalArgs(h, args[1..], ctx1, ctx2, log);
    }
  }

  lemma {:induction false} EvaluationIsLocalKwargs<A>(h: Host<A>, kwargs: seq<Keyword<A>>, ctx1: Context<A>, ctx2: Context<A>, log: bool)
    requires AgreeOn(KwargsKeys(kwargs), ctx1, ctx2)
    ensures EvalKwargs(h, kwargs, ctx1, log) == EvalKwargs(h, kwargs, ctx2, log)
    decreases kwargs, 0
  {
    if kwargs != [] {
      EvaluationIsLocal(h, kwargs[0].value, ctx1, ctx2, log);
      EvaluationIsLocalKwargs(h, kwargs[1..], ctx1, ctx2, log);
    }
  }
}
