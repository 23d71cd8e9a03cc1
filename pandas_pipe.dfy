/** The `pipe` combinator of ply_ng/pandas_pipe.py. A pipe wraps a function of
    a table (plus call arguments) and a mutable list of pipes chained after
    it. `df >> p` applies `p`'s function to a copy of `df` and then every
    chained pipe, in insertion order, each through its own `>>`; `p >> q`
    appends `q` to `p`'s chain and returns `p`; `p(args)` builds a fresh pipe
    whose function has those arguments bound.

    Tables are values of an abstract type `T`; call arguments are of an
    abstract type `A`. `other.copy()` is the identity on values, and a copy
    keeps the input's `_grouped_by`, so the function sees a value equal to
    the input. */
module PandasPipe {

  class Pipe<T(!new), A(!new)> {
    /** `self.function`, called as `self.function(x, *args, **kwargs)`. */
    const fn: (T, seq<A>, map<string, A>) -> T
    /** `self.chained_pipes` */
    var chained: seq<Pipe<T, A>>
    ghost var Repr: set<object>

    /** Every chained pipe is valid and lies below this one, so chains are
        finite and acyclic. */
    ghost predicate Valid()
      reads this, Repr
      decreases Repr
    {
      this in Repr &&
      forall i :: 0 <= i < |chained| ==>
        chained[i] in Repr && chained[i].Repr <= Repr && this !in chained[i].Repr && chained[i].Valid()
    }

    /** The value `x >> self` returns. */
    ghost function Apply(x: T): T
      reads this, Repr
      requires Valid()
      decreases Repr, 1
    {
      ApplyPrefix(|chained|, x)
    }

    /** The running result after the pipe's own function and the first `k`
        chained pipes. */
    ghost function ApplyPrefix(k: nat, x: T): T
      reads this, Repr
      requires Valid() && k <= |chained|
      decreases Repr, 0, k
    {
      if k == 0 then fn(x, [], map[])
      else
        chained[k - 1].Apply(ApplyPrefix(k - 1, x))
    }

    /** `pipe(function)`: a new pipe with an empty chain. */
    constructor (f: (T, seq<A>, map<string, A>) -> T)
      ensures Valid() && fresh(Repr) && Repr == {this}
      ensures fn == f && chained == []
      ensures forall x :: Apply(x) == f(x, [], map[])
    {
      fn := f;
      chained := [];
      Repr := {this};
    }

    /** `self >> other`: append `other` to the chain and return `self`.
        Applying `self` afterwards applies `other` to what `self` gave before. */
    method Rshift(other: Pipe<T, A>) returns (r: Pipe<T, A>)
      requires Valid() && other.Valid() && this !in other.Repr
      modifies this
      ensures r == this && Valid()
      ensures chained == old(chained) + [other]
      ensures Repr == old(Repr) + other.Repr
      ensures forall x :: Apply(x) == other.Apply(old(Apply(x)))
    {
      chained := chained + [other];
      Repr := Repr + other.Repr;
      r := this;
      assert Valid();
      ChainExtended(other);
    }

    /** Appending `other` to the chain composes `other` after the old pipe. */
    twostate lemma ChainExtended(other: Pipe<T, A>)
      requires old(Valid()) && Valid() && other.Valid()
      requires chained == old(chained) + [other]
      requires forall o :: o in old(Repr) && o != this ==> unchanged(o)
      ensures forall x :: Apply(x) == other.Apply(old(Apply(x)))
    {
      PrefixUnchanged(|old(chained)|);
    }

    /** While the chain only grows, the running results over its old part are
        what they were. */
    twostate lemma {:induction false} PrefixUnchanged(n: nat)
      requires old(Valid()) && Valid()
      requires old(chained) <= chained && n <= |old(chained)|
      requires forall o :: o in old(Repr) && o != this ==> unchanged(o)
      ensures forall x :: ApplyPrefix(n, x) == old(ApplyPrefix(n, x))
      decreases n
    {
      if n > 0 {
        PrefixUnchanged(n - 1);
        var p := chained[n - 1];
        assert p == old(chained)[n - 1];
        assert p.Repr <= old(Repr) && this !in p.Repr;
      }
    }

    /** `other >> self`: run the function on (a copy of) `other`, then each
        chained pipe in insertion order, each through its own `>>`. */
    method Rrshift(other: T) returns (result: T)
      requires Valid()
      ensures result == Apply(other)
      decreases Repr
    {
      var otherCopy := other;
      result := fn(otherCopy, [], map[]);
      var i := 0;
      while i < |chained|
        invariant 0 <= i <= |chained|
        invariant result == ApplyPrefix(i, other)
      {
        var p := chained[i];
        assert p.Repr < Repr by {
          assert this in Repr && this !in p.Repr;
        }
        result := p.Rrshift(result);
        i := i + 1;
      }
    }

    /** `self(*args, **kwargs)`: a fresh pipe with an empty chain whose
        function calls this pipe's function with the arguments bound. The
        chain of `self` is not carried over. */
    method Call(args: seq<A>, kwargs: map<string, A>) returns (r: Pipe<T, A>)
      ensures fresh(r) && fresh(r.Repr) && r.Valid() && r.chained == []
      ensures forall x :: r.Apply(x) == fn(x, args, kwargs)
    {
      var f := fn;
      r := new Pipe((x: T, moreArgs: seq<A>, moreKwargs: map<string, A>) => f(x, args, kwargs));
    }
  }

  /** A pipe whose function is the identity and whose chained pipes all act as
      the identity acts as the identity: `df >> blank() >> blank()` is `df`. */
  lemma {:induction false} IdentityChain<T(!new), A(!new)>(p: Pipe<T, A>, x: T)
    requires p.Valid()
    requires forall y, a, k :: p.fn(y, a, k) == y
    requires forall i :: 0 <= i < |p.chained| ==> forall y :: p.chained[i].Apply(y) == y
    ensures p.Apply(x) == x
  {
    var k := 0;
    while k < |p.chained|
      invariant k <= |p.chained|
      invariant p.ApplyPrefix(k, x) == x
    {
      k := k + 1;
    }
  }
}
