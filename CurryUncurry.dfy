/** `curry_explicit` and `uncurry_explicit` of
    project/curry_uncurry_explicit.py. A curried function is the wrapped
    function, its arity and the arguments collected so far; calling it
    appends the new arguments and calls the function once their number
    equals the arity. The uncurried wrapper feeds its arguments one at a
    time, left to right, to a function built by `curry_explicit`. */
module CurryUncurry {
  import opened Wrappers

  /** The `arity` argument: a number (Python compares ints and floats
      alike), or a value that cannot be compared with 0. */
  datatype ArityArg = Number(x: real) | Incomparable

  /** `is_arity`: a number at least 0; an incomparable value, whose
      comparison raises the TypeError the function catches, is not. */
  predicate IsArity(a: ArityArg): (b: bool)
    ensures a == Incomparable ==> !b
    ensures a.Number? ==> (b <==> 0.0 <= a.x)
  {
    match a
    case Number(x) => x >= 0.0
    case Incomparable => false
  }

  /** The `wrapper` closure of `curry_explicit`, or a continuation lambda:
      the function, the arity and the arguments collected so far. */
  datatype Curried<!A, R> = Curried(f: seq<A> -> R, arity: real, collected: seq<A>)

  /** What a call produces: another curried function or a final value. */
  datatype Value<!A, R> = Fn(c: Curried<A, R>) | Val(v: R)

  /** `curry_explicit(function, arity)`: TypeError unless `arity` is an
      arity; otherwise `wrapper`, with nothing collected yet. */
  function CurryExplicit<A, R>(f: seq<A> -> R, arity: ArityArg): (r: Result<Curried<A, R>>)
    ensures r.Err? <==> !(arity.Number? && arity.x >= 0.0)
    ensures r.Err? ==> r.error == TypeError
    ensures r.Ok? ==> r.value.f == f && r.value.arity == arity.x && r.value.collected == []
  {
    if IsArity(arity) then Ok(Curried(f, arity.x, [])) else Err(TypeError)
  }

  /** Calling a curried function: the collected arguments and the new ones
      go to the function exactly when there are `arity` of them; otherwise
      the result collects them and waits for more. */
  function Apply<A, R>(c: Curried<A, R>, args: seq<A>): (r: Value<A, R>)
    ensures r.Val? <==> (|c.collected| + |args|) as real == c.arity
    ensures r.Val? ==> r.v == c.f(c.collected + args)
    ensures r.Fn? ==> r.c.f == c.f && r.c.arity == c.arity && r.c.collected == c.collected + args
  {
    var all := c.collected + args;
    if |all| as real == c.arity then Val(c.f(all)) else Fn(Curried(c.f, c.arity, all))
  }

  /** Arguments given over two calls that do not yet reach the arity act
      as if given in one call. */
  lemma ApplyAccumulates<A, R>(c: Curried<A, R>, xs: seq<A>, ys: seq<A>)
    requires Apply(c, xs).Fn?
    ensures Apply(Apply(c, xs).c, ys) == Apply(c, xs + ys)
  {
    assert c.collected + xs + ys == c.collected + (xs + ys);
  }

  /** `res = res(arg)`: a curried function takes one more argument, which
      completes it exactly when it was one short of its arity; a final value
      is not callable and raises TypeError. */
  function Step<A, R>(v: Value<A, R>, arg: A): (r: Result<Value<A, R>>)
    ensures r.Err? <==> v.Val?
    ensures r.Err? ==> r.error == TypeError
    ensures v.Fn? ==> (r.value.Val? <==> (|v.c.collected| + 1) as real == v.c.arity)
  {
    match v
    case Fn(c) => Ok(Apply(c, [arg]))
    case Val(_) => Err(TypeError)
  }

  /** Feeding `args` to `v` one at a time, left to right, stopping at the
      first error. Nothing fed leaves `v` as it is; the only error is
      TypeError; a curried function still waiting afterwards has collected
      every argument fed, in order. */
  function Feed<A, R>(v: Value<A, R>, args: seq<A>): (r: Result<Value<A, R>>)
    ensures args == [] ==> r == Ok(v)
    ensures r.Err? ==> r.error == TypeError
    ensures v.Fn? && r.Ok? && r.value.Fn? ==>
      r.value.c.f == v.c.f && r.value.c.arity == v.c.arity && r.value.c.collected == v.c.collected + args
    decreases |args|
  {
    if args == [] then Ok(v)
    else match Step(v, args[0])
      case Err(e) => Err(e)
      case Ok(next) => Feed(next, args[1..])
  }

  /** The `wrapper` closure of `uncurry_explicit` around a curried
      function. */
  datatype Uncurried<!A, R> = Uncurried(callee: Curried<A, R>, arity: real)

  /** `uncurry_explicit(function, arity)`: TypeError unless `arity` is an
      arity. */
  function UncurryExplicit<A, R>(c: Curried<A, R>, arity: ArityArg): (r: Result<Uncurried<A, R>>)
    ensures r.Err? <==> !(arity.Number? && arity.x >= 0.0)
    ensures r.Err? ==> r.error == TypeError
    ensures r.Ok? ==> r.value.callee == c && r.value.arity == arity.x
  {
    if IsArity(arity) then Ok(Uncurried(c, arity.x)) else Err(TypeError)
  }

  /** Calling the uncurried wrapper: ValueError unless exactly `arity`
      arguments are given; otherwise they are fed one at a time. */
  method CallUncurried<A, R>(u: Uncurried<A, R>, args: seq<A>) returns (r: Result<Value<A, R>>)
    ensures |args| as real != u.arity ==> r == Err(ValueError)
    ensures |args| as real == u.arity ==> r == Feed(Fn(u.callee), args)
  {
    if |args| as real != u.arity {
      return Err(ValueError);
    }
    var res := Fn(u.callee);
    for i := 0 to |args|
      invariant Feed(Fn(u.callee), args) == Feed(res, args[i..])
    {
      assert args[i..][1..] == args[i + 1..];
      var next := Step(res, args[i]);
      if next.Err? {
        return Err(next.error);
      }
      res := next.value;
    }
    return Ok(res);
  }

  /** Feeding a curried function the arguments it still lacks one at a
      time returns the function's value on all of them. */
  lemma {:induction false} FeedCompletes<A, R>(c: Curried<A, R>, rest: seq<A>)
    requires |rest| >= 1 && (|c.collected| + |rest|) as real == c.arity
    ensures Feed(Fn(c), rest) == Ok(Val(c.f(c.collected + rest)))
    decreases |rest|
  {
    var next := Apply(c, [rest[0]]);
    assert Feed(Fn(c), rest) == Feed(next, rest[1..]);
    if |rest| > 1 {
      FeedCompletes(next.c, rest[1..]);
      assert next.c.collected + rest[1..] == c.collected + rest;
    } else {
      assert rest == [rest[0]];
    }
  }

  /** Feeding more arguments than a curried function lacks raises
      TypeError: its value is called with the first surplus argument. */
  lemma {:induction false} FeedTooManyRaises<A, R>(c: Curried<A, R>, rest: seq<A>, missing: nat)
    requires 1 <= missing < |rest| && (|c.collected| + missing) as real == c.arity
    ensures Feed(Fn(c), rest) == Err(TypeError)
    decreases |rest|
  {
    var next := Apply(c, [rest[0]]);
    assert Feed(Fn(c), rest) == Feed(next, rest[1..]);
    if missing > 1 {
      FeedTooManyRaises(next.c, rest[1..], missing - 1);
    } else {
      assert rest[1..] != [];
    }
  }

  /** `uncurry_explicit(curry_explicit(f, n), n)` called with `n >= 1`
      arguments returns `f` of those arguments. */
  lemma UncurryOfCurry<A, R>(f: seq<A> -> R, n: nat, args: seq<A>)
    requires n >= 1 && |args| == n
    ensures CurryExplicit(f, Number(n as real)).Ok?
    ensures UncurryExplicit(CurryExplicit(f, Number(n as real)).value, Number(n as real)).Ok?
    ensures Feed(Fn(CurryExplicit(f, Number(n as real)).value), args) == Ok(Val(f(args)))
  {
    var c := CurryExplicit(f, Number(n as real)).value;
    FeedCompletes(c, args);
    assert c.collected + args == args;
  }

  /** With arity 0 the uncurried wrapper takes no arguments and returns
      the curried function itself, without calling it. */
  lemma UncurryOfNullaryReturnsCurried<A, R>(f: seq<A> -> R)
    ensures Feed(Fn(CurryExplicit(f, Number(0.0)).value), []) == Ok(Fn(Curried(f, 0.0, [])))
  {
  }
}
