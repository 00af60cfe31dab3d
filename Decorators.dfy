/** The memoising wrapper that `cache_decorator` of project/decorators.py
    builds around a function: a dictionary from call keys to results,
    bounded by `max_results` and emptied in insertion order. */
module Decorators {

  /** The cache key of a call: its positional arguments and the set of its
      keyword items. */
  type CallKey<A(==)> = (seq<A>, set<(string, A)>)

  /** `(args, frozenset(kwargs.items()))`. */
  function CacheKey<A(==,!new)>(args: seq<A>, kwargs: seq<(string, A)>): (key: CallKey<A>)
    ensures key.0 == args
    ensures forall item :: item in key.1 <==> item in kwargs
  {
    (args, set item | item in kwargs)
  }

  /** Two calls with the same positional arguments whose keyword arguments
      are the same items, in any order, share one cache entry; calls that
      differ in a positional argument or in a keyword item do not. */
  lemma CacheKeyIgnoresKwargsOrder<A(!new)>(args: seq<A>, kw1: seq<(string, A)>, args2: seq<A>, kw2: seq<(string, A)>)
    ensures CacheKey(args, kw1) == CacheKey(args2, kw2) <==>
      args == args2 && forall item :: item in kw1 <==> item in kw2
  {
    if args == args2 && forall item :: item in kw1 <==> item in kw2 {
      assert CacheKey(args, kw1).1 == CacheKey(args2, kw2).1;
    }
  }

  /** `order` lists the keys of `values` once each, in insertion order. */
  ghost predicate Tracks<K(!new), R>(order: seq<K>, values: map<K, R>)
  {
    && |order| == |values|
    && (forall k :: k in values <==> k in order)
    && (forall i, j :: 0 <= i < j < |order| ==> order[i] != order[j])
  }

  /** Popping the first key of a non-empty cache keeps the order in step. */
  lemma TracksDropFirst<K(!new), R>(order: seq<K>, values: map<K, R>)
    requires Tracks(order, values) && |order| > 0
    ensures Tracks(order[1..], values - {order[0]})
  {
    forall k
      ensures k in values - {order[0]} <==> k in order[1..]
    {
      if k in order[1..] {
        var j :| 1 <= j < |order| && order[j] == k;
        assert order[0] != order[j];
      }
    }
  }

  /** Storing a new key last keeps the order in step. */
  lemma TracksAppend<K(!new), R>(order: seq<K>, values: map<K, R>, key: K, v: R)
    requires Tracks(order, values) && key !in values
    ensures Tracks(order + [key], values[key := v])
  {
  }

  /** The cache holds its keys once each, in `order`, with the results
      `func` gives for them; a positive `max_results` bounds its size, and
      a falsy one keeps it empty. */
  ghost predicate CacheOk<K(!new), R>(order: seq<K>, values: map<K, R>, maxResults: int, func: K -> R)
  {
    && Tracks(order, values)
    && (forall k :: k in values ==> values[k] == func(k))
    && (maxResults > 0 ==> |values| <= maxResults)
    && (maxResults == 0 ==> values == map[])
  }

  /** Storing a missing key keeps the cache consistent, whether or not the
      earliest inserted key has to make room for it. */
  lemma StoreKeepsCache<K(!new), R>(order: seq<K>, values: map<K, R>, maxResults: int, func: K -> R, key: K)
    requires CacheOk(order, values, maxResults, func) && maxResults != 0 && key !in values
    ensures |values| == maxResults ==>
      |order| > 0 && CacheOk(order[1..] + [key], (values - {order[0]})[key := func(key)], maxResults, func)
    ensures |values| != maxResults ==> CacheOk(order + [key], values[key := func(key)], maxResults, func)
  {
    if |values| == maxResults {
      TracksDropFirst(order, values);
      TracksAppend(order[1..], values - {order[0]}, key, func(key));
    } else {
      TracksAppend(order, values, key, func(key));
    }
  }

  /** The wrapped function together with the state its wrapper closes over.
      `func` takes the call key, so a function whose result depends on the
      order of its keyword arguments is outside this model. `calls` records
      every invocation of `func`. */
  class CachedFunction<A(==,!new), R> {
    /** `max_results`; `None` behaves as 0, the falsy value. */
    const maxResults: int
    const func: CallKey<A> -> R
    /** The keys of the cache in insertion order. */
    var order: seq<CallKey<A>>
    /** The cache itself. */
    var values: map<CallKey<A>, R>
    ghost var calls: seq<CallKey<A>>

    /** The cache holds its keys once each, in `order`, with the results
        `func` gives for them; a positive `max_results` bounds its size, and
        a falsy one keeps it empty. */
    ghost predicate Valid()
      reads this
    {
      CacheOk(order, values, maxResults, func)
    }

    /** `cache_decorator(max_results)(func)`: an empty cache. */
    constructor (maxResults: int, func: CallKey<A> -> R)
      ensures this.maxResults == maxResults && this.func == func
      ensures order == [] && values == map[] && calls == []
      ensures Valid()
    {
      this.maxResults := maxResults;
      this.func := func;
      order := [];
      values := map[];
      calls := [];
    }

    /** `wrapper(*args, **kwargs)`. With a falsy `max_results` the function
        is always called and nothing is stored. Otherwise a hit returns the
        stored result without calling the function and without touching the
        eviction order; a miss calls the function once, drops the earliest
        inserted key when the cache is full, and stores the new result
        last. */
    method Call(args: seq<A>, kwargs: seq<(string, A)>) returns (r: R)
      requires Valid()
      modifies this
      ensures Valid()
      ensures r == func(CacheKey(args, kwargs))
      ensures var key := CacheKey(args, kwargs);
        if maxResults == 0 then
          order == old(order) && values == old(values) && calls == old(calls) + [key]
        else if key in old(values) then
          order == old(order) && values == old(values) && calls == old(calls)
        else
          && calls == old(calls) + [key]
          && if |old(values)| == maxResults then
               && order == old(order)[1..] + [key]
               && values == (old(values) - {old(order)[0]})[key := func(key)]
             else
               && order == old(order) + [key]
               && values == old(values)[key := func(key)]
    {
      var key := CacheKey(args, kwargs);
      if maxResults == 0 {
        calls := calls + [key];
        return func(key);
      }
      if key !in values {
        var result := func(key);
        Store(key, result);
        calls := calls + [key];
      }
      return values[key];
    }

    /** The miss path of `wrapper`: when the cache is full its earliest
        inserted key is dropped, and the new result is stored last. */
    method Store(key: CallKey<A>, result: R)
      requires Valid() && maxResults != 0 && key !in values && result == func(key)
      modifies this`order, this`values
      ensures Valid() && key in values
      ensures if |old(values)| == maxResults then
          && order == old(order)[1..] + [key]
          && values == (old(values) - {old(order)[0]})[key := result]
        else
          && order == old(order) + [key]
          && values == old(values)[key := result]
    {
      StoreKeepsCache(order, values, maxResults, func, key);
      if |values| == maxResults {
        order, values := order[1..] + [key], (values - {order[0]})[key := result];
      } else {
        order, values := order + [key], values[key := result];
      }
    }
  }
}
