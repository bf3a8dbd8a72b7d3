/**
 The optional-value pipeline of src/index.ts: a `Pipe` holds one JavaScript
 value that may be `null` or `undefined`, maps it with `through` until it
 becomes absent, and is left with `withDefault` or `get`.
 */
module Pipeline {

  /** A JavaScript value of payload type T, keeping the two absence sentinels apart. */
  datatype JsVal<T> = Null | Undefined | Present(v: T)

  /** What `withDefault` returns: the held value (type T) or the fallback (type U). */
  datatype Union<T, U> = OfValue(value: T) | OfFallback(fallback: U)

  /** The wrapper. The class's own code assigns its one field only in the constructor. */
  datatype Pipe<T> = Pipe(value: JsVal<T>)
  {
    /** True iff the held value is neither `null` nor `undefined`. */
    predicate IsSomething()
      ensures IsSomething() <==> value.Present?
    {
      !value.Null? && !value.Undefined?
    }

    /** The negation of IsSomething. */
    predicate IsNothing()
      ensures IsNothing() <==> !IsSomething()
      ensures IsNothing() <==> (value == Null || value == Undefined)
    {
      !IsSomething()
    }

    /**
     Maps the held value. An absent pipe is returned as it is (same sentinel)
     and the mapper is not consulted; a present one yields a new pipe holding
     whatever the mapper returns, which may itself be a sentinel.
     */
    function Through<U>(mapper: T -> JsVal<U>): (r: Pipe<U>)
      ensures IsSomething() ==> r.value == mapper(value.v)
      ensures IsNothing() ==> r.IsNothing()
      ensures value == Null <==> r.value == Null && IsNothing()
      ensures value == Undefined <==> r.value == Undefined && IsNothing()
    {
      match value
      case Null => Pipe(Null)
      case Undefined => Pipe(Undefined)
      case Present(x) => Pipe(mapper(x))
    }

    /** Leaves the pipeline: the held value when there is one, else the fallback. */
    function WithDefault<U>(fallback: U): (r: Union<T, U>)
      ensures r == OfFallback(fallback) <==> IsNothing()
      ensures r.OfValue? <==> IsSomething()
      ensures r.OfValue? ==> value == Present(r.value)
    {
      if IsNothing() then OfFallback(fallback) else OfValue(value.v)
    }

    /** Leaves the pipeline with the held value verbatim, sentinel included. */
    function Get(): (r: JsVal<T>)
      ensures r.Present? <==> IsSomething()
      ensures r == Null <==> value == Null
      ensures r == Undefined <==> value == Undefined
    {
      value
    }

    /** Passes the pipe through unchanged (the console output is not modelled). */
    function Log(): (r: Pipe<T>)
      ensures r.Get() == Get()
      ensures r.IsSomething() == IsSomething()
    {
      this
    }
  }

  /** The factory `pipe`: wraps a value as given, with no normalisation of sentinels. */
  function NewPipe<T>(subject: JsVal<T>): (p: Pipe<T>)
    ensures p.Get() == subject
    ensures p.IsNothing() <==> subject == Null || subject == Undefined
  {
    Pipe(subject)
  }

  /** A chain `p.through(f0).through(f1)...` over mappers of one payload type. */
  function ThroughAll<T>(p: Pipe<T>, mappers: seq<T -> JsVal<T>>): (r: Pipe<T>)
    decreases |mappers|
  {
    if mappers == [] then p else ThroughAll(p.Through(mappers[0]), mappers[1..])
  }

  /** On an absent pipe, `through` gives back the very same pipe. */
  lemma ThroughAbsentIsThis<T>(p: Pipe<T>, mapper: T -> JsVal<T>)
    requires p.IsNothing()
    ensures p.Through(mapper) == p
  {
  }

  /** On an absent pipe the mapper has no influence: any two mappers agree. */
  lemma ThroughAbsentIgnoresMapper<T, U>(p: Pipe<T>, f: T -> JsVal<U>, g: T -> JsVal<U>)
    requires p.IsNothing()
    ensures p.Through(f) == p.Through(g)
  {
  }

  /** Present pipes compose: two steps apply the mappers one after the other. */
  lemma ThroughComposes<T, U, V>(v: T, f: T -> JsVal<U>, g: U -> JsVal<V>)
    requires f(v).Present?
    ensures NewPipe(Present(v)).Through(f).Through(g).Get() == g(f(v).v)
  {
  }

  /** Two steps are one step with the composed mapper (associativity). */
  lemma ThroughAssociative<T, U, V>(p: Pipe<T>, f: T -> JsVal<U>, g: U -> JsVal<V>)
    ensures p.Through(f).Through(g) == p.Through(x => Pipe(f(x)).Through(g).value)
  {
  }

  /** Mapping with the wrapping function changes nothing (right identity). */
  lemma ThroughIdentity<T>(p: Pipe<T>)
    ensures p.Through(x => Present(x)) == p
  {
  }

  /** Short-circuit absorption: once absent, any chain of steps leaves the pipe as it is. */
  lemma {:induction false} ThroughAllAbsorbs<T>(p: Pipe<T>, mappers: seq<T -> JsVal<T>>)
    requires p.IsNothing()
    ensures ThroughAll(p, mappers) == p
    decreases |mappers|
  {
    if mappers != [] {
      ThroughAbsentIsThis(p, mappers[0]);
      ThroughAllAbsorbs(p, mappers[1..]);
    }
  }

  /** A chain may be split anywhere: running `first` then `second` is running both. */
  lemma {:induction false} ThroughAllAppend<T>(p: Pipe<T>, first: seq<T -> JsVal<T>>, second: seq<T -> JsVal<T>>)
    ensures ThroughAll(p, first + second) == ThroughAll(ThroughAll(p, first), second)
    decreases |first|
  {
    if first != [] {
      assert (first + second)[0] == first[0];
      assert (first + second)[1..] == first[1..] + second;
      ThroughAllAppend(p.Through(first[0]), first[1..], second);
    } else {
      assert first + second == second;
    }
  }

  /** The fold is the source's method chain: one more mapper is one more `.through` at the end. */
  lemma {:induction false} ThroughAllSnoc<T>(p: Pipe<T>, mappers: seq<T -> JsVal<T>>, last: T -> JsVal<T>)
    ensures ThroughAll(p, mappers + [last]) == ThroughAll(p, mappers).Through(last)
  {
    ThroughAllAppend(p, mappers, [last]);
    assert [last][1..] == [];
  }

  /** A chain is absent at the end if it was absent at any intermediate point. */
  lemma {:induction false} ThroughAllAbsentPrefix<T>(p: Pipe<T>, mappers: seq<T -> JsVal<T>>, k: nat)
    requires k <= |mappers|
    requires ThroughAll(p, mappers[..k]).IsNothing()
    ensures ThroughAll(p, mappers) == ThroughAll(p, mappers[..k])
  {
    assert mappers == mappers[..k] + mappers[k..];
    ThroughAllAppend(p, mappers[..k], mappers[k..]);
    ThroughAllAbsorbs(ThroughAll(p, mappers[..k]), mappers[k..]);
  }

  /** `withDefault` gives the fallback exactly when `get` would give a sentinel. */
  lemma WithDefaultAgreesWithGet<T, U>(p: Pipe<T>, fallback: U)
    ensures p.Get().Present? ==> p.WithDefault(fallback) == OfValue(p.Get().v)
    ensures !p.Get().Present? ==> p.WithDefault(fallback) == OfFallback(fallback)
  {
  }

  /** `pipe(v).withDefault(d)` is `v` for a present `v` and `d` for either sentinel. */
  lemma WithDefaultOfNewPipe<T, U>(subject: JsVal<T>, fallback: U)
    ensures subject.Present? ==> NewPipe(subject).WithDefault(fallback) == OfValue(subject.v)
    ensures !subject.Present? ==> NewPipe(subject).WithDefault(fallback) == OfFallback(fallback)
  {
  }

  /** `log` is transparent: nothing downstream can tell it was there. */
  lemma LogTransparent<T>(p: Pipe<T>, mappers: seq<T -> JsVal<T>>)
    ensures p.Log().Get() == p.Get()
    ensures p.Log().IsSomething() == p.IsSomething()
    ensures ThroughAll(p.Log(), mappers) == ThroughAll(p, mappers)
  {
  }
}
