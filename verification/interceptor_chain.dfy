/**
 A model of `InterceptorChain`: an ordered list of before/after hooks wrapped
 around one dispatch to the chain's target.

 The chain is an immutable value. Interceptors are opaque identities of a type
 parameter `I` (the same interceptor object may be added more than once), and
 the target is reduced to the one runtime type test the chain performs on it.
 Running the chain does not perform side effects; it produces the trace of hook
 and dispatch calls, in the order the Java code makes them.
 */
module InterceptorChain {

  /** What the `instanceof OrderService` test sees of the target. */
  datatype Target = OrderSvc | Other

  /** Which of the two interceptor hooks is being run. */
  datatype Hook = BeforeHook | AfterHook

  /** One observable call made by `execute`. */
  datatype Event<I> = Before(interceptor: I) | PlaceOrder | After(interceptor: I)

  /** The chain's state: its interceptors in insertion order and its target. */
  datatype Chain<I> = Chain(interceptors: seq<I>, target: Target)

  /** The call event of running hook `h` on interceptor `i`. */
  function Fire<I>(h: Hook, i: I): Event<I>
  {
    match h
    case BeforeHook => Before(i)
    case AfterHook => After(i)
  }

  /** 1 when `execute` dispatches to the target, 0 when it silently skips. */
  function DispatchCount(target: Target): nat
  {
    if target == OrderSvc then 1 else 0
  }

  /** The constructor: the given target and no interceptors. */
  function New<I>(target: Target): (c: Chain<I>)
    ensures |c.interceptors| == 0
    ensures c.target == target
  {
    Chain([], target)
  }

  /** `addInterceptor`: append at the end, keep every earlier entry in place,
      no de-duplication, target untouched. */
  function Add<I>(c: Chain<I>, i: I): (c': Chain<I>)
    ensures c'.target == c.target
    ensures |c'.interceptors| == |c.interceptors| + 1
    ensures forall k :: 0 <= k < |c.interceptors| ==> c'.interceptors[k] == c.interceptors[k]
    ensures c'.interceptors[|c.interceptors|] == i
  {
    Chain(c.interceptors + [i], c.target)
  }

  /** `List.forEach(Interceptor::h)`: hook `h` on every interceptor, in list order. */
  function ForEach<I>(s: seq<I>, h: Hook): (t: seq<Event<I>>)
    ensures |t| == |s|
    ensures forall k :: 0 <= k < |s| ==> t[k] == Fire(h, s[k])
  {
    if |s| == 0 then [] else [Fire(h, s[0])] + ForEach(s[1..], h)
  }

  /** The dispatch step: `placeOrder()` once on an `OrderService`, nothing otherwise. */
  function Dispatch<I>(target: Target): (r: seq<Event<I>>)
    ensures |r| == DispatchCount(target)
    ensures forall k :: 0 <= k < |r| ==> r[k] == PlaceOrder
  {
    if target == OrderSvc then [PlaceOrder] else []
  }

  /**
   The shape of a trace of `execute` on chain `c`, stated position by position:
   with n interceptors and d dispatches, the first n events are the befores in
   list order, the dispatch (if any) sits at index n, and the last n events are
   the afters in the same order.
   */
  ghost predicate IsTraceOf<I>(c: Chain<I>, t: seq<Event<I>>)
  {
    var n := |c.interceptors|;
    var d := DispatchCount(c.target);
    && |t| == 2 * n + d
    && (forall k :: 0 <= k < n ==> t[k] == Before(c.interceptors[k]))
    && (d == 1 ==> t[n] == PlaceOrder)
    && (forall k :: 0 <= k < n ==> t[n + d + k] == After(c.interceptors[k]))
  }

  /** `execute`: befores, then the dispatch, then afters. */
  function Execute<I>(c: Chain<I>): (t: seq<Event<I>>)
    ensures IsTraceOf(c, t)
  {
    ForEach(c.interceptors, BeforeHook) + Dispatch(c.target) + ForEach(c.interceptors, AfterHook)
  }

  /** `IsTraceOf` pins the trace down: a trace of that shape is the one `execute` produces. */
  lemma TraceIsUnique<I>(c: Chain<I>, t: seq<Event<I>>)
    requires IsTraceOf(c, t)
    ensures t == Execute(c)
  {
  }

  /** The same chain, run step by step with two loops, as the Java method does. */
  method ExecuteLoop<I>(c: Chain<I>) returns (t: seq<Event<I>>)
    ensures IsTraceOf(c, t)
    ensures t == Execute(c)
  {
    var s := c.interceptors;
    t := [];
    var k := 0;
    while k < |s|
      invariant 0 <= k <= |s|
      invariant |t| == k
      invariant forall j :: 0 <= j < k ==> t[j] == Before(s[j])
    {
      t := t + [Before(s[k])];
      k := k + 1;
    }
    if c.target == OrderSvc {
      t := t + [PlaceOrder];
    }
    var base := |t|;
    k := 0;
    while k < |s|
      invariant 0 <= k <= |s|
      invariant base == |s| + DispatchCount(c.target)
      invariant |t| == base + k
      invariant forall j :: 0 <= j < |s| ==> t[j] == Before(s[j])
      invariant c.target == OrderSvc ==> t[|s|] == PlaceOrder
      invariant forall j :: 0 <= j < k ==> t[base + j] == After(s[j])
    {
      t := t + [After(s[k])];
      k := k + 1;
    }
    TraceIsUnique(c, t);
  }

  /** Where each kind of event can sit: befores exactly in the first n slots,
      the dispatch exactly at slot n when it happens, afters exactly in the
      last n slots. So every before precedes the dispatch, which precedes every after. */
  lemma EventPositions<I>(c: Chain<I>, j: int)
    requires 0 <= j < |Execute(c)|
    ensures Execute(c)[j].Before? <==> j < |c.interceptors|
    ensures Execute(c)[j].PlaceOrder? <==> (c.target == OrderSvc && j == |c.interceptors|)
    ensures Execute(c)[j].After? <==> j >= |c.interceptors| + DispatchCount(c.target)
  {
  }

  /** Every before comes before every after, and the dispatch lies between them. */
  lemma HooksBracketDispatch<I>(c: Chain<I>, a: int, b: int)
    requires 0 <= a < |Execute(c)| && 0 <= b < |Execute(c)|
    ensures Execute(c)[a].Before? && !Execute(c)[b].Before? ==> a < b
    ensures Execute(c)[a].PlaceOrder? && Execute(c)[b].After? ==> a < b
  {
    EventPositions(c, a);
    EventPositions(c, b);
  }

  /** Hook `h` fires on interceptor `i` exactly as often as `i` occurs in the list. */
  lemma {:induction false} ForEachCounts<I>(s: seq<I>, h: Hook, i: I)
    ensures multiset(ForEach(s, h))[Fire(h, i)] == multiset(s)[i]
  {
    if |s| != 0 {
      ForEachCounts(s[1..], h, i);
      assert s == [s[0]] + s[1..];
      assert ForEach(s, h) == [Fire(h, s[0])] + ForEach(s[1..], h);
      assert Fire(h, s[0]) == Fire(h, i) <==> s[0] == i;
    }
  }

  /** A hook run never dispatches, and never fires the other hook. */
  lemma ForEachOnlyFires<I>(s: seq<I>, h: Hook, i: I)
    ensures multiset(ForEach(s, h))[PlaceOrder] == 0
    ensures multiset(ForEach(s, h))[Fire(if h == BeforeHook then AfterHook else BeforeHook, i)] == 0
  {
    var t := ForEach(s, h);
    var other := Fire(if h == BeforeHook then AfterHook else BeforeHook, i);
    assert PlaceOrder !in t && other !in t by {
      forall k | 0 <= k < |t|
        ensures t[k] != PlaceOrder && t[k] != other
      {
        assert t[k] == Fire(h, s[k]);
      }
    }
  }

  /** `placeOrder()` happens exactly once on an `OrderService` target and never
      otherwise; each interceptor's hooks run once per time it was added. */
  lemma ExecuteCounts<I>(c: Chain<I>, i: I)
    ensures multiset(Execute(c))[PlaceOrder] == DispatchCount(c.target)
    ensures multiset(Execute(c))[Before(i)] == multiset(c.interceptors)[i]
    ensures multiset(Execute(c))[After(i)] == multiset(c.interceptors)[i]
  {
    var s := c.interceptors;
    var befores, dispatch, afters := ForEach(s, BeforeHook), Dispatch<I>(c.target), ForEach(s, AfterHook);
    assert multiset(Execute(c)) == multiset(befores) + multiset(dispatch) + multiset(afters);
    ForEachCounts(s, BeforeHook, i);
    ForEachCounts(s, AfterHook, i);
    ForEachOnlyFires(s, BeforeHook, i);
    ForEachOnlyFires(s, AfterHook, i);
  }

  /** With no interceptors the trace is the dispatch alone. */
  lemma EmptyChainTrace<I>(target: Target)
    ensures Execute(New<I>(target)) == (if target == OrderSvc then [PlaceOrder] else [])
  {
  }

  /** Adding `i` puts its before at the end of the befores and its after at the
      end of the afters; the rest of the trace is as before. */
  lemma ExecuteAfterAdd<I>(c: Chain<I>, i: I)
    ensures Execute(Add(c, i)) ==
      ForEach(c.interceptors, BeforeHook) + [Before(i)] + Dispatch(c.target)
      + ForEach(c.interceptors, AfterHook) + [After(i)]
  {
    var t := ForEach(c.interceptors, BeforeHook) + [Before(i)] + Dispatch(c.target)
      + ForEach(c.interceptors, AfterHook) + [After(i)];
    var c' := Add(c, i);
    var n := |c.interceptors|;
    var d := DispatchCount(c.target);
    assert IsTraceOf(c', t) by {
      forall k | 0 <= k < n + 1
        ensures t[(n + 1) + d + k] == After(c'.interceptors[k])
      {
        if k < n {
          assert t[(n + 1) + d + k] == ForEach(c.interceptors, AfterHook)[k];
        }
      }
    }
    TraceIsUnique(c', t);
  }
}
