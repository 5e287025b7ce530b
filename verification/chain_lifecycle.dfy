/**
 The life of one chain object: after construction its owner calls
 `addInterceptor` and `execute` in any order. This module replays such a call
 sequence on the immutable model and states what the mutable Java object
 promises across calls: the target is never reassigned, the interceptor list
 only grows at its end, `execute` changes nothing, and each `execute` runs on
 the chain as it stands at that call.
 */
module ChainLifecycle {
  import opened InterceptorChain

  /** One public call on an existing chain. */
  datatype Op<I> = AddInterceptor(interceptor: I) | ExecuteOp

  /** The state after some calls, and the chain as each `execute` call saw it, in call order. */
  datatype Outcome<I> = Outcome(chain: Chain<I>, executed: seq<Chain<I>>)

  /** One call: `addInterceptor` appends and runs nothing; `execute` runs on
      the current chain and leaves it as it was. */
  function Step<I>(c: Chain<I>, op: Op<I>): (o: Outcome<I>)
    ensures o.chain.target == c.target
    ensures op.ExecuteOp? ==> o.chain == c && o.executed == [c]
    ensures op.AddInterceptor? ==> o.chain.interceptors == c.interceptors + [op.interceptor] && o.executed == []
  {
    match op
    case AddInterceptor(i) => Outcome(Add(c, i), [])
    case ExecuteOp => Outcome(c, [c])
  }

  /** The number of `execute` calls. */
  function Executions<I>(ops: seq<Op<I>>): nat
  {
    if |ops| == 0 then 0 else (if ops[0].ExecuteOp? then 1 else 0) + Executions(ops[1..])
  }

  /** A sequence of calls, in order. The target is never reassigned, not even
      in the chain an `execute` sees, and each `execute` is recorded once. */
  function Run<I>(c: Chain<I>, ops: seq<Op<I>>): (o: Outcome<I>)
    ensures o.chain.target == c.target
    ensures |o.executed| == Executions(ops)
    ensures forall k :: 0 <= k < |o.executed| ==> o.executed[k].target == c.target
    decreases |ops|
  {
    if |ops| == 0 then Outcome(c, [])
    else
      var first := Step(c, ops[0]);
      var rest := Run(first.chain, ops[1..]);
      Outcome(rest.chain, first.executed + rest.executed)
  }

  /** The traces of the `execute` calls of a run, in call order: each one has
      the shape `execute` gives the chain that call saw. */
  function Traces<I>(o: Outcome<I>): (ts: seq<seq<Event<I>>>)
    ensures |ts| == |o.executed|
    ensures forall k :: 0 <= k < |ts| ==> IsTraceOf(o.executed[k], ts[k])
  {
    seq(|o.executed|, k requires 0 <= k < |o.executed| => Execute(o.executed[k]))
  }

  /** The interceptors named by the `addInterceptor` calls, in call order. */
  function Added<I>(ops: seq<Op<I>>): seq<I>
  {
    if |ops| == 0 then []
    else (if ops[0].AddInterceptor? then [ops[0].interceptor] else []) + Added(ops[1..])
  }

  /** Across any call sequence the list is the old list followed by the
      added interceptors, in call order. */
  lemma {:induction false} RunEffect<I>(c: Chain<I>, ops: seq<Op<I>>)
    ensures Run(c, ops).chain == Chain(c.interceptors + Added(ops), c.target)
    decreases |ops|
  {
    if |ops| != 0 {
      var first := Step(c, ops[0]);
      RunEffect(first.chain, ops[1..]);
      match ops[0]
      case AddInterceptor(i) =>
        assert Added(ops) == [i] + Added(ops[1..]);
        assert c.interceptors + Added(ops)
            == (c.interceptors + [i]) + Added(ops[1..]);
      case ExecuteOp =>
        assert Added(ops) == Added(ops[1..]);
    }
  }

  /** Running `a` then `b` is running `a + b`: `b` starts from the chain `a`
      left, and the `execute` calls of `a` come first. */
  lemma {:induction false} RunAppend<I>(c: Chain<I>, a: seq<Op<I>>, b: seq<Op<I>>)
    ensures Run(c, a + b).chain == Run(Run(c, a).chain, b).chain
    ensures Run(c, a + b).executed == Run(c, a).executed + Run(Run(c, a).chain, b).executed
    decreases |a|
  {
    if |a| == 0 {
      assert a + b == b;
    } else {
      var first := Step(c, a[0]);
      assert (a + b)[0] == a[0];
      assert (a + b)[1..] == a[1..] + b;
      RunAppend(first.chain, a[1..], b);
      var tail := Run(first.chain, a[1..]);
      assert first.executed + (tail.executed + Run(tail.chain, b).executed)
          == (first.executed + tail.executed) + Run(tail.chain, b).executed;
    }
  }

  /** The traces of two runs, one after the other, are those of the first followed by those of the second. */
  lemma TracesAppend<I>(o: Outcome<I>, first: Outcome<I>, second: Outcome<I>)
    requires o.executed == first.executed + second.executed
    ensures Traces(o) == Traces(first) + Traces(second)
  {
    var n := |first.executed|;
    forall k | 0 <= k < |o.executed|
      ensures Traces(o)[k] == (Traces(first) + Traces(second))[k]
    {
      if k < n {
        assert o.executed[k] == first.executed[k];
      } else {
        assert o.executed[k] == second.executed[k - n];
      }
    }
  }

  /** Later calls never change a trace already produced. */
  lemma LaterCallsKeepEarlierTraces<I>(c: Chain<I>, a: seq<Op<I>>, b: seq<Op<I>>)
    ensures |Traces(Run(c, a))| <= |Traces(Run(c, a + b))|
    ensures Traces(Run(c, a + b))[..|Traces(Run(c, a))|] == Traces(Run(c, a))
  {
    RunAppend(c, a, b);
    TracesAppend(Run(c, a + b), Run(c, a), Run(Run(c, a).chain, b));
  }

  /** An `execute` after any calls `ops` leaves the chain as `ops` left it and
      adds the trace of that chain: the constructor's target and the old list
      followed by every interceptor added so far. */
  lemma ExecuteSeesCurrentChain<I>(c: Chain<I>, ops: seq<Op<I>>)
    ensures Run(c, ops + [ExecuteOp]).chain == Run(c, ops).chain
    ensures Traces(Run(c, ops + [ExecuteOp])) ==
      Traces(Run(c, ops)) + [Execute(Chain(c.interceptors + Added(ops), c.target))]
  {
    RunAppend(c, ops, [ExecuteOp]);
    RunEffect(c, ops);
    var before := Run(c, ops);
    var last: seq<Op<I>> := [ExecuteOp];
    assert last[1..] == [];
    var after := Run(before.chain, last);
    assert after == Outcome(before.chain, [before.chain]);
    TracesAppend(Run(c, ops + last), before, after);
  }

  /** Calls that never add leave the chain exactly as it was, however many times
      `execute` ran, and every trace is the same. */
  lemma {:induction false} ExecuteOnlyRuns<I>(c: Chain<I>, ops: seq<Op<I>>)
    requires forall k :: 0 <= k < |ops| ==> ops[k].ExecuteOp?
    ensures Run(c, ops).chain == c
    ensures |Traces(Run(c, ops))| == |ops|
    ensures forall k :: 0 <= k < |ops| ==> Traces(Run(c, ops))[k] == Execute(c)
    decreases |ops|
  {
    if |ops| != 0 {
      assert ops[0].ExecuteOp?;
      ExecuteOnlyRuns(c, ops[1..]);
      var rest := Run(c, ops[1..]);
      assert Run(c, ops).executed == [c] + rest.executed;
    }
  }

  /** `execute`, then `addInterceptor(i)`, then `execute`: the chain ends with
      `i` appended, the first trace is that of the old list and is not affected
      by the later call, and the second is that of the extended list. */
  lemma AddBetweenExecutes<I>(c: Chain<I>, i: I)
    ensures Run(c, [ExecuteOp, AddInterceptor(i), ExecuteOp]).chain == Add(c, i)
    ensures Traces(Run(c, [ExecuteOp, AddInterceptor(i), ExecuteOp])) == [Execute(c), Execute(Add(c, i))]
  {
    var c' := Add(c, i);
    var last: seq<Op<I>> := [ExecuteOp];
    var middle: seq<Op<I>> := [AddInterceptor(i), ExecuteOp];
    var ops: seq<Op<I>> := [ExecuteOp, AddInterceptor(i), ExecuteOp];
    assert last[1..] == [];
    assert Run(c', last) == Outcome(c', [c']);
    assert middle[1..] == last;
    assert Run(c, middle) == Outcome(c', [c']);
    assert ops[1..] == middle;
    assert Run(c, ops) == Outcome(c', [c, c']);
  }

  /** An interceptor not yet in the list has no hook in the trace of the old
      list; once added, its before is the last before and its after is the
      last event. */
  lemma AddedHooksOnlyInLaterTrace<I>(c: Chain<I>, i: I)
    ensures i !in c.interceptors ==>
      Before(i) !in Execute(c) && After(i) !in Execute(c)
    ensures Execute(Add(c, i))[|c.interceptors|] == Before(i)
    ensures Execute(Add(c, i))[|Execute(Add(c, i))| - 1] == After(i)
  {
    ExecuteCounts(c, i);
    if i !in c.interceptors {
      assert multiset(c.interceptors)[i] == 0;
    }
    var c' := Add(c, i);
    var n := |c.interceptors|;
    assert Execute(c')[n + 1 + DispatchCount(c.target) + n] == After(c'.interceptors[n]);
  }
}
