# Interceptor chain

A Dafny model of `InterceptorChain`, the one class with logic in this
interceptor-pattern example. A chain holds one target and an ordered list of
interceptors. `addInterceptor` appends to the list. `execute` runs every
interceptor's `before()` in list order, calls `placeOrder()` once if the target
is an `OrderService`, then runs every `after()` in the same order.

The model is functional:

- `InterceptorChain` (interceptor_chain.dfy): the chain is a value of type
  `Chain<I>`. It holds a `seq<I>` of interceptor identities, where the same
  identity may appear twice, and a `Target`, which is `OrderSvc` or `Other`.
  The `Target` stands in for the `instanceof OrderService` test. `New`, `Add`
  and `Execute` are pure functions. `Execute` returns the trace of calls the
  Java method makes, made of `Before(i)`, `PlaceOrder` and `After(i)` events.
  The predicate `IsTraceOf` gives an independent position-by-position
  description of that trace. `Execute` satisfies it, and `TraceIsUnique` shows
  that any trace satisfying it is the one `Execute` returns. `ExecuteLoop` is
  the same computation written as two loops.
- `ChainLifecycle` (chain_lifecycle.dfy): replays any sequence of
  `addInterceptor` / `execute` calls on one chain. `Run` records the chain each
  `execute` call sees, and `Traces` gives the trace of each of those calls.
  This lets the model state properties that hold across calls: the target is
  never reassigned, the list only grows at its end, and `execute` changes
  nothing. Each `execute` runs on the chain as it stands at that call, and a
  later call never changes an earlier trace.
- `MainScenario` (main_scenario.dfy): the wiring of the entry point, with one
  logging interceptor over an `OrderService`, and the three lines it prints.

## Model

| member | source | states |
|---|---|---|
| InterceptorChain.New | java-interpreter-pattern/src/main/java/com/madeeasy/InterceptorChain.java:7-12 | a new chain has no interceptors and holds exactly the target it was given |
| InterceptorChain.Add | java-interpreter-pattern/src/main/java/com/madeeasy/InterceptorChain.java:14-16 | the list grows by one, every earlier entry keeps its position, the new interceptor is last (even if already present), and the target is unchanged |
| InterceptorChain.ForEach | java-interpreter-pattern/src/main/java/com/madeeasy/InterceptorChain.java:19 | `forEach` over the list fires the hook once per entry, entry k's call at position k |
| InterceptorChain.Dispatch | java-interpreter-pattern/src/main/java/com/madeeasy/InterceptorChain.java:21-23 | the dispatch step is one `PlaceOrder` for an `OrderService` target and nothing otherwise, with no error |
| InterceptorChain.Execute | java-interpreter-pattern/src/main/java/com/madeeasy/InterceptorChain.java:18-25 | the trace has length 2·n plus 1 for an `OrderService` target and 2·n otherwise; the first n events are the befores in list order, the dispatch sits at index n, and the last n are the afters in the same order |
| InterceptorChain.TraceIsUnique | java-interpreter-pattern/src/main/java/com/madeeasy/InterceptorChain.java:18-25 | that positional description determines the trace: any trace matching it equals the result of `execute` |
| InterceptorChain.ExecuteLoop | java-interpreter-pattern/src/main/java/com/madeeasy/InterceptorChain.java:18-25 | running the befores, the conditional dispatch and the afters as loops produces the positional trace, which is the trace of `execute` |
| InterceptorChain.EventPositions | java-interpreter-pattern/src/main/java/com/madeeasy/InterceptorChain.java:19-24 | an event is a before iff it is among the first n, the dispatch iff the target is an `OrderService` and it is at index n, an after iff it is among the last n |
| InterceptorChain.HooksBracketDispatch | java-interpreter-pattern/src/main/java/com/madeeasy/InterceptorChain.java:19-24 | every before precedes every non-before event, and the dispatch precedes every after |
| InterceptorChain.ForEachCounts | java-interpreter-pattern/src/main/java/com/madeeasy/InterceptorChain.java:19 | a hook fires on an interceptor exactly as many times as it occurs in the list, duplicates included |
| InterceptorChain.ForEachOnlyFires | java-interpreter-pattern/src/main/java/com/madeeasy/InterceptorChain.java:19-24 | a hook loop never dispatches and never runs the other hook |
| InterceptorChain.ExecuteCounts | java-interpreter-pattern/src/main/java/com/madeeasy/InterceptorChain.java:19-24 | `placeOrder` happens exactly once for an `OrderService` target and never otherwise, and each interceptor's before and after run once per time it was added |
| InterceptorChain.EmptyChainTrace | java-interpreter-pattern/src/main/java/com/madeeasy/InterceptorChain.java:21-23 | with no interceptors the trace is exactly `[PlaceOrder]` for an `OrderService` and empty otherwise, with no error |
| InterceptorChain.ExecuteAfterAdd | java-interpreter-pattern/src/main/java/com/madeeasy/InterceptorChain.java:14-24 | after appending `i`, the trace is the old befores, `Before(i)`, the dispatch, the old afters, `After(i)` |
| ChainLifecycle.Step | java-interpreter-pattern/src/main/java/com/madeeasy/InterceptorChain.java:14-25 | one call never changes the target; `execute` runs on the current chain and leaves it unchanged; `addInterceptor` appends and runs nothing |
| ChainLifecycle.Run | java-interpreter-pattern/src/main/java/com/madeeasy/InterceptorChain.java:8-25 | over any call sequence the target is never reassigned, neither in the final chain nor in any chain an `execute` saw, and each `execute` call is recorded once |
| ChainLifecycle.Traces | java-interpreter-pattern/src/main/java/com/madeeasy/InterceptorChain.java:18-25 | each recorded `execute` call yields a trace of the positional shape for the chain that call saw |
| ChainLifecycle.RunEffect | java-interpreter-pattern/src/main/java/com/madeeasy/InterceptorChain.java:8-16 | over any call sequence the final list is the old list followed by the added interceptors in call order, and the target is the constructor's |
| ChainLifecycle.RunAppend | java-interpreter-pattern/src/main/java/com/madeeasy/InterceptorChain.java:14-25 | running calls `a` and then `b` is running `a + b`: `b` starts from the chain `a` left, and the executes of `a` come first |
| ChainLifecycle.LaterCallsKeepEarlierTraces | java-interpreter-pattern/src/main/java/com/madeeasy/InterceptorChain.java:14-25 | later calls never change a trace already produced: the traces of `a` are a prefix of the traces of `a + b` |
| ChainLifecycle.ExecuteSeesCurrentChain | java-interpreter-pattern/src/main/java/com/madeeasy/InterceptorChain.java:14-25 | an `execute` after any calls leaves the chain as it was and adds the trace of the constructor's target with the old list followed by every interceptor added so far |
| ChainLifecycle.ExecuteOnlyRuns | java-interpreter-pattern/src/main/java/com/madeeasy/InterceptorChain.java:18-25 | repeated `execute` calls leave the chain unchanged and all yield the same trace |
| ChainLifecycle.AddBetweenExecutes | java-interpreter-pattern/src/main/java/com/madeeasy/InterceptorChain.java:14-25 | for execute, add `i`, execute: the chain ends with `i` appended, the first trace is that of the old chain and the second is that of the extended chain |
| ChainLifecycle.AddedHooksOnlyInLaterTrace | java-interpreter-pattern/src/main/java/com/madeeasy/InterceptorChain.java:14-25 | an interceptor not yet added has no hook in the earlier trace; once added, its before is the last before and its after is the last event |
| MainScenario.MainChain | java-interpreter-pattern/src/main/java/com/madeeasy/Main.java:5-9 | the entry point's chain has the one logging interceptor over an `OrderService` |
| MainScenario.Output | java-interpreter-pattern/src/main/java/com/madeeasy/LoggingInterceptor.java:5-11 | each event prints one line in trace order: befores print the logging before text, afters the logging after text |
| MainScenario.MainTrace | java-interpreter-pattern/src/main/java/com/madeeasy/Main.java:5-11 | the entry point's run is exactly before(logging), placeOrder, after(logging) |
| MainScenario.MainOutput | java-interpreter-pattern/src/main/java/com/madeeasy/LoggingInterceptor.java:6-11 | the entry point prints the logging before line, the order's line, then the logging after line |

## Left out

- Console output. The `System.out.println` calls in the logging hooks and in `placeOrder` are I/O. They become trace events, and `MainScenario.Output` maps those events to the printed lines.
- The text `placeOrder` prints. `OrderService` is not part of this model, so that line is a parameter (`orderLine`).
- The `Interceptor` interface and the `OrderService` class. Their bodies are not part of this model. Interceptors are opaque identities, and the target is reduced to the outcome of the `instanceof OrderService` test.
- Exceptions thrown by a hook or by `placeOrder`, and null entries. `addInterceptor(null)` is accepted by the list, and `execute` then throws a `NullPointerException` at the first `before()` on it. Any exception in a `before()` aborts the whole `execute`: the remaining befores, the dispatch and every `after()` are skipped. An exception in `placeOrder` skips every `after()`. The code defines no failure contract, so every list entry is modelled as a total interceptor, and every hook and `placeOrder` as total.
- Re-entrant calls. A hook or the target that holds a reference to the chain could call `addInterceptor` during `execute`. Inside either `forEach` that makes the list's iterator throw a `ConcurrentModificationException` after the list has grown. Inside `placeOrder` it makes the after loop run over one more entry than the before loop did. The model assumes hooks and `placeOrder` never call back into the chain. The claims that `execute` leaves the chain unchanged and that the afters run over the same entries as the befores rest on that assumption.
- Process start-up in `Main.main`, beyond the one scenario in `MainScenario`.
