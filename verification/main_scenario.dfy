/**
 The wiring of the program's entry point: an `OrderService` target, one
 `LoggingInterceptor`, one `execute`. The logging interceptor's two hooks each
 print one fixed line; `placeOrder` prints a line of its own whose text is not
 part of this model, so it is a parameter here.
 */
module MainScenario {
  import opened InterceptorChain

  /** The only interceptor the entry point creates. */
  datatype Wired = Logging

  const BeforeLine: string := "Before method execution: Logging..."
  const AfterLine: string := "After method execution: Logging..."

  /** The line printed for one event of a chain whose interceptors all log. */
  function Line(e: Event<Wired>, orderLine: string): string
  {
    match e
    case Before(_) => BeforeLine
    case PlaceOrder => orderLine
    case After(_) => AfterLine
  }

  /** The console output of a trace: one line per event, in trace order. */
  function Output(t: seq<Event<Wired>>, orderLine: string): (lines: seq<string>)
    ensures |lines| == |t|
    ensures forall k :: 0 <= k < |t| ==> lines[k] == Line(t[k], orderLine)
  {
    if |t| == 0 then [] else [Line(t[0], orderLine)] + Output(t[1..], orderLine)
  }

  /** The chain the entry point builds before calling `execute`. */
  function MainChain(): (c: Chain<Wired>)
    ensures c.interceptors == [Logging] && c.target == OrderSvc
  {
    Add(New(OrderSvc), Logging)
  }

  /** The entry point's run: the logging before, the order, the logging after. */
  lemma MainTrace()
    ensures Execute(MainChain()) == [Before(Logging), PlaceOrder, After(Logging)]
  {
  }

  /** What the entry point prints: the before line, the order's line, the after line. */
  lemma MainOutput(orderLine: string)
    ensures Output(Execute(MainChain()), orderLine) == [BeforeLine, orderLine, AfterLine]
  {
  }
}
