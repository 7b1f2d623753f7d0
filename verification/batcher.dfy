/**
 * The queue between the crawlers and the delivery gateway. It collects
 * containers and decides, on every input, whether to hand the collected
 * batch on. The ticker and the one-shot start timer of the source push a
 * nil container; here every input is a `Wake` holding an optional container
 * and the clock readings taken for it.
 */
module Batcher {
  import opened Wrappers
  import opened Events
  import Dates

  const MaxItems: nat := 10
  const MaxSecurityEvents: nat := 1000
  /** How long a batch holding a critical event may wait. */
  const CriticalIdleTimeout: int := 20 * Dates.Second

  datatype Queue = Queue(
    items: seq<EventsContainer>,
    lastRun: Dates.Instant,
    critical: bool,
    idleTimeout: int,
    firstRun: bool)

  /**
   * One pass of the input loop: a container, or `None` for a timer wake;
   * `now`, the time the flush rule is tested at; and `handedOn`, the time
   * read once a flushed batch has been handed to the gateway. The hand-off
   * blocks until the gateway takes the batch, so `handedOn` can lie well
   * after `now`; it is used only when the input flushes.
   */
  datatype Wake = Wake(container: Option<EventsContainer>, now: Dates.Instant, handedOn: Dates.Instant)

  /** What one input produces: the batch handed on, if any, and the next state. */
  datatype StepResult = StepResult(sent: Option<seq<EventsContainer>>, queue: Queue)

  /** Which branch of the flush rule fires, in the order the source tests them. */
  datatype Trigger = ByIdleTime | ByItemCount | ByCriticalEvent | ByFirstRun | ByEventCount | NoFlush

  /** `Init`: empty, not critical, first run pending, clock started now. */
  function Init(now: Dates.Instant, idleTimeout: int): (q: Queue)
    ensures q.items == [] && !q.critical && q.firstRun
    ensures q.lastRun == now && q.idleTimeout == idleTimeout
  {
    Queue([], now, false, idleTimeout, true)
  }

  /**
   * `Flush`: emit the collected items in arrival order and start over, the
   * clock restarted at `handedOn`, the time read after the hand-off.
   */
  function Flush(q: Queue, handedOn: Dates.Instant): (r: (seq<EventsContainer>, Queue))
    ensures r.0 == q.items
    ensures r.1.items == [] && !r.1.critical && !r.1.firstRun
    ensures r.1.lastRun == handedOn && r.1.idleTimeout == q.idleTimeout
  {
    (q.items, q.(items := [], critical := false, lastRun := handedOn, firstRun := false))
  }

  /** The scan for a critical event, stopping at the first one. */
  function AnyCritical(events: seq<SecurityEvent>): (r: bool)
    ensures r <==> exists i | 0 <= i < |events| :: events[i].critical
    decreases |events|
  {
    if |events| == 0 then false
    else if events[0].critical then true
    else
      var r := AnyCritical(events[1..]);
      assert r <==> exists i | 1 <= i < |events| :: events[i].critical by {
        if r {
          var i :| 0 <= i < |events[1..]| && events[1..][i].critical;
          assert events[i + 1].critical;
        } else {
          forall i | 1 <= i < |events|
            ensures !events[i].critical
          {
            assert events[1..][i - 1] == events[i];
          }
        }
      }
      r
  }

  function TotalEvents(items: seq<EventsContainer>): nat
  {
    if |items| == 0 then 0
    else TotalEvents(items[..|items| - 1]) + |items[|items| - 1].securityEvents|
  }

  /** The first half of the loop body: a container is appended and its events checked. */
  function Absorb(q: Queue, c: Option<EventsContainer>): (a: Queue)
    ensures a.items == if c.Some? then q.items + [c.value] else q.items
    ensures a.critical <==> q.critical || (c.Some? && AnyCritical(c.value.securityEvents))
    ensures a.lastRun == q.lastRun && a.idleTimeout == q.idleTimeout && a.firstRun == q.firstRun
  {
    match c
    case None => q
    case Some(container) =>
      q.(items := q.items + [container],
         critical := q.critical || AnyCritical(container.securityEvents))
  }

  /** The second half: the flush rule, tested in the source's order. */
  function TriggerOf(a: Queue, now: Dates.Instant): Trigger
  {
    if now - a.lastRun > a.idleTimeout then ByIdleTime
    else if |a.items| >= MaxItems then ByItemCount
    else if a.critical && now - a.lastRun > CriticalIdleTimeout then ByCriticalEvent
    else if a.firstRun then ByFirstRun
    else if TotalEvents(a.items) >= MaxSecurityEvents then ByEventCount
    else NoFlush
  }

  /** Some flush condition holds, with no order among them. */
  predicate FlushDue(a: Queue, now: Dates.Instant)
  {
    now - a.lastRun > a.idleTimeout
    || |a.items| >= MaxItems
    || (a.critical && now - a.lastRun > CriticalIdleTimeout)
    || a.firstRun
    || TotalEvents(a.items) >= MaxSecurityEvents
  }

  /** One pass of the loop in `Run`. */
  function Step(q: Queue, w: Wake): (r: StepResult)
    ensures r.sent.Some? <==> FlushDue(Absorb(q, w.container), w.now)
    ensures r.sent.Some? ==> r.sent.value == Absorb(q, w.container).items
    ensures r.sent.Some? ==> r.queue == Init(w.handedOn, q.idleTimeout).(firstRun := false)
    ensures r.sent.None? ==> r.queue == Absorb(q, w.container)
  {
    var a := Absorb(q, w.container);
    if TriggerOf(a, w.now) == NoFlush then StepResult(None, a)
    else
      var (batch, next) := Flush(a, w.handedOn);
      StepResult(Some(batch), next)
  }

  /** Each branch fires exactly when its own test holds and every earlier test fails. */
  lemma {:induction false} TriggerTable(a: Queue, now: Dates.Instant)
    ensures TriggerOf(a, now) == ByIdleTime <==> now - a.lastRun > a.idleTimeout
    ensures TriggerOf(a, now) == ByItemCount <==> !(now - a.lastRun > a.idleTimeout) && |a.items| >= MaxItems
    ensures TriggerOf(a, now) == ByCriticalEvent <==>
      !(now - a.lastRun > a.idleTimeout) && |a.items| < MaxItems && a.critical && now - a.lastRun > CriticalIdleTimeout
    ensures TriggerOf(a, now) == ByFirstRun <==>
      !(now - a.lastRun > a.idleTimeout) && |a.items| < MaxItems && !(a.critical && now - a.lastRun > CriticalIdleTimeout)
      && a.firstRun
    ensures TriggerOf(a, now) == ByEventCount <==>
      !(now - a.lastRun > a.idleTimeout) && |a.items| < MaxItems && !(a.critical && now - a.lastRun > CriticalIdleTimeout)
      && !a.firstRun && TotalEvents(a.items) >= MaxSecurityEvents
    ensures TriggerOf(a, now) == NoFlush <==> !FlushDue(a, now)
  {
  }

  /** The first input after `Init` always flushes, whatever it carries. */
  lemma {:induction false} FirstWakeFlushes(now: Dates.Instant, idleTimeout: int, w: Wake)
    ensures Step(Init(now, idleTimeout), w).sent.Some?
  {
  }

  /** A timer wake with nothing collected can still flush, handing on an empty batch. */
  lemma {:induction false} IdleFlushCanBeEmpty(q: Queue, now: Dates.Instant, handedOn: Dates.Instant)
    requires q.items == [] && now - q.lastRun > q.idleTimeout
    ensures Step(q, Wake(None, now, handedOn)).sent == Some([])
  {
  }

  // ---------------------------------------------------------------------------
  // Runs over a sequence of inputs

  /** The critical flag says whether some collected container holds a critical event. */
  ghost predicate Consistent(q: Queue)
  {
    q.critical <==> exists i | 0 <= i < |q.items| :: AnyCritical(q.items[i].securityEvents)
  }

  lemma {:induction false} StepKeepsConsistent(q: Queue, w: Wake)
    requires Consistent(q)
    ensures Consistent(Step(q, w).queue)
  {
    var a := Absorb(q, w.container);
    if w.container.Some? {
      assert forall i | 0 <= i < |q.items| :: a.items[i] == q.items[i];
      assert a.items[|q.items|] == w.container.value;
    }
  }

  /** The input loop over a sequence of wakes: every batch handed on, and the final state. */
  function Run(q: Queue, wakes: seq<Wake>): (seq<seq<EventsContainer>>, Queue)
  {
    if |wakes| == 0 then ([], q)
    else
      var (batches, mid) := Run(q, wakes[..|wakes| - 1]);
      var r := Step(mid, wakes[|wakes| - 1]);
      (batches + (if r.sent.Some? then [r.sent.value] else []), r.queue)
  }

  function Flatten(batches: seq<seq<EventsContainer>>): seq<EventsContainer>
  {
    if |batches| == 0 then [] else Flatten(batches[..|batches| - 1]) + batches[|batches| - 1]
  }

  /** The containers a wake brings: its container, if any. */
  function Brought(w: Wake): (c: seq<EventsContainer>)
    ensures |c| <= 1
  {
    if w.container.Some? then [w.container.value] else []
  }

  /** The containers among the inputs, in arrival order. */
  function Arrivals(wakes: seq<Wake>): seq<EventsContainer>
  {
    if |wakes| == 0 then [] else Arrivals(wakes[..|wakes| - 1]) + Brought(wakes[|wakes| - 1])
  }

  lemma {:induction false} FlattenAppend(batches: seq<seq<EventsContainer>>, b: seq<EventsContainer>)
    ensures Flatten(batches + [b]) == Flatten(batches) + b
  {
    assert (batches + [b])[..|batches|] == batches;
  }

  /** A step either hands on everything collected plus what the wake brings, or keeps collecting it. */
  lemma {:induction false} StepItems(q: Queue, w: Wake)
    ensures Step(q, w).sent.Some? ==> Step(q, w).sent.value == q.items + Brought(w) && Step(q, w).queue.items == []
    ensures Step(q, w).sent.None? ==> Step(q, w).queue.items == q.items + Brought(w)
  {
  }

  /** The bookkeeping of one step of a run, free of the flush rule. */
  lemma {:induction false} ArrivalStep(batches: seq<seq<EventsContainer>>, held: seq<EventsContainer>, sent: Option<seq<EventsContainer>>,
                                       after: seq<EventsContainer>, before: seq<EventsContainer>, c: seq<EventsContainer>)
    requires Flatten(batches) + held == before
    requires sent.Some? ==> sent.value == held + c && after == []
    requires sent.None? ==> after == held + c
    ensures Flatten(batches + (if sent.Some? then [sent.value] else [])) + after == before + c
  {
    if sent.Some? {
      FlattenAppend(batches, sent.value);
      assert Flatten(batches + [sent.value]) == Flatten(batches) + (held + c);
    } else {
      assert batches + [] == batches;
    }
  }

  /**
   * Nothing is lost, duplicated or reordered: the batches handed on,
   * followed by what is still collected, are the arrivals in order.
   */
  lemma {:induction false} RunKeepsArrivalOrder(q: Queue, wakes: seq<Wake>)
    ensures Flatten(Run(q, wakes).0) + Run(q, wakes).1.items == q.items + Arrivals(wakes)
  {
    if |wakes| > 0 {
      var init := wakes[..|wakes| - 1];
      var w := wakes[|wakes| - 1];
      RunKeepsArrivalOrder(q, init);
      var (batches, mid) := Run(q, init);
      StepItems(mid, w);
      var r := Step(mid, w);
      ArrivalStep(batches, mid.items, r.sent, r.queue.items, q.items + Arrivals(init), Brought(w));
      assert q.items + Arrivals(init) + Brought(w) == q.items + Arrivals(wakes);
    }
  }

  /** The critical flag stays truthful over any run that starts from `Init`. */
  lemma {:induction false} RunKeepsConsistent(q: Queue, wakes: seq<Wake>)
    requires Consistent(q)
    ensures Consistent(Run(q, wakes).1)
  {
    if |wakes| > 0 {
      RunKeepsConsistent(q, wakes[..|wakes| - 1]);
      StepKeepsConsistent(Run(q, wakes[..|wakes| - 1]).1, wakes[|wakes| - 1]);
    }
  }
}
