/**
 * example/lockfree_queue.cpp: producers and consumers on a lock-free queue, and how `main` shuts them down.
 * The queue is an atomic FIFO; a push may fail and is then tried again.
 */
module ShutdownProtocol {
  import opened Wrappers

  datatype Producer =
    | Looping(i: nat)              // `i` iterations are done
    | Pushing(i: nat, value: nat)  // has drawn `value`, not yet pushed it

  datatype Consumer =
    | CheckDone     // `while (!done)`
    | Polling       // the inner `queue.pop`
    | Counting      // has popped, before `++consumer_count`
    | Draining      // the `queue.pop` after the loop
    | DrainCounting
    | Exited

  /** The statements of `main` that matter. */
  datatype Statement = JoinProducers | SetDone | JoinConsumers

  const MAIN: seq<Statement> := [JoinProducers, SetDone, JoinConsumers]

  /** `popped` are the values popped so far; `pc` is the statement `main` is at. */
  datatype State = State(queue: seq<nat>, producers: seq<Producer>, consumers: seq<Consumer>,
                         producerCount: nat, consumerCount: nat, done: bool, pc: nat, popped: seq<nat>)

  datatype Action = Produce(p: nat, accepted: bool) | Consume(c: nat) | Main

  /** The number of iterations of a producer, and the program of `main`. */
  datatype Setup = Setup(iterations: nat, program: seq<Statement>)

  predicate Finished(u: Setup, p: Producer) {
    p == Looping(u.iterations)
  }

  predicate Enabled(u: Setup, s: State, a: Action) {
    match a
    case Produce(p, accepted) => p < |s.producers| && !Finished(u, s.producers[p])
    case Consume(c) => c < |s.consumers| && !s.consumers[c].Exited?
    case Main =>
      s.pc < |u.program| &&
      if u.program[s.pc].JoinProducers? then forall p | 0 <= p < |s.producers| :: Finished(u, s.producers[p])
      else u.program[s.pc].JoinConsumers? ==> forall c | 0 <= c < |s.consumers| :: s.consumers[c].Exited?
  }

  function DoProduce(s: State, p: nat, accepted: bool): State
    requires p < |s.producers|
  {
    match s.producers[p]
    case Looping(i) =>
      s.(producerCount := s.producerCount + 1, producers := s.producers[p := Pushing(i, s.producerCount + 1)])
    case Pushing(i, v) =>
      if accepted then s.(queue := s.queue + [v], producers := s.producers[p := Looping(i + 1)]) else s
  }

  function At(s: State, c: nat, x: Consumer): State
    requires c < |s.consumers|
  {
    s.(consumers := s.consumers[c := x])
  }

  function Pop(s: State): State
    requires s.queue != []
  {
    s.(queue := s.queue[1..], popped := s.popped + [s.queue[0]])
  }

  function DoConsume(s: State, c: nat): State
    requires c < |s.consumers|
  {
    match s.consumers[c]
    case CheckDone => At(s, c, if s.done then Draining else Polling)
    case Polling => if s.queue == [] then At(s, c, CheckDone) else At(Pop(s), c, Counting)
    case Counting => At(s, c, Polling).(consumerCount := s.consumerCount + 1)
    case Draining => if s.queue == [] then At(s, c, Exited) else At(Pop(s), c, DrainCounting)
    case DrainCounting => At(s, c, Draining).(consumerCount := s.consumerCount + 1)
    case Exited => s
  }

  function Do(u: Setup, s: State, a: Action): State
    requires Enabled(u, s, a)
  {
    match a
    case Produce(p, accepted) => DoProduce(s, p, accepted)
    case Consume(c) => DoConsume(s, c)
    case Main => s.(pc := s.pc + 1, done := s.done || u.program[s.pc].SetDone?)
  }

  function Initial(producers: nat, consumers: nat): State {
    State([], seq(producers, _ => Looping(0)), seq(consumers, _ => CheckDone), 0, 0, false, 0, [])
  }

  /** Where a trace leads from `s`, if every action is enabled in its turn. */
  function Run(u: Setup, s: State, trace: seq<Action>): Option<State> {
    if trace == [] then Some(s)
    else
      var before := Run(u, s, trace[..|trace| - 1]);
      var a := trace[|trace| - 1];
      if before.Some? && Enabled(u, before.value, a) then Some(Do(u, before.value, a)) else None
  }

  function Execute(u: Setup, producers: nat, consumers: nat, trace: seq<Action>): Option<State> {
    Run(u, Initial(producers, consumers), trace)
  }

  // What the threads have in hand.

  /** How many values a producer has drawn. */
  function Drawn(p: Producer): nat {
    if p.Pushing? then p.i + 1 else p.i
  }

  function TotalDrawn(producers: seq<Producer>): nat {
    if producers == [] then 0 else TotalDrawn(producers[..|producers| - 1]) + Drawn(producers[|producers| - 1])
  }

  function Holds(p: Producer, v: nat): nat {
    if p.Pushing? && p.value == v then 1 else 0
  }

  function Owes(c: Consumer): nat {
    if c.Counting? || c.DrainCounting? then 1 else 0
  }

  /** How many producers hold the value `v`. */
  function Holding(producers: seq<Producer>, v: nat): nat {
    if producers == [] then 0
    else Holding(producers[..|producers| - 1], v) + Holds(producers[|producers| - 1], v)
  }

  /** How many consumers have popped a value they have not counted. */
  function Uncounted(consumers: seq<Consumer>): nat {
    if consumers == [] then 0
    else Uncounted(consumers[..|consumers| - 1]) + Owes(consumers[|consumers| - 1])
  }

  lemma {:induction false} ProducerUpdate(producers: seq<Producer>, i: nat, x: Producer, v: nat)
    requires i < |producers|
    ensures TotalDrawn(producers[i := x]) == TotalDrawn(producers) - Drawn(producers[i]) + Drawn(x)
    ensures Holding(producers[i := x], v) == Holding(producers, v) - Holds(producers[i], v) + Holds(x, v)
  {
    var n := |producers| - 1;
    var updated := producers[i := x];
    if i == n {
      assert updated[..n] == producers[..n];
    } else {
      assert updated[..n] == producers[..n][i := x];
      ProducerUpdate(producers[..n], i, x, v);
    }
  }

  lemma {:induction false} ConsumerUpdate(consumers: seq<Consumer>, i: nat, x: Consumer)
    requires i < |consumers|
    ensures Uncounted(consumers[i := x]) == Uncounted(consumers) - Owes(consumers[i]) + Owes(x)
  {
    var n := |consumers| - 1;
    var updated := consumers[i := x];
    if i == n {
      assert updated[..n] == consumers[..n];
    } else {
      assert updated[..n] == consumers[..n][i := x];
      ConsumerUpdate(consumers[..n], i, x);
    }
  }

  /** Each of 1..k once. */
  function UpTo(k: nat): seq<nat> {
    if k == 0 then [] else UpTo(k - 1) + [k]
  }

  lemma {:induction false} UpToLength(k: nat)
    ensures |UpTo(k)| == k
    ensures forall v: nat :: multiset(UpTo(k))[v] == if 1 <= v <= k then 1 else 0
  {
    if k > 0 {
      UpToLength(k - 1);
    }
  }

  // Invariants.

  /** Every value drawn so far is in exactly one place, once. */
  ghost predicate Balanced(s: State, v: nat) {
    multiset(UpTo(s.producerCount))[v] ==
      multiset(s.popped)[v] + multiset(s.queue)[v] + Holding(s.producers, v)
  }

  ghost predicate Counted(s: State) {
    && s.producerCount == TotalDrawn(s.producers)
    && s.consumerCount + Uncounted(s.consumers) == |s.popped|
  }

  predicate InRange(u: Setup, p: Producer) {
    if p.Pushing? then p.i < u.iterations else p.i <= u.iterations
  }

  /** Producers never exceed their iterations; once `done` is set they have all finished. */
  ghost predicate Ordered(u: Setup, s: State) {
    && (forall p | 0 <= p < |s.producers| :: InRange(u, s.producers[p]))
    && s.pc <= 3
    && (s.pc > 0 ==> forall p | 0 <= p < |s.producers| :: Finished(u, s.producers[p]))
    && (s.done <==> s.pc > 1)
    && (s.pc == 3 ==> forall c | 0 <= c < |s.consumers| :: s.consumers[c].Exited?)
  }

  /** A consumer in the final drain knows that nothing more will be pushed; one that has exited saw the queue empty. */
  ghost predicate Drained(s: State) {
    forall c | 0 <= c < |s.consumers| ::
      && (s.consumers[c].Draining? || s.consumers[c].DrainCounting? || s.consumers[c].Exited? ==> s.done)
      && (s.consumers[c].Exited? ==> s.queue == [])
  }

  /** A producer draws the next value, pushes the one in its hand, or tries again. */
  lemma ProduceShape(s: State, p: nat, accepted: bool)
    requires p < |s.producers|
    ensures var x, s' := s.producers[p], DoProduce(s, p, accepted);
      && s'.popped == s.popped && s'.producers == s.producers[p := s'.producers[p]]
      && (if x.Looping? then
            s'.producerCount == s.producerCount + 1 && s'.queue == s.queue && s'.producers[p] == Pushing(x.i, s'.producerCount)
          else
            && s'.producerCount == s.producerCount
            && if accepted then s'.queue == s.queue + [x.value] && s'.producers[p] == Looping(x.i + 1)
               else s'.queue == s.queue && s'.producers[p] == x)
  {
  }

  lemma ProduceKeepsBalance(s: State, p: nat, accepted: bool, v: nat)
    requires Balanced(s, v) && p < |s.producers|
    ensures Balanced(DoProduce(s, p, accepted), v)
  {
    var s' := DoProduce(s, p, accepted);
    ProduceShape(s, p, accepted);
    ProducerUpdate(s.producers, p, s'.producers[p], v);
    if s.producers[p].Looping? {
      assert UpTo(s'.producerCount) == UpTo(s.producerCount) + [s'.producerCount];
    } else if accepted {
      assert multiset(s'.queue)[v] == multiset(s.queue)[v] + Holds(s.producers[p], v);
    }
  }

  lemma PopMoves(s: State, v: nat)
    requires s.queue != []
    ensures var t := Pop(s);
      multiset(t.popped)[v] + multiset(t.queue)[v] == multiset(s.popped)[v] + multiset(s.queue)[v]
  {
    var x, rest := s.queue[0], s.queue[1..];
    assert s.queue == [x] + rest;
    assert multiset(s.queue) == multiset([x]) + multiset(rest);
    assert multiset(s.popped + [x]) == multiset(s.popped) + multiset([x]);
  }

  /** A consumer leaves the producers alone, and either pops one value it then owes a count or leaves the queue alone. */
  lemma ConsumeShape(s: State, c: nat)
    requires c < |s.consumers|
    ensures var s' := DoConsume(s, c);
      && s'.producers == s.producers && s'.producerCount == s.producerCount
      && s'.consumers == s.consumers[c := s'.consumers[c]]
      && s'.consumerCount + Owes(s'.consumers[c]) + |s.popped| == s.consumerCount + Owes(s.consumers[c]) + |s'.popped|
      && ((s'.queue == s.queue && s'.popped == s.popped)
          || (s.queue != [] && s'.queue == Pop(s).queue && s'.popped == Pop(s).popped))
  {
  }

  lemma ConsumeKeepsBalance(s: State, c: nat, v: nat)
    requires Balanced(s, v) && c < |s.consumers|
    ensures Balanced(DoConsume(s, c), v)
  {
    ConsumeShape(s, c);
    if s.queue != [] {
      PopMoves(s, v);
    }
  }

  lemma KeepsBalance(u: Setup, s: State, a: Action, v: nat)
    requires Balanced(s, v) && Enabled(u, s, a)
    ensures Balanced(Do(u, s, a), v)
  {
    match a
    case Produce(p, accepted) => ProduceKeepsBalance(s, p, accepted, v);
    case Consume(c) => ConsumeKeepsBalance(s, c, v);
    case Main =>
  }

  lemma ProduceKeepsCounts(s: State, p: nat, accepted: bool)
    requires Counted(s) && p < |s.producers|
    ensures Counted(DoProduce(s, p, accepted))
  {
    var s' := DoProduce(s, p, accepted);
    ProducerUpdate(s.producers, p, s'.producers[p], 0);
    assert s'.producers == s.producers[p := s'.producers[p]];
  }

  lemma ConsumeKeepsCounts(s: State, c: nat)
    requires Counted(s) && c < |s.consumers|
    ensures Counted(DoConsume(s, c))
  {
    ConsumeShape(s, c);
    ConsumerUpdate(s.consumers, c, DoConsume(s, c).consumers[c]);
  }

  lemma KeepsCounts(u: Setup, s: State, a: Action)
    requires Counted(s) && Enabled(u, s, a)
    ensures Counted(Do(u, s, a))
  {
    match a
    case Produce(p, accepted) => ProduceKeepsCounts(s, p, accepted);
    case Consume(c) => ConsumeKeepsCounts(s, c);
    case Main =>
  }

  lemma KeepsOrder(u: Setup, s: State, a: Action)
    requires u.program == MAIN && Ordered(u, s) && Enabled(u, s, a)
    ensures Ordered(u, Do(u, s, a))
  {
    if a.Produce? {
      assert s.pc == 0;
    } else if a.Consume? && s.pc == 3 {
      assert false;
    }
  }

  lemma KeepsDrained(u: Setup, s: State, a: Action)
    requires u.program == MAIN && Ordered(u, s) && Drained(s) && Enabled(u, s, a)
    ensures Drained(Do(u, s, a))
  {
    if a.Produce? {
      assert !s.done;
    }
  }

  ghost predicate Invariant(u: Setup, s: State) {
    (forall v: nat :: Balanced(s, v)) && Counted(s) && Ordered(u, s) && Drained(s)
  }

  lemma KeepsInvariant(u: Setup, s: State, a: Action)
    requires u.program == MAIN && Invariant(u, s) && Enabled(u, s, a)
    ensures Invariant(u, Do(u, s, a))
  {
    forall v: nat ensures Balanced(Do(u, s, a), v) {
      KeepsBalance(u, s, a, v);
    }
    KeepsCounts(u, s, a);
    KeepsOrder(u, s, a);
    KeepsDrained(u, s, a);
  }

  lemma SameThreads(u: Setup, s: State, a: Action)
    requires Enabled(u, s, a)
    ensures |Do(u, s, a).producers| == |s.producers| && |Do(u, s, a).consumers| == |s.consumers|
  {
  }

  /** The invariants hold in every reachable state of the protocol. */
  lemma {:induction false} AlwaysInvariant(n: nat, producers: nat, consumers: nat, trace: seq<Action>)
    requires Execute(Setup(n, MAIN), producers, consumers, trace).Some?
    ensures var s := Execute(Setup(n, MAIN), producers, consumers, trace).value;
      Invariant(Setup(n, MAIN), s) && |s.producers| == producers && |s.consumers| == consumers
  {
    var u := Setup(n, MAIN);
    if trace == [] {
      InitialInvariant(n, producers, consumers);
    } else {
      var init, a := trace[..|trace| - 1], trace[|trace| - 1];
      AlwaysInvariant(n, producers, consumers, init);
      KeepsInvariant(u, Execute(u, producers, consumers, init).value, a);
      SameThreads(u, Execute(u, producers, consumers, init).value, a);
    }
  }

  lemma InitialInvariant(n: nat, producers: nat, consumers: nat)
    ensures Invariant(Setup(n, MAIN), Initial(producers, consumers))
  {
    var s := Initial(producers, consumers);
    forall v: nat ensures Balanced(s, v) {
      AllLooping(s.producers, 0, v);
    }
    AllLooping(s.producers, 0, 0);
    NoneCounting(s.consumers);
  }

  lemma {:induction false} AllLooping(producers: seq<Producer>, i: nat, v: nat)
    requires forall p | 0 <= p < |producers| :: producers[p] == Looping(i)
    ensures TotalDrawn(producers) == |producers| * i && Holding(producers, v) == 0
  {
    if producers != [] {
      AllLooping(producers[..|producers| - 1], i, v);
    }
  }

  lemma {:induction false} NoneCounting(consumers: seq<Consumer>)
    requires forall c | 0 <= c < |consumers| :: consumers[c].CheckDone? || consumers[c].Exited?
    ensures Uncounted(consumers) == 0
  {
    if consumers != [] {
      NoneCounting(consumers[..|consumers| - 1]);
    }
  }

  /**
   * When `main` has passed its last join: the values popped and those left are exactly 1..P*n, each once, the counters
   * agree with them, and the queue is empty as soon as there is a consumer at all.
   */
  lemma ShutdownIsComplete(n: nat, producers: nat, consumers: nat, trace: seq<Action>)
    requires Execute(Setup(n, MAIN), producers, consumers, trace).Some?
    requires Execute(Setup(n, MAIN), producers, consumers, trace).value.pc == |MAIN|
    ensures var s := Execute(Setup(n, MAIN), producers, consumers, trace).value;
      && multiset(s.popped + s.queue) == multiset(UpTo(producers * n))
      && s.producerCount == producers * n
      && s.consumerCount == |s.popped| == producers * n - |s.queue|
      && (s.queue == [] <==> consumers > 0 || producers * n == 0)
  {
    AlwaysInvariant(n, producers, consumers, trace);
    var s := Execute(Setup(n, MAIN), producers, consumers, trace).value;
    AllLooping(s.producers, n, 0);
    NoneCounting(s.consumers);
    forall v: nat ensures multiset(UpTo(producers * n))[v] == multiset(s.popped + s.queue)[v] {
      assert Balanced(s, v);
      AllLooping(s.producers, n, v);
    }
    assert multiset(s.popped + s.queue) == multiset(UpTo(producers * n));
    UpToLength(producers * n);
    assert |multiset(s.popped + s.queue)| == |s.popped + s.queue|;
    assert |multiset(UpTo(producers * n))| == |UpTo(producers * n)|;
    if consumers > 0 {
      assert s.consumers[0].Exited?;
    } else {
      NobodyPops(Setup(n, MAIN), producers, trace);
    }
  }

  lemma {:induction false} NobodyPops(u: Setup, producers: nat, trace: seq<Action>)
    requires Execute(u, producers, 0, trace).Some?
    ensures var s := Execute(u, producers, 0, trace).value; s.consumers == [] && s.popped == []
  {
    if trace != [] {
      NobodyPops(u, producers, trace[..|trace| - 1]);
    }
  }

  // Runs can be completed.

  lemma {:induction false} RunAppend(u: Setup, s: State, a: seq<Action>, b: seq<Action>)
    requires Run(u, s, a).Some?
    ensures Run(u, s, a + b) == Run(u, Run(u, s, a).value, b)
    decreases |b|
  {
    if b == [] {
      assert a + b == a;
    } else {
      RunAppend(u, s, a, b[..|b| - 1]);
      assert (a + b)[..|a + b| - 1] == a + b[..|b| - 1];
    }
  }

  lemma RunOne(u: Setup, s: State, a: Action)
    requires Enabled(u, s, a)
    ensures Run(u, s, [a]) == Some(Do(u, s, a))
  {
    assert [a][..0] == [];
  }

  lemma RunFirst(u: Setup, s: State, a: Action, rest: seq<Action>)
    requires Enabled(u, s, a)
    ensures Run(u, s, [a] + rest) == Run(u, Do(u, s, a), rest)
  {
    RunOne(u, s, a);
    RunAppend(u, s, [a], rest);
  }

  /** More than the steps a producer still makes, weighted so that pushing outweighs what the queue gains. */
  function Work(n: nat, p: Producer): nat {
    if p.i >= n then 0 else 4 * (n - p.i) - if p.Pushing? then 1 else 0
  }

  /** How far a consumer is from its exit once `done` is set; popping outweighs the way back. */
  function Distance(c: Consumer): nat {
    match c
    case Exited => 0
    case Draining => 1
    case CheckDone => 2
    case DrainCounting => 2
    case Polling => 3
    case Counting => 4
  }

  function TotalWork(n: nat, producers: seq<Producer>): nat {
    if producers == [] then 0 else TotalWork(n, producers[..|producers| - 1]) + Work(n, producers[|producers| - 1])
  }

  function TotalDistance(consumers: seq<Consumer>): nat {
    if consumers == [] then 0 else TotalDistance(consumers[..|consumers| - 1]) + Distance(consumers[|consumers| - 1])
  }

  lemma {:induction false} WorkUpdate(n: nat, producers: seq<Producer>, i: nat, x: Producer)
    requires i < |producers|
    ensures TotalWork(n, producers[i := x]) == TotalWork(n, producers) - Work(n, producers[i]) + Work(n, x)
  {
    var last := |producers| - 1;
    var updated := producers[i := x];
    if i == last {
      assert updated[..last] == producers[..last];
    } else {
      assert updated[..last] == producers[..last][i := x];
      WorkUpdate(n, producers[..last], i, x);
    }
  }

  lemma {:induction false} DistanceUpdate(consumers: seq<Consumer>, i: nat, x: Consumer)
    requires i < |consumers|
    ensures TotalDistance(consumers[i := x]) == TotalDistance(consumers) - Distance(consumers[i]) + Distance(x)
  {
    var last := |consumers| - 1;
    var updated := consumers[i := x];
    if i == last {
      assert updated[..last] == consumers[..last];
    } else {
      assert updated[..last] == consumers[..last][i := x];
      DistanceUpdate(consumers[..last], i, x);
    }
  }

  function Measure(u: Setup, s: State): int {
    TotalWork(u.iterations, s.producers) + 2 * |s.queue| + TotalDistance(s.consumers) + |u.program| - s.pc
  }

  /** A producer that has not finished makes progress if its push is accepted. */
  lemma ProducerAdvances(u: Setup, s: State, p: nat)
    requires p < |s.producers| && !Finished(u, s.producers[p]) && InRange(u, s.producers[p])
    ensures var s' := DoProduce(s, p, true);
      && TotalWork(u.iterations, s'.producers) + 2 * |s'.queue| < TotalWork(u.iterations, s.producers) + 2 * |s.queue|
      && TotalWork(u.iterations, s'.producers) < TotalWork(u.iterations, s.producers)
  {
    WorkUpdate(u.iterations, s.producers, p, DoProduce(s, p, true).producers[p]);
  }

  lemma ConsumerAdvances(s: State, c: nat)
    requires c < |s.consumers| && !s.consumers[c].Exited? && s.done
    ensures var s' := DoConsume(s, c);
      TotalDistance(s'.consumers) + 2 * |s'.queue| < TotalDistance(s.consumers) + 2 * |s.queue|
  {
    ConsumeShape(s, c);
    DistanceUpdate(s.consumers, c, DoConsume(s, c).consumers[c]);
  }

  /** In every state of `main` before its end some step brings the end nearer. */
  lemma Progress(u: Setup, s: State) returns (a: Action)
    requires u.program == MAIN && Ordered(u, s) && s.pc < |MAIN|
    ensures Enabled(u, s, a) && Measure(u, Do(u, s, a)) < Measure(u, s)
  {
    if p :| 0 <= p < |s.producers| && !Finished(u, s.producers[p]) {
      a := Produce(p, true);
      ProducerAdvances(u, s, p);
    } else if c :| s.pc == 2 && 0 <= c < |s.consumers| && !s.consumers[c].Exited? {
      a := Consume(c);
      ConsumerAdvances(s, c);
      ConsumeShape(s, c);
    } else {
      a := Main;
    }
  }

  lemma {:induction false} RunsToTheEnd(u: Setup, s: State) returns (more: seq<Action>)
    requires u.program == MAIN && Ordered(u, s)
    ensures Run(u, s, more).Some? && Run(u, s, more).value.pc == |MAIN|
    decreases Measure(u, s)
  {
    if s.pc == |MAIN| {
      more := [];
    } else {
      var a := Progress(u, s);
      KeepsOrder(u, s, a);
      var rest := RunsToTheEnd(u, Do(u, s, a));
      RunFirst(u, s, a, rest);
      more := [a] + rest;
    }
  }

  /** From every reachable state some continuation takes `main` past its last join: the protocol cannot get stuck. */
  lemma CanComplete(n: nat, producers: nat, consumers: nat, trace: seq<Action>) returns (more: seq<Action>)
    requires Execute(Setup(n, MAIN), producers, consumers, trace).Some?
    ensures Completes(Setup(n, MAIN), producers, consumers, trace + more)
  {
    AlwaysInvariant(n, producers, consumers, trace);
    var s := Execute(Setup(n, MAIN), producers, consumers, trace).value;
    more := RunsToTheEnd(Setup(n, MAIN), s);
    RunAppend(Setup(n, MAIN), Initial(producers, consumers), trace, more);
  }

  /** How far a consumer is from having emptied the queue, before or after `done` is set. */
  function ToDrain(c: Consumer): nat {
    match c
    case CheckDone => 2
    case Counting => 1
    case DrainCounting => 1
    case _ => 0
  }

  /** The queue is emptied in order, by consumer `c` alone; only that consumer and its count change besides. */
  ghost predicate DrainedBy(s: State, c: nat, s': State) {
    && s'.queue == [] && s'.popped == s.popped + s.queue
    && s'.producers == s.producers && s'.producerCount == s.producerCount && s'.done == s.done && s'.pc == s.pc
    && |s'.consumers| == |s.consumers|
    && forall d | 0 <= d < |s.consumers| && d != c :: s'.consumers[d] == s.consumers[d]
  }

  lemma ConsumerTurns(s: State, c: nat)
    requires c < |s.consumers| && !s.consumers[c].Exited? && s.queue != []
    ensures var s' := DoConsume(s, c);
      && s'.consumers == s.consumers[c := s'.consumers[c]] && !s'.consumers[c].Exited?
      && s'.popped + s'.queue == s.popped + s.queue
      && s'.producers == s.producers && s'.producerCount == s.producerCount && s'.done == s.done && s'.pc == s.pc
      && 3 * |s'.queue| + ToDrain(s'.consumers[c]) < 3 * |s.queue| + ToDrain(s.consumers[c])
  {
  }

  /** Consumers do not wait for `done`: at any time one that has not left can take everything queued, without help. */
  lemma {:induction false} AnyConsumerCanDrain(u: Setup, s: State, c: nat) returns (more: seq<Action>)
    requires c < |s.consumers| && !s.consumers[c].Exited?
    ensures forall i | 0 <= i < |more| :: more[i] == Consume(c)
    ensures Run(u, s, more).Some? && DrainedBy(s, c, Run(u, s, more).value)
    decreases 3 * |s.queue| + ToDrain(s.consumers[c])
  {
    if s.queue == [] {
      more := [];
      assert s.popped + [] == s.popped;
    } else {
      ConsumerTurns(s, c);
      var rest := AnyConsumerCanDrain(u, DoConsume(s, c), c);
      RunFirst(u, s, Consume(c), rest);
      more := [Consume(c)] + rest;
    }
  }

  // Other orders of the statements of `main`.

  /** Each of the three statements once. */
  predicate IsOrder(program: seq<Statement>) {
    |program| == 3 && forall x <- MAIN :: x in program
  }

  /** A run in which `main` comes to its end. */
  ghost predicate Completes(u: Setup, producers: nat, consumers: nat, trace: seq<Action>) {
    && Execute(u, producers, consumers, trace).Some?
    && Execute(u, producers, consumers, trace).value.pc == |u.program|
  }

  /** `main` can come to its end, and never leaves a value behind. */
  ghost predicate Correct(u: Setup, producers: nat, consumers: nat) {
    && (exists trace :: Completes(u, producers, consumers, trace))
    && forall trace | Completes(u, producers, consumers, trace) ::
      Execute(u, producers, consumers, trace).value.queue == []
  }

  /** When `done` is set while the queue is empty, all consumers can leave before anything else happens. */
  lemma {:induction false} ConsumersLeave(u: Setup, s: State) returns (more: seq<Action>)
    requires s.done && s.queue == [] && forall c | 0 <= c < |s.consumers| :: Leaving(s.consumers[c])
    ensures Run(u, s, more).Some?
    ensures var s' := Run(u, s, more).value;
      s' == s.(consumers := s'.consumers) && forall c | 0 <= c < |s'.consumers| :: s'.consumers[c].Exited?
    decreases TotalDistance(s.consumers)
  {
    if c :| 0 <= c < |s.consumers| && !s.consumers[c].Exited? {
      ConsumerAdvances(s, c);
      var rest := ConsumersLeave(u, DoConsume(s, c));
      RunFirst(u, s, Consume(c), rest);
      more := [Consume(c)] + rest;
    } else {
      more := [];
    }
  }

  predicate Leaving(c: Consumer) {
    c.CheckDone? || c.Draining? || c.Exited?
  }

  ghost predicate AllFinished(u: Setup, s: State) {
    forall p | 0 <= p < |s.producers| :: Finished(u, s.producers[p])
  }

  /** The producers can finish while nothing else happens; what they push stays in the queue. */
  lemma {:induction false} ProducersFinish(u: Setup, s: State) returns (more: seq<Action>)
    requires forall p | 0 <= p < |s.producers| :: InRange(u, s.producers[p])
    ensures Run(u, s, more).Some?
    ensures var s' := Run(u, s, more).value;
      && AllFinished(u, s')
      && s'.consumers == s.consumers && s'.pc == s.pc
      && |s.queue| <= |s'.queue| && (!AllFinished(u, s) ==> s'.queue != [])
    decreases TotalWork(u.iterations, s.producers)
  {
    if p :| 0 <= p < |s.producers| && !Finished(u, s.producers[p]) {
      var a, s1 := Produce(p, true), DoProduce(s, p, true);
      ProducerAdvances(u, s, p);
      assert s.producers[p].Looping? ==> !Finished(u, s1.producers[p]);
      var rest := ProducersFinish(u, s1);
      RunFirst(u, s, a, rest);
      more := [a] + rest;
    } else {
      more := [];
    }
  }

  /** With `done` set first, whatever joins follow, there is a run that leaves values behind. */
  lemma EagerMainLosesValues(u: Setup, producers: nat, consumers: nat) returns (trace: seq<Action>)
    requires u.iterations > 0 && producers > 0 && IsOrder(u.program) && u.program[0] == SetDone
    ensures Completes(u, producers, consumers, trace)
    ensures Execute(u, producers, consumers, trace).value.queue != []
  {
    var s0 := Initial(producers, consumers);
    var s1 := Do(u, s0, Main);
    var leave := ConsumersLeave(u, s1);
    var s2 := Run(u, s1, leave).value;
    assert !Finished(u, s2.producers[0]);
    var finish := ProducersFinish(u, s2);
    var s3 := Run(u, s2, finish).value;
    TwoMore(u, s3);
    RunOne(u, s0, Main);
    RunAppend(u, s0, [Main], leave);
    RunAppend(u, s0, [Main] + leave, finish);
    RunAppend(u, s0, [Main] + leave + finish, [Main, Main]);
    trace := [Main] + leave + finish + [Main, Main];
  }

  lemma TwoMore(u: Setup, s: State)
    requires Enabled(u, s, Main) && Enabled(u, Do(u, s, Main), Main)
    ensures Run(u, s, [Main, Main]) == Some(Do(u, Do(u, s, Main), Main))
  {
    RunOne(u, Do(u, s, Main), Main);
    RunFirst(u, s, Main, [Main]);
    assert [Main] + [Main] == [Main, Main];
  }

  /** While `done` is not set no consumer leaves, and `main` is not past the join at `j`. */
  ghost predicate Stuck(u: Setup, s: State, j: nat) {
    && s.pc <= j && !s.done && s.consumers != []
    && forall c | 0 <= c < |s.consumers| :: s.consumers[c].CheckDone? || s.consumers[c].Polling? || s.consumers[c].Counting?
  }

  /** `main` is to join the consumers at `j` before it sets `done`. */
  predicate JoinsEarly(u: Setup, j: nat) {
    j < |u.program| && u.program[j] == JoinConsumers && forall i | 0 <= i < j :: u.program[i] != SetDone
  }

  lemma StaysStuck(u: Setup, s: State, a: Action, j: nat)
    requires JoinsEarly(u, j) && Stuck(u, s, j) && Enabled(u, s, a)
    ensures Stuck(u, Do(u, s, a), j)
  {
    assert !s.consumers[0].Exited?;
  }

  /** If the consumers are joined before `done` is set, `main` never gets past that join. */
  lemma {:induction false} EarlyJoinIsStuck(u: Setup, producers: nat, consumers: nat, trace: seq<Action>, j: nat)
    requires Execute(u, producers, consumers, trace).Some?
    requires consumers > 0 && JoinsEarly(u, j)
    ensures Stuck(u, Execute(u, producers, consumers, trace).value, j)
  {
    if trace != [] {
      var init, a := trace[..|trace| - 1], trace[|trace| - 1];
      EarlyJoinIsStuck(u, producers, consumers, init, j);
      StaysStuck(u, Execute(u, producers, consumers, init).value, a, j);
    }
  }

  /** Of all orders of its three statements, the one `main` has is the only one that works. */
  lemma OnlyThisOrderWorks(n: nat, producers: nat, consumers: nat, program: seq<Statement>)
    requires n > 0 && producers > 0 && consumers > 0 && IsOrder(program)
    ensures Correct(Setup(n, program), producers, consumers) <==> program == MAIN
  {
    var u := Setup(n, program);
    if program == MAIN {
      var trace := CanComplete(n, producers, consumers, []);
      assert Completes(u, producers, consumers, [] + trace);
      forall trace | Completes(u, producers, consumers, trace)
        ensures Execute(u, producers, consumers, trace).value.queue == []
      {
        ShutdownIsComplete(n, producers, consumers, trace);
      }
    } else if program[0] == SetDone {
      var trace := EagerMainLosesValues(u, producers, consumers);
    } else {
      assert MAIN[0] in program && MAIN[1] in program && MAIN[2] in program;
      var j := if program[0] == JoinConsumers then 0 else 1;
      forall trace | Completes(u, producers, consumers, trace) ensures false {
        EarlyJoinIsStuck(u, producers, consumers, trace, j);
      }
    }
  }
}
