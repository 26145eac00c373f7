/**
 * The workers of test/b_thread.cpp on two queues of src/Connection.hpp, interleaved with each other and with any number
 * of other threads at every lock, unlock, wait and notify. Every such run is a run of the pipeline in which each queue
 * operation is a single step, so what holds there holds here.
 */
module LockedPipeline {
  import opened Wrappers
  import Q = ConcurrentQueue
  import P = WorkerPipeline

  /** Thread t of both queues is worker t; the threads beyond the workers push inputs and pop outputs. */
  datatype State<A, B> = State(input: Q.State<A>, output: Q.State<B>, workers: seq<P.Worker<A, B>>)

  datatype Action<A, B> = In(t: nat, inStep: Q.Action<A>) | Out(t: nat, outStep: Q.Action<B>) | Compute(t: nat)

  /** What a thread may call on the input queue. */
  predicate MayCallIn<A, B>(s: State<A, B>, t: nat, op: Q.Op<A>) {
    if t < |s.workers| then
      if s.workers[t].Ready? then op.Empty? else s.workers[t].SawInput? && op.WaitAndPop?
    else op.Push?
  }

  /** What a thread may call on the output queue. */
  predicate MayCallOut<A, B(==)>(s: State<A, B>, t: nat, op: Q.Op<B>) {
    if t < |s.workers| then s.workers[t].Computed? && op == Q.Push(s.workers[t].output)
    else op.WaitAndPop? || op.TryPop?
  }

  predicate Enabled<A, B(==)>(s: State<A, B>, a: Action<A, B>) {
    match a
    case In(t, i) => Q.Enabled(s.input, t, i) && (i.Call? ==> MayCallIn(s, t, i.op))
    case Out(t, o) => Q.Enabled(s.output, t, o) && (o.Call? ==> MayCallOut(s, t, o.op))
    case Compute(t) => t < |s.workers| && s.workers[t].Took?
  }

  /** Where a worker is when a call on the input queue has come from `before` to `after`. */
  function AfterIn<A, B>(w: P.Worker<A, B>, before: Q.Place<A>, after: Q.Place<A>): P.Worker<A, B> {
    if !after.Idle? then w
    else
      match before
      case EmptyLeave(_, answer) => if answer then P.Ready else P.SawInput
      case Leave(_, Some(v)) => P.Took(v)
      case _ => w
  }

  function AfterOut<A, B>(w: P.Worker<A, B>, before: Q.Place<B>, after: Q.Place<B>): P.Worker<A, B> {
    if before.PushNotify? && after.Idle? then P.Ready else w
  }

  function Do<A, B>(f: A -> B, s: State<A, B>, a: Action<A, B>): State<A, B>
    requires Enabled(s, a)
  {
    match a
    case In(t, i) =>
      var input := Q.Do(s.input, t, i);
      if t < |s.workers| then
        s.(input := input, workers := s.workers[t := AfterIn(s.workers[t], s.input.threads[t], input.threads[t])])
      else s.(input := input)
    case Out(t, o) =>
      var output := Q.Do(s.output, t, o);
      if t < |s.workers| then
        s.(output := output, workers := s.workers[t := AfterOut(s.workers[t], s.output.threads[t], output.threads[t])])
      else s.(output := output)
    case Compute(t) => s.(workers := s.workers[t := P.Computed(f(s.workers[t].input))])
  }

  function Initial<A, B>(workers: nat, others: nat): State<A, B> {
    State(Q.Initial(workers + others), Q.Initial(workers + others), seq(workers, _ => P.Ready))
  }

  /** Where a trace leads from `s`, if every action is enabled in its turn. */
  function Run<A, B(==)>(f: A -> B, s: State<A, B>, trace: seq<Action<A, B>>): Option<State<A, B>> {
    if trace == [] then Some(s)
    else
      var before := Run(f, s, trace[..|trace| - 1]);
      var a := trace[|trace| - 1];
      if before.Some? && Enabled(before.value, a) then Some(Do(f, before.value, a)) else None
  }

  function Execute<A, B(==)>(f: A -> B, workers: nat, others: nat, trace: seq<Action<A, B>>): Option<State<A, B>> {
    Run(f, Initial(workers, others), trace)
  }

  // Where the threads can be.

  /** A worker in a call on the input queue is where `process_one` says. */
  predicate WorkerIn<A, B>(w: P.Worker<A, B>, p: Q.Place<A>) {
    match w
    case Ready => p.Idle? || ((p.EmptyEnter? || p.EmptyCheck? || p.EmptyLeave?) && !p.clearing)
    case SawInput =>
      || p.Idle? || p.WaitEnter? || p.WaitCheck? || p.Asleep? || p.WaitReturn? || p.WaitPop?
      || (p.Leave? && !p.clearing && p.taken.Some?)
    case _ => p.Idle?
  }

  ghost predicate WorkerOut<A, B>(w: P.Worker<A, B>, p: Q.Place<B>) {
    p.Idle? || (w.Computed? && (p.PushDone? || p.PushNotify? || p == Q.PushEnter(w.output) || p == Q.PushLocked(w.output)))
  }

  /** The other threads only push into the input queue and only pop from the output queue. */
  predicate OtherIn<A>(p: Q.Place<A>) {
    p.Idle? || p.PushEnter? || p.PushLocked? || p.PushDone? || p.PushNotify?
  }

  predicate OtherOut<B>(p: Q.Place<B>) {
    || p.Idle? || p.WaitEnter? || p.WaitCheck? || p.Asleep? || p.WaitReturn? || p.WaitPop?
    || ((p.TryEnter? || p.TryCheck? || p.TryFront? || p.Leave?) && !p.clearing)
  }

  ghost predicate InPlaces<A, B>(s: State<A, B>) {
    && |s.workers| <= |s.input.threads|
    && forall t | 0 <= t < |s.input.threads| ::
      if t < |s.workers| then WorkerIn(s.workers[t], s.input.threads[t]) else OtherIn(s.input.threads[t])
  }

  ghost predicate OutPlaces<A, B>(s: State<A, B>) {
    && |s.workers| <= |s.output.threads|
    && forall t | 0 <= t < |s.output.threads| ::
      if t < |s.workers| then WorkerOut(s.workers[t], s.output.threads[t]) else OtherOut(s.output.threads[t])
  }

  ghost predicate Sound<T>(q: Q.State<T>) {
    Q.MutualExclusion(q) && Q.TestsHold(q)
  }

  ghost predicate Invariant<A, B>(s: State<A, B>) {
    Sound(s.input) && Sound(s.output) && InPlaces(s) && OutPlaces(s)
  }

  /** A step of a queue moves its own thread, and may wake one sleeper. */
  lemma QueueMoves<T>(q: Q.State<T>, t: nat, a: Q.Action<T>, u: nat)
    requires Q.Enabled(q, t, a) && u < |q.threads| && u != t
    ensures var q' := Q.Do(q, t, a);
      && |q'.threads| == |q.threads|
      && (q'.threads[u] == q.threads[u] || (q.threads[u].Asleep? && q'.threads[u].WaitReturn?))
  {
  }

  lemma QueueStaysSound<T>(q: Q.State<T>, t: nat, a: Q.Action<T>)
    requires Sound(q) && Q.Enabled(q, t, a)
    ensures Sound(Q.Do(q, t, a))
  {
    Q.KeepsExclusion(q, t, a);
    Q.KeepsTests(q, t, a);
  }

  lemma InMoves<A, B>(f: A -> B, s: State<A, B>, t: nat, i: Q.Action<A>)
    requires Invariant(s) && Enabled(s, In(t, i))
    ensures var s' := Do(f, s, In(t, i));
      if t < |s.workers| then
        && WorkerIn(s'.workers[t], s'.input.threads[t])
        && (s'.workers[t] == s.workers[t] || s.output.threads[t].Idle?)
      else OtherIn(s'.input.threads[t])
  {
    assert Q.Truthful(s.input, s.input.threads[t]);
    assert t < |s.workers| ==> WorkerOut(s.workers[t], s.output.threads[t]);
  }

  lemma OutMoves<A, B>(f: A -> B, s: State<A, B>, t: nat, o: Q.Action<B>)
    requires Invariant(s) && Enabled(s, Out(t, o))
    ensures var s' := Do(f, s, Out(t, o));
      if t < |s.workers| then
        && WorkerOut(s'.workers[t], s'.output.threads[t])
        && (s'.workers[t] == s.workers[t] || s.input.threads[t].Idle?)
      else OtherOut(s'.output.threads[t])
  {
    assert t < |s.workers| ==> WorkerIn(s.workers[t], s.input.threads[t]);
  }

  lemma InKeepsPlaces<A, B>(f: A -> B, s: State<A, B>, t: nat, i: Q.Action<A>)
    requires Invariant(s) && Enabled(s, In(t, i))
    ensures InPlaces(Do(f, s, In(t, i))) && OutPlaces(Do(f, s, In(t, i)))
  {
    var s' := Do(f, s, In(t, i));
    InMoves(f, s, t, i);
    forall u | 0 <= u < |s'.input.threads| && u != t
      ensures if u < |s'.workers| then WorkerIn(s'.workers[u], s'.input.threads[u]) else OtherIn(s'.input.threads[u])
    {
      QueueMoves(s.input, t, i, u);
    }
  }

  lemma OutKeepsPlaces<A, B>(f: A -> B, s: State<A, B>, t: nat, o: Q.Action<B>)
    requires Invariant(s) && Enabled(s, Out(t, o))
    ensures InPlaces(Do(f, s, Out(t, o))) && OutPlaces(Do(f, s, Out(t, o)))
  {
    var s' := Do(f, s, Out(t, o));
    OutMoves(f, s, t, o);
    forall u | 0 <= u < |s'.output.threads| && u != t
      ensures if u < |s'.workers| then WorkerOut(s'.workers[u], s'.output.threads[u]) else OtherOut(s'.output.threads[u])
    {
      QueueMoves(s.output, t, o, u);
    }
  }

  lemma KeepsInvariant<A, B>(f: A -> B, s: State<A, B>, a: Action<A, B>)
    requires Invariant(s) && Enabled(s, a)
    ensures Invariant(Do(f, s, a))
  {
    match a
    case In(t, i) =>
      QueueStaysSound(s.input, t, i);
      InKeepsPlaces(f, s, t, i);
    case Out(t, o) =>
      QueueStaysSound(s.output, t, o);
      OutKeepsPlaces(f, s, t, o);
    case Compute(t) =>
      assert WorkerIn(s.workers[t], s.input.threads[t]);
      assert WorkerOut(s.workers[t], s.output.threads[t]);
  }

  // The pipeline of single steps.

  /** An operation takes effect when its thread looks at or changes the queue under the lock, before the call returns. */
  function View<A, B>(w: P.Worker<A, B>, input: Q.Place<A>, output: Q.Place<B>): P.Worker<A, B> {
    match w
    case Ready => if input.EmptyLeave? && !input.answer then P.SawInput else w
    case SawInput => if input.Leave? && input.taken.Some? then P.Took(input.taken.value) else w
    case Took(_) => w
    case Computed(_) => if output.PushDone? || output.PushNotify? then P.Ready else w
  }

  function Abstract<A, B>(s: State<A, B>): P.State<A, B>
    requires |s.workers| <= |s.input.threads| && |s.workers| <= |s.output.threads|
  {
    P.State(s.input.queue, s.output.queue,
            seq(|s.workers|, t requires 0 <= t < |s.workers| => View(s.workers[t], s.input.threads[t], s.output.threads[t])),
            s.input.pushed, s.output.pushed)
  }

  /** The single step, if any, that a step of the threads stands for. */
  function Effect<A, B>(s: State<A, B>, a: Action<A, B>): Option<P.Action<A>>
    requires Enabled(s, a)
  {
    match a
    case In(t, i) =>
      var p := s.input.threads[t];
      if !i.Run? then None
      else if p.EmptyCheck? || p.WaitPop? then Some(P.Step(t))
      else if p.PushLocked? then Some(P.Supply(p.value))
      else None
    case Out(t, o) =>
      var p := s.output.threads[t];
      if !o.Run? then None
      else if p.PushLocked? then Some(P.Step(t))
      else if p.WaitPop? || p.TryFront? then Some(P.Collect)
      else None
    case Compute(t) => Some(P.Step(t))
  }

  ghost predicate Simulated<A, B>(f: A -> B, s: P.State<A, B>, effect: Option<P.Action<A>>, s': P.State<A, B>) {
    match effect
    case None => s' == s
    case Some(b) => P.Enabled(s, b) && s' == P.Do(f, s, b)
  }

  /** Waking up changes nothing that is seen of a worker. */
  lemma ViewUnmoved<A, B>(w: P.Worker<A, B>, input: Q.Place<A>, output: Q.Place<B>, input': Q.Place<A>, output': Q.Place<B>)
    requires input' == input || (input.Asleep? && input'.WaitReturn?)
    requires output' == output || (output.Asleep? && output'.WaitReturn?)
    ensures View(w, input', output') == View(w, input, output)
  {
  }

  lemma ViewOfOther<A, B>(f: A -> B, s: State<A, B>, a: Action<A, B>, u: nat)
    requires Invariant(s) && Enabled(s, a) && u < |s.workers| && u != a.t
    ensures Invariant(Do(f, s, a))
    ensures Abstract(Do(f, s, a)).workers[u] == Abstract(s).workers[u]
  {
    KeepsInvariant(f, s, a);
    match a
    case In(t, i) =>
      QueueMoves(s.input, t, i, u);
      ViewUnmoved(s.workers[u], s.input.threads[u], s.output.threads[u], Q.Do(s.input, t, i).threads[u], s.output.threads[u]);
    case Out(t, o) =>
      QueueMoves(s.output, t, o, u);
      ViewUnmoved(s.workers[u], s.input.threads[u], s.output.threads[u], s.input.threads[u], Q.Do(s.output, t, o).threads[u]);
    case Compute(_) =>
  }

  /** Only the worker that moves is seen to move. */
  lemma ViewOfWorkers<A, B>(f: A -> B, s: State<A, B>, a: Action<A, B>)
    requires Invariant(s) && Enabled(s, a)
    ensures Invariant(Do(f, s, a))
    ensures var v, v' := Abstract(s).workers, Abstract(Do(f, s, a)).workers;
      |v'| == |v| && v' == if a.t < |v| then v[a.t := v'[a.t]] else v
  {
    KeepsInvariant(f, s, a);
    var v, v' := Abstract(s).workers, Abstract(Do(f, s, a)).workers;
    forall u | 0 <= u < |v| && u != a.t ensures v'[u] == v[u] {
      ViewOfOther(f, s, a, u);
    }
  }

  lemma InSimulates<A, B>(f: A -> B, s: State<A, B>, t: nat, i: Q.Action<A>)
    requires Invariant(s) && Enabled(s, In(t, i))
    ensures Invariant(Do(f, s, In(t, i)))
    ensures Simulated(f, Abstract(s), Effect(s, In(t, i)), Abstract(Do(f, s, In(t, i))))
  {
    ViewOfWorkers(f, s, In(t, i));
    assert Q.Truthful(s.input, s.input.threads[t]);
    Q.OnlyTheHolderChanges(s.input, t, i);
    if t < |s.workers| {
      assert WorkerIn(s.workers[t], s.input.threads[t]) && WorkerOut(s.workers[t], s.output.threads[t]);
    } else {
      assert OtherIn(s.input.threads[t]);
    }
  }

  lemma OutSimulates<A, B>(f: A -> B, s: State<A, B>, t: nat, o: Q.Action<B>)
    requires Invariant(s) && Enabled(s, Out(t, o))
    ensures Invariant(Do(f, s, Out(t, o)))
    ensures Simulated(f, Abstract(s), Effect(s, Out(t, o)), Abstract(Do(f, s, Out(t, o))))
  {
    ViewOfWorkers(f, s, Out(t, o));
    assert Q.Truthful(s.output, s.output.threads[t]);
    Q.OnlyTheHolderChanges(s.output, t, o);
    if t < |s.workers| {
      assert WorkerIn(s.workers[t], s.input.threads[t]) && WorkerOut(s.workers[t], s.output.threads[t]);
    } else {
      assert OtherOut(s.output.threads[t]);
    }
  }

  /** Each step of the threads is one step of the pipeline or none. */
  lemma StepSimulates<A, B>(f: A -> B, s: State<A, B>, a: Action<A, B>)
    requires Invariant(s) && Enabled(s, a)
    ensures Invariant(Do(f, s, a))
    ensures Simulated(f, Abstract(s), Effect(s, a), Abstract(Do(f, s, a)))
  {
    match a
    case In(t, i) => InSimulates(f, s, t, i);
    case Out(t, o) => OutSimulates(f, s, t, o);
    case Compute(t) => ViewOfWorkers(f, s, a);
  }

  /** Every run of the threads is a run of the pipeline, with the same inputs supplied and the same outputs produced. */
  lemma {:induction false} Refines<A, B>(f: A -> B, workers: nat, others: nat, trace: seq<Action<A, B>>)
    returns (steps: seq<P.Action<A>>)
    requires Execute(f, workers, others, trace).Some?
    ensures var s := Execute(f, workers, others, trace).value;
      && Invariant(s) && |s.workers| == workers
      && P.Execute(f, workers, steps) == Some(Abstract(s))
  {
    if trace == [] {
      steps := [];
      assert Abstract(Initial<A, B>(workers, others)).workers == P.Initial<A, B>(workers).workers;
    } else {
      var before := Refines(f, workers, others, trace[..|trace| - 1]);
      var s, a := Execute(f, workers, others, trace[..|trace| - 1]).value, trace[|trace| - 1];
      StepSimulates(f, s, a);
      match Effect(s, a)
      case None => steps := before;
      case Some(b) =>
        P.RunStep(f, P.Initial(workers), before, Abstract(s), b, P.Do(f, Abstract(s), b));
        steps := before + [b];
    }
  }

  /** When every call has returned and the input queue is empty, the outputs are the mapped inputs, each once. */
  lemma AllProcessed<A, B(!new)>(f: A -> B, workers: nat, others: nat, trace: seq<Action<A, B>>)
    requires Execute(f, workers, others, trace).Some?
    requires var s := Execute(f, workers, others, trace).value;
      && s.input.queue == []
      && (forall t | 0 <= t < |s.input.threads| :: s.input.threads[t].Idle?)
      && forall t | 0 <= t < |s.workers| :: s.workers[t].Ready?
    ensures var s := Execute(f, workers, others, trace).value;
      multiset(s.output.pushed) == multiset(P.Map(f, s.input.pushed))
  {
    var steps := Refines(f, workers, others, trace);
    P.AllProcessed(f, workers, steps);
  }

  /** A single worker keeps the order, and the condition variable of the input queue is never waited for. */
  lemma {:induction false} SingleWorkerNeverSleeps<A, B>(f: A -> B, others: nat, trace: seq<Action<A, B>>)
    requires Execute(f, 1, others, trace).Some?
    ensures var s := Execute(f, 1, others, trace).value;
      && s.output.pushed <= P.Map(f, s.input.pushed)
      && forall t | 0 <= t < |s.input.threads| :: !s.input.threads[t].Asleep?
  {
    var steps := Refines(f, 1, others, trace);
    P.SingleWorker(f, steps);
    if trace != [] {
      var before := trace[..|trace| - 1];
      SingleWorkerNeverSleeps(f, others, before);
      var s, a := Execute(f, 1, others, before).value, trace[|trace| - 1];
      var earlier := Refines(f, 1, others, before);
      P.SingleWorker(f, earlier);
      NotAsleepAfter(f, s, a);
    }
  }

  lemma NotAsleepAfter<A, B>(f: A -> B, s: State<A, B>, a: Action<A, B>)
    requires Invariant(s) && Enabled(s, a) && P.InOrder(f, Abstract(s))
    requires forall t | 0 <= t < |s.input.threads| :: !s.input.threads[t].Asleep?
    ensures var s' := Do(f, s, a); forall t | 0 <= t < |s'.input.threads| :: !s'.input.threads[t].Asleep?
  {
    if a.In? {
      assert if a.t < |s.workers| then WorkerIn(s.workers[a.t], s.input.threads[a.t]) else OtherIn(s.input.threads[a.t]);
      forall u | 0 <= u < |s.input.threads| && u != a.t ensures !Do(f, s, a).input.threads[u].Asleep? {
        QueueMoves(s.input, a.t, a.inStep, u);
      }
    }
  }

  // Every run of the pipeline can be made by the threads.

  lemma {:induction false} RunAppend<A, B>(f: A -> B, s: State<A, B>, a: seq<Action<A, B>>, b: seq<Action<A, B>>)
    requires Run(f, s, a).Some?
    ensures Run(f, s, a + b) == Run(f, Run(f, s, a).value, b)
    decreases |b|
  {
    if b == [] {
      assert a + b == a;
    } else {
      RunAppend(f, s, a, b[..|b| - 1]);
      assert (a + b)[..|a + b| - 1] == a + b[..|b| - 1];
    }
  }

  lemma RunThen<A, B>(f: A -> B, s: State<A, B>, trace: seq<Action<A, B>>, a: Action<A, B>)
    requires Run(f, s, trace).Some? && Enabled(Run(f, s, trace).value, a)
    ensures Run(f, s, trace + [a]) == Some(Do(f, Run(f, s, trace).value, a))
  {
    assert (trace + [a])[..|trace|] == trace;
  }

  lemma RunStep<A, B>(f: A -> B, s0: State<A, B>, trace: seq<Action<A, B>>, s: State<A, B>, a: Action<A, B>, s': State<A, B>)
    requires Run(f, s0, trace) == Some(s) && Enabled(s, a) && Do(f, s, a) == s'
    ensures Run(f, s0, trace + [a]) == Some(s')
  {
    assert (trace + [a])[..|trace|] == trace;
  }

  /** Nobody is in a call. */
  ghost predicate Quiet<A, B>(s: State<A, B>) {
    && Invariant(s) && s.input.owner.None? && s.output.owner.None?
    && (forall t | 0 <= t < |s.input.threads| :: s.input.threads[t].Idle?)
    && (forall t | 0 <= t < |s.output.threads| :: s.output.threads[t].Idle?)
  }

  function InSteps<A, B>(t: nat, op: Q.Op<A>, n: nat): seq<Action<A, B>> {
    if n == 0 then [In(t, Q.Call(op))] else InSteps(t, op, n - 1) + [In(t, Q.Action<A>.Run)]
  }

  function OutSteps<A, B>(t: nat, op: Q.Op<B>, n: nat): seq<Action<A, B>> {
    if n == 0 then [Out(t, Q.Call(op))] else OutSteps(t, op, n - 1) + [Out(t, Q.Action<B>.Run)]
  }

  /** A step that does not end a call leaves the workers where they are. */
  lemma InUnfinished<A, B>(f: A -> B, s: State<A, B>, t: nat, i: Q.Action<A>)
    requires Enabled(s, In(t, i)) && !Q.Do(s.input, t, i).threads[t].Idle?
    ensures Do(f, s, In(t, i)) == s.(input := Q.Do(s.input, t, i))
  {
  }

  lemma OutUnfinished<A, B>(f: A -> B, s: State<A, B>, t: nat, o: Q.Action<B>)
    requires Enabled(s, Out(t, o)) && !Q.Do(s.output, t, o).threads[t].Idle?
    ensures Do(f, s, Out(t, o)) == s.(output := Q.Do(s.output, t, o))
  {
  }

  lemma {:induction false} InBegun<A, B>(f: A -> B, s: State<A, B>, t: nat, op: Q.Op<A>, n: nat)
    requires MayCallIn(s, t, op) && Q.Begun(s.input, t, op, n).Some?
    ensures Run(f, s, InSteps(t, op, n)) == Some(s.(input := Q.Begun(s.input, t, op, n).value))
  {
    if n == 0 {
      assert InSteps<A, B>(t, op, 0)[..0] == [];
      InUnfinished(f, s, t, Q.Call(op));
    } else {
      InBegun(f, s, t, op, n - 1);
      var before := s.(input := Q.Begun(s.input, t, op, n - 1).value);
      InUnfinished(f, before, t, Q.Action<A>.Run);
      RunThen(f, s, InSteps(t, op, n - 1), In(t, Q.Action<A>.Run));
    }
  }

  lemma {:induction false} OutBegun<A, B>(f: A -> B, s: State<A, B>, t: nat, op: Q.Op<B>, n: nat)
    requires MayCallOut(s, t, op) && Q.Begun(s.output, t, op, n).Some?
    ensures Run(f, s, OutSteps(t, op, n)) == Some(s.(output := Q.Begun(s.output, t, op, n).value))
  {
    if n == 0 {
      assert OutSteps<A, B>(t, op, 0)[..0] == [];
      OutUnfinished(f, s, t, Q.Call(op));
    } else {
      OutBegun(f, s, t, op, n - 1);
      var before := s.(output := Q.Begun(s.output, t, op, n - 1).value);
      OutUnfinished(f, before, t, Q.Action<B>.Run);
      RunThen(f, s, OutSteps(t, op, n - 1), Out(t, Q.Action<B>.Run));
    }
  }

  /** From a quiet state the threads have come to a quiet state that shows the step `b` of the pipeline done. */
  ghost predicate Realises<A, B>(f: A -> B, s: State<A, B>, b: P.Action<A>, trace: seq<Action<A, B>>) {
    && Invariant(s) && P.Enabled(Abstract(s), b)
    && Run(f, s, trace).Some?
    && Quiet(Run(f, s, trace).value)
    && Abstract(Run(f, s, trace).value) == P.Do(f, Abstract(s), b)
  }

  /** In a quiet state nothing is hidden in a call. */
  lemma QuietView<A, B>(s: State<A, B>)
    requires Quiet(s)
    ensures Abstract(s) == P.State(s.input.queue, s.output.queue, s.workers, s.input.pushed, s.output.pushed)
  {
    assert Abstract(s).workers == s.workers;
  }

  lemma StaysQuiet<A, B>(s: State<A, B>, s': State<A, B>)
    requires Quiet(s) && s'.input.threads == s.input.threads && s'.output.threads == s.output.threads
    requires s'.input.owner.None? && s'.output.owner.None? && |s'.workers| == |s.workers|
    ensures Quiet(s')
    ensures Abstract(s') == P.State(s'.input.queue, s'.output.queue, s'.workers, s'.input.pushed, s'.output.pushed)
  {
    QuietView(s');
  }

  lemma Realised<A, B>(f: A -> B, s: State<A, B>, b: P.Action<A>, trace: seq<Action<A, B>>, s': State<A, B>)
    requires Quiet(s) && Run(f, s, trace) == Some(s')
    requires s'.input.threads == s.input.threads && s'.output.threads == s.output.threads
    requires s'.input.owner.None? && s'.output.owner.None? && |s'.workers| == |s.workers|
    requires var p := P.State(s.input.queue, s.output.queue, s.workers, s.input.pushed, s.output.pushed);
      P.Enabled(p, b) &&
      P.Do(f, p, b) == P.State(s'.input.queue, s'.output.queue, s'.workers, s'.input.pushed, s'.output.pushed)
    ensures Realises(f, s, b, trace)
  {
    QuietView(s);
    StaysQuiet(s, s');
  }

  lemma InFinal<A, B>(f: A -> B, s: State<A, B>, t: nat, i: Q.Action<A>)
    requires Enabled(s, In(t, i)) && |Q.Do(s.input, t, i).threads| == |s.input.threads| && Q.Do(s.input, t, i).threads[t].Idle?
    ensures Do(f, s, In(t, i)) == s.(input := Q.Do(s.input, t, i), workers :=
      if t < |s.workers| then s.workers[t := AfterIn(s.workers[t], s.input.threads[t], Q.Idle)] else s.workers)
  {
  }

  lemma OutFinal<A, B>(f: A -> B, s: State<A, B>, t: nat, o: Q.Action<B>)
    requires Enabled(s, Out(t, o)) && |Q.Do(s.output, t, o).threads| == |s.output.threads| && Q.Do(s.output, t, o).threads[t].Idle?
    ensures Do(f, s, Out(t, o)) == s.(output := Q.Do(s.output, t, o), workers :=
      if t < |s.workers| then s.workers[t := AfterOut(s.workers[t], s.output.threads[t], Q.Idle)] else s.workers)
  {
  }

  /** The step that ends a call leaves nothing of it but what the worker has learnt. */
  lemma InEnds<A, B>(f: A -> B, s: State<A, B>, t: nat, op: Q.Op<A>, n: nat, q: Q.State<A>, i: Q.Action<A>)
    returns (trace: seq<Action<A, B>>)
    requires t < |s.input.threads| && s.input.threads[t].Idle? && MayCallIn(s, t, op) && !i.Call?
    requires Q.Begun(s.input, t, op, n) == Some(q) && |q.threads| == |s.input.threads|
    requires Q.Enabled(q, t, i) && Q.Do(q, t, i).threads == s.input.threads
    ensures Run(f, s, trace) == Some(s.(input := Q.Do(q, t, i), workers :=
      if t < |s.workers| then s.workers[t := AfterIn(s.workers[t], q.threads[t], Q.Idle)] else s.workers))
  {
    InBegun(f, s, t, op, n);
    var s1 := s.(input := q);
    InFinal(f, s1, t, i);
    RunStep(f, s, InSteps(t, op, n), s1, In(t, i), Do(f, s1, In(t, i)));
    trace := InSteps(t, op, n) + [In(t, i)];
  }

  lemma OutEnds<A, B>(f: A -> B, s: State<A, B>, t: nat, op: Q.Op<B>, n: nat, q: Q.State<B>, o: Q.Action<B>)
    returns (trace: seq<Action<A, B>>)
    requires t < |s.output.threads| && s.output.threads[t].Idle? && MayCallOut(s, t, op) && !o.Call?
    requires Q.Begun(s.output, t, op, n) == Some(q) && |q.threads| == |s.output.threads|
    requires Q.Enabled(q, t, o) && Q.Do(q, t, o).threads == s.output.threads
    ensures Run(f, s, trace) == Some(s.(output := Q.Do(q, t, o), workers :=
      if t < |s.workers| then s.workers[t := AfterOut(s.workers[t], q.threads[t], Q.Idle)] else s.workers))
  {
    OutBegun(f, s, t, op, n);
    var s1 := s.(output := q);
    OutFinal(f, s1, t, o);
    RunStep(f, s, OutSteps(t, op, n), s1, Out(t, o), Do(f, s1, Out(t, o)));
    trace := OutSteps(t, op, n) + [Out(t, o)];
  }

  lemma SupplyRealised<A, B>(f: A -> B, s: State<A, B>, t: nat, v: A) returns (trace: seq<Action<A, B>>)
    requires Quiet(s) && |s.workers| <= t < |s.input.threads|
    ensures Realises(f, s, P.Supply(v), trace)
  {
    Q.PushAlone(s.input, t, v);
    Q.SetTwice(s.input.threads, t);
    assert s.input.threads[t := Q.Idle] == s.input.threads;
    trace := InEnds(f, s, t, Q.Push(v), 3, Q.Begun(s.input, t, Q.Push(v), 3).value, Q.Notify(None));
    Realised(f, s, P.Supply(v), trace, Run(f, s, trace).value);
  }

  lemma CollectRealised<A, B>(f: A -> B, s: State<A, B>, t: nat) returns (trace: seq<Action<A, B>>)
    requires Quiet(s) && |s.workers| <= t < |s.output.threads| && s.output.queue != []
    ensures Realises(f, s, P.Collect, trace)
  {
    Q.TryAlone(s.output, t);
    Q.SetTwice(s.output.threads, t);
    assert s.output.threads[t := Q.Idle] == s.output.threads;
    trace := OutEnds(f, s, t, Q.TryPop, 3, Q.Begun(s.output, t, Q.TryPop, 3).value, Q.Action<B>.Run);
    Realised(f, s, P.Collect, trace, Run(f, s, trace).value);
  }

  lemma TestRealised<A, B>(f: A -> B, s: State<A, B>, w: nat) returns (trace: seq<Action<A, B>>)
    requires Quiet(s) && w < |s.workers| && s.workers[w].Ready?
    ensures Realises(f, s, P.Step(w), trace)
  {
    Q.EmptyAlone(s.input, w);
    Q.SetTwice(s.input.threads, w);
    assert s.input.threads[w := Q.Idle] == s.input.threads;
    trace := InEnds(f, s, w, Q.Empty, 2, Q.Begun(s.input, w, Q.Empty, 2).value, Q.Action<A>.Run);
    Realised(f, s, P.Step(w), trace, Run(f, s, trace).value);
  }

  lemma TakeRealised<A, B>(f: A -> B, s: State<A, B>, w: nat) returns (trace: seq<Action<A, B>>)
    requires Quiet(s) && w < |s.workers| && s.workers[w].SawInput? && s.input.queue != []
    ensures Realises(f, s, P.Step(w), trace)
  {
    Q.WaitAlone(s.input, w);
    Q.SetTwice(s.input.threads, w);
    assert s.input.threads[w := Q.Idle] == s.input.threads;
    trace := InEnds(f, s, w, Q.WaitAndPop, 3, Q.Begun(s.input, w, Q.WaitAndPop, 3).value, Q.Action<A>.Run);
    Realised(f, s, P.Step(w), trace, Run(f, s, trace).value);
  }

  lemma PutRealised<A, B>(f: A -> B, s: State<A, B>, w: nat) returns (trace: seq<Action<A, B>>)
    requires Quiet(s) && w < |s.workers| && s.workers[w].Computed?
    ensures Realises(f, s, P.Step(w), trace)
  {
    var y := s.workers[w].output;
    Q.PushAlone(s.output, w, y);
    Q.SetTwice(s.output.threads, w);
    assert s.output.threads[w := Q.Idle] == s.output.threads;
    trace := OutEnds(f, s, w, Q.Push(y), 3, Q.Begun(s.output, w, Q.Push(y), 3).value, Q.Notify(None));
    Realised(f, s, P.Step(w), trace, Run(f, s, trace).value);
  }

  lemma ComputeRealised<A, B>(f: A -> B, s: State<A, B>, w: nat) returns (trace: seq<Action<A, B>>)
    requires Quiet(s) && w < |s.workers| && s.workers[w].Took?
    ensures Realises(f, s, P.Step(w), trace)
  {
    RunThen(f, s, [], Compute(w));
    trace := [] + [Compute(w)];
    Realised(f, s, P.Step(w), trace, Run(f, s, trace).value);
  }

  /** Each step of the pipeline can be made by calls of the threads, one after the other. */
  lemma StepRealised<A, B>(f: A -> B, s: State<A, B>, b: P.Action<A>) returns (trace: seq<Action<A, B>>)
    requires Quiet(s) && |s.workers| < |s.input.threads| && |s.workers| < |s.output.threads|
    requires P.Enabled(Abstract(s), b)
    ensures Realises(f, s, b, trace)
  {
    match b
    case Supply(v) => trace := SupplyRealised(f, s, |s.workers|, v);
    case Collect => trace := CollectRealised(f, s, |s.workers|);
    case Step(w) =>
      QuietView(s);
      match s.workers[w]
      case Ready => trace := TestRealised(f, s, w);
      case SawInput => trace := TakeRealised(f, s, w);
      case Took(_) => trace := ComputeRealised(f, s, w);
      case Computed(_) => trace := PutRealised(f, s, w);
  }

  lemma SameCounts<A, B>(f: A -> B, s: State<A, B>, a: Action<A, B>)
    requires Enabled(s, a)
    ensures var s' := Do(f, s, a);
      && |s'.workers| == |s.workers|
      && |s'.input.threads| == |s.input.threads| && |s'.output.threads| == |s.output.threads|
  {
  }

  lemma {:induction false} ThreadCount<A, B>(f: A -> B, s: State<A, B>, trace: seq<Action<A, B>>)
    requires Run(f, s, trace).Some?
    ensures var s' := Run(f, s, trace).value;
      && |s'.workers| == |s.workers|
      && |s'.input.threads| == |s.input.threads| && |s'.output.threads| == |s.output.threads|
  {
    if trace != [] {
      var init, a := trace[..|trace| - 1], trace[|trace| - 1];
      ThreadCount(f, s, init);
      SameCounts(f, Run(f, s, init).value, a);
    }
  }

  /** Every run of the pipeline is a run of the threads, if there is one thread to supply inputs and collect outputs. */
  lemma {:induction false} EveryRunRealised<A, B>(f: A -> B, workers: nat, others: nat, steps: seq<P.Action<A>>)
    returns (trace: seq<Action<A, B>>)
    requires others > 0 && P.Execute(f, workers, steps).Some?
    ensures Execute(f, workers, others, trace).Some?
    ensures var s := Execute(f, workers, others, trace).value;
      Quiet(s) && Abstract(s) == P.Execute(f, workers, steps).value
  {
    var s0 := Initial<A, B>(workers, others);
    if steps == [] {
      trace := [];
      QuietView(s0);
    } else {
      var init, b := steps[..|steps| - 1], steps[|steps| - 1];
      var before := EveryRunRealised(f, workers, others, init);
      ThreadCount(f, s0, before);
      var s := Run(f, s0, before).value;
      var more := StepRealised(f, s, b);
      RunAppend(f, s0, before, more);
      trace := before + more;
    }
  }

  /** A worker is asleep in `wait_and_pop` after some run. */
  ghost predicate SomeWorkerSleeps<A, B>(f: A -> B, workers: nat, others: nat, trace: seq<Action<A, B>>) {
    && Execute(f, workers, others, trace).Some?
    && var s := Execute(f, workers, others, trace).value;
       exists w :: 0 <= w < |s.workers| && w < |s.input.threads| && s.input.threads[w].Asleep?
  }

  /** With two workers one can fall asleep although it had seen an input, in the middle of a run of all threads. */
  lemma SecondWorkerSleeps<A, B>(f: A -> B, workers: nat, others: nat, v: A) returns (trace: seq<Action<A, B>>)
    requires workers >= 2 && others > 0
    ensures SomeWorkerSleeps(f, workers, others, trace)
  {
    var s0 := Initial<A, B>(workers, others);
    var steps := P.SecondWorkerBlocks(f, workers, v);
    var before := EveryRunRealised(f, workers, others, steps);
    var s := Run(f, s0, before).value;
    QuietView(s);
    Q.WaitAlone(s.input, 1);
    InBegun(f, s, 1, Q.WaitAndPop, 2);
    RunAppend(f, s0, before, InSteps(1, Q.WaitAndPop, 2));
    trace := before + InSteps(1, Q.WaitAndPop, 2);
    assert Run(f, s0, trace).value.input.threads[1].Asleep?;
  }

  /** On the locked queues too, a worker can go to sleep in `wait_and_pop` iff there are two of them. */
  lemma SleepsIffTwoWorkers<A, B>(f: A -> B, workers: nat, others: nat, v: A)
    requires others > 0
    ensures workers >= 2 <==> exists trace: seq<Action<A, B>> :: SomeWorkerSleeps(f, workers, others, trace)
  {
    if workers >= 2 {
      var trace := SecondWorkerSleeps<A, B>(f, workers, others, v);
    } else {
      forall trace: seq<Action<A, B>> | Execute(f, workers, others, trace).Some?
        ensures !SomeWorkerSleeps(f, workers, others, trace)
      {
        ThreadCount(f, Initial<A, B>(workers, others), trace);
        if workers == 1 {
          SingleWorkerNeverSleeps(f, others, trace);
        }
      }
    }
  }
}
