/**
 * The workers of test/b_thread.cpp: any number of threads calling `process_one` over and over on a shared input and
 * a shared output queue. Each queue operation is one step, which `LockedPipeline` justifies; the doubling is `f`.
 */
module WorkerPipeline {
  import opened Wrappers

  /** Where a worker is in `process_one`. */
  datatype Worker<A, B> =
    | Ready                  // before `in.empty()`
    | SawInput               // `in` was not empty, before `wait_and_pop`
    | Took(input: A)         // before `mult_arr`
    | Computed(output: B)    // before `out.push`

  /** `supplied` are the inputs ever pushed, `produced` the outputs ever pushed by workers. */
  datatype State<A, B> = State(input: seq<A>, output: seq<B>, workers: seq<Worker<A, B>>,
                               supplied: seq<A>, produced: seq<B>)

  datatype Action<A> = Supply(value: A) | Collect | Step(worker: nat)

  predicate Enabled<A, B>(s: State<A, B>, a: Action<A>) {
    match a
    case Supply(_) => true
    case Collect => s.output != []
    case Step(w) => w < |s.workers| && (s.workers[w].SawInput? ==> s.input != [])
  }

  /** `wait_and_pop` finds the queue empty and has to wait. */
  predicate Blocked<A, B>(s: State<A, B>, w: nat) {
    w < |s.workers| && s.workers[w].SawInput? && s.input == []
  }

  function Move<A, B>(f: A -> B, s: State<A, B>, w: nat): State<A, B>
    requires Enabled(s, Step(w))
  {
    match s.workers[w]
    case Ready => if s.input == [] then s else s.(workers := s.workers[w := SawInput])
    case SawInput => s.(input := s.input[1..], workers := s.workers[w := Took(s.input[0])])
    case Took(x) => s.(workers := s.workers[w := Computed(f(x))])
    case Computed(y) => s.(output := s.output + [y], produced := s.produced + [y], workers := s.workers[w := Ready])
  }

  function Do<A, B>(f: A -> B, s: State<A, B>, a: Action<A>): State<A, B>
    requires Enabled(s, a)
  {
    match a
    case Supply(v) => s.(input := s.input + [v], supplied := s.supplied + [v])
    case Collect => s.(output := s.output[1..])
    case Step(w) => Move(f, s, w)
  }

  function Initial<A, B>(workers: nat): State<A, B> {
    State([], [], seq(workers, _ => Ready), [], [])
  }

  /** Where a trace leads from `s`, if every action is enabled in its turn. */
  function Run<A, B>(f: A -> B, s: State<A, B>, trace: seq<Action<A>>): Option<State<A, B>> {
    if trace == [] then Some(s)
    else
      var before := Run(f, s, trace[..|trace| - 1]);
      var a := trace[|trace| - 1];
      if before.Some? && Enabled(before.value, a) then Some(Do(f, before.value, a)) else None
  }

  function Execute<A, B>(f: A -> B, workers: nat, trace: seq<Action<A>>): Option<State<A, B>> {
    Run(f, Initial(workers), trace)
  }

  function Map<A, B>(f: A -> B, s: seq<A>): (r: seq<B>)
    ensures |r| == |s|
    ensures forall i | 0 <= i < |s| :: r[i] == f(s[i])
  {
    seq(|s|, i requires 0 <= i < |s| => f(s[i]))
  }

  /** The output a worker holds in hand, computed or still to be computed. */
  function InHand<A, B>(f: A -> B, w: Worker<A, B>): seq<B> {
    match w
    case Took(x) => [f(x)]
    case Computed(y) => [y]
    case _ => []
  }

  ghost function Holds<A, B>(f: A -> B, w: Worker<A, B>, y: B): nat {
    if InHand(f, w) == [y] then 1 else 0
  }

  /** How many times `y` is in a worker's hand. */
  ghost function InFlight<A, B>(f: A -> B, workers: seq<Worker<A, B>>, y: B): nat {
    if workers == [] then 0
    else InFlight(f, workers[..|workers| - 1], y) + Holds(f, workers[|workers| - 1], y)
  }

  lemma {:induction false} InFlightUpdate<A, B>(f: A -> B, workers: seq<Worker<A, B>>, i: nat, x: Worker<A, B>, y: B)
    requires i < |workers|
    ensures InFlight(f, workers[i := x], y) ==
      InFlight(f, workers, y) - Holds(f, workers[i], y) + Holds(f, x, y)
  {
    var n := |workers| - 1;
    var updated := workers[i := x];
    if i == n {
      assert updated[..n] == workers[..n];
    } else {
      assert updated[..n] == workers[..n][i := x];
      InFlightUpdate(f, workers[..n], i, x, y);
    }
  }

  lemma {:induction false} NothingInFlight<A, B>(f: A -> B, workers: seq<Worker<A, B>>, y: B)
    requires forall i | 0 <= i < |workers| :: workers[i].Ready? || workers[i].SawInput?
    ensures InFlight(f, workers, y) == 0
  {
    if workers != [] {
      NothingInFlight(f, workers[..|workers| - 1], y);
    }
  }

  lemma MapParts<A, B>(f: A -> B, s: seq<A>, v: A)
    ensures Map(f, s + [v]) == Map(f, s) + [f(v)]
    ensures s != [] ==> Map(f, s) == [f(s[0])] + Map(f, s[1..])
  {
  }

  /** Every input ever supplied is, mapped, an output, in a worker's hand, or still waiting; and nothing else is. */
  ghost predicate Conserved<A, B(!new)>(f: A -> B, s: State<A, B>) {
    forall y: B :: Balanced(f, s, y)
  }

  ghost predicate Balanced<A, B>(f: A -> B, s: State<A, B>, y: B) {
    multiset(Map(f, s.supplied))[y] == multiset(s.produced)[y] + InFlight(f, s.workers, y) + multiset(Map(f, s.input))[y]
  }

  lemma FirstCounts<A, B>(f: A -> B, s: seq<A>, y: B)
    requires s != []
    ensures multiset(Map(f, s))[y] == (if f(s[0]) == y then 1 else 0) + multiset(Map(f, s[1..]))[y]
  {
    MapParts(f, s, s[0]);
    assert multiset(Map(f, s)) == multiset([f(s[0])]) + multiset(Map(f, s[1..]));
  }

  lemma MoveBalances<A, B>(f: A -> B, s: State<A, B>, w: nat, y: B)
    requires Balanced(f, s, y) && Enabled(s, Step(w))
    ensures Balanced(f, Move(f, s, w), y)
  {
    var s' := Move(f, s, w);
    var x, x' := s.workers[w], s'.workers[w];
    InFlightUpdate(f, s.workers, w, x', y);
    match x
    case Ready =>
      assert s'.workers == s.workers[w := x'];
      assert InHand(f, x) == InHand(f, x') == [];
    case SawInput =>
      FirstCounts(f, s.input, y);
      assert Holds(f, x, y) == 0 && Holds(f, x', y) == if f(s.input[0]) == y then 1 else 0;
    case Took(_) =>
      assert Holds(f, x, y) == Holds(f, x', y);
    case Computed(z) =>
      assert Holds(f, x', y) == 0 && Holds(f, x, y) == if z == y then 1 else 0;
      assert multiset(s'.produced) == multiset(s.produced) + multiset{z};
  }

  lemma DoBalances<A, B>(f: A -> B, s: State<A, B>, a: Action<A>, y: B)
    requires Balanced(f, s, y) && Enabled(s, a)
    ensures Balanced(f, Do(f, s, a), y)
  {
    match a
    case Supply(v) =>
      MapParts(f, s.supplied, v);
      MapParts(f, s.input, v);
    case Collect =>
    case Step(w) => MoveBalances(f, s, w, y);
  }

  /** Conservation in every reachable state, for any number of workers and any interleaving. */
  lemma {:induction false} AlwaysConserved<A, B(!new)>(f: A -> B, workers: nat, trace: seq<Action<A>>)
    requires Execute(f, workers, trace).Some?
    ensures Conserved(f, Execute(f, workers, trace).value)
  {
    if trace == [] {
      forall y ensures Balanced(f, Initial<A, B>(workers), y) {
        NothingInFlight(f, Initial<A, B>(workers).workers, y);
      }
    } else {
      AlwaysConserved(f, workers, trace[..|trace| - 1]);
      var s := Execute(f, workers, trace[..|trace| - 1]).value;
      var s' := Do(f, s, trace[|trace| - 1]);
      forall y ensures Balanced(f, s', y) {
        DoBalances(f, s, trace[|trace| - 1], y);
      }
    }
  }

  /** When no worker has an item in hand and the input is used up, the outputs are the mapped inputs, each once. */
  lemma AllProcessed<A, B(!new)>(f: A -> B, workers: nat, trace: seq<Action<A>>)
    requires Execute(f, workers, trace).Some?
    requires Finished(Execute(f, workers, trace).value)
    ensures var s := Execute(f, workers, trace).value; multiset(s.produced) == multiset(Map(f, s.supplied))
  {
    AlwaysConserved(f, workers, trace);
    var s := Execute(f, workers, trace).value;
    forall y ensures multiset(Map(f, s.supplied))[y] == multiset(s.produced)[y] {
      assert Balanced(f, s, y);
      NothingInFlight(f, s.workers, y);
    }
  }

  /** With one worker nothing is reordered, and what it saw is still there. */
  ghost predicate InOrder<A, B>(f: A -> B, s: State<A, B>) {
    && |s.workers| == 1
    && Map(f, s.supplied) == s.produced + InHand(f, s.workers[0]) + Map(f, s.input)
    && (s.workers[0].SawInput? ==> s.input != [])
  }

  lemma StepInOrder<A, B>(f: A -> B, s: State<A, B>, a: Action<A>)
    requires InOrder(f, s) && Enabled(s, a)
    ensures InOrder(f, Do(f, s, a))
  {
    match a
    case Supply(v) =>
      MapParts(f, s.supplied, v);
      MapParts(f, s.input, v);
      assert s.produced + InHand(f, s.workers[0]) + (Map(f, s.input) + [f(v)]) == Map(f, s.supplied) + [f(v)];
    case Collect =>
    case Step(w) =>
      if s.workers[0].SawInput? {
        MapParts(f, s.input, s.input[0]);
        assert s.produced + [] + ([f(s.input[0])] + Map(f, s.input[1..])) == s.produced + [f(s.input[0])] + Map(f, s.input[1..]);
      } else if s.workers[0].Computed? {
        assert s.produced + [s.workers[0].output] == s.produced + [s.workers[0].output] + [];
      }
  }

  /** A single worker puts out the mapped inputs in order, and `wait_and_pop` never makes it wait. */
  lemma {:induction false} SingleWorker<A, B>(f: A -> B, trace: seq<Action<A>>)
    requires Execute(f, 1, trace).Some?
    ensures var s := Execute(f, 1, trace).value;
      InOrder(f, s) && s.produced <= Map(f, s.supplied) && !Blocked(s, 0)
  {
    if trace != [] {
      SingleWorker(f, trace[..|trace| - 1]);
      StepInOrder(f, Execute(f, 1, trace[..|trace| - 1]).value, trace[|trace| - 1]);
    }
  }

  lemma RunStep<A, B>(f: A -> B, s0: State<A, B>, trace: seq<Action<A>>, s: State<A, B>, a: Action<A>, s': State<A, B>)
    requires Run(f, s0, trace) == Some(s) && Enabled(s, a) && Do(f, s, a) == s'
    ensures Run(f, s0, trace + [a]) == Some(s')
  {
    assert (trace + [a])[..|trace|] == trace;
  }

  /** Two workers that both see one input: one takes it, the other waits. */
  lemma SecondWorkerBlocks<A, B>(f: A -> B, workers: nat, v: A) returns (trace: seq<Action<A>>)
    requires workers >= 2
    ensures Execute(f, workers, trace).Some? && Blocked(Execute(f, workers, trace).value, 1)
  {
    var s0 := Initial<A, B>(workers);
    var s1 := s0.(input := [v], supplied := [v]);
    var s2 := s1.(workers := s1.workers[0 := SawInput]);
    var s3 := s2.(workers := s2.workers[1 := SawInput]);
    var s4 := s3.(input := [], workers := s3.workers[0 := Took(v)]);
    trace := [];
    RunStep(f, s0, trace, s0, Supply(v), s1);
    trace := trace + [Supply(v)];
    RunStep(f, s0, trace, s1, Step(0), s2);
    trace := trace + [Step(0)];
    RunStep(f, s0, trace, s2, Step(1), s3);
    trace := trace + [Step(1)];
    RunStep(f, s0, trace, s3, Step(0), s4);
    trace := trace + [Step(0)];
  }

  /** `wait_and_pop` after a successful `empty` test can never wait, exactly when there is at most one worker. */
  lemma NeverBlocksIffAtMostOneWorker<A, B>(f: A -> B, workers: nat, v: A)
    ensures workers <= 1 <==>
      forall trace: seq<Action<A>>, w: nat | Execute(f, workers, trace).Some? :: !Blocked(Execute(f, workers, trace).value, w)
  {
    if workers >= 2 {
      var trace := SecondWorkerBlocks(f, workers, v);
    } else {
      forall trace: seq<Action<A>>, w: nat | Execute(f, workers, trace).Some?
        ensures !Blocked(Execute(f, workers, trace).value, w)
      {
        WorkerCount(f, workers, trace);
        if workers == 1 {
          SingleWorker(f, trace);
        }
      }
    }
  }

  lemma {:induction false} WorkerCount<A, B>(f: A -> B, workers: nat, trace: seq<Action<A>>)
    requires Execute(f, workers, trace).Some?
    ensures |Execute(f, workers, trace).value.workers| == workers
  {
    if trace != [] {
      WorkerCount(f, workers, trace[..|trace| - 1]);
    }
  }

  // The workers get through their input.

  /** Of all that is left to do, weighted: an input outweighs a round of a worker. */
  function Rank<A, B>(w: Worker<A, B>): nat {
    match w
    case Ready => 1
    case SawInput => 0
    case Took(_) => 3
    case Computed(_) => 2
  }

  function TotalRank<A, B>(workers: seq<Worker<A, B>>): nat {
    if workers == [] then 0 else TotalRank(workers[..|workers| - 1]) + Rank(workers[|workers| - 1])
  }

  lemma {:induction false} RankUpdate<A, B>(workers: seq<Worker<A, B>>, i: nat, x: Worker<A, B>)
    requires i < |workers|
    ensures TotalRank(workers[i := x]) == TotalRank(workers) - Rank(workers[i]) + Rank(x)
  {
    var n := |workers| - 1;
    var updated := workers[i := x];
    if i == n {
      assert updated[..n] == workers[..n];
    } else {
      assert updated[..n] == workers[..n][i := x];
      RankUpdate(workers[..n], i, x);
    }
  }

  function LeftToDo<A, B>(s: State<A, B>): nat {
    4 * |s.input| + TotalRank(s.workers)
  }

  /** A worker that has something to do makes headway, and neither takes anything from the outputs nor asks for more. */
  lemma WorkerAdvances<A, B>(f: A -> B, s: State<A, B>, w: nat)
    requires w < |s.workers| && (s.workers[w].Took? || s.workers[w].Computed? || s.input != [])
    ensures Enabled(s, Step(w)) && LeftToDo(Move(f, s, w)) < LeftToDo(s)
    ensures Move(f, s, w).supplied == s.supplied && |Move(f, s, w).workers| == |s.workers|
  {
    RankUpdate(s.workers, w, Move(f, s, w).workers[w]);
  }

  lemma {:induction false} RunAppend<A, B>(f: A -> B, s: State<A, B>, a: seq<Action<A>>, b: seq<Action<A>>)
    requires Run(f, s, a).Some?
    ensures Run(f, s, a + b) == Run(f, Run(f, s, a).value, b)
    decreases |b|
  {
    if b == [] {
      assert a + b == a;
    } else {
      RunAppend(f, s, a, b[..|b| - 1]);
      assert (a + b)[..|a + b| - 1] == a + b[..|b| - 1];
    }
  }

  lemma RunFirst<A, B>(f: A -> B, s: State<A, B>, a: Action<A>, rest: seq<Action<A>>)
    requires Enabled(s, a)
    ensures Run(f, s, [a] + rest) == Run(f, Do(f, s, a), rest)
  {
    assert [a][..0] == [];
    RunAppend(f, s, [a], rest);
  }

  /** The input is used up and no worker has an item in hand. */
  ghost predicate Finished<A, B>(s: State<A, B>) {
    s.input == [] && forall i | 0 <= i < |s.workers| :: s.workers[i].Ready? || s.workers[i].SawInput?
  }

  lemma {:induction false} WorkersFinish<A, B>(f: A -> B, s: State<A, B>) returns (more: seq<Action<A>>)
    requires s.workers != []
    ensures forall i | 0 <= i < |more| :: more[i].Step?
    ensures Run(f, s, more).Some?
    ensures var s' := Run(f, s, more).value; Finished(s') && s'.supplied == s.supplied
    decreases LeftToDo(s)
  {
    if w :| 0 <= w < |s.workers| && (s.workers[w].Took? || s.workers[w].Computed? || s.input != []) {
      WorkerAdvances(f, s, w);
      var rest := WorkersFinish(f, Move(f, s, w));
      RunFirst(f, s, Step(w), rest);
      more := [Step(w)] + rest;
    } else {
      more := [];
      var w := s.workers[0];
      assert s.input == [] || w.Took? || w.Computed?;
    }
  }

  /** From every reachable state at least one worker suffices to process all inputs without any more being supplied. */
  lemma CanFinish<A, B(!new)>(f: A -> B, workers: nat, trace: seq<Action<A>>) returns (more: seq<Action<A>>)
    requires workers > 0 && Execute(f, workers, trace).Some?
    ensures forall i | 0 <= i < |more| :: more[i].Step?
    ensures Execute(f, workers, trace + more).Some?
    ensures var s, s' := Execute(f, workers, trace).value, Execute(f, workers, trace + more).value;
      s'.input == [] && s'.supplied == s.supplied && multiset(s'.produced) == multiset(Map(f, s.supplied))
  {
    WorkerCount(f, workers, trace);
    more := WorkersFinish(f, Execute(f, workers, trace).value);
    RunAppend(f, Initial(workers), trace, more);
    AllProcessed(f, workers, trace + more);
  }
}
