/**
 * `concurrent_queue` of src/Connection.hpp as a protocol: any number of threads, interleaved step by step at
 * every lock, unlock, wait and notify. A wait releases the mutex and falls asleep in one step, and may wake
 * up without a notification.
 */
module ConcurrentQueue {
  import opened Wrappers

  datatype Op<T> = Push(value: T) | WaitAndPop | TryPop | Empty | Clear

  /** Where a thread is; `clearing` marks the calls `clear` makes, `woken` a consumer that has been asleep. */
  datatype Place<T> =
    | Idle
    | PushEnter(value: T)   // before locking
    | PushLocked(value: T)  // locked, before `_queue.push`
    | PushDone              // locked, before `unlock`
    | PushNotify            // unlocked, before `notify_one`
    | WaitEnter
    | WaitCheck(woken: bool)
    | Asleep
    | WaitReturn            // woken, before `wait` has locked again
    | WaitPop(woken: bool)
    | TryEnter(clearing: bool)
    | TryCheck(clearing: bool)
    | TryFront(clearing: bool)
    | EmptyEnter(clearing: bool)
    | EmptyCheck(clearing: bool)
    | EmptyLeave(clearing: bool, answer: bool)
    | Leave(clearing: bool, taken: Option<T>) // locked, before the scope ends; `taken` is what a pop hands out

  /** `pushed` and `popped` are the values pushed and popped so far, in lock order. */
  datatype State<T> = State(queue: seq<T>, owner: Option<nat>, threads: seq<Place<T>>, pushed: seq<T>, popped: seq<T>)

  datatype Action<T> = Call(op: Op<T>) | Run | Notify(target: Option<nat>) | WakeUp

  /** Inside a critical section. */
  predicate Holds<T>(p: Place<T>) {
    p.PushLocked? || p.PushDone? || p.WaitCheck? || p.WaitPop? || p.TryCheck? || p.TryFront?
    || p.EmptyCheck? || p.EmptyLeave? || p.Leave?
  }

  /** Waiting for the mutex. */
  predicate Wants<T>(p: Place<T>) {
    p.PushEnter? || p.WaitEnter? || p.WaitReturn? || p.TryEnter? || p.EmptyEnter?
  }

  predicate Sleeping<T>(p: Place<T>) {
    p.Asleep?
  }

  predicate Enabled<T>(s: State<T>, t: nat, a: Action<T>) {
    t < |s.threads| &&
    var p := s.threads[t];
    match a
    case Call(_) => p.Idle?
    case Run => Holds(p) || (Wants(p) && s.owner.None?)
    case Notify(target) =>
      && p.PushNotify?
      && (if target.Some? then target.value < |s.threads| && s.threads[target.value].Asleep?
          else forall u | 0 <= u < |s.threads| :: !s.threads[u].Asleep?)
    case WakeUp => p.Asleep?
  }

  function Begin<T>(op: Op<T>): Place<T> {
    match op
    case Push(v) => PushEnter(v)
    case WaitAndPop => WaitEnter
    case TryPop => TryEnter(false)
    case Empty => EmptyEnter(false)
    case Clear => EmptyEnter(true)
  }

  function Lock<T>(s: State<T>, t: nat, p: Place<T>): State<T>
    requires t < |s.threads|
  {
    s.(owner := Some(t), threads := s.threads[t := p])
  }

  function Unlock<T>(s: State<T>, t: nat, p: Place<T>): State<T>
    requires t < |s.threads|
  {
    s.(owner := None, threads := s.threads[t := p])
  }

  /** `front` and `pop`; on an empty queue they are undefined, which leaves the state as it is here. */
  function Take<T>(s: State<T>, t: nat, clearing: bool): State<T>
    requires t < |s.threads|
  {
    if s.queue == [] then s
    else
      var v := s.queue[0];
      s.(queue := s.queue[1..], popped := s.popped + [v], threads := s.threads[t := Leave(clearing, Some(v))])
  }

  function Advance<T>(s: State<T>, t: nat): State<T>
    requires t < |s.threads| && (Holds(s.threads[t]) || Wants(s.threads[t]))
  {
    match s.threads[t]
    case PushEnter(v) => Lock(s, t, PushLocked(v))
    case PushLocked(v) => s.(queue := s.queue + [v], pushed := s.pushed + [v], threads := s.threads[t := PushDone])
    case PushDone => Unlock(s, t, PushNotify)
    case WaitEnter => Lock(s, t, WaitCheck(false))
    case WaitCheck(w) => if s.queue == [] then Unlock(s, t, Asleep) else s.(threads := s.threads[t := WaitPop(w)])
    case WaitReturn => Lock(s, t, WaitCheck(true))
    case WaitPop(_) => Take(s, t, false)
    case TryEnter(c) => Lock(s, t, TryCheck(c))
    case TryCheck(c) => s.(threads := s.threads[t := if s.queue == [] then Leave(c, None) else TryFront(c)])
    case TryFront(c) => Take(s, t, c)
    case EmptyEnter(c) => Lock(s, t, EmptyCheck(c))
    case EmptyCheck(c) => s.(threads := s.threads[t := EmptyLeave(c, s.queue == [])])
    case EmptyLeave(c, answer) => Unlock(s, t, if c && !answer then TryEnter(true) else Idle)
    case Leave(c, _) => Unlock(s, t, if c then EmptyEnter(true) else Idle)
  }

  function Do<T>(s: State<T>, t: nat, a: Action<T>): State<T>
    requires Enabled(s, t, a)
  {
    match a
    case Call(op) => s.(threads := s.threads[t := Begin(op)])
    case Run => Advance(s, t)
    case Notify(target) =>
      var woken := if target.Some? then s.threads[target.value := WaitReturn] else s.threads;
      s.(threads := woken[t := Idle])
    case WakeUp => s.(threads := s.threads[t := WaitReturn])
  }

  function Initial<T>(threads: nat): State<T> {
    State([], None, seq(threads, _ => Idle), [], [])
  }

  /** Where a trace leads from `s`, if every action is enabled in its turn. */
  function Run<T>(s: State<T>, trace: seq<(nat, Action<T>)>): Option<State<T>> {
    if trace == [] then Some(s)
    else
      var before := Run(s, trace[..|trace| - 1]);
      var (t, a) := trace[|trace| - 1];
      if before.Some? && Enabled(before.value, t, a) then Some(Do(before.value, t, a)) else None
  }

  /** The state after a trace from the start. */
  function Execute<T>(threads: nat, trace: seq<(nat, Action<T>)>): Option<State<T>> {
    Run(Initial(threads), trace)
  }

  /** How many threads are at such a place. */
  function Count<T>(threads: seq<Place<T>>, p: Place<T> -> bool): nat {
    if threads == [] then 0
    else Count(threads[..|threads| - 1], p) + if p(threads[|threads| - 1]) then 1 else 0
  }

  lemma {:induction false} CountUpdate<T>(threads: seq<Place<T>>, p: Place<T> -> bool, i: nat, x: Place<T>)
    requires i < |threads|
    ensures Count(threads[i := x], p) == Count(threads, p) - (if p(threads[i]) then 1 else 0) + (if p(x) then 1 else 0)
  {
    var n := |threads| - 1;
    var updated := threads[i := x];
    if i == n {
      assert updated[..n] == threads[..n];
    } else {
      assert updated[..n] == threads[..n][i := x];
      CountUpdate(threads[..n], p, i, x);
    }
  }

  lemma {:induction false} CountZero<T>(threads: seq<Place<T>>, p: Place<T> -> bool)
    ensures Count(threads, p) == 0 <==> forall i | 0 <= i < |threads| :: !p(threads[i])
  {
    if threads != [] {
      var n := |threads| - 1;
      CountZero(threads[..n], p);
      assert forall i | 0 <= i < n :: threads[..n][i] == threads[i];
      assert threads[n] == threads[|threads| - 1];
    }
  }

  /** A pushed value whose notification is still to come. */
  predicate Notifying<T>(p: Place<T>) {
    p.PushDone? || p.PushNotify?
  }

  /** A woken consumer that has not taken a value or gone back to sleep yet. */
  predicate Woken<T>(p: Place<T>) {
    p.WaitReturn? || p == WaitCheck(true) || p == WaitPop(true)
  }

  predicate Owed<T>(p: Place<T>) {
    Notifying(p) || Woken(p)
  }

  /** The mutex is held by exactly the thread inside a critical section. */
  ghost predicate MutualExclusion<T>(s: State<T>) {
    && (s.owner.Some? ==> s.owner.value < |s.threads|)
    && forall t | 0 <= t < |s.threads| :: Holds(s.threads[t]) <==> s.owner == Some(t)
  }

  /** What a thread found out or took inside its critical section stays true until the section ends. */
  ghost predicate Truthful<T>(s: State<T>, p: Place<T>) {
    && (p.WaitPop? || p.TryFront? ==> s.queue != [])
    && (p.EmptyLeave? ==> p.answer == (s.queue == []))
    && (p.Leave? ==> if p.taken.Some? then s.popped != [] && s.popped[|s.popped| - 1] == p.taken.value else s.queue == [])
  }

  ghost predicate TestsHold<T>(s: State<T>) {
    forall t | 0 <= t < |s.threads| :: Truthful(s, s.threads[t])
  }

  ghost predicate Fifo<T>(s: State<T>) {
    s.pushed == s.popped + s.queue
  }

  /** If a consumer sleeps, every queued value is owed a notification or a woken consumer. */
  ghost predicate NoLostWakeup<T>(s: State<T>) {
    Count(s.threads, p => Sleeping(p)) > 0 ==> |s.queue| <= Count(s.threads, p => Owed(p))
  }

  ghost predicate Invariant<T>(s: State<T>) {
    MutualExclusion(s) && TestsHold(s) && Fifo(s) && NoLostWakeup(s)
  }

  lemma KeepsExclusion<T>(s: State<T>, t: nat, a: Action<T>)
    requires MutualExclusion(s) && Enabled(s, t, a)
    ensures MutualExclusion(Do(s, t, a))
  {
  }

  /** Only the thread that holds the mutex changes the queue, by adding its value at the end or taking the first one. */
  lemma OnlyTheHolderChanges<T>(s: State<T>, t: nat, a: Action<T>)
    requires MutualExclusion(s) && Enabled(s, t, a)
    ensures var s' := Do(s, t, a);
      (s'.queue == s.queue && s'.popped == s.popped && s'.pushed == s.pushed) ||
      (s.owner == Some(t) &&
        if s.threads[t].PushLocked? then
          var v := s.threads[t].value;
          s'.queue == s.queue + [v] && s'.pushed == s.pushed + [v] && s'.popped == s.popped
        else
          s.queue != [] && s'.queue == s.queue[1..] && s'.popped == s.popped + [s.queue[0]] && s'.pushed == s.pushed)
  {
  }

  lemma KeepsTests<T>(s: State<T>, t: nat, a: Action<T>)
    requires MutualExclusion(s) && TestsHold(s) && Enabled(s, t, a)
    ensures TestsHold(Do(s, t, a))
  {
    var s' := Do(s, t, a);
    OnlyTheHolderChanges(s, t, a);
    forall u | 0 <= u < |s'.threads| ensures Truthful(s', s'.threads[u]) {
      assert Truthful(s, s.threads[u]);
      assert s.owner == Some(t) && u != t ==> !Holds(s.threads[u]);
    }
  }

  lemma KeepsFifo<T>(s: State<T>, t: nat, a: Action<T>)
    requires Fifo(s) && Enabled(s, t, a)
    ensures Fifo(Do(s, t, a))
  {
    if a.Run? && s.queue != [] {
      assert s.popped + s.queue == s.popped + [s.queue[0]] + s.queue[1..];
    }
    if a.Run? && s.threads[t].PushLocked? {
      var v := s.threads[t].value;
      assert s.popped + s.queue + [v] == s.popped + (s.queue + [v]);
    }
  }

  function Debt<T>(p: Place<T>): nat {
    if Owed(p) then 1 else 0
  }

  /** A thread may only fall asleep on an empty queue, and may only add a value by taking on a debt. */
  predicate PaysFor<T>(s: State<T>, p: Place<T>, s': State<T>, p': Place<T>) {
    if p'.Asleep? then s'.queue == [] else |s'.queue| + Debt(p) <= |s.queue| + Debt(p')
  }

  lemma MoveKeepsWakeups<T>(s: State<T>, s': State<T>, t: nat, p': Place<T>)
    requires NoLostWakeup(s) && t < |s.threads| && s'.threads == s.threads[t := p']
    requires PaysFor(s, s.threads[t], s', p')
    ensures NoLostWakeup(s')
  {
    CountUpdate(s.threads, (p: Place<T>) => Sleeping(p), t, p');
    CountUpdate(s.threads, (p: Place<T>) => Owed(p), t, p');
  }

  lemma AdvancePays<T>(s: State<T>, t: nat)
    requires TestsHold(s) && Enabled(s, t, Action<T>.Run)
    ensures var s' := Advance(s, t);
      s'.threads == s.threads[t := s'.threads[t]] && PaysFor(s, s.threads[t], s', s'.threads[t])
  {
    assert Truthful(s, s.threads[t]);
  }

  lemma NotifyKeepsWakeups<T>(s: State<T>, t: nat, target: Option<nat>)
    requires NoLostWakeup(s) && Enabled(s, t, Notify(target))
    ensures NoLostWakeup(Do(s, t, Notify(target)))
  {
    var sleeping, owed := (p: Place<T>) => Sleeping(p), (p: Place<T>) => Owed(p);
    if target.Some? {
      var u := target.value;
      CountUpdate(s.threads, sleeping, u, WaitReturn);
      CountUpdate(s.threads, owed, u, WaitReturn);
      CountUpdate(s.threads[u := WaitReturn], sleeping, t, Idle);
      CountUpdate(s.threads[u := WaitReturn], owed, t, Idle);
    } else {
      CountZero(s.threads, sleeping);
      CountUpdate(s.threads, sleeping, t, Idle);
    }
  }

  lemma KeepsWakeups<T>(s: State<T>, t: nat, a: Action<T>)
    requires TestsHold(s) && NoLostWakeup(s) && Enabled(s, t, a)
    ensures NoLostWakeup(Do(s, t, a))
  {
    match a
    case Call(op) => MoveKeepsWakeups(s, Do(s, t, a), t, Begin(op));
    case Run =>
      AdvancePays(s, t);
      MoveKeepsWakeups(s, Do(s, t, a), t, Do(s, t, a).threads[t]);
    case Notify(target) => NotifyKeepsWakeups(s, t, target);
    case WakeUp => MoveKeepsWakeups(s, Do(s, t, a), t, WaitReturn);
  }

  /** Every state any threads can reach in any interleaving, with any spurious wakeups, satisfies the invariant. */
  lemma {:induction false} AlwaysInvariant<T>(threads: nat, trace: seq<(nat, Action<T>)>)
    requires Execute(threads, trace).Some?
    ensures Invariant(Execute(threads, trace).value)
  {
    if trace == [] {
      var s := Initial<T>(threads);
      CountZero(s.threads, (p: Place<T>) => Sleeping(p));
    } else {
      var (t, a) := trace[|trace| - 1];
      AlwaysInvariant(threads, trace[..|trace| - 1]);
      var s := Execute(threads, trace[..|trace| - 1]).value;
      KeepsExclusion(s, t, a);
      KeepsTests(s, t, a);
      KeepsFifo(s, t, a);
      KeepsWakeups(s, t, a);
    }
  }

  /**
   * Values come out in the order they went in, at most one thread is inside a critical section, `front` and
   * `pop` are never reached on an empty queue, `empty` answers truthfully, a pop hands out the value it removed,
   * and `try_pop` comes back without one only if the queue is empty.
   */
  lemma LinearisableFifo<T>(threads: nat, trace: seq<(nat, Action<T>)>)
    requires Execute(threads, trace).Some?
    ensures var s := Execute(threads, trace).value;
      && s.pushed == s.popped + s.queue
      && (forall t, u | 0 <= t < |s.threads| && 0 <= u < |s.threads| ::
            Holds(s.threads[t]) && Holds(s.threads[u]) ==> t == u)
      && (forall t | 0 <= t < |s.threads| :: Truthful(s, s.threads[t]))
  {
    AlwaysInvariant(threads, trace);
  }

  lemma {:induction false} CountSplit<T>(threads: seq<Place<T>>)
    requires forall i | 0 <= i < |threads| :: !Holds(threads[i])
    ensures Count(threads, p => Owed(p)) ==
      Count(threads, (p: Place<T>) => p.PushNotify?) + Count(threads, (p: Place<T>) => p.WaitReturn?)
  {
    if threads != [] {
      var n := |threads| - 1;
      assert forall i | 0 <= i < n :: threads[..n][i] == threads[i];
      CountSplit(threads[..n]);
    }
  }

  /**
   * While a consumer sleeps and nobody holds the mutex, the queue is no longer than the producers between `unlock`
   * and `notify_one` plus the woken consumers that have not rechecked.
   */
  lemma QueueIsCovered<T>(threads: nat, trace: seq<(nat, Action<T>)>)
    requires Execute(threads, trace).Some?
    ensures var s := Execute(threads, trace).value;
      s.owner.None? && (exists t | 0 <= t < |s.threads| :: s.threads[t].Asleep?) ==>
        |s.queue| <= Count(s.threads, (p: Place<T>) => p.PushNotify?) + Count(s.threads, (p: Place<T>) => p.WaitReturn?)
  {
    AlwaysInvariant(threads, trace);
    var s := Execute(threads, trace).value;
    if s.owner.None? && exists t | 0 <= t < |s.threads| :: s.threads[t].Asleep? {
      var t :| 0 <= t < |s.threads| && s.threads[t].Asleep?;
      assert Sleeping(s.threads[t]);
      CountZero(s.threads, (p: Place<T>) => Sleeping(p));
      CountSplit(s.threads);
    }
  }

  /** Busy with a call and not asleep in it. */
  predicate Active<T>(p: Place<T>) {
    !p.Idle? && !p.Asleep?
  }

  /** A consumer never sleeps over a value with nobody left to wake it: some thread can go on with its call. */
  lemma NeverOnlySleepers<T>(threads: nat, trace: seq<(nat, Action<T>)>)
    requires Execute(threads, trace).Some?
    requires var s := Execute(threads, trace).value;
      s.queue != [] && exists t | 0 <= t < |s.threads| :: s.threads[t].Asleep?
    ensures var s := Execute(threads, trace).value;
      exists t: nat, a: Action<T> :: Enabled(s, t, a) && Active(s.threads[t]) && !a.Call?
  {
    AlwaysInvariant(threads, trace);
    var s := Execute(threads, trace).value;
    var asleep :| 0 <= asleep < |s.threads| && s.threads[asleep].Asleep?;
    assert Sleeping(s.threads[asleep]);
    CountZero(s.threads, (p: Place<T>) => Sleeping(p));
    CountZero(s.threads, (p: Place<T>) => Owed(p));
    var t :| 0 <= t < |s.threads| && Owed(s.threads[t]);
    if s.threads[t].PushNotify? {
      assert Enabled(s, t, Notify(Some(asleep)));
    } else if Holds(s.threads[t]) {
      assert Enabled(s, t, Action<T>.Run);
    } else if s.owner.None? {
      assert Enabled(s, t, Action<T>.Run);
    } else {
      HolderCanRun(s);
    }
  }

  lemma HolderCanRun<T>(s: State<T>)
    requires MutualExclusion(s) && s.owner.Some?
    ensures exists t: nat, a: Action<T> :: Enabled(s, t, a) && Active(s.threads[t]) && !a.Call?
  {
    assert Holds(s.threads[s.owner.value]);
    assert Enabled(s, s.owner.value, Action<T>.Run);
  }

  // What a call does between its beginning and its return.

  datatype Answer<T> = Pushed | Taken(value: Option<T>) | IsEmpty(answer: bool) | Cleared

  /** A call as the queue sees it: none, one that has not had its effect, one that has had it and only has to return. */
  datatype Stage<T> = Outside | Pending(op: Op<T>) | Done(answer: Answer<T>)

  function StageOf<T>(p: Place<T>): Stage<T> {
    match p
    case Idle => Outside
    case PushEnter(v) => Pending(Push(v))
    case PushLocked(v) => Pending(Push(v))
    case PushDone => Done(Pushed)
    case PushNotify => Done(Pushed)
    case WaitEnter => Pending(WaitAndPop)
    case WaitCheck(_) => Pending(WaitAndPop)
    case Asleep => Pending(WaitAndPop)
    case WaitReturn => Pending(WaitAndPop)
    case WaitPop(_) => Pending(WaitAndPop)
    case TryEnter(c) => Pending(if c then Clear else TryPop)
    case TryCheck(c) => Pending(if c then Clear else TryPop)
    case TryFront(c) => Pending(if c then Clear else TryPop)
    case EmptyEnter(c) => Pending(if c then Clear else Empty)
    case EmptyCheck(c) => Pending(if c then Clear else Empty)
    case EmptyLeave(c, answer) => if !c then Done(IsEmpty(answer)) else if answer then Done(Cleared) else Pending(Clear)
    case Leave(c, taken) => if c then Pending(Clear) else Done(Taken(taken))
  }

  /** What a call does to the queue, all at once, and what it answers. */
  ghost predicate Effect<T>(op: Op<T>, before: seq<T>, answer: Answer<T>, after: seq<T>) {
    match op
    case Push(v) => after == before + [v] && answer == Pushed
    case WaitAndPop => before != [] && after == before[1..] && answer == Taken(Some(before[0]))
    case TryPop =>
      if before == [] then after == [] && answer == Taken(None) else after == before[1..] && answer == Taken(Some(before[0]))
    case Empty => after == before && answer == IsEmpty(before == [])
    case Clear => before == [] && after == [] && answer == Cleared
  }

  /** How a call may go on: it begins, it has its effect, it returns; before its effect `clear` may take out values. */
  ghost predicate GoesOn<T>(before: seq<T>, c: Stage<T>, after: seq<T>, c': Stage<T>) {
    if c.Outside? then c'.Pending? && after == before
    else if c.Done? then (c' == c || c' == Outside) && after == before
    else if c'.Done? then Effect(c.op, before, c'.answer, after)
    else c' == c && (after == before || (c.op.Clear? && before != [] && after == before[1..]))
  }

  /**
   * A call has its effect in one step of its own, once, and on the queue as it is then; what it answers is what that
   * step found; no other step of its own or of another thread changes the queue for it or lets it return without it.
   */
  lemma CallsAreAtomic<T>(s: State<T>, t: nat, a: Action<T>)
    requires MutualExclusion(s) && TestsHold(s) && Enabled(s, t, a)
    ensures var s' := Do(s, t, a);
      && |s'.threads| == |s.threads|
      && GoesOn(s.queue, StageOf(s.threads[t]), s'.queue, StageOf(s'.threads[t]))
      && (a.Call? ==> StageOf(s'.threads[t]) == Pending(a.op))
      && forall u | 0 <= u < |s.threads| && u != t :: StageOf(s'.threads[u]) == StageOf(s.threads[u])
  {
    assert Truthful(s, s.threads[t]);
  }

  /** The same for every step that any run can make. */
  lemma EveryCallIsAtomic<T>(threads: nat, trace: seq<(nat, Action<T>)>, t: nat, a: Action<T>)
    requires Execute(threads, trace).Some? && Enabled(Execute(threads, trace).value, t, a)
    ensures var s := Execute(threads, trace).value;
      var s' := Do(s, t, a);
      && |s'.threads| == |s.threads|
      && GoesOn(s.queue, StageOf(s.threads[t]), s'.queue, StageOf(s'.threads[t]))
      && forall u | 0 <= u < |s.threads| && u != t :: StageOf(s'.threads[u]) == StageOf(s.threads[u])
  {
    AlwaysInvariant(threads, trace);
    CallsAreAtomic(Execute(threads, trace).value, t, a);
  }

  /** More than the steps a call still needs if nobody interferes and `n` values are queued. */
  function StepsLeft<T>(p: Place<T>, n: nat): nat {
    match p
    case Idle => 0
    case PushEnter(_) => 4
    case PushLocked(_) => 3
    case PushDone => 2
    case PushNotify => 1
    case Asleep => 5
    case WaitEnter => 4
    case WaitReturn => 4
    case WaitCheck(_) => 3
    case WaitPop(_) => 2
    case EmptyEnter(c) => if c then 7 * n + 3 else 3
    case EmptyCheck(c) => if c then 7 * n + 2 else 2
    case EmptyLeave(c, _) => if c then 7 * n + 1 else 1
    case TryEnter(c) => if c then (if n == 0 then 6 else 7 * n) else 4
    case TryCheck(c) => if c then (if n == 0 then 5 else 7 * n - 1) else 3
    case TryFront(c) => if c && n > 0 then 7 * n - 2 else 2
    case Leave(c, _) => if c then 7 * n + 4 else 1
  }

  /** Nobody else holds the mutex, and the call of `t` does not wait for a value that is not there. */
  ghost predicate Unhindered<T>(s: State<T>, t: nat) {
    && t < |s.threads| && (s.owner.Some? ==> s.owner.value == t)
    && (StageOf(s.threads[t]) == Pending(WaitAndPop) ==> s.queue != [])
  }

  lemma NextStep<T>(s: State<T>, t: nat) returns (a: Action<T>)
    requires MutualExclusion(s) && TestsHold(s) && Unhindered(s, t) && !s.threads[t].Idle?
    ensures Enabled(s, t, a) && !a.Call? && Unhindered(Do(s, t, a), t)
    ensures var s' := Do(s, t, a); StepsLeft(s'.threads[t], |s'.queue|) < StepsLeft(s.threads[t], |s.queue|)
  {
    assert Truthful(s, s.threads[t]);
    if s.threads[t].Asleep? {
      a := WakeUp;
    } else if s.threads[t].PushNotify? {
      if u :| 0 <= u < |s.threads| && s.threads[u].Asleep? {
        a := Notify(Some(u));
      } else {
        a := Notify(None);
      }
    } else {
      a := Action<T>.Run;
    }
  }

  lemma {:induction false} RunFirst<T>(s: State<T>, t: nat, a: Action<T>, rest: seq<(nat, Action<T>)>)
    requires Enabled(s, t, a)
    ensures Run(s, [(t, a)] + rest) == Run(Do(s, t, a), rest)
    decreases |rest|
  {
    var trace := [(t, a)] + rest;
    if rest == [] {
      assert trace[..0] == [];
    } else {
      RunFirst(s, t, a, rest[..|rest| - 1]);
      assert trace[..|trace| - 1] == [(t, a)] + rest[..|rest| - 1];
    }
  }

  /** A call that is not hindered comes to its end by its own steps. */
  lemma {:induction false} CallReturns<T>(s: State<T>, t: nat) returns (trace: seq<(nat, Action<T>)>)
    requires MutualExclusion(s) && TestsHold(s) && Unhindered(s, t)
    ensures forall i | 0 <= i < |trace| :: trace[i].0 == t && !trace[i].1.Call?
    ensures Run(s, trace).Some? && |Run(s, trace).value.threads| == |s.threads| && Run(s, trace).value.threads[t].Idle?
    decreases StepsLeft(s.threads[t], |s.queue|)
  {
    if s.threads[t].Idle? {
      trace := [];
    } else {
      var a := NextStep(s, t);
      KeepsExclusion(s, t, a);
      KeepsTests(s, t, a);
      CallsAreAtomic(s, t, a);
      var rest := CallReturns(Do(s, t, a), t);
      RunFirst(s, t, a, rest);
      trace := [(t, a)] + rest;
    }
  }

  /** An idle thread can make any call, and the call returns if the mutex is free and no value has to be waited for. */
  lemma AnyCallCanBeMade<T>(s: State<T>, t: nat, op: Op<T>) returns (trace: seq<(nat, Action<T>)>)
    requires MutualExclusion(s) && TestsHold(s) && t < |s.threads| && s.threads[t].Idle?
    requires s.owner.None? && (op.WaitAndPop? ==> s.queue != [])
    ensures trace != [] && trace[0] == (t, Call(op))
    ensures forall i | 0 < i < |trace| :: trace[i].0 == t && !trace[i].1.Call?
    ensures Run(s, trace).Some? && |Run(s, trace).value.threads| == |s.threads| && Run(s, trace).value.threads[t].Idle?
  {
    KeepsExclusion(s, t, Call(op));
    KeepsTests(s, t, Call(op));
    CallsAreAtomic(s, t, Call(op));
    var rest := CallReturns(Do(s, t, Call(op)), t);
    RunFirst(s, t, Call(op), rest);
    trace := [(t, Call(op))] + rest;
  }

  /** The state after thread `t` has begun a call and made `n` steps of it without coming to its end. */
  function Begun<T>(s: State<T>, t: nat, op: Op<T>, n: nat): Option<State<T>> {
    if n == 0 then if Enabled(s, t, Call(op)) then Some(Do(s, t, Call(op))) else None
    else
      var before := Begun(s, t, op, n - 1);
      if before.Some? && Enabled(before.value, t, Action<T>.Run) && !Advance(before.value, t).threads[t].Idle?
      then Some(Advance(before.value, t)) else None
  }

  /** `s` with the mutex in the hands of `t`, which is at `p`. */
  function Inside<T>(s: State<T>, t: nat, p: Place<T>): State<T>
    requires t < |s.threads|
  {
    s.(owner := Some(t), threads := s.threads[t := p])
  }

  lemma BegunNext<T>(s: State<T>, t: nat, op: Op<T>, n: nat, q: State<T>)
    requires Begun(s, t, op, n) == Some(q) && Enabled(q, t, Action<T>.Run) && !Advance(q, t).threads[t].Idle?
    ensures Begun(s, t, op, n + 1) == Some(Advance(q, t))
  {
  }

  lemma SetTwice<T>(threads: seq<T>, t: nat)
    requires t < |threads|
    ensures forall x, y {:trigger threads[t := x][t := y]} :: threads[t := x][t := y] == threads[t := y]
  {
  }

  lemma PushAlone<T>(s: State<T>, t: nat, v: T)
    requires t < |s.threads| && s.threads[t].Idle? && s.owner.None?
    ensures Begun(s, t, Push(v), 3) ==
      Some(s.(queue := s.queue + [v], pushed := s.pushed + [v], threads := s.threads[t := PushNotify]))
  {
    SetTwice(s.threads, t);
    BegunNext(s, t, Push(v), 0, s.(threads := s.threads[t := PushEnter(v)]));
    BegunNext(s, t, Push(v), 1, Inside(s, t, PushLocked(v)));
    BegunNext(s, t, Push(v), 2, Inside(s, t, PushDone).(queue := s.queue + [v], pushed := s.pushed + [v]));
  }

  lemma EmptyAlone<T>(s: State<T>, t: nat)
    requires t < |s.threads| && s.threads[t].Idle? && s.owner.None?
    ensures Begun(s, t, Empty, 2) == Some(Inside(s, t, EmptyLeave(false, s.queue == [])))
  {
    SetTwice(s.threads, t);
    BegunNext(s, t, Empty, 0, s.(threads := s.threads[t := EmptyEnter(false)]));
    BegunNext(s, t, Empty, 1, Inside(s, t, EmptyCheck(false)));
  }

  lemma WaitAlone<T>(s: State<T>, t: nat)
    requires t < |s.threads| && s.threads[t].Idle? && s.owner.None?
    ensures
      if s.queue == [] then Begun(s, t, WaitAndPop, 2) == Some(s.(threads := s.threads[t := Asleep]))
      else
        Begun(s, t, WaitAndPop, 3) ==
        Some(Inside(s, t, Leave(false, Some(s.queue[0]))).(queue := s.queue[1..], popped := s.popped + [s.queue[0]]))
  {
    SetTwice(s.threads, t);
    BegunNext(s, t, WaitAndPop, 0, s.(threads := s.threads[t := WaitEnter]));
    BegunNext(s, t, WaitAndPop, 1, Inside(s, t, WaitCheck(false)));
    if s.queue != [] {
      BegunNext(s, t, WaitAndPop, 2, Inside(s, t, WaitPop(false)));
    }
  }

  lemma TryAlone<T>(s: State<T>, t: nat)
    requires t < |s.threads| && s.threads[t].Idle? && s.owner.None? && s.queue != []
    ensures Begun(s, t, TryPop, 3) ==
      Some(Inside(s, t, Leave(false, Some(s.queue[0]))).(queue := s.queue[1..], popped := s.popped + [s.queue[0]]))
  {
    SetTwice(s.threads, t);
    BegunNext(s, t, TryPop, 0, s.(threads := s.threads[t := TryEnter(false)]));
    BegunNext(s, t, TryPop, 1, Inside(s, t, TryCheck(false)));
    BegunNext(s, t, TryPop, 2, Inside(s, t, TryFront(false)));
  }
}
