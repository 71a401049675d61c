/**
 The worker pool as interleaved atomic steps: registration, the pool threads and
 destruction. Work items are numbered in registration order.
 */
module ThreadPool {
  type Work = nat

  /** A pool thread is about to test `abort`, about to look for work, busy, or gone. */
  datatype Thread = AtTop | Looking | Busy(work: Work) | Gone

  datatype Kill = KillNow | KillWait

  /** Progress of `ep_tp_destroy`. */
  datatype Destroy = NotCalled | AwaitEmpty | SetAbort | Joining | Sweeping | Returned

  datatype State = State(
    next: nat, queue: seq<Work>, threads: seq<Thread>, abort: bool,
    kill: Kill, destroy: Destroy, started: seq<Work>, swept: seq<Work>, freed: seq<Work>)

  datatype Step =
    | Register
    | TestAbort(i: nat)
    | Look(i: nat)
    | Finish(i: nat)
    | CallDestroy(kill: Kill)
    | FoundEmpty
    | Abort
    | JoinAll
    | Sweep
    | Return

  predicate Enabled(s: State, step: Step) {
    match step
    case Register => s.destroy.NotCalled?
    case TestAbort(i) => i < |s.threads| && s.threads[i].AtTop?
    case Look(i) => i < |s.threads| && s.threads[i].Looking?
    case Finish(i) => i < |s.threads| && s.threads[i].Busy?
    case CallDestroy(_) => s.destroy.NotCalled?
    case FoundEmpty => s.destroy.AwaitEmpty? && s.queue == []
    case Abort => s.destroy.SetAbort?
    case JoinAll => s.destroy.Joining? && forall i :: 0 <= i < |s.threads| ==> s.threads[i].Gone?
    case Sweep => s.destroy.Sweeping? && s.queue != []
    case Return => s.destroy.Sweeping? && s.queue == []
  }

  function Next(s: State, step: Step): State
    requires Enabled(s, step)
  {
    match step
    case Register => s.(next := s.next + 1, queue := s.queue + [s.next])
    case TestAbort(i) => s.(threads := s.threads[i := if s.abort then Gone else Looking])
    case Look(i) =>
      if s.queue != [] then
        s.(queue := s.queue[1..], started := s.started + [s.queue[0]],
           threads := s.threads[i := Busy(s.queue[0])])
      else if s.abort then s.(threads := s.threads[i := Gone])
      else s
    case Finish(i) => s.(freed := s.freed + [s.threads[i].work], threads := s.threads[i := AtTop])
    case CallDestroy(k) => s.(kill := k, destroy := if k.KillWait? then AwaitEmpty else SetAbort)
    case FoundEmpty => s.(destroy := SetAbort)
    case Abort => s.(abort := true, destroy := Joining)
    case JoinAll => s.(destroy := Sweeping)
    case Sweep => s.(queue := s.queue[1..], swept := s.swept + [s.queue[0]], freed := s.freed + [s.queue[0]])
    case Return => s.(destroy := Returned)
  }

  function Start(nthreads: nat): State {
    State(0, [], seq(nthreads, _ => AtTop), false, KillNow, NotCalled, [], [], [])
  }

  function Range(n: nat): (r: seq<Work>)
    ensures |r| == n && forall i :: 0 <= i < n ==> r[i] == i
  {
    if n == 0 then [] else Range(n - 1) + [n - 1]
  }

  function Count(s: seq<Work>, w: Work): nat {
    if s == [] then 0 else Count(s[..|s| - 1], w) + if s[|s| - 1] == w then 1 else 0
  }

  lemma CountSnoc(s: seq<Work>, x: Work, w: Work)
    ensures Count(s + [x], w) == Count(s, w) + if x == w then 1 else 0
  {
    assert (s + [x])[..|s|] == s;
  }

  lemma {:induction false} CountAppend(s: seq<Work>, t: seq<Work>, w: Work)
    ensures Count(s + t, w) == Count(s, w) + Count(t, w)
  {
    if t == [] {
      assert s + t == s;
    } else {
      var n := |t| - 1;
      CountAppend(s, t[..n], w);
      assert s + t == (s + t[..n]) + [t[n]];
      CountSnoc(s + t[..n], t[n], w);
    }
  }

  lemma {:induction false} CountRange(n: nat, w: Work)
    ensures Count(Range(n), w) == if w < n then 1 else 0
  {
    if n > 0 {
      CountRange(n - 1, w);
      CountSnoc(Range(n - 1), n - 1, w);
    }
  }

  function Holds(t: Thread, w: Work): nat {
    if t == Busy(w) then 1 else 0
  }

  /** How many pool threads have `w` in hand. */
  function InHand(threads: seq<Thread>, w: Work): nat {
    if threads == [] then 0 else Holds(threads[0], w) + InHand(threads[1..], w)
  }

  lemma {:induction false} InHandUpdate(threads: seq<Thread>, i: nat, t: Thread, w: Work)
    requires i < |threads|
    ensures InHand(threads[i := t], w) + Holds(threads[i], w) == InHand(threads, w) + Holds(t, w)
  {
    if i == 0 {
      assert threads[i := t][1..] == threads[1..];
    } else {
      assert threads[i := t][1..] == threads[1..][i - 1 := t];
      InHandUpdate(threads[1..], i - 1, t, w);
    }
  }

  lemma {:induction false} NoneInHand(threads: seq<Thread>, w: Work)
    requires forall i :: 0 <= i < |threads| ==> !threads[i].Busy?
    ensures InHand(threads, w) == 0
  {
    if threads != [] {
      NoneInHand(threads[1..], w);
    }
  }

  ghost predicate AllGone(s: State) {
    forall i :: 0 <= i < |s.threads| ==> s.threads[i].Gone?
  }

  /** What left the queue was started or swept, in registration order. */
  ghost predicate Ordered(s: State) {
    && s.started + s.swept + s.queue == Range(s.next)
    && (s.destroy.Sweeping? || s.destroy.Returned? ==> AllGone(s))
    && (!s.destroy.Sweeping? && !s.destroy.Returned? ==> s.swept == [])
    && (s.destroy.Returned? ==> s.queue == [])
    && (s.kill.KillWait? && !s.destroy.NotCalled? && !s.destroy.AwaitEmpty? ==> s.queue == [] && s.swept == [])
  }

  /** An item that left the queue is in hand or was freed, and only once. */
  ghost predicate Balanced(s: State, w: Work) {
    Count(s.freed, w) + InHand(s.threads, w) == Count(s.started, w) + Count(s.swept, w)
  }

  ghost predicate Inv(s: State) {
    Ordered(s) && forall w :: Balanced(s, w)
  }

  lemma StepOrdered(s: State, step: Step)
    requires Ordered(s) && Enabled(s, step)
    ensures Ordered(Next(s, step))
  {
    match step {
      case Register =>
        assert s.started + s.swept + (s.queue + [s.next]) == Range(s.next) + [s.next];
      case Look(i) =>
        if s.queue != [] {
          assert s.started + [s.queue[0]] + [] + s.queue[1..] == s.started + [] + s.queue;
        }
      case Sweep =>
        assert s.started + (s.swept + [s.queue[0]]) + s.queue[1..] == s.started + s.swept + s.queue;
      case _ =>
    }
  }

  lemma StepBalanced(s: State, step: Step, w: Work)
    requires Balanced(s, w) && Enabled(s, step)
    ensures Balanced(Next(s, step), w)
  {
    match step {
      case TestAbort(i) =>
        InHandUpdate(s.threads, i, if s.abort then Gone else Looking, w);
      case Look(i) =>
        LookBalanced(s, i, w);
      case Finish(i) =>
        FinishBalanced(s, i, w);
      case Sweep =>
        CountSnoc(s.swept, s.queue[0], w);
        CountSnoc(s.freed, s.queue[0], w);
      case _ =>
    }
  }

  lemma LookBalanced(s: State, i: nat, w: Work)
    requires Balanced(s, w) && Enabled(s, Look(i))
    ensures Balanced(Next(s, Look(i)), w)
  {
    if s.queue != [] {
      InHandUpdate(s.threads, i, Busy(s.queue[0]), w);
      CountSnoc(s.started, s.queue[0], w);
    } else {
      InHandUpdate(s.threads, i, Gone, w);
    }
  }

  lemma FinishBalanced(s: State, i: nat, w: Work)
    requires Balanced(s, w) && Enabled(s, Finish(i))
    ensures Balanced(Next(s, Finish(i)), w)
  {
    InHandUpdate(s.threads, i, AtTop, w);
    CountSnoc(s.freed, s.threads[i].work, w);
  }

  lemma StepInv(s: State, step: Step)
    requires Inv(s) && Enabled(s, step)
    ensures Inv(Next(s, step))
  {
    StepOrdered(s, step);
    forall w
      ensures Balanced(Next(s, step), w)
    {
      StepBalanced(s, step, w);
    }
  }

  ghost predicate Runs(s: State, steps: seq<Step>)
    decreases |steps|
  {
    steps == [] || (Enabled(s, steps[0]) && Runs(Next(s, steps[0]), steps[1..]))
  }

  ghost function Final(s: State, steps: seq<Step>): State
    requires Runs(s, steps)
    decreases |steps|
  {
    if steps == [] then s else Final(Next(s, steps[0]), steps[1..])
  }

  lemma {:induction false} RunInv(s: State, steps: seq<Step>)
    requires Inv(s) && Runs(s, steps)
    ensures Inv(Final(s, steps))
    decreases |steps|
  {
    if steps != [] {
      StepInv(s, steps[0]);
      RunInv(Next(s, steps[0]), steps[1..]);
    }
  }

  /** In every state of every run items are started in registration order, none twice. */
  lemma StartedInOrder(nthreads: nat, steps: seq<Step>)
    requires Runs(Start(nthreads), steps)
    ensures var t := Final(Start(nthreads), steps);
      t.started <= Range(t.next)
  {
    StartHolds(nthreads);
    RunInv(Start(nthreads), steps);
    var t := Final(Start(nthreads), steps);
    assert t.started + t.swept + t.queue == t.started + (t.swept + t.queue);
  }

  /** When destroy has returned, every item was freed once; a waiting destroy also ran every item once. */
  lemma DestroyedPool(nthreads: nat, steps: seq<Step>, w: Work)
    requires Runs(Start(nthreads), steps) && Final(Start(nthreads), steps).destroy.Returned?
    ensures var t := Final(Start(nthreads), steps);
      && Count(t.freed, w) == (if w < t.next then 1 else 0)
      && (t.kill.KillWait? ==> t.started == Range(t.next))
  {
    StartHolds(nthreads);
    RunInv(Start(nthreads), steps);
    var t := Final(Start(nthreads), steps);
    assert Balanced(t, w);
    NoneInHand(t.threads, w);
    assert t.started + t.swept + [] == t.started + t.swept;
    CountAppend(t.started, t.swept, w);
    CountRange(t.next, w);
    assert t.swept == [] ==> t.started + t.swept == t.started;
  }

  lemma StartHolds(nthreads: nat)
    ensures Inv(Start(nthreads))
  {
    forall w
      ensures Balanced(Start(nthreads), w)
    {
      NoneInHand(Start(nthreads).threads, w);
    }
  }

  // ---------- Destruction ends ----------

  predicate Called(s: State) {
    !s.destroy.NotCalled?
  }

  /** Threads leave only once the flag is up, and the flag goes up with destruction. */
  ghost predicate Phased(s: State) {
    && (s.abort <==> s.destroy.Joining? || s.destroy.Sweeping? || s.destroy.Returned?)
    && (!s.abort ==> forall i :: 0 <= i < |s.threads| ==> !s.threads[i].Gone?)
    && (s.destroy.Sweeping? || s.destroy.Returned? ==> AllGone(s))
  }

  lemma {:induction false} RunPhased(s: State, steps: seq<Step>)
    requires Phased(s) && Runs(s, steps)
    ensures Phased(Final(s, steps)) && |Final(s, steps).threads| == |s.threads|
    decreases |steps|
  {
    if steps != [] {
      RunPhased(Next(s, steps[0]), steps[1..]);
    }
  }

  function Weight(t: Thread): nat {
    match t case AtTop => 2 case Looking => 1 case Busy(_) => 3 case Gone => 0
  }

  function Weights(threads: seq<Thread>): nat {
    if threads == [] then 0 else Weight(threads[0]) + Weights(threads[1..])
  }

  lemma {:induction false} WeightsUpdate(threads: seq<Thread>, i: nat, t: Thread)
    requires i < |threads|
    ensures Weights(threads[i := t]) == Weights(threads) - Weight(threads[i]) + Weight(t)
  {
    if i == 0 {
      assert threads[i := t][1..] == threads[1..];
    } else {
      assert threads[i := t][1..] == threads[1..][i - 1 := t];
      WeightsUpdate(threads[1..], i - 1, t);
    }
  }

  /** An upper bound on the steps left once destruction has begun. */
  function Left(s: State): nat {
    3 * |s.queue| + Weights(s.threads)
    + (match s.destroy case AwaitEmpty => 4 case SetAbort => 3 case Joining => 2 case Sweeping => 1 case _ => 0)
  }

  /** A thread that looks, finds nothing and goes back to wait. */
  predicate Idles(s: State, step: Step) {
    step.Look? && s.queue == [] && !s.abort
  }

  /** Once destruction has begun every step but an idle look uses up the bound. */
  lemma StepLeft(s: State, step: Step)
    requires Called(s) && Enabled(s, step)
    ensures Called(Next(s, step)) && if Idles(s, step) then Next(s, step) == s else Left(Next(s, step)) < Left(s)
  {
    match step {
      case TestAbort(i) => WeightsUpdate(s.threads, i, if s.abort then Gone else Looking);
      case Look(i) =>
        if s.queue != [] {
          WeightsUpdate(s.threads, i, Busy(s.queue[0]));
        } else {
          WeightsUpdate(s.threads, i, Gone);
        }
      case Finish(i) => WeightsUpdate(s.threads, i, AtTop);
      case _ =>
    }
  }

  /** No schedule of the steps that do something is longer than the bound. */
  lemma {:induction false} BoundedSchedules(s: State, steps: seq<Step>)
    requires Called(s) && Runs(s, steps) && Busily(s, steps)
    ensures |steps| <= Left(s)
    decreases |steps|
  {
    if steps != [] {
      StepLeft(s, steps[0]);
      BoundedSchedules(Next(s, steps[0]), steps[1..]);
    }
  }

  ghost predicate Busily(s: State, steps: seq<Step>)
    requires Runs(s, steps)
    decreases |steps|
  {
    steps != [] ==> !Idles(s, steps[0]) && Busily(Next(s, steps[0]), steps[1..])
  }

  function ThreadStep(t: Thread, i: nat): Step
    requires !t.Gone?
  {
    match t case AtTop => TestAbort(i) case Looking => Look(i) case Busy(_) => Finish(i)
  }

  /** Until destruction has returned, some step does something. */
  lemma HasStep(s: State) returns (step: Step)
    requires Phased(s) && Called(s) && !s.destroy.Returned? && s.threads != []
    ensures Enabled(s, step) && !Idles(s, step) && Phased(Next(s, step)) && Next(s, step).threads != []
  {
    match s.destroy {
      case AwaitEmpty =>
        if s.queue == [] {
          step := FoundEmpty;
        } else {
          step := ThreadStep(s.threads[0], 0);
        }
      case SetAbort =>
        step := Abort;
      case Joining =>
        if AllGone(s) {
          step := JoinAll;
        } else {
          var i :| 0 <= i < |s.threads| && !s.threads[i].Gone?;
          step := ThreadStep(s.threads[i], i);
        }
      case Sweeping =>
        step := if s.queue != [] then Sweep else Return;
    }
  }

  lemma {:induction false} DestroyCompletes(s: State) returns (steps: seq<Step>)
    requires Phased(s) && Called(s) && s.threads != []
    ensures Runs(s, steps) && |steps| <= Left(s) && Final(s, steps).destroy.Returned?
    decreases Left(s)
  {
    if s.destroy.Returned? {
      steps := [];
    } else {
      var step := HasStep(s);
      StepLeft(s, step);
      var rest := DestroyCompletes(Next(s, step));
      steps := [step] + rest;
      assert steps[1..] == rest;
    }
  }

  /** From every reachable state in which destruction has begun it can return, within the bound. */
  lemma DestroyReturns(nthreads: nat, steps: seq<Step>) returns (more: seq<Step>)
    requires nthreads > 0 && Runs(Start(nthreads), steps) && Called(Final(Start(nthreads), steps))
    ensures var s := Final(Start(nthreads), steps);
      Runs(s, more) && |more| <= Left(s) && Final(s, more).destroy.Returned?
  {
    RunPhased(Start(nthreads), steps);
    more := DestroyCompletes(Final(Start(nthreads), steps));
  }

  /** And every schedule gets there: where nothing but idle looks is left to do, destruction has returned. */
  lemma NeverStuck(nthreads: nat, steps: seq<Step>)
    requires nthreads > 0 && Runs(Start(nthreads), steps) && Called(Final(Start(nthreads), steps))
    requires forall step :: Enabled(Final(Start(nthreads), steps), step) ==> Idles(Final(Start(nthreads), steps), step)
    ensures Final(Start(nthreads), steps).destroy.Returned?
  {
    var s := Final(Start(nthreads), steps);
    RunPhased(Start(nthreads), steps);
    if !s.destroy.Returned? {
      var step := HasStep(s);
      assert false;
    }
  }

  /** `tp_kill_now` raises the flag whatever is queued; `tp_kill_wait` only once the queue was seen empty. */
  lemma WhenItAborts(s: State, kill: Kill)
    requires Enabled(s, CallDestroy(kill))
    ensures var t := Next(s, CallDestroy(kill));
      && t.queue == s.queue && t.threads == s.threads && !t.destroy.NotCalled?
      && (kill.KillNow? ==> Enabled(t, Abort))
      && (kill.KillWait? ==> !Enabled(t, Abort) && (Enabled(t, FoundEmpty) <==> t.queue == []))
      && (kill.KillWait? && t.queue == [] ==> Enabled(Next(t, FoundEmpty), Abort))
  {
  }
}
