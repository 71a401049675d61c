/**
 The send side: a blocking queue, and the protocol by which workers hand response
 bodies and wake-up tokens to the single sender thread.
 */
module SendProtocol {
  import opened Wrappers

  // ---------- The queue ----------

  /** What a waiting thread finds when its condition wait returns. */
  datatype Wake<T> = Wake(arrived: seq<T>, stopped: bool, timedOut: bool)

  class Queue<T> {
    var items: seq<T>
    var stopSign: bool

    constructor ()
      ensures items == [] && !stopSign
    {
      items, stopSign := [], false;
    }

    method Push(item: T)
      modifies this
      ensures items == old(items) + [item] && stopSign == old(stopSign)
    {
      items := items + [item];
    }

    /**
     Takes the oldest item. An empty queue is waited for at most once: a wake-up that
     finds neither an item nor a stop nor a timeout is reported like an abort.
     */
    method Get(timeout: int, w: Wake<T>) returns (code: int, item: Option<T>)
      modifies this
      ensures old(items) != [] ==>
        code == 1 && item == Some(old(items)[0]) && items == old(items)[1..] && stopSign == old(stopSign)
      ensures old(items) == [] && (old(stopSign) || timeout == 0) ==>
        code == 0 && item == None && items == [] && stopSign == old(stopSign)
      ensures old(items) == [] && !old(stopSign) && timeout != 0 ==>
        && stopSign == w.stopped
        && (code == 1 <==> w.arrived != [] && !w.stopped)
        && (code == 1 ==> item == Some(w.arrived[0]) && items == w.arrived[1..])
        && (code != 1 ==> item == None && items == w.arrived)
        && (code == 0 <==> w.arrived == [] && !w.stopped && w.timedOut && timeout > 0)
        && (code == -1 <==> w.stopped || (w.arrived == [] && !(w.timedOut && timeout > 0)))
    {
      item := None;
      if items == [] && !stopSign {
        if timeout == 0 {
          return 0, None;
        }
        items, stopSign := items + w.arrived, w.stopped;
        if stopSign {
          return -1, None;
        }
        if items == [] {
          return if w.timedOut && timeout > 0 then 0 else -1, None;
        }
      }
      if items != [] {
        item := Some(items[0]);
        items := items[1..];
        return 1, item;
      }
      code := 0;
    }
  }

  // ---------- The protocol ----------

  /** Connections are numbered by their place in the list of registered connections. */
  type Conn = nat

  /** The sender waits for a token, drains one connection, holds a body to send, or has ended. */
  datatype Sender<T> = Idle | Draining(conn: Conn) | Sending(conn: Conn, body: T) | Exited

  /** `half` is the connection whose body is queued while its token is not: the pusher holds the lock. */
  datatype State<T> = State(
    queues: seq<seq<T>>, tokens: seq<Conn>, sender: Sender<T>, half: Option<Conn>,
    queued: seq<seq<T>>, sent: seq<seq<T>>)

  datatype Step<T> =
    | PushBody(conn: Conn, body: T)
    | PushToken
    | TakeToken
    | WakeWithoutToken
    | GetBody
    | GetNone
    | SendDone

  function Append<T>(ss: seq<seq<T>>, i: nat, x: T): (r: seq<seq<T>>)
    requires i < |ss|
    ensures |r| == |ss|
  {
    ss[i := ss[i] + [x]]
  }

  predicate Enabled<T>(s: State<T>, step: Step<T>) {
    match step
    case PushBody(c, _) => s.half.None? && c < |s.queues|
    case PushToken => s.half.Some?
    case TakeToken => s.sender.Idle? && s.tokens != []
    case WakeWithoutToken => s.sender.Idle? && s.tokens == []
    case GetBody =>
      s.sender.Draining? && s.half.None? && s.sender.conn < |s.queues| && s.queues[s.sender.conn] != []
    case GetNone =>
      s.sender.Draining? && s.half.None? && s.sender.conn < |s.queues| && s.queues[s.sender.conn] == []
    case SendDone => s.sender.Sending? && s.sender.conn < |s.sent|
  }

  /** One atomic step; a body push also records the queueing order, a send the sending order. */
  function Next<T>(s: State<T>, step: Step<T>): State<T>
    requires Enabled(s, step) && |s.queued| == |s.queues|
  {
    match step
    case PushBody(c, b) =>
      s.(queues := Append(s.queues, c, b), queued := Append(s.queued, c, b), half := Some(c))
    case PushToken => s.(tokens := s.tokens + [s.half.value], half := None)
    case TakeToken => s.(tokens := s.tokens[1..], sender := Draining(s.tokens[0]))
    case WakeWithoutToken => s.(sender := Exited)
    case GetBody =>
      var c := s.sender.conn;
      s.(queues := s.queues[c := s.queues[c][1..]], sender := Sending(c, s.queues[c][0]))
    case GetNone => s.(sender := Idle)
    case SendDone =>
      s.(sent := Append(s.sent, s.sender.conn, s.sender.body), sender := Draining(s.sender.conn))
  }

  function Start<T>(n: nat): State<T> {
    var none := seq(n, _ => []);
    State(none, [], Idle, None, none, none)
  }

  function InHand<T>(s: State<T>, c: Conn): seq<T> {
    if s.sender.Sending? && s.sender.conn == c then [s.sender.body] else []
  }

  predicate Served<T>(s: State<T>, c: Conn) {
    || c in s.tokens
    || ((s.sender.Draining? || s.sender.Sending?) && s.sender.conn == c)
    || s.half == Some(c)
  }

  ghost predicate Inv<T>(s: State<T>) {
    && |s.queued| == |s.sent| == |s.queues|
    && (forall i :: 0 <= i < |s.tokens| ==> s.tokens[i] < |s.queues|)
    && (s.sender.Draining? || s.sender.Sending? ==> s.sender.conn < |s.queues|)
    && (s.half.Some? ==> s.half.value < |s.queues|)
    && (forall c :: 0 <= c < |s.queues| ==> s.queued[c] == s.sent[c] + InHand(s, c) + s.queues[c])
    && (forall c :: 0 <= c < |s.queues| && s.queues[c] != [] ==> Served(s, c))
  }

  lemma StartInv<T>(n: nat)
    ensures Inv(Start<T>(n))
  {
  }

  lemma StepInv<T>(s: State<T>, step: Step<T>)
    requires Inv(s) && Enabled(s, step)
    ensures Inv(Next(s, step))
  {
    var t := Next(s, step);
    forall c | 0 <= c < |t.queues|
      ensures t.queued[c] == t.sent[c] + InHand(t, c) + t.queues[c]
      ensures t.queues[c] != [] ==> Served(t, c)
    {
      StepBooks(s, step, c);
      StepServes(s, step, c);
    }
  }

  lemma StepBooks<T>(s: State<T>, step: Step<T>, c: Conn)
    requires Inv(s) && Enabled(s, step) && c < |s.queues|
    ensures var t := Next(s, step); t.queued[c] == t.sent[c] + InHand(t, c) + t.queues[c]
  {
    assert s.queued[c] == s.sent[c] + InHand(s, c) + s.queues[c];
  }

  lemma StepServes<T>(s: State<T>, step: Step<T>, c: Conn)
    requires Inv(s) && Enabled(s, step) && c < |s.queues|
    ensures var t := Next(s, step); t.queues[c] != [] ==> Served(t, c)
  {
    if step.TakeToken? {
      assert c in s.tokens ==> c == s.tokens[0] || c in s.tokens[1..];
    }
  }

  // ---------- Runs ----------

  ghost predicate Runs<T>(s: State<T>, steps: seq<Step<T>>)
    decreases |steps|
  {
    steps == [] || (|s.queued| == |s.queues| && Enabled(s, steps[0]) && Runs(Next(s, steps[0]), steps[1..]))
  }

  ghost function Final<T>(s: State<T>, steps: seq<Step<T>>): State<T>
    requires Runs(s, steps)
    decreases |steps|
  {
    if steps == [] then s else Final(Next(s, steps[0]), steps[1..])
  }

  /** The bodies that a run queues for `c`, read off its steps. */
  function PushedTo<T>(steps: seq<Step<T>>, c: Conn): seq<T> {
    if steps == [] then [] else PushedBy(steps[0], c) + PushedTo(steps[1..], c)
  }

  function PushedBy<T>(step: Step<T>, c: Conn): seq<T> {
    if step.PushBody? && step.conn == c then [step.body] else []
  }

  lemma StepQueues<T>(s: State<T>, step: Step<T>, c: Conn)
    requires Inv(s) && Enabled(s, step) && c < |s.queues|
    ensures var t := Next(s, step);
      |t.queues| == |t.queued| == |s.queued| && t.queued[c] == s.queued[c] + PushedBy(step, c)
  {
  }

  lemma {:induction false} RunInv<T>(s: State<T>, steps: seq<Step<T>>)
    requires Inv(s) && Runs(s, steps)
    ensures Inv(Final(s, steps)) && |Final(s, steps).queues| == |s.queues|
    decreases |steps|
  {
    if steps != [] {
      StepInv(s, steps[0]);
      RunInv(Next(s, steps[0]), steps[1..]);
    }
  }

  lemma {:induction false} RunQueues<T>(s: State<T>, steps: seq<Step<T>>, c: Conn)
    requires Inv(s) && Runs(s, steps) && c < |s.queues|
    ensures |Final(s, steps).queued| == |s.queued|
    ensures Final(s, steps).queued[c] == s.queued[c] + PushedTo(steps, c)
    decreases |steps|
  {
    if steps != [] {
      var t := Next(s, steps[0]);
      StepInv(s, steps[0]);
      StepQueues(s, steps[0], c);
      RunQueues(t, steps[1..], c);
      Regroup(s.queued[c], PushedBy(steps[0], c), PushedTo(steps[1..], c));
    } else {
      assert s.queued[c] + [] == s.queued[c];
    }
  }

  /**
   In every state of every run, what went out to a connection is a prefix of what was
   queued for it; a body still waiting has a token queued or is being drained, except
   while its pusher is between the two pushes.
   */
  lemma NoStrandedResponse<T>(n: nat, steps: seq<Step<T>>, c: Conn)
    requires Runs(Start(n), steps) && c < n
    ensures var t := Final(Start(n), steps);
      && |t.sent| == |t.queues| == n
      && PushedTo(steps, c) == t.sent[c] + InHand(t, c) + t.queues[c]
      && (t.queues[c] != [] ==> Served(t, c))
      && (t.half.None? && t.sender.Idle? && t.tokens == [] ==> t.sent[c] == PushedTo(steps, c))
  {
    StartInv<T>(n);
    RunInv(Start(n), steps);
    RunQueues(Start(n), steps, c);
    var t := Final(Start(n), steps);
    assert t.queued[c] == PushedTo(steps, c);
  }

  /** The tokens pushed in a run, and those that the sender took. */
  ghost function PushedTokens<T>(s: State<T>, steps: seq<Step<T>>): seq<Conn>
    requires Runs(s, steps)
    decreases |steps|
  {
    if steps == [] then []
    else (if steps[0].PushToken? then [s.half.value] else []) + PushedTokens(Next(s, steps[0]), steps[1..])
  }

  ghost function TakenTokens<T>(s: State<T>, steps: seq<Step<T>>): seq<Conn>
    requires Runs(s, steps)
    decreases |steps|
  {
    if steps == [] then []
    else
      var t := Next(s, steps[0]);
      (if steps[0].TakeToken? && t.sender.Draining? then [t.sender.conn] else []) + TakenTokens(t, steps[1..])
  }

  /** Tokens are taken in the order in which they were pushed, none lost and none twice. */
  lemma {:induction false} TokensInOrder<T>(s: State<T>, steps: seq<Step<T>>)
    requires Runs(s, steps)
    ensures s.tokens + PushedTokens(s, steps) == TakenTokens(s, steps) + Final(s, steps).tokens
    decreases |steps|
  {
    if steps != [] {
      var t := Next(s, steps[0]);
      TokensInOrder(t, steps[1..]);
      var pushed, taken := PushedTokens(t, steps[1..]), TakenTokens(t, steps[1..]);
      assert [] + pushed == pushed && [] + taken == taken;
      if steps[0].PushToken? {
        Regroup(s.tokens, [s.half.value], pushed);
      } else if steps[0].TakeToken? {
        assert s.tokens == [s.tokens[0]] + t.tokens;
        Regroup([s.tokens[0]], t.tokens, pushed);
        Regroup([s.tokens[0]], taken, Final(t, steps[1..]).tokens);
      }
    } else {
      assert s.tokens + [] == [] + s.tokens;
    }
  }

  // ---------- Progress ----------

  function Total<T>(qs: seq<seq<T>>): nat {
    if qs == [] then 0 else |qs[0]| + Total(qs[1..])
  }

  lemma {:induction false} TotalUpdate<T>(qs: seq<seq<T>>, i: nat, q: seq<T>)
    requires i < |qs|
    ensures Total(qs[i := q]) == Total(qs) - |qs[i]| + |q|
  {
    if i == 0 {
      assert qs[i := q][1..] == qs[1..];
    } else {
      assert qs[i := q][1..] == qs[1..][i - 1 := q];
      TotalUpdate(qs[1..], i - 1, q);
    }
  }

  /** An upper bound on the steps the sender can still take without new pushes. */
  function Work<T>(s: State<T>): nat {
    3 * Total(s.queues) + 2 * |s.tokens|
    + (match s.sender case Draining(_) => 1 case Sending(_, _) => 2 case _ => 0)
  }

  predicate Quiet<T>(s: State<T>) {
    s.sender.Idle? && s.tokens == []
  }

  /** The step that an undisturbed sender takes. */
  function SenderStep<T>(s: State<T>): (step: Step<T>)
    requires s.sender.Draining? ==> s.sender.conn < |s.queues|
  {
    match s.sender
    case Draining(c) => if s.queues[c] != [] then GetBody else GetNone
    case Sending(_, _) => SendDone
    case _ => TakeToken
  }

  lemma SenderStepWorks<T>(s: State<T>)
    requires Inv(s) && s.half.None? && !s.sender.Exited? && !Quiet(s)
    ensures var step := SenderStep(s);
      && Enabled(s, step)
      && Work(Next(s, step)) < Work(s)
      && !Next(s, step).sender.Exited? && Next(s, step).half.None?
      && Next(s, step).queued == s.queued
  {
    if s.sender.Draining? && s.queues[s.sender.conn] != [] {
      TotalUpdate(s.queues, s.sender.conn, s.queues[s.sender.conn][1..]);
    }
  }

  /** All steps are the sender's own. */
  ghost predicate NoPush<T>(steps: seq<Step<T>>) {
    forall i :: 0 <= i < |steps| ==> !steps[i].PushBody? && !steps[i].PushToken?
  }

  /**
   From every state in which the sender lives and no push is half done, at most `Work`
   further sender steps deliver every queued body.
   */
  lemma {:induction false} EverythingIsDelivered<T>(s: State<T>) returns (steps: seq<Step<T>>)
    requires Inv(s) && s.half.None? && !s.sender.Exited?
    ensures Runs(s, steps) && |steps| <= Work(s) && NoPush(steps)
    ensures Quiet(Final(s, steps)) && Final(s, steps).sent == s.queued
    decreases Work(s)
  {
    if Quiet(s) {
      steps := [];
      forall c | 0 <= c < |s.queues|
        ensures s.sent[c] == s.queued[c]
      {
        assert s.queued[c] == s.sent[c] + InHand(s, c) + s.queues[c];
        assert !Served(s, c);
      }
    } else {
      var step := SenderStep(s);
      SenderStepWorks(s);
      StepInv(s, step);
      var rest := EverythingIsDelivered(Next(s, step));
      steps := [step] + rest;
      assert steps[1..] == rest;
    }
  }

  /** Once the sender has ended, nothing is sent any more, whatever is pushed. */
  lemma {:induction false} NothingAfterExit<T>(s: State<T>, steps: seq<Step<T>>)
    requires Inv(s) && s.sender.Exited? && Runs(s, steps)
    ensures Final(s, steps).sender.Exited? && Final(s, steps).sent == s.sent
    decreases |steps|
  {
    if steps != [] {
      StepInv(s, steps[0]);
      NothingAfterExit(Next(s, steps[0]), steps[1..]);
    }
  }

  /** A wake-up that finds no token ends the sender, and a later body stays unsent for good. */
  lemma WakeWithoutTokenStrands<T>(b: T, more: seq<Step<T>>)
    requires Runs(Start(1), [WakeWithoutToken, PushBody(0, b), PushToken] + more)
    ensures var steps := [WakeWithoutToken, PushBody(0, b), PushToken] + more;
      Final(Start(1), steps).sent == [[]] && PushedTo(steps, 0) != []
  {
    var steps := [WakeWithoutToken, PushBody(0, b), PushToken] + more;
    StartInv<T>(1);
    var s := Next(Start<T>(1), WakeWithoutToken);
    StepInv(Start<T>(1), WakeWithoutToken);
    NothingAfterExit(s, steps[1..]);
    assert s.sent == [[]];
    assert steps[1..][0] == PushBody(0, b);
    assert PushedTo(steps[1..], 0) == [b] + PushedTo(steps[2..], 0) by {
      assert steps[1..][1..] == steps[2..];
    }
  }

  /** The sender ends in a run exactly if one of its wake-ups found no token. */
  lemma {:induction false} ExitedExactly<T>(s: State<T>, steps: seq<Step<T>>)
    requires Inv(s) && Runs(s, steps)
    ensures Final(s, steps).sender.Exited? <==> s.sender.Exited? || WakeWithoutToken in steps
    decreases |steps|
  {
    if steps != [] {
      StepInv(s, steps[0]);
      ExitedExactly(Next(s, steps[0]), steps[1..]);
      assert steps == [steps[0]] + steps[1..];
    }
  }

  /** The sender's own steps queue nothing. */
  lemma {:induction false} NoPushQueues<T>(s: State<T>, steps: seq<Step<T>>)
    requires Inv(s) && Runs(s, steps) && NoPush(steps)
    ensures Final(s, steps).queued == s.queued
    decreases |steps|
  {
    if steps != [] {
      StepInv(s, steps[0]);
      NoPushQueues(Next(s, steps[0]), steps[1..]);
    }
  }

  /** Some further steps of the sender send everything queued so far. */
  ghost predicate Deliverable<T(!new)>(t: State<T>) {
    exists more :: Runs(t, more) && NoPush(more) && Final(t, more).sent == t.queued
  }

  /**
   After every run that is not inside a push, what was queued can still be delivered
   exactly if no wake-up came without a token, or nothing was left to send.
   */
  lemma DeliveryExactly<T(!new)>(n: nat, steps: seq<Step<T>>)
    requires Runs(Start(n), steps) && Final(Start(n), steps).half.None?
    ensures var t := Final(Start(n), steps);
      Deliverable(t) <==> WakeWithoutToken !in steps || t.sent == t.queued
  {
    var t := Final(Start(n), steps);
    StartInv<T>(n);
    RunInv(Start(n), steps);
    ExitedExactly(Start(n), steps);
    if t.sender.Exited? {
      if Deliverable(t) {
        var more :| Runs(t, more) && NoPush(more) && Final(t, more).sent == t.queued;
        NothingAfterExit(t, more);
      }
      if t.sent == t.queued {
        assert Runs(t, []) && NoPush<T>([]) && Final(t, []).sent == t.queued;
      }
    } else {
      var more := EverythingIsDelivered(t);
      assert Runs(t, more) && NoPush(more);
    }
  }

  // ---------- The same on the queues of the program ----------

  /**
   The queues of the manager, with the positions of the sender thread (`sender`) and
   of a pusher between its two pushes (`half`).
   */
  class Io<T> {
    const tokens: Queue<Conn>
    const sends: seq<Queue<T>>
    var sender: Sender<T>
    var half: Option<Conn>
    var sent: seq<seq<T>>
    ghost var queued: seq<seq<T>>

    /** The fields and queues hold the state `s` of the protocol. */
    ghost predicate Shows(s: State<T>)
      reads this, tokens, sends
    {
      && (forall i, j :: 0 <= i < j < |sends| ==> sends[i] != sends[j])
      && (forall i :: 0 <= i < |sends| ==> sends[i] as object != tokens)
      && !tokens.stopSign && tokens.items == s.tokens
      && |sends| == |s.queues| && (forall i :: 0 <= i < |sends| ==> sends[i].items == s.queues[i])
      && sender == s.sender && half == s.half && sent == s.sent && queued == s.queued
    }

    constructor (n: nat)
      ensures Shows(Start(n)) && fresh(tokens) && forall i :: 0 <= i < |sends| ==> fresh(sends[i])
    {
      var qs: seq<Queue<T>> := [];
      var t := new Queue<Conn>();
      for i := 0 to n
        invariant |qs| == i && fresh(t) && t.items == [] && !t.stopSign
        invariant forall k :: 0 <= k < i ==> fresh(qs[k]) && qs[k].items == [] && qs[k] as object != t
        invariant forall j, k :: 0 <= j < k < i ==> qs[j] != qs[k]
      {
        var q := new Queue<T>();
        qs := qs + [q];
      }
      tokens, sends := t, qs;
      sender, half, sent, queued := Idle, None, seq(n, _ => []), seq(n, _ => []);
    }

    method PushBody(c: Conn, b: T, ghost s: State<T>)
      requires Inv(s) && Shows(s) && Enabled(s, Step.PushBody(c, b))
      modifies this, tokens, sends
      ensures Shows(Next(s, Step.PushBody(c, b)))
    {
      sends[c].Push(b);
      queued := Append(queued, c, b);
      half := Some(c);
    }

    method PushToken(ghost s: State<T>)
      requires Inv(s) && Shows(s) && Enabled(s, Step.PushToken)
      modifies this, tokens, sends
      ensures Shows(Next(s, Step.PushToken))
    {
      tokens.Push(half.value);
      half := None;
    }

    /**
     The sender waits for a token. Tokens pushed while it waits are in `w`; unless the
     queue was stopped, the outcome is a token taken or a wake-up without one.
     */
    method Wait(w: Wake<Conn>, ghost s: State<T>)
      requires Inv(s) && Shows(s) && s.sender.Idle?
      modifies this, tokens, sends
      ensures s.tokens == [] && w.stopped ==> sender.Exited?
      ensures s.tokens != [] || !w.stopped ==>
        var woken := s.(tokens := if s.tokens == [] then w.arrived else s.tokens);
        Shows(Next(woken, if woken.tokens != [] then TakeToken else WakeWithoutToken))
    {
      var code, item := tokens.Get(-1, w);
      sender := if code == 1 then Draining(item.value) else Exited;
    }

    /** The sender asks the connection it drains for a body, without waiting. */
    method Poll(ghost s: State<T>)
      requires Inv(s) && Shows(s) && s.sender.Draining? && s.half.None?
      modifies this, tokens, sends
      ensures Shows(Next(s, if s.queues[s.sender.conn] != [] then GetBody else GetNone))
    {
      var c := sender.conn;
      var code, item := sends[c].Get(0, Wake([], false, false));
      sender := if code == 1 then Sending(c, item.value) else Idle;
    }

    method Transmit(ghost s: State<T>)
      requires Inv(s) && Shows(s) && Enabled(s, SendDone)
      modifies this, tokens, sends
      ensures Shows(Next(s, SendDone))
    {
      sent := Append(sent, sender.conn, sender.body);
      sender := Draining(sender.conn);
    }

    /** One step of the protocol, by the queue operations that the program performs for it. */
    method Perform(step: Step<T>, ghost s: State<T>)
      requires Inv(s) && Shows(s) && Enabled(s, step)
      modifies this, tokens, sends
      ensures Shows(Next(s, step))
    {
      match step {
        case PushBody(c, b) => PushBody(c, b, s);
        case PushToken => PushToken(s);
        case TakeToken => Wait(Wake([], false, false), s);
        case WakeWithoutToken => Wait(Wake([], false, false), s);
        case GetBody => Poll(s);
        case GetNone => Poll(s);
        case SendDone => Transmit(s);
      }
    }

    method PerformAll(steps: seq<Step<T>>, ghost s: State<T>)
      requires Inv(s) && Shows(s) && Runs(s, steps)
      modifies this, tokens, sends
      ensures Shows(Final(s, steps))
      decreases |steps|
    {
      if steps != [] {
        Perform(steps[0], s);
        StepInv(s, steps[0]);
        PerformAll(steps[1..], Next(s, steps[0]));
      }
    }
  }

  /**
   Every run, performed on the queues: what reached the sockets of a connection, what
   the sender holds and what waits is what was pushed to it, in order.
   */
  method Execute<T>(n: nat, steps: seq<Step<T>>) returns (io: Io<T>)
    requires Runs(Start(n), steps)
    ensures io.Shows(Final(Start(n), steps)) && |io.sends| == |io.sent| == n
    ensures forall c :: 0 <= c < n ==>
      PushedTo(steps, c) == io.sent[c] + InHand(Final(Start(n), steps), c) + io.sends[c].items
  {
    io := new Io(n);
    StartInv<T>(n);
    io.PerformAll(steps, Start(n));
    forall c | 0 <= c < n
      ensures |io.sends| == |io.sent| == n
      ensures PushedTo(steps, c) == io.sent[c] + InHand(Final(Start(n), steps), c) + io.sends[c].items
    {
      NoStrandedResponse(n, steps, c);
    }
    RunInv(Start(n), steps);
  }
}
