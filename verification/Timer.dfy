/** Periodic timers: the clock's methods, and bounds on how often a timer fires in any run. */
module Timer {

  // ---------- Elapsed time ----------

  const MICRO := 1_000_000

  class Timeval {
    var sec: int
    var usec: int

    ghost predicate Valid()
      reads this
    {
      0 <= usec < MICRO
    }

    ghost function Micros(): int
      reads this
    {
      sec * MICRO + usec
    }

    constructor (sec: int, usec: int)
      ensures this.sec == sec && this.usec == usec
    {
      this.sec, this.usec := sec, usec;
    }
  }

  /** `my_timer_sub`: whole milliseconds, rounded down; `now` is left holding the difference. */
  method MillisBetween(now: Timeval, last: Timeval) returns (r: int)
    requires now != last && now.Valid() && last.Valid()
    modifies now
    ensures now.Valid() && now.Micros() == old(now.Micros()) - last.Micros()
    ensures r * 1000 <= old(now.Micros()) - last.Micros() < (r + 1) * 1000
  {
    now.usec := now.usec - last.usec;
    if now.usec < 0 {
      now.sec := now.sec - 1;
      now.usec := now.usec + MICRO;
    }
    now.sec := now.sec - last.sec;
    r := now.sec * 1000 + now.usec / 1000;
  }

  // ---------- The clock on values ----------

  datatype Item = Item(id: int, period: int, remaining: int, deleted: bool)

  /** What a callback does: ask for its own end, and delete timers. */
  datatype Act = Act(abort: bool, deletes: set<int>)

  function Charged(t: Item, elapsed: int): Item {
    if t.remaining == 0 then t
    else if t.remaining - elapsed < 0 then t.(remaining := 0)
    else t.(remaining := t.remaining - elapsed)
  }

  /** Drops the timers signed as deleted and charges the others. */
  function Synced(ts: seq<Item>, elapsed: int): seq<Item> {
    if ts == [] then []
    else
      var t := ts[|ts| - 1];
      Synced(ts[..|ts| - 1], elapsed) + if t.deleted then [] else [Charged(t, elapsed)]
  }

  function Due(ts: seq<Item>): seq<int> {
    if ts == [] then []
    else
      var t := ts[|ts| - 1];
      Due(ts[..|ts| - 1]) + if t.remaining == 0 then [t.id] else []
  }

  /** Some due timer's callback deletes timer `id`. */
  ghost predicate Killed(ts: seq<Item>, acts: int -> Act, id: int) {
    exists k :: 0 <= k < |ts| && ts[k].remaining == 0 && id in acts(ts[k].id).deletes
  }

  ghost function Rung(ts: seq<Item>, acts: int -> Act, t: Item): Item {
    var ends := t.remaining == 0 && acts(t.id).abort;
    t.(deleted := t.deleted || ends || Killed(ts, acts, t.id),
       remaining := if t.remaining == 0 && !ends then t.period else t.remaining)
  }

  ghost function RungAll(ts: seq<Item>, acts: int -> Act): seq<Item> {
    seq(|ts|, j requires 0 <= j < |ts| => Rung(ts, acts, ts[j]))
  }

  function Flag(t: Item, ids: set<int>): Item {
    if t.id in ids then t.(deleted := true) else t
  }

  function FlagAll(ts: seq<Item>, ids: set<int>): (r: seq<Item>)
    ensures |r| == |ts|
  {
    seq(|ts|, j requires 0 <= j < |ts| => Flag(ts[j], ids))
  }

  ghost predicate Distinct(ts: seq<Item>) {
    forall i, j :: 0 <= i < j < |ts| ==> ts[i].id != ts[j].id
  }

  // ---------- The clock in place ----------

  class Clock {
    var timers: seq<Item>
    var stop: bool

    constructor ()
      ensures timers == [] && !stop
    {
      timers, stop := [], false;
    }

    /** `timer_create`. */
    method Create(id: int, milliseconds: int)
      modifies this`timers
      ensures timers == old(timers) + [Item(id, milliseconds, milliseconds, false)]
    {
      timers := timers + [Item(id, milliseconds, milliseconds, false)];
    }

    /** `timer_del`: signs the timer as deleted, if it is still listed. */
    method Delete(id: int) returns (r: int)
      requires Distinct(timers)
      modifies this`timers
      ensures timers == FlagAll(old(timers), {id})
      ensures r == if exists t :: t in old(timers) && t.id == id then 0 else -1
    {
      for i := 0 to |timers|
        invariant timers == old(timers) && forall j :: 0 <= j < i ==> timers[j].id != id
      {
        if timers[i].id == id {
          assert timers[i] in old(timers);
          timers := timers[i := timers[i].(deleted := true)];
          return 0;
        }
      }
      return -1;
    }

    /** `timer_synchronize`, given the time measured. */
    method Synchronize(elapsed: int) returns (r: int)
      modifies this`timers
      ensures r == if stop then -1 else 0
      ensures timers == if stop then [] else Synced(old(timers), elapsed)
    {
      var kept := [];
      for i := 0 to |timers|
        invariant timers == old(timers)
        invariant kept == if stop then [] else Synced(timers[..i], elapsed)
      {
        assert timers[..i + 1][..i] == timers[..i];
        var t := timers[i];
        if !(t.deleted || stop) {
          if t.remaining != 0 {
            t := t.(remaining := t.remaining - elapsed);
            if t.remaining < 0 {
              t := t.(remaining := 0);
            }
          }
          kept := kept + [t];
        }
      }
      assert timers[..|timers|] == timers;
      timers := kept;
      r := if stop then -1 else 0;
    }

    /** The callback loop of `timer_step`. */
    method Ring(acts: int -> Act) returns (fired: seq<int>)
      modifies this`timers
      ensures timers == RungAll(old(timers), acts) && fired == Due(old(timers))
    {
      ghost var was := timers;
      fired := [];
      for i := 0 to |timers|
        invariant |timers| == |was| && fired == Due(was[..i])
        invariant forall j :: 0 <= j < |was| ==> timers[j] == Midway(was, acts, i, j)
      {
        assert was[..i + 1][..i] == was[..i];
        var id := timers[i].id;
        if timers[i].remaining == 0 {
          var act := acts(id);
          timers := FlagAll(timers, act.deletes);
          fired := fired + [id];
          if act.abort {
            timers := timers[i := timers[i].(deleted := true)];
          } else {
            timers := timers[i := timers[i].(remaining := timers[i].period)];
          }
        }
      }
      assert was[..|was|] == was;
    }

    /** `timer_step`. */
    method Step(elapsed: int, acts: int -> Act) returns (r: int, fired: seq<int>)
      modifies this`timers
      ensures r == if stop then -1 else 0
      ensures timers == if stop then [] else RungAll(Synced(old(timers), elapsed), acts)
      ensures fired == if stop then [] else Due(Synced(old(timers), elapsed))
    {
      r := Synchronize(elapsed);
      fired := [];
      if r != -1 {
        fired := Ring(acts);
      }
    }
  }

  /** Timer `j` once the first `i` timers have been looked at. */
  ghost function Midway(ts: seq<Item>, acts: int -> Act, i: nat, j: nat): Item
    requires i <= |ts| && j < |ts|
  {
    var t := ts[j];
    var ends := j < i && t.remaining == 0 && acts(t.id).abort;
    t.(deleted := t.deleted || ends || Killed(ts[..i], acts, t.id),
       remaining := if j < i && t.remaining == 0 && !ends then t.period else t.remaining)
  }

  // ---------- Runs ----------

  datatype State = State(timers: seq<Item>, stop: bool)

  datatype Event =
    | Tick(elapsed: int, acts: int -> Act)
    | Create(id: int, milliseconds: int)
    | Delete(id: int)
    | Stop

  ghost function Apply(c: State, ev: Event): State {
    match ev
    case Tick(e, acts) => c.(timers := if c.stop then [] else RungAll(Synced(c.timers, e), acts))
    case Create(id, ms) => c.(timers := c.timers + [Item(id, ms, ms, false)])
    case Delete(id) => c.(timers := FlagAll(c.timers, {id}))
    case Stop => c.(stop := true)
  }

  ghost function Run(c: State, evs: seq<Event>): State {
    if evs == [] then c else Apply(Run(c, evs[..|evs| - 1]), evs[|evs| - 1])
  }

  /** The timer is listed and not signed as deleted. */
  ghost predicate Live(c: State, x: int) {
    !c.stop && exists t :: t in c.timers && t.id == x && !t.deleted
  }

  ghost predicate Fires(c: State, ev: Event, x: int) {
    ev.Tick? && !c.stop && x in Due(Synced(c.timers, ev.elapsed))
  }

  /** Time that an event takes off timer `x`. */
  ghost function Cost(c: State, ev: Event, x: int): int {
    if ev.Tick? && Live(c, x) then ev.elapsed else 0
  }

  ghost function Firings(c: State, evs: seq<Event>, x: int): nat {
    if evs == [] then 0
    else
      var most, ev := evs[..|evs| - 1], evs[|evs| - 1];
      Firings(c, most, x) + if Fires(Run(c, most), ev, x) then 1 else 0
  }

  ghost function Elapsed(c: State, evs: seq<Event>, x: int): int {
    if evs == [] then 0
    else
      var most, ev := evs[..|evs| - 1], evs[|evs| - 1];
      Elapsed(c, most, x) + Cost(Run(c, most), ev, x)
  }

  lemma {:induction false} SyncedFrom(ts: seq<Item>, elapsed: int, t: Item)
    ensures t in Synced(ts, elapsed) <==> exists u :: u in ts && !u.deleted && t == Charged(u, elapsed)
  {
    if ts != [] {
      var u := ts[|ts| - 1];
      SyncedFrom(ts[..|ts| - 1], elapsed, t);
      assert ts == ts[..|ts| - 1] + [u];
    }
  }

  lemma {:induction false} DueFrom(ts: seq<Item>, x: int)
    ensures x in Due(ts) <==> exists t :: t in ts && t.remaining == 0 && t.id == x
  {
    if ts != [] {
      DueFrom(ts[..|ts| - 1], x);
      assert ts == ts[..|ts| - 1] + [ts[|ts| - 1]];
    }
  }

  /** A listed timer fires exactly when the clock runs, it was not signed as deleted
      before the step, and its time is up: the callbacks of the same step do not matter. */
  lemma FiresExactly(c: State, ev: Event, x: int)
    ensures Fires(c, ev, x) <==>
      ev.Tick? && !c.stop && exists u :: u in c.timers && !u.deleted && u.id == x && Charged(u, ev.elapsed).remaining == 0
  {
    if ev.Tick? {
      var ts := Synced(c.timers, ev.elapsed);
      DueFrom(ts, x);
      if x in Due(ts) {
        var t :| t in ts && t.remaining == 0 && t.id == x;
        SyncedFrom(c.timers, ev.elapsed, t);
      }
      forall u | u in c.timers && !u.deleted && u.id == x && Charged(u, ev.elapsed).remaining == 0
        ensures Charged(u, ev.elapsed) in ts
      {
        SyncedFrom(c.timers, ev.elapsed, Charged(u, ev.elapsed));
      }
    }
  }

  /** Once not live, and not created anew, a timer never fires and is never live again. */
  lemma DeadStays(c: State, ev: Event, x: int)
    requires !Live(c, x) && (ev.Create? ==> ev.id != x)
    ensures !Fires(c, ev, x) && !Live(Apply(c, ev), x)
  {
    FiresExactly(c, ev, x);
    if Live(Apply(c, ev), x) {
      var t :| t in Apply(c, ev).timers && t.id == x && !t.deleted;
      if ev.Tick? {
        var ts := Synced(c.timers, ev.elapsed);
        var j :| 0 <= j < |ts| && t == Rung(ts, ev.acts, ts[j]);
        SyncedFrom(c.timers, ev.elapsed, ts[j]);
      }
      assert false;
    }
  }

  lemma {:induction false} NeverAgain(c: State, evs: seq<Event>, x: int)
    requires !Live(c, x)
    requires forall i :: 0 <= i < |evs| && evs[i].Create? ==> evs[i].id != x
    ensures Firings(c, evs, x) == 0 && !Live(Run(c, evs), x)
  {
    if evs != [] {
      NeverAgain(c, evs[..|evs| - 1], x);
      DeadStays(Run(c, evs[..|evs| - 1]), evs[|evs| - 1], x);
    }
  }

  /** A callback that aborts its timer, or a deletion, ends it. */
  lemma EndedIsDead(c: State, ev: Event, x: int)
    requires Sole(c.timers, x)
    requires ev == Delete(x) || ev == Stop || (Fires(c, ev, x) && (ev.acts(x).abort || x in ev.acts(x).deletes))
    ensures !Live(Apply(c, ev), x)
  {
    if ev.Tick? && Live(Apply(c, ev), x) {
      var ts := Synced(c.timers, ev.elapsed);
      var t :| t in Apply(c, ev).timers && t.id == x && !t.deleted;
      var j :| 0 <= j < |ts| && t == Rung(ts, ev.acts, ts[j]);
      DueFrom(ts, x);
      SyncedSole(c.timers, ev.elapsed, x);
      assert false;
    }
  }

  /** At most one listed timer has the address `x`. */
  ghost predicate Sole(ts: seq<Item>, x: int) {
    forall i, j :: 0 <= i < j < |ts| ==> ts[i].id != x || ts[j].id != x
  }

  lemma {:induction false} SyncedSole(ts: seq<Item>, elapsed: int, x: int)
    requires Sole(ts, x)
    ensures Sole(Synced(ts, elapsed), x)
  {
    if ts != [] {
      var most, u := ts[..|ts| - 1], ts[|ts| - 1];
      SyncedSole(most, elapsed, x);
      forall t | t in Synced(most, elapsed)
        ensures t.id != x || u.id != x
      {
        SyncedFrom(most, elapsed, t);
      }
    }
  }

  /** A timer deleted by an earlier callback of the same step still fires in it. */
  lemma DeletedStillFires()
    ensures exists c: State, ev: Event ::
      Distinct(c.timers) && Fires(c, ev, 1) && Fires(c, ev, 2) && 2 in ev.acts(1).deletes && !Live(Apply(c, ev), 2)
  {
    var one, two := Item(1, 5, 5, false), Item(2, 5, 5, false);
    var c := State([one, two], false);
    var ev := Tick(5, id => Act(false, if id == 1 then {2} else {}));
    assert one in c.timers && two in c.timers;
    FiresExactly(c, ev, 1);
    FiresExactly(c, ev, 2);
    var ts := Synced(c.timers, 5);
    DueFrom(ts, 1);
    var t :| t in ts && t.remaining == 0 && t.id == 1;
    var k :| 0 <= k < |ts| && ts[k] == t;
    assert Killed(ts, ev.acts, 2);
  }

  ghost predicate Counting(c: State) {
    forall t :: t in c.timers ==> t.period >= 0 && t.remaining >= 0
  }

  /** The time remaining is never negative in any run of timers with non-negative periods. */
  lemma {:induction false} NeverNegative(c: State, evs: seq<Event>)
    requires Counting(c) && forall i :: 0 <= i < |evs| && evs[i].Create? ==> evs[i].milliseconds >= 0
    ensures Counting(Run(c, evs))
  {
    if evs != [] {
      var d, ev := Run(c, evs[..|evs| - 1]), evs[|evs| - 1];
      NeverNegative(c, evs[..|evs| - 1]);
      if ev.Tick? {
        forall t | t in Synced(d.timers, ev.elapsed)
          ensures t.period >= 0 && t.remaining >= 0
        {
          SyncedFrom(d.timers, ev.elapsed, t);
        }
      }
    }
  }

  /** The event does not end timer `x`: no deletion, no stop, no abort by its callback. */
  ghost predicate Spares(c: State, ev: Event, x: int) {
    && ev != Delete(x) && ev != Stop
    && (ev.Tick? ==>
          && (Fires(c, ev, x) ==> !ev.acts(x).abort)
          && !Killed(Synced(c.timers, ev.elapsed), ev.acts, x))
  }

  /** A live timer stays live exactly through the events that do not end it. */
  lemma SurvivesExactly(c: State, ev: Event, x: int)
    requires Live(c, x) && Sole(c.timers, x) && (ev.Create? ==> ev.id != x)
    ensures Live(Apply(c, ev), x) <==> Spares(c, ev, x)
  {
    var u :| u in c.timers && u.id == x && !u.deleted;
    match ev {
      case Tick(e, acts) => TickSurvives(c, ev, x, u);
      case Create(id, ms) => assert u in Apply(c, ev).timers;
      case Delete(id) =>
        var k :| 0 <= k < |c.timers| && c.timers[k] == u;
        assert FlagAll(c.timers, {id})[k] == Flag(u, {id});
      case Stop =>
    }
  }

  lemma TickSurvives(c: State, ev: Event, x: int, u: Item)
    requires ev.Tick? && !c.stop && Sole(c.timers, x) && u in c.timers && u.id == x && !u.deleted
    ensures Live(Apply(c, ev), x) <==> Spares(c, ev, x)
  {
    var ts := Synced(c.timers, ev.elapsed);
    var v := Charged(u, ev.elapsed);
    SyncedFrom(c.timers, ev.elapsed, v);
    SyncedSole(c.timers, ev.elapsed, x);
    DueFrom(ts, x);
    var k :| 0 <= k < |ts| && ts[k] == v;
    assert RungAll(ts, ev.acts)[k] == Rung(ts, ev.acts, v);
    assert Rung(ts, ev.acts, v) in Apply(c, ev).timers;
    if Live(Apply(c, ev), x) {
      var t :| t in Apply(c, ev).timers && t.id == x && !t.deleted;
      var j :| 0 <= j < |ts| && t == Rung(ts, ev.acts, ts[j]);
      assert j == k;
    }
  }

  // ---------- Pace ----------

  /** The firings took at least `low` and at most `high`, and the rest is the running period's. */
  ghost predicate Paced(c: State, x: int, ms: int, low: int, high: int, spent: int) {
    && low <= spent <= high + ms - 1
    && forall t :: t in c.timers && t.id == x && !t.deleted ==>
         t.period == ms && 0 < t.remaining <= ms && low + (ms - t.remaining) <= spent <= high + (ms - t.remaining)
  }

  lemma TickPaced(c: State, ev: Event, x: int, ms: int, bound: int, low: int, high: int, spent: int)
    requires ms > 0 && Sole(c.timers, x) && Paced(c, x, ms, low, high, spent)
    requires ev.Tick? && !c.stop && 0 <= ev.elapsed <= bound
    ensures if Fires(c, ev, x)
      then Paced(Apply(c, ev), x, ms, low + ms, high + (ms + bound - 1), spent + Cost(c, ev, x))
      else Paced(Apply(c, ev), x, ms, low, high, spent + Cost(c, ev, x))
  {
    var ts := Synced(c.timers, ev.elapsed);
    FiresExactly(c, ev, x);
    if !Live(c, x) {
      DeadStays(c, ev, x);
    } else {
      var u :| u in c.timers && u.id == x && !u.deleted;
      var after := Apply(c, ev);
      forall t | t in after.timers && t.id == x
        ensures exists j :: 0 <= j < |ts| && t == Rung(ts, ev.acts, ts[j]) && ts[j] == Charged(u, ev.elapsed)
      {
        var j :| 0 <= j < |ts| && t == Rung(ts, ev.acts, ts[j]);
        SyncedFrom(c.timers, ev.elapsed, ts[j]);
      }
    }
  }

  lemma StepPaced(c: State, ev: Event, x: int, ms: int, bound: int, low: int, high: int, spent: int)
    requires ms > 0 && Sole(c.timers, x) && Paced(c, x, ms, low, high, spent)
    requires (ev.Create? ==> ev.id != x) && (ev.Tick? ==> 0 <= ev.elapsed <= bound)
    ensures if Fires(c, ev, x)
      then Paced(Apply(c, ev), x, ms, low + ms, high + (ms + bound - 1), spent + Cost(c, ev, x))
      else Paced(Apply(c, ev), x, ms, low, high, spent + Cost(c, ev, x))
    ensures Sole(Apply(c, ev).timers, x)
  {
    if ev.Tick? && !c.stop {
      SyncedSole(c.timers, ev.elapsed, x);
      TickPaced(c, ev, x, ms, bound, low, high, spent);
    }
  }

  /** `k` times `m`, added up. */
  function Times(k: nat, m: int): int {
    if k == 0 then 0 else Times(k - 1, m) + m
  }

  lemma {:induction false} TimesProduct(k: nat, m: int)
    ensures Times(k, m) == k * m
  {
    if k > 0 {
      TimesProduct(k - 1, m);
    }
  }

  lemma {:induction false} PaceAccount(c: State, evs: seq<Event>, x: int, ms: int, bound: int)
    requires ms > 0 && bound >= 0 && (forall t :: t in c.timers ==> t.id != x)
    requires evs != [] && evs[0] == Create(x, ms)
    requires forall i :: 0 < i < |evs| && evs[i].Create? ==> evs[i].id != x
    requires forall i :: 0 < i < |evs| && evs[i].Tick? ==> 0 <= evs[i].elapsed <= bound
    ensures var k, spent := Firings(c, evs, x), Elapsed(c, evs, x);
      && Sole(Run(c, evs).timers, x)
      && Paced(Run(c, evs), x, ms, Times(k, ms), Times(k, ms + bound - 1), spent)
  {
    var most, ev := evs[..|evs| - 1], evs[|evs| - 1];
    var k, spent := Firings(c, most, x), Elapsed(c, most, x);
    if most == [] {
      assert Run(c, evs).timers == c.timers + [Item(x, ms, ms, false)];
    } else {
      PaceAccount(c, most, x, ms, bound);
      StepPaced(Run(c, most), ev, x, ms, bound, Times(k, ms), Times(k, ms + bound - 1), spent);
    }
  }

  /** From its creation on, a timer of period `ms` that has fired `k` times has spent
      at least `k` periods, and less than `k + 1` periods lengthened by one tick each. */
  lemma Pace(c: State, evs: seq<Event>, x: int, ms: int, bound: int)
    requires ms > 0 && bound >= 0 && (forall t :: t in c.timers ==> t.id != x)
    requires evs != [] && evs[0] == Create(x, ms)
    requires forall i :: 0 < i < |evs| && evs[i].Create? ==> evs[i].id != x
    requires forall i :: 0 < i < |evs| && evs[i].Tick? ==> 0 <= evs[i].elapsed <= bound
    ensures var k, spent := Firings(c, evs, x), Elapsed(c, evs, x);
      k * ms <= spent < (k + 1) * (ms + bound)
  {
    PaceAccount(c, evs, x, ms, bound);
    PaceProduct(Firings(c, evs, x), ms, bound, Elapsed(c, evs, x));
  }

  lemma PaceProduct(k: nat, ms: int, bound: int, spent: int)
    requires ms > 0 && bound >= 0 && Times(k, ms) <= spent <= Times(k, ms + bound - 1) + ms - 1
    ensures k * ms <= spent < (k + 1) * (ms + bound)
  {
    TimesProduct(k, ms);
    TimesProduct(k, ms + bound - 1);
    Scaled(k, ms, bound);
  }

  lemma Scaled(k: nat, ms: int, bound: int)
    requires ms > 0 && bound >= 0
    ensures k * (ms + bound - 1) + ms - 1 < (k + 1) * (ms + bound)
  {
    assert (k + 1) * (ms + bound) == k * (ms + bound - 1) + k + ms + bound;
  }

  /** No event of the run ends timer `x`. */
  ghost predicate Spared(c: State, evs: seq<Event>, x: int) {
    forall i :: 0 <= i < |evs| ==> Spares(Run(c, evs[..i]), evs[i], x)
  }

  /** All the time that passes in a run. */
  ghost function Passed(evs: seq<Event>): int {
    if evs == [] then 0
    else Passed(evs[..|evs| - 1]) + if evs[|evs| - 1].Tick? then evs[|evs| - 1].elapsed else 0
  }

  /** A timer that nothing ends lives through the whole run, and all the time of the run is charged to it. */
  lemma {:induction false} SparedLives(c: State, evs: seq<Event>, x: int, ms: int, bound: int)
    requires ms > 0 && bound >= 0 && !c.stop && (forall t :: t in c.timers ==> t.id != x)
    requires evs != [] && evs[0] == Create(x, ms) && Spared(c, evs, x)
    requires forall i :: 0 < i < |evs| && evs[i].Create? ==> evs[i].id != x
    requires forall i :: 0 < i < |evs| && evs[i].Tick? ==> 0 <= evs[i].elapsed <= bound
    ensures Live(Run(c, evs), x) && Elapsed(c, evs, x) == Passed(evs)
  {
    var most, ev := evs[..|evs| - 1], evs[|evs| - 1];
    if most == [] {
      assert Run(c, evs).timers == c.timers + [Item(x, ms, ms, false)];
      assert Item(x, ms, ms, false) in Run(c, evs).timers;
    } else {
      assert forall i :: 0 <= i < |most| ==> most[..i] == evs[..i] && most[i] == evs[i];
      SparedLives(c, most, x, ms, bound);
      PaceAccount(c, most, x, ms, bound);
      assert Spares(Run(c, evs[..|evs| - 1]), evs[|evs| - 1], x);
      SurvivesExactly(Run(c, most), ev, x);
    }
  }

  /**
   Over every run that does not end it, a timer of period `ms` fires again and again: after
   `k` firings the time passed since its creation is at least `k` periods and less than
   `k + 1` periods lengthened by one tick each.
   */
  lemma KeepsFiring(c: State, evs: seq<Event>, x: int, ms: int, bound: int)
    requires ms > 0 && bound >= 0 && !c.stop && (forall t :: t in c.timers ==> t.id != x)
    requires evs != [] && evs[0] == Create(x, ms) && Spared(c, evs, x)
    requires forall i :: 0 < i < |evs| && evs[i].Create? ==> evs[i].id != x
    requires forall i :: 0 < i < |evs| && evs[i].Tick? ==> 0 <= evs[i].elapsed <= bound
    ensures var k := Firings(c, evs, x); k * ms <= Passed(evs) < (k + 1) * (ms + bound)
  {
    SparedLives(c, evs, x, ms, bound);
    Pace(c, evs, x, ms, bound);
  }
}
