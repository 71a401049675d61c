/** The median, quartile and mode aggregates over the counting tree. */
module OrderStatistics {
  import opened CountingTree

  // ---------- Reading values ----------

  const TWO31 := 0x8000_0000
  const TWO32 := 0x1_0000_0000

  /** A 64-bit cell read through a pointer to a 32-bit signed integer. */
  function Low32(x: int): int {
    (x + TWO31) % TWO32 - TWO31
  }

  /** The narrow read is exact on exactly the 32-bit integers. */
  lemma Low32Exact(x: int)
    ensures Low32(x) == x <==> -TWO31 <= x < TWO31
  {
  }

  function IntCmp(a: int, b: int): int {
    if a == b then 0 else if a < b then -1 else 1
  }

  function DoubleCmp(a: real, b: real): int {
    if a == b then 0 else if a < b then -1 else 1
  }

  const INTS: Order<int> := Order(IntCmp, x => x as real)
  const DOUBLES: Order<real> := Order(DoubleCmp, x => x)

  lemma OrdersLawful()
    ensures Lawful(INTS) && Lawful(DOUBLES)
  {
  }

  // ---------- The percentile scan ----------

  datatype Scan<A> = Scan(total: A, cnt: nat, pcnt: real, mcnt: nat, mn: nat, done: bool)

  /** `medianIterate`, where `add` adds the value read to the total. */
  function MedianStep<K, A>(add: (A, K) -> A, e: K, c: nat, p: Scan<A>): Scan<A> {
    if p.done then p
    else
      var iL := p.pcnt;
      var iR := p.cnt as real - p.pcnt;
      var il := p.mcnt + c;
      var ir := p.cnt - p.mcnt;
      var q :=
        if il as real >= iL then
          if ir as real >= iR then p.(mn := p.mn + 1, total := add(p.total, e))
          else p.(done := true)
        else p;
      q.(mcnt := p.mcnt + c)
  }

  function MedianIterate<K, A>(add: (A, K) -> A): (K, nat, Scan<A>) -> Scan<A> {
    (e: K, c: nat, p: Scan<A>) => MedianStep(add, e, c, p)
  }

  /** The values whose run of positions, ends included, holds `p`. */
  function Hits<K>(es: seq<Entry<K>>, before: nat, p: real): seq<K> {
    if es == [] then []
    else
      (if before as real <= p <= (before + es[0].count) as real then [es[0].data] else [])
      + Hits(es[1..], before + es[0].count, p)
  }

  function AddAll<K, A>(add: (A, K) -> A, total: A, xs: seq<K>): A
    decreases |xs|
  {
    if xs == [] then total else AddAll(add, add(total, xs[0]), xs[1..])
  }

  lemma {:induction false} NoLaterHits<K>(es: seq<Entry<K>>, before: nat, p: real)
    requires before as real > p
    ensures Hits(es, before, p) == []
  {
    if es != [] {
      NoLaterHits(es[1..], before + es[0].count, p);
    }
  }

  lemma {:induction false} DoneStays<K, A>(add: (A, K) -> A, es: seq<Entry<K>>, p: Scan<A>)
    requires p.done
    ensures Fold(MedianIterate(add), es, p) == p
  {
    if es != [] {
      DoneStays(add, es[1..], p);
    }
  }

  /** The scan adds up the hits, and stopping early misses none. */
  lemma {:induction false} ScanAddsHits<K, A>(add: (A, K) -> A, es: seq<Entry<K>>, p: Scan<A>)
    requires !p.done
    ensures Fold(MedianIterate(add), es, p).total == AddAll(add, p.total, Hits(es, p.mcnt, p.pcnt))
    ensures Fold(MedianIterate(add), es, p).mn == p.mn + |Hits(es, p.mcnt, p.pcnt)|
    decreases |es|
  {
    if es != [] {
      var e := es[0];
      var q := MedianStep(add, e.data, e.count, p);
      var after := p.mcnt + e.count;
      assert Fold(MedianIterate(add), es, p) == Fold(MedianIterate(add), es[1..], q);
      if q.done {
        DoneStays(add, es[1..], q);
        NoLaterHits(es[1..], after, p.pcnt);
      } else {
        ScanAddsHits(add, es[1..], q);
        AddFirst(add, p.total, e.data, Hits(es[1..], after, p.pcnt));
      }
    }
  }

  lemma AddFirst<K, A>(add: (A, K) -> A, total: A, x: K, xs: seq<K>)
    ensures AddAll(add, total, [x] + xs) == AddAll(add, add(total, x), xs)
    ensures [] + xs == xs
  {
    assert ([x] + xs)[1..] == xs;
  }

  /** No count that the scan compares exceeds the number of rows: below 2^31 rows its 32-bit `il` and `ir` are exact. */
  lemma {:induction false} CountsFit<K, A>(add: (A, K) -> A, seen: seq<Entry<K>>, es: seq<Entry<K>>, p: Scan<A>, at: nat)
    requires p.mcnt <= |Spread(seen)| && at < |es|
    ensures Fold(MedianIterate(add), es[..at], p).mcnt + es[at].count <= |Spread(seen)| + |Spread(es)|
    decreases |es|
  {
    var e := es[0];
    SpreadAppend(seen, [e]);
    assert [e][1..] == [];
    if at > 0 {
      var q := MedianStep(add, e.data, e.count, p);
      CountsFit(add, seen + [e], es[1..], q, at - 1);
      assert es[..at][1..] == es[1..][..at - 1];
    }
  }

  // ---------- The textbook statistic ----------

  function Whole(x: real): bool {
    x == x.Floor as real
  }

  /** The values around position `x`: one, or two that differ. */
  ghost function Middle<K>(s: seq<K>, x: real): seq<K>
    requires 0.0 < x < |s| as real
  {
    var k := x.Floor;
    if Whole(x) && s[k - 1] != s[k] then [s[k - 1], s[k]] else [s[k]]
  }

  /** Every entry is counted, and neighbours differ. */
  ghost predicate Stepped<K>(es: seq<Entry<K>>) {
    && (forall i :: 0 <= i < |es| ==> es[i].count >= 1)
    && (forall i :: 0 < i < |es| ==> es[i - 1].data != es[i].data)
  }

  lemma IncreasingSteps<K>(ord: Order<K>, es: seq<Entry<K>>)
    requires Increasing(ord, es)
    ensures Stepped(es)
  {
    forall i | 0 < i < |es|
      ensures es[i - 1].data != es[i].data
    {
      assert ord.rank(es[i - 1].data) < ord.rank(es[i].data);
    }
  }

  /** On the entries of a sorted sequence the hits are its middle values. */
  lemma {:induction false} HitsAreMiddle<K>(es: seq<Entry<K>>, before: nat, p: real, x: real)
    requires Stepped(es) && 0.0 < x < |Spread(es)| as real && p == before as real + x
    ensures Hits(es, before, p) == Middle(Spread(es), x)
    decreases |es|
  {
    var e, rest := es[0], es[1..];
    if x > e.count as real {
      HitsAreMiddle(rest, before + e.count, p, x - e.count as real);
      Shifted(Repeat(e.data, e.count), Spread(rest), x);
    } else if x < e.count as real {
      InsideHits(es, before, p);
      Inside(e, Spread(rest), x);
    } else {
      BoundaryHits(es, before, p);
      Boundary(e, rest[0], Spread(rest[1..]), x);
    }
  }

  lemma InsideHits<K>(es: seq<Entry<K>>, before: nat, p: real)
    requires es != [] && before as real <= p < (before + es[0].count) as real
    ensures Hits(es, before, p) == [es[0].data]
  {
    NoLaterHits(es[1..], before + es[0].count, p);
  }

  lemma BoundaryHits<K>(es: seq<Entry<K>>, before: nat, p: real)
    requires |es| > 1 && p == (before + es[0].count) as real && es[1].count >= 1
    ensures Hits(es, before, p) == [es[0].data, es[1].data]
  {
    var after := before + es[0].count;
    InsideHits(es[1..], after, p);
    assert Hits(es, before, p) == [es[0].data] + Hits(es[1..], after, p);
  }

  lemma Inside<K>(e: Entry<K>, t: seq<K>, x: real)
    requires 0.0 < x < e.count as real
    ensures Middle(Repeat(e.data, e.count) + t, x) == [e.data]
  {
    var s := Repeat(e.data, e.count) + t;
    assert s[x.Floor] == e.data;
    assert Whole(x) ==> s[x.Floor - 1] == e.data;
  }

  lemma Boundary<K>(e: Entry<K>, next: Entry<K>, t: seq<K>, x: real)
    requires e.data != next.data && next.count >= 1
    requires 0.0 < x == e.count as real
    ensures Middle(Repeat(e.data, e.count) + (Repeat(next.data, next.count) + t), x) == [e.data, next.data]
  {
    var s := Repeat(e.data, e.count) + (Repeat(next.data, next.count) + t);
    assert x.Floor == e.count;
    assert s[e.count - 1] == e.data && s[e.count] == next.data;
  }

  lemma Shifted<K>(a: seq<K>, t: seq<K>, x: real)
    requires |a| as real < x < |a + t| as real
    ensures Middle(t, x - |a| as real) == Middle(a + t, x)
  {
    assert (x - |a| as real).Floor == x.Floor - |a|;
  }

  /** The order statistic: the mean of positions `p - 1` and `p`, or the value around `p`. */
  function Statistic(s: seq<real>, p: real): real
    requires 0.0 < p < |s| as real
  {
    if Whole(p) then (s[p.Floor - 1] + s[p.Floor]) / 2.0 else s[p.Floor]
  }

  /** The scan over a tree filled with `xs`, in any order, ends with the middle of the sorted values. */
  lemma ScanFindsMiddle<K(!new), A>(ord: Order<K>, add: (A, K) -> A, zero: A, xs: seq<K>, s: seq<K>, p: real)
    requires Lawful(ord) && Sorted(ord, s) && multiset(s) == multiset(xs)
    requires 0.0 < p < |s| as real
    ensures var r := Walk(MedianIterate(add), InsertAll(ord, xs), Scan(zero, |xs|, p, 0, 0, false));
      r.mn == |Middle(s, p)| && r.total == AddAll(add, zero, Middle(s, p))
  {
    var es := Entries(InsertAll(ord, xs));
    var start := Scan(zero, |xs|, p, 0, 0, false);
    EntriesOfAll(ord, xs);
    WalkSorts(ord, xs, s);
    WalkIsFold(MedianIterate(add), InsertAll(ord, xs), start);
    ScanAddsHits(add, es, start);
    IncreasingSteps(ord, es);
    HitsAreMiddle(es, 0, p, p);
  }

  // ---------- What the statistic means ----------

  function AtMost(s: seq<real>, r: real): nat {
    if s == [] then 0 else AtMost(s[..|s| - 1], r) + if s[|s| - 1] <= r then 1 else 0
  }

  function AtLeast(s: seq<real>, r: real): nat {
    if s == [] then 0 else AtLeast(s[..|s| - 1], r) + if s[|s| - 1] >= r then 1 else 0
  }

  lemma {:induction false} AtMostAll(s: seq<real>, r: real, k: nat)
    requires k <= |s| && forall i :: 0 <= i < k ==> s[i] <= r
    ensures AtMost(s, r) >= k
  {
    if s != [] {
      AtMostAll(s[..|s| - 1], r, if k == |s| then k - 1 else k);
    }
  }

  lemma {:induction false} AtLeastAll(s: seq<real>, r: real, k: nat)
    requires k <= |s| && forall i :: k <= i < |s| ==> s[i] >= r
    ensures AtLeast(s, r) >= |s| - k
  {
    if |s| > k {
      AtLeastAll(s[..|s| - 1], r, k);
    }
  }

  /** At least `p` values are not above the statistic, and at least `n - p` not below it. */
  lemma StatisticSplits(s: seq<real>, p: real)
    requires 0.0 < p < |s| as real && forall i, j :: 0 <= i < j < |s| ==> s[i] <= s[j]
    ensures AtMost(s, Statistic(s, p)) as real >= p
    ensures AtLeast(s, Statistic(s, p)) as real >= |s| as real - p
  {
    var k, r := p.Floor, Statistic(s, p);
    if Whole(p) {
      assert s[k - 1] <= r <= s[k];
      AtMostAll(s, r, k);
      AtLeastAll(s, r, k);
    } else {
      AtMostAll(s, r, k + 1);
      AtLeastAll(s, r, k);
    }
  }

  function Mirror(s: seq<real>): (r: seq<real>)
    ensures |r| == |s|
  {
    seq(|s|, i requires 0 <= i < |s| => -s[|s| - 1 - i])
  }

  /** Turning the order round turns the statistic round: it leans to neither side. */
  lemma StatisticMirrors(s: seq<real>, p: real)
    requires 0.0 < p < |s| as real
    ensures Statistic(Mirror(s), |s| as real - p) == -Statistic(s, p)
  {
    var n, k := |s|, p.Floor;
    if Whole(p) {
      assert (n as real - p).Floor == n - k;
    } else {
      assert (n as real - p).Floor == n - 1 - k;
    }
  }

  /** `quarters` quarters of the values are not above `r`, and the other quarters not below it. */
  ghost predicate Splits(s: seq<real>, r: real, quarters: nat) {
    4 * AtMost(s, r) >= quarters * |s| && 4 * AtLeast(s, r) >= (4 - quarters) * |s|
  }

  // ---------- Results ----------

  /** What a finalizer hands back: nothing leaves the SQL result null. */
  datatype Value = Null | Integer(i: int) | Double(d: real) {
    function Number(): real {
      if Integer? then i as real else if Double? then d else 0.0
    }
  }

  function AddInt(total: int, e: int): int {
    total + Low32(e)
  }

  function AddDouble(total: real, e: real): real {
    total + e
  }

  function IntResult(total: int, mn: nat): Value
    requires mn > 0
  {
    if mn == 1 then Integer(total) else Double(total as real / mn as real)
  }

  function AsReals(s: seq<int>): (r: seq<real>)
    ensures |r| == |s|
  {
    seq(|s|, i requires 0 <= i < |s| => s[i] as real)
  }

  function Narrow(s: seq<int>): (r: seq<int>)
    ensures |r| == |s|
  {
    seq(|s|, i requires 0 <= i < |s| => Low32(s[i]))
  }

  lemma IntMiddle(s: seq<int>, p: real)
    requires 0.0 < p < |s| as real
    ensures var m := Middle(s, p);
      IntResult(AddAll(AddInt, 0, m), |m|).Number() == Statistic(AsReals(Narrow(s)), p)
  {
    var k, m := p.Floor, Middle(s, p);
    if |m| == 2 {
      AddTwo(AddInt, 0, s[k - 1], s[k]);
    } else {
      AddOne(AddInt, 0, s[k]);
    }
  }

  lemma DoubleMiddle(s: seq<real>, p: real)
    requires 0.0 < p < |s| as real
    ensures var m := Middle(s, p); AddAll(AddDouble, 0.0, m) / |m| as real == Statistic(s, p)
  {
    var k, m := p.Floor, Middle(s, p);
    if |m| == 2 {
      AddTwo(AddDouble, 0.0, s[k - 1], s[k]);
    } else {
      AddOne(AddDouble, 0.0, s[k]);
    }
  }

  lemma AddOne<K, A>(add: (A, K) -> A, zero: A, a: K)
    ensures AddAll(add, zero, [a]) == add(zero, a)
  {
    assert [a][1..] == [];
  }

  lemma AddTwo<K, A>(add: (A, K) -> A, zero: A, a: K, b: K)
    ensures AddAll(add, zero, [a, b]) == add(add(zero, a), b)
  {
    assert [a, b][1..] == [b];
    AddOne(add, add(zero, a), b);
  }

  // ---------- The mode ----------

  datatype Mode<A> = Mode(value: A, mcnt: nat, mn: nat)

  /** `modeIterate`. */
  function ModeStep<K, A>(read: K -> A, e: K, c: nat, p: Mode<A>): Mode<A> {
    if p.mcnt == c then p.(mn := p.mn + 1)
    else if p.mcnt < c then Mode(read(e), c, 1)
    else p
  }

  function ModeIterate<K, A>(read: K -> A): (K, nat, Mode<A>) -> Mode<A> {
    (e: K, c: nat, p: Mode<A>) => ModeStep(read, e, c, p)
  }

  /** Entry `i` occurs more often than every other entry. */
  ghost predicate Leads<K>(es: seq<Entry<K>>, i: int) {
    0 <= i < |es| && forall j :: 0 <= j < |es| && j != i ==> es[j].count < es[i].count
  }

  ghost predicate Tracks<K, A>(read: K -> A, es: seq<Entry<K>>, p: Mode<A>) {
    && (forall i :: 0 <= i < |es| ==> es[i].count <= p.mcnt)
    && (es == [] ==> p.mcnt == p.mn == 0)
    && (es != [] ==> p.mn >= 1)
    && (p.mn == 1 ==> exists i :: Leads(es, i) && es[i].count == p.mcnt && p.value == read(es[i].data))
    && (p.mn >= 2 ==> exists i, j :: 0 <= i < j < |es| && es[i].count == es[j].count == p.mcnt)
  }

  lemma ModeTracks<K, A>(read: K -> A, es: seq<Entry<K>>, e: Entry<K>, p: Mode<A>)
    requires Tracks(read, es, p) && e.count >= 1
    ensures Tracks(read, es + [e], ModeStep(read, e.data, e.count, p))
  {
    var more, q := es + [e], ModeStep(read, e.data, e.count, p);
    if e.count > p.mcnt {
      assert Leads(more, |es|);
    } else if e.count < p.mcnt {
      if p.mn == 1 {
        var i :| Leads(es, i) && es[i].count == p.mcnt && p.value == read(es[i].data);
        assert Leads(more, i);
      } else {
        var i, j :| 0 <= i < j < |es| && es[i].count == es[j].count == p.mcnt;
        assert more[i].count == more[j].count == p.mcnt;
      }
    } else {
      var i: int;
      if p.mn == 1 {
        i :| Leads(es, i) && es[i].count == p.mcnt && p.value == read(es[i].data);
      } else {
        var k, j :| 0 <= k < j < |es| && es[k].count == es[j].count == p.mcnt;
        i := k;
      }
      assert more[i].count == more[|es|].count == q.mcnt;
    }
  }

  lemma {:induction false} ModeScans<K, A>(read: K -> A, done: seq<Entry<K>>, es: seq<Entry<K>>, p: Mode<A>)
    requires Tracks(read, done, p) && forall i :: 0 <= i < |es| ==> es[i].count >= 1
    ensures Tracks(read, done + es, Fold(ModeIterate(read), es, p))
    decreases |es|
  {
    if es == [] {
      assert done + es == done;
    } else {
      ModeTracks(read, done, es[0], p);
      ModeScans(read, done + [es[0]], es[1..], ModeStep(read, es[0].data, es[0].count, p));
      assert done + [es[0]] + es[1..] == done + es;
    }
  }

  /** A value that occurs more often than any other. */
  ghost predicate MostFrequent<K(!new)>(bag: multiset<K>, x: K) {
    x in bag && forall y :: y != x ==> bag[y] < bag[x]
  }

  lemma {:induction false} EntryOf<K>(es: seq<Entry<K>>, y: K) returns (i: nat)
    requires y in multiset(Spread(es))
    ensures i < |es| && es[i].data == y
  {
    RepeatBag(es[0].data, es[0].count);
    if es[0].data == y {
      i := 0;
    } else {
      i := EntryOf(es[1..], y);
      i := i + 1;
    }
  }

  lemma {:induction false} EntryCount<K>(ord: Order<K>, es: seq<Entry<K>>, i: nat)
    requires Increasing(ord, es) && i < |es|
    ensures multiset(Spread(es))[es[i].data] == es[i].count
  {
    RepeatBag(es[0].data, es[0].count);
    var rest := multiset(Spread(es[1..]));
    if i > 0 {
      EntryCount(ord, es[1..], i - 1);
      assert ord.rank(es[0].data) < ord.rank(es[i].data);
    } else if es[0].data in rest {
      var j := EntryOf(es[1..], es[0].data);
      assert false;
    }
  }

  lemma LeaderIsMostFrequent<K(!new)>(ord: Order<K>, es: seq<Entry<K>>, i: nat)
    requires Increasing(ord, es) && Leads(es, i)
    ensures MostFrequent(multiset(Spread(es)), es[i].data)
  {
    var bag := multiset(Spread(es));
    EntryCount(ord, es, i);
    forall y | y != es[i].data
      ensures bag[y] < bag[es[i].data]
    {
      if y in bag {
        var j := EntryOf(es, y);
        EntryCount(ord, es, j);
      }
    }
  }

  lemma TieHasNoMode<K(!new)>(ord: Order<K>, es: seq<Entry<K>>, i: nat, j: nat, x: K)
    requires Increasing(ord, es) && i < j < |es| && es[i].count == es[j].count
    requires forall k :: 0 <= k < |es| ==> es[k].count <= es[i].count
    ensures !MostFrequent(multiset(Spread(es)), x)
  {
    var bag := multiset(Spread(es));
    if MostFrequent(bag, x) {
      var k := EntryOf(es, x);
      EntryCount(ord, es, i);
      EntryCount(ord, es, j);
      EntryCount(ord, es, k);
      assert false;
    }
  }

  lemma TrackedMode<K(!new), A>(ord: Order<K>, read: K -> A, es: seq<Entry<K>>, r: Mode<A>, x: K)
    requires Increasing(ord, es) && Tracks(read, es, r)
    ensures r.mn == 1 ==> exists y :: MostFrequent(multiset(Spread(es)), y)
    ensures MostFrequent(multiset(Spread(es)), x) ==> r.mn == 1 && r.value == read(x)
  {
    if r.mn == 1 {
      var i :| Leads(es, i) && es[i].count == r.mcnt && r.value == read(es[i].data);
      LeaderIsMostFrequent(ord, es, i);
    } else if r.mn >= 2 {
      var i, j :| 0 <= i < j < |es| && es[i].count == es[j].count == r.mcnt;
      TieHasNoMode(ord, es, i, j, x);
    }
  }

  /** One value is left standing exactly when some value is strictly most frequent, and it is that value. */
  lemma ScanFindsMode<K(!new), A>(ord: Order<K>, read: K -> A, zero: A, xs: seq<K>)
    requires Lawful(ord)
    ensures var r := Walk(ModeIterate(read), InsertAll(ord, xs), Mode(zero, 0, 0));
      && (r.mn == 1 <==> exists x :: MostFrequent(multiset(xs), x))
      && (forall x :: MostFrequent(multiset(xs), x) ==> r.value == read(x))
  {
    var t := InsertAll(ord, xs);
    var es, r := Entries(t), Walk(ModeIterate(read), t, Mode(zero, 0, 0));
    EntriesOfAll(ord, xs);
    ModeWalk(read, zero, t);
    forall x
      ensures r.mn == 1 ==> exists y :: MostFrequent(multiset(xs), y)
      ensures MostFrequent(multiset(xs), x) ==> r.mn == 1 && r.value == read(x)
    {
      TrackedMode(ord, read, es, r, x);
    }
  }

  lemma ModeWalk<K, A>(read: K -> A, zero: A, t: Tree<K>)
    requires forall i :: 0 <= i < |Entries(t)| ==> Entries(t)[i].count >= 1
    ensures Tracks(read, Entries(t), Walk(ModeIterate(read), t, Mode(zero, 0, 0)))
  {
    WalkIsFold(ModeIterate(read), t, Mode(zero, 0, 0));
    ModeScans(read, [], Entries(t), Mode(zero, 0, 0));
    assert [] + Entries(t) == Entries(t);
  }

  // ---------- The aggregates ----------

  /** An SQL value with the conversions that the engine offers for it. */
  datatype Input = NullInput | Given(whole: bool, asInt: int, asDouble: real)

  /** The rows that are not null. */
  function Rows(vs: seq<Input>): (r: seq<Input>)
    ensures forall i :: 0 <= i < |r| ==> r[i].Given?
  {
    if vs == [] then []
    else
      var v := vs[|vs| - 1];
      Rows(vs[..|vs| - 1]) + if v.NullInput? then [] else [v]
  }

  function Ints(rows: seq<Input>): (r: seq<int>)
    requires forall i :: 0 <= i < |rows| ==> rows[i].Given?
    ensures |r| == |rows|
  {
    seq(|rows|, i requires 0 <= i < |rows| => rows[i].asInt)
  }

  function Doubles(rows: seq<Input>): (r: seq<real>)
    requires forall i :: 0 <= i < |rows| ==> rows[i].Given?
    ensures |r| == |rows|
  {
    seq(|rows|, i requires 0 <= i < |rows| => rows[i].asDouble)
  }

  /** The result for a percentile: by the first row, integers or doubles. */
  ghost predicate IsStatistic(vs: seq<Input>, p: real, r: Value) {
    var rows := Rows(vs);
    if rows == [] then r.Null?
    else if rows[0].whole then
      forall s :: Sorted(INTS, s) && multiset(s) == multiset(Ints(rows)) ==>
        !r.Null? && 0.0 < p < |s| as real && r.Number() == Statistic(AsReals(Narrow(s)), p)
    else
      forall s :: Sorted(DOUBLES, s) && multiset(s) == multiset(Doubles(rows)) ==>
        0.0 < p < |s| as real && r == Double(Statistic(s, p))
  }

  /** How many multiples of 2^32 the narrow read takes off. */
  function Excess(x: int): int {
    (x + TWO31) / TWO32
  }

  /** The values around the percentile are read exactly, or their errors cancel. */
  predicate ReadExactly(s: seq<int>, p: real)
    requires 0.0 < p < |s| as real
  {
    var k := p.Floor;
    if Whole(p) then Excess(s[k - 1]) + Excess(s[k]) == 0 else -TWO31 <= s[k] < TWO31
  }

  /** Reading 32 bits leaves the order statistic as it is exactly under this condition. */
  lemma NarrowStatistic(s: seq<int>, p: real)
    requires 0.0 < p < |s| as real
    ensures Statistic(AsReals(Narrow(s)), p) == Statistic(AsReals(s), p) <==> ReadExactly(s, p)
  {
    var k := p.Floor;
    Low32Excess(s[k]);
    if Whole(p) {
      Low32Excess(s[k - 1]);
    }
  }

  lemma Low32Excess(x: int)
    ensures Low32(x) == x - TWO32 * Excess(x) && (Excess(x) == 0 <==> -TWO31 <= x < TWO31)
  {
  }

  /** An integer percentile is the order statistic of the values exactly under this condition. */
  lemma StatisticExactly(vs: seq<Input>, p: real, r: Value, s: seq<int>)
    requires IsStatistic(vs, p, r) && Rows(vs) != [] && Rows(vs)[0].whole
    requires Sorted(INTS, s) && multiset(s) == multiset(Ints(Rows(vs)))
    ensures !r.Null? && 0.0 < p < |s| as real
    ensures r.Number() == Statistic(AsReals(s), p) <==> ReadExactly(s, p)
  {
    NarrowStatistic(s, p);
  }

  /** In particular where all values are 32-bit integers. */
  lemma ExactOn32Bits(vs: seq<Input>, p: real, r: Value, s: seq<int>)
    requires IsStatistic(vs, p, r) && Rows(vs) != [] && Rows(vs)[0].whole
    requires Sorted(INTS, s) && multiset(s) == multiset(Ints(Rows(vs)))
    requires forall i :: 0 <= i < |s| ==> -TWO31 <= s[i] < TWO31
    ensures !r.Null? && 0.0 < p < |s| as real && r.Number() == Statistic(AsReals(s), p)
  {
    StatisticExactly(vs, p, r, s);
    Low32Excess(s[p.Floor]);
    if Whole(p) {
      Low32Excess(s[p.Floor - 1]);
    }
  }

  /** One row holding 2^31: its median and mode both come out as -2^31. */
  lemma WrongOnOneRow(p: real, r: Value, m: Value)
    requires 0.0 < p < 1.0
    requires IsStatistic([Given(true, TWO31, TWO31 as real)], p, r) && IsMode([Given(true, TWO31, TWO31 as real)], m)
    ensures r.Number() == -TWO31 as real && r.Number() != Statistic([TWO31 as real], p)
    ensures m == Integer(-TWO31)
  {
    var vs := [Given(true, TWO31, TWO31 as real)];
    assert vs[..0] == [] && Rows(vs) == [] + vs;
    assert Ints(Rows(vs)) == [TWO31];
    assert Sorted(INTS, [TWO31]);
    assert p.Floor == 0;
    assert MostFrequent(multiset([TWO31]), TWO31);
  }

  /** The result of the mode: by the first row, integers or doubles. */
  ghost predicate IsMode(vs: seq<Input>, r: Value) {
    var rows := Rows(vs);
    if rows == [] then r.Null?
    else if rows[0].whole then
      && (r.Null? <==> forall x :: !MostFrequent(multiset(Ints(rows)), x))
      && (forall x :: MostFrequent(multiset(Ints(rows)), x) ==> r == Integer(Low32(x)))
    else
      && (r.Null? <==> forall x :: !MostFrequent(multiset(Doubles(rows)), x))
      && (forall x :: MostFrequent(multiset(Doubles(rows)), x) ==> r == Double(x))
  }

  /** The mode of integers comes out exactly if it is a 32-bit integer. */
  lemma ModeExactly(vs: seq<Input>, r: Value, x: int)
    requires IsMode(vs, r) && Rows(vs) != [] && Rows(vs)[0].whole && MostFrequent(multiset(Ints(Rows(vs))), x)
    ensures r == Integer(x) <==> -TWO31 <= x < TWO31
  {
    Low32Exact(x);
  }

  lemma SortedExists<K(!new)>(ord: Order<K>, xs: seq<K>) returns (s: seq<K>)
    requires Lawful(ord)
    ensures Sorted(ord, s) && multiset(s) == multiset(xs) && |s| == |xs|
  {
    s := Spread(Entries(InsertAll(ord, xs)));
    EntriesOfAll(ord, xs);
    SpreadSorted(ord, Entries(InsertAll(ord, xs)));
    SameSize(s, xs);
  }

  /** `_medianFinalize` on an integer map. */
  method FinishInts(m: Map<int>, cnt: nat, pcnt: real, ghost xs: seq<int>) returns (r: Value)
    requires m.Holds(xs) && m.ord == INTS && cnt == |xs| && 0.0 < pcnt < cnt as real
    ensures !r.Null?
    ensures forall s :: Sorted(INTS, s) && multiset(s) == multiset(xs) ==>
      |s| == |xs| && r.Number() == Statistic(AsReals(Narrow(s)), pcnt)
  {
    var end := m.Visit(MedianIterate(AddInt), Scan(0, cnt, pcnt, 0, 0, false), xs);
    OrdersLawful();
    ghost var all := SortedExists(INTS, xs);
    ScanFindsMiddle(INTS, AddInt, 0, xs, all, pcnt);
    IntMiddle(all, pcnt);
    r := IntResult(end.total, end.mn);
    forall s | Sorted(INTS, s) && multiset(s) == multiset(xs)
      ensures s == all
    {
      SortedUnique(INTS, s, all);
    }
  }

  /** `_medianFinalize` on a map of doubles. */
  method FinishDoubles(m: Map<real>, cnt: nat, pcnt: real, ghost xs: seq<real>) returns (r: Value)
    requires m.Holds(xs) && m.ord == DOUBLES && cnt == |xs| && 0.0 < pcnt < cnt as real
    ensures forall s :: Sorted(DOUBLES, s) && multiset(s) == multiset(xs) ==>
      |s| == |xs| && r == Double(Statistic(s, pcnt))
  {
    var end := m.Visit(MedianIterate(AddDouble), Scan(0.0, cnt, pcnt, 0, 0, false), xs);
    OrdersLawful();
    ghost var all := SortedExists(DOUBLES, xs);
    ScanFindsMiddle(DOUBLES, AddDouble, 0.0, xs, all, pcnt);
    DoubleMiddle(all, pcnt);
    r := Double(end.total / end.mn as real);
    forall s | Sorted(DOUBLES, s) && multiset(s) == multiset(xs)
      ensures s == all
    {
      SortedUnique(DOUBLES, s, all);
    }
  }

  lemma RowsAppend(vs: seq<Input>, v: Input)
    ensures Rows(vs + [v]) == if v.NullInput? then Rows(vs) else Rows(vs) + [v]
  {
    assert (vs + [v])[..|vs|] == vs;
  }

  lemma CellsAppend(rows: seq<Input>, v: Input)
    requires v.Given? && forall i :: 0 <= i < |rows| ==> rows[i].Given?
    ensures Ints(rows + [v]) == Ints(rows) + [v.asInt]
    ensures Doubles(rows + [v]) == Doubles(rows) + [v.asDouble]
  {
  }

  /** The percentiles that the finalizers ask for. */
  function Half(n: nat): (p: real)
    ensures n > 0 ==> 0.0 < p < n as real
  {
    n as real / 2.0
  }

  function Quarter(n: nat): (p: real)
    ensures n > 0 ==> 0.0 < p < n as real
  {
    n as real / 4.0
  }

  function ThreeQuarters(n: nat): (p: real)
    ensures n > 0 ==> 0.0 < p < n as real
  {
    (n * 3) as real / 4.0
  }

  lemma QuarterSplits(s: seq<real>, p: real, quarters: nat)
    requires 0.0 < p < |s| as real && forall i, j :: 0 <= i < j < |s| ==> s[i] <= s[j]
    requires 1 <= quarters <= 3 && 4.0 * p == (quarters * |s|) as real
    ensures Splits(s, Statistic(s, p), quarters)
  {
    StatisticSplits(s, p);
    var r := Statistic(s, p);
    assert (4 * AtMost(s, r)) as real >= (quarters * |s|) as real;
    assert (4 * AtLeast(s, r)) as real >= ((4 - quarters) * |s|) as real;
  }

  /** The result splits the rows by quarters: all rows of doubles, and rows of 32-bit integers. */
  ghost predicate SplitsRows(vs: seq<Input>, r: Value, quarters: nat) {
    var rows := Rows(vs);
    rows != [] ==>
      if rows[0].whole then
        forall s :: Sorted(INTS, s) && multiset(s) == multiset(Ints(rows)) && InRange(s) ==> Splits(AsReals(s), r.Number(), quarters)
      else
        forall s :: Sorted(DOUBLES, s) && multiset(s) == multiset(Doubles(rows)) ==> Splits(s, r.Number(), quarters)
  }

  ghost predicate InRange(s: seq<int>) {
    forall i :: 0 <= i < |s| ==> -TWO31 <= s[i] < TWO31
  }

  lemma RowsSplit(vs: seq<Input>, p: real, r: Value, quarters: nat)
    requires IsStatistic(vs, p, r) && 1 <= quarters <= 3 && 4.0 * p == (quarters * |Rows(vs)|) as real
    ensures SplitsRows(vs, r, quarters)
  {
    var rows := Rows(vs);
    if rows != [] && rows[0].whole {
      forall s | Sorted(INTS, s) && multiset(s) == multiset(Ints(rows)) && InRange(s)
        ensures Splits(AsReals(s), r.Number(), quarters)
      {
        SameSize(s, Ints(rows));
        ExactOn32Bits(vs, p, r, s);
        assert forall i, j :: 0 <= i < j < |s| ==> INTS.rank(s[i]) <= INTS.rank(s[j]);
        QuarterSplits(AsReals(s), p, quarters);
      }
    } else if rows != [] {
      forall s | Sorted(DOUBLES, s) && multiset(s) == multiset(Doubles(rows))
        ensures Splits(s, r.Number(), quarters)
      {
        SameSize(s, Doubles(rows));
        assert forall i, j :: 0 <= i < j < |s| ==> DOUBLES.rank(s[i]) <= DOUBLES.rank(s[j]);
        QuarterSplits(s, p, quarters);
      }
    }
  }

  class ModeCtx {
    var isDouble: bool
    var cnt: nat
    var ints: Map?<int>
    var doubles: Map?<real>

    ghost function Footprint(): set<object>
      reads this, ints, doubles
    {
      {this} + (if ints == null then {} else ints.Repr) + (if doubles == null then {} else doubles.Repr)
    }

    /** The context has been stepped through exactly the rows `vs`. */
    ghost predicate Holds(vs: seq<Input>)
      reads this, ints, doubles, Footprint()
    {
      HoldsRows(Rows(vs))
    }

    ghost predicate HoldsRows(rows: seq<Input>)
      requires forall i :: 0 <= i < |rows| ==> rows[i].Given?
      reads this, ints, doubles, Footprint()
    {
      && cnt == |rows|
      && if rows == [] then ints == null && doubles == null
         else if rows[0].whole then !isDouble && doubles == null && HoldsInts(Ints(rows))
         else isDouble && ints == null && HoldsDoubles(Doubles(rows))
    }

    ghost predicate HoldsInts(xs: seq<int>)
      reads this, ints, if ints == null then {} else ints.Repr
    {
      ints != null && this !in ints.Repr && ints.ord == INTS && ints.Holds(xs)
    }

    ghost predicate HoldsDoubles(xs: seq<real>)
      reads this, doubles, if doubles == null then {} else doubles.Repr
    {
      doubles != null && this !in doubles.Repr && doubles.ord == DOUBLES && doubles.Holds(xs)
    }

    constructor ()
      ensures Holds([]) && fresh(Footprint())
    {
      isDouble, cnt, ints, doubles := false, 0, null, null;
    }

    /** `modeStep`. */
    method Step(v: Input, ghost vs: seq<Input>)
      requires Holds(vs)
      modifies Footprint()
      ensures Holds(vs + [v]) && fresh(Footprint() - old(Footprint()))
    {
      RowsAppend(vs, v);
      if v.Given? {
        StepRow(v, Rows(vs));
      }
    }

    method StepRow(v: Input, ghost rows: seq<Input>)
      requires v.Given? && forall i :: 0 <= i < |rows| ==> rows[i].Given?
      requires HoldsRows(rows)
      modifies Footprint()
      ensures HoldsRows(rows + [v]) && fresh(Footprint() - old(Footprint()))
    {
      CellsAppend(rows, v);
      if ints == null && doubles == null {
        Begin(v.whole);
      }
      cnt := cnt + 1;
      if !isDouble {
        ints.Add(v.asInt, Ints(rows));
      } else {
        doubles.Add(v.asDouble, Doubles(rows));
      }
    }

    /** Makes the map that the first value calls for. */
    method Begin(whole: bool)
      requires ints == null && doubles == null
      modifies this
      ensures cnt == old(cnt) && isDouble == !whole && fresh(Footprint() - {this})
      ensures if whole then doubles == null && HoldsInts([]) else ints == null && HoldsDoubles([])
    {
      if whole {
        ints := new Map(INTS);
      } else {
        doubles := new Map(DOUBLES);
      }
      isDouble := !whole;
    }

    /** `_medianFinalize` with the percentile already chosen. */
    method Finish(pcnt: real, ghost vs: seq<Input>) returns (r: Value)
      requires Holds(vs) && (cnt > 0 ==> 0.0 < pcnt < cnt as real)
      ensures IsStatistic(vs, pcnt, r)
    {
      if ints == null && doubles == null {
        r := Null;
      } else if isDouble {
        r := FinishDoubles(doubles, cnt, pcnt, Doubles(Rows(vs)));
      } else {
        r := FinishInts(ints, cnt, pcnt, Ints(Rows(vs)));
      }
    }

    /** `medianFinalize`. */
    method Median(ghost vs: seq<Input>) returns (r: Value)
      requires Holds(vs)
      ensures IsStatistic(vs, Half(|Rows(vs)|), r) && SplitsRows(vs, r, 2)
    {
      r := Finish(Half(cnt), vs);
      RowsSplit(vs, Half(|Rows(vs)|), r, 2);
    }

    /** `lower_quartileFinalize`. */
    method LowerQuartile(ghost vs: seq<Input>) returns (r: Value)
      requires Holds(vs)
      ensures IsStatistic(vs, Quarter(|Rows(vs)|), r) && SplitsRows(vs, r, 1)
    {
      r := Finish(Quarter(cnt), vs);
      RowsSplit(vs, Quarter(|Rows(vs)|), r, 1);
    }

    /** `upper_quartileFinalize`. */
    method UpperQuartile(ghost vs: seq<Input>) returns (r: Value)
      requires Holds(vs)
      ensures IsStatistic(vs, ThreeQuarters(|Rows(vs)|), r) && SplitsRows(vs, r, 3)
    {
      r := Finish(ThreeQuarters(cnt), vs);
      RowsSplit(vs, ThreeQuarters(|Rows(vs)|), r, 3);
    }

    /** `modeFinalize`. */
    method ModeValue(ghost vs: seq<Input>) returns (r: Value)
      requires Holds(vs)
      ensures IsMode(vs, r)
    {
      OrdersLawful();
      r := Null;
      if ints != null {
        var end := ints.Visit(ModeIterate(Low32), Mode(0, 0, 0), Ints(Rows(vs)));
        ScanFindsMode(INTS, Low32, 0, Ints(Rows(vs)));
        if end.mn == 1 {
          r := Integer(end.value);
        }
      } else if doubles != null {
        var end := doubles.Visit(ModeIterate(Same), Mode(0.0, 0, 0), Doubles(Rows(vs)));
        ScanFindsMode(DOUBLES, Same, 0.0, Doubles(Rows(vs)));
        if end.mn == 1 {
          r := Double(end.value);
        }
      }
    }
  }

  function Same(x: real): real {
    x
  }
}
