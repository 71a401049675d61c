/**
 The growable circular buffer that holds received socket bytes, and the byte
 queue it refines.
 */
module RingBuffer {
  import opened Bytes

  /** The abstract value of a ring: a byte queue that remembers its capacity. */
  datatype Fifo = Fifo(bytes: seq<byte>, capacity: nat, limit: nat) {
    ghost predicate Valid() {
      |bytes| <= capacity && 0 < capacity && 0 < limit
    }

    function Free(): int {
      capacity - |bytes|
    }

    /** How many of `count` offered bytes a write takes. */
    function Accepts(count: nat): (n: nat)
      requires Valid()
    {
      Min(count, Free() + limit)
    }

    function Write(data: seq<byte>): (f: Fifo)
      requires Valid()
      ensures f.Valid()
    {
      Fifo(bytes + data[..Accepts(|data|)],
           if |data| <= Free() then capacity else capacity + Min(|data|, limit),
           limit)
    }

    function Read(count: nat): (f: Fifo)
      requires Valid()
      ensures f.Valid()
    {
      Fifo(bytes[Min(count, |bytes|)..], capacity, limit)
    }
  }

  /** The stored bytes in queue order. `wrap` only decides between full and empty. */
  function Linear(b: seq<byte>, head: nat, tail: nat, wrap: bool): seq<byte>
    requires head < |b| && tail < |b|
  {
    if head < tail || (head == tail && !wrap) then b[head..tail] else b[head..] + b[..tail]
  }

  /** What `memcpy` of `s` to position `at` leaves in `b`. */
  function Splice(b: seq<byte>, at: nat, s: seq<byte>): (r: seq<byte>)
    requires at + |s| <= |b|
    ensures |r| == |b|
  {
    b[..at] + s + b[at + |s|..]
  }

  method Memcpy(dst: array<byte>, at: nat, s: seq<byte>)
    requires at + |s| <= dst.Length
    modifies dst
    ensures dst[..] == Splice(old(dst[..]), at, s)
  {
    forall i | 0 <= i < |s| {
      dst[at + i] := s[i];
    }
  }

  method Gather(dst: array<byte>, first: seq<byte>, second: seq<byte>)
    requires |first| + |second| <= dst.Length
    modifies dst
    ensures dst[..|first| + |second|] == first + second
  {
    Memcpy(dst, 0, first);
    assert dst[..|first|] == first;
    Memcpy(dst, |first|, second);
  }

  /** `(position + step) % capacity` for a step that wraps at most once. */
  method Advance(position: nat, step: nat, capacity: nat) returns (r: nat)
    requires position < capacity && position + step < 2 * capacity
    ensures r == if position + step < capacity then position + step else position + step - capacity
  {
    r := (position + step) % capacity;
    assert position + step >= capacity ==> (position + step) / capacity == 1;
  }

  /** Taking bytes that end before the physical end needs no change to `wrap`. */
  lemma ReadInPlace(b: seq<byte>, head: nat, tail: nat, wrap: bool, n: nat)
    requires head < |b| && tail < |b| && (wrap ==> tail <= head)
    requires 0 < n <= |Linear(b, head, tail, wrap)| && n < |b| - head
    ensures b[head..head + n] == Linear(b, head, tail, wrap)[..n]
    ensures Linear(b, head + n, tail, wrap) == Linear(b, head, tail, wrap)[n..]
  {
  }

  /** Taking bytes up to or across the physical end, after which `wrap` is cleared. */
  lemma ReadAcross(b: seq<byte>, head: nat, tail: nat, wrap: bool, n: nat)
    requires head < |b| && tail < |b| && (wrap ==> tail <= head)
    requires |b| - head <= n <= |Linear(b, head, tail, wrap)|
    ensures b[head..] + b[..n - (|b| - head)] == Linear(b, head, tail, wrap)[..n]
    ensures n - (|b| - head) <= tail
    ensures Linear(b, n - (|b| - head), tail, false) == Linear(b, head, tail, wrap)[n..]
  {
  }

  /** Placing bytes in the free region before the physical end. */
  lemma WriteInPlace(b: seq<byte>, head: nat, tail: nat, wrap: bool, s: seq<byte>)
    requires head < |b| && tail < |b| && (wrap ==> tail <= head)
    requires 0 < |s| <= |b| - |Linear(b, head, tail, wrap)| && tail + |s| <= |b|
    ensures var t := if tail + |s| == |b| then 0 else tail + |s|;
            var w := wrap || head == t;
            && (w ==> t <= head)
            && Linear(Splice(b, tail, s), head, t, w) == Linear(b, head, tail, wrap) + s
  {
    var c := Splice(b, tail, s);
    if head < tail || (head == tail && !wrap) {
      assert c[head..tail + |s|] == b[head..tail] + s;
    } else {
      assert c[head..] == b[head..];
      assert c[..tail + |s|] == b[..tail] + s;
    }
  }

  /** Placing bytes that fill the region up to the physical end and go on at the start. */
  lemma WriteAcross(b: seq<byte>, head: nat, tail: nat, wrap: bool, s: seq<byte>, k: nat)
    requires head < |b| && tail < |b| && (wrap ==> tail <= head)
    requires k == |b| - tail < |s| <= |b| - |Linear(b, head, tail, wrap)|
    ensures var t := |s| - k;
            var w := wrap || head == t;
            && t < |b| && (w ==> t <= head)
            && Linear(Splice(Splice(b, tail, s[..k]), 0, s[k..]), head, t, w)
               == Linear(b, head, tail, wrap) + s
  {
    WriteInPlace(b, head, tail, wrap, s[..k]);
    WriteInPlace(Splice(b, tail, s[..k]), head, 0, wrap, s[k..]);
    Rejoin(Linear(b, head, tail, wrap), s, k);
  }

  lemma Rejoin(x: seq<byte>, s: seq<byte>, k: nat)
    requires k <= |s|
    ensures (x + s[..k]) + s[k..] == x + s
  {
    assert s == s[..k] + s[k..];
  }

  /** Bytes laid out from the start, with room behind them. */
  lemma FromStart(b: seq<byte>, n: nat, wrap: bool)
    requires n < |b| && (n == 0 ==> !wrap)
    ensures Linear(b, 0, n, wrap) == b[..n]
  {
    assert b[0..n] == b[..n];
  }

  class Ring {
    var buffer: array<byte>
    var head: nat
    var tail: nat
    var wrap: bool
    var capacity: nat
    var limit: nat
    // Scratch space for reads that cross the end; length 0 stands for "not allocated yet".
    var retval: array<byte>

    /** A set `wrap` flag may outlive a full ring, but only while `tail <= head`. */
    ghost predicate Valid()
      reads this
    {
      && capacity == buffer.Length
      && head < capacity && tail < capacity
      && 0 < limit
      && retval != buffer
      && (wrap ==> tail <= head)
    }

    ghost function Contents(): seq<byte>
      requires Valid()
      reads this, buffer
    {
      Linear(buffer[..], head, tail, wrap)
    }

    ghost function Value(): (f: Fifo)
      requires Valid()
      reads this, buffer
      ensures f.Valid()
    {
      Fifo(Contents(), capacity, limit)
    }

    constructor (capacity: nat, limit: nat)
      requires 0 < capacity && 0 < limit
      ensures Valid() && fresh(buffer) && fresh(retval)
      ensures Value() == Fifo([], capacity, limit)
    {
      this.capacity := capacity;
      this.limit := limit;
      buffer := new byte[capacity](_ => 0);
      retval := new byte[0];
      head, tail, wrap := 0, 0, false;
    }

    method CanRead() returns (n: nat)
      requires Valid()
      ensures n == |Contents()|
    {
      if tail == head {
        n := if wrap then capacity else 0;
      } else if tail > head {
        n := tail - head;
      } else {
        n := capacity + tail - head;
      }
    }

    /** Reports growth room on a full ring, although no growth has happened yet. */
    method CanWrite() returns (n: int)
      requires Valid()
      ensures n == if Value().Free() == 0 && limit > capacity
                   then limit - capacity
                   else Value().Free()
    {
      var stored := CanRead();
      n := capacity - stored;
      if n == 0 && limit > capacity {
        n := limit - stored;
      }
    }

    /**
     Removes the oldest bytes and hands out a view of them: `data[offset..offset + n]`
     is either the ring's own storage or the scratch buffer.
     */
    method Read(count: nat) returns (data: array?<byte>, offset: nat, n: nat)
      requires Valid()
      modifies this, retval
      ensures Valid() && buffer == old(buffer) && (retval == old(retval) || fresh(retval))
      ensures Value() == old(Value()).Read(count)
      ensures n == Min(count, |old(Contents())|)
      ensures n == 0 <==> data == null
      ensures data != null ==>
        && (data == buffer || data == retval)
        && offset + n <= data.Length
        && data[offset..offset + n] == old(Contents())[..n]
      ensures buffer[..] == old(buffer[..])
      ensures data == buffer ==> wrap == old(wrap)
      ensures data == retval && data != null ==> !wrap
    {
      var stored := CanRead();
      n := Min(count, stored);
      if n == 0 {
        return null, 0, 0;
      }
      if capacity - head > n {
        ReadInPlace(buffer[..], head, tail, wrap, n);
        data, offset := buffer, head;
        head := Advance(head, n, capacity);
        return;
      }
      offset := 0;
      data := CopyAcross(n);
    }

    method ReserveScratch(size: nat)
      requires Valid()
      modifies this`retval
      ensures Valid() && size <= retval.Length && (retval == old(retval) || fresh(retval))
    {
      if retval.Length < size {
        retval := new byte[size];
      }
    }

    /** Copies both pieces to the scratch buffer. */
    method CopyOut(tailChunk: nat, headChunk: nat) returns (data: array<byte>)
      requires Valid() && tailChunk == capacity - head && headChunk <= capacity
      modifies this`retval, retval
      ensures Valid() && (retval == old(retval) || fresh(retval)) && buffer[..] == old(buffer[..])
      ensures data == retval && tailChunk + headChunk <= data.Length
      ensures data[..tailChunk + headChunk] == buffer[head..] + buffer[..headChunk]
    {
      var first, second := buffer[head..], buffer[..headChunk];
      ReserveScratch(tailChunk + headChunk);
      data := retval;
      Gather(data, first, second);
    }

    /** The read path that goes through the scratch buffer. */
    method CopyAcross(n: nat) returns (data: array<byte>)
      requires Valid() && 0 < capacity - head <= n <= |Contents()|
      modifies this, retval
      ensures Valid() && buffer == old(buffer) && (retval == old(retval) || fresh(retval))
      ensures buffer[..] == old(buffer[..])
      ensures Contents() == old(Contents())[n..] && capacity == old(capacity) && limit == old(limit)
      ensures data == retval && n <= data.Length && data[..n] == old(Contents())[..n]
      ensures !wrap
    {
      var tailChunk := Min(n, capacity - head);
      var headChunk := n - tailChunk;
      ghost var b := buffer[..];
      ReadAcross(b, head, tail, wrap, n);
      data := CopyOut(tailChunk, headChunk);
      head := Advance(head, tailChunk, capacity);
      if tailChunk < n {
        head := Advance(head, headChunk, capacity);
      }
      if wrap {
        wrap := false;
      }
      assert buffer[..] == b;
    }

    /** Makes room for `count` bytes by draining into a larger allocation. */
    method ExpandLimit(count: nat)
      requires Valid()
      modifies this, retval
      ensures Valid() && limit == old(limit) && Contents() == old(Contents())
      ensures (buffer == old(buffer) && buffer[..] == old(buffer[..])) || fresh(buffer)
      ensures retval == old(retval) || fresh(retval)
      ensures capacity == if count <= old(Value()).Free() then old(capacity)
                          else old(capacity) + Min(count, limit)
    {
      var stored := CanRead();
      if capacity - stored >= count {
        return;
      }
      var expand := Min(count, limit);
      var larger := new byte[capacity + expand];
      var data, offset, readed := Read(stored);
      if data != null {
        Memcpy(larger, 0, data[offset..offset + readed]);
      }
      assert larger[..readed] == old(Contents());
      FromStart(larger[..], readed, wrap);
      buffer := larger;
      head := 0;
      capacity := capacity + expand;
      tail := Advance(0, readed, capacity);
    }

    /** Appends the accepted prefix of `data`. */
    method Write(data: seq<byte>) returns (n: nat)
      requires Valid()
      modifies this, buffer, retval
      ensures Valid()
      ensures buffer == old(buffer) || fresh(buffer)
      ensures retval == old(retval) || fresh(retval)
      ensures n == old(Value()).Accepts(|data|)
      ensures Value() == old(Value()).Write(data)
    {
      ExpandLimit(|data|);
      var room := CanWrite();
      n := Min(|data|, room);
      if n == 0 {
        return;
      }
      Place(data[..n]);
    }

    /** Copies bytes that fit into the free region. */
    method Place(data: seq<byte>)
      requires Valid() && 0 < |data| <= Value().Free()
      modifies this, buffer
      ensures Valid() && buffer == old(buffer) && retval == old(retval)
      ensures Value() == Fifo(old(Contents()) + data, old(capacity), old(limit))
    {
      var tailChunk := Min(|data|, capacity - tail);
      if tailChunk < |data| {
        FillAcross(data, tailChunk);
      } else {
        FillOnce(data);
      }
      if head == tail {
        wrap := true;
      }
    }

    /** Once `wrap` is raised where head and tail meet, the ring holds `s`. */
    ghost predicate Filled(s: seq<byte>)
      reads this, buffer
    {
      var w := wrap || head == tail;
      && capacity == buffer.Length && head < capacity && tail < capacity && (w ==> tail <= head)
      && Linear(buffer[..], head, tail, w) == s
    }

    method FillOnce(data: seq<byte>)
      requires Valid() && 0 < |data| <= Value().Free() && |data| <= capacity - tail
      modifies this`tail, buffer
      ensures Filled(old(Contents()) + data)
    {
      WriteInPlace(buffer[..], head, tail, wrap, data);
      Memcpy(buffer, tail, data);
      tail := Advance(tail, |data|, capacity);
    }

    method FillAcross(data: seq<byte>, k: nat)
      requires Valid() && k == capacity - tail < |data| <= Value().Free()
      modifies this`tail, buffer
      ensures Filled(old(Contents()) + data)
    {
      WriteAcross(buffer[..], head, tail, wrap, data, k);
      Memcpy(buffer, tail, data[..k]);
      tail := Advance(tail, k, capacity);
      Memcpy(buffer, tail, data[k..]);
      tail := Advance(tail, |data| - k, capacity);
    }
  }

  // ---------- Runs ----------

  datatype Op = Put(data: seq<byte>) | Take(count: nat)

  function Apply(f: Fifo, op: Op): (g: Fifo)
    requires f.Valid()
    ensures g.Valid()
  {
    match op
    case Put(data) => f.Write(data)
    case Take(count) => f.Read(count)
  }

  function Run(f: Fifo, ops: seq<Op>): (g: Fifo)
    requires f.Valid()
    ensures g.Valid()
    decreases |ops|
  {
    if ops == [] then f else Run(Apply(f, ops[0]), ops[1..])
  }

  function TookIn(f: Fifo, op: Op): seq<byte>
    requires f.Valid()
  {
    if op.Put? then op.data[..f.Accepts(|op.data|)] else []
  }

  function GaveOut(f: Fifo, op: Op): seq<byte> {
    if op.Take? then f.bytes[..Min(op.count, |f.bytes|)] else []
  }

  /** The bytes that the writes of a run took in. */
  function Accepted(f: Fifo, ops: seq<Op>): seq<byte>
    requires f.Valid()
    decreases |ops|
  {
    if ops == [] then [] else TookIn(f, ops[0]) + Accepted(Apply(f, ops[0]), ops[1..])
  }

  /** The bytes that the reads of a run gave out. */
  function Taken(f: Fifo, ops: seq<Op>): seq<byte>
    requires f.Valid()
    decreases |ops|
  {
    if ops == [] then [] else GaveOut(f, ops[0]) + Taken(Apply(f, ops[0]), ops[1..])
  }

  lemma StepConserves(f: Fifo, op: Op)
    requires f.Valid()
    ensures f.bytes + TookIn(f, op) == GaveOut(f, op) + Apply(f, op).bytes
  {
  }

  /** First in, first out over a whole run: nothing is lost, repeated or reordered. */
  lemma {:induction false} RunConserves(f: Fifo, ops: seq<Op>)
    requires f.Valid()
    ensures f.bytes + Accepted(f, ops) == Taken(f, ops) + Run(f, ops).bytes
    decreases |ops|
  {
    if ops != [] {
      var g := Apply(f, ops[0]);
      StepConserves(f, ops[0]);
      RunConserves(g, ops[1..]);
      Chain(f.bytes, TookIn(f, ops[0]), GaveOut(f, ops[0]), g.bytes,
            Accepted(g, ops[1..]), Taken(g, ops[1..]), Run(g, ops[1..]).bytes);
    }
  }

  lemma Chain(a: seq<byte>, i: seq<byte>, o: seq<byte>, b: seq<byte>,
              j: seq<byte>, p: seq<byte>, c: seq<byte>)
    requires a + i == o + b && b + j == p + c
    ensures a + (i + j) == (o + p) + c
  {
    assert a + (i + j) == (o + b) + j == o + (p + c);
  }

  /** Before every write of the run at most `u` bytes wait, and every write offers at most `w`. */
  ghost predicate Bounded(f: Fifo, ops: seq<Op>, u: nat, w: nat)
    requires f.Valid()
    decreases |ops|
  {
    ops == [] || ((ops[0].Put? ==> |f.bytes| <= u && |ops[0].data| <= w)
                  && Bounded(Apply(f, ops[0]), ops[1..], u, w))
  }

  /** Growth is bounded by the traffic, not by `limit`. */
  lemma {:induction false} CapacityBounded(f: Fifo, ops: seq<Op>, u: nat, w: nat)
    requires f.Valid() && Bounded(f, ops, u, w)
    ensures Run(f, ops).capacity <= f.capacity || Run(f, ops).capacity <= u + w - 1 + Min(w, f.limit)
    decreases |ops|
  {
    if ops != [] {
      CapacityBounded(Apply(f, ops[0]), ops[1..], u, w);
    }
  }

  /** That bound is attained, for every `u`, `w` and `limit` that a ring allows. */
  lemma CapacityAttained(f: Fifo, data: seq<byte>)
    requires f.Valid() && data != [] && f.capacity == |f.bytes| + |data| - 1
    ensures Bounded(f, [Put(data)], |f.bytes|, |data|)
    ensures Run(f, [Put(data)]).capacity == |f.bytes| + |data| - 1 + Min(|data|, f.limit) > f.capacity
  {
    assert [Put(data)][1..] == [];
  }

  /** Writes of at most `limit` bytes are never cut short. */
  lemma {:induction false} WithinLimitNeverRefused(f: Fifo, ops: seq<Op>)
    requires f.Valid() && forall i :: 0 <= i < |ops| && ops[i].Put? ==> |ops[i].data| <= f.limit
    ensures Accepted(f, ops) == Offered(ops)
    decreases |ops|
  {
    if ops != [] {
      WithinLimitNeverRefused(Apply(f, ops[0]), ops[1..]);
    }
  }

  function Offered(ops: seq<Op>): seq<byte> {
    if ops == [] then []
    else (if ops[0].Put? then ops[0].data else []) + Offered(ops[1..])
  }

  /** `limit` bounds one growth step; the capacity itself goes beyond it. */
  lemma CapacityCanPassLimit(b: byte)
    ensures var f := Fifo([], 1, 2); f.Valid() && f.Write([b, b]).capacity > f.limit > f.capacity
  {
  }

  /** A write that fits the free space, or the room left below `limit`. */
  predicate KeepsLimit(f: Fifo, op: Op) {
    op.Put? ==> |op.data| <= f.Free() || |op.data| <= f.limit - f.capacity
  }

  /** Every operation of the run meets this test in its own state. */
  ghost predicate AllKeepLimit(f: Fifo, ops: seq<Op>)
    requires f.Valid()
    decreases |ops|
  {
    ops != [] ==> KeepsLimit(f, ops[0]) && AllKeepLimit(Apply(f, ops[0]), ops[1..])
  }

  lemma {:induction false} CapacityGrows(f: Fifo, ops: seq<Op>)
    requires f.Valid()
    ensures f.capacity <= Run(f, ops).capacity
    decreases |ops|
  {
    if ops != [] {
      CapacityGrows(Apply(f, ops[0]), ops[1..]);
    }
  }

  /** A run stays within `limit` exactly if every one of its writes passes the test. */
  lemma {:induction false} WithinLimitExactly(f: Fifo, ops: seq<Op>)
    requires f.Valid() && f.capacity <= f.limit
    ensures Run(f, ops).capacity <= f.limit <==> AllKeepLimit(f, ops)
    decreases |ops|
  {
    if ops != [] {
      var g := Apply(f, ops[0]);
      assert g.capacity <= f.limit <==> KeepsLimit(f, ops[0]);
      if g.capacity <= f.limit {
        WithinLimitExactly(g, ops[1..]);
      } else {
        CapacityGrows(g, ops[1..]);
      }
    }
  }

  /** The ring takes exactly the run of the queue it stands for. */
  method Drive(ring: Ring, ops: seq<Op>) returns (out: seq<byte>)
    requires ring.Valid()
    modifies ring, ring.buffer, ring.retval
    ensures ring.Valid()
    ensures out == Taken(old(ring.Value()), ops)
    ensures ring.Value() == Run(old(ring.Value()), ops)
    decreases |ops|
  {
    out := [];
    if ops != [] {
      ghost var f := ring.Value();
      var first := [];
      match ops[0] {
        case Put(data) =>
          var n := ring.Write(data);
        case Take(count) =>
          var data, offset, n := ring.Read(count);
          if data != null {
            first := data[offset..offset + n];
          }
      }
      assert ring.Value() == Apply(f, ops[0]);
      out := Drive(ring, ops[1..]);
      out := first + out;
    }
  }
}
