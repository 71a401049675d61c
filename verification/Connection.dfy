/** The per-connection receive state and the call that consumes a socket read. */
module Connection {
  import opened Wrappers
  import opened Bytes
  import opened RingBuffer
  import opened Shell
  import opened Receive

  class Connection {
    const max: nat
    const recv: Ring
    var shell: Shell
    var shellCached: bool
    // Requests handed to the worker pool, oldest first.
    var dispatched: seq<Frame>

    ghost predicate Valid()
      reads this, recv
    {
      recv.Valid() && recv.limit == max
    }

    ghost function Held(): Option<Shell>
      reads this
    {
      if shellCached then Some(shell) else None
    }

    /** What the parser makes of the buffered bytes followed by `more`. */
    ghost function Parsed(more: seq<byte>): Outcome
      requires Valid()
      reads this, recv, recv.buffer
    {
      Drain(max, Held(), recv.Contents() + more)
    }

    constructor (defCapacity: nat, max: nat)
      requires 0 < defCapacity < max
      ensures Valid() && fresh(recv) && fresh(recv.buffer) && fresh(recv.retval)
      ensures this.max == max && recv.capacity == defCapacity
      ensures Held() == None && recv.Contents() == [] && dispatched == []
    {
      this.max := max;
      recv := new Ring(defCapacity, max);
      shell := Shell(0, Proto(0, 0, 0, 0, 0, 0, 0), 0, 0, 0);
      shellCached := false;
      dispatched := [];
    }

    /** Reads the next header, or keeps the cached one. */
    method NextHeader()
      requires Valid() && (shellCached || |recv.Contents()| >= SHELL_SIZE)
      modifies this`shell, recv, recv.retval
      ensures Valid() && recv.buffer == old(recv.buffer) && recv.capacity == old(recv.capacity)
      ensures recv.retval == old(recv.retval) || fresh(recv.retval)
      ensures old(shellCached) ==> shell == old(shell) && recv.Contents() == old(recv.Contents())
      ensures !old(shellCached) ==>
        && shell == Decode(old(recv.Contents())[..SHELL_SIZE])
        && recv.Contents() == old(recv.Contents())[SHELL_SIZE..]
    {
      if !shellCached {
        var data, offset, n := recv.Read(SHELL_SIZE);
        shell := Decode(data[offset..offset + n]);
      }
    }

    /** Hands the current header and its body to the workers. */
    method Dispatch()
      requires Valid() && 0 <= shell.shellSize <= |recv.Contents()|
      modifies this`dispatched, recv, recv.retval
      ensures Valid() && recv.buffer == old(recv.buffer) && recv.capacity == old(recv.capacity)
      ensures recv.retval == old(recv.retval) || fresh(recv.retval)
      ensures recv.Contents() == old(recv.Contents())[shell.shellSize..]
      ensures dispatched == old(dispatched) + [Frame(shell, old(recv.Contents())[..shell.shellSize])]
    {
      var body := [];
      if shell.shellSize != 0 {
        var data, offset, n := recv.Read(shell.shellSize);
        body := data[offset..offset + n];
      }
      dispatched := dispatched + [Frame(shell, body)];
    }

    /** What the parser makes of the bytes in the ring. */
    ghost function Pending(): Outcome
      requires Valid()
      reads this, recv, recv.buffer
    {
      Drain(max, Held(), recv.Contents())
    }

    /** The checks that follow a header; `None` means that a frame went out. */
    method AfterHeader() returns (code: Option<int>, ghost f: Option<Frame>)
      requires Valid()
      requires !Body(max, shell, recv.Contents()).status.NegativeLength?
      modifies this`dispatched, this`shellCached, recv, recv.retval
      ensures Valid() && recv.buffer == old(recv.buffer) && recv.capacity == old(recv.capacity)
      ensures recv.retval == old(recv.retval) || fresh(recv.retval)
      ensures code.None? ==>
        && Held() == None && |recv.Contents()| <= |old(recv.Contents())|
        && f.Some? && dispatched == old(dispatched) + [f.value]
        && old(Body(max, shell, recv.Contents())) == Pending().Prepend([f.value])
      ensures code.Some? ==>
        && dispatched == old(dispatched)
        && Stopped(old(Body(max, shell, recv.Contents())), code.value)
    {
      ghost var r, bytes := Body(max, shell, recv.Contents()), recv.Contents();
      if shell.magic != MAGIC_NUMBER {
        return Some(-1), None;
      }
      if shell.shellSize > max {
        return Some(-2), None;
      }
      var stored := recv.CanRead();
      if stored < shell.shellSize {
        shellCached := true;
        return Some(1), None;
      }
      f := Some(Frame(shell, bytes[..shell.shellSize]));
      Dispatch();
      shellCached := false;
      code := None;
    }

    /** The parse `r` ended without a further frame, and the state shows it. */
    ghost predicate Stopped(r: Outcome, code: int)
      requires Valid()
      reads this, recv, recv.buffer
    {
      && r.frames == [] && !r.status.NegativeLength? && code == r.status.Code()
      && recv.Contents() == r.rest
      && (if r.status.Waiting() then Held() == r.held else Some(shell) == r.held)
    }

    /** One pass of the parser's loop; `None` means that it goes round again. */
    method Round() returns (code: Option<int>, ghost f: Option<Frame>)
      requires Valid() && !Pending().status.NegativeLength?
      modifies this, recv, recv.retval
      ensures Valid() && recv.buffer == old(recv.buffer) && recv.capacity == old(recv.capacity)
      ensures recv.retval == old(recv.retval) || fresh(recv.retval)
      ensures code.None? ==>
        && Held() == None
        && (|recv.Contents()| < |old(recv.Contents())|
            || (old(shellCached) && |recv.Contents()| == |old(recv.Contents())|))
        && f.Some? && dispatched == old(dispatched) + [f.value]
        && old(Pending()) == Pending().Prepend([f.value])
      ensures code.Some? ==> dispatched == old(dispatched) && Stopped(old(Pending()), code.value)
    {
      var stored := recv.CanRead();
      if !shellCached && stored < SHELL_SIZE {
        return Some(0), None;
      }
      NextHeader();
      code, f := AfterHeader();
    }

    /** The parser's loop. Unread bytes, then the cached header, are its measure. */
    method DrainAll() returns (code: int)
      requires Valid() && !Pending().status.NegativeLength?
      modifies this, recv, recv.retval
      ensures Valid() && recv.buffer == old(recv.buffer) && recv.capacity == old(recv.capacity)
      ensures recv.retval == old(recv.retval) || fresh(recv.retval)
      ensures var r := old(Pending());
        && code == r.status.Code()
        && dispatched == old(dispatched) + r.frames && recv.Contents() == r.rest
        && (if r.status.Waiting() then Held() == r.held else Some(shell) == r.held)
    {
      ghost var r, now, gone := Pending(), Pending(), [];
      while true
        invariant Valid() && recv.buffer == old(recv.buffer) && recv.capacity == old(recv.capacity)
        invariant recv.retval == old(recv.retval) || fresh(recv.retval)
        invariant now == Pending() && dispatched == old(dispatched) + gone
        invariant r == now.Prepend(gone)
        decreases |recv.Contents()|, shellCached
      {
        var stop, f := Round();
        if stop.Some? {
          return stop.value;
        }
        PrependTwice(Pending(), gone, [f.value]);
        Regroup(old(dispatched), gone, [f.value]);
        now, gone := Pending(), gone + [f.value];
      }
    }

    /**
     Consumes one socket read. The returned code says how the parse stopped: 0 waits
     for a header, 1 waits for a body, -1 and -2 end the connection.
     */
    method Enqueue(chunk: seq<byte>) returns (code: int)
      requires Valid() && chunk != []
      requires |chunk| <= recv.Value().Free() + max ==> !Parsed(chunk).status.NegativeLength?
      modifies this, recv, recv.buffer, recv.retval
      ensures Valid()
      ensures recv.buffer == old(recv.buffer) || fresh(recv.buffer)
      ensures recv.retval == old(recv.retval) || fresh(recv.retval)
      ensures recv.capacity <= old(recv.capacity)
           || recv.capacity < |old(recv.Contents())| + 2 * |chunk|
      ensures |chunk| > old(recv.Value().Free()) + max ==> code == -2 && dispatched == old(dispatched)
      ensures |chunk| <= old(recv.Value().Free()) + max ==>
        var r := old(Parsed(chunk));
        && code == r.status.Code()
        && (code == 0 <==> r.status.NeedHeader?) && (code == 1 <==> r.status.NeedBody?)
        && (code == -1 <==> r.status.BadMagic?) && (code == -2 <==> r.status.TooLong?)
        && dispatched == old(dispatched) + r.frames && recv.Contents() == r.rest
        && (if r.status.Waiting() then Held() == r.held else Some(shell) == r.held)
    {
      var written := recv.Write(chunk);
      if written < |chunk| {
        return -2;
      }
      assert recv.Contents() == old(recv.Contents()) + chunk;
      code := DrainAll();
    }

    /**
     Consumes a whole stream, one socket read after the other, up to the first error.
     Only the concatenation of the chunks matters, and memory stays bounded.
     */
    method ReceiveAll(chunks: seq<seq<byte>>, ghost w: nat) returns (code: int)
      requires Valid() && chunks != [] && |recv.Contents()| <= Backlog(max)
      requires forall i :: 0 <= i < |chunks| ==> 0 < |chunks[i]| <= w <= max
      requires !Parsed(Flatten(chunks)).status.NegativeLength?
      modifies this, recv, recv.buffer, recv.retval
      ensures Valid()
      ensures var r := old(Parsed(Flatten(chunks)));
        && code == r.status.Code()
        && dispatched == old(dispatched) + r.frames
        && (r.status.Waiting() ==> Held() == r.held && recv.Contents() == r.rest)
      ensures recv.capacity <= old(recv.capacity) || recv.capacity < Backlog(max) + 2 * w
      decreases |chunks|
    {
      ghost var before, tail := recv.Contents(), Flatten(chunks[1..]);
      ghost var r := Drain(max, Held(), before + chunks[0]);
      ReadOn(max, Held(), before, chunks[0], tail);
      code := Enqueue(chunks[0]);
      if code >= 0 && |chunks| > 1 {
        Regroup(old(dispatched), r.frames, Drain(max, r.held, r.rest + tail).frames);
        code := ReceiveAll(chunks[1..], w);
      }
    }
  }
}
