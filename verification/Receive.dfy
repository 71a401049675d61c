/**
 What a received byte stream means as frames, and how parsing it resumes at any cut.
 */
module Receive {
  import opened Wrappers
  import opened Bytes
  import opened Shell

  /** A dispatched request; a header with `shellSize` 0 carries no body. */
  datatype Frame = Frame(shell: Shell, body: seq<byte>)

  /** How a parse stops. `NegativeLength` marks headers the code gives no meaning to. */
  datatype Status = NeedHeader | NeedBody | BadMagic | TooLong | NegativeLength {
    predicate Waiting() {
      NeedHeader? || NeedBody?
    }

    /** The value `ep_io_enqueue` returns. */
    function Code(): int
      requires !NegativeLength?
    {
      match this
      case NeedHeader => 0
      case NeedBody => 1
      case BadMagic => -1
      case TooLong => -2
    }
  }

  /** The frames found, the header decoded but not dispatched, and the unread bytes. */
  datatype Outcome = Outcome(frames: seq<Frame>, held: Option<Shell>, rest: seq<byte>, status: Status) {
    function Prepend(before: seq<Frame>): Outcome {
      this.(frames := before + frames)
    }
  }

  /** What the parser makes of buffered bytes, given the header it may already hold. */
  function Drain(max: nat, held: Option<Shell>, bytes: seq<byte>): Outcome
    decreases |bytes|, held.Some?
  {
    if held.None? && |bytes| < SHELL_SIZE then Outcome([], None, bytes, NeedHeader)
    else if held.None? then Body(max, Decode(bytes[..SHELL_SIZE]), bytes[SHELL_SIZE..])
    else Body(max, held.value, bytes)
  }

  /** The part of one round that follows the header. */
  function Body(max: nat, h: Shell, bytes: seq<byte>): Outcome
    decreases |bytes|, true, 0
  {
    if h.magic != MAGIC_NUMBER then Outcome([], Some(h), bytes, BadMagic)
    else if h.shellSize > max then Outcome([], Some(h), bytes, TooLong)
    else if h.shellSize < 0 then Outcome([], Some(h), bytes, NegativeLength)
    else if |bytes| < h.shellSize then Outcome([], Some(h), bytes, NeedBody)
    else Drain(max, None, bytes[h.shellSize..]).Prepend([Frame(h, bytes[..h.shellSize])])
  }

  // ---------- Chunk boundaries do not matter ----------

  /** The effect of parsing `a`, and then what is left of it together with `b`. */
  function Resume(max: nat, r: Outcome, b: seq<byte>): Outcome {
    if r.status.Waiting() then Drain(max, r.held, r.rest + b).Prepend(r.frames)
    else r.(rest := r.rest + b)
  }

  lemma {:induction false} DrainAppend(max: nat, held: Option<Shell>, a: seq<byte>, b: seq<byte>)
    ensures Drain(max, held, a + b) == Resume(max, Drain(max, held, a), b)
    decreases |a|, held.Some?, 1
  {
    if held.None? && |a| < SHELL_SIZE {
      assert Drain(max, held, a + b).Prepend([]) == Drain(max, held, a + b);
    } else if held.None? {
      assert (a + b)[..SHELL_SIZE] == a[..SHELL_SIZE];
      assert (a + b)[SHELL_SIZE..] == a[SHELL_SIZE..] + b;
      BodyAppend(max, Decode(a[..SHELL_SIZE]), a[SHELL_SIZE..], b);
    } else {
      BodyAppend(max, held.value, a, b);
    }
  }

  lemma {:induction false} BodyAppend(max: nat, h: Shell, a: seq<byte>, b: seq<byte>)
    ensures Body(max, h, a + b) == Resume(max, Body(max, h, a), b)
    decreases |a|, true, 0
  {
    if h.magic != MAGIC_NUMBER || h.shellSize > max || h.shellSize < 0 {
    } else if |a| < h.shellSize {
      var whole := Drain(max, Some(h), a + b);
      assert whole.Prepend([]) == whole;
    } else {
      var n := h.shellSize;
      var first := [Frame(h, a[..n])];
      assert (a + b)[..n] == a[..n] && (a + b)[n..] == a[n..] + b;
      DrainAppend(max, None, a[n..], b);
      var r := Drain(max, None, a[n..]);
      PrependTwice(Drain(max, r.held, r.rest + b), first, r.frames);
    }
  }

  lemma PrependTwice(r: Outcome, a: seq<Frame>, b: seq<Frame>)
    ensures r.Prepend(b).Prepend(a) == r.Prepend(a + b)
  {
    assert a + (b + r.frames) == (a + b) + r.frames;
  }

  function Flatten(chunks: seq<seq<byte>>): seq<byte> {
    if chunks == [] then [] else chunks[0] + Flatten(chunks[1..])
  }

  /** One call of the parser per chunk, until the first error. */
  function Deliver(max: nat, held: Option<Shell>, pending: seq<byte>, chunks: seq<seq<byte>>): Outcome
    decreases |chunks|
  {
    if chunks == [] then Drain(max, held, pending)
    else
      var r := Drain(max, held, pending + chunks[0]);
      if r.status.Waiting() then Deliver(max, r.held, r.rest, chunks[1..]).Prepend(r.frames)
      else r
  }

  /** The parts of an outcome that a caller can observe: after an error the rest is dropped. */
  ghost predicate SameObserved(r: Outcome, s: Outcome) {
    r.frames == s.frames && r.status == s.status && (s.status.Waiting() ==> r == s)
  }

  /** Frames, leftover and first error depend only on the concatenated stream. */
  lemma {:induction false} ChunkIndependence(
      max: nat, held: Option<Shell>, pending: seq<byte>, chunks: seq<seq<byte>>)
    ensures SameObserved(Deliver(max, held, pending, chunks), Drain(max, held, pending + Flatten(chunks)))
    decreases |chunks|
  {
    if chunks == [] {
      assert pending + Flatten(chunks) == pending;
    } else {
      var tail := Flatten(chunks[1..]);
      var r := Drain(max, held, pending + chunks[0]);
      assert pending + Flatten(chunks) == (pending + chunks[0]) + tail;
      DrainAppend(max, held, pending + chunks[0], tail);
      if r.status.Waiting() {
        ChunkIndependence(max, r.held, r.rest, chunks[1..]);
      }
    }
  }

  /** A read of `first` and then of `tail` is a read of both. */
  lemma ReadOn(max: nat, held: Option<Shell>, before: seq<byte>, first: seq<byte>, tail: seq<byte>)
    ensures var r := Drain(max, held, before + first);
      && Drain(max, held, before + (first + tail)) == Resume(max, r, tail)
      && (r.status.Waiting() ==> |r.rest| < Backlog(max))
      && (tail == [] ==> Resume(max, r, tail) == r)
  {
    assert before + (first + tail) == (before + first) + tail;
    DrainAppend(max, held, before + first, tail);
    WaitingIsShort(max, held, before + first);
    if tail == [] {
      assert (before + first) + tail == before + first;
    }
  }

  /** More bytes than this never wait for a frame to become complete. */
  function Backlog(max: nat): nat {
    if max < SHELL_SIZE then SHELL_SIZE else max
  }

  lemma {:induction false} WaitingIsShort(max: nat, held: Option<Shell>, bytes: seq<byte>)
    ensures var r := Drain(max, held, bytes); r.status.Waiting() ==> |r.rest| < Backlog(max)
    decreases |bytes|, held.Some?
  {
    if held.Some? || |bytes| >= SHELL_SIZE {
      var h := if held.Some? then held.value else Decode(bytes[..SHELL_SIZE]);
      var rest := if held.Some? then bytes else bytes[SHELL_SIZE..];
      if h.magic == MAGIC_NUMBER && 0 <= h.shellSize <= max && h.shellSize <= |rest| {
        WaitingIsShort(max, None, rest[h.shellSize..]);
      }
    }
  }

  /** Parsing again without new bytes changes nothing. */
  lemma StillWaiting(max: nat, held: Option<Shell>, bytes: seq<byte>)
    ensures var r := Drain(max, held, bytes);
            r.status.Waiting() ==> Drain(max, r.held, r.rest) == r.(frames := [])
  {
    var r := Drain(max, held, bytes);
    DrainAppend(max, held, bytes, []);
    assert bytes + [] == bytes && r.rest + [] == r.rest;
    if r.status.Waiting() {
      var again := Drain(max, r.held, r.rest);
      assert |r.frames + again.frames| == |r.frames|;
    }
  }

  // ---------- No byte is lost ----------

  function HeldImage(held: Option<Shell>): seq<byte> {
    if held.None? then [] else Encode(held.value)
  }

  function Image(frames: seq<Frame>): seq<byte> {
    if frames == [] then [] else Encode(frames[0].shell) + frames[0].body + Image(frames[1..])
  }

  /** Frames, held header and unread bytes spell out the input again, also after an error. */
  lemma {:induction false} DrainConserves(max: nat, held: Option<Shell>, bytes: seq<byte>)
    ensures var r := Drain(max, held, bytes);
            HeldImage(held) + bytes == Image(r.frames) + HeldImage(r.held) + r.rest
    decreases |bytes|, held.Some?, 1
  {
    var r := Drain(max, held, bytes);
    if held.None? && |bytes| < SHELL_SIZE {
      assert [] + bytes == [] + [] + bytes;
    } else if held.None? {
      var first, rest := bytes[..SHELL_SIZE], bytes[SHELL_SIZE..];
      EncodeDecode(first);
      BodyConserves(max, Decode(first), rest);
      assert [] + bytes == first + rest;
    } else {
      BodyConserves(max, held.value, bytes);
    }
  }

  lemma {:induction false} BodyConserves(max: nat, h: Shell, bytes: seq<byte>)
    ensures var r := Body(max, h, bytes);
            Encode(h) + bytes == Image(r.frames) + HeldImage(r.held) + r.rest
    decreases |bytes|, true, 0
  {
    if h.magic == MAGIC_NUMBER && 0 <= h.shellSize <= max && h.shellSize <= |bytes| {
      var n := h.shellSize;
      var s := Drain(max, None, bytes[n..]);
      DrainConserves(max, None, bytes[n..]);
      ImageFirst(Frame(h, bytes[..n]), s.frames);
      Refit(Encode(h), bytes, n, Image(s.frames), HeldImage(s.held), s.rest);
    } else {
      NothingBefore(Encode(h), bytes);
    }
  }

  lemma NothingBefore(a: seq<byte>, b: seq<byte>)
    ensures a + b == [] + a + b
  {
  }

  lemma ImageFirst(f: Frame, frames: seq<Frame>)
    ensures Image([f] + frames) == Encode(f.shell) + f.body + Image(frames)
  {
    assert ([f] + frames)[1..] == frames;
  }

  lemma Refit(a: seq<byte>, b: seq<byte>, n: nat, c: seq<byte>, d: seq<byte>, e: seq<byte>)
    requires n <= |b| && [] + b[n..] == c + d + e
    ensures a + b == (a + b[..n] + c) + d + e
  {
    assert b == b[..n] + (c + d + e);
  }

  /** A frame that the parser accepts. */
  predicate Acceptable(max: nat, f: Frame) {
    f.shell.magic == MAGIC_NUMBER && |f.body| <= max && f.shell.shellSize == |f.body|
  }

  /** The parser finds exactly the frames that were concatenated, whatever follows them. */
  lemma {:induction false} DrainComplete(max: nat, frames: seq<Frame>, tail: seq<byte>)
    requires forall i :: 0 <= i < |frames| ==> Acceptable(max, frames[i])
    ensures Drain(max, None, Image(frames) + tail) == Drain(max, None, tail).Prepend(frames)
    decreases |frames|
  {
    if frames == [] {
      assert Image(frames) + tail == tail;
      assert Drain(max, None, tail).Prepend([]) == Drain(max, None, tail);
    } else {
      var f := frames[0];
      var rest := Image(frames[1..]) + tail;
      Reassociate(Encode(f.shell), f.body, Image(frames[1..]), tail);
      DrainFirst(max, f, rest);
      DrainComplete(max, frames[1..], tail);
      PrependFirst(Drain(max, None, tail), frames);
    }
  }

  lemma PrependFirst(r: Outcome, frames: seq<Frame>)
    requires frames != []
    ensures r.Prepend(frames[1..]).Prepend([frames[0]]) == r.Prepend(frames)
  {
    assert [frames[0]] + (frames[1..] + r.frames) == frames + r.frames;
  }

  lemma DrainFirst(max: nat, f: Frame, rest: seq<byte>)
    requires Acceptable(max, f)
    ensures Drain(max, None, Encode(f.shell) + f.body + rest) == Drain(max, None, rest).Prepend([f])
  {
    Split(Encode(f.shell), f.body, rest);
    DecodeEncode(f.shell);
  }

  lemma Reassociate(a: seq<byte>, b: seq<byte>, c: seq<byte>, d: seq<byte>)
    ensures (a + b + c) + d == a + b + (c + d)
  {
  }

  lemma Split(a: seq<byte>, b: seq<byte>, c: seq<byte>)
    ensures (a + b + c)[..|a|] == a && (a + b + c)[|a|..] == b + c
    ensures (b + c)[..|b|] == b && (b + c)[|b|..] == c
  {
  }

  /** Every frame the parser dispatches is one it would accept. */
  lemma {:induction false} DrainSound(max: nat, held: Option<Shell>, bytes: seq<byte>)
    ensures forall f :: f in Drain(max, held, bytes).frames ==> Acceptable(max, f)
    decreases |bytes|, held.Some?
  {
    if held.Some? || |bytes| >= SHELL_SIZE {
      var h := if held.Some? then held.value else Decode(bytes[..SHELL_SIZE]);
      var rest := if held.Some? then bytes else bytes[SHELL_SIZE..];
      if h.magic == MAGIC_NUMBER && 0 <= h.shellSize <= max && h.shellSize <= |rest| {
        DrainSound(max, None, rest[h.shellSize..]);
      }
    }
  }

  /** Where the parse of frames followed by one more header ends, and with what status. */
  lemma StopsAtHeader(max: nat, frames: seq<Frame>, h: Shell, tail: seq<byte>)
    requires forall i :: 0 <= i < |frames| ==> Acceptable(max, frames[i])
    ensures var r := Drain(max, None, Image(frames) + (Encode(h) + tail));
      && (h.magic != 0x9087 ==> r == Outcome(frames, Some(h), tail, BadMagic))
      && (h.magic == 0x9087 && h.shellSize > max ==> r == Outcome(frames, Some(h), tail, TooLong))
      && (h.magic == 0x9087 && |tail| < h.shellSize <= max ==> r == Outcome(frames, Some(h), tail, NeedBody))
  {
    DrainComplete(max, frames, Encode(h) + tail);
    DecodeEncode(h);
    assert (Encode(h) + tail)[..SHELL_SIZE] == Encode(h) && (Encode(h) + tail)[SHELL_SIZE..] == tail;
    assert frames + [] == frames;
  }

  /** Fewer than 18 bytes behind the frames wait for the rest of a header. */
  lemma StopsInHeader(max: nat, frames: seq<Frame>, tail: seq<byte>)
    requires |tail| < 18 && forall i :: 0 <= i < |frames| ==> Acceptable(max, frames[i])
    ensures Drain(max, None, Image(frames) + tail) == Outcome(frames, None, tail, NeedHeader)
  {
    DrainComplete(max, frames, tail);
    assert frames + [] == frames;
  }
}
