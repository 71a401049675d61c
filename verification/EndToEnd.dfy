/** Messages from one role to the other, through framing, any chunking, and reassembly. */
module EndToEnd {
  import opened Wrappers
  import opened Bytes
  import opened Shell
  import opened Receive
  import opened Transform
  import opened Connection

  /** A message with the circumstances of sending and receiving it. */
  datatype Message = Message(shell: Shell, body: Option<seq<byte>>, sent: Env, got: Env)

  ghost predicate Good(p: Primitives, max: nat, m: Message) {
    && m.shell.magic == MAGIC_NUMBER
    && (m.body.Some? ==>
          && Sendable(p, m.sent, m.shell.proto, m.body.value)
          && (CryptOf(m.sent.role, m.shell.proto) == CRYPT_ENCRYPT ==> m.sent.key.Some?)
          && |Wired(p, m.sent, m.shell.proto, m.body.value)| <= max
          && Opposite(m.sent, m.got, |Wired(p, m.sent, m.shell.proto, m.body.value)|))
  }

  ghost predicate AllGood(p: Primitives, max: nat, ms: seq<Message>) {
    forall i :: 0 <= i < |ms| ==> Good(p, max, ms[i])
  }

  /** The frame that carries a message: `auto` resolved, sizes filled in. */
  ghost function FrameOf(p: Primitives, max: nat, m: Message): (f: Frame)
    requires Good(p, max, m)
    ensures m.body.None? ==> f.shell.shellSize == 0
    ensures m.body.Some? ==> f.shell == SentShell(p, m.sent, m.shell, m.body.value)
  {
    if m.body.None? then Frame(m.shell.(packSize := 0, shellSize := 0), [])
    else Frame(SentShell(p, m.sent, m.shell, m.body.value),
               Wired(p, m.sent, m.shell.proto, m.body.value))
  }

  ghost function FramesOf(p: Primitives, max: nat, ms: seq<Message>): (fs: seq<Frame>)
    requires AllGood(p, max, ms)
    ensures |fs| == |ms| && forall i :: 0 <= i < |ms| ==> fs[i] == FrameOf(p, max, ms[i])
  {
    seq(|ms|, i requires 0 <= i < |ms| => FrameOf(p, max, ms[i]))
  }

  /** What a receiver ends up with for a frame. */
  ghost function Recovered(p: Primitives, max: nat, m: Message): Option<seq<byte>>
    requires Good(p, max, m)
  {
    var f := FrameOf(p, max, m);
    if f.shell.shellSize == 0 then None else Opened(p, m.got, f.shell, f.body)
  }

  lemma RecoversBody(p: Primitives, max: nat, m: Message)
    requires p.Lawful() && Good(p, max, m)
    ensures Recovered(p, max, m) == m.body
  {
    if m.body.Some? {
      OpenedWired(p, m.sent, m.got, m.shell, m.body.value);
    }
  }

  /**
   However the stream is cut, the receiver dispatches one frame per message, in order,
   with nothing left over, and each frame opens to the original body.
   */
  lemma Delivery(p: Primitives, max: nat, ms: seq<Message>, chunks: seq<seq<byte>>)
    requires p.Lawful() && AllGood(p, max, ms)
    requires Flatten(chunks) == Image(FramesOf(p, max, ms))
    ensures Deliver(max, None, [], chunks) == Outcome(FramesOf(p, max, ms), None, [], NeedHeader)
    ensures forall i :: 0 <= i < |ms| ==> Recovered(p, max, ms[i]) == ms[i].body
  {
    var fs := FramesOf(p, max, ms);
    WholeStream(p, max, ms);
    ChunkIndependence(max, None, [], chunks);
    assert [] + Flatten(chunks) == Image(fs);
    forall i | 0 <= i < |ms|
      ensures Recovered(p, max, ms[i]) == ms[i].body
    {
      RecoversBody(p, max, ms[i]);
    }
  }

  lemma WholeStream(p: Primitives, max: nat, ms: seq<Message>)
    requires AllGood(p, max, ms)
    ensures Drain(max, None, Image(FramesOf(p, max, ms)))
         == Outcome(FramesOf(p, max, ms), None, [], NeedHeader)
  {
    var fs := FramesOf(p, max, ms);
    DrainComplete(max, fs, []);
    assert Image(fs) + [] == Image(fs) && fs + [] == fs;
  }

  // ---------- The same, through the calls themselves ----------

  method Send(p: Primitives, ghost max: nat, m: Message) returns (out: seq<byte>)
    requires Good(p, max, m)
    ensures out == Encode(FrameOf(p, max, m).shell) + FrameOf(p, max, m).body
  {
    if m.body.None? {
      var shell, image := CombineEmpty(m.shell);
      out := image;
      assert out == out + [];
    } else {
      var body := new Buffer(m.body.value);
      var shell, image := Combine(p, m.sent, m.shell, body);
      out := image.value;
    }
  }

  method SendAll(p: Primitives, ghost max: nat, ms: seq<Message>) returns (stream: seq<byte>)
    requires AllGood(p, max, ms)
    ensures stream == Image(FramesOf(p, max, ms))
    decreases |ms|
  {
    stream := [];
    if ms != [] {
      var first := Send(p, max, ms[0]);
      var rest := SendAll(p, max, ms[1..]);
      assert FramesOf(p, max, ms)[1..] == FramesOf(p, max, ms[1..]);
      stream := first + rest;
    }
  }

  /** The head of the worker: a frame without a body is not recombined. */
  method Open(p: Primitives, ghost max: nat, ghost m: Message, env: Env, f: Frame) returns (body: Option<seq<byte>>)
    requires p.Lawful() && Good(p, max, m) && f == FrameOf(p, max, m) && env == m.got
    ensures body == m.body
  {
    RecoversBody(p, max, m);
    body := None;
    if f.shell.shellSize != 0 {
      var buffer := new Buffer(f.body);
      var ok := Recombine(p, env, f.shell, buffer);
      if ok {
        body := Some(buffer.chunk);
      }
    }
  }

  method OpenAll(p: Primitives, ghost max: nat, ghost ms: seq<Message>, envs: seq<Env>, frames: seq<Frame>)
      returns (bodies: seq<Option<seq<byte>>>)
    requires p.Lawful() && AllGood(p, max, ms) && frames == FramesOf(p, max, ms)
    requires |envs| == |ms| && forall i :: 0 <= i < |ms| ==> envs[i] == ms[i].got
    ensures |bodies| == |ms| && forall i :: 0 <= i < |ms| ==> bodies[i] == ms[i].body
    decreases |frames|
  {
    bodies := [];
    if frames != [] {
      assert Good(p, max, ms[0]);
      var first := Open(p, max, ms[0], envs[0], frames[0]);
      assert frames[1..] == FramesOf(p, max, ms[1..]);
      var rest := OpenAll(p, max, ms[1..], envs[1..], frames[1..]);
      bodies := [first] + rest;
    }
  }

  /** A stream received over a fresh connection, cut into the given socket reads. */
  method ReceiveStream(defCapacity: nat, max: nat, chunks: seq<seq<byte>>) returns (frames: seq<Frame>)
    requires 0 < defCapacity < max && chunks != []
    requires forall i :: 0 <= i < |chunks| ==> 0 < |chunks[i]| <= max
    requires !Drain(max, None, Flatten(chunks)).status.NegativeLength?
    ensures frames == Drain(max, None, Flatten(chunks)).frames
  {
    var conn := new Connection(defCapacity, max);
    assert conn.recv.Contents() + Flatten(chunks) == Flatten(chunks);
    var code := conn.ReceiveAll(chunks, max);
    frames := conn.dispatched;
  }

  /** A stream of messages received over a fresh connection: headers and opened bodies, in order. */
  method ReceiveMessages(p: Primitives, defCapacity: nat, max: nat, ghost ms: seq<Message>, envs: seq<Env>, chunks: seq<seq<byte>>)
      returns (shells: seq<Shell>, bodies: seq<Option<seq<byte>>>)
    requires p.Lawful() && 0 < defCapacity < max && AllGood(p, max, ms)
    requires |envs| == |ms| && forall i :: 0 <= i < |ms| ==> envs[i] == ms[i].got
    requires chunks != [] && Flatten(chunks) == Image(FramesOf(p, max, ms))
    requires forall i :: 0 <= i < |chunks| ==> 0 < |chunks[i]| <= max
    ensures Arrived(p, max, ms, shells, bodies)
  {
    WholeStream(p, max, ms);
    var frames := ReceiveStream(defCapacity, max, chunks);
    bodies := OpenAll(p, max, ms, envs, frames);
    shells := Headers(frames);
  }

  /** One header, automatic choices resolved, and the original body per message. */
  ghost predicate Arrived(p: Primitives, max: nat, ms: seq<Message>, shells: seq<Shell>, bodies: seq<Option<seq<byte>>>)
    requires AllGood(p, max, ms)
  {
    && shells == Headers(FramesOf(p, max, ms))
    && |bodies| == |ms| && forall i :: 0 <= i < |ms| ==> bodies[i] == ms[i].body
  }

  function Headers(frames: seq<Frame>): (shells: seq<Shell>)
    ensures |shells| == |frames|
  {
    seq(|frames|, i requires 0 <= i < |frames| => frames[i].shell)
  }

  /** Read sizes from 1 up to the largest allowed. */
  ghost predicate Sized(sizes: nat -> nat, max: nat) {
    forall i :: 0 < sizes(i) <= max
  }

  /** The stream cut into socket reads of the given sizes, the last one shorter if need be. */
  function Cut(s: seq<byte>, sizes: nat -> nat, k: nat, ghost max: nat): (chunks: seq<seq<byte>>)
    requires Sized(sizes, max)
    ensures s != [] ==> chunks != []
    ensures forall i :: 0 <= i < |chunks| ==> 0 < |chunks[i]| <= max
    decreases |s|
  {
    if s == [] then []
    else
      var n := Min(sizes(k), |s|);
      [s[..n]] + Cut(s[n..], sizes, k + 1, max)
  }

  lemma {:induction false} FlattenCut(s: seq<byte>, sizes: nat -> nat, k: nat, max: nat)
    requires Sized(sizes, max)
    ensures Flatten(Cut(s, sizes, k, max)) == s
    decreases |s|
  {
    if s != [] {
      var n := Min(sizes(k), |s|);
      FlattenCut(s[n..], sizes, k + 1, max);
      assert Cut(s, sizes, k, max)[1..] == Cut(s[n..], sizes, k + 1, max);
      assert s[..n] + s[n..] == s;
    }
  }

  /** Every split into non-empty reads comes from some sizes. */
  lemma {:induction false} EveryCut(chunks: seq<seq<byte>>, sizes: nat -> nat, k: nat, max: nat)
    requires Sized(sizes, max)
    requires forall i :: 0 <= i < |chunks| ==> |chunks[i]| == sizes(k + i)
    ensures Cut(Flatten(chunks), sizes, k, max) == chunks
    decreases |chunks|
  {
    if chunks != [] {
      var s, n := Flatten(chunks), |chunks[0]|;
      assert n == sizes(k + 0) && s[..n] == chunks[0] && s[n..] == Flatten(chunks[1..]);
      forall i | 0 <= i < |chunks[1..]|
        ensures |chunks[1..][i]| == sizes(k + 1 + i)
      {
        assert chunks[1..][i] == chunks[i + 1] && k + (i + 1) == k + 1 + i;
      }
      EveryCut(chunks[1..], sizes, k + 1, max);
      assert chunks == [chunks[0]] + chunks[1..];
    }
  }

  /**
   Messages combined by one role, concatenated, cut into reads of any sizes up to the
   largest allowed, parsed and recombined by the other role: all headers and bodies arrive.
   */
  method Exchange(p: Primitives, defCapacity: nat, max: nat, ms: seq<Message>, sizes: nat -> nat)
      returns (shells: seq<Shell>, bodies: seq<Option<seq<byte>>>)
    requires p.Lawful() && 0 < defCapacity < max && AllGood(p, max, ms)
    requires Sized(sizes, max)
    ensures Arrived(p, max, ms, shells, bodies)
  {
    var stream := SendAll(p, max, ms);
    var chunks := Cut(stream, sizes, 0, max);
    StreamEmpty(p, max, ms);
    FlattenCut(stream, sizes, 0, max);
    if chunks == [] {
      shells, bodies := [], [];
    } else {
      shells, bodies := ReceiveMessages(p, defCapacity, max, ms, Receivers(ms), chunks);
    }
  }

  function Receivers(ms: seq<Message>): (envs: seq<Env>)
    ensures |envs| == |ms| && forall i :: 0 <= i < |ms| ==> envs[i] == ms[i].got
  {
    seq(|ms|, i requires 0 <= i < |ms| => ms[i].got)
  }

  /** Only no message at all gives an empty stream. */
  lemma StreamEmpty(p: Primitives, max: nat, ms: seq<Message>)
    requires AllGood(p, max, ms)
    ensures Image(FramesOf(p, max, ms)) == [] ==> ms == [] && Arrived(p, max, ms, [], [])
  {
    if ms == [] {
      assert FramesOf(p, max, ms) == [];
    } else {
      ImageNonEmpty(FramesOf(p, max, ms));
    }
  }

  lemma ImageNonEmpty(fs: seq<Frame>)
    requires fs != []
    ensures Image(fs) != []
  {
  }
}
