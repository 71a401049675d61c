/** `resolve_backslashes` and the dot-command tokenizer, in place on the memory of a line. */
module Tokenizer {
  import opened Wrappers
  import opened Bytes
  import opened Escape

  // ---------- The resolving loop over memory ----------

  /** The bytes that the loop stores, and how far from its start the terminator is at which it stops. */
  datatype Run = Run(bytes: seq<byte>, used: nat)

  /**
   The loop on the memory `s` that begins at its argument. A backslash takes the byte
   behind it whatever that is, a terminator included; nothing if the loop runs off the memory.
   */
  function Walk(s: seq<byte>): (r: Option<Run>)
    ensures r.Some? ==> |r.value.bytes| <= r.value.used < |s| && s[r.value.used] == 0
  {
    if s == [] then None
    else if s[0] == 0 then Some(Run([], 0))
    else if s == [BACKSLASH] then None
    else
      var (c, n) := FirstByte(s);
      Before(c, n, Walk(s[n..]))
  }

  lemma FirstByteInside(t: seq<byte>, more: seq<byte>)
    requires t != [] && t != [BACKSLASH]
    ensures FirstByte(t + [0] + more) == FirstByte(t)
  {
    var s := t + [0] + more;
    if t[0] == BACKSLASH {
      assert s[1..] == t[1..] + [0] + more;
    }
  }

  /** The loop takes off one byte. */
  lemma WalkOne(s: seq<byte>, n: nat, rest: seq<byte>)
    requires s != [] && s[0] != 0 && s != [BACKSLASH] && n == FirstByte(s).1 && rest == s[n..]
    ensures Walk(s) == Before(FirstByte(s).0, n, Walk(rest))
  {
  }

  function Before(c: byte, n: nat, r: Option<Run>): Option<Run> {
    if r.None? then None else Some(Run([c] + r.value.bytes, n + r.value.used))
  }

  /** The loop stored `r` and stopped `n` bytes on, or there is no `r` and it went further. */
  ghost predicate Agree(r: Option<seq<byte>>, w: Option<Run>, n: nat) {
    if r.Some? then w == Some(Run(r.value, n)) else w.None? || w.value.used > n
  }

  function Prefixed(c: byte, r: Option<seq<byte>>): Option<seq<byte>> {
    if r.None? then None else Some([c] + r.value)
  }

  /** `walk` walks as `Walk` does; callers of the loop reason about `walk` alone. */
  ghost predicate Walks(walk: seq<byte> -> Option<Run>) {
    forall s {:trigger Walk(s)} :: walk(s) == Walk(s)
  }

  /** `res` resolves as `Resolve` does. */
  ghost predicate Resolves(res: seq<byte> -> Option<seq<byte>>) {
    forall s {:trigger Resolve(s)} :: res(s) == Resolve(s)
  }

  lemma ResolveOne(t: seq<byte>, n: nat, rest: seq<byte>)
    requires t != [] && t != [BACKSLASH] && n == FirstByte(t).1 && rest == t[n..]
    ensures Resolve(t) == Prefixed(FirstByte(t).0, Resolve(rest))
  {
  }

  lemma AgreeOne(c: byte, k: nat, r: Option<seq<byte>>, w: Option<Run>, n: nat)
    requires Agree(r, w, n)
    ensures Agree(Prefixed(c, r), Before(c, k, w), k + n)
  {
  }

  /** Loop and specification take the same byte off a string. */
  lemma StepBoth(walk: seq<byte> -> Option<Run>, res: seq<byte> -> Option<seq<byte>>, t: seq<byte>, more: seq<byte>)
      returns (c: byte, n: nat)
    requires Walks(walk) && Resolves(res) && t != [] && t[0] != 0 && t != [BACKSLASH]
    ensures 1 <= n <= |t| && res(t) == Prefixed(c, res(t[n..]))
    ensures walk(t + [0] + more) == Before(c, n, walk(t[n..] + [0] + more))
  {
    c, n := FirstByte(t).0, FirstByte(t).1;
    WalkFirst(walk, t, more, c, n);
    ResNext(res, t, c, n);
  }

  lemma WalkFirst(walk: seq<byte> -> Option<Run>, t: seq<byte>, more: seq<byte>, c: byte, n: nat)
    requires Walks(walk) && t != [] && t[0] != 0 && t != [BACKSLASH] && (c, n) == FirstByte(t)
    ensures walk(t + [0] + more) == Before(c, n, walk(t[n..] + [0] + more))
  {
    var s, rest := t + [0] + more, t[n..] + [0] + more;
    FirstByteInside(t, more);
    assert s[n..] == rest;
    WalkNext(walk, s, rest, c, n);
  }

  lemma WalkNext(walk: seq<byte> -> Option<Run>, s: seq<byte>, rest: seq<byte>, c: byte, n: nat)
    requires Walks(walk) && s != [] && s[0] != 0 && s != [BACKSLASH] && (c, n) == FirstByte(s) && rest == s[n..]
    ensures walk(s) == Before(c, n, walk(rest))
  {
    WalkOne(s, n, rest);
  }

  lemma ResNext(res: seq<byte> -> Option<seq<byte>>, t: seq<byte>, c: byte, n: nat)
    requires Resolves(res) && t != [] && t != [BACKSLASH] && (c, n) == FirstByte(t)
    ensures res(t) == Prefixed(c, res(t[n..]))
  {
    ResolveOne(t, n, t[n..]);
  }

  /** A backslash before the terminator takes the terminator. */
  lemma LoneOne(walk: seq<byte> -> Option<Run>, more: seq<byte>)
    requires Walks(walk)
    ensures walk([BACKSLASH, 0] + more) == Before(0, 2, walk(more))
  {
    var s := [BACKSLASH, 0] + more;
    assert s[1..][0] == 0 && FirstByte(s) == (0, 2);
    assert s[2..] == more;
    WalkOne(s, 2, more);
  }

  lemma NothingToResolve(walk: seq<byte> -> Option<Run>, res: seq<byte> -> Option<seq<byte>>, more: seq<byte>)
    requires Walks(walk) && Resolves(res)
    ensures res([]) == Some([]) && res([BACKSLASH]) == None && walk([0] + more) == Some(Run([], 0))
  {
    assert Resolve([]) == Some([]) && Resolve([BACKSLASH]) == None && Walk([0] + more) == Some(Run([], 0));
  }

  /** On a string that resolves the loop stores its value and stops at its terminator; on any other it goes past it. */
  lemma {:induction false} WalkString(
      walk: seq<byte> -> Option<Run>, res: seq<byte> -> Option<seq<byte>>, t: seq<byte>, more: seq<byte>)
    requires Walks(walk) && Resolves(res) && NoNul(t)
    ensures Agree(res(t), walk(t + [0] + more), |t|)
    decreases |t|
  {
    NothingToResolve(walk, res, more);
    if t == [] {
      assert t + [0] + more == [0] + more;
    } else if t == [BACKSLASH] {
      LoneOne(walk, more);
      assert t + [0] + more == [BACKSLASH, 0] + more;
    } else {
      var c, n := StepBoth(walk, res, t, more);
      WalkString(walk, res, t[n..], more);
      AgreeOne(c, n, res(t[n..]), walk(t[n..] + [0] + more), |t| - n);
    }
  }

  /** The loop stops at the terminator of its string exactly if the backslashes at the string's end pair up. */
  lemma StopsExactly(t: seq<byte>, more: seq<byte>)
    requires NoNul(t)
    ensures var r := Walk(t + [0] + more);
      r.Some? && r.value.used == |t| <==> Trailing(t) % 2 == 0
  {
    WalkString(Walk, Resolve, t, more);
    ResolvesExactly(t);
  }

  /** Bytes and a terminator stored at `p`. */
  function Overwrite(m: seq<byte>, p: nat, b: seq<byte>): (r: seq<byte>)
    ensures |r| == |m|
  {
    if p + |b| < |m| then m[..p] + b + [0] + m[p + |b| + 1..] else m
  }

  /** `resolve_backslashes`, as long as it stays within the memory. */
  method ResolveBackslashes(a: array<byte>, start: nat, ghost walk: seq<byte> -> Option<Run>)
    requires start < a.Length && Walks(walk) && walk(a[start..]).Some?
    modifies a
    ensures a[..] == Overwrite(old(a[..]), start, walk(old(a[start..])).value.bytes)
  {
    ghost var m := a[..];
    var j := CopyResolved(a, start, walk);
    a[j] := 0;
    assert a[..start] == m[..start] && a[j + 1..] == m[j + 1..];
    assert a[..] == a[..start] + a[start..j] + [a[j]] + a[j + 1..];
  }

  /** The copy loop stores what the walk says and touches nothing else: it never overtakes its reading position. */
  method CopyResolved(a: array<byte>, start: nat, ghost walk: seq<byte> -> Option<Run>) returns (j: nat)
    requires start < a.Length && Walks(walk) && walk(a[start..]).Some?
    modifies a
    ensures var b := walk(old(a[start..])).value.bytes;
      j == start + |b| < a.Length && a[start..j] == b
    ensures forall k :: 0 <= k < a.Length && !(start <= k < j) ==> a[k] == old(a[k])
  {
    ghost var tail := a[start..];
    ghost var want := walk(tail).value;
    ghost var rest := want;
    var i := start;
    j := start;
    while a[i] != 0
      invariant start <= j <= i < a.Length
      invariant forall k :: j <= k < a.Length || 0 <= k < start ==> a[k] == old(a[k])
      invariant tail == a[i..] && walk(tail) == Some(rest) && want.bytes == a[start..j] + rest.bytes
      decreases a.Length - i
    {
      ghost var done := a[start..j];
      ghost var b := rest.bytes;
      var n;
      n, tail, rest := StoreNext(a, i, j, tail, rest, walk);
      assert a[start..j + 1] == done + [b[0]];
      Shift(done, b);
      i, j := i + n, j + 1;
    }
    WalkEnds(walk, tail);
    assert want.bytes == a[start..j];
  }

  lemma WalkEnds(walk: seq<byte> -> Option<Run>, s: seq<byte>)
    requires Walks(walk) && s != [] && s[0] == 0
    ensures walk(s) == Some(Run([], 0))
  {
    assert Walk(s) == Some(Run([], 0));
  }

  lemma Shift<T>(done: seq<T>, more: seq<T>)
    requires more != []
    ensures done + more == (done + [more[0]]) + more[1..]
  {
  }

  /** Moves the byte spelled at `i` to position `j`. */
  method StoreNext(a: array<byte>, i: nat, j: nat, ghost s: seq<byte>, ghost run: Run, ghost walk: seq<byte> -> Option<Run>)
      returns (n: nat, ghost tail: seq<byte>, ghost rest: Run)
    requires j <= i < a.Length && a[i] != 0 && s == a[i..] && Walks(walk) && walk(s) == Some(run)
    modifies a
    ensures 1 <= n && i + n < a.Length && run.bytes != [] && a[j] == run.bytes[0]
    ensures forall k :: 0 <= k < a.Length && k != j ==> a[k] == old(a[k])
    ensures tail == a[i + n..] && walk(tail) == Some(rest) && rest.bytes == run.bytes[1..]
  {
    assert Walk(s) == Some(run);
    WalkOne(s, FirstByte(s).1, s[FirstByte(s).1..]);
    var c;
    c, n := FirstByteAt(a, i);
    tail := s[n..];
    rest := Walk(tail).value;
    a[j] := c;
    assert tail == a[i + n..];
  }

  method FirstByteAt(a: array<byte>, i: nat) returns (c: byte, n: nat)
    requires i < a.Length && a[i..] != [BACKSLASH] && i + FirstByte(a[i..]).1 < a.Length
    ensures (c, n) == FirstByte(a[i..])
  {
    c, n := a[i], 1;
    if c == BACKSLASH {
      assert a[i..][1..] == a[i + 1..];
      var k;
      c, k := UnescapeAt(a, i + 1);
      n := 1 + k;
    }
  }

  method UnescapeAt(a: array<byte>, i: nat) returns (c: byte, k: nat)
    requires i < a.Length && i + Unescape(a[i..]).1 < a.Length
    ensures (c, k) == Unescape(a[i..])
  {
    c, k := a[i], 1;
    if c == 110 {
      c := 10;
    } else if c == 116 {
      c := 9;
    } else if c == 114 {
      c := 13;
    } else if IsOctal(c) {
      c := c - ZERO;
      if IsOctal(a[i + 1]) {
        k := 2;
        c := c * 8 + a[i + 1] - ZERO;
        if IsOctal(a[i + 2]) {
          k := 3;
          c := Low(c * 8 + a[i + 2] - ZERO);
        }
      }
    }
  }

  // ---------- Tokens in memory ----------

  /** `strlen`, or the whole length without a terminator. */
  function StrLen(s: seq<byte>): (n: nat)
    ensures n <= |s| && NoNul(s[..n]) && (n < |s| ==> s[n] == 0)
  {
    if s == [] || s[0] == 0 then 0
    else
      var n := 1 + StrLen(s[1..]);
      assert s[..n] == [s[0]] + s[1..][..n - 1];
      n
  }

  lemma {:induction false} StrLenIs(s: seq<byte>, n: nat)
    requires n < |s| && NoNul(s[..n]) && s[n] == 0
    ensures StrLen(s) == n
    decreases n
  {
    if n > 0 {
      assert s[0] == s[..n][0];
      assert s[1..][..n - 1] == s[..n][1..];
      StrLenIs(s[1..], n - 1);
    }
  }

  /** Where the first token of a text lies, and whether its escapes are resolved. */
  datatype Raw = Raw(start: nat, stop: nat, resolve: bool)

  function RawToken(s: seq<byte>): (r: Raw)
    requires s != [] && !IsSpace(s[0])
    ensures r.start <= r.stop <= |s| && 1 <= r.stop
  {
    if s[0] == QUOTE || s[0] == APOSTROPHE then Raw(1, 1 + QuotedEnd(s[1..], s[0]), s[0] == QUOTE)
    else Raw(0, WordEnd(s), true)
  }

  lemma RawIsFirst(res: seq<byte> -> Option<seq<byte>>, s: seq<byte>)
    requires s != [] && !IsSpace(s[0])
    ensures var r := RawToken(s);
      FirstTokenBy(res, s) == Cut(if r.resolve then res(s[r.start..r.stop]) else Some(s[r.start..r.stop]), Past(r.stop, |s|))
  {
    var r := RawToken(s);
    if r.start == 1 {
      assert s[1..][..r.stop - 1] == s[1..r.stop];
    } else {
      assert s[..r.stop] == s[0..r.stop];
    }
  }

  /** A token's place, where the scan goes on, and the memory then. */
  datatype Taken = Taken(start: nat, next: nat, memory: seq<byte>)

  /** Takes the token at `i` of a line that ends `n` bytes further. */
  function TakeAt(walk: seq<byte> -> Option<Run>, m: seq<byte>, i: nat, n: nat): (r: Option<Taken>)
    requires 0 < n && i + n < |m| && !IsSpace(m[i])
    ensures r.Some? ==> |r.value.memory| == |m| && i < r.value.next <= i + n
  {
    TakeRaw(walk, m, i, n, RawToken(m[i..i + n]))
  }

  function TakeRaw(walk: seq<byte> -> Option<Run>, m: seq<byte>, i: nat, n: nat, raw: Raw): (r: Option<Taken>)
    requires raw.start <= raw.stop <= n && 1 <= raw.stop && i + n < |m|
    ensures r.Some? ==> |r.value.memory| == |m| && i < r.value.next <= i + n
  {
    var p := i + raw.start;
    var cut := m[i + raw.stop := 0];
    var next := i + Past(raw.stop, n);
    if !raw.resolve then Some(Taken(p, next, cut))
    else
      var r := walk(cut[p..]);
      if r.None? then None else Some(Taken(p, next, Overwrite(cut, p, r.value.bytes)))
  }

  function Take(m: seq<byte>, i: nat, n: nat): Option<Taken> {
    if 0 < n && i + n < |m| && !IsSpace(m[i]) then TakeAt(Walk, m, i, n) else None
  }

  /** `take` takes tokens as `Take` does. */
  ghost predicate TakesBy(take: (seq<byte>, nat, nat) -> Option<Taken>) {
    forall m, i, n {:trigger Take(m, i, n)} :: take(m, i, n) == Take(m, i, n)
  }

  /** What the tokenizer does at a position: end, run off the memory, or take a token. */
  datatype Action = Ends | Lost | Takes(taken: Taken)

  function ActionBy(take: (seq<byte>, nat, nat) -> Option<Taken>, m: seq<byte>, i: nat): Action {
    if i >= |m| then Lost
    else
      var j := i + Spaces(m[i..]);
      if j == |m| then Lost
      else if m[j] == 0 then Ends
      else
        var n := StrLen(m[j..]);
        if j + n == |m| then Lost
        else
          var t := take(m, j, n);
          if t.None? then Lost else Takes(t.value)
  }

  function ActionAt(m: seq<byte>, i: nat): Action {
    ActionBy(Take, m, i)
  }

  /** `act` acts as `ActionAt` does. */
  ghost predicate Acts(act: (seq<byte>, nat) -> Action) {
    forall m, i {:trigger ActionAt(m, i)} :: act(m, i) == ActionAt(m, i)
  }

  datatype Parsed = Parsed(args: seq<nat>, memory: seq<byte>)

  /** The tokenizer on memory: the tokens' places and the memory then; nothing if it runs off the memory. */
  function TokensIn(act: (seq<byte>, nat) -> Action, m: seq<byte>, i: nat, slots: nat): (r: Option<Parsed>)
    decreases slots
  {
    if slots == 0 then Some(Parsed([], m))
    else
      match act(m, i)
      case Ends => Some(Parsed([], m))
      case Lost => None
      case Takes(t) =>
        var more := TokensIn(act, t.memory, t.next, slots - 1);
        if more.None? then None else Some(Parsed([t.start] + more.value.args, more.value.memory))
  }

  /** The unread part of the line, from `i` to its terminator. */
  ghost predicate Unread(a: array<byte>, i: nat, end: nat)
    reads a
  {
    i <= end < a.Length && a[end] == 0 && forall k :: i <= k < end ==> a[k] != 0
  }

  method SkipSpaces(a: array<byte>, i: nat) returns (j: nat)
    requires i < a.Length && i + Spaces(a[i..]) < a.Length
    ensures j == i + Spaces(a[i..])
  {
    j := i;
    while IsSpace(a[j])
      invariant i <= j < a.Length && Spaces(a[i..]) == j - i + Spaces(a[j..])
      decreases a.Length - j
    {
      assert a[j..][1..] == a[j + 1..];
      j := j + 1;
    }
  }

  method ScanQuoted(a: array<byte>, i: nat, ghost end: nat, delim: byte) returns (j: nat)
    requires Unread(a, i, end) && delim != 0
    ensures i <= j <= end && j == i + QuotedEnd(a[i..end], delim)
  {
    j := i;
    while a[j] != 0 && a[j] != delim
      invariant i <= j <= end && QuotedEnd(a[i..end], delim) == j - i + QuotedEnd(a[j..end], delim)
      decreases end - j
    {
      assert a[j..end][1..] == a[j + 1..end];
      if a[j] == BACKSLASH && delim == QUOTE && a[j + 1] != 0 {
        assert a[j..end][2..] == a[j + 2..end];
        j := j + 1;
      }
      j := j + 1;
    }
  }

  method ScanWord(a: array<byte>, i: nat, ghost end: nat) returns (j: nat)
    requires Unread(a, i, end)
    ensures i <= j <= end && j == i + WordEnd(a[i..end])
  {
    j := i;
    while a[j] != 0 && !IsSpace(a[j])
      invariant i <= j <= end && WordEnd(a[i..end]) == j - i + WordEnd(a[j..end])
      decreases end - j
    {
      assert a[j..end][1..] == a[j + 1..end];
      j := j + 1;
    }
  }

  /** One round of the tokenizer at the first byte of a token. */
  method TakeToken(a: array<byte>, i: nat, ghost n: nat, ghost t: Taken, ghost take: (seq<byte>, nat, nat) -> Option<Taken>)
      returns (start: nat, next: nat)
    requires 0 < n && Unread(a, i, i + n) && !IsSpace(a[i]) && TakesBy(take) && take(a[..], i, n) == Some(t)
    modifies a
    ensures t == Taken(start, next, a[..]) && i < next <= i + n
  {
    ghost var m := a[..];
    assert Take(m, i, n) == Some(t);
    ghost var raw := RawToken(m[i..i + n]);
    assert m[i..i + n] == a[i..i + n];
    var stop, resolve;
    start, stop, resolve := Bounds(a, i, n, m[i..i + n]);
    next := CutToken(a, i, n, start, stop, resolve, raw, t, Walk);
  }

  /** Ends the token with a terminator and resolves its escapes if asked to. */
  method CutToken(a: array<byte>, i: nat, ghost n: nat, start: nat, stop: nat, resolve: bool,
                  ghost raw: Raw, ghost t: Taken, ghost walk: seq<byte> -> Option<Run>) returns (next: nat)
    requires Unread(a, i, i + n) && i <= start <= stop <= i + n && i < stop && raw == Raw(start - i, stop - i, resolve)
    requires Walks(walk) && TakeRaw(walk, a[..], i, n, raw) == Some(t)
    modifies a
    ensures t == Taken(start, next, a[..]) && i < next <= i + n
  {
    ghost var m := a[..];
    next := stop;
    if a[stop] != 0 {
      a[stop] := 0;
      next := stop + 1;
    }
    ghost var cut := a[..];
    assert cut == m[stop := 0];
    if resolve {
      assert a[start..] == cut[start..];
      ResolveBackslashes(a, start, walk);
    }
  }

  /** Finds the token's ends; a quote in front of it is skipped. */
  method Bounds(a: array<byte>, i: nat, ghost n: nat, ghost s: seq<byte>) returns (start: nat, stop: nat, resolve: bool)
    requires 0 < n && Unread(a, i, i + n) && !IsSpace(a[i]) && s == a[i..i + n]
    ensures i <= start <= stop <= i + n && RawToken(s) == Raw(start - i, stop - i, resolve)
  {
    if a[i] == QUOTE || a[i] == APOSTROPHE {
      start, resolve := i + 1, a[i] == QUOTE;
      assert s[1..] == a[i + 1..i + n];
      stop := ScanQuoted(a, i + 1, i + n, a[i]);
    } else {
      start, resolve := i, true;
      stop := ScanWord(a, i, i + n);
    }
  }

  /** Skips spaces and takes the next token, if there is one. */
  method NextToken(a: array<byte>, i: nat, ghost t: Action, ghost act: (seq<byte>, nat) -> Action)
      returns (found: bool, start: nat, next: nat)
    requires i < a.Length && Acts(act) && t == act(a[..], i) && !t.Lost?
    modifies a
    ensures found <==> t.Takes?
    ensures !found ==> a[..] == old(a[..])
    ensures found ==> t.taken == Taken(start, next, a[..]) && i < next < a.Length
  {
    assert t == ActionAt(a[..], i);
    found, start, next := NextTokenBy(a, i, t, Take);
  }

  method NextTokenBy(a: array<byte>, i: nat, ghost t: Action, ghost take: (seq<byte>, nat, nat) -> Option<Taken>)
      returns (found: bool, start: nat, next: nat)
    requires i < a.Length && TakesBy(take) && t == ActionBy(take, a[..], i) && !t.Lost?
    modifies a
    ensures found <==> t.Takes?
    ensures !found ==> a[..] == old(a[..])
    ensures found ==> t.taken == Taken(start, next, a[..]) && i < next < a.Length
  {
    ghost var m := a[..];
    assert m[i..] == a[i..];
    var j := SkipSpaces(a, i);
    start, next := j, j;
    found := a[j] != 0;
    if found {
      ghost var n := StrLen(m[j..]);
      SpacesEnd(m[i..]);
      LineAt(m, j, n);
      start, next := TakeToken(a, j, n, t.taken, take);
    }
  }

  lemma LineAt(m: seq<byte>, j: nat, n: nat)
    requires j < |m| && n == StrLen(m[j..]) && j + n < |m|
    ensures m[j + n] == 0 && forall k :: j <= k < j + n ==> m[k] != 0
  {
    assert forall k :: j <= k < j + n ==> m[k] == m[j..][..n][k - j];
  }

  /** What the tokens still to come say about the next one. */
  lemma TokensNext(act: (seq<byte>, nat) -> Action, m: seq<byte>, i: nat, slots: nat, more: Parsed)
    requires TokensIn(act, m, i, slots) == Some(more)
    ensures slots == 0 ==> more == Parsed([], m)
    ensures slots > 0 ==>
      match act(m, i)
      case Ends => more == Parsed([], m)
      case Lost => false
      case Takes(t) =>
        && more.args != [] && more.args[0] == t.start
        && TokensIn(act, t.memory, t.next, slots - 1) == Some(Parsed(more.args[1..], more.memory))
  {
  }

  lemma EndsAtNul(act: (seq<byte>, nat) -> Action, m: seq<byte>, i: nat)
    requires Acts(act) && i < |m| && m[i] == 0
    ensures act(m, i) == Ends
  {
    assert Spaces(m[i..]) == 0;
    assert ActionAt(m, i) == Ends;
  }

  /** The token loop of `do_meta_command`, as long as it stays within the memory. */
  method Tokenize(a: array<byte>, max: nat, ghost act: (seq<byte>, nat) -> Action) returns (args: seq<nat>)
    requires 1 < a.Length && Acts(act) && TokensIn(act, a[..], 1, max).Some?
    modifies a
    ensures TokensIn(act, old(a[..]), 1, max) == Some(Parsed(args, a[..]))
  {
    ghost var want := TokensIn(act, a[..], 1, max).value;
    ghost var more, slots: nat := want, max;
    args := [];
    var i := 1;
    while a[i] != 0 && |args| < max
      invariant 0 < i < a.Length && slots == max - |args|
      invariant TokensIn(act, a[..], i, slots) == Some(more)
      invariant want.args == args + more.args && want.memory == more.memory
      decreases a.Length - i
    {
      ghost var t := act(a[..], i);
      TokensNext(act, a[..], i, slots, more);
      var found, start, next := NextToken(a, i, t, act);
      if !found {
        assert args + [] == args;
        return;
      }
      Shift(args, more.args);
      args, i := args + [start], next;
      more, slots := Parsed(more.args[1..], more.memory), slots - 1;
    }
    if slots > 0 {
      EndsAtNul(act, a[..], i);
    }
    TokensNext(act, a[..], i, slots, more);
    assert args + [] == args;
  }

  // ---------- Lines whose tokens resolve ----------

  /** The C string at `p` of `s` is `t`. */
  predicate StringAt(s: seq<byte>, p: nat, t: seq<byte>) {
    p + |t| < |s| && s[p..p + |t|] == t && s[p + |t|] == 0
  }

  ghost predicate StringsAt(s: seq<byte>, args: seq<nat>, texts: seq<seq<byte>>) {
    |args| == |texts| && forall k :: 0 <= k < |args| ==> StringAt(s, args[k], texts[k])
  }

  /** A line without terminator inside, up to the one `n` bytes further. */
  ghost predicate LineOf(m: seq<byte>, i: nat, n: nat) {
    i + n < |m| && m[i + n] == 0 && NoNul(m[i..i + n])
  }

  /** Taking the token at `i` put `text` at its place and left alone what is before and behind it. */
  ghost predicate TookRight(m: seq<byte>, i: nat, n: nat, text: seq<byte>, t: Taken) {
    && |t.memory| == |m| && i + n < |m| && i < t.next <= i + n && i <= t.start
    && StringAt(t.memory, t.start, text) && (t.start + |text| < t.next || t.next == i + n)
    && t.memory[..i] == m[..i] && t.memory[t.next..] == m[t.next..]
  }

  lemma OverwriteString(m: seq<byte>, p: nat, b: seq<byte>, next: nat, i: nat)
    requires i <= p && p + |b| < |m| && p + |b| <= next <= |m| && (p + |b| == next ==> next < |m| && m[next] == 0)
    ensures var r := Overwrite(m, p, b); StringAt(r, p, b) && r[..i] == m[..i] && r[next..] == m[next..]
  {
  }

  lemma WalkIs(walk: seq<byte> -> Option<Run>, res: seq<byte> -> Option<seq<byte>>, t: seq<byte>, more: seq<byte>)
    requires Walks(walk) && Resolves(res) && NoNul(t) && res(t).Some?
    ensures |res(t).value| <= |t| && walk(t + [0] + more) == Some(Run(res(t).value, |t|))
  {
    WalkString(walk, res, t, more);
    assert res(t) == Resolve(t);
  }

  /** A token that resolves is taken as the line says. */
  lemma TakeAgrees(walk: seq<byte> -> Option<Run>, res: seq<byte> -> Option<seq<byte>>, m: seq<byte>, i: nat, n: nat, c: Cut)
    requires Walks(walk) && Resolves(res) && 0 < n && LineOf(m, i, n) && !IsSpace(m[i])
    requires c == FirstTokenBy(res, m[i..i + n]) && c.text.Some?
    ensures TookFirst(m, i, n, c, TakeAt(walk, m, i, n))
  {
    var s := m[i..i + n];
    var raw := RawToken(s);
    RawIsFirst(res, s);
    TakeText(walk, res, m, i, n, raw, s[raw.start..raw.stop], c.text.value);
  }

  lemma TakeText(walk: seq<byte> -> Option<Run>, res: seq<byte> -> Option<seq<byte>>, m: seq<byte>, i: nat, n: nat,
                 raw: Raw, text: seq<byte>, value: seq<byte>)
    requires Walks(walk) && Resolves(res) && LineOf(m, i, n) && raw.start <= raw.stop <= n && 1 <= raw.stop
    requires text == m[i..i + n][raw.start..raw.stop]
    requires if raw.resolve then res(text) == Some(value) else value == text
    ensures TookFirst(m, i, n, Cut(Some(value), Past(raw.stop, n)), TakeRaw(walk, m, i, n, raw))
  {
    CutMemory(m, i, n, raw.start, raw.stop);
    if raw.resolve {
      WalkIs(walk, res, text, m[i + raw.stop := 0][i + raw.stop + 1..]);
      TakeResolved(walk, m, i, n, raw, value);
    } else {
      TakePlain(walk, m, i, n, raw, text);
    }
  }

  lemma TakeResolved(walk: seq<byte> -> Option<Run>, m: seq<byte>, i: nat, n: nat, raw: Raw, value: seq<byte>)
    requires raw.start <= raw.stop <= n && 1 <= raw.stop && i + n < |m| && m[i + n] == 0 && raw.resolve
    requires |value| <= raw.stop - raw.start && walk(m[i + raw.stop := 0][i + raw.start..]) == Some(Run(value, raw.stop - raw.start))
    ensures TookFirst(m, i, n, Cut(Some(value), Past(raw.stop, n)), TakeRaw(walk, m, i, n, raw))
  {
    var cut := m[i + raw.stop := 0];
    CutOutside(m, i, n, raw.stop);
    ResolvedTook(m, cut, i, n, i + raw.start, i + raw.stop, i + Past(raw.stop, n), value);
    TakeRawIs(walk, m, i, n, raw, cut, value);
  }

  lemma TakeRawIs(walk: seq<byte> -> Option<Run>, m: seq<byte>, i: nat, n: nat, raw: Raw, cut: seq<byte>, value: seq<byte>)
    requires raw.start <= raw.stop <= n && 1 <= raw.stop && i + n < |m| && raw.resolve && cut == m[i + raw.stop := 0]
    requires walk(cut[i + raw.start..]).Some? && walk(cut[i + raw.start..]).value.bytes == value
    ensures TakeRaw(walk, m, i, n, raw)
         == Some(Taken(i + raw.start, i + Past(raw.stop, n), Overwrite(cut, i + raw.start, value)))
  {
  }

  lemma TakePlain(walk: seq<byte> -> Option<Run>, m: seq<byte>, i: nat, n: nat, raw: Raw, text: seq<byte>)
    requires raw.start <= raw.stop <= n && 1 <= raw.stop && i + n < |m| && m[i + n] == 0 && !raw.resolve
    requires |text| == raw.stop - raw.start && StringAt(m[i + raw.stop := 0], i + raw.start, text)
    ensures TookFirst(m, i, n, Cut(Some(text), Past(raw.stop, n)), TakeRaw(walk, m, i, n, raw))
  {
    CutOutside(m, i, n, raw.stop);
  }

  lemma ResolvedTook(m: seq<byte>, cut: seq<byte>, i: nat, n: nat, p: nat, stop: nat, next: nat, value: seq<byte>)
    requires |cut| == |m| && i <= p && p + |value| <= stop <= next <= i + n < |m| && i < next && cut[stop] == 0
    requires stop < next || next == i + n
    requires cut[..i] == m[..i] && cut[next..] == m[next..]
    ensures TookRight(m, i, n, value, Taken(p, next, Overwrite(cut, p, value)))
  {
    OverwriteString(cut, p, value, next, i);
  }

  lemma CutOutside(m: seq<byte>, i: nat, n: nat, b: nat)
    requires i + n < |m| && m[i + n] == 0 && 1 <= b <= n
    ensures var cut, next := m[i + b := 0], i + Past(b, n);
      cut[..i] == m[..i] && cut[next..] == m[next..]
  {
    var cut := m[i + b := 0];
    assert b == n ==> cut == m;
  }

  /** The memory behind the token's start, once its end is marked. */
  lemma CutMemory(m: seq<byte>, i: nat, n: nat, a: nat, b: nat)
    requires LineOf(m, i, n) && a <= b <= n
    ensures var text, cut := m[i..i + n][a..b], m[i + b := 0];
      NoNul(text) && cut[i + a..] == text + [0] + cut[i + b + 1..] && StringAt(cut, i + a, text)
  {
    var text, cut := m[i..i + n][a..b], m[i + b := 0];
    assert forall k :: 0 <= k < |text| ==> text[k] == m[i..i + n][a + k] == cut[i + a + k];
    assert cut[i + a..i + b] == text;
    assert cut[i + a..] == cut[i + a..i + b] + [cut[i + b]] + cut[i + b + 1..];
  }

  /** Tokens that `first` cuts off a line are taken right by `take`. */
  ghost predicate TakesLike(take: (seq<byte>, nat, nat) -> Option<Taken>, first: seq<byte> -> Cut) {
    forall m, i, n :: 0 < n && LineOf(m, i, n) && !IsSpace(m[i]) && first(m[i..i + n]).text.Some? ==>
      TookFirst(m, i, n, first(m[i..i + n]), take(m, i, n))
  }

  ghost predicate TookFirst(m: seq<byte>, i: nat, n: nat, c: Cut, t: Option<Taken>)
    requires c.text.Some?
  {
    t.Some? && t.value.next == i + c.used && TookRight(m, i, n, c.text.value, t.value)
  }

  lemma TakeFirst(m: seq<byte>, i: nat, n: nat, c: Cut)
    requires 0 < n && LineOf(m, i, n) && !IsSpace(m[i]) && c == FirstToken(m[i..i + n]) && c.text.Some?
    ensures TookFirst(m, i, n, c, Take(m, i, n))
  {
    TakeAgrees(Walk, Resolve, m, i, n, c);
  }

  /** One action of the tokenizer is one cut of the line. */
  lemma ActionAgrees(take: (seq<byte>, nat, nat) -> Option<Taken>, first: seq<byte> -> Cut, m: seq<byte>, i: nat, n: nat)
    requires TakesLike(take, first) && LineOf(m, i, n)
    ensures DidCut(m, i, n, NextCutBy(first, m[i..i + n]), ActionBy(take, m, i))
  {
    var k := Spaces(m[i..i + n]);
    var t := m[i + k..i + n];
    SpacesEnd(m[i..i + n]);
    LineFrom(m, i, n, k);
    ActionIs(take, m, i, n, k);
    CutIs(first, m[i..i + n], t);
    if k < n {
      assert !IsSpace(m[i + k]);
      var c := first(t);
      if c.text.Some? {
        assert TookFirst(m, i + k, n - k, c, take(m, i + k, n - k));
        TookFrom(m, i, n, k, c.text.value, take(m, i + k, n - k).value);
        assert t[c.used..] == m[i + k + c.used..i + n];
      }
    }
  }

  lemma CutIs(first: seq<byte> -> Cut, s: seq<byte>, t: seq<byte>)
    requires t == s[Spaces(s)..]
    ensures NextCutBy(first, s) ==
      if t == [] then End
      else if first(t).text.None? || first(t).used > |t| then Bad
      else Token(first(t).text.value, t[first(t).used..])
  {
  }

  lemma ActionIs(take: (seq<byte>, nat, nat) -> Option<Taken>, m: seq<byte>, i: nat, n: nat, k: nat)
    requires LineOf(m, i, n) && k == Spaces(m[i..i + n])
    ensures ActionBy(take, m, i) ==
      if k == n then Ends
      else if take(m, i + k, n - k).None? then Lost
      else Takes(take(m, i + k, n - k).value)
  {
    SpacesIn(m, i, n);
    LineFrom(m, i, n, k);
    assert k < n ==> m[i + k] == m[i..i + n][k];
  }

  /** The action takes the token that the line has next, and goes on with the rest of the line. */
  ghost predicate DidCut(m: seq<byte>, i: nat, n: nat, cut: Next, r: Action) {
    && (cut.End? ==> r == Ends)
    && (cut.Token? ==> r.Takes? && TookRight(m, i, n, cut.text, r.taken) && m[r.taken.next..i + n] == cut.rest)
  }

  /** The line from its first token on. */
  lemma LineFrom(m: seq<byte>, i: nat, n: nat, k: nat)
    requires LineOf(m, i, n) && k <= n
    ensures LineOf(m, i + k, n - k) && m[i..i + n][k..] == m[i + k..i + n] && StrLen(m[i + k..]) == n - k
  {
    var s, t := m[i..i + n], m[i + k..i + n];
    assert s[k..] == t;
    assert forall x :: 0 <= x < |t| ==> t[x] == s[k..][x] == s[x + k];
    assert m[i + k..][..n - k] == t;
    StrLenIs(m[i + k..], n - k);
  }

  lemma TookFrom(m: seq<byte>, i: nat, n: nat, k: nat, text: seq<byte>, t: Taken)
    requires k <= n && TookRight(m, i + k, n - k, text, t)
    ensures TookRight(m, i, n, text, t)
  {
    assert t.memory[..i] == t.memory[..i + k][..i] && m[..i] == m[..i + k][..i];
  }

  /** Spaces end at the latest at the terminator. */
  lemma {:induction false} SpacesIn(m: seq<byte>, i: nat, n: nat)
    requires LineOf(m, i, n)
    ensures Spaces(m[i..]) == Spaces(m[i..i + n])
    decreases n
  {
    if n > 0 {
      assert m[i..][0] == m[i..i + n][0];
      assert m[i..][1..] == m[i + 1..] && m[i..i + n][1..] == m[i + 1..i + n];
      SpacesIn(m, i + 1, n - 1);
    }
  }

  /** `first` cuts off tokens as `FirstToken` does. */
  ghost predicate Firsts(first: seq<byte> -> Cut) {
    forall s {:trigger FirstToken(s)} :: first(s) == FirstToken(s)
  }

  lemma TakesLikeFirst(take: (seq<byte>, nat, nat) -> Option<Taken>, first: seq<byte> -> Cut)
    requires TakesBy(take) && Firsts(first)
    ensures TakesLike(take, first)
  {
    forall m, i, n | 0 < n && LineOf(m, i, n) && !IsSpace(m[i]) && first(m[i..i + n]).text.Some?
      ensures TookFirst(m, i, n, first(m[i..i + n]), take(m, i, n))
    {
      assert first(m[i..i + n]) == FirstToken(m[i..i + n]);
      assert take(m, i, n) == Take(m, i, n);
      TakeFirst(m, i, n, first(m[i..i + n]));
    }
  }

  /** Every action is the cut of its line. */
  ghost predicate ActsLike(act: (seq<byte>, nat) -> Action, cut: seq<byte> -> Next) {
    forall m, i, n :: LineOf(m, i, n) ==> DidCut(m, i, n, cut(m[i..i + n]), act(m, i))
  }

  lemma ActsLikeCuts(act: (seq<byte>, nat) -> Action, cut: seq<byte> -> Next)
    requires Acts(act) && Cuts(cut)
    ensures ActsLike(act, cut)
  {
    TakesLikeFirst(Take, FirstToken);
    forall m, i, n | LineOf(m, i, n)
      ensures DidCut(m, i, n, cut(m[i..i + n]), act(m, i))
    {
      ActionAgrees(Take, FirstToken, m, i, n);
      assert cut(m[i..i + n]) == NextCut(m[i..i + n]) && act(m, i) == ActionAt(m, i);
    }
  }

  /** The tokenizer puts the tokens of the line at the places it returns, and leaves what is before the line. */
  lemma {:induction false} TokensAgree(
      act: (seq<byte>, nat) -> Action, cut: seq<byte> -> Next, m: seq<byte>, i: nat, n: nat, slots: nat, ts: seq<seq<byte>>)
      returns (o: Parsed)
    requires ActsLike(act, cut) && cut([]) == End && LineOf(m, i, n) && TokensBy(cut, m[i..i + n], slots) == Some(ts)
    ensures TokensIn(act, m, i, slots) == Some(o) && StringsAt(o.memory, o.args, ts)
    ensures |o.memory| == |m| && o.memory[..i] == m[..i] && (n == 0 ==> o.memory == m)
    decreases slots
  {
    var line := m[i..i + n];
    assert DidCut(m, i, n, cut(line), act(m, i));
    assert n == 0 ==> line == [];
    o := Parsed([], m);
    if slots > 0 && cut(line).Token? {
      var t, text := act(m, i).taken, cut(line).text;
      var left := i + n - t.next;
      LineAfter(m, i, n, text, t);
      var more := TokensBy(cut, cut(line).rest, slots - 1).value;
      var rest := TokensAgree(act, cut, t.memory, t.next, left, slots - 1, more);
      StringKept(t.memory, rest.memory, t.start, text, t.next, left);
      o := Parsed([t.start] + rest.args, rest.memory);
      assert ts == [text] + more;
      assert o.memory[..i] == rest.memory[..t.next][..i] == t.memory[..t.next][..i] == t.memory[..i];
    }
  }

  /** The rest of the line is still there once a token has been taken. */
  lemma LineAfter(m: seq<byte>, i: nat, n: nat, text: seq<byte>, t: Taken)
    requires LineOf(m, i, n) && TookRight(m, i, n, text, t)
    ensures LineOf(t.memory, t.next, i + n - t.next) && t.memory[t.next..i + n] == m[t.next..i + n]
  {
    var left := i + n - t.next;
    LineFrom(m, i, n, t.next - i);
    SameSlice(t.memory, m, t.next, left);
  }

  lemma SameSlice(a: seq<byte>, b: seq<byte>, p: nat, n: nat)
    requires p + n < |a| == |b| && a[p..] == b[p..]
    ensures a[p..p + n] == b[p..p + n] && a[p + n] == b[p + n]
  {
    assert a[p..p + n] == a[p..][..n] && b[p..p + n] == b[p..][..n];
    assert a[p + n] == a[p..][n] && b[p + n] == b[p..][n];
  }

  /** A token survives what happens behind it. */
  lemma StringKept(before: seq<byte>, after: seq<byte>, p: nat, text: seq<byte>, next: nat, left: nat)
    requires StringAt(before, p, text) && |before| == |after| && next <= |before| && before[..next] == after[..next]
    requires p + |text| < next || (left == 0 && before == after)
    ensures StringAt(after, p, text)
  {
    if p + |text| < next {
      assert forall k :: 0 <= k < next ==> after[k] == after[..next][k] == before[..next][k] == before[k];
      assert after[p..p + |text|] == before[p..p + |text|];
    }
  }

  /** On a line whose tokens all resolve, the code finds exactly the tokens of the line. */
  lemma LineTokens(act: (seq<byte>, nat) -> Action, cut: seq<byte> -> Next, m: seq<byte>, n: nat, slots: nat, ts: seq<seq<byte>>)
      returns (o: Parsed)
    requires Acts(act) && Cuts(cut) && LineOf(m, 1, n) && TokensBy(cut, m[1..1 + n], slots) == Some(ts)
    ensures TokensIn(act, m, 1, slots) == Some(o) && StringsAt(o.memory, o.args, ts)
  {
    ActsLikeCuts(act, cut);
    CutNothing(cut);
    o := TokensAgree(act, cut, m, 1, n, slots, ts);
  }

  // ---------- When tokens resolve, and what happens otherwise ----------

  /** Every token that is resolved has its trailing backslashes paired. */
  ghost predicate Paired(s: seq<byte>, slots: nat)
    decreases slots
  {
    var t := s[Spaces(s)..];
    if slots == 0 || t == [] then true
    else
      SpacesEnd(s);
      var raw := RawToken(t);
      && (raw.resolve ==> Trailing(t[raw.start..raw.stop]) % 2 == 0)
      && Paired(t[Past(raw.stop, |t|)..], slots - 1)
  }

  lemma FirstResolves(t: seq<byte>)
    requires t != [] && !IsSpace(t[0])
    ensures var raw := RawToken(t);
      && FirstToken(t).used == Past(raw.stop, |t|) <= |t|
      && (FirstToken(t).text.Some? <==> (raw.resolve ==> Trailing(t[raw.start..raw.stop]) % 2 == 0))
  {
    RawIsFirst(Resolve, t);
    ResolvesExactly(t[RawToken(t).start..RawToken(t).stop]);
  }

  /** A line with a token has tokens if that one resolves and the rest has tokens; and likewise for the condition. */
  lemma FirstStep(cut: seq<byte> -> Next, s: seq<byte>, slots: nat) returns (ok: bool, rest: seq<byte>)
    requires Cuts(cut) && slots > 0 && s[Spaces(s)..] != []
    ensures TokensBy(cut, s, slots).Some? <==> ok && TokensBy(cut, rest, slots - 1).Some?
    ensures Paired(s, slots) <==> ok && Paired(rest, slots - 1)
  {
    var t := s[Spaces(s)..];
    SpacesEnd(s);
    FirstResolves(t);
    CutIs(FirstToken, s, t);
    assert cut(s) == NextCut(s);
    ok, rest := FirstToken(t).text.Some?, t[FirstToken(t).used..];
  }

  lemma NoToken(cut: seq<byte> -> Next, s: seq<byte>)
    requires Cuts(cut) && s[Spaces(s)..] == []
    ensures cut(s) == End
  {
    CutIs(FirstToken, s, []);
    assert cut(s) == NextCut(s);
  }

  /** A line has tokens, in the sense of the specification, exactly under this condition. */
  lemma {:induction false} TokensExactly(cut: seq<byte> -> Next, s: seq<byte>, slots: nat)
    requires Cuts(cut)
    ensures TokensBy(cut, s, slots).Some? <==> Paired(s, slots)
    decreases slots
  {
    if slots > 0 {
      if s[Spaces(s)..] == [] {
        NoToken(cut, s);
      } else {
        var ok, rest := FirstStep(cut, s, slots);
        TokensExactly(cut, rest, slots - 1);
      }
    }
  }

  function Ahead(t: seq<byte>, r: Option<Run>): Option<Run> {
    if r.None? then None else Some(Run(t + r.value.bytes, |t| + r.value.used))
  }

  lemma AheadOne(c: byte, t: seq<byte>, r: Option<Run>)
    ensures Before(c, 1, Ahead(t, r)) == Ahead([c] + t, r)
  {
    assert r.Some? ==> [c] + (t + r.value.bytes) == ([c] + t) + r.value.bytes;
  }

  lemma PlainOne(walk: seq<byte> -> Option<Run>, c: byte, s: seq<byte>)
    requires Walks(walk) && c != 0 && c != BACKSLASH
    ensures walk([c] + s) == Before(c, 1, walk(s))
  {
    assert ([c] + s)[1..] == s;
    WalkOne([c] + s, 1, s);
  }

  predicate PlainText(x: seq<byte>) {
    forall i :: 0 <= i < |x| ==> x[i] != 0 && x[i] != BACKSLASH && !IsSpace(x[i])
  }

  lemma {:induction false} WalkPlain(walk: seq<byte> -> Option<Run>, t: seq<byte>, s: seq<byte>)
    requires Walks(walk) && PlainText(t)
    ensures walk(t + s) == Ahead(t, walk(s))
    decreases |t|
  {
    if t == [] {
      assert t + s == s;
      assert walk(s).Some? ==> [] + walk(s).value.bytes == walk(s).value.bytes;
    } else {
      WalkPlain(walk, t[1..], s);
      PlainOne(walk, t[0], t[1..] + s);
      AheadOne(t[0], t[1..], walk(s));
      assert [t[0]] + (t[1..] + s) == t + s && [t[0]] + t[1..] == t;
    }
  }

  /** The loop on a word that ends in a single backslash, with plain text behind its terminator. */
  lemma UnpairedWalk(walk: seq<byte> -> Option<Run>, w: seq<byte>, x: seq<byte>)
    requires Walks(walk) && PlainText(w) && PlainText(x)
    ensures walk(w + [BACKSLASH, 0] + (x + [0])) == Some(Run(w + [0] + x, |w| + 2 + |x|))
  {
    assert Walk([0]) == Some(Run([], 0));
    WalkPlain(walk, x, [0]);
    LoneOne(walk, x + [0]);
    WalkPlain(walk, w, [BACKSLASH, 0] + (x + [0]));
    Regroup(w, [BACKSLASH, 0], x + [0]);
    Regroup(w, [0], x);
    assert x + [] == x;
  }

  /** The memory of a line `.w\ x`, and what is left of it once its first token is resolved. */
  function UnpairedLine(w: seq<byte>, x: seq<byte>): seq<byte> {
    [46] + (w + [BACKSLASH, SPACE] + x) + [0]
  }

  function Mangled(w: seq<byte>, x: seq<byte>): seq<byte> {
    [46] + (w + [0] + x) + [0, 0]
  }

  lemma UnpairedMemory(w: seq<byte>, x: seq<byte>)
    ensures var cut := UnpairedLine(w, x)[|w| + 2 := 0];
      cut[1..] == w + [BACKSLASH, 0] + (x + [0]) && Overwrite(cut, 1, w + [0] + x) == Mangled(w, x)
  {
    var cut := UnpairedLine(w, x)[|w| + 2 := 0];
    assert cut == [46] + (w + [BACKSLASH, 0] + (x + [0]));
    var b := w + [0] + x;
    assert cut[..1] == [46] && cut[1 + |b| + 1..] == [0];
  }

  lemma UnpairedTake(walk: seq<byte> -> Option<Run>, w: seq<byte>, x: seq<byte>)
    requires Walks(walk) && PlainText(w) && PlainText(x)
    ensures TakeRaw(walk, UnpairedLine(w, x), 1, |w| + 2 + |x|, Raw(0, |w| + 1, true)) == Some(Taken(1, |w| + 3, Mangled(w, x)))
  {
    UnpairedMemory(w, x);
    UnpairedWalk(walk, w, x);
  }

  lemma UnpairedRaw(w: seq<byte>, x: seq<byte>)
    requires PlainWord(w) && PlainText(w) && PlainText(x)
    ensures var m, n := UnpairedLine(w, x), |w| + 2 + |x|;
      && LineOf(m, 1, n) && Spaces(m[1..1 + n]) == 0 && !IsSpace(m[1]) && RawToken(m[1..1 + n]) == Raw(0, |w| + 1, true)
  {
    var line := w + [BACKSLASH, SPACE] + x;
    assert UnpairedLine(w, x)[1..1 + |line|] == line;
    assert line[0] == w[0];
    WordEndPlain(w + [BACKSLASH], [SPACE] + x);
    assert (w + [BACKSLASH]) + ([SPACE] + x) == line;
  }

  lemma UnpairedTaken(take: (seq<byte>, nat, nat) -> Option<Taken>, w: seq<byte>, x: seq<byte>)
    requires TakesBy(take) && PlainWord(w) && PlainText(w) && PlainText(x)
    ensures take(UnpairedLine(w, x), 1, |w| + 2 + |x|) == Some(Taken(1, |w| + 3, Mangled(w, x)))
  {
    UnpairedRaw(w, x);
    UnpairedTake(Walk, w, x);
    assert take(UnpairedLine(w, x), 1, |w| + 2 + |x|) == Take(UnpairedLine(w, x), 1, |w| + 2 + |x|);
  }

  lemma UnpairedFirst(take: (seq<byte>, nat, nat) -> Option<Taken>, w: seq<byte>, x: seq<byte>)
    requires TakesBy(take) && PlainWord(w) && PlainText(w) && PlainText(x)
    ensures ActionBy(take, UnpairedLine(w, x), 1) == Takes(Taken(1, |w| + 3, Mangled(w, x)))
  {
    UnpairedRaw(w, x);
    UnpairedTaken(take, w, x);
    ActionIs(take, UnpairedLine(w, x), 1, |w| + 2 + |x|, 0);
  }

  lemma MangledLine(w: seq<byte>, x: seq<byte>)
    requires x != [] && PlainText(x)
    ensures var m, p, y := Mangled(w, x), |w| + 3, x[1..];
      LineOf(m, p, |y|) && m[p..p + |y|] == y && StringAt(m, 1, w)
  {
    var m, p, y := Mangled(w, x), |w| + 3, x[1..];
    assert m[1..1 + |w|] == w;
    assert m[p..p + |y|] == y;
  }

  lemma OneWord(cut: seq<byte> -> Next, y: seq<byte>, slots: nat)
    requires cut(y) == Token(y, []) && cut([]) == End && slots > 0
    ensures TokensBy(cut, y, slots) == Some([y])
  {
    TokensCons(cut, y, slots, y, [], []);
    assert [y] + [] == [y];
  }

  lemma CutPlain(cut: seq<byte> -> Next, y: seq<byte>)
    requires Cuts(cut) && PlainWord(y)
    ensures cut(y) == Token(y, [])
  {
    CutWord(y, []);
    assert y + [] == y;
    assert cut(y) == NextCut(y);
  }

  /**
   Resolving a token that ends in a single backslash reaches into the next token, and
   that one then comes out without its first byte.
   */
  lemma UnpairedMangles(act: (seq<byte>, nat) -> Action, cut: seq<byte> -> Next, w: seq<byte>, x: seq<byte>, slots: nat)
      returns (o: Parsed)
    requires Acts(act) && Cuts(cut) && slots >= 2
    requires PlainWord(w) && PlainText(w) && PlainText(x) && |x| > 1 && PlainWord(x[1..])
    ensures TokensIn(act, UnpairedLine(w, x), 1, slots) == Some(o) && StringsAt(o.memory, o.args, [w, x[1..]])
  {
    UnpairedFirst(Take, w, x);
    assert act(UnpairedLine(w, x), 1) == ActionAt(UnpairedLine(w, x), 1);
    MangledLine(w, x);
    ActsLikeCuts(act, cut);
    CutNothing(cut);
    CutPlain(cut, x[1..]);
    OneWord(cut, x[1..], slots - 1);
    o := TokenBefore(act, cut, UnpairedLine(w, x), Mangled(w, x), w, x[1..], |w| + 3, slots);
  }

  /** A token taken at 1, and one more behind it. */
  lemma TokenBefore(act: (seq<byte>, nat) -> Action, cut: seq<byte> -> Next, line: seq<byte>, m: seq<byte>,
                    w: seq<byte>, y: seq<byte>, p: nat, slots: nat) returns (o: Parsed)
    requires ActsLike(act, cut) && cut([]) == End && slots > 0 && act(line, 1) == Takes(Taken(1, p, m))
    requires LineOf(m, p, |y|) && StringAt(m, 1, w) && 1 + |w| < p && TokensBy(cut, m[p..p + |y|], slots - 1) == Some([y])
    ensures TokensIn(act, line, 1, slots) == Some(o) && StringsAt(o.memory, o.args, [w, y])
  {
    var rest := TokensAgree(act, cut, m, p, |y|, slots - 1, [y]);
    StringKept(m, rest.memory, 1, w, p, |y|);
    o := Parsed([1] + rest.args, rest.memory);
  }

  /** In particular `.a\ bcd` comes out as `a` and `cd`. */
  lemma UnpairedExample(act: (seq<byte>, nat) -> Action, slots: nat) returns (o: Parsed)
    requires Acts(act) && slots >= 2
    ensures TokensIn(act, [46, 97, 92, 32, 98, 99, 100, 0], 1, slots) == Some(o)
    ensures StringsAt(o.memory, o.args, [[97], [99, 100]])
  {
    var w: seq<byte>, x: seq<byte> := [97], [98, 99, 100];
    assert UnpairedLine(w, x) == [46, 97, 92, 32, 98, 99, 100, 0] && x[1..] == [99, 100];
    o := UnpairedMangles(act, NextCut, w, x, slots);
  }

  // ---------- Printing a command line and reading it back ----------

  /** Prints a dot command with its arguments, then tokenizes the line in place. */
  method EchoCommand(word: seq<byte>, args: seq<seq<byte>>) returns (line: array<byte>, found: seq<nat>)
    requires PlainWord(word) && NoNul(word) && |args| <= 49
    requires forall i :: 0 <= i < |args| ==> NoNul(args[i])
    ensures StringsAt(line[..], found, [word] + args)
  {
    line, found := EchoBy(word, args, MAX_ARGS, ActionAt, NextCut);
  }

  method EchoBy(word: seq<byte>, args: seq<seq<byte>>, slots: nat,
                ghost act: (seq<byte>, nat) -> Action, ghost cut: seq<byte> -> Next)
      returns (line: array<byte>, found: seq<nat>)
    requires PlainWord(word) && NoNul(word) && |args| < slots && Acts(act) && Cuts(cut)
    ensures StringsAt(line[..], found, [word] + args)
  {
    var printed := PrintArguments(args);
    var text: seq<byte> := [46] + (word + printed) + [0];
    line := new byte[|text|](i requires 0 <= i < |text| => text[i]);
    assert line[..] == text;
    ghost var n := |word + printed|;
    assert text[1..1 + n] == word + printed;
    ArgumentsNoNul(args);
    CommandBy(cut, word, args, slots);
    ghost var o := LineTokens(act, cut, text, n, slots, [word] + args);
    found := Tokenize(line, slots, act);
  }
}
