/** The RC4 codec: state permutation, keystream, and the in-place method. */
module Rc4 {
  import opened Bytes

  const SIZE := 256

  function Identity(n: nat): (s: seq<byte>)
    requires n <= SIZE
    ensures |s| == n && forall i :: 0 <= i < n ==> s[i] == i
  {
    seq(n, i requires 0 <= i < n => i)
  }

  /** Every octet occurs exactly once. */
  ghost predicate Permutation(s: seq<byte>) {
    |s| == SIZE && multiset(s) == multiset(Identity(SIZE))
  }

  function Swap(s: seq<byte>, i: byte, j: byte): (r: seq<byte>)
    requires |s| == SIZE
    ensures |r| == SIZE
  {
    s[i := s[j]][j := s[i]]
  }

  lemma SwapPermutes(s: seq<byte>, i: byte, j: byte)
    requires Permutation(s)
    ensures Permutation(Swap(s, i, j))
  {
  }

  // ---------- The key schedule ----------

  datatype Schedule = Schedule(s: seq<byte>, j: byte)

  function Mix(p: Schedule, i: byte, k: byte): (q: Schedule)
    requires |p.s| == SIZE
    ensures |q.s| == SIZE
  {
    var j := (p.j + p.s[i] + k) % SIZE;
    Schedule(Swap(p.s, i, j), j)
  }

  /** The array after `i` steps of the schedule. */
  function Scheduled(key: seq<byte>, i: nat): (p: Schedule)
    requires key != [] && i <= SIZE
    ensures |p.s| == SIZE
  {
    if i == 0 then Schedule(Identity(SIZE), 0)
    else Mix(Scheduled(key, i - 1), i - 1, key[(i - 1) % |key|])
  }

  lemma {:induction false} ScheduledPermutes(key: seq<byte>, i: nat)
    requires key != [] && i <= SIZE
    ensures Permutation(Scheduled(key, i).s)
  {
    if i > 0 {
      ScheduledPermutes(key, i - 1);
      var p := Scheduled(key, i - 1);
      SwapPermutes(p.s, i - 1, (p.j + p.s[i - 1] + key[(i - 1) % |key|]) % SIZE);
    }
  }

  // ---------- The keystream ----------

  datatype State = State(s: seq<byte>, a: byte, b: byte)

  function Next(p: State): (q: State)
    requires |p.s| == SIZE
    ensures |q.s| == SIZE
  {
    var a := (p.a + 1) % SIZE;
    var b := (p.b + p.s[a]) % SIZE;
    State(Swap(p.s, a, b), a, b)
  }

  /** The state after `n` bytes of any text, from the array that the schedule left. */
  function AfterFrom(s: seq<byte>, n: nat): (p: State)
    requires |s| == SIZE
    ensures |p.s| == SIZE
  {
    if n == 0 then State(s, 0, 0) else Next(AfterFrom(s, n - 1))
  }

  function After(key: seq<byte>, n: nat): (p: State)
    requires key != []
    ensures |p.s| == SIZE
  {
    AfterFrom(Scheduled(key, SIZE).s, n)
  }

  lemma NextPermutes(p: State)
    requires Permutation(p.s)
    ensures Permutation(Next(p).s)
  {
    var a := (p.a + 1) % SIZE;
    SwapPermutes(p.s, a, (p.b + p.s[a]) % SIZE);
  }

  lemma {:induction false} AfterFromPermutes(s: seq<byte>, n: nat)
    requires Permutation(s)
    ensures Permutation(AfterFrom(s, n).s)
  {
    if n > 0 {
      AfterFromPermutes(s, n - 1);
      NextPermutes(AfterFrom(s, n - 1));
    }
  }

  /** The array is a permutation of the octets after every byte coded. */
  lemma AfterPermutes(key: seq<byte>, n: nat)
    requires key != []
    ensures Permutation(After(key, n).s)
  {
    ScheduledPermutes(key, SIZE);
    AfterFromPermutes(Scheduled(key, SIZE).s, n);
  }

  /** Octet `i` of the keystream, a function of the key alone. */
  function KeyByte(key: seq<byte>, i: nat): byte
    requires key != []
  {
    Output(After(key, i + 1))
  }

  function Output(p: State): byte
    requires |p.s| == SIZE
  {
    p.s[(p.s[p.a] + p.s[p.b]) % SIZE]
  }

  function Coded(key: seq<byte>, text: seq<byte>): (r: seq<byte>)
    requires key != []
    ensures |r| == |text|
  {
    seq(|text|, i requires 0 <= i < |text| => Xor(text[i], KeyByte(key, i)))
  }

  /** Coding twice with one key gives the text back. */
  lemma CodedTwice(key: seq<byte>, text: seq<byte>)
    requires key != []
    ensures Coded(key, Coded(key, text)) == text
  {
    forall i | 0 <= i < |text|
      ensures Xor(Xor(text[i], KeyByte(key, i)), KeyByte(key, i)) == text[i]
    {
      XorCancel(text[i], KeyByte(key, i));
    }
  }

  /** Every prefix is coded as it would be alone. */
  lemma CodedPrefix(key: seq<byte>, text: seq<byte>, more: seq<byte>)
    requires key != []
    ensures Coded(key, text + more)[..|text|] == Coded(key, text)
  {
  }

  // ---------- What the keystream is ----------

  /** The first index counts the bytes. */
  lemma {:induction false} CountsBytes(s: seq<byte>, n: nat)
    requires |s| == SIZE
    ensures AfterFrom(s, n).a == n % SIZE
  {
    if n > 0 {
      CountsBytes(s, n - 1);
      NextIndex(n - 1);
      assert AfterFrom(s, n).a == (AfterFrom(s, n - 1).a + 1) % SIZE;
    }
  }

  lemma NextIndex(n: nat)
    ensures (n % SIZE + 1) % SIZE == (n + 1) % SIZE
  {
  }

  /** The octet that leaves state `p`, in closed form. */
  lemma OutputIs(p: State)
    requires |p.s| == SIZE
    ensures var a := (p.a + 1) % SIZE;
      var b := (p.b + p.s[a]) % SIZE;
      var t := (p.s[a] + p.s[b]) % SIZE;
      && Next(p).b == b && Next(p).s == p.s[a := p.s[b]][b := p.s[a]]
      && Output(Next(p)) == if t == a then p.s[b] else if t == b then p.s[a] else p.s[t]
  {
    var a := (p.a + 1) % SIZE;
    var b := (p.b + p.s[a]) % SIZE;
    assert Next(p) == State(Swap(p.s, a, b), a, b);
    assert Swap(p.s, a, b)[a] == p.s[b] && Swap(p.s, a, b)[b] == p.s[a];
  }

  /**
   Octet `i` in closed form over the array before it: the octets at the two indices
   are exchanged, and the one at the sum of both is taken.
   */
  lemma KeyByteIs(key: seq<byte>, i: nat)
    requires key != []
    ensures var s, a := After(key, i).s, (i + 1) % SIZE;
      var b := (After(key, i).b + s[a]) % SIZE;
      var t := (s[a] + s[b]) % SIZE;
      && After(key, i + 1).b == b && After(key, i + 1).s == s[a := s[b]][b := s[a]]
      && KeyByte(key, i) == if t == a then s[b] else if t == b then s[a] else s[t]
  {
    ByteFrom(Scheduled(key, SIZE).s, i);
  }

  lemma ByteFrom(start: seq<byte>, i: nat)
    requires |start| == SIZE
    ensures var s, a := AfterFrom(start, i).s, (i + 1) % SIZE;
      var b := (AfterFrom(start, i).b + s[a]) % SIZE;
      var t := (s[a] + s[b]) % SIZE;
      && AfterFrom(start, i + 1).b == b && AfterFrom(start, i + 1).s == s[a := s[b]][b := s[a]]
      && Output(AfterFrom(start, i + 1)) == if t == a then s[b] else if t == b then s[a] else s[t]
  {
    CountsBytes(start, i);
    NextIndex(i);
    OutputIs(AfterFrom(start, i));
    assert AfterFrom(start, i + 1) == Next(AfterFrom(start, i));
  }

  /** The first octet, over the scheduled array alone. */
  lemma FirstKeyByte(key: seq<byte>)
    requires key != []
    ensures var s := Scheduled(key, SIZE).s;
      var b := s[1];
      var t := (s[1] + s[b]) % SIZE;
      KeyByte(key, 0) == if t == 1 then s[b] else if t == b then s[1] else s[t]
  {
    ByteFrom(Scheduled(key, SIZE).s, 0);
  }

  /** Each step of the schedule uses up the next octet of the key, which can be read off it again. */
  lemma KeyFromSchedule(key: seq<byte>, i: nat)
    requires key != [] && i < SIZE
    ensures var p, q := Scheduled(key, i), Scheduled(key, i + 1);
      && key[i % |key|] == (q.j - p.j - p.s[i]) % SIZE
      && q.s[q.j] == p.s[i] && q.s[i] == (if q.j == i then p.s[i] else p.s[q.j])
      && forall k :: 0 <= k < SIZE && k != i && k != q.j ==> q.s[k] == p.s[k]
  {
    var p, q, c := Scheduled(key, i), Scheduled(key, i + 1), key[i % |key|];
    assert q == Mix(p, i, c);
    Undo(p.j + p.s[i], c);
  }

  lemma Undo(x: nat, c: byte)
    ensures ((x + c) % SIZE - x) % SIZE == c
  {
    var q := (x + c) / SIZE;
    assert (x + c) % SIZE - x == c - SIZE * q;
  }

  /** The array starts with the octets in order, and its first becomes the first of the key. */
  lemma FirstScheduled(key: seq<byte>)
    requires key != []
    ensures (forall k :: 0 <= k < SIZE ==> Scheduled(key, 0).s[k] == k) && Scheduled(key, 0).j == 0
    ensures Scheduled(key, 1).s[0] == key[0]
  {
    assert Scheduled(key, 1) == Mix(Scheduled(key, 0), 0, key[0 % |key|]);
  }

  /** Different keys of one length, up to the array's, are scheduled differently. */
  lemma ScheduleTellsKeys(a: seq<byte>, b: seq<byte>)
    requires a != [] && |a| == |b| <= SIZE
    requires forall i :: 0 <= i <= SIZE ==> SameAt(a, b, i)
    ensures a == b
  {
    forall i | 0 <= i < |a|
      ensures a[i] == b[i]
    {
      assert SameAt(a, b, i) && SameAt(a, b, i + 1);
      SameOctet(a, b, i);
    }
  }

  /** Two keys lead to the same array and index after `i` steps. */
  ghost predicate SameAt(a: seq<byte>, b: seq<byte>, i: nat) {
    a != [] && b != [] && i <= SIZE && Scheduled(a, i) == Scheduled(b, i)
  }

  lemma SameOctet(a: seq<byte>, b: seq<byte>, i: nat)
    requires |a| == |b| <= SIZE && i < |a| && SameAt(a, b, i) && SameAt(a, b, i + 1)
    ensures a[i] == b[i]
  {
    OctetFrom(a, i);
    OctetFrom(b, i);
  }

  lemma OctetFrom(key: seq<byte>, i: nat)
    requires i < |key| <= SIZE
    ensures key[i] == (Scheduled(key, i + 1).j - Scheduled(key, i).j - Scheduled(key, i).s[i]) % SIZE
  {
    SmallIndex(i, |key|);
    KeyFromSchedule(key, i);
  }

  lemma SmallIndex(i: nat, n: nat)
    requires i < n
    ensures i % n == i
  {
  }

  // ---------- The code ----------

  method Exchange(rc4: array<byte>, i: byte, j: byte)
    requires rc4.Length == SIZE
    modifies rc4
    ensures rc4[..] == Swap(old(rc4[..]), i, j)
  {
    var t := rc4[i];
    rc4[i] := rc4[j];
    rc4[j] := t;
  }

  method Number(rc4: array<byte>)
    requires rc4.Length == SIZE
    modifies rc4
    ensures rc4[..] == Identity(SIZE)
  {
    for i := 0 to SIZE
      invariant forall k :: 0 <= k < i ==> rc4[k] == k
    {
      rc4[i] := i;
    }
  }

  method SetKey(rc4: array<byte>, key: seq<byte>)
    requires rc4.Length == SIZE && key != []
    modifies rc4
    ensures rc4[..] == Scheduled(key, SIZE).s
  {
    Number(rc4);
    var j: byte := 0;
    for i := 0 to SIZE
      invariant Schedule(rc4[..], j) == Scheduled(key, i)
    {
      var k := key[i % |key|];
      j := (j + rc4[i] + k) % SIZE;
      Exchange(rc4, i, j);
    }
  }

  method Advance(rc4: array<byte>, a0: byte, b0: byte) returns (a: byte, b: byte, k: byte)
    requires rc4.Length == SIZE
    modifies rc4
    ensures State(rc4[..], a, b) == Next(State(old(rc4[..]), a0, b0)) && k == Output(State(rc4[..], a, b))
  {
    a := (a0 + 1) % SIZE;
    b := (b0 + rc4[a]) % SIZE;
    Exchange(rc4, a, b);
    k := rc4[(rc4[a] + rc4[b]) % SIZE];
  }

  method Emit(rc4: array<byte>, textin: array<byte>, textout: array<byte>, textlen: nat, ghost key: seq<byte>)
    requires key != [] && textlen <= textin.Length && textlen <= textout.Length
    requires rc4.Length == SIZE && rc4 != textin && rc4 != textout && State(rc4[..], 0, 0) == After(key, 0)
    modifies rc4, textout
    ensures forall k :: 0 <= k < textlen ==> textout[k] == Xor(old(textin[k]), KeyByte(key, k))
    ensures forall k :: textlen <= k < textout.Length ==> textout[k] == old(textout[k])
  {
    var a: byte, b: byte := 0, 0;
    for i := 0 to textlen
      invariant State(rc4[..], a, b) == After(key, i)
      invariant forall k :: 0 <= k < i ==> textout[k] == Xor(old(textin[k]), KeyByte(key, k))
      invariant forall k :: textlen <= k < textout.Length ==> textout[k] == old(textout[k])
      invariant forall k :: i <= k < textlen ==> textin[k] == old(textin[k])
    {
      var k;
      a, b, k := Advance(rc4, a, b);
      assert k == KeyByte(key, i);
      textout[i] := Xor(textin[i], k);
    }
  }

  /** `CodecRC4`: the text may be coded onto itself. */
  method Codec(key: seq<byte>, textin: array<byte>, textout: array<byte>, textlen: nat)
    requires key != [] && textlen <= textin.Length && textlen <= textout.Length
    modifies textout
    ensures textout[..textlen] == Coded(key, old(textin[..textlen]))
    ensures textout[textlen..] == old(textout[textlen..])
  {
    var rc4 := new byte[SIZE];
    SetKey(rc4, key);
    Emit(rc4, textin, textout, textlen, key);
  }

  /** Coding a buffer onto itself twice leaves it as it was. */
  method CodeTwice(key: seq<byte>, text: array<byte>)
    requires key != []
    modifies text
    ensures text[..] == old(text[..])
  {
    ghost var before := text[..];
    assert text[..text.Length] == before;
    Codec(key, text, text, text.Length);
    assert text[..text.Length] == text[..];
    Codec(key, text, text, text.Length);
    assert text[..text.Length] == text[..];
    CodedTwice(key, before);
  }
}
