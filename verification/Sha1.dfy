/** Streaming SHA-1 against FIPS 180-4. */
module Sha1 {
  import opened Bytes

  const BLOCK := 64
  const MAX_UINT64 := 0x1_0000_0000_0000_0000

  // ---------- Section 4.1.1 and 6.1.2 of FIPS 180-4 ----------

  datatype Words = Words(a: bv32, b: bv32, c: bv32, d: bv32, e: bv32)

  const INITIAL := Words(0x67452301, 0xEFCDAB89, 0x98BADCFE, 0x10325476, 0xC3D2E1F0)

  function Rotl(n: nat, x: bv32): bv32
    requires 0 < n < 32
  {
    (x << n) | (x >> (32 - n))
  }

  function Ch(x: bv32, y: bv32, z: bv32): bv32 {
    (x & y) ^ ((x ^ 0xffffffff) & z)
  }

  function Parity(x: bv32, y: bv32, z: bv32): bv32 {
    x ^ y ^ z
  }

  function Maj(x: bv32, y: bv32, z: bv32): bv32 {
    (x & y) ^ (x & z) ^ (y & z)
  }

  function Mixed(t: nat, x: bv32, y: bv32, z: bv32): bv32 {
    if t < 20 then Ch(x, y, z) else if t < 40 then Parity(x, y, z)
    else if t < 60 then Maj(x, y, z) else Parity(x, y, z)
  }

  function Constant(t: nat): bv32 {
    if t < 20 then 0x5A827999 else if t < 40 then 0x6ED9EBA1
    else if t < 60 then 0x8F1BBCDC else 0xCA62C1D6
  }

  /** The big-endian word at position `t` of a block. */
  function BlockWord(block: seq<byte>, t: nat): bv32
    requires 4 * t + 4 <= |block|
  {
    (((block[4 * t] as bv32) << 24) | ((block[4 * t + 1] as bv32) << 16))
    | ((block[4 * t + 2] as bv32) << 8) | (block[4 * t + 3] as bv32)
  }

  function Expand(w3: bv32, w8: bv32, w14: bv32, w16: bv32): bv32 {
    Rotl(1, w3 ^ w8 ^ w14 ^ w16)
  }

  /** The message schedule. */
  function W(block: seq<byte>, t: nat): bv32
    requires |block| == BLOCK
  {
    if t < 16 then BlockWord(block, t)
    else Expand(W(block, t - 3), W(block, t - 8), W(block, t - 14), W(block, t - 16))
  }

  function Sum5(p: bv32, f: bv32, e: bv32, k: bv32, w: bv32): bv32 {
    p + f + e + k + w
  }

  function Round(block: seq<byte>, t: nat, s: Words): Words
    requires |block| == BLOCK
  {
    Words(Sum5(Rotl(5, s.a), Mixed(t, s.b, s.c, s.d), s.e, Constant(t), W(block, t)),
          s.a, Rotl(30, s.b), s.c, s.d)
  }

  function Rounds(block: seq<byte>, t: nat, s: Words): Words
    requires |block| == BLOCK
  {
    if t == 0 then s else Round(block, t - 1, Rounds(block, t - 1, s))
  }

  function Compress(s: Words, block: seq<byte>): Words
    requires |block| == BLOCK
  {
    AddWords(s, Rounds(block, 80, s))
  }

  function AddWords(s: Words, r: Words): Words {
    Words(s.a + r.a, s.b + r.b, s.c + r.c, s.d + r.d, s.e + r.e)
  }

  // ---------- The compression loop ----------

  /** The choice and majority functions as the code writes them. */
  function WrittenCh(x: bv32, y: bv32, z: bv32): bv32 {
    z ^ (x & (y ^ z))
  }

  function WrittenMaj(x: bv32, y: bv32, z: bv32): bv32 {
    (x & y) | (z & (x | y))
  }

  lemma ChRewrite(x: bv32, y: bv32, z: bv32)
    ensures WrittenCh(x, y, z) == Ch(x, y, z)
  {
    ChBits(x, y, z);
  }

  lemma ChBits(x: bv32, y: bv32, z: bv32)
    ensures z ^ (x & (y ^ z)) == (x & y) ^ ((x ^ 0xffffffff) & z)
  {
  }

  lemma MajRewrite(x: bv32, y: bv32, z: bv32)
    ensures WrittenMaj(x, y, z) == Maj(x, y, z)
  {
    MajBits(x, y, z);
  }

  lemma MajBits(x: bv32, y: bv32, z: bv32)
    ensures (x & y) | (z & (x | y)) == (x & y) ^ (x & z) ^ (y & z)
  {
  }

  function WrittenMix(t: nat, b: bv32, c: bv32, d: bv32): bv32 {
    if t < 20 then WrittenCh(b, c, d) else if t < 40 then Parity(b, c, d)
    else if t < 60 then WrittenMaj(b, c, d) else Parity(b, c, d)
  }

  lemma MixRewrite(t: nat, b: bv32, c: bv32, d: bv32)
    ensures WrittenMix(t, b, c, d) == Mixed(t, b, c, d)
  {
    if t < 20 {
      ChRewrite(b, c, d);
    } else if 40 <= t < 60 {
      MajRewrite(b, c, d);
    }
  }

  /** The sum in the order in which the code adds it up. */
  function WrittenSum(p: bv32, e: bv32, w: bv32, f: bv32, k: bv32): bv32 {
    var tmp := p + e + w;
    tmp + (f + k)
  }

  lemma SumRewrite(p: bv32, e: bv32, w: bv32, f: bv32, k: bv32)
    ensures WrittenSum(p, e, w, f, k) == Sum5(p, f, e, k, w)
  {
  }

  method LoadBlock(w: array<bv32>, block: seq<byte>)
    requires |block| == BLOCK && w.Length == 80
    modifies w
    ensures forall t :: 0 <= t < 16 ==> w[t] == BlockWord(block, t)
  {
    for t := 0 to 16
      invariant forall j :: 0 <= j < t ==> w[j] == BlockWord(block, j)
    {
      w[t] := BlockWord(block, t);
    }
  }

  ghost predicate Extended(w: seq<bv32>, t: nat) {
    16 <= t < |w| && w[t] == Expand(w[t - 3], w[t - 8], w[t - 14], w[t - 16])
  }

  method ExtendSchedule(w: array<bv32>, ghost want: seq<bv32>)
    requires w.Length == 80 == |want| && forall t :: 0 <= t < 16 ==> w[t] == want[t]
    requires forall t :: 16 <= t < 80 ==> Extended(want, t)
    modifies w
    ensures forall t :: 0 <= t < 80 ==> w[t] == want[t]
  {
    for t := 16 to 80
      invariant forall j :: 0 <= j < t ==> w[j] == want[j]
    {
      assert Extended(want, t);
      w[t] := Expand(w[t - 3], w[t - 8], w[t - 14], w[t - 16]);
    }
  }

  /** Loads the block and extends it to the whole schedule. */
  method MakeSchedule(block: seq<byte>) returns (w: array<bv32>)
    requires |block| == BLOCK
    ensures w.Length == 80 && forall t :: 0 <= t < 80 ==> w[t] == W(block, t)
  {
    w := new bv32[80];
    LoadBlock(w, block);
    ghost var want := seq(80, t requires 0 <= t < 80 => W(block, t));
    assert forall t :: 0 <= t < 16 ==> w[t] == W(block, t);
    forall t | 16 <= t < 80
      ensures Extended(want, t)
    {
      assert want[t] == W(block, t);
    }
    ExtendSchedule(w, want);
  }

  /** One round on the working variables. */
  method RunRound(ghost block: seq<byte>, t: nat, wt: bv32, s: Words) returns (r: Words)
    requires |block| == BLOCK && wt == W(block, t)
    ensures r == Round(block, t, s)
  {
    var tmp := WrittenSum(Rotl(5, s.a), s.e, wt, WrittenMix(t, s.b, s.c, s.d), Constant(t));
    MixRewrite(t, s.b, s.c, s.d);
    SumRewrite(Rotl(5, s.a), s.e, wt, Mixed(t, s.b, s.c, s.d), Constant(t));
    r := Words(tmp, s.a, Rotl(30, s.b), s.c, s.d);
  }

  method RunRounds(block: seq<byte>, w: array<bv32>, start: Words) returns (s: Words)
    requires |block| == BLOCK && w.Length == 80
    requires forall t :: 0 <= t < 80 ==> w[t] == W(block, t)
    ensures s == Rounds(block, 80, start)
  {
    s := start;
    for t := 0 to 80
      invariant s == Rounds(block, t, start)
    {
      s := RunRound(block, t, w[t], s);
    }
  }

  /** `SHA1_transform`. */
  method Transform(state: Words, block: seq<byte>) returns (r: Words)
    requires |block| == BLOCK
    ensures r == Compress(state, block)
  {
    var w := MakeSchedule(block);
    var s := RunRounds(block, w, state);
    r := AddWords(state, s);
  }

  // ---------- Section 5.1.1 and the hash of a whole message ----------

  /** The state after whole blocks. */
  function Fold(s: Words, blocks: seq<byte>): Words
    requires |blocks| % BLOCK == 0
    decreases |blocks|
  {
    if blocks == [] then s else Fold(Compress(s, blocks[..BLOCK]), blocks[BLOCK..])
  }

  /** Bytes missing from `n` until eight are free in the last block. */
  function Missing(n: nat): (k: nat)
    ensures k < BLOCK && (n + k) % BLOCK == BLOCK - 8
  {
    (2 * BLOCK - 8 - n % BLOCK) % BLOCK
  }

  lemma PaddedLength(n: nat)
    ensures (n + 1 + Missing(n + 1) + 8) % BLOCK == 0
  {
    var t := n + 1 + Missing(n + 1);
    assert t % BLOCK == BLOCK - 8;
  }

  function Zeros(k: nat): seq<byte> {
    seq(k, _ => 0)
  }

  /** The lowest `k` base-256 digits of `n`, highest first. */
  function BigEndian(n: nat, k: nat): (s: seq<byte>)
    ensures |s| == k
  {
    if k == 0 then [] else BigEndian(n / 256, k - 1) + [n % 256]
  }

  /** `n >> k`. */
  function ShiftRight(n: nat, k: nat): nat {
    if k == 0 then n else ShiftRight(n / 2, k - 1)
  }

  lemma ShiftOctet(n: nat, k: nat)
    ensures ShiftRight(n, k + 8) == ShiftRight(n / 256, k)
  {
    ShiftFour(n, k + 4);
    ShiftFour(n / 16, k);
    assert n / 16 / 16 == n / 256;
  }

  lemma ShiftFour(n: nat, k: nat)
    ensures ShiftRight(n, k + 4) == ShiftRight(n / 16, k)
  {
    var h := n / 2;
    assert ShiftRight(n, k + 4) == ShiftRight(h, k + 3);
    assert ShiftRight(h, k + 3) == ShiftRight(h / 2, k + 2);
    assert ShiftRight(h / 2, k + 2) == ShiftRight(h / 2 / 2, k + 1);
    assert ShiftRight(h / 2 / 2, k + 1) == ShiftRight(h / 2 / 2 / 2, k);
    assert h / 2 / 2 / 2 == n / 16;
  }

  /** Shifting and cutting to an octet picks the big-endian digits. */
  lemma {:induction false} ShiftedDigit(n: nat, k: nat, i: nat)
    requires i < k
    ensures BigEndian(n, k)[i] == ShiftRight(n, (k - 1 - i) * 8) % 256
  {
    if i < k - 1 {
      ShiftedDigit(n / 256, k - 1, i);
      ShiftOctet(n, (k - 2 - i) * 8);
    }
  }

  /** The message with end mark, zeros and its length in bits. */
  function Padded(m: seq<byte>): (r: seq<byte>)
    ensures |r| % BLOCK == 0
  {
    PaddedLength(|m|);
    m + [0x80] + Zeros(Missing(|m| + 1)) + BigEndian(8 * |m| % MAX_UINT64, 8)
  }

  function Hash(m: seq<byte>): Words {
    Fold(INITIAL, Padded(m))
  }

  /** Octet `i` of a word, highest first. */
  function Octet(w: bv32, i: nat): byte
    requires i < 4
  {
    ((w >> (24 - 8 * i)) & 0xff) as int % 256
  }

  function DigestByte(s: Words, j: nat): byte
    requires j < 20
  {
    Octet(Register(s, j / 4), j % 4)
  }

  function Register(s: Words, i: nat): bv32 {
    if i == 0 then s.a else if i == 1 then s.b else if i == 2 then s.c else if i == 3 then s.d else s.e
  }

  lemma DigestOctet(s: Words, i: nat, k: nat)
    requires i < 5 && k < 4
    ensures DigestByte(s, 4 * i + k) == Octet(Register(s, i), k)
  {
    assert (4 * i + k) / 4 == i && (4 * i + k) % 4 == k;
  }

  function Digest(s: Words): (r: seq<byte>)
    ensures |r| == 20
  {
    seq(20, j requires 0 <= j < 20 => DigestByte(s, j))
  }

  // ---------- Streaming ----------

  /** State after whole blocks, and the bytes of the block begun. */
  datatype Partial = Partial(state: Words, tail: seq<byte>)

  function Absorb(p: Partial, b: byte): (q: Partial)
    requires |p.tail| < BLOCK
    ensures |q.tail| < BLOCK
  {
    if |p.tail| + 1 == BLOCK then Partial(Compress(p.state, p.tail + [b]), [])
    else Partial(p.state, p.tail + [b])
  }

  function AbsorbAll(p: Partial, s: seq<byte>): (q: Partial)
    requires |p.tail| < BLOCK
    ensures |q.tail| < BLOCK
    decreases |s|
  {
    if s == [] then p else AbsorbAll(Absorb(p, s[0]), s[1..])
  }

  lemma {:induction false} AbsorbAppend(p: Partial, s: seq<byte>, t: seq<byte>)
    requires |p.tail| < BLOCK
    ensures AbsorbAll(p, s + t) == AbsorbAll(AbsorbAll(p, s), t)
    decreases |s|
  {
    if s == [] {
      assert s + t == t;
    } else {
      assert (s + t)[1..] == s[1..] + t;
      AbsorbAppend(Absorb(p, s[0]), s[1..], t);
    }
  }

  lemma {:induction false} TailLength(p: Partial, s: seq<byte>)
    requires |p.tail| < BLOCK
    ensures |AbsorbAll(p, s).tail| == (|p.tail| + |s|) % BLOCK
    decreases |s|
  {
    if s != [] {
      TailLength(Absorb(p, s[0]), s[1..]);
    }
  }

  lemma {:induction false} AbsorbWithin(p: Partial, s: seq<byte>)
    requires |p.tail| + |s| < BLOCK
    ensures AbsorbAll(p, s) == Partial(p.state, p.tail + s)
    decreases |s|
  {
    if s == [] {
      assert p.tail + s == p.tail;
    } else {
      AbsorbWithin(Absorb(p, s[0]), s[1..]);
      assert (p.tail + [s[0]]) + s[1..] == p.tail + s;
    }
  }

  lemma AbsorbBlock(state: Words, block: seq<byte>)
    requires |block| == BLOCK
    ensures AbsorbAll(Partial(state, []), block) == Partial(Compress(state, block), [])
  {
    var most := block[..BLOCK - 1];
    var last := [block[BLOCK - 1]];
    assert block == most + last;
    AbsorbAppend(Partial(state, []), most, last);
    AbsorbWithin(Partial(state, []), most);
    assert [] + most == most;
    assert last[1..] == [];
  }

  /** Byte by byte or block by block, whole blocks lead to the same state. */
  lemma {:induction false} AbsorbBlocks(state: Words, s: seq<byte>)
    requires |s| % BLOCK == 0
    ensures AbsorbAll(Partial(state, []), s) == Partial(Fold(state, s), [])
    decreases |s|
  {
    if s != [] {
      assert s == s[..BLOCK] + s[BLOCK..];
      AbsorbAppend(Partial(state, []), s[..BLOCK], s[BLOCK..]);
      AbsorbBlock(state, s[..BLOCK]);
      AbsorbBlocks(Compress(state, s[..BLOCK]), s[BLOCK..]);
    }
  }

  class Sha {
    var count: int
    const buf: array<byte>
    var state: Words

    /** The context has taken in exactly `m`. */
    ghost predicate Holds(m: seq<byte>)
      reads this, buf
    {
      var p := AbsorbAll(Partial(INITIAL, []), m);
      && buf.Length == BLOCK
      && count == |m| % MAX_UINT64
      && state == p.state && buf[..|p.tail|] == p.tail
    }

    constructor ()
      ensures Holds([]) && fresh(buf)
    {
      buf := new byte[BLOCK];
      state, count := INITIAL, 0;
    }

    /** Stores one byte at `i` and compresses a full buffer. */
    method Store(i: nat, b: byte, ghost p: Partial) returns (next: nat)
      requires buf.Length == BLOCK && i == |p.tail| < BLOCK && state == p.state && buf[..i] == p.tail
      modifies this`state, buf
      ensures next == |Absorb(p, b).tail| && state == Absorb(p, b).state
      ensures buf[..next] == Absorb(p, b).tail
    {
      buf[i] := b;
      next := i + 1;
      assert buf[..next] == p.tail + [b];
      if next == BLOCK {
        assert buf[..] == buf[..next];
        state := Transform(state, buf[..]);
        next := 0;
      }
    }

    /** `SHA_update`. */
    method Update(data: seq<byte>, ghost m: seq<byte>)
      requires Holds(m)
      modifies this, buf
      ensures Holds(m + data)
    {
      ghost var p := AbsorbAll(Partial(INITIAL, []), m);
      TailLength(Partial(INITIAL, []), m);
      CountMod(|m|);
      var i := count % BLOCK;
      count := (count + |data|) % MAX_UINT64;
      CountSum(|m|, |data|);
      assert m + data[..0] == m;
      for j := 0 to |data|
        invariant count == |m + data| % MAX_UINT64
        invariant i == |p.tail| < BLOCK && p == AbsorbAll(Partial(INITIAL, []), m + data[..j])
        invariant state == p.state && buf[..i] == p.tail
      {
        assert m + data[..j + 1] == (m + data[..j]) + [data[j]];
        AbsorbAppend(Partial(INITIAL, []), m + data[..j], [data[j]]);
        assert [data[j]][1..] == [];
        i := Store(i, data[j], p);
        p := Absorb(p, data[j]);
      }
      assert data[..|data|] == data;
    }

    lemma CountInBlock(m: seq<byte>)
      requires Holds(m)
      ensures count % BLOCK == |m| % BLOCK
    {
      CountMod(|m|);
    }

    /** Appends zeros until eight bytes are free in the block, which takes `k` of them. */
    method PadZeros(ghost m: seq<byte>, ghost k: nat)
      requires Holds(m) && k < BLOCK && (|m| + k) % BLOCK == BLOCK - 8
      modifies this, buf
      ensures Holds(m + Zeros(k))
    {
      ghost var done := 0;
      ghost var now := m + Zeros(0);
      assert now == m;
      CountInBlock(now);
      while count % BLOCK != BLOCK - 8
        invariant Holds(now) && now == m + Zeros(done) && done <= k
        invariant count % BLOCK == |now| % BLOCK
        decreases k - done
      {
        StillMissing(|m|, k, done);
        Update([0], now);
        now, done := now + [0], done + 1;
        assert now == m + Zeros(done);
        CountInBlock(now);
      }
      StillMissing(|m|, k, done);
    }

    /** Appends the message length, octet by octet. */
    method AppendLength(cnt: nat, ghost m: seq<byte>)
      requires Holds(m)
      modifies this, buf
      ensures Holds(m + BigEndian(cnt, 8))
    {
      ghost var want := BigEndian(cnt, 8);
      assert m + want[..0] == m;
      for i := 0 to 8
        invariant Holds(m + want[..i])
      {
        ShiftedDigit(cnt, 8, i);
        Update([ShiftRight(cnt, (7 - i) * 8) % 256], m + want[..i]);
        assert m + want[..i] + [want[i]] == m + want[..i + 1];
      }
      assert want[..8] == want;
    }

    /** Writes the state over the buffer, big-endian. */
    method WriteDigest()
      requires buf.Length == BLOCK
      modifies buf
      ensures buf[..20] == Digest(state)
    {
      for i := 0 to 5
        invariant forall j :: 0 <= j < 4 * i ==> buf[j] == DigestByte(state, j)
      {
        PutWord(i);
      }
    }

    method PutWord(i: nat)
      requires buf.Length == BLOCK && i < 5
      requires forall j :: 0 <= j < 4 * i ==> buf[j] == DigestByte(state, j)
      modifies buf
      ensures forall j :: 0 <= j < 4 * i + 4 ==> buf[j] == DigestByte(state, j)
    {
      for k := 0 to 4
        invariant forall j :: 0 <= j < 4 * i + k ==> buf[j] == DigestByte(state, j)
      {
        buf[4 * i + k] := Octet(Register(state, i), k);
        DigestOctet(state, i, k);
      }
    }

    /** `SHA_final`. */
    method Final(ghost m: seq<byte>)
      requires Holds(m)
      modifies this, buf
      ensures state == Hash(m) && buf[..20] == Digest(Hash(m))
    {
      var cnt := count * 8 % MAX_UINT64;
      CountBits(|m|);
      Update([0x80], m);
      PadZeros(m + [0x80], Missing(|m| + 1));
      AppendLength(cnt, m + [0x80] + Zeros(Missing(|m| + 1)));
      AbsorbBlocks(INITIAL, Padded(m));
      WriteDigest();
    }
  }

  /** Short of the padding the block is not yet at its mark. */
  lemma StillMissing(n: nat, k: nat, done: nat)
    requires k < BLOCK && (n + k) % BLOCK == BLOCK - 8 && done <= k
    ensures (n + done) % BLOCK == BLOCK - 8 <==> done == k
  {
  }

  lemma CountMod(n: nat)
    ensures n % MAX_UINT64 % BLOCK == n % BLOCK
  {
  }

  lemma CountBits(n: nat)
    ensures n % MAX_UINT64 * 8 % MAX_UINT64 == 8 * n % MAX_UINT64
  {
  }

  lemma CountSum(n: nat, k: nat)
    ensures (n % MAX_UINT64 + k) % MAX_UINT64 == (n + k) % MAX_UINT64
  {
  }

  function Joined(chunks: seq<seq<byte>>): seq<byte> {
    if chunks == [] then [] else Joined(chunks[..|chunks| - 1]) + chunks[|chunks| - 1]
  }

  /** However a message is split into updates, the digest is its hash. */
  method HashChunks(chunks: seq<seq<byte>>) returns (digest: seq<byte>)
    ensures digest == Digest(Hash(Joined(chunks)))
  {
    var sha := new Sha();
    for i := 0 to |chunks|
      invariant sha.Holds(Joined(chunks[..i])) && fresh(sha) && fresh(sha.buf)
    {
      assert chunks[..i + 1][..i] == chunks[..i];
      sha.Update(chunks[i], Joined(chunks[..i]));
    }
    assert chunks[..|chunks|] == chunks;
    sha.Final(Joined(chunks));
    digest := sha.buf[..20];
  }
}
