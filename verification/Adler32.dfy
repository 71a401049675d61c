/** Adler-32 with the modulo deferred over blocks (section 8.2 of RFC 1950). */
module Adler32 {
  import opened Wrappers
  import opened Bytes

  const BASE := 65521
  const NMAX := 5552
  const MAX_UINT32 := 0xffff_ffff

  type uint32 = x: int | 0 <= x <= 0xffff_ffff

  /** The two running sums. */
  datatype Sums = Sums(s1: nat, s2: nat)

  function Unpack(adler: uint32): Sums {
    Sums(adler % 65536, adler / 65536 % 65536)
  }

  function Pack(s: Sums): (r: int)
  {
    s.s2 * 65536 + s.s1
  }

  // ---------- Modulo after every byte ----------

  function ModStep(s: Sums, b: byte): Sums {
    var s1 := (s.s1 + b) % BASE;
    Sums(s1, (s.s2 + s1) % BASE)
  }

  function ModSums(s: Sums, bytes: seq<byte>): Sums
    decreases |bytes|
  {
    if bytes == [] then s else ModSums(ModStep(s, bytes[0]), bytes[1..])
  }

  // ---------- No modulo ----------

  function RawStep(s: Sums, b: byte): Sums {
    Sums(s.s1 + b, s.s2 + (s.s1 + b))
  }

  function RawSums(s: Sums, bytes: seq<byte>): Sums
    decreases |bytes|
  {
    if bytes == [] then s else RawSums(RawStep(s, bytes[0]), bytes[1..])
  }

  function Reduced(s: Sums): Sums {
    Sums(s.s1 % BASE, s.s2 % BASE)
  }

  lemma ModAdd(a: nat, b: nat)
    ensures (a % BASE + b) % BASE == (a + b) % BASE
  {
  }

  lemma ModStepRaw(s: Sums, t: Sums, b: byte)
    requires Reduced(s) == Reduced(t)
    ensures ModStep(s, b) == Reduced(RawStep(t, b))
  {
    ModAdd(s.s1, b);
    ModAdd(t.s1, b);
    var s1 := (s.s1 + b) % BASE;
    ModAdd(s.s2, s1);
    ModAdd(t.s2, s1);
    ModAdd(t.s1 + b, t.s2);
  }

  lemma ReducedTwice(s: Sums)
    ensures Reduced(Reduced(s)) == Reduced(s)
  {
  }

  /** Deferring the modulo to the end of a non-empty block makes no difference. */
  lemma {:induction false} DeferredModulo(s: Sums, t: Sums, bytes: seq<byte>)
    requires Reduced(s) == Reduced(t)
    ensures Reduced(ModSums(s, bytes)) == Reduced(RawSums(t, bytes))
    ensures bytes != [] ==> ModSums(s, bytes) == Reduced(RawSums(t, bytes))
    decreases |bytes|
  {
    if bytes != [] {
      ModStepRaw(s, t, bytes[0]);
      var t1 := RawStep(t, bytes[0]);
      ReducedTwice(t1);
      DeferredModulo(ModStep(s, bytes[0]), t1, bytes[1..]);
    }
  }

  lemma {:induction false} RawAppend(s: Sums, x: seq<byte>, y: seq<byte>)
    ensures RawSums(s, x + y) == RawSums(RawSums(s, x), y)
    decreases |x|
  {
    if x == [] {
      assert x + y == y;
    } else {
      assert (x + y)[1..] == x[1..] + y;
      RawAppend(RawStep(s, x[0]), x[1..], y);
    }
  }

  lemma {:induction false} ModAppend(s: Sums, x: seq<byte>, y: seq<byte>)
    ensures ModSums(s, x + y) == ModSums(ModSums(s, x), y)
    decreases |x|
  {
    if x == [] {
      assert x + y == y;
    } else {
      assert (x + y)[1..] == x[1..] + y;
      ModAppend(ModStep(s, x[0]), x[1..], y);
    }
  }

  // ---------- No overflow within a block ----------

  /** Twice the largest second sum after `n` bytes from sums of at most `m`. */
  function TwiceBound(m: nat, n: nat): nat {
    2 * m * (n + 1) + 255 * n * (n + 1)
  }

  lemma BoundStep(m: nat, n: nat)
    ensures TwiceBound(m, n + 1) == TwiceBound(m, n) + 2 * (m + 255 * (n + 1))
  {
    calc {
      TwiceBound(m, n + 1);
      2 * m * (n + 1) + 2 * m + 255 * (n + 1) * (n + 2);
      { assert 255 * (n + 1) * (n + 2) == 255 * n * (n + 1) + 510 * (n + 1); }
      TwiceBound(m, n) + 2 * (m + 255 * (n + 1));
    }
  }

  lemma {:induction false} BoundGrows(m: nat, n: nat, k: nat)
    requires n <= k
    ensures TwiceBound(m, n) <= TwiceBound(m, k)
    decreases k - n
  {
    if n < k {
      BoundStep(m, n);
      BoundGrows(m, n + 1, k);
    }
  }

  ghost predicate Within(m: nat, s: Sums, n: nat) {
    s.s1 <= m + 255 * n && 2 * s.s2 <= TwiceBound(m, n)
  }

  lemma WithinStep(m: nat, s: Sums, n: nat, b: byte)
    requires Within(m, s, n)
    ensures Within(m, RawStep(s, b), n + 1)
  {
    BoundStep(m, n);
  }

  /** Both sums fit 32 bits in a block of at most NMAX bytes, even from unreduced halves. */
  lemma BlockFits(s: Sums, n: nat)
    requires Within(65535, s, n) && n <= NMAX
    ensures s.s1 <= MAX_UINT32 && s.s2 <= MAX_UINT32
  {
    BoundGrows(65535, n, NMAX);
    assert TwiceBound(65535, NMAX) <= 2 * MAX_UINT32;
  }

  function AllOnes(n: nat): seq<byte> {
    seq(n, _ => 255)
  }

  lemma {:induction false} WorstCase(s: Sums, m: nat, n: nat, k: nat)
    requires s.s1 == m + 255 * n && 2 * s.s2 == TwiceBound(m, n)
    ensures 2 * RawSums(s, AllOnes(k)).s2 == TwiceBound(m, n + k)
    decreases k
  {
    if k > 0 {
      BoundStep(m, n);
      assert AllOnes(k)[1..] == AllOnes(k - 1);
      WorstCase(RawStep(s, 255), m, n + 1, k - 1);
    }
  }

  /** The bound is attained, so no larger block would do: one byte more can overflow. */
  lemma NmaxIsLargest()
    ensures RawSums(Sums(BASE - 1, BASE - 1), AllOnes(NMAX)).s2 <= MAX_UINT32
    ensures RawSums(Sums(BASE - 1, BASE - 1), AllOnes(NMAX + 1)).s2 > MAX_UINT32
  {
    WorstCase(Sums(BASE - 1, BASE - 1), BASE - 1, 0, NMAX);
    WorstCase(Sums(BASE - 1, BASE - 1), BASE - 1, 0, NMAX + 1);
  }

  // ---------- The loop ----------

  /** One block: bytes summed in groups of sixteen, then one by one, without modulo. */
  method SumBlock(start: Sums, bytes: seq<byte>) returns (s: Sums)
    requires start.s1 <= 65535 && start.s2 <= 65535 && |bytes| <= NMAX
    ensures s == RawSums(start, bytes)
    ensures s.s1 <= MAX_UINT32 && s.s2 <= MAX_UINT32
  {
    s := start;
    var i, k := 0, |bytes|;
    while k >= 16
      invariant 0 <= i <= |bytes| && i + k == |bytes|
      invariant s == RawSums(start, bytes[..i]) && Within(65535, s, i)
    {
      s := SumBytes(start, s, bytes, i, 16);
      i, k := i + 16, k - 16;
    }
    s := SumBytes(start, s, bytes, i, k);
    assert bytes[..|bytes|] == bytes;
    BlockFits(s, |bytes|);
  }

  /** Adds `k` bytes; every intermediate sum fits 32 bits. */
  method SumBytes(ghost start: Sums, from: Sums, bytes: seq<byte>, i: nat, k: nat) returns (s: Sums)
    requires i + k <= |bytes| <= NMAX && from == RawSums(start, bytes[..i]) && Within(65535, from, i)
    ensures s == RawSums(start, bytes[..i + k]) && Within(65535, s, i + k)
  {
    s := from;
    for j := i to i + k
      invariant s == RawSums(start, bytes[..j]) && Within(65535, s, j)
      invariant s.s1 <= MAX_UINT32 && s.s2 <= MAX_UINT32
    {
      RawAppend(start, bytes[..j], [bytes[j]]);
      assert bytes[..j + 1] == bytes[..j] + [bytes[j]];
      assert [bytes[j]][1..] == [];
      WithinStep(65535, s, j, bytes[j]);
      s := Sums(s.s1 + bytes[j], s.s2 + (s.s1 + bytes[j]));
      BlockFits(s, j + 1);
    }
  }

  /** One block summed and reduced once, as if reduced after every byte. */
  method ReduceBlock(start: Sums, block: seq<byte>) returns (s: Sums)
    requires start.s1 <= 65535 && start.s2 <= 65535 && 0 < |block| <= NMAX
    ensures s == ModSums(start, block) && s.s1 <= 65535 && s.s2 <= 65535
  {
    s := SumBlock(start, block);
    s := Sums(s.s1 % BASE, s.s2 % BASE);
    DeferredModulo(start, start, block);
  }

  /** `adler32`; a null buffer gives 1. */
  method Adler(adler: uint32, buf: Option<seq<byte>>) returns (r: int)
    ensures r == if buf.None? then 1 else Pack(ModSums(Unpack(adler), buf.value))
  {
    if buf.None? {
      return 1;
    }
    var bytes := buf.value;
    var s := Unpack(adler);
    var i := 0;
    ghost var start := s;
    while i < |bytes|
      invariant 0 <= i <= |bytes| && s.s1 <= 65535 && s.s2 <= 65535
      invariant s == ModSums(start, bytes[..i])
    {
      var k := Min(|bytes| - i, NMAX);
      var block := bytes[i..i + k];
      s := ReduceBlock(s, block);
      ModAppend(start, bytes[..i], block);
      assert bytes[..i + k] == bytes[..i] + block;
      i := i + k;
    }
    assert bytes[..i] == bytes;
    r := s.s2 * 65536 + s.s1;
  }

  /** The checksum of the parts, one after the other, is the checksum of the whole. */
  lemma AdlerAppend(adler: uint32, x: seq<byte>, y: seq<byte>)
    ensures var first := Pack(ModSums(Unpack(adler), x));
      && 0 <= first <= MAX_UINT32
      && Pack(ModSums(Unpack(first), y)) == Pack(ModSums(Unpack(adler), x + y))
  {
    var s := ModSums(Unpack(adler), x);
    SumsSmall(Unpack(adler), x);
    assert Unpack(Pack(s)) == s;
    ModAppend(Unpack(adler), x, y);
  }

  lemma {:induction false} SumsSmall(s: Sums, bytes: seq<byte>)
    requires s.s1 < 65536 && s.s2 < 65536
    ensures ModSums(s, bytes).s1 < 65536 && ModSums(s, bytes).s2 < 65536
    decreases |bytes|
  {
    if bytes != [] {
      SumsSmall(ModStep(s, bytes[0]), bytes[1..]);
    }
  }

  // ---------- The checksum in closed form ----------

  function Sum(bytes: seq<byte>): nat {
    if bytes == [] then 0 else bytes[0] + Sum(bytes[1..])
  }

  /** Each byte times the number of bytes from it to the end. */
  function Weighted(bytes: seq<byte>): nat {
    if bytes == [] then 0 else |bytes| * bytes[0] + Weighted(bytes[1..])
  }

  lemma {:induction false} RawClosed(s: Sums, bytes: seq<byte>)
    ensures RawSums(s, bytes) == Sums(s.s1 + Sum(bytes), s.s2 + |bytes| * s.s1 + Weighted(bytes))
    decreases |bytes|
  {
    if bytes != [] {
      var b, n := bytes[0], |bytes|;
      RawClosed(RawStep(s, b), bytes[1..]);
      assert (n - 1) * (s.s1 + b) + (s.s1 + b) == n * s.s1 + n * b;
    }
  }

  /** The low half is one plus the sum of the bytes, the high half the sum of all its intermediate values. */
  lemma AdlerClosed(bytes: seq<byte>)
    ensures var r := Pack(ModSums(Unpack(1), bytes));
      && r % 65536 == (1 + Sum(bytes)) % 65521
      && r / 65536 == (|bytes| + Weighted(bytes)) % 65521
  {
    SumsClosed(bytes);
    Halves(ModSums(Unpack(1), bytes), (1 + Sum(bytes)) % BASE, (|bytes| + Weighted(bytes)) % BASE);
  }

  lemma SumsClosed(bytes: seq<byte>)
    ensures ModSums(Unpack(1), bytes) == Sums((1 + Sum(bytes)) % BASE, (|bytes| + Weighted(bytes)) % BASE)
  {
    var s := Sums(1, 0);
    assert Unpack(1) == s;
    if bytes != [] {
      RawClosed(s, bytes);
      DeferredModulo(s, s, bytes);
    }
  }

  lemma Halves(s: Sums, low: nat, high: nat)
    requires s == Sums(low, high) && low < 65536
    ensures Pack(s) % 65536 == low && Pack(s) / 65536 == high
  {
  }
}
