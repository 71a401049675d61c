/** Schrage's multiplication and the seed bytes of a page's initial vector. */
module InitialVector {
  import opened Bytes

  const A := 52774
  const B := 40692
  const C := 3791
  const M := 2147483399

  const INT_MIN := -0x8000_0000
  const INT_MAX := 0x7fff_ffff

  predicate Int32(x: int) {
    INT_MIN <= x <= INT_MAX
  }

  /** Division as C does it, toward zero. */
  function Quotient(x: int, d: int): int
    requires d > 0
  {
    if x >= 0 then x / d else -((-x) / d)
  }

  /** Every intermediate value of a step stays within 32 bits. */
  lemma NoOverflow(s: int)
    requires Int32(s)
    ensures var q := Quotient(s, A); var low := s - A * q;
      && Int32(A * q) && Int32(low) && Int32(B * low) && Int32(C * q)
      && Int32(B * low - C * q) && (B * low - C * q < 0 ==> Int32(B * low - C * q + M))
  {
  }

  /** `MODMULT`: one step of the generator is multiplication modulo `M`. */
  method ModMult(s: int) returns (r: int)
    requires Int32(s)
    ensures r == 40692 * s % 2147483399 && 0 <= r < 2147483399
  {
    var q := Quotient(s, A);
    r := B * (s - A * q) - C * q;
    assert r == B * s - M * q;
    if r < 0 {
      r := r + M;
      Residue(B * s, q - 1, r);
    } else {
      Residue(B * s, q, r);
    }
  }

  lemma Residue(x: int, q: int, r: int)
    requires x == M * q + r && 0 <= r < M
    ensures x % M == r
  {
  }

  /** The exact powers that the generator follows modulo `M`. */
  function Sequence(seed: int, j: nat): int {
    if j == 0 then seed else 40692 * Sequence(seed, j - 1)
  }

  lemma StepResidue(x: int)
    ensures B * (x % M) % M == B * x % M
  {
    var q, r := x / M, x % M;
    var k := B * r / M;
    Residue(B * r, k, B * r % M);
    Residue(B * x, B * q + k, B * r % M);
  }

  /** The number that four octets spell, lowest first. */
  function LittleEndian(s: seq<byte>): int
    requires |s| == 4
  {
    (s[0] as int) + 256 * ((s[1] as int) + 256 * ((s[2] as int) + 256 * (s[3] as int)))
  }

  function Word(z: nat): (s: seq<byte>)
    requires z <= INT_MAX
    ensures |s| == 4 && LittleEndian(s) == z
  {
    [z % 256, z / 256 % 256, z / 256 / 256 % 256, z / 256 / 256 / 256]
  }

  /** The key from which `CodecGenerateInitialVector` digests the vector. */
  method InitKey(seed: int) returns (initkey: seq<byte>)
    requires Int32(seed) && seed < INT_MAX
    ensures |initkey| == 16
    ensures forall j :: 0 <= j < 4 ==> LittleEndian(initkey[4 * j..4 * j + 4]) == Sequence(seed + 1, j + 1) % 2147483399
  {
    initkey := [];
    var z := seed + 1;
    for j := 0 to 4
      invariant |initkey| == 4 * j && Int32(z)
      invariant z % M == Sequence(seed + 1, j) % M
      invariant forall i :: 0 <= i < j ==> LittleEndian(initkey[4 * i..4 * i + 4]) == Sequence(seed + 1, i + 1) % M
    {
      StepResidue(z);
      StepResidue(Sequence(seed + 1, j));
      z := ModMult(z);
      ghost var before := initkey;
      initkey := initkey + Word(z);
      assert forall i :: 0 <= i < j ==> initkey[4 * i..4 * i + 4] == before[4 * i..4 * i + 4];
      assert initkey[4 * j..4 * j + 4] == Word(z);
    }
  }
}
