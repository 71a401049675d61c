/** The packed 18-byte message header and its network-order image. */
module Shell {
  import opened Bytes

  type uint16 = x: int | 0 <= x < 0x1_0000
  type uint32 = x: int | 0 <= x < 0x1_0000_0000
  type int32 = x: int | -0x8000_0000 <= x < 0x8000_0000
  // Signed bit-fields of width 3 and 1.
  type int3 = x: int | -4 <= x < 4
  type int1 = x: int | -1 <= x < 1

  const MAGIC_NUMBER: uint16 := 0x9087
  const SHELL_SIZE := 18

  const REQ_TYPE_GET: int3 := 0
  const REQ_TYPE_POST: int3 := 1
  const CRYPT_NONE: int3 := 0
  const CRYPT_ENCRYPT: int3 := 1
  const COMPRESS_NONE: int3 := 0
  const COMPRESS_COMPRESS: int3 := 1
  const COMPRESS_AUTO: int3 := 2

  /** The bit-field word, lowest bits first. */
  datatype Proto = Proto(
    category: uint16, kind: int3, cCrypt: int3, cCompress: int3,
    sCrypt: int3, sCompress: int3, serverd: int1)

  datatype Shell = Shell(
    magic: uint16, proto: Proto, shellSize: int32, decryptSize: int32, packSize: int32)

  // ---------- Two's complement and field packing ----------

  function Unsigned(x: int, modulus: nat): (u: nat)
    requires -(modulus as int) <= 2 * x < modulus
    ensures u < modulus
  {
    if x < 0 then x + modulus else x
  }

  function Signed(u: nat, modulus: nat): (x: int)
    requires u < modulus && modulus % 2 == 0
    ensures -(modulus as int) <= 2 * x < modulus
  {
    if 2 * u < modulus then u else u - modulus
  }

  /** One packing step: a field of `m` values below the fields already packed in `high`. */
  lemma PackStep(high: nat, low: nat, m: nat)
    requires 0 < m && low < m
    ensures (high * m + low) % m == low && (high * m + low) / m == high
  {
    DivModUnique(high * m + low, m, high, low);
  }

  lemma DivModUnique(x: int, m: int, q: int, r: int)
    requires 0 < m && 0 <= r < m && x == q * m + r
    ensures x / m == q && x % m == r
  {
    var d := x / m - q;
    assert d * m == r - x % m by {
      assert x == (x / m) * m + x % m;
    }
    MultipleBound(d, m);
  }

  lemma MultipleBound(d: int, m: int)
    requires 0 < m
    ensures (d > 0 ==> d * m >= m) && (d < 0 ==> d * m <= -m)
  {
  }

  function ProtoWord(p: Proto): uint32 {
    var a := Unsigned(p.serverd, 2) * 8 + Unsigned(p.sCompress, 8);
    var b := a * 8 + Unsigned(p.sCrypt, 8);
    var c := b * 8 + Unsigned(p.cCompress, 8);
    var d := c * 8 + Unsigned(p.cCrypt, 8);
    var e := d * 8 + Unsigned(p.kind, 8);
    e * 0x1_0000 + p.category
  }

  function WordProto(w: uint32): Proto {
    var e := w / 0x1_0000;
    var d := e / 8;
    var c := d / 8;
    var b := c / 8;
    var a := b / 8;
    Proto(w % 0x1_0000, Signed(e % 8, 8), Signed(d % 8, 8), Signed(c % 8, 8),
          Signed(b % 8, 8), Signed(a % 8, 8), Signed(a / 8, 2))
  }

  lemma ProtoRoundTrip(p: Proto)
    ensures WordProto(ProtoWord(p)) == p
  {
    var a := Unsigned(p.serverd, 2) * 8 + Unsigned(p.sCompress, 8);
    var b := a * 8 + Unsigned(p.sCrypt, 8);
    var c := b * 8 + Unsigned(p.cCompress, 8);
    var d := c * 8 + Unsigned(p.cCrypt, 8);
    var e := d * 8 + Unsigned(p.kind, 8);
    PackStep(e, p.category, 0x1_0000);
    PackStep(d, Unsigned(p.kind, 8), 8);
    PackStep(c, Unsigned(p.cCrypt, 8), 8);
    PackStep(b, Unsigned(p.cCompress, 8), 8);
    PackStep(a, Unsigned(p.sCrypt, 8), 8);
    PackStep(Unsigned(p.serverd, 2), Unsigned(p.sCompress, 8), 8);
  }

  lemma SignRoundTrip(u: nat, modulus: nat)
    requires u < modulus && modulus % 2 == 0
    ensures Unsigned(Signed(u, modulus), modulus) == u
  {
  }

  lemma WordRoundTrip(w: uint32)
    ensures ProtoWord(WordProto(w)) == w
  {
    var e := w / 0x1_0000;
    var d := e / 8;
    var c := d / 8;
    var b := c / 8;
    var a := b / 8;
    assert w == e * 0x1_0000 + w % 0x1_0000;
    assert e == d * 8 + e % 8 && d == c * 8 + d % 8 && c == b * 8 + c % 8;
    assert b == a * 8 + b % 8 && a == (a / 8) * 8 + a % 8;
    SignRoundTrip(e % 8, 8);
    SignRoundTrip(d % 8, 8);
    SignRoundTrip(c % 8, 8);
    SignRoundTrip(b % 8, 8);
    SignRoundTrip(a % 8, 8);
    SignRoundTrip(a / 8, 2);
  }

  // ---------- Network byte order ----------

  function Be16(n: uint16): (s: seq<byte>)
    ensures |s| == 2
  {
    [n / 256, n % 256]
  }

  function FromBe16(s: seq<byte>): (n: uint16)
    requires |s| == 2
  {
    (s[0] as int) * 256 + s[1]
  }

  lemma Be16RoundTrip(n: uint16, s: seq<byte>)
    requires |s| == 2
    ensures FromBe16(Be16(n)) == n && Be16(FromBe16(s)) == s
  {
    PackStep(s[0], s[1], 256);
  }

  function Be32(n: uint32): (s: seq<byte>)
    ensures |s| == 4
  {
    Be16(n / 0x1_0000) + Be16(n % 0x1_0000)
  }

  function FromBe32(s: seq<byte>): (n: uint32)
    requires |s| == 4
  {
    FromBe16(s[..2]) * 0x1_0000 + FromBe16(s[2..])
  }

  lemma Be32RoundTrip(n: uint32)
    ensures FromBe32(Be32(n)) == n
  {
    var hi, lo := Be16(n / 0x1_0000), Be16(n % 0x1_0000);
    assert (hi + lo)[..2] == hi && (hi + lo)[2..] == lo;
    Be16RoundTrip(n / 0x1_0000, hi);
    Be16RoundTrip(n % 0x1_0000, lo);
  }

  lemma FromBe32RoundTrip(s: seq<byte>)
    requires |s| == 4
    ensures Be32(FromBe32(s)) == s
  {
    Be16RoundTrip(0, s[..2]);
    Be16RoundTrip(0, s[2..]);
    PackStep(FromBe16(s[..2]), FromBe16(s[2..]), 0x1_0000);
    assert s == s[..2] + s[2..];
  }

  function BeInt(x: int32): (s: seq<byte>)
    ensures |s| == 4
  {
    Be32(Unsigned(x, 0x1_0000_0000))
  }

  function FromBeInt(s: seq<byte>): int32
    requires |s| == 4
  {
    Signed(FromBe32(s), 0x1_0000_0000)
  }

  // ---------- The header image ----------

  function Encode(h: Shell): (s: seq<byte>)
    ensures |s| == SHELL_SIZE
  {
    Be16(h.magic) + Be32(ProtoWord(h.proto))
    + BeInt(h.shellSize) + BeInt(h.decryptSize) + BeInt(h.packSize)
  }

  function Decode(s: seq<byte>): Shell
    requires |s| == SHELL_SIZE
  {
    Shell(FromBe16(s[..2]), WordProto(FromBe32(s[2..6])),
          FromBeInt(s[6..10]), FromBeInt(s[10..14]), FromBeInt(s[14..]))
  }

  /** The number that octets spell, most significant first. */
  function BigEndian(s: seq<byte>): nat {
    if s == [] then 0 else BigEndian(s[..|s| - 1]) * 256 + s[|s| - 1]
  }

  lemma BigEndianFour(s: seq<byte>)
    requires |s| == 4
    ensures BigEndian(s) == ((s[0] as int * 256 + s[1]) * 256 + s[2]) * 256 + s[3]
  {
    var t := s[..3];
    assert t[..2] == s[..2] && s[..2][..1] == s[..1] && s[..1][..0] == [];
    assert BigEndian(s[..1]) == s[0] as int;
    assert BigEndian(s[..2]) == s[0] as int * 256 + s[1];
    assert BigEndian(t) == BigEndian(s[..2]) * 256 + s[2];
  }

  lemma BigEndianTwo(s: seq<byte>)
    requires |s| == 2
    ensures BigEndian(s) == s[0] as int * 256 + s[1]
  {
    assert s[..1][..0] == [];
    assert BigEndian(s[..1]) == s[0] as int;
  }

  lemma Be32Spells(n: uint32)
    ensures BigEndian(Be32(n)) == n
  {
    BigEndianFour(Be32(n));
  }

  /** Where each field lies in the image, and in which order its octets come. */
  lemma Layout(h: Shell)
    ensures var s := Encode(h);
      && BigEndian(s[0..2]) == h.magic && BigEndian(s[2..6]) == ProtoWord(h.proto)
      && BigEndian(s[6..10]) == h.shellSize % 0x1_0000_0000
      && BigEndian(s[10..14]) == h.decryptSize % 0x1_0000_0000
      && BigEndian(s[14..18]) == h.packSize % 0x1_0000_0000
  {
    Slices(Be16(h.magic), Be32(ProtoWord(h.proto)), BeInt(h.shellSize), BeInt(h.decryptSize), BeInt(h.packSize));
    BigEndianTwo(Be16(h.magic));
    Be32Spells(ProtoWord(h.proto));
    IntSpells(h.shellSize);
    IntSpells(h.decryptSize);
    IntSpells(h.packSize);
  }

  lemma Slices(a: seq<byte>, b: seq<byte>, c: seq<byte>, d: seq<byte>, e: seq<byte>)
    requires |a| == 2 && |b| == |c| == |d| == |e| == 4
    ensures var s := a + b + c + d + e;
      s[0..2] == a && s[2..6] == b && s[6..10] == c && s[10..14] == d && s[14..18] == e
  {
  }

  lemma IntSpells(x: int32)
    ensures BigEndian(BeInt(x)) == x % 0x1_0000_0000
  {
    Be32Spells(Unsigned(x, 0x1_0000_0000));
    Residue(x, 0x1_0000_0000);
  }

  lemma Residue(x: int, modulus: nat)
    requires modulus > 0 && -(modulus as int) <= 2 * x < modulus
    ensures Unsigned(x, modulus) == x % modulus
  {
    DivModUnique(x, modulus, if x < 0 then -1 else 0, Unsigned(x, modulus));
  }

  /** The bit-fields from the lowest bit up: 16 of category, then five of 3 bits, then one. */
  lemma WordLayout(p: Proto)
    ensures ProtoWord(p) == p.category + 0x1_0000 * (p.kind % 8) + 0x8_0000 * (p.cCrypt % 8)
      + 0x40_0000 * (p.cCompress % 8) + 0x200_0000 * (p.sCrypt % 8) + 0x1000_0000 * (p.sCompress % 8)
      + 0x8000_0000 * (p.serverd % 2)
  {
    Residue(p.kind, 8);
    Residue(p.cCrypt, 8);
    Residue(p.cCompress, 8);
    Residue(p.sCrypt, 8);
    Residue(p.sCompress, 8);
    Residue(p.serverd, 2);
    WordSum(p);
  }

  lemma WordSum(p: Proto)
    ensures ProtoWord(p) == p.category + 0x1_0000 * Unsigned(p.kind, 8) + 0x8_0000 * Unsigned(p.cCrypt, 8)
      + 0x40_0000 * Unsigned(p.cCompress, 8) + 0x200_0000 * Unsigned(p.sCrypt, 8) + 0x1000_0000 * Unsigned(p.sCompress, 8)
      + 0x8000_0000 * Unsigned(p.serverd, 2)
  {
  }

  /** Every image of a good header starts with the octets 0x90 0x87. */
  lemma MagicOctets(h: Shell)
    ensures h.magic == MAGIC_NUMBER <==> Encode(h)[0] == 0x90 && Encode(h)[1] == 0x87
  {
  }

  /** What one side puts in host order the other side reads back. */
  lemma DecodeEncode(h: Shell)
    ensures Decode(Encode(h)) == h
  {
    var s := Encode(h);
    assert s[..2] == Be16(h.magic);
    assert s[2..6] == Be32(ProtoWord(h.proto));
    assert s[6..10] == BeInt(h.shellSize);
    assert s[10..14] == BeInt(h.decryptSize);
    assert s[14..] == BeInt(h.packSize);
    Be16RoundTrip(h.magic, s[..2]);
    Be32RoundTrip(ProtoWord(h.proto));
    Be32RoundTrip(Unsigned(h.shellSize, 0x1_0000_0000));
    Be32RoundTrip(Unsigned(h.decryptSize, 0x1_0000_0000));
    Be32RoundTrip(Unsigned(h.packSize, 0x1_0000_0000));
    ProtoRoundTrip(h.proto);
  }

  /** Every 18 bytes are the image of exactly the header they decode to. */
  lemma EncodeDecode(s: seq<byte>)
    requires |s| == SHELL_SIZE
    ensures Encode(Decode(s)) == s
  {
    Be16RoundTrip(0, s[..2]);
    FromBe32RoundTrip(s[2..6]);
    FromBe32RoundTrip(s[6..10]);
    FromBe32RoundTrip(s[10..14]);
    FromBe32RoundTrip(s[14..]);
    WordRoundTrip(FromBe32(s[2..6]));
    assert s == s[..2] + s[2..6] + s[6..10] + s[10..14] + s[14..];
  }
}
