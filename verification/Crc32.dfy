/** Table-driven CRC-32 (section 8 of RFC 1952) against bit-at-a-time division. */
module Crc32 {
  import opened Wrappers
  import opened BitDivision

  const POLYNOMIAL: bv32 := 0xedb88320

  /** Message bytes as words. */
  type octet = b: bv32 | b < 256

  /** The polynomial if the lowest bit of the remainder is set. */
  function Multiple(c: bv32): bv32 {
    if c & 1 == 1 then POLYNOMIAL else 0
  }

  const MASKS: seq<bv32> := [0, 1, 3, 7, 15, 31, 63, 127, 255]

  function And(x: bv32, m: bv32): bv32 {
    x & m
  }

  /** The `k` lowest bits, up to a byte. */
  function Keep(k: nat, x: bv32): bv32 {
    if k <= 8 then And(x, MASKS[k]) else x
  }

  function Add(x: bv32, y: bv32): bv32 {
    x ^ y
  }

  function Half(x: bv32): bv32 {
    x >> 1
  }

  function Low(x: bv32): bv32 {
    x & 1
  }

  function High(x: bv32): bv32 {
    x & 0xfffffffe
  }

  const WORDS: Words<bv32> := Words(Add, 0, Multiple, Half, Low, High, Keep)

  // ---------- The laws ----------

  lemma XorAssociative(x: bv32, y: bv32, z: bv32)
    ensures Add(Add(x, y), z) == Add(x, Add(y, z))
  {
  }

  lemma WordsAssociative(x: bv32, y: bv32, z: bv32)
    ensures WORDS.Associative(x, y, z)
  {
    XorAssociative(x, y, z);
  }

  lemma WordsCommutative(x: bv32, y: bv32)
    ensures WORDS.Commutative(x, y)
  {
  }

  lemma WordsNeutral(x: bv32)
    ensures WORDS.Neutral(x)
  {
  }

  lemma WordsMultipleLinear(x: bv32, y: bv32)
    ensures WORDS.MultipleLinear(x, y)
  {
  }

  lemma ShiftXor(x: bv32, y: bv32)
    ensures Half(Add(x, y)) == Add(Half(x), Half(y))
  {
  }

  lemma WordsHalfLinear(x: bv32, y: bv32)
    ensures WORDS.HalfLinear(x, y)
  {
    ShiftXor(x, y);
  }

  lemma WordsSplits(x: bv32)
    ensures WORDS.Splits(x)
  {
  }

  lemma HighLow(x: bv32)
    ensures (x & 0xfffffffe) & 1 == 0
  {
  }

  lemma HighHalf(x: bv32)
    ensures Half(High(x)) == Half(x)
  {
  }

  lemma WordsHighIsEven(x: bv32)
    ensures WORDS.HighIsEven(x)
  {
    HighLow(x);
  }

  lemma WordsHighShifts(x: bv32)
    ensures WORDS.HighShifts(x)
  {
    HighHalf(x);
  }

  lemma WordsKeepsNone(x: bv32)
    ensures WORDS.KeepsNone(x)
  {
  }

  lemma MaskStep(x: bv32, m: bv32, n: bv32)
    requires m & 1 == 1 && m >> 1 == n
    ensures Low(And(x, m)) == Low(x)
    ensures Half(And(x, m)) == And(Half(x), n)
  {
  }

  lemma MaskPair(k: nat)
    requires 0 < k <= 8
    ensures MASKS[k] & 1 == 1 && MASKS[k] >> 1 == MASKS[k - 1]
  {
  }

  lemma WordsKeeps(k: nat, x: bv32)
    requires 0 < k <= 8
    ensures WORDS.Keeps(k, x)
  {
    MaskPair(k);
    MaskStep(x, MASKS[k], MASKS[k - 1]);
  }

  lemma WordsLawful()
    ensures Lawful(WORDS, 8)
  {
    forall x, y, z ensures WORDS.Associative(x, y, z) { WordsAssociative(x, y, z); }
    forall x, y ensures WORDS.Commutative(x, y) { WordsCommutative(x, y); }
    forall x ensures WORDS.Neutral(x) { WordsNeutral(x); }
    forall x, y ensures WORDS.MultipleLinear(x, y) { WordsMultipleLinear(x, y); }
    forall x, y ensures WORDS.HalfLinear(x, y) { WordsHalfLinear(x, y); }
    forall x ensures WORDS.Splits(x) { WordsSplits(x); }
    forall x ensures WORDS.HighIsEven(x) { WordsHighIsEven(x); }
    forall x ensures WORDS.HighShifts(x) { WordsHighShifts(x); }
    forall x ensures WORDS.KeepsNone(x) { WordsKeepsNone(x); }
    forall k: nat, x | 0 < k <= 8 ensures WORDS.Keeps(k, x) { WordsKeeps(k, x); }
  }

  // ---------- The table ----------

  /** The division step as the table generator writes it. */
  function WrittenStep(c: bv32): bv32 {
    if c & 1 == 1 then POLYNOMIAL ^ (c >> 1) else c >> 1
  }

  lemma StepAsWritten(c: bv32)
    ensures WORDS.Step(c) == WrittenStep(c)
  {
    WordsNeutral(Half(c));
    if c & 1 == 1 {
      assert Multiple(c) == POLYNOMIAL;
    } else {
      assert Multiple(c) == 0;
    }
  }

  function EightSteps(c: bv32): bv32 {
    Eight(WrittenStep, c)
  }

  lemma StepsAsWritten(c: bv32)
    ensures Steps(WORDS, 8, c) == EightSteps(c)
  {
    forall x
      ensures WORDS.Step(x) == WrittenStep(x)
    {
      StepAsWritten(x);
    }
    EightIsSteps(WORDS, WrittenStep, c);
  }

  method NextRemainder(c: bv32) returns (r: bv32)
    ensures r == WORDS.Step(c)
  {
    StepAsWritten(c);
    r := if c & 1 == 1 then POLYNOMIAL ^ (c >> 1) else c >> 1;
  }

  /** The nested loops of `make_crc_table`. */
  method MakeCrcTable() returns (table: array<bv32>)
    ensures Generated(table[..])
  {
    table := new bv32[256];
    for n := 0 to 256
      invariant forall j :: 0 <= j < n ==> table[j] == Steps(WORDS, 8, j as bv32)
    {
      var start: bv32 := n as bv32;
      var c := EightRemainders(start);
      table[n] := c;
    }
  }

  method EightRemainders(start: bv32) returns (c: bv32)
    ensures c == Steps(WORDS, 8, start)
  {
    c := start;
    ghost var left: nat := 8;
    for k := 0 to 8
      invariant left == 8 - k && Steps(WORDS, left, c) == Steps(WORDS, 8, start)
    {
      c := NextRemainder(c);
      left := left - 1;
    }
  }

  /** A table with the eight-step remainder of every byte. */
  ghost predicate Generated(table: seq<bv32>) {
    |table| == 256 && forall n :: 0 <= n < 256 ==> table[n] == Steps(WORDS, 8, n as bv32)
  }

  const ROW00: seq<bv32> := [
    0x00000000, 0x77073096, 0xee0e612c, 0x990951ba, 0x076dc419, 0x706af48f, 0xe963a535, 0x9e6495a3]
  const ROW08: seq<bv32> := [
    0x0edb8832, 0x79dcb8a4, 0xe0d5e91e, 0x97d2d988, 0x09b64c2b, 0x7eb17cbd, 0xe7b82d07, 0x90bf1d91]
  const ROW10: seq<bv32> := [
    0x1db71064, 0x6ab020f2, 0xf3b97148, 0x84be41de, 0x1adad47d, 0x6ddde4eb, 0xf4d4b551, 0x83d385c7]
  const ROW18: seq<bv32> := [
    0x136c9856, 0x646ba8c0, 0xfd62f97a, 0x8a65c9ec, 0x14015c4f, 0x63066cd9, 0xfa0f3d63, 0x8d080df5]
  const ROW20: seq<bv32> := [
    0x3b6e20c8, 0x4c69105e, 0xd56041e4, 0xa2677172, 0x3c03e4d1, 0x4b04d447, 0xd20d85fd, 0xa50ab56b]
  const ROW28: seq<bv32> := [
    0x35b5a8fa, 0x42b2986c, 0xdbbbc9d6, 0xacbcf940, 0x32d86ce3, 0x45df5c75, 0xdcd60dcf, 0xabd13d59]
  const ROW30: seq<bv32> := [
    0x26d930ac, 0x51de003a, 0xc8d75180, 0xbfd06116, 0x21b4f4b5, 0x56b3c423, 0xcfba9599, 0xb8bda50f]
  const ROW38: seq<bv32> := [
    0x2802b89e, 0x5f058808, 0xc60cd9b2, 0xb10be924, 0x2f6f7c87, 0x58684c11, 0xc1611dab, 0xb6662d3d]
  const ROW40: seq<bv32> := [
    0x76dc4190, 0x01db7106, 0x98d220bc, 0xefd5102a, 0x71b18589, 0x06b6b51f, 0x9fbfe4a5, 0xe8b8d433]
  const ROW48: seq<bv32> := [
    0x7807c9a2, 0x0f00f934, 0x9609a88e, 0xe10e9818, 0x7f6a0dbb, 0x086d3d2d, 0x91646c97, 0xe6635c01]
  const ROW50: seq<bv32> := [
    0x6b6b51f4, 0x1c6c6162, 0x856530d8, 0xf262004e, 0x6c0695ed, 0x1b01a57b, 0x8208f4c1, 0xf50fc457]
  const ROW58: seq<bv32> := [
    0x65b0d9c6, 0x12b7e950, 0x8bbeb8ea, 0xfcb9887c, 0x62dd1ddf, 0x15da2d49, 0x8cd37cf3, 0xfbd44c65]
  const ROW60: seq<bv32> := [
    0x4db26158, 0x3ab551ce, 0xa3bc0074, 0xd4bb30e2, 0x4adfa541, 0x3dd895d7, 0xa4d1c46d, 0xd3d6f4fb]
  const ROW68: seq<bv32> := [
    0x4369e96a, 0x346ed9fc, 0xad678846, 0xda60b8d0, 0x44042d73, 0x33031de5, 0xaa0a4c5f, 0xdd0d7cc9]
  const ROW70: seq<bv32> := [
    0x5005713c, 0x270241aa, 0xbe0b1010, 0xc90c2086, 0x5768b525, 0x206f85b3, 0xb966d409, 0xce61e49f]
  const ROW78: seq<bv32> := [
    0x5edef90e, 0x29d9c998, 0xb0d09822, 0xc7d7a8b4, 0x59b33d17, 0x2eb40d81, 0xb7bd5c3b, 0xc0ba6cad]
  const ROW80: seq<bv32> := [
    0xedb88320, 0x9abfb3b6, 0x03b6e20c, 0x74b1d29a, 0xead54739, 0x9dd277af, 0x04db2615, 0x73dc1683]
  const ROW88: seq<bv32> := [
    0xe3630b12, 0x94643b84, 0x0d6d6a3e, 0x7a6a5aa8, 0xe40ecf0b, 0x9309ff9d, 0x0a00ae27, 0x7d079eb1]
  const ROW90: seq<bv32> := [
    0xf00f9344, 0x8708a3d2, 0x1e01f268, 0x6906c2fe, 0xf762575d, 0x806567cb, 0x196c3671, 0x6e6b06e7]
  const ROW98: seq<bv32> := [
    0xfed41b76, 0x89d32be0, 0x10da7a5a, 0x67dd4acc, 0xf9b9df6f, 0x8ebeeff9, 0x17b7be43, 0x60b08ed5]
  const ROWA0: seq<bv32> := [
    0xd6d6a3e8, 0xa1d1937e, 0x38d8c2c4, 0x4fdff252, 0xd1bb67f1, 0xa6bc5767, 0x3fb506dd, 0x48b2364b]
  const ROWA8: seq<bv32> := [
    0xd80d2bda, 0xaf0a1b4c, 0x36034af6, 0x41047a60, 0xdf60efc3, 0xa867df55, 0x316e8eef, 0x4669be79]
  const ROWB0: seq<bv32> := [
    0xcb61b38c, 0xbc66831a, 0x256fd2a0, 0x5268e236, 0xcc0c7795, 0xbb0b4703, 0x220216b9, 0x5505262f]
  const ROWB8: seq<bv32> := [
    0xc5ba3bbe, 0xb2bd0b28, 0x2bb45a92, 0x5cb36a04, 0xc2d7ffa7, 0xb5d0cf31, 0x2cd99e8b, 0x5bdeae1d]
  const ROWC0: seq<bv32> := [
    0x9b64c2b0, 0xec63f226, 0x756aa39c, 0x026d930a, 0x9c0906a9, 0xeb0e363f, 0x72076785, 0x05005713]
  const ROWC8: seq<bv32> := [
    0x95bf4a82, 0xe2b87a14, 0x7bb12bae, 0x0cb61b38, 0x92d28e9b, 0xe5d5be0d, 0x7cdcefb7, 0x0bdbdf21]
  const ROWD0: seq<bv32> := [
    0x86d3d2d4, 0xf1d4e242, 0x68ddb3f8, 0x1fda836e, 0x81be16cd, 0xf6b9265b, 0x6fb077e1, 0x18b74777]
  const ROWD8: seq<bv32> := [
    0x88085ae6, 0xff0f6a70, 0x66063bca, 0x11010b5c, 0x8f659eff, 0xf862ae69, 0x616bffd3, 0x166ccf45]
  const ROWE0: seq<bv32> := [
    0xa00ae278, 0xd70dd2ee, 0x4e048354, 0x3903b3c2, 0xa7672661, 0xd06016f7, 0x4969474d, 0x3e6e77db]
  const ROWE8: seq<bv32> := [
    0xaed16a4a, 0xd9d65adc, 0x40df0b66, 0x37d83bf0, 0xa9bcae53, 0xdebb9ec5, 0x47b2cf7f, 0x30b5ffe9]
  const ROWF0: seq<bv32> := [
    0xbdbdf21c, 0xcabac28a, 0x53b39330, 0x24b4a3a6, 0xbad03605, 0xcdd70693, 0x54de5729, 0x23d967bf]
  const ROWF8: seq<bv32> := [
    0xb3667a2e, 0xc4614ab8, 0x5d681b02, 0x2a6f2b94, 0xb40bbe37, 0xc30c8ea1, 0x5a05df1b, 0x2d02ef8d]

  /** The eight-step remainder of a byte. */
  function ByteRemainder(n: int): bv32 {
    if 0 <= n < 256 then EightSteps(n as bv32) else 0
  }

  /** A row of the table as the values of `f` at its bytes. */
  function RowOf(f: int -> bv32, n: int): seq<bv32> {
    [f(n), f(n + 1), f(n + 2), f(n + 3), f(n + 4), f(n + 5), f(n + 6), f(n + 7)]
  }

  ghost predicate GeneratedBy(f: int -> bv32, table: seq<bv32>) {
    |table| == 256 && forall n :: 0 <= n < 256 ==> table[n] == f(n)
  }

  lemma GeneratedAsWritten(table: seq<bv32>)
    requires Generated(table)
    ensures GeneratedBy(ByteRemainder, table)
  {
    forall n | 0 <= n < 256
      ensures table[n] == ByteRemainder(n)
    {
      StepsAsWritten(n as bv32);
    }
  }

  lemma RowAt(f: int -> bv32, table: seq<bv32>, n: int)
    requires GeneratedBy(f, table) && 0 <= n <= 248
    ensures table[n..n + 8] == RowOf(f, n)
  {
  }

  lemma Exact00(table: seq<bv32>)
    requires GeneratedBy(ByteRemainder, table)
    ensures table[0..8] == ROW00
  {
    assert EightSteps(0) == 0x00000000 && EightSteps(1) == 0x77073096;
    assert EightSteps(2) == 0xee0e612c && EightSteps(3) == 0x990951ba;
    assert EightSteps(4) == 0x076dc419 && EightSteps(5) == 0x706af48f;
    assert EightSteps(6) == 0xe963a535 && EightSteps(7) == 0x9e6495a3;
    RowAt(ByteRemainder, table, 0);
  }

  lemma Exact08(table: seq<bv32>)
    requires GeneratedBy(ByteRemainder, table)
    ensures table[8..16] == ROW08
  {
    assert RowOf(ByteRemainder, 8) == ROW08;
    RowAt(ByteRemainder, table, 8);
  }

  lemma Exact10(table: seq<bv32>)
    requires GeneratedBy(ByteRemainder, table)
    ensures table[16..24] == ROW10
  {
    assert RowOf(ByteRemainder, 16) == ROW10;
    RowAt(ByteRemainder, table, 16);
  }

  lemma Exact18(table: seq<bv32>)
    requires GeneratedBy(ByteRemainder, table)
    ensures table[24..32] == ROW18
  {
    assert RowOf(ByteRemainder, 24) == ROW18;
    RowAt(ByteRemainder, table, 24);
  }

  lemma Exact20(table: seq<bv32>)
    requires GeneratedBy(ByteRemainder, table)
    ensures table[32..40] == ROW20
  {
    assert RowOf(ByteRemainder, 32) == ROW20;
    RowAt(ByteRemainder, table, 32);
  }

  lemma Exact28(table: seq<bv32>)
    requires GeneratedBy(ByteRemainder, table)
    ensures table[40..48] == ROW28
  {
    assert RowOf(ByteRemainder, 40) == ROW28;
    RowAt(ByteRemainder, table, 40);
  }

  lemma Exact30(table: seq<bv32>)
    requires GeneratedBy(ByteRemainder, table)
    ensures table[48..56] == ROW30
  {
    assert RowOf(ByteRemainder, 48) == ROW30;
    RowAt(ByteRemainder, table, 48);
  }

  lemma Exact38(table: seq<bv32>)
    requires GeneratedBy(ByteRemainder, table)
    ensures table[56..64] == ROW38
  {
    assert EightSteps(56) == 0x2802b89e && EightSteps(57) == 0x5f058808;
    assert EightSteps(58) == 0xc60cd9b2 && EightSteps(59) == 0xb10be924;
    assert EightSteps(60) == 0x2f6f7c87 && EightSteps(61) == 0x58684c11;
    assert EightSteps(62) == 0xc1611dab && EightSteps(63) == 0xb6662d3d;
    RowAt(ByteRemainder, table, 56);
  }

  lemma Exact40(table: seq<bv32>)
    requires GeneratedBy(ByteRemainder, table)
    ensures table[64..72] == ROW40
  {
    assert RowOf(ByteRemainder, 64) == ROW40;
    RowAt(ByteRemainder, table, 64);
  }

  lemma Exact48(table: seq<bv32>)
    requires GeneratedBy(ByteRemainder, table)
    ensures table[72..80] == ROW48
  {
    assert RowOf(ByteRemainder, 72) == ROW48;
    RowAt(ByteRemainder, table, 72);
  }

  lemma Exact50(table: seq<bv32>)
    requires GeneratedBy(ByteRemainder, table)
    ensures table[80..88] == ROW50
  {
    assert RowOf(ByteRemainder, 80) == ROW50;
    RowAt(ByteRemainder, table, 80);
  }

  lemma Exact58(table: seq<bv32>)
    requires GeneratedBy(ByteRemainder, table)
    ensures table[88..96] == ROW58
  {
    assert RowOf(ByteRemainder, 88) == ROW58;
    RowAt(ByteRemainder, table, 88);
  }

  lemma Exact60(table: seq<bv32>)
    requires GeneratedBy(ByteRemainder, table)
    ensures table[96..104] == ROW60
  {
    assert RowOf(ByteRemainder, 96) == ROW60;
    RowAt(ByteRemainder, table, 96);
  }

  lemma Exact68(table: seq<bv32>)
    requires GeneratedBy(ByteRemainder, table)
    ensures table[104..112] == ROW68
  {
    assert RowOf(ByteRemainder, 104) == ROW68;
    RowAt(ByteRemainder, table, 104);
  }

  lemma Exact70(table: seq<bv32>)
    requires GeneratedBy(ByteRemainder, table)
    ensures table[112..120] == ROW70
  {
    assert RowOf(ByteRemainder, 112) == ROW70;
    RowAt(ByteRemainder, table, 112);
  }

  lemma Exact78(table: seq<bv32>)
    requires GeneratedBy(ByteRemainder, table)
    ensures table[120..128] == ROW78
  {
    assert RowOf(ByteRemainder, 120) == ROW78;
    RowAt(ByteRemainder, table, 120);
  }

  lemma Exact80(table: seq<bv32>)
    requires GeneratedBy(ByteRemainder, table)
    ensures table[128..136] == ROW80
  {
    assert RowOf(ByteRemainder, 128) == ROW80;
    RowAt(ByteRemainder, table, 128);
  }

  lemma Exact88(table: seq<bv32>)
    requires GeneratedBy(ByteRemainder, table)
    ensures table[136..144] == ROW88
  {
    assert RowOf(ByteRemainder, 136) == ROW88;
    RowAt(ByteRemainder, table, 136);
  }

  lemma Exact90(table: seq<bv32>)
    requires GeneratedBy(ByteRemainder, table)
    ensures table[144..152] == ROW90
  {
    assert RowOf(ByteRemainder, 144) == ROW90;
    RowAt(ByteRemainder, table, 144);
  }

  lemma Exact98(table: seq<bv32>)
    requires GeneratedBy(ByteRemainder, table)
    ensures table[152..160] == ROW98
  {
    assert RowOf(ByteRemainder, 152) == ROW98;
    RowAt(ByteRemainder, table, 152);
  }

  lemma ExactA0(table: seq<bv32>)
    requires GeneratedBy(ByteRemainder, table)
    ensures table[160..168] == ROWA0
  {
    assert RowOf(ByteRemainder, 160) == ROWA0;
    RowAt(ByteRemainder, table, 160);
  }

  lemma ExactA8(table: seq<bv32>)
    requires GeneratedBy(ByteRemainder, table)
    ensures table[168..176] == ROWA8
  {
    assert RowOf(ByteRemainder, 168) == ROWA8;
    RowAt(ByteRemainder, table, 168);
  }

  lemma ExactB0(table: seq<bv32>)
    requires GeneratedBy(ByteRemainder, table)
    ensures table[176..184] == ROWB0
  {
    assert RowOf(ByteRemainder, 176) == ROWB0;
    RowAt(ByteRemainder, table, 176);
  }

  lemma ExactB8(table: seq<bv32>)
    requires GeneratedBy(ByteRemainder, table)
    ensures table[184..192] == ROWB8
  {
    assert RowOf(ByteRemainder, 184) == ROWB8;
    RowAt(ByteRemainder, table, 184);
  }

  lemma ExactC0(table: seq<bv32>)
    requires GeneratedBy(ByteRemainder, table)
    ensures table[192..200] == ROWC0
  {
    assert RowOf(ByteRemainder, 192) == ROWC0;
    RowAt(ByteRemainder, table, 192);
  }

  lemma ExactC8(table: seq<bv32>)
    requires GeneratedBy(ByteRemainder, table)
    ensures table[200..208] == ROWC8
  {
    assert RowOf(ByteRemainder, 200) == ROWC8;
    RowAt(ByteRemainder, table, 200);
  }

  lemma ExactD0(table: seq<bv32>)
    requires GeneratedBy(ByteRemainder, table)
    ensures table[208..216] == ROWD0
  {
    assert RowOf(ByteRemainder, 208) == ROWD0;
    RowAt(ByteRemainder, table, 208);
  }

  lemma ExactD8(table: seq<bv32>)
    requires GeneratedBy(ByteRemainder, table)
    ensures table[216..224] == ROWD8
  {
    assert RowOf(ByteRemainder, 216) == ROWD8;
    RowAt(ByteRemainder, table, 216);
  }

  lemma ExactE0(table: seq<bv32>)
    requires GeneratedBy(ByteRemainder, table)
    ensures table[224..232] == ROWE0
  {
    assert RowOf(ByteRemainder, 224) == ROWE0;
    RowAt(ByteRemainder, table, 224);
  }

  lemma ExactE8(table: seq<bv32>)
    requires GeneratedBy(ByteRemainder, table)
    ensures table[232..240] == ROWE8
  {
    assert RowOf(ByteRemainder, 232) == ROWE8;
    RowAt(ByteRemainder, table, 232);
  }

  lemma ExactF0(table: seq<bv32>)
    requires GeneratedBy(ByteRemainder, table)
    ensures table[240..248] == ROWF0
  {
    assert RowOf(ByteRemainder, 240) == ROWF0;
    RowAt(ByteRemainder, table, 240);
  }

  lemma ExactF8(table: seq<bv32>)
    requires GeneratedBy(ByteRemainder, table)
    ensures table[248..256] == ROWF8
  {
    assert RowOf(ByteRemainder, 248) == ROWF8;
    RowAt(ByteRemainder, table, 248);
  }

  const CRC_TABLE: seq<bv32> :=
    ROW00 + ROW08 + ROW10 + ROW18 + ROW20 + ROW28 + ROW30 + ROW38
    + ROW40 + ROW48 + ROW50 + ROW58 + ROW60 + ROW68 + ROW70 + ROW78
    + ROW80 + ROW88 + ROW90 + ROW98 + ROWA0 + ROWA8 + ROWB0 + ROWB8
    + ROWC0 + ROWC8 + ROWD0 + ROWD8 + ROWE0 + ROWE8 + ROWF0 + ROWF8

  lemma OneMoreRow(t: seq<bv32>, n: nat)
    requires n + 8 <= |t|
    ensures t[0..n] + t[n..n + 8] == t[0..n + 8]
  {
  }

  lemma Rows(t: seq<bv32>)
    requires |t| == 256
    ensures t ==
      t[0..8] + t[8..16] + t[16..24] + t[24..32] + t[32..40] + t[40..48] + t[48..56] + t[56..64]
      + t[64..72] + t[72..80] + t[80..88] + t[88..96] + t[96..104] + t[104..112] + t[112..120] + t[120..128]
      + t[128..136] + t[136..144] + t[144..152] + t[152..160] + t[160..168] + t[168..176] + t[176..184] + t[184..192]
      + t[192..200] + t[200..208] + t[208..216] + t[216..224] + t[224..232] + t[232..240] + t[240..248] + t[248..256]
  {
    OneMoreRow(t, 8);
    OneMoreRow(t, 16);
    OneMoreRow(t, 24);
    OneMoreRow(t, 32);
    OneMoreRow(t, 40);
    OneMoreRow(t, 48);
    OneMoreRow(t, 56);
    OneMoreRow(t, 64);
    OneMoreRow(t, 72);
    OneMoreRow(t, 80);
    OneMoreRow(t, 88);
    OneMoreRow(t, 96);
    OneMoreRow(t, 104);
    OneMoreRow(t, 112);
    OneMoreRow(t, 120);
    OneMoreRow(t, 128);
    OneMoreRow(t, 136);
    OneMoreRow(t, 144);
    OneMoreRow(t, 152);
    OneMoreRow(t, 160);
    OneMoreRow(t, 168);
    OneMoreRow(t, 176);
    OneMoreRow(t, 184);
    OneMoreRow(t, 192);
    OneMoreRow(t, 200);
    OneMoreRow(t, 208);
    OneMoreRow(t, 216);
    OneMoreRow(t, 224);
    OneMoreRow(t, 232);
    OneMoreRow(t, 240);
    OneMoreRow(t, 248);
    assert t[0..256] == t;
  }

  /** The literal table is the generated one, entry by entry. */
  lemma LiteralTable(table: seq<bv32>)
    requires Generated(table)
    ensures table == CRC_TABLE
  {
    Rows(table);
    GeneratedAsWritten(table);
    Exact00(table);
    Exact08(table);
    Exact10(table);
    Exact18(table);
    Exact20(table);
    Exact28(table);
    Exact30(table);
    Exact38(table);
    Exact40(table);
    Exact48(table);
    Exact50(table);
    Exact58(table);
    Exact60(table);
    Exact68(table);
    Exact70(table);
    Exact78(table);
    Exact80(table);
    Exact88(table);
    Exact90(table);
    Exact98(table);
    ExactA0(table);
    ExactA8(table);
    ExactB0(table);
    ExactB8(table);
    ExactC0(table);
    ExactC8(table);
    ExactD0(table);
    ExactD8(table);
    ExactE0(table);
    ExactE8(table);
    ExactF0(table);
    ExactF8(table);
  }

  /** The literal table is the generated one, so lookups in it are eight bit steps. */
  lemma LiteralGenerated(table: seq<bv32>)
    ensures Generated(table) <==> table == CRC_TABLE
  {
    var made := MadeTable();
    assert Generated(made);
    LiteralTable(made);
    if Generated(table) {
      LiteralTable(table);
    }
  }

  function MadeTable(): (t: seq<bv32>)
    ensures |t| == 256
  {
    seq(256, n requires 0 <= n < 256 => Steps(WORDS, 8, n as bv32))
  }

  lemma IntByte(x: bv32)
    requires x < 256
    ensures 0 <= x as int < 256
  {
  }

  lemma IntRoundTrip(x: bv32)
    ensures (x as int) as bv32 == x
  {
  }

  /** The table entry for the low byte of a word. */
  function Lookup(table: seq<bv32>, x: bv32): bv32 {
    if x < 256 && |table| == 256 then
      IntByte(x);
      table[x as int]
    else 0
  }

  lemma LookupExact(table: seq<bv32>, x: bv32)
    requires Generated(table) && x < 256
    ensures Lookup(table, x) == Steps(WORDS, 8, x)
  {
    IntByte(x);
    IntRoundTrip(x);
  }

  lemma KeepSmall(x: bv32)
    ensures Keep(8, x) < 256
  {
  }

  lemma LookupIsTable(table: seq<bv32>)
    requires Generated(table)
    ensures TableFor(WORDS, 8, (x: bv32) => Lookup(table, x))
  {
    forall x
      ensures Lookup(table, Keep(8, x)) == Steps(WORDS, 8, Keep(8, x))
    {
      KeepSmall(x);
      LookupExact(table, Keep(8, x));
    }
  }

  // ---------- The checksum ----------

  function Shift8(x: bv32): bv32 {
    x >> 8
  }

  lemma EightHalves(x: bv32)
    ensures Half(Half(Half(Half(Half(Half(Half(Half(x)))))))) == Shift8(x)
  {
  }

  lemma HalvesOnce(k: nat, x: bv32)
    requires k > 0
    ensures Halves(WORDS, k, x) == Halves(WORDS, k - 1, Half(x))
  {
  }

  lemma HalvesShift(x: bv32)
    ensures Halves(WORDS, 8, x) == Shift8(x)
  {
    var x1 := Half(x);
    var x2 := Half(x1);
    var x3 := Half(x2);
    var x4 := Half(x3);
    var x5 := Half(x4);
    var x6 := Half(x5);
    var x7 := Half(x6);
    HalvesOnce(8, x);
    HalvesOnce(7, x1);
    HalvesOnce(6, x2);
    HalvesOnce(5, x3);
    HalvesOnce(4, x4);
    HalvesOnce(3, x5);
    HalvesOnce(2, x6);
    HalvesOnce(1, x7);
    EightHalves(x);
  }

  lemma OctetShift(c: bv32, b: octet)
    ensures Shift8(Add(c, b)) == Shift8(c)
  {
  }

  lemma OctetKept(b: octet)
    ensures Keep(8, b) == b
  {
  }

  /** One round of the loop divides on with one byte, bit by bit. */
  lemma RoundExact(table: seq<bv32>, c: bv32, b: octet)
    requires Generated(table)
    ensures Add(Lookup(table, Keep(8, Add(c, b))), Shift8(c)) == Feed(WORDS, 8, c, b)
  {
    WordsLawful();
    LookupIsTable(table);
    OctetKept(b);
    TableFeeds(WORDS, 8, (x: bv32) => Lookup(table, x), c, b);
    HalvesShift(Add(c, b));
    OctetShift(c, b);
  }

  /** CRC-32 by bit-at-a-time division, continuing from the CRC of what came before. */
  function Crc(crc: bv32, message: seq<octet>): bv32 {
    Divide(WORDS, 8, crc ^ 0xffffffff, message) ^ 0xffffffff
  }

  /** `crc32`; a null buffer gives 0. */
  method Crc32(crc: bv32, buf: Option<seq<octet>>) returns (r: bv32)
    ensures r == if buf.None? then 0 else Crc(crc, buf.value)
  {
    LiteralGenerated(CRC_TABLE);
    r := Crc32By(CRC_TABLE, crc, buf);
  }

  method Crc32By(table: seq<bv32>, crc: bv32, buf: Option<seq<octet>>) returns (r: bv32)
    requires Generated(table)
    ensures r == if buf.None? then 0 else Crc(crc, buf.value)
  {
    if buf.None? {
      return 0;
    }
    var message := buf.value;
    var start := crc ^ 0xffffffff;
    var c := start;
    for i := 0 to |message|
      invariant c == Divide(WORDS, 8, start, message[..i])
    {
      RoundExact(table, c, message[i]);
      DivideAppend(WORDS, 8, start, message[..i], [message[i]]);
      assert message[..i + 1] == message[..i] + [message[i]];
      c := Add(Lookup(table, Keep(8, Add(c, message[i]))), Shift8(c));
    }
    assert message[..|message|] == message;
    r := c ^ 0xffffffff;
  }

  lemma NotNot(x: bv32)
    ensures (x ^ 0xffffffff) ^ 0xffffffff == x
  {
  }

  /** Checksums compose over concatenation. */
  lemma CrcAppend(crc: bv32, x: seq<octet>, y: seq<octet>)
    ensures Crc(Crc(crc, x), y) == Crc(crc, x + y)
  {
    NotNot(Divide(WORDS, 8, crc ^ 0xffffffff, x));
    DivideAppend(WORDS, 8, crc ^ 0xffffffff, x, y);
  }

  // ---------- The check value ----------

  /** The message "123456789". */
  const CHECK: seq<octet> := [0x31, 0x32, 0x33, 0x34, 0x35, 0x36, 0x37, 0x38, 0x39]

  lemma FeedIs(c: bv32, b: octet, x: bv32, r: bv32)
    requires x == Add(c, b) && r == EightSteps(x)
    ensures Feed(WORDS, 8, c, b) == r
  {
    WordsLawful();
    FeedIsSteps(WORDS, 8, c, b);
    StepsAsWritten(x);
  }

  /** The nine bytes divided one after the other. */
  lemma CheckDivides(feed: (bv32, octet) -> bv32)
    requires Feeds(feed)
    ensures feed(0xffffffff, 0x31) == 0x7c231048
    ensures feed(0x7c231048, 0x32) == 0xb0acbb32
    ensures feed(0xb0acbb32, 0x33) == 0x77b79c2d
    ensures feed(0x77b79c2d, 0x34) == 0x641c1f5c
    ensures feed(0x641c1f5c, 0x35) == 0x340ac5e3
    ensures feed(0x340ac5e3, 0x36) == 0xf68d2c9e
    ensures feed(0xf68d2c9e, 0x37) == 0xaffc9660
    ensures feed(0xaffc9660, 0x38) == 0x651f2550
    ensures feed(0x651f2550, 0x39) == 0x340bc6d9
  {
    FeedsTo(feed, 0xffffffff, 0x31, 0xffffffce, 0x7c231048);
    FeedsTo(feed, 0x7c231048, 0x32, 0x7c23107a, 0xb0acbb32);
    FeedsTo(feed, 0xb0acbb32, 0x33, 0xb0acbb01, 0x77b79c2d);
    FeedsTo(feed, 0x77b79c2d, 0x34, 0x77b79c19, 0x641c1f5c);
    FeedsTo(feed, 0x641c1f5c, 0x35, 0x641c1f69, 0x340ac5e3);
    FeedsTo(feed, 0x340ac5e3, 0x36, 0x340ac5d5, 0xf68d2c9e);
    FeedsTo(feed, 0xf68d2c9e, 0x37, 0xf68d2ca9, 0xaffc9660);
    FeedsTo(feed, 0xaffc9660, 0x38, 0xaffc9658, 0x651f2550);
    FeedsTo(feed, 0x651f2550, 0x39, 0x651f2569, 0x340bc6d9);
  }

  /** `feed` divides by one byte; chains of bytes reason about `feed` alone. */
  ghost predicate Feeds(feed: (bv32, octet) -> bv32) {
    forall c: bv32, b: octet {:trigger Feed(WORDS, 8, c, b)} :: feed(c, b) == Feed(WORDS, 8, c, b)
  }

  lemma FeedsTo(feed: (bv32, octet) -> bv32, c: bv32, b: octet, x: bv32, r: bv32)
    requires Feeds(feed) && x == Add(c, b) && r == EightSteps(x)
    ensures feed(c, b) == r
  {
    FeedIs(c, b, x, r);
    assert feed(c, b) == Feed(WORDS, 8, c, b);
  }

  function Chain(feed: (bv32, octet) -> bv32, c: bv32, message: seq<octet>): bv32
    decreases |message|
  {
    if message == [] then c else Chain(feed, feed(c, message[0]), message[1..])
  }

  lemma {:induction false} ChainDivides(feed: (bv32, octet) -> bv32, c: bv32, message: seq<octet>)
    requires Feeds(feed)
    ensures Chain(feed, c, message) == Divide(WORDS, 8, c, message)
    decreases |message|
  {
    if message != [] {
      assert feed(c, message[0]) == Feed(WORDS, 8, c, message[0]);
      ChainDivides(feed, feed(c, message[0]), message[1..]);
    }
  }

  lemma ChainNine(feed: (bv32, octet) -> bv32, c: bv32, m: seq<octet>)
    requires |m| == 9
    ensures Chain(feed, c, m) ==
      feed(feed(feed(feed(feed(feed(feed(feed(feed(c, m[0]), m[1]), m[2]), m[3]), m[4]), m[5]), m[6]), m[7]), m[8])
  {
    var c3 := feed(feed(feed(c, m[0]), m[1]), m[2]);
    var c6 := feed(feed(feed(c3, m[3]), m[4]), m[5]);
    ChainThree(feed, c, m);
    ChainThree(feed, c3, m[3..]);
    ChainThree(feed, c6, m[3..][3..]);
    assert m[3..][3..][3..] == [];
  }

  lemma ChainThree(feed: (bv32, octet) -> bv32, c: bv32, m: seq<octet>)
    requires |m| >= 3
    ensures Chain(feed, c, m) == Chain(feed, feed(feed(feed(c, m[0]), m[1]), m[2]), m[3..])
  {
    var c1 := feed(c, m[0]);
    var c2 := feed(c1, m[1]);
    assert m[1..][1..] == m[2..] && m[2..][1..] == m[3..];
    assert Chain(feed, c, m) == Chain(feed, c1, m[1..]);
    assert Chain(feed, c1, m[1..]) == Chain(feed, c2, m[2..]);
    assert Chain(feed, c2, m[2..]) == Chain(feed, feed(c2, m[2]), m[3..]);
  }

  function FeedByte(c: bv32, b: octet): bv32 {
    Feed(WORDS, 8, c, b)
  }

  /** The check value that catalogues give for this CRC: that of "123456789" is 0xcbf43926. */
  lemma CheckValue()
    ensures Crc(0, CHECK) == 0xcbf43926
  {
    CheckOf(FeedByte);
    ChainDivides(FeedByte, 0xffffffff, CHECK);
  }

  lemma CheckOf(feed: (bv32, octet) -> bv32)
    requires Feeds(feed)
    ensures Chain(feed, 0xffffffff, CHECK) == 0x340bc6d9
  {
    ChainNine(feed, 0xffffffff, CHECK);
    CheckDivides(feed);
  }
}
