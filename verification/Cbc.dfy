/**
 Cipher block chaining over an arbitrary block cipher: the chaining itself, the
 in-place page codec and the padded form.
 */
module Cbc {
  import opened Bytes

  const BLOCK := 16

  type Block = b: seq<byte> | |b| == BLOCK witness seq(BLOCK, _ => 0)

  datatype Cipher = Cipher(encrypt: Block -> Block, decrypt: Block -> Block) {
    ghost predicate Lawful() {
      forall b: Block :: decrypt(encrypt(b)) == b
    }
  }

  function XorBlock(a: Block, b: Block): Block {
    seq(BLOCK, i requires 0 <= i < BLOCK => Xor(a[i], b[i]))
  }

  lemma XorBlockCancel(a: Block, b: Block)
    ensures XorBlock(XorBlock(a, b), b) == a
  {
    forall i | 0 <= i < BLOCK
      ensures XorBlock(XorBlock(a, b), b)[i] == a[i]
    {
      XorCancel(a[i], b[i]);
    }
  }

  // ---------- The chaining ----------

  function Encrypt(c: Cipher, iv: Block, s: seq<byte>): (r: seq<byte>)
    requires |s| % BLOCK == 0
    ensures |r| == |s|
    decreases |s|
  {
    if s == [] then []
    else
      var e := c.encrypt(XorBlock(s[..BLOCK], iv));
      e + Encrypt(c, e, s[BLOCK..])
  }

  function Decrypt(c: Cipher, iv: Block, s: seq<byte>): (r: seq<byte>)
    requires |s| % BLOCK == 0
    ensures |r| == |s|
    decreases |s|
  {
    if s == [] then []
    else XorBlock(c.decrypt(s[..BLOCK]), iv) + Decrypt(c, s[..BLOCK], s[BLOCK..])
  }

  /** Decryption inverts encryption, whatever blocks follow the ciphertext. */
  lemma {:induction false} DecryptEncrypt(c: Cipher, iv: Block, s: seq<byte>, t: seq<byte>)
    requires c.Lawful() && |s| % BLOCK == 0 && |t| % BLOCK == 0
    ensures Decrypt(c, iv, Encrypt(c, iv, s) + t)[..|s|] == s
    decreases |s|
  {
    if s != [] {
      var p, rest := s[..BLOCK], s[BLOCK..];
      var e := c.encrypt(XorBlock(p, iv));
      var more := Encrypt(c, e, rest) + t;
      var all := Encrypt(c, iv, s) + t;
      assert all == e + more;
      assert all[..BLOCK] == e && all[BLOCK..] == more;
      XorBlockCancel(p, iv);
      DecryptEncrypt(c, e, rest, t);
      assert Decrypt(c, iv, all) == p + Decrypt(c, e, more);
      assert s == p + rest;
    }
  }

  /** The vector that the block after `s` is combined with. */
  function Last(iv: Block, s: seq<byte>): Block
    requires |s| % BLOCK == 0
  {
    if s == [] then iv else s[|s| - BLOCK..]
  }

  lemma {:induction false} EncryptSnoc(c: Cipher, iv: Block, s: seq<byte>, b: Block)
    requires |s| % BLOCK == 0
    ensures Encrypt(c, iv, s + b)
         == Encrypt(c, iv, s) + c.encrypt(XorBlock(b, Last(iv, Encrypt(c, iv, s))))
    decreases |s|
  {
    if s == [] {
      assert s + b == b && b[..BLOCK] == b;
      assert b[BLOCK..] == [];
      var e := c.encrypt(XorBlock(b, iv));
      assert Encrypt(c, iv, b) == e + [] == [] + e;
    } else {
      var e := c.encrypt(XorBlock(s[..BLOCK], iv));
      assert (s + b)[..BLOCK] == s[..BLOCK] && (s + b)[BLOCK..] == s[BLOCK..] + b;
      var tail := Encrypt(c, e, s[BLOCK..]);
      EncryptSnoc(c, e, s[BLOCK..], b);
      LastAppend(iv, e, tail, c.encrypt(XorBlock(b, Last(e, tail))));
    }
  }

  lemma LastAppend(iv: Block, e: Block, tail: seq<byte>, next: Block)
    requires |tail| % BLOCK == 0
    ensures Last(iv, e + tail) == Last(e, tail)
    ensures e + (tail + next) == (e + tail) + next
  {
  }

  /** The vector that the block at `at` of a ciphertext is combined with. */
  function Before(iv: Block, s: seq<byte>, at: nat): Block
    requires at % BLOCK == 0 && at <= |s|
  {
    if at == 0 then iv else s[at - BLOCK..at]
  }

  lemma {:induction false} DecryptAt(c: Cipher, iv: Block, s: seq<byte>, at: nat)
    requires |s| % BLOCK == 0 && at % BLOCK == 0 && at + BLOCK <= |s|
    ensures Decrypt(c, iv, s)[at..at + BLOCK]
         == XorBlock(c.decrypt(s[at..at + BLOCK]), Before(iv, s, at))
    decreases |s|
  {
    if at > 0 {
      var first, rest := s[..BLOCK], s[BLOCK..];
      DecryptAt(c, first, rest, at - BLOCK);
      BeforeShift(iv, first, rest, at);
      assert s == first + rest;
      ShiftSlice(XorBlock(c.decrypt(first), iv), Decrypt(c, first, rest), at);
      ShiftSlice(first, rest, at);
    } else {
      var d := XorBlock(c.decrypt(s[..BLOCK]), iv);
      assert (d + Decrypt(c, s[..BLOCK], s[BLOCK..]))[..BLOCK] == d;
    }
  }

  lemma ShiftSlice(a: Block, s: seq<byte>, at: nat)
    requires BLOCK <= at <= |s|
    ensures (a + s)[at..at + BLOCK] == s[at - BLOCK..at]
  {
  }

  lemma BeforeShift(iv: Block, first: Block, rest: seq<byte>, at: nat)
    requires at % BLOCK == 0 && 0 < at <= |rest|
    ensures Before(first, rest, at - BLOCK) == Before(iv, first + rest, at)
  {
  }

  // ---------- Block loops over buffers, which may be the same buffer ----------

  method PutBlock(a: array<byte>, at: nat, b: Block)
    requires at + BLOCK <= a.Length
    modifies a
    ensures a[at..at + BLOCK] == b
    ensures forall k :: 0 <= k < a.Length && !(at <= k < at + BLOCK) ==> a[k] == old(a[k])
  {
    forall i | 0 <= i < BLOCK {
      a[at + i] := b[i];
    }
  }

  method EncryptBlocks(c: Cipher, iv: Block, input: array<byte>, output: array<byte>, n: nat)
      returns (last: Block)
    requires BLOCK * n <= input.Length && BLOCK * n <= output.Length
    modifies output
    ensures output[..BLOCK * n] == Encrypt(c, iv, old(input[..BLOCK * n]))
    ensures output[BLOCK * n..] == old(output[BLOCK * n..])
    ensures last == Last(iv, output[..BLOCK * n])
  {
    ghost var plain := input[..BLOCK * n];
    last := iv;
    for i := 0 to n
      invariant forall k :: BLOCK * i <= k < BLOCK * n ==> input[k] == plain[k]
      invariant output[..BLOCK * i] == Encrypt(c, iv, plain[..BLOCK * i])
      invariant forall k :: BLOCK * i <= k < output.Length ==> output[k] == old(output[k])
      invariant last == Last(iv, output[..BLOCK * i])
    {
      var at := BLOCK * i;
      var block := input[at..at + BLOCK];
      assert plain[..at + BLOCK] == plain[..at] + block;
      EncryptSnoc(c, iv, plain[..at], block);
      last := c.encrypt(XorBlock(block, last));
      ghost var done := output[..at];
      PutBlock(output, at, last);
      assert output[..at + BLOCK] == done + last;
    }
    assert plain[..BLOCK * n] == plain;
  }

  method DecryptBlocks(c: Cipher, iv: Block, input: array<byte>, output: array<byte>, n: nat)
      returns (last: Block)
    requires BLOCK * n <= input.Length && BLOCK * n <= output.Length
    modifies output
    ensures output[..BLOCK * n] == Decrypt(c, iv, old(input[..BLOCK * n]))
    ensures output[BLOCK * n..] == old(output[BLOCK * n..])
    ensures input[BLOCK * n..] == old(input[BLOCK * n..])
    ensures last == Before(iv, old(input[..BLOCK * n]), BLOCK * n)
  {
    ghost var cipher := input[..BLOCK * n];
    ghost var want := Decrypt(c, iv, cipher);
    last := iv;
    for i := 0 to n
      invariant forall k :: BLOCK * i <= k < input.Length ==> input[k] == old(input[k])
      invariant output[..BLOCK * i] == want[..BLOCK * i]
      invariant forall k :: BLOCK * i <= k < output.Length ==> output[k] == old(output[k])
      invariant last == Before(iv, cipher, BLOCK * i)
    {
      var at := BLOCK * i;
      var block := input[at..at + BLOCK];
      assert block == cipher[at..at + BLOCK];
      DecryptAt(c, iv, cipher, at);
      var plain := XorBlock(c.decrypt(block), last);
      ghost var done := output[..at];
      PutBlock(output, at, plain);
      last := block;
      assert output[..at + BLOCK] == done + plain == want[..at + BLOCK];
    }
  }

  // ---------- Database pages, in place ----------

  /** Blocks that `RijndaelBlockEncrypt` processes: the first one even on short input. */
  function EncryptedBlocks(len: int): nat {
    if len <= 0 then 0 else if len < BLOCK then 1 else len / BLOCK
  }

  function DecryptedBlocks(len: int): nat {
    if len <= 0 then 0 else len / BLOCK
  }

  function EncryptedPage(c: Cipher, iv: Block, page: seq<byte>, len: int): (r: seq<byte>)
    requires BLOCK * EncryptedBlocks(len) <= |page|
    ensures |r| == |page|
  {
    var n := BLOCK * EncryptedBlocks(len);
    Encrypt(c, iv, page[..n]) + page[n..]
  }

  function DecryptedPage(c: Cipher, iv: Block, page: seq<byte>, len: int): (r: seq<byte>)
    requires BLOCK * DecryptedBlocks(len) <= |page|
    ensures |r| == |page|
  {
    var n := BLOCK * DecryptedBlocks(len);
    Decrypt(c, iv, page[..n]) + page[n..]
  }

  /** `CodecEncrypt`: input and output are the same buffer. */
  method EncryptPage(c: Cipher, iv: Block, data: array<byte>, len: int)
    requires BLOCK * EncryptedBlocks(len) <= data.Length
    modifies data
    ensures data[..] == EncryptedPage(c, iv, old(data[..]), len)
  {
    ghost var n := BLOCK * EncryptedBlocks(len);
    ghost var page := data[..];
    if len > 0 {
      var numBlocks := len / BLOCK;
      var last := EncryptBlocks(c, iv, data, data, if numBlocks == 0 then 1 else numBlocks);
    }
    assert data[..] == data[..n] + data[n..];
  }

  /** `CodecDecrypt`: input and output are the same buffer. */
  method DecryptPage(c: Cipher, iv: Block, data: array<byte>, len: int)
    requires BLOCK * DecryptedBlocks(len) <= data.Length
    modifies data
    ensures data[..] == DecryptedPage(c, iv, old(data[..]), len)
  {
    ghost var n := BLOCK * DecryptedBlocks(len);
    if len > 0 {
      var last := DecryptBlocks(c, iv, data, data, len / BLOCK);
    }
    assert data[..] == data[..n] + data[n..];
  }

  /** Decrypting an encrypted page of at least one block gives it back, and the tail never changes. */
  lemma PageRoundTrip(c: Cipher, iv: Block, page: seq<byte>, len: int)
    requires c.Lawful() && BLOCK * EncryptedBlocks(len) <= |page|
    requires len <= 0 || BLOCK <= len
    ensures DecryptedPage(c, iv, EncryptedPage(c, iv, page, len), len) == page
    ensures EncryptedPage(c, iv, page, len)[BLOCK * EncryptedBlocks(len)..]
         == page[BLOCK * EncryptedBlocks(len)..]
  {
    var n := BLOCK * EncryptedBlocks(len);
    var e := Encrypt(c, iv, page[..n]);
    DecryptEncrypt(c, iv, page[..n], []);
    assert e + [] == e;
    assert (e + page[n..])[..n] == e && (e + page[n..])[n..] == page[n..];
    assert page == page[..n] + page[n..];
  }

  /** Shorter pages are encrypted as a whole block but never decrypted. */
  lemma ShortPageStays(c: Cipher, iv: Block, page: seq<byte>, len: int)
    requires 0 < len < BLOCK <= |page|
    ensures DecryptedPage(c, iv, EncryptedPage(c, iv, page, len), len) == page
       <==> c.encrypt(XorBlock(page[..BLOCK], iv)) == page[..BLOCK]
  {
    var n := BLOCK * EncryptedBlocks(len);
    var e := c.encrypt(XorBlock(page[..BLOCK], iv));
    assert page[..n][..BLOCK] == page[..BLOCK];
    assert page[..n][BLOCK..] == [];
    assert Encrypt(c, iv, page[..n]) == e + [] == e;
    var r := EncryptedPage(c, iv, page, len);
    assert r == e + page[BLOCK..];
    assert DecryptedPage(c, iv, r, len) == [] + r == r;
    assert r[..BLOCK] == e;
    assert page == page[..BLOCK] + page[BLOCK..];
  }

  /** So for lengths 1 to 15 the page codec is not the identity for every lawful cipher. */
  lemma ShortPageLost(len: int)
    requires 0 < len < BLOCK
    ensures var c := Cipher((b: Block) => b, (b: Block) => b);
            var ones: Block := seq(BLOCK, _ => 1);
            var page := seq(BLOCK, _ => 0);
            c.Lawful() && DecryptedPage(c, ones, EncryptedPage(c, ones, page, len), len) != page
  {
    var c := Cipher((b: Block) => b, (b: Block) => b);
    var ones: Block := seq(BLOCK, _ => 1);
    var page: seq<byte> := seq(BLOCK, _ => 0);
    ShortPageStays(c, ones, page, len);
    assert page[..BLOCK] == page;
    assert Xor(0, 1) == 1;
    assert XorBlock(page, ones)[0] != page[0];
  }

  // ---------- Padding (section 6.3 of RFC 5652) ----------

  const CORRUPTED_DATA := -7

  function PadLength(n: nat): (k: nat)
    ensures 1 <= k <= BLOCK && (n + k) % BLOCK == 0
  {
    BLOCK - n % BLOCK
  }

  function Pad(s: seq<byte>): (r: seq<byte>)
    ensures |r| % BLOCK == 0
  {
    s + Fill(PadLength(|s|))
  }

  function Fill(k: byte): (r: seq<byte>)
    ensures |r| == k && forall i :: 0 <= i < k ==> r[i] == k
  {
    seq(k, _ => k)
  }

  /** The last block holds the octets past the whole blocks, then the padding. */
  lemma PadSplit(s: seq<byte>, m: nat)
    requires m % BLOCK == 0 && m <= |s| < m + BLOCK
    ensures PadLength(|s|) == BLOCK - (|s| - m)
    ensures Pad(s) == s[..m] + (s[m..] + Fill(BLOCK - (|s| - m)))
  {
    var k := |s| - m;
    assert |s| % BLOCK == k;
    assert s == s[..m] + s[m..];
  }

  /** The number of padding octets at the end, or 0 if they are malformed. */
  function PadFound(b: Block): nat {
    var k := b[BLOCK - 1];
    if 1 <= k <= BLOCK && (forall i :: BLOCK - k <= i < BLOCK ==> b[i] == k) then k else 0
  }

  /** Result of `RijndaelPadDecrypt` on the decrypted blocks: the length to keep, or the error. */
  function UnpaddedLength(s: seq<byte>): int
    requires |s| % BLOCK == 0 && s != []
  {
    var k := PadFound(s[|s| - BLOCK..]);
    if k == 0 then CORRUPTED_DATA else |s| - k
  }

  lemma UnpadPad(s: seq<byte>)
    ensures UnpaddedLength(Pad(s)) == |s| && Pad(s)[..|s|] == s
  {
    var r, k := Pad(s), PadLength(|s|);
    var b: Block := r[|r| - BLOCK..];
    assert forall i :: BLOCK - k <= i < BLOCK ==> b[i] == k;
  }

  /** Encrypts the padded input; the buffers may be the same one. */
  method PadEncrypt(c: Cipher, iv: Block, input: array<byte>, n: int, output: array<byte>)
      returns (r: int)
    requires n > 0 ==> n <= input.Length && BLOCK * (n / BLOCK + 1) <= output.Length
    modifies output
    ensures n <= 0 ==> r == 0 && output[..] == old(output[..])
    ensures n > 0 ==>
      && r == BLOCK * (n / BLOCK + 1) == |Pad(old(input[..n]))|
      && output[..r] == Encrypt(c, iv, Pad(old(input[..n])))
  {
    if n <= 0 {
      return 0;
    }
    var numBlocks := n / BLOCK;
    ghost var plain := input[..n];
    ghost var m := BLOCK * numBlocks;
    assert plain[..m] == input[..m];
    var last := EncryptBlocks(c, iv, input, output, numBlocks);
    var padLen := BLOCK - (n - BLOCK * numBlocks);
    var block: Block := input[BLOCK * numBlocks..n] + Fill(padLen);
    assert input[m..n] == plain[m..];
    PadSplit(plain, m);
    EncryptSnoc(c, iv, plain[..m], block);
    ghost var done := output[..m];
    var final := c.encrypt(XorBlock(block, last));
    PutBlock(output, BLOCK * numBlocks, final);
    r := BLOCK * (numBlocks + 1);
    assert output[..r] == done + final;
  }

  /** Reads the padding length off a decrypted block. */
  method CheckPadding(block: Block) returns (k: nat)
    ensures k == PadFound(block)
  {
    var padLen := block[BLOCK - 1];
    if padLen <= 0 || padLen > BLOCK {
      return 0;
    }
    for i := BLOCK - padLen to BLOCK
      invariant forall j :: BLOCK - padLen <= j < i ==> block[j] == padLen
    {
      if block[i] != padLen {
        return 0;
      }
    }
    return padLen;
  }

  /** Decrypts and strips the padding, or reports corrupted data. */
  method PadDecrypt(c: Cipher, iv: Block, input: array<byte>, n: int, output: array<byte>)
      returns (r: int)
    requires n > 0 ==> n <= input.Length && n <= output.Length
    modifies output
    ensures n <= 0 ==> r == 0 && output[..] == old(output[..])
    ensures n > 0 && n % BLOCK != 0 ==> r == CORRUPTED_DATA
    ensures n > 0 && n % BLOCK == 0 ==>
      var plain := Decrypt(c, iv, old(input[..n]));
      && r == UnpaddedLength(plain)
      && (r != CORRUPTED_DATA ==> 0 <= r <= n && output[..r] == plain[..r])
  {
    if n <= 0 {
      return 0;
    }
    if n % BLOCK != 0 {
      return CORRUPTED_DATA;
    }
    ghost var plain := Decrypt(c, iv, input[..n]);
    var block := DecryptLast(c, iv, input, n / BLOCK, output);
    var padLen := CheckPadding(block);
    if padLen == 0 {
      return CORRUPTED_DATA;
    }
    var at := n - BLOCK;
    forall i | 0 <= i < BLOCK - padLen {
      output[at + i] := block[i];
    }
    r := n - padLen;
    assert forall k :: at <= k < r ==> output[k] == block[k - at] == plain[k];
  }

  /** Decrypts all blocks but the last into `output`, and the last one into a buffer of its own. */
  method DecryptLast(c: Cipher, iv: Block, input: array<byte>, n: nat, output: array<byte>) returns (block: Block)
    requires 0 < n && BLOCK * n <= input.Length && BLOCK * n <= output.Length
    modifies output
    ensures var plain := Decrypt(c, iv, old(input[..BLOCK * n]));
      block == plain[BLOCK * n - BLOCK..] && forall k :: 0 <= k < BLOCK * n - BLOCK ==> output[k] == plain[k]
  {
    var at := BLOCK * (n - 1);
    ghost var cipher := input[..BLOCK * n];
    assert input[..at] == cipher[..at] && input[at..][..BLOCK] == cipher[at..at + BLOCK];
    LastBlock(c, iv, cipher, at);
    var last := DecryptBlocks(c, iv, input, output, n - 1);
    assert input[at..][..BLOCK] == input[at..at + BLOCK] == cipher[at..at + BLOCK];
    block := XorBlock(c.decrypt(input[at..at + BLOCK]), last);
    ghost var plain := Decrypt(c, iv, cipher);
    assert forall k :: 0 <= k < at ==> output[k] == output[..at][k] == plain[..at][k];
  }

  /** The plaintext before the last block, and the last block by itself. */
  lemma LastBlock(c: Cipher, iv: Block, s: seq<byte>, at: nat)
    requires at % BLOCK == 0 && |s| == at + BLOCK
    ensures Decrypt(c, iv, s)[..at] == Decrypt(c, iv, s[..at])
    ensures Decrypt(c, iv, s)[at..] == XorBlock(c.decrypt(s[at..at + BLOCK]), Before(iv, s[..at], at))
  {
    assert s == s[..at] + s[at..];
    DecryptPrefix(c, iv, s[..at], s[at..]);
    DecryptAt(c, iv, s, at);
    assert Before(iv, s[..at], at) == Before(iv, s, at);
  }

  lemma {:induction false} DecryptPrefix(c: Cipher, iv: Block, s: seq<byte>, t: seq<byte>)
    requires |s| % BLOCK == 0 && |t| % BLOCK == 0
    ensures Decrypt(c, iv, s + t)[..|s|] == Decrypt(c, iv, s)
    decreases |s|
  {
    if s != [] {
      assert (s + t)[..BLOCK] == s[..BLOCK] && (s + t)[BLOCK..] == s[BLOCK..] + t;
      DecryptPrefix(c, s[..BLOCK], s[BLOCK..], t);
    }
  }

  /** Padded encryption followed by padded decryption gives the input back. */
  lemma PadRoundTrip(c: Cipher, iv: Block, s: seq<byte>)
    requires c.Lawful()
    ensures var plain := Decrypt(c, iv, Encrypt(c, iv, Pad(s)));
            UnpaddedLength(plain) == |s| && plain[..|s|] == s
  {
    DecryptEncrypt(c, iv, Pad(s), []);
    assert Encrypt(c, iv, Pad(s)) + [] == Encrypt(c, iv, Pad(s));
    UnpadPad(s);
  }
}
