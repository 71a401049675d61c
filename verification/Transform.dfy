/**
 Body transformations of the send path and their inverses: optional compression, then
 optional encryption, as selected by the header bits.
 */
module Transform {
  import opened Wrappers
  import opened Bytes
  import opened Shell
  import opened Cbc
  import opened Receive

  datatype AesKey = AesKey(key: Block, vec: Block)

  /** The library primitives the pipeline calls. */
  datatype Primitives = Primitives(
    aes: Block -> Cipher,
    compress: seq<byte> -> seq<byte>,
    decompress: (seq<byte>, nat) -> Option<seq<byte>>)
  {
    ghost predicate Lawful() {
      && (forall k: Block :: aes(k).Lawful())
      && (forall s :: s != [] ==> compress(s) != [])
      && (forall s :: s != [] ==> decompress(compress(s), |s|) == Some(s))
    }
  }

  /** Primitives that change nothing: the laws can be met. */
  const PLAIN: Primitives :=
    Primitives((k: Block) => Cipher((b: Block) => b, (b: Block) => b), s => s, (s, n) => Some(s))

  lemma PlainLawful()
    ensures PLAIN.Lawful()
  {
  }

  // ---------- The buffer and its in-place steps ----------

  /** Bytes that `ep_crypt_aes` processes for an input of `n` bytes: always at least one more. */
  function AesLength(n: nat): (m: nat)
    ensures n < m <= n + BLOCK && m % BLOCK == 0
    ensures n % BLOCK == 0 ==> m == n + BLOCK
  {
    if (n + 1) % BLOCK == 0 then n + 1 else ((n + 1) / BLOCK + 1) * BLOCK
  }

  /** Encryption takes in whatever `slack` bytes follow the input in memory. */
  function Encrypted(p: Primitives, k: AesKey, s: seq<byte>, slack: seq<byte>): (r: seq<byte>)
    requires |s| + |slack| == AesLength(|s|)
    ensures |r| == AesLength(|s|)
  {
    Cbc.Encrypt(p.aes(k.key), k.vec, s + slack)
  }

  function Decrypted(p: Primitives, k: AesKey, s: seq<byte>, slack: seq<byte>, size: nat): (r: seq<byte>)
    requires |s| + |slack| == AesLength(|s|) && size <= AesLength(|s|)
    ensures |r| == size
  {
    Cbc.Decrypt(p.aes(k.key), k.vec, s + slack)[..size]
  }

  /** Decryption recovers the input for any memory contents behind either buffer. */
  lemma DecryptedEncrypted(p: Primitives, k: AesKey, s: seq<byte>, a: seq<byte>, b: seq<byte>)
    requires p.Lawful() && |s| + |a| == AesLength(|s|)
    requires |b| == AesLength(AesLength(|s|)) - AesLength(|s|)
    ensures Decrypted(p, k, Encrypted(p, k, s, a), b, |s|) == s
  {
    var c := p.aes(k.key);
    var e := Encrypted(p, k, s, a);
    assert |b| == BLOCK;
    DecryptEncrypt(c, k.vec, s + a, b);
    PrefixOf(Cbc.Decrypt(c, k.vec, e + b), s, a);
  }

  lemma PrefixOf(x: seq<byte>, s: seq<byte>, a: seq<byte>)
    requires |s + a| <= |x| && x[..|s + a|] == s + a
    ensures x[..|s|] == s
  {
    assert x[..|s|] == x[..|s + a|][..|s|];
  }

  /** Room for the next multiple of a cipher block. */
  function Aligned(n: nat): (r: nat)
    ensures n <= r < n + BLOCK && r % BLOCK == 0
  {
    (n + (BLOCK - 1)) / BLOCK * BLOCK
  }

  /** What `ep_compress` allocates: one per cent and 600 bytes more than the input. */
  function CompressRoom(n: nat): (r: nat)
    ensures n + n / 100 + 600 <= r < n + n / 100 + 616 && r % BLOCK == 0
  {
    Aligned(n * 101 / 100 + 600)
  }

  class Buffer {
    var chunk: seq<byte>
    var capacity: nat

    /** Allocates room rounded up to whole cipher blocks. */
    constructor (data: seq<byte>)
      requires data != []
      ensures chunk == data
      ensures |data| <= capacity < |data| + BLOCK && capacity % BLOCK == 0
    {
      chunk := data;
      capacity := Aligned(|data|);
    }

    method Encrypt(p: Primitives, k: AesKey, slack: seq<byte>)
      requires |chunk| + |slack| == AesLength(|chunk|)
      modifies this
      ensures chunk == Encrypted(p, k, old(chunk), slack) && capacity == |chunk|
    {
      chunk := Cbc.Encrypt(p.aes(k.key), k.vec, chunk + slack);
      capacity := |chunk|;
    }

    method Decrypt(p: Primitives, k: AesKey, originalSize: nat, slack: seq<byte>)
      requires |chunk| + |slack| == AesLength(|chunk|)
      requires originalSize <= AesLength(|chunk|)
      modifies this
      ensures chunk == Decrypted(p, k, old(chunk), slack, originalSize)
      ensures capacity == AesLength(|old(chunk)|)
    {
      var plain := Cbc.Decrypt(p.aes(k.key), k.vec, chunk + slack);
      capacity := |plain|;
      chunk := plain[..originalSize];
    }

    /** Decompressing to the old size brings the contents back. */
    method Compress(p: Primitives)
      modifies this
      ensures chunk == p.compress(old(chunk)) && capacity == CompressRoom(|old(chunk)|)
      ensures p.Lawful() && old(chunk) != [] ==> chunk != [] && p.decompress(chunk, |old(chunk)|) == Some(old(chunk))
    {
      capacity := CompressRoom(|chunk|);
      chunk := p.compress(chunk);
    }

    method Decompress(p: Primitives, originalSize: nat) returns (ok: bool)
      modifies this
      ensures ok <==> (var r := p.decompress(old(chunk), originalSize);
                       r.Some? && |r.value| == originalSize > 0)
      ensures ok ==> p.decompress(old(chunk), originalSize) == Some(chunk)
      ensures ok ==> capacity == originalSize
    {
      var r := p.decompress(chunk, originalSize);
      ok := r.Some? && |r.value| == originalSize && originalSize > 0;
      if ok {
        chunk, capacity := r.value, originalSize;
      }
    }
  }

  // ---------- Header choices ----------

  datatype Role = Server | Client {
    function Peer(): Role {
      if Server? then Client else Server
    }
  }

  /** The fields that say how `sender` treats bodies. */
  function CompressOf(sender: Role, q: Proto): int3 {
    if sender.Client? then q.cCompress else q.sCompress
  }

  function CryptOf(sender: Role, q: Proto): int3 {
    if sender.Client? then q.cCrypt else q.sCrypt
  }

  function WithCompress(sender: Role, q: Proto, v: int3): Proto {
    if sender.Client? then q.(cCompress := v) else q.(sCompress := v)
  }

  /** `auto` turns into a definite choice before the header is sent. */
  function Resolve(sender: Role, mini: nat, q: Proto, size: nat): Proto {
    if CompressOf(sender, q) != COMPRESS_AUTO then q
    else WithCompress(sender, q, if size > mini then COMPRESS_COMPRESS else COMPRESS_NONE)
  }

  // ---------- Combine and recombine ----------

  /** The environment of one call: key of the connection, compression threshold, stray memory. */
  datatype Env = Env(role: Role, mini: nat, key: Option<AesKey>, slack: seq<byte>)

  function Packed(p: Primitives, e: Env, q: Proto, body: seq<byte>): seq<byte> {
    if CompressOf(e.role, Resolve(e.role, e.mini, q, |body|)) == COMPRESS_COMPRESS
    then p.compress(body) else body
  }

  /** The stray bytes have the length that encrypting `size` bytes reads. */
  predicate SlackFits(e: Env, q: Proto, size: nat) {
    CryptOf(e.role, q) == CRYPT_ENCRYPT ==> size + |e.slack| == AesLength(size)
  }

  function Wired(p: Primitives, e: Env, q: Proto, body: seq<byte>): seq<byte>
    requires SlackFits(e, q, |Packed(p, e, q, body)|)
    requires CryptOf(e.role, q) == CRYPT_ENCRYPT ==> e.key.Some?
  {
    if CryptOf(e.role, q) == CRYPT_ENCRYPT
    then Encrypted(p, e.key.value, Packed(p, e, q, body), e.slack)
    else Packed(p, e, q, body)
  }

  /** Sizes that the header's 32-bit fields can carry. */
  ghost predicate Sendable(p: Primitives, e: Env, q: Proto, body: seq<byte>) {
    && body != [] && |body| < 0x8000_0000
    && Packed(p, e, q, body) != [] && |Packed(p, e, q, body)| < 0x8000_0000
    && SlackFits(e, q, |Packed(p, e, q, body)|)
    && (CryptOf(e.role, q) == CRYPT_ENCRYPT && e.key.Some? ==>
          |Wired(p, e, q, body)| < 0x8000_0000)
  }

  /** The header as it goes out with a body. */
  function SentShell(p: Primitives, e: Env, h: Shell, body: seq<byte>): Shell
    requires Sendable(p, e, h.proto, body)
    requires CryptOf(e.role, h.proto) == CRYPT_ENCRYPT ==> e.key.Some?
  {
    Shell(h.magic, Resolve(e.role, e.mini, h.proto, |body|),
          |Wired(p, e, h.proto, body)|, |Packed(p, e, h.proto, body)|, |body|)
  }

  /** `ep_io_combine_shell` with a body: updates the header and builds the frame. */
  method Combine(p: Primitives, e: Env, h: Shell, body: Buffer) returns (shell: Shell, out: Option<seq<byte>>)
    requires Sendable(p, e, h.proto, body.chunk)
    modifies body
    ensures out.None? <==> CryptOf(e.role, h.proto) == CRYPT_ENCRYPT && e.key.None?
    ensures out.Some? ==>
      && shell == SentShell(p, e, h, old(body.chunk))
      && out.value == Encode(shell) + Wired(p, e, h.proto, old(body.chunk))
  {
    shell := h.(packSize := |body.chunk|);
    var compress := CompressOf(e.role, h.proto);
    if compress == COMPRESS_COMPRESS {
      body.Compress(p);
    } else if compress == COMPRESS_AUTO {
      if |body.chunk| > e.mini {
        shell := shell.(proto := WithCompress(e.role, shell.proto, COMPRESS_COMPRESS));
        body.Compress(p);
      } else {
        shell := shell.(proto := WithCompress(e.role, shell.proto, COMPRESS_NONE));
      }
    }
    shell := shell.(decryptSize := |body.chunk|);
    if CryptOf(e.role, h.proto) == CRYPT_ENCRYPT {
      if e.key.None? {
        return shell, None;
      }
      body.Encrypt(p, e.key.value, e.slack);
    }
    shell := shell.(shellSize := |body.chunk|);
    out := Some(Encode(shell) + body.chunk);
  }

  // ---------- What goes out, by role and header field ----------

  /** 1 compresses; 2 compresses bodies larger than the threshold. */
  predicate Compresses(field: int, size: nat, mini: nat) {
    field == 1 || (field == 2 && size > mini)
  }

  /** The field as it goes out: 2 has become 1 or 0. */
  function Settled(field: int, size: nat, mini: nat): int {
    if field == 2 then (if size > mini then 1 else 0) else field
  }

  /** A server goes by the server's fields; the client's are carried along unchanged. */
  lemma SentByServer(p: Primitives, e: Env, h: Shell, body: seq<byte>)
    requires e.role.Server? && Sendable(p, e, h.proto, body) && (h.proto.sCrypt == 1 ==> e.key.Some?)
    requires CryptOf(e.role, h.proto) == CRYPT_ENCRYPT ==> e.key.Some?
    ensures var s, q := SentShell(p, e, h, body), h.proto;
      var packed := if Compresses(q.sCompress, |body|, e.mini) then p.compress(body) else body;
      && s.packSize == |body| && s.decryptSize == |packed| && s.shellSize == |Wired(p, e, q, body)|
      && s.proto.sCompress == Settled(q.sCompress, |body|, e.mini) && s.proto == q.(sCompress := s.proto.sCompress)
      && (q.sCrypt != 1 ==> Wired(p, e, q, body) == packed)
      && (q.sCrypt == 1 ==>
            && |packed + e.slack| % BLOCK == 0 && |e.slack| > 0
            && Wired(p, e, q, body) == Cbc.Encrypt(p.aes(e.key.value.key), e.key.value.vec, packed + e.slack))
  {
  }

  /** A client goes by the client's fields. */
  lemma SentByClient(p: Primitives, e: Env, h: Shell, body: seq<byte>)
    requires e.role.Client? && Sendable(p, e, h.proto, body) && (h.proto.cCrypt == 1 ==> e.key.Some?)
    requires CryptOf(e.role, h.proto) == CRYPT_ENCRYPT ==> e.key.Some?
    ensures var s, q := SentShell(p, e, h, body), h.proto;
      var packed := if Compresses(q.cCompress, |body|, e.mini) then p.compress(body) else body;
      && s.packSize == |body| && s.decryptSize == |packed| && s.shellSize == |Wired(p, e, q, body)|
      && s.proto.cCompress == Settled(q.cCompress, |body|, e.mini) && s.proto == q.(cCompress := s.proto.cCompress)
      && (q.cCrypt != 1 ==> Wired(p, e, q, body) == packed)
      && (q.cCrypt == 1 ==>
            && |packed + e.slack| % BLOCK == 0 && |e.slack| > 0
            && Wired(p, e, q, body) == Cbc.Encrypt(p.aes(e.key.value.key), e.key.value.vec, packed + e.slack))
  {
  }

  /** The other role's fields change nothing that goes out as the body. */
  lemma OtherFieldsIgnored(p: Primitives, e: Env, q: Proto, r: Proto, body: seq<byte>)
    requires Sendable(p, e, q, body) && (CryptOf(e.role, q) == CRYPT_ENCRYPT ==> e.key.Some?)
    requires e.role.Server? ==> r == q.(cCrypt := r.cCrypt, cCompress := r.cCompress)
    requires e.role.Client? ==> r == q.(sCrypt := r.sCrypt, sCompress := r.sCompress)
    ensures Sendable(p, e, r, body) && (CryptOf(e.role, r) == CRYPT_ENCRYPT ==> e.key.Some?)
    ensures Wired(p, e, r, body) == Wired(p, e, q, body)
  {
  }

  /** `ep_io_combine_shell` without a body: the receiver finds one frame without body. The size of the clear text is left as it was. */
  method CombineEmpty(h: Shell) returns (shell: Shell, out: seq<byte>)
    ensures shell == h.(packSize := 0, shellSize := 0) && out == Encode(shell) && Decode(out) == shell
    ensures h.magic == MAGIC_NUMBER ==>
      forall max: nat, rest :: Drain(max, None, out + rest) == Drain(max, None, rest).Prepend([Frame(shell, [])])
  {
    shell := h.(packSize := 0, shellSize := 0);
    out := Encode(shell) + [];
    DecodeEncode(shell);
    ghost var image := out;
    forall max: nat, rest | h.magic == MAGIC_NUMBER
      ensures Drain(max, None, image + rest) == Drain(max, None, rest).Prepend([Frame(shell, [])])
    {
      DrainFirst(max, Frame(shell, []), rest);
      assert Encode(shell) + [] + rest == image + rest;
    }
  }

  /** What the receiving role reads from a frame's body. */
  function Opened(p: Primitives, e: Env, h: Shell, wire: seq<byte>): Option<seq<byte>>
    requires CryptOf(e.role.Peer(), h.proto) == CRYPT_ENCRYPT ==>
      SlackFits(e.(role := e.role.Peer()), h.proto, |wire|) && 0 <= h.decryptSize <= AesLength(|wire|)
    requires h.packSize >= 0
  {
    var sender := e.role.Peer();
    if CryptOf(sender, h.proto) == CRYPT_ENCRYPT && e.key.None? then None
    else
      var clear := if CryptOf(sender, h.proto) == CRYPT_ENCRYPT
                   then Decrypted(p, e.key.value, wire, e.slack, h.decryptSize) else wire;
      if CompressOf(sender, h.proto) != COMPRESS_COMPRESS then Some(clear)
      else Inflated(p, clear, h.packSize)
  }

  /** Decompression counts only if it yields the size announced. */
  function Inflated(p: Primitives, s: seq<byte>, size: nat): Option<seq<byte>> {
    var r := p.decompress(s, size);
    if r.Some? && |r.value| == size > 0 then r else None
  }

  /** A client opens by the server's fields, a server by the client's, with the sizes of the header. */
  lemma OpenedBy(p: Primitives, e: Env, h: Shell, wire: seq<byte>)
    requires h.packSize >= 0
    requires CryptOf(e.role.Peer(), h.proto) == CRYPT_ENCRYPT ==>
      SlackFits(e.(role := e.role.Peer()), h.proto, |wire|) && 0 <= h.decryptSize <= AesLength(|wire|)
    ensures var crypt := if e.role.Client? then h.proto.sCrypt else h.proto.cCrypt;
      var compress := if e.role.Client? then h.proto.sCompress else h.proto.cCompress;
      && (crypt == 1 && e.key.None? ==> Opened(p, e, h, wire) == None)
      && (crypt != 1 && compress != 1 ==> Opened(p, e, h, wire) == Some(wire))
      && (crypt != 1 && compress == 1 ==> Opened(p, e, h, wire) == Inflated(p, wire, h.packSize))
      && (crypt == 1 && e.key.Some? ==>
            && |wire + e.slack| % BLOCK == 0 && 0 <= h.decryptSize <= |wire + e.slack|
            && var clear := Cbc.Decrypt(p.aes(e.key.value.key), e.key.value.vec, wire + e.slack)[..h.decryptSize];
               Opened(p, e, h, wire) == if compress == 1 then Inflated(p, clear, h.packSize) else Some(clear))
  {
  }

  /** `ep_io_recombine_original`: undoes encryption, then compression. */
  method Recombine(p: Primitives, e: Env, h: Shell, body: Buffer) returns (ok: bool)
    requires h.packSize >= 0
    requires CryptOf(e.role.Peer(), h.proto) == CRYPT_ENCRYPT ==>
      && SlackFits(e.(role := e.role.Peer()), h.proto, |body.chunk|)
      && 0 <= h.decryptSize <= AesLength(|body.chunk|)
    modifies body
    ensures ok <==> Opened(p, e, h, old(body.chunk)).Some?
    ensures ok ==> Opened(p, e, h, old(body.chunk)) == Some(body.chunk)
  {
    var sender := e.role.Peer();
    if CryptOf(sender, h.proto) == CRYPT_ENCRYPT {
      if e.key.None? {
        return false;
      }
      body.Decrypt(p, e.key.value, h.decryptSize, e.slack);
    }
    ok := true;
    if CompressOf(sender, h.proto) == COMPRESS_COMPRESS {
      ok := body.Decompress(p, h.packSize);
    }
  }

  /** The receiver's call is set up for the sender's: other role, same key. */
  ghost predicate Opposite(e: Env, f: Env, wireSize: nat) {
    && f.role == e.role.Peer() && f.key == e.key
    && |f.slack| == AesLength(wireSize) - wireSize
  }

  /** Recombining what the other role combined gives the original body. */
  lemma OpenedWired(p: Primitives, e: Env, f: Env, h: Shell, body: seq<byte>)
    requires p.Lawful() && Sendable(p, e, h.proto, body)
    requires CryptOf(e.role, h.proto) == CRYPT_ENCRYPT ==> e.key.Some?
    requires Opposite(e, f, |Wired(p, e, h.proto, body)|)
    ensures Opened(p, f, SentShell(p, e, h, body), Wired(p, e, h.proto, body)) == Some(body)
  {
    var q := Resolve(e.role, e.mini, h.proto, |body|);
    assert f.role.Peer() == e.role;
    assert CryptOf(e.role, q) == CryptOf(e.role, h.proto);
    var packed, wire := Packed(p, e, h.proto, body), Wired(p, e, h.proto, body);
    if CryptOf(e.role, q) == CRYPT_ENCRYPT {
      Deciphered(p, e.key.value, packed, e.slack, f.slack, wire);
    }
  }

  lemma Deciphered(p: Primitives, k: AesKey, s: seq<byte>, a: seq<byte>, b: seq<byte>, wire: seq<byte>)
    requires p.Lawful() && |s| + |a| == AesLength(|s|) && wire == Encrypted(p, k, s, a)
    requires |b| == AesLength(|wire|) - |wire|
    ensures Decrypted(p, k, wire, b, |s|) == s
  {
    DecryptedEncrypted(p, k, s, a, b);
  }
}
