/** Stream ciphers as keystream generators: the functions of `stream_macros.rs` over an
    uninterpreted block function. */
module StreamCipher {
  import opened Arithmetic
  import opened Bytes

  const BLOCKBYTES: nat := 64
  const COUNTERS: nat := 0x1_0000_0000_0000_0000

  /** One keystream block for a key, a nonce and a 64-bit block counter. */
  datatype BlockCipher = BlockCipher(block: (seq<byte>, seq<byte>, nat) -> seq<byte>)
  {
    ghost predicate Valid() {
      forall key, nonce, counter :: |block(key, nonce, counter)| == BLOCKBYTES
    }
  }

  /** Byte `i` of the keystream that starts at block `ic`; the counter is 64 bits wide. */
  function KeystreamByte(p: BlockCipher, nonce: seq<byte>, key: seq<byte>, ic: nat, i: nat): byte
  {
    var block := p.block(key, nonce, (ic + i / BLOCKBYTES) % COUNTERS);
    if i % BLOCKBYTES < |block| then block[i % BLOCKBYTES] else 0
  }

  /** `len` bytes of keystream from block `ic` on; `stream` returns the one from block 0. */
  function Keystream(p: BlockCipher, nonce: seq<byte>, key: seq<byte>, ic: nat, len: nat): (r: seq<byte>)
    ensures |r| == len
  {
    seq(len, i requires 0 <= i => KeystreamByte(p, nonce, key, ic, i))
  }

  function XorAll(m: seq<byte>, k: seq<byte>): (r: seq<byte>)
    requires |m| == |k|
    ensures |r| == |m|
  {
    seq(|m|, i requires 0 <= i < |m| => Xor(m[i], k[i]))
  }

  /** A message under the keystream from block `ic`. */
  function Encrypted(p: BlockCipher, m: seq<byte>, nonce: seq<byte>, key: seq<byte>, ic: nat): (r: seq<byte>)
    ensures |r| == |m|
  {
    XorAll(m, Keystream(p, nonce, key, ic, |m|))
  }

  /** The foreign `xor_ic`: block by block, from `m` to `c`, which may be the same array. */
  method XorIc(p: BlockCipher, c: array<byte>, m: array<byte>, nonce: seq<byte>, ic: nat, key: seq<byte>)
    requires p.Valid() && c.Length == m.Length && ic < COUNTERS
    modifies c
    ensures c[..] == Encrypted(p, old(m[..]), nonce, key, ic)
  {
    ghost var input := m[..];
    ghost var output := Encrypted(p, input, nonce, key, ic);
    var pos, counter := 0, ic;
    ghost var blocks := 0;
    while pos < m.Length
      invariant 0 <= pos <= m.Length
      invariant pos == m.Length || pos == BLOCKBYTES * blocks
      invariant counter == (ic + blocks) % COUNTERS
      invariant forall k :: 0 <= k < pos ==> c[k] == output[k]
      invariant forall k :: pos <= k < m.Length ==> m[k] == input[k]
    {
      var size := if m.Length - pos < BLOCKBYTES then m.Length - pos else BLOCKBYTES;
      XorBlock(c, m, pos, size, p.block(key, nonce, counter));
      forall k | pos <= k < pos + size ensures c[k] == output[k] {
        EncryptedByte(p, input, nonce, key, ic, blocks, k - pos);
      }
      SumOfRemainder(ic + blocks, 1, COUNTERS);
      pos := pos + size;
      counter := (counter + 1) % COUNTERS;
      blocks := blocks + 1;
    }
  }

  /** Byte `i` of the `n`-th block: the exclusive or of the message and the block the cipher makes for the
      counter `ic + n`, on 64 bits. */
  lemma EncryptedByte(p: BlockCipher, m: seq<byte>, nonce: seq<byte>, key: seq<byte>, ic: nat, n: nat, i: nat)
    requires p.Valid() && i < 64 && 64 * n + i < |m|
    ensures Encrypted(p, m, nonce, key, ic)[64 * n + i]
         == Xor(m[64 * n + i], p.block(key, nonce, (ic + n) % 0x1_0000_0000_0000_0000)[i])
    ensures Keystream(p, nonce, key, ic, |m|)[64 * n + i] == p.block(key, nonce, (ic + n) % 0x1_0000_0000_0000_0000)[i]
  {
    assert (64 * n + i) / BLOCKBYTES == n && (64 * n + i) % BLOCKBYTES == i;
  }

  method XorBlock(c: array<byte>, m: array<byte>, pos: nat, size: nat, block: seq<byte>)
    requires c.Length == m.Length && pos + size <= m.Length && size <= |block|
    modifies c
    ensures forall k :: pos <= k < pos + size ==> c[k] == Xor(old(m[k]), block[k - pos])
    ensures forall k :: 0 <= k < pos || pos + size <= k < c.Length ==> c[k] == old(c[k])
  {
    for i := 0 to size
      invariant forall k :: pos <= k < pos + i ==> c[k] == Xor(old(m[k]), block[k - pos])
      invariant forall k :: 0 <= k < pos || pos + i <= k < c.Length ==> c[k] == old(c[k])
    {
      c[pos + i] := Xor(m[pos + i], block[i]);
    }
  }

  /** `stream`: the foreign function fills the vector with the bare keystream. */
  method Stream(p: BlockCipher, len: nat, nonce: seq<byte>, key: seq<byte>) returns (c: seq<byte>)
    requires p.Valid()
    ensures c == Keystream(p, nonce, key, 0, len)
  {
    var buf := new byte[len](_ => 0);
    XorIc(p, buf, buf, nonce, 0, key);
    ghost var k := Keystream(p, nonce, key, 0, len);
    forall i | 0 <= i < len ensures buf[i] == k[i] {
      XorLaws(k[i], 0);
      assert buf[..][i] == Xor(0, k[i]);
    }
    c := buf[..];
  }

  method CopyOf(m: seq<byte>) returns (a: array<byte>)
    ensures fresh(a) && a[..] == m
  {
    a := new byte[|m|](i requires 0 <= i < |m| => m[i]);
  }

  method StreamXorIc(p: BlockCipher, m: seq<byte>, nonce: seq<byte>, ic: nat, key: seq<byte>) returns (c: seq<byte>)
    requires p.Valid() && ic < COUNTERS
    ensures c == Encrypted(p, m, nonce, key, ic)
  {
    var buf := new byte[|m|](_ => 0);
    var input := CopyOf(m);
    XorIc(p, buf, input, nonce, ic, key);
    c := buf[..];
  }

  method StreamXor(p: BlockCipher, m: seq<byte>, nonce: seq<byte>, key: seq<byte>) returns (c: seq<byte>)
    requires p.Valid()
    ensures c == XorAll(m, Keystream(p, nonce, key, 0, |m|))
  {
    c := StreamXorIc(p, m, nonce, 0, key);
  }

  method StreamXorIcInplace(p: BlockCipher, m: array<byte>, nonce: seq<byte>, ic: nat, key: seq<byte>)
    requires p.Valid() && ic < COUNTERS
    modifies m
    ensures m[..] == Encrypted(p, old(m[..]), nonce, key, ic)
  {
    XorIc(p, m, m, nonce, ic, key);
  }

  method StreamXorInplace(p: BlockCipher, m: array<byte>, nonce: seq<byte>, key: seq<byte>)
    requires p.Valid()
    modifies m
    ensures m[..] == XorAll(old(m[..]), Keystream(p, nonce, key, 0, m.Length))
  {
    XorIc(p, m, m, nonce, 0, key);
  }

  /** Encrypting twice gives the message back. */
  lemma EncryptedTwice(p: BlockCipher, m: seq<byte>, nonce: seq<byte>, key: seq<byte>, ic: nat)
    ensures Encrypted(p, Encrypted(p, m, nonce, key, ic), nonce, key, ic) == m
  {
    var k := Keystream(p, nonce, key, ic, |m|);
    forall i | 0 <= i < |m| ensures Xor(Xor(m[i], k[i]), k[i]) == m[i] {
      XorLaws(m[i], k[i]);
    }
  }

  /** The keystream is seekable: from block `n` on, the ciphertext is that of the message's tail with
      the counter started at `ic + n`, reduced to 64 bits. */
  lemma Seek(p: BlockCipher, m: seq<byte>, nonce: seq<byte>, key: seq<byte>, ic: nat, n: nat)
    requires BLOCKBYTES * n <= |m|
    ensures Encrypted(p, m, nonce, key, ic)[BLOCKBYTES * n..]
         == Encrypted(p, m[BLOCKBYTES * n..], nonce, key, (ic + n) % COUNTERS)
  {
    var tail := m[BLOCKBYTES * n..];
    var whole := Keystream(p, nonce, key, ic, |m|);
    var part := Keystream(p, nonce, key, (ic + n) % COUNTERS, |tail|);
    forall i | 0 <= i < |tail| ensures whole[BLOCKBYTES * n + i] == part[i]
    {
      assert (BLOCKBYTES * n + i) / BLOCKBYTES == n + i / BLOCKBYTES;
      assert (BLOCKBYTES * n + i) % BLOCKBYTES == i % BLOCKBYTES;
      SumOfRemainder(ic + n, i / BLOCKBYTES, COUNTERS);
    }
  }

  /** So a message can be encrypted in two parts, cut at any block boundary. */
  lemma EncryptedInParts(p: BlockCipher, m: seq<byte>, nonce: seq<byte>, key: seq<byte>, ic: nat, n: nat)
    requires BLOCKBYTES * n <= |m|
    ensures Encrypted(p, m, nonce, key, ic)
         == Encrypted(p, m[..BLOCKBYTES * n], nonce, key, ic)
          + Encrypted(p, m[BLOCKBYTES * n..], nonce, key, (ic + n) % COUNTERS)
  {
    Seek(p, m, nonce, key, ic, n);
    assert Encrypted(p, m, nonce, key, ic)[..BLOCKBYTES * n] == Encrypted(p, m[..BLOCKBYTES * n], nonce, key, ic);
  }
}
