/** Streaming HMAC (RFC 2104, section 2) over the streaming hash: an inner and an outer context. */
module Hmac {
  import opened Bytes
  import opened Hash

  const IPAD: byte := 0x36
  const OPAD: byte := 0x5c

  /** The key as one block: longer keys are hashed first, shorter ones filled up with zeros. */
  function BlockKey<H(!new)>(p: HashFunction<H>, k: seq<byte>): (r: seq<byte>)
    requires p.Valid()
    ensures |r| == p.blockBytes
  {
    var k' := if |k| > p.blockBytes then HashOf(p, k) else k;
    k' + Zeros(p.blockBytes - |k'|)
  }

  function Masked(k: seq<byte>, mask: byte): (r: seq<byte>)
    ensures |r| == |k|
  {
    seq(|k|, i requires 0 <= i < |k| => Xor(k[i], mask))
  }

  /** H(K xor opad, H(K xor ipad, text)) */
  function HmacOf<H(!new)>(p: HashFunction<H>, k: seq<byte>, m: seq<byte>): seq<byte>
    requires p.Valid()
  {
    var k0 := BlockKey(p, k);
    HashOf(p, Masked(k0, OPAD) + HashOf(p, Masked(k0, IPAD) + m))
  }

  /** The tag byte by byte, from the definition in the standard: `k0` is the key, hashed if longer than a
      block, filled up with zeros; `a` and `b` are its exclusive ors with the two constants. */
  lemma TagMeaning<H(!new)>(p: HashFunction<H>, k: seq<byte>, m: seq<byte>, k0: seq<byte>, a: seq<byte>, b: seq<byte>)
    requires p.Valid() && |k0| == |a| == |b| == p.blockBytes
    requires |k| <= p.blockBytes ==> k <= k0 && forall i :: |k| <= i < p.blockBytes ==> k0[i] == 0
    requires |k| > p.blockBytes ==> HashOf(p, k) <= k0 && forall i :: p.digestBytes <= i < p.blockBytes ==> k0[i] == 0
    requires forall i :: 0 <= i < p.blockBytes ==> a[i] == Xor(k0[i], 0x5c) && b[i] == Xor(k0[i], 0x36)
    ensures HmacOf(p, k, m) == HashOf(p, a + HashOf(p, b + m))
  {
    assert k0 == BlockKey(p, k);
    assert a == Masked(k0, OPAD) && b == Masked(k0, IPAD);
  }

  /** Different keys can have the same tags: a short key and the same followed by zeros within the block, a
      long key and its hash. */
  lemma KeysAlike<H(!new)>(p: HashFunction<H>, k: seq<byte>, n: nat, m: seq<byte>)
    requires p.Valid()
    ensures |k| + n <= p.blockBytes ==> HmacOf(p, k + Zeros(n), m) == HmacOf(p, k, m)
    ensures |k| > p.blockBytes ==> HmacOf(p, HashOf(p, k), m) == HmacOf(p, k, m)
  {
    if |k| + n <= p.blockBytes {
      assert BlockKey(p, k + Zeros(n)) == BlockKey(p, k);
    }
  }

  lemma HmacLength<H(!new)>(p: HashFunction<H>, k: seq<byte>, m: seq<byte>)
    requires p.Valid()
    ensures |HmacOf(p, k, m)| == p.digestBytes
  {
  }

  /** Fills a block with `mask` and xors the key over its start. */
  method MaskedBlock<H(!new)>(p: HashFunction<H>, k: seq<byte>, mask: byte) returns (pad: seq<byte>)
    requires p.Valid() && |k| <= p.blockBytes
    ensures pad == Masked(k + Zeros(p.blockBytes - |k|), mask)
  {
    var buf := new byte[p.blockBytes](_ => mask);
    for i := 0 to |k|
      invariant forall j :: 0 <= j < buf.Length ==> buf[j] == if j < i then Xor(k[j], mask) else mask
    {
      XorLaws(k[i], mask);
      buf[i] := Xor(buf[i], k[i]);
    }
    XorLaws(mask, mask);
    pad := buf[..];
  }

  /** A context that has absorbed the masked key. */
  method MaskedContext<H(!new)>(p: HashFunction<H>, k: seq<byte>, mask: byte) returns (st: Hash.State<H>)
    requires p.Valid() && |k| <= p.blockBytes
    ensures fresh(st) && fresh(st.buf) && st.Valid() && st.p == p
    ensures st.absorbed == Masked(k + Zeros(p.blockBytes - |k|), mask)
  {
    st := new Hash.State(p);
    var pad := MaskedBlock(p, k, mask);
    st.Update(pad);
    assert [] + pad == pad;
  }

  class State<H(!new)> {
    const p: HashFunction<H>
    const inner: Hash.State<H>
    const outer: Hash.State<H>
    ghost const key: seq<byte>
    ghost var message: seq<byte>       // everything authenticated so far

    ghost predicate Valid()
      reads this, inner, inner.buf, outer, outer.buf
    {
      && p.Valid() && inner.p == p == outer.p
      && inner != outer && inner.buf != outer.buf
      && inner.Valid() && inner.absorbed == Masked(BlockKey(p, key), IPAD) + message
      && outer.Valid() && outer.absorbed == Masked(BlockKey(p, key), OPAD)
    }

    /** `init`: takes keys of any length. */
    constructor (p: HashFunction<H>, k: seq<byte>)
      requires p.Valid()
      ensures Valid() && this.p == p && key == k && message == []
      ensures fresh(inner) && fresh(inner.buf) && fresh(outer) && fresh(outer.buf)
    {
      var k' := k;
      if |k| > p.blockBytes {
        k' := HashAll(p, k);
      }
      var i := MaskedContext(p, k', IPAD);
      var o := MaskedContext(p, k', OPAD);
      this.p, inner, outer, key, message := p, i, o, k, [];
      new;
      assert Masked(BlockKey(p, key), IPAD) + [] == Masked(BlockKey(p, key), IPAD);
    }

    method Update(data: seq<byte>)
      requires Valid()
      modifies this, inner, inner.buf
      ensures Valid() && message == old(message) + data
    {
      inner.Update(data);
      assert Masked(BlockKey(p, key), IPAD) + message + data == Masked(BlockKey(p, key), IPAD) + (message + data);
      message := message + data;
    }

    /** Consumes the state in Rust. `tagBytes` is below the digest length for HMAC-SHA-512-256. */
    method Finalize(tagBytes: nat) returns (tag: seq<byte>)
      requires Valid() && tagBytes <= p.digestBytes
      modifies this, inner, inner.buf, outer, outer.buf
      ensures |HmacOf(p, key, old(message))| == p.digestBytes
      ensures tag == HmacOf(p, key, old(message))[..tagBytes]
    {
      HmacLength(p, key, message);
      var digest := inner.Finalize();
      outer.Update(digest);
      var full := outer.Finalize();
      tag := full[..tagBytes];
    }
  }

  /** `authenticate`: the foreign one-shot function. */
  method Authenticate<H(!new)>(p: HashFunction<H>, m: seq<byte>, k: seq<byte>, tagBytes: nat) returns (tag: seq<byte>)
    requires p.Valid() && tagBytes <= p.digestBytes
    ensures |HmacOf(p, k, m)| == p.digestBytes
    ensures tag == HmacOf(p, k, m)[..tagBytes]
  {
    var st := new State(p, k);
    st.Update(m);
    assert [] + m == m;
    tag := st.Finalize(tagBytes);
  }

  /** Chunk independence: any chunking of the message gives the tag of the one-shot function. */
  method AuthenticateChunks<H(!new)>(p: HashFunction<H>, chunks: seq<seq<byte>>, k: seq<byte>, tagBytes: nat)
    returns (tag: seq<byte>)
    requires p.Valid() && tagBytes <= p.digestBytes
    ensures |HmacOf(p, k, Flatten(chunks))| == p.digestBytes
    ensures tag == HmacOf(p, k, Flatten(chunks))[..tagBytes]
  {
    var st := new State(p, k);
    for i := 0 to |chunks|
      invariant st.Valid() && st.p == p && st.key == k
      invariant fresh(st) && fresh(st.inner) && fresh(st.inner.buf) && fresh(st.outer) && fresh(st.outer.buf)
      invariant st.message == Flatten(chunks[..i])
    {
      assert chunks[..i + 1][..i] == chunks[..i];
      st.Update(chunks[i]);
    }
    assert chunks[..|chunks|] == chunks;
    tag := st.Finalize(tagBytes);
  }
}
