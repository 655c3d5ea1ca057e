/** Streaming SHA-256 and SHA-512 over an uninterpreted compression function. The state layout is that
    of `crypto_hash_sha256_state` and `crypto_hash_sha512_state`; padding and block processing follow
    FIPS 180-4, sections 5.1, 5.2, 6.2 and 6.4. */
module Hash {
  import opened Arithmetic
  import opened Bytes
  import LittleEndian

  datatype HashFunction<!H(!new)> = HashFunction(
    blockBytes: nat,
    lengthBytes: nat,
    digestBytes: nat,
    iv: H,
    compress: (H, seq<byte>) -> H,
    output: H -> seq<byte>)
  {
    ghost predicate Valid() {
      && ((blockBytes == 64 && lengthBytes == 8 && digestBytes == 32)         // SHA-256
          || (blockBytes == 128 && lengthBytes == 16 && digestBytes == 64))   // SHA-512
      && forall c :: |output(c)| == digestBytes
    }

    /** The bit counter is as wide as the length field of the padding. */
    function CountModulus(): nat {
      if lengthBytes == 8 then 0x1_0000_0000_0000_0000
      else 0x1_0000_0000_0000_0000_0000_0000_0000_0000
    }
  }

  // ---------------------------------------------------------------------------------------------
  // The one-shot definition
  // ---------------------------------------------------------------------------------------------

  /** The chaining value after the whole blocks of `m`. */
  function Chain<H(!new)>(p: HashFunction<H>, c: H, m: seq<byte>): H
    decreases |m|
  {
    if p.blockBytes == 0 || |m| < p.blockBytes then c
    else Chain(p, p.compress(c, m[..p.blockBytes]), m[p.blockBytes..])
  }

  /** The bytes after the whole blocks of `m`. */
  function Rest(blockBytes: nat, m: seq<byte>): (r: seq<byte>)
    ensures blockBytes > 0 ==> |r| < blockBytes && |r| <= |m|
    decreases |m|
  {
    if blockBytes == 0 || |m| < blockBytes then m else Rest(blockBytes, m[blockBytes..])
  }

  /** The low `n` bytes of `v`, most significant first. */
  function BigEndian(v: nat, n: nat): (r: seq<byte>)
    ensures |r| == n
  {
    if n == 0 then [] else BigEndian(v / 256, n - 1) + [v % 256]
  }

  /** Zero bytes between the marker and the length field of a message that ends `r` bytes into a block. */
  function ZeroCount<H(!new)>(p: HashFunction<H>, r: nat): nat
    requires p.Valid() && r < p.blockBytes
  {
    if r + 1 + p.lengthBytes <= p.blockBytes then p.blockBytes - r - 1 - p.lengthBytes
    else 2 * p.blockBytes - r - 1 - p.lengthBytes
  }

  function PaddingOf<H(!new)>(p: HashFunction<H>, m: seq<byte>): (r: seq<byte>)
    requires p.Valid()
  {
    [0x80] + Zeros(ZeroCount(p, |Rest(p.blockBytes, m)|)) + BigEndian(8 * |m| % p.CountModulus(), p.lengthBytes)
  }

  function HashOf<H(!new)>(p: HashFunction<H>, m: seq<byte>): seq<byte>
    requires p.Valid()
  {
    p.output(Chain(p, p.iv, m + PaddingOf(p, m)))
  }

  lemma DropBlock(n: nat, blockBytes: nat)
    requires blockBytes == 64 || blockBytes == 128
    ensures n % blockBytes == if n < blockBytes then n else (n - blockBytes) % blockBytes
  {
    if blockBytes == 64 {
      assert n >= 64 ==> n % 64 == (n - 64) % 64;
    } else {
      assert n >= 128 ==> n % 128 == (n - 128) % 128;
    }
  }

  lemma {:induction false} RestLength(blockBytes: nat, m: seq<byte>)
    requires blockBytes == 64 || blockBytes == 128
    ensures |Rest(blockBytes, m)| == |m| % blockBytes
    decreases |m|
  {
    DropBlock(|m|, blockBytes);
    if |m| >= blockBytes {
      RestLength(blockBytes, m[blockBytes..]);
    }
  }

  /** Absorbing `a` then `b` is absorbing them at once. */
  lemma {:induction false} ChainAppend<H(!new)>(p: HashFunction<H>, c: H, a: seq<byte>, b: seq<byte>)
    requires p.blockBytes > 0
    ensures Chain(p, c, a + b) == Chain(p, Chain(p, c, a), Rest(p.blockBytes, a) + b)
    ensures Rest(p.blockBytes, a + b) == Rest(p.blockBytes, Rest(p.blockBytes, a) + b)
    decreases |a|
  {
    var n := p.blockBytes;
    if |a| >= n {
      assert (a + b)[..n] == a[..n] && (a + b)[n..] == a[n..] + b;
      ChainAppend(p, p.compress(c, a[..n]), a[n..], b);
    }
  }

  /** The padding completes the last block, so no byte of the padded message is left unprocessed, and
      it is the shortest one that does. */
  lemma PaddingCompletes<H(!new)>(p: HashFunction<H>, m: seq<byte>)
    requires p.Valid()
    ensures Rest(p.blockBytes, m + PaddingOf(p, m)) == []
    ensures 1 + p.lengthBytes <= |PaddingOf(p, m)| < 1 + p.lengthBytes + p.blockBytes
  {
    ChainAppend(p, p.iv, m, PaddingOf(p, m));
    var t := Rest(p.blockBytes, m) + PaddingOf(p, m);
    assert |t| == p.blockBytes || |t| == 2 * p.blockBytes;
  }

  /** The length field is the little-endian form of the count, read backwards. */
  lemma {:induction false} BigEndianDigits(v: nat, n: nat, i: nat)
    requires i < n
    ensures BigEndian(v, n)[n - 1 - i] == LittleEndian.Digits(v, n)[i]
  {
    if i > 0 {
      BigEndianDigits(v / 256, n - 1, i - 1);
    }
  }

  lemma BigEndianInjective(v: nat, w: nat, n: nat)
    requires v < LittleEndian.Modulus(n) && w < LittleEndian.Modulus(n) && BigEndian(v, n) == BigEndian(w, n)
    ensures v == w
  {
    var a, b := LittleEndian.Digits(v, n), LittleEndian.Digits(w, n);
    forall i | 0 <= i < n ensures a[i] == b[i] {
      BigEndianDigits(v, n, i);
      BigEndianDigits(w, n, i);
    }
    LittleEndian.DigitsInjective(v, w, n);
  }

  lemma LengthFieldHoldsCount<H(!new)>(p: HashFunction<H>)
    requires p.Valid()
    ensures LittleEndian.Modulus(p.lengthBytes) == p.CountModulus()
  {
    assert LittleEndian.Shifted(1, 4) == 0x1_0000_0000;
    assert LittleEndian.Shifted(1, 8) == 0x1_0000_0000_0000_0000;
    assert LittleEndian.Shifted(1, 12) == 0x1_0000_0000_0000_0000_0000_0000;
    assert LittleEndian.Shifted(1, 16) == 0x1_0000_0000_0000_0000_0000_0000_0000_0000;
  }

  lemma PaddedParts<H(!new)>(p: HashFunction<H>, m: seq<byte>)
    requires p.Valid()
    ensures
      var s, field := m + PaddingOf(p, m), BigEndian(8 * |m| % p.CountModulus(), p.lengthBytes);
      |s| >= p.lengthBytes && s[|s| - p.lengthBytes..] == field && |m| <= |s| && s[..|m|] == m
  {
    var marker := [0x80] + Zeros(ZeroCount(p, |Rest(p.blockBytes, m)|));
    var field := BigEndian(8 * |m| % p.CountModulus(), p.lengthBytes);
    assert m + PaddingOf(p, m) == (m + marker) + field;
  }

  /** Padding is unambiguous: below the length limit of the standard, no two messages pad alike. */
  lemma PaddingInjective<H(!new)>(p: HashFunction<H>, m: seq<byte>, m': seq<byte>)
    requires p.Valid() && 8 * |m| < p.CountModulus() && 8 * |m'| < p.CountModulus()
    requires m + PaddingOf(p, m) == m' + PaddingOf(p, m')
    ensures m == m'
  {
    var k, n, n' := p.CountModulus(), 8 * |m|, 8 * |m'|;
    assert BigEndian(n % k, p.lengthBytes) == BigEndian(n' % k, p.lengthBytes) by {
      PaddedParts(p, m);
      PaddedParts(p, m');
    }
    assert n == n' by {
      RemainderUnique(n, 0, k);
      RemainderUnique(n', 0, k);
      LengthFieldHoldsCount(p);
      BigEndianInjective(n, n', p.lengthBytes);
    }
    assert m == (m + PaddingOf(p, m))[..|m|] && m' == (m' + PaddingOf(p, m'))[..|m'|];
  }

  // ---------------------------------------------------------------------------------------------
  // What the digest is
  // ---------------------------------------------------------------------------------------------

  function Flatten(chunks: seq<seq<byte>>): seq<byte> {
    if chunks == [] then [] else Flatten(chunks[..|chunks| - 1]) + chunks[|chunks| - 1]
  }

  lemma {:induction false} FlattenAppend(xs: seq<seq<byte>>, ys: seq<seq<byte>>, c: seq<byte>)
    ensures Flatten(xs + ys) == Flatten(xs) + Flatten(ys)
    ensures Flatten([c]) == c
  {
    assert [c][..0] == [];
    if ys == [] {
      assert xs + ys == xs;
    } else {
      var k := |ys| - 1;
      assert (xs + ys)[..|xs + ys| - 1] == xs + ys[..k];
      FlattenAppend(xs, ys[..k], c);
    }
  }

  /** The compression function folded over blocks, from the first to the last. */
  function Folded<H(!new)>(p: HashFunction<H>, blocks: seq<seq<byte>>): H {
    if blocks == [] then p.iv else p.compress(Folded(p, blocks[..|blocks| - 1]), blocks[|blocks| - 1])
  }

  ghost predicate AreBlocks<H(!new)>(p: HashFunction<H>, blocks: seq<seq<byte>>) {
    forall i :: 0 <= i < |blocks| ==> |blocks[i]| == p.blockBytes
  }

  /** The blocks of the padded message: the message, 0x80, zeros, and the number of its bits, big-endian. There
      is room for all of them, and there would not be in fewer blocks. */
  ghost predicate PadsTo<H(!new)>(p: HashFunction<H>, m: seq<byte>, blocks: seq<seq<byte>>) {
    var s := Flatten(blocks);
    && AreBlocks(p, blocks)
    && |m| + 1 + p.lengthBytes <= |s| < |m| + 1 + p.lengthBytes + p.blockBytes
    && s[..|m|] == m
    && s[|m|] == 0x80
    && (forall i :: |m| < i < |s| - p.lengthBytes ==> s[i] == 0)
    && s[|s| - p.lengthBytes..] == BigEndian(8 * |m|, p.lengthBytes)
  }

  lemma {:induction false} FlattenedBlocks<H(!new)>(p: HashFunction<H>, blocks: seq<seq<byte>>)
    requires p.Valid() && AreBlocks(p, blocks)
    ensures |Flatten(blocks)| == p.blockBytes * |blocks|
    ensures Rest(p.blockBytes, Flatten(blocks)) == []
    ensures Chain(p, p.iv, Flatten(blocks)) == Folded(p, blocks)
  {
    if blocks != [] {
      var k := |blocks| - 1;
      FlattenedBlocks(p, blocks[..k]);
      ChainAppend(p, p.iv, Flatten(blocks[..k]), blocks[k]);
      assert [] + blocks[k] == blocks[k];
      OneBlock(p, Folded(p, blocks[..k]), blocks[k]);
      assert blocks[k][p.blockBytes..] == [];
    }
  }

  /** A string of whole blocks, cut up. */
  lemma {:induction false} Blocks<H(!new)>(p: HashFunction<H>, s: seq<byte>) returns (blocks: seq<seq<byte>>)
    requires p.Valid() && Rest(p.blockBytes, s) == []
    ensures AreBlocks(p, blocks) && Flatten(blocks) == s
    decreases |s|
  {
    if s == [] {
      return [];
    }
    var first, tail := s[..p.blockBytes], s[p.blockBytes..];
    var others := Blocks(p, tail);
    blocks := [first] + others;
    FlattenAppend([first], others, first);
    assert s == first + tail;
  }

  /** Reducing a number to the width of a field does not change the field. */
  lemma {:induction false} BigEndianTruncates(v: nat, q: nat, n: nat)
    ensures BigEndian(v + LittleEndian.Shifted(q, n), n) == BigEndian(v, n)
  {
    if n > 0 {
      var w := LittleEndian.Shifted(q, n - 1);
      assert (v + 256 * w) % 256 == v % 256 && (v + 256 * w) / 256 == v / 256 + w;
      BigEndianTruncates(v / 256, q, n - 1);
    }
  }

  lemma LengthField<H(!new)>(p: HashFunction<H>, v: nat)
    requires p.Valid()
    ensures BigEndian(v % p.CountModulus(), p.lengthBytes) == BigEndian(v, p.lengthBytes)
  {
    var q := v / p.CountModulus();
    LengthFieldHoldsCount(p);
    LittleEndian.ShiftedIsProduct(q, p.lengthBytes);
    BigEndianTruncates(v % p.CountModulus(), q, p.lengthBytes);
  }

  /** Every message has such blocks: those of the message, 0x80, fewer zeros than a block, and the length. */
  lemma PaddedBlocks<H(!new)>(p: HashFunction<H>, m: seq<byte>) returns (z: nat, blocks: seq<seq<byte>>)
    requires p.Valid()
    ensures PadsTo(p, m, blocks) && Flatten(blocks) == m + PaddingOf(p, m)
    ensures z < p.blockBytes && Flatten(blocks) == m + ([0x80] + Zeros(z) + BigEndian(8 * |m|, p.lengthBytes))
  {
    z := ZeroCount(p, |Rest(p.blockBytes, m)|);
    PaddingCompletes(p, m);
    blocks := Blocks(p, m + PaddingOf(p, m));
    PaddedParts(p, m);
    LengthField(p, 8 * |m|);
  }

  /** Messages of the same length have as many blocks. */
  lemma SameBlockCount<H(!new)>(p: HashFunction<H>, m: seq<byte>, m': seq<byte>, xs: seq<seq<byte>>, ys: seq<seq<byte>>)
    requires p.Valid() && PadsTo(p, m, xs) && PadsTo(p, m', ys) && |m| == |m'|
    ensures |xs| == |ys| && |Flatten(xs)| == |Flatten(ys)|
  {
    FlattenedBlocks(p, xs);
    FlattenedBlocks(p, ys);
    ProductGap(|xs|, |ys|, p.blockBytes);
    ProductGap(|ys|, |xs|, p.blockBytes);
  }

  lemma PaddedByte<H(!new)>(p: HashFunction<H>, m: seq<byte>, blocks: seq<seq<byte>>, i: nat)
    requires p.Valid() && PadsTo(p, m, blocks) && i < |Flatten(blocks)| - p.lengthBytes
    ensures Flatten(blocks)[i] == if i < |m| then m[i] else if i == |m| then 0x80 else 0
  {
    if i < |m| {
      assert Flatten(blocks)[..|m|][i] == m[i];
    }
  }

  /** The bytes of the padded message are determined by the message. */
  lemma SamePadded<H(!new)>(p: HashFunction<H>, m: seq<byte>, xs: seq<seq<byte>>, ys: seq<seq<byte>>)
    requires p.Valid() && PadsTo(p, m, xs) && PadsTo(p, m, ys)
    ensures Flatten(xs) == Flatten(ys)
  {
    SameBlockCount(p, m, m, xs, ys);
    var s, t := Flatten(xs), Flatten(ys);
    var k := |s| - p.lengthBytes;
    assert s[..k] == t[..k] by {
      forall i | 0 <= i < k ensures s[i] == t[i] {
        PaddedByte(p, m, xs, i);
        PaddedByte(p, m, ys, i);
      }
    }
    assert s == s[..k] + s[k..] && t == t[..k] + t[k..];
  }

  lemma DigestOfPadded<H(!new)>(p: HashFunction<H>, m: seq<byte>, blocks: seq<seq<byte>>)
    requires p.Valid() && PadsTo(p, m, blocks)
    ensures HashOf(p, m) == p.output(Folded(p, blocks))
  {
    var _, blocks' := PaddedBlocks(p, m);
    SamePadded(p, m, blocks, blocks');
    FlattenedBlocks(p, blocks);
  }

  /** The digest of a message is the output of the compression function folded over the blocks of: the message,
      0x80, fewer zeros than a block, and the number of its bits, big-endian. */
  lemma DigestMeaning<H(!new)>(p: HashFunction<H>, m: seq<byte>, z: nat, blocks: seq<seq<byte>>)
    requires p.Valid() && AreBlocks(p, blocks) && z < p.blockBytes
    requires Flatten(blocks) == m + ([0x80] + Zeros(z) + BigEndian(8 * |m|, p.lengthBytes))
    ensures HashOf(p, m) == p.output(Folded(p, blocks))
  {
    var field := BigEndian(8 * |m|, p.lengthBytes);
    Regroup(m, [0x80] + Zeros(z), [], [], field);
    EndOfSum(m + ([0x80] + Zeros(z)), field, |field|);
    DigestOfPadded(p, m, blocks);
  }

  // ---------------------------------------------------------------------------------------------
  // Collisions
  // ---------------------------------------------------------------------------------------------

  /** Step `i` of one fold and step `j` of another: the compression function takes different inputs to the
      same value. */
  ghost predicate CompressCollides<H(!new)>(
    p: HashFunction<H>, xs: seq<seq<byte>>, ys: seq<seq<byte>>, i: nat, j: nat)
  {
    && i < |xs| && j < |ys|
    && (Folded(p, xs[..i]), xs[i]) != (Folded(p, ys[..j]), ys[j])
    && p.compress(Folded(p, xs[..i]), xs[i]) == p.compress(Folded(p, ys[..j]), ys[j])
  }

  lemma {:induction false} FoldCollides<H(!new)>(p: HashFunction<H>, xs: seq<seq<byte>>, ys: seq<seq<byte>>)
    returns (i: nat, j: nat)
    requires xs != [] && ys != [] && xs != ys && Folded(p, xs) == Folded(p, ys)
    requires xs[|xs| - 1] == ys[|ys| - 1] ==> |xs| == |ys|
    ensures CompressCollides(p, xs, ys, i, j)
    decreases |xs|
  {
    i, j := |xs| - 1, |ys| - 1;
    var n := i;
    if xs[i] == ys[j] && Folded(p, xs[..i]) == Folded(p, ys[..j]) {
      assert xs == xs[..n] + [xs[n]] && ys == ys[..n] + [ys[n]];
      i, j := FoldCollides(p, xs[..n], ys[..n]);
      CollidesFurther(p, xs, ys, n, i, j);
    }
  }

  lemma CollidesFurther<H(!new)>(
    p: HashFunction<H>, xs: seq<seq<byte>>, ys: seq<seq<byte>>, n: nat, i: nat, j: nat)
    requires n <= |xs| && n <= |ys| && CompressCollides(p, xs[..n], ys[..n], i, j)
    ensures CompressCollides(p, xs, ys, i, j)
  {
    assert xs[..n][..i] == xs[..i] && ys[..n][..j] == ys[..j];
  }

  lemma LastBlock<H(!new)>(p: HashFunction<H>, m: seq<byte>, blocks: seq<seq<byte>>)
    requires p.Valid() && PadsTo(p, m, blocks)
    ensures blocks != []
    ensures blocks[|blocks| - 1][p.blockBytes - p.lengthBytes..] == BigEndian(8 * |m|, p.lengthBytes)
  {
    var k := |blocks| - 1;
    EndOfSum(Flatten(blocks[..k]), blocks[k], p.lengthBytes);
  }

  lemma EndOfSum(a: seq<byte>, b: seq<byte>, n: nat)
    requires n <= |b|
    ensures (a + b)[|a + b| - n..] == b[|b| - n..]
  {
  }

  /** Below the length limit the last block tells how long the message is. */
  lemma LastBlockTellsLength<H(!new)>(
    p: HashFunction<H>, m: seq<byte>, m': seq<byte>, xs: seq<seq<byte>>, ys: seq<seq<byte>>)
    requires p.Valid() && 8 * |m| < p.CountModulus() && 8 * |m'| < p.CountModulus()
    requires PadsTo(p, m, xs) && PadsTo(p, m', ys)
    ensures xs != [] && ys != []
    ensures xs[|xs| - 1] == ys[|ys| - 1] ==> |m| == |m'|
  {
    LastBlock(p, m, xs);
    LastBlock(p, m', ys);
    if xs[|xs| - 1] == ys[|ys| - 1] {
      LengthFieldHoldsCount(p);
      BigEndianInjective(8 * |m|, 8 * |m'|, p.lengthBytes);
    }
  }

  /** The theorem of Merkle and Damgard: two messages below the length limit with the same digest show a
      collision, either of the output function or between two steps of the compression function. */
  lemma CollisionOfDigests<H(!new)>(
    p: HashFunction<H>, m: seq<byte>, m': seq<byte>, xs: seq<seq<byte>>, ys: seq<seq<byte>>)
    returns (i: nat, j: nat)
    requires p.Valid() && 8 * |m| < p.CountModulus() && 8 * |m'| < p.CountModulus()
    requires PadsTo(p, m, xs) && PadsTo(p, m', ys)
    requires m != m' && HashOf(p, m) == HashOf(p, m')
    ensures || (Folded(p, xs) != Folded(p, ys) && p.output(Folded(p, xs)) == p.output(Folded(p, ys)))
            || CompressCollides(p, xs, ys, i, j)
  {
    i, j := 0, 0;
    DigestOfPadded(p, m, xs);
    DigestOfPadded(p, m', ys);
    if Folded(p, xs) == Folded(p, ys) {
      LastBlockTellsLength(p, m, m', xs, ys);
      if |m| == |m'| {
        SameBlockCount(p, m, m', xs, ys);
      }
      assert xs != ys by {
        assert m == Flatten(xs)[..|m|] && m' == Flatten(ys)[..|m'|];
      }
      i, j := FoldCollides(p, xs, ys);
    }
  }

  // ---------------------------------------------------------------------------------------------
  // The streaming form
  // ---------------------------------------------------------------------------------------------

  /** A bit count of `8 * r` bits after `q` wrap-arounds: reducing it leaves `r` bytes. */
  lemma Unwrap64(q: nat, r: nat)
    requires r < 0x2000_0000_0000_0000
    ensures (0x1_0000_0000_0000_0000 * q + 8 * r) % 0x1_0000_0000_0000_0000 == 8 * r
  {
    RemainderUnique(8 * r, q, 0x1_0000_0000_0000_0000);
  }

  lemma Fill64(n: nat)
    ensures (8 * n % 0x1_0000_0000_0000_0000) / 8 % 64 == n % 64
  {
    var q, r := n / 0x2000_0000_0000_0000, n % 0x2000_0000_0000_0000;
    Unwrap64(q, r);
    assert 8 * n == 0x1_0000_0000_0000_0000 * q + 8 * r;
    RemainderUnique(r % 64, 0x80_0000_0000_0000 * q + r / 64, 64);
  }

  lemma Unwrap128(q: nat, r: nat)
    requires r < 0x2000_0000_0000_0000_0000_0000_0000_0000
    ensures (0x1_0000_0000_0000_0000_0000_0000_0000_0000 * q + 8 * r) % 0x1_0000_0000_0000_0000_0000_0000_0000_0000 == 8 * r
  {
    RemainderUnique(8 * r, q, 0x1_0000_0000_0000_0000_0000_0000_0000_0000);
  }

  lemma Fill128(n: nat)
    ensures (8 * n % 0x1_0000_0000_0000_0000_0000_0000_0000_0000) / 8 % 128 == n % 128
  {
    var q, r := n / 0x2000_0000_0000_0000_0000_0000_0000_0000, n % 0x2000_0000_0000_0000_0000_0000_0000_0000;
    Unwrap128(q, r);
    assert 8 * n == 0x1_0000_0000_0000_0000_0000_0000_0000_0000 * q + 8 * r;
    RemainderUnique(r % 128, 0x40_0000_0000_0000_0000_0000_0000_0000 * q + r / 128, 128);
  }

  /** The bit counter tells how much of the buffer is in use, even after it has wrapped around. */
  lemma CountTellsFill<H(!new)>(p: HashFunction<H>, m: seq<byte>)
    requires p.Valid()
    ensures (8 * |m| % p.CountModulus()) / 8 % p.blockBytes == |Rest(p.blockBytes, m)|
  {
    RestLength(p.blockBytes, m);
    if p.blockBytes == 64 {
      Fill64(|m|);
    } else {
      Fill128(|m|);
    }
  }

  method CopyInto(buf: array<byte>, at: nat, data: seq<byte>)
    requires at + |data| <= buf.Length
    modifies buf
    ensures buf[..] == old(buf[..at]) + data + old(buf[at + |data|..])
  {
    for i := 0 to |data|
      invariant forall k :: 0 <= k < i ==> buf[at + k] == data[k]
      invariant forall k :: 0 <= k < at || at + i <= k < buf.Length ==> buf[k] == old(buf[k])
    {
      buf[at + i] := data[i];
    }
  }

  class State<H(!new)> {
    const p: HashFunction<H>
    const buf: array<byte>
    var chain: H
    var count: nat
    ghost var absorbed: seq<byte>      // everything hashed so far

    /** The chaining value covers the whole blocks and the buffer holds the rest. */
    ghost predicate Valid()
      reads this, buf
    {
      && p.Valid() && buf.Length == p.blockBytes
      && count == 8 * |absorbed| % p.CountModulus()
      && chain == Chain(p, p.iv, absorbed)
      && buf[..|Rest(p.blockBytes, absorbed)|] == Rest(p.blockBytes, absorbed)
    }

    constructor (p: HashFunction<H>)
      requires p.Valid()
      ensures Valid() && fresh(buf) && this.p == p && absorbed == []
    {
      this.p := p;
      buf := new byte[p.blockBytes](_ => 0);
      chain, count, absorbed := p.iv, 0, [];
    }

    /** Tops up the buffer, processes whole blocks straight from `data`, and keeps the rest. */
    method Update(data: seq<byte>)
      requires Valid()
      modifies this, buf
      ensures Valid() && absorbed == old(absorbed) + data
    {
      var r := count / 8 % p.blockBytes;
      CountTellsFill(p, absorbed);
      ChainAppend(p, p.iv, absorbed, data);
      ghost var rest := Rest(p.blockBytes, absorbed);
      AddToCount(data);
      if |data| < p.blockBytes - r {
        CopyInto(buf, r, data);
        assert buf[..r + |data|] == rest + data;
        return;
      }
      var pos := p.blockBytes - r;
      CopyInto(buf, r, data[..pos]);
      assert buf[..] == rest + data[..pos];
      assert (rest + data)[..p.blockBytes] == rest + data[..pos] && (rest + data)[p.blockBytes..] == data[pos..];
      chain := p.compress(chain, buf[..]);
      var left := WholeBlocks(data[pos..]);
      CopyInto(buf, 0, left);
    }

    /** Counts the bits of `data` as absorbed, modulo the counter's width. */
    method AddToCount(data: seq<byte>)
      requires p.Valid() && count == 8 * |absorbed| % p.CountModulus()
      modifies this`count, this`absorbed
      ensures absorbed == old(absorbed) + data
      ensures count == 8 * |absorbed| % p.CountModulus()
    {
      SumOfRemainder(8 * |absorbed|, 8 * |data|, p.CountModulus());
      count := (count + 8 * |data|) % p.CountModulus();
      absorbed := absorbed + data;
    }

    method WholeBlocks(data: seq<byte>) returns (left: seq<byte>)
      requires p.blockBytes > 0
      modifies this`chain
      ensures chain == Chain(p, old(chain), data) && left == Rest(p.blockBytes, data)
    {
      var pos := 0;
      while |data| - pos >= p.blockBytes
        invariant pos <= |data|
        invariant Chain(p, chain, data[pos..]) == Chain(p, old(chain), data)
        invariant Rest(p.blockBytes, data[pos..]) == Rest(p.blockBytes, data)
      {
        assert data[pos..][..p.blockBytes] == data[pos..pos + p.blockBytes];
        assert data[pos..][p.blockBytes..] == data[pos + p.blockBytes..];
        chain := p.compress(chain, data[pos..pos + p.blockBytes]);
        pos := pos + p.blockBytes;
      }
      left := data[pos..];
    }

    /** Consumes the state in Rust: afterwards nothing can call it. */
    method Finalize() returns (digest: seq<byte>)
      requires Valid()
      modifies this, buf
      ensures digest == HashOf(p, old(absorbed))
    {
      var r := count / 8 % p.blockBytes;
      CountTellsFill(p, absorbed);
      ghost var rest, padding := Rest(p.blockBytes, absorbed), PaddingOf(p, absorbed);
      ChainAppend(p, p.iv, absorbed, padding);
      ChainOfTail(p, chain, rest, count);
      var room := p.blockBytes - p.lengthBytes;
      if r < room {
        CopyInto(buf, r, [0x80] + Zeros(room - 1 - r));
        assert buf[..room] == rest + ([0x80] + Zeros(room - 1 - r));
      } else {
        CopyInto(buf, r, [0x80] + Zeros(p.blockBytes - 1 - r));
        assert buf[..] == rest + ([0x80] + Zeros(p.blockBytes - 1 - r));
        chain := p.compress(chain, buf[..]);
        CopyInto(buf, 0, Zeros(room));
        assert buf[..room] == Zeros(room);
      }
      ghost var head := buf[..room];
      CopyInto(buf, room, BigEndian(count, p.lengthBytes));
      assert buf[..] == head + BigEndian(count, p.lengthBytes);
      chain := p.compress(chain, buf[..]);
      digest := p.output(chain);
    }
  }

  /** The last one or two blocks, as `Finalize` lays them out. */
  lemma ChainOfTail<H(!new)>(p: HashFunction<H>, c: H, rest: seq<byte>, count: nat)
    requires p.Valid() && |rest| < p.blockBytes
    ensures
      var r, n, room := |rest|, p.blockBytes, p.blockBytes - p.lengthBytes;
      var field := BigEndian(count, p.lengthBytes);
      Chain(p, c, rest + ([0x80] + Zeros(ZeroCount(p, r)) + field)) ==
      if r < room then p.compress(c, rest + ([0x80] + Zeros(room - 1 - r)) + field)
      else p.compress(p.compress(c, rest + ([0x80] + Zeros(n - 1 - r))), Zeros(room) + field)
  {
    var r, n, room := |rest|, p.blockBytes, p.blockBytes - p.lengthBytes;
    var field := BigEndian(count, p.lengthBytes);
    if r < room {
      Regroup(rest, [0x80] + Zeros(ZeroCount(p, r)), [], [], field);
      OneBlock(p, c, rest + ([0x80] + Zeros(room - 1 - r)) + field);
    } else {
      assert Zeros(ZeroCount(p, r)) == Zeros(n - 1 - r) + Zeros(room);
      Regroup(rest, [0x80], Zeros(n - 1 - r), Zeros(room), field);
      TwoBlocks(p, c, rest + ([0x80] + Zeros(n - 1 - r)), Zeros(room) + field);
    }
  }

  lemma Regroup(a: seq<byte>, b: seq<byte>, c: seq<byte>, d: seq<byte>, e: seq<byte>)
    ensures a + (b + (c + d) + e) == (a + (b + c)) + (d + e)
    ensures a + (b + e) == a + b + e
  {
  }

  lemma TwoBlocks<H(!new)>(p: HashFunction<H>, c: H, a: seq<byte>, b: seq<byte>)
    requires p.Valid() && |a| == p.blockBytes == |b|
    ensures Chain(p, c, a + b) == p.compress(p.compress(c, a), b)
  {
    assert (a + b)[..p.blockBytes] == a && (a + b)[p.blockBytes..] == b;
    OneBlock(p, p.compress(c, a), b);
  }

  lemma OneBlock<H(!new)>(p: HashFunction<H>, c: H, block: seq<byte>)
    requires p.Valid() && |block| == p.blockBytes
    ensures Chain(p, c, block) == p.compress(c, block)
  {
    assert block[..p.blockBytes] == block;
  }

  /** `hash`: the foreign one-shot function. */
  method HashAll<H(!new)>(p: HashFunction<H>, m: seq<byte>) returns (digest: seq<byte>)
    requires p.Valid()
    ensures digest == HashOf(p, m)
  {
    var st := new State(p);
    st.Update(m);
    assert [] + m == m;
    digest := st.Finalize();
  }

  /** Chunk independence: `new`, any number of updates with chunks of any size, and `finalize` give the
      hash of the concatenation. */
  method HashChunks<H(!new)>(p: HashFunction<H>, chunks: seq<seq<byte>>) returns (digest: seq<byte>)
    requires p.Valid()
    ensures digest == HashOf(p, Flatten(chunks))
  {
    var st := new State(p);
    for i := 0 to |chunks|
      invariant st.Valid() && st.p == p && fresh(st) && fresh(st.buf)
      invariant st.absorbed == Flatten(chunks[..i])
    {
      assert chunks[..i + 1][..i] == chunks[..i];
      st.Update(chunks[i]);
    }
    assert chunks[..|chunks|] == chunks;
    digest := st.Finalize();
  }
}
