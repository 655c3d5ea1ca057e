/** ISO/IEC 7816-4 padding: `padding::pad` and `padding::unpad`. */
module Padding {
  import opened Arithmetic
  import opened Bytes

  const MARKER: byte := 0x80

  /** The least multiple of `blocksize` above `n`. */
  function PaddedLength(n: nat, blocksize: nat): nat
    requires blocksize > 0
  {
    n + blocksize - n % blocksize
  }

  lemma PaddedLengthIsLeast(n: nat, blocksize: nat, q: nat)
    requires blocksize > 0
    ensures PaddedLength(n, blocksize) % blocksize == 0
    ensures n < PaddedLength(n, blocksize) <= n + blocksize
    ensures n < q * blocksize ==> PaddedLength(n, blocksize) <= q * blocksize
  {
    var k := n / blocksize;
    assert n == k * blocksize + n % blocksize;
    assert PaddedLength(n, blocksize) == (k + 1) * blocksize;
    MultipleOf(k + 1, blocksize);
    ProductGap(k, q, blocksize);
  }

  /** `s` is a message of length `n`, the marker, and zeros up to a position at most `blocksize` away. */
  ghost predicate IsPadded(s: seq<byte>, n: nat, blocksize: nat) {
    && n < |s| <= n + blocksize
    && s[n] == 0x80
    && forall i :: n < i < |s| ==> s[i] == 0
  }

  /** Pads in place: fails, touching nothing, exactly if the block size is 0 or the padded message does
      not fit; otherwise writes the marker and zeros and touches nothing else. */
  method Pad(buf: array<byte>, unpaddedLen: nat, blocksize: nat) returns (r: Result<nat>)
    modifies buf
    ensures r.Err? <==> blocksize == 0 || PaddedLength(unpaddedLen, blocksize) > buf.Length
    ensures r.Err? ==> buf[..] == old(buf[..])
    ensures r.Ok? ==>
      && r.value == PaddedLength(unpaddedLen, blocksize) && unpaddedLen < r.value <= buf.Length
      && buf[..unpaddedLen] == old(buf[..unpaddedLen])
      && buf[unpaddedLen] == 0x80 && (forall i :: unpaddedLen < i < r.value ==> buf[i] == 0)
      && IsPadded(buf[..r.value], unpaddedLen, blocksize)
      && buf[r.value..] == old(buf[r.value..])
  {
    if blocksize == 0 {
      return Err;
    }
    var padLen := blocksize - 1 - unpaddedLen % blocksize;
    var last := unpaddedLen + padLen;
    if last >= buf.Length {
      return Err;
    }
    PaddedLengthIsLeast(unpaddedLen, blocksize, 0);
    LastBlockFits(last + 1, blocksize);
    var passed := false;                  // the marker has been written
    for i := 0 to blocksize
      invariant passed <==> i > padLen
      invariant forall k :: last < k < buf.Length ==> buf[k] == old(buf[k])
      invariant forall k :: 0 <= k <= last - i ==> buf[k] == old(buf[k])
      invariant forall k :: last - i < k <= last && 0 <= k < unpaddedLen ==> buf[k] == old(buf[k])
      invariant forall k :: last - i < k <= last && unpaddedLen < k ==> buf[k] == 0
      invariant passed ==> buf[unpaddedLen] == MARKER
    {
      buf[last - i] := if passed then buf[last - i] else if i == padLen then MARKER else 0;
      passed := passed || i == padLen;
    }
    return Ok(last + 1);
  }

  lemma LastBlockFits(n: nat, blocksize: nat)
    requires blocksize > 0 && n > 0 && n % blocksize == 0
    ensures blocksize <= n
  {
  }

  // `unpad` hands its slice to the foreign function as a bare pointer. What the pointer reaches is the
  // slice and, after it, bytes that do not belong to it.

  /** The first `n` bytes behind the pointer. */
  function Visible(buf: seq<byte>, beyond: nat -> byte, n: nat): (r: seq<byte>)
    ensures |r| == n
    ensures n <= |buf| ==> r == buf[..n]
  {
    seq(n, k requires 0 <= k => if k < |buf| then buf[k] else beyond(k))
  }

  /** The unpadded length of `s` is `n`. */
  ghost predicate UnpadsTo(s: seq<byte>, n: nat, blocksize: nat) {
    0 < blocksize <= |s| && IsPadded(s, n, blocksize)
  }

  /** That is, it ends in 0x80 and zeros, together no longer than a block. */
  lemma PaddingForm(s: seq<byte>, n: nat, blocksize: nat)
    ensures UnpadsTo(s, n, blocksize) <==>
            0 < blocksize <= |s| && |s| - blocksize <= n < |s| && s == s[..n] + [0x80] + Zeros(|s| - n - 1)
  {
    if n < |s| && s == s[..n] + [0x80] + Zeros(|s| - n - 1) {
      assert forall i :: n < i < |s| ==> s[i] == Zeros(|s| - n - 1)[i - n - 1];
    }
  }

  /** `unpad` reads the byte at offset `k`. */
  predicate Reads(paddedLen: nat, blocksize: nat, k: nat) {
    0 < blocksize <= paddedLen && paddedLen - blocksize <= k < paddedLen
  }

  /** Finds the marker: succeeds with `n` exactly if the last `blocksize` of the `paddedLen` bytes behind
      the pointer are padding that starts at `n`. `touched` collects the offsets it looks at. */
  method Unpad(buf: array<byte>, paddedLen: nat, blocksize: nat, beyond: nat -> byte)
    returns (r: Result<nat>, ghost touched: set<nat>)
    ensures forall k: nat :: k in touched <==> Reads(paddedLen, blocksize, k)
    ensures r.Ok? ==> UnpadsTo(Visible(buf[..], beyond, paddedLen), r.value, blocksize)
    ensures r.Ok? ==> r.value < paddedLen && Visible(buf[..], beyond, paddedLen)[r.value] == 0x80
    ensures r.Err? ==> forall n :: !UnpadsTo(Visible(buf[..], beyond, paddedLen), n, blocksize)
  {
    touched := {};
    if paddedLen < blocksize || blocksize == 0 {
      return Err, touched;
    }
    ghost var s := Visible(buf[..], beyond, paddedLen);
    var seen := false;                    // whether a non-zero byte was met
    var padLen := 0;
    var valid := false;
    for i := 0 to blocksize
      invariant forall k: nat :: k in touched <==> paddedLen - i <= k < paddedLen
      invariant !seen <==> forall k :: paddedLen - i <= k < paddedLen ==> s[k] == 0
      invariant valid ==> seen && padLen < i && IsPadded(s, paddedLen - 1 - padLen, blocksize)
      invariant !valid ==> padLen == 0
      invariant !valid ==> forall n :: paddedLen - i <= n < paddedLen ==> !IsPadded(s, n, blocksize)
    {
      var at := paddedLen - 1 - i;
      var c := if at < buf.Length then buf[at] else beyond(at);
      assert s[at] == c;
      touched := touched + {at};
      if !seen && padLen == 0 && c == MARKER {
        padLen := i;
        valid := true;
      }
      seen := seen || c != 0;
    }
    if !valid {
      return Err, touched;
    }
    return Ok(paddedLen - 1 - padLen), touched;
  }

  /** Every read is inside the slice if and only if no byte is read or the padded length fits. */
  lemma ReadsInside(length: nat, paddedLen: nat, blocksize: nat)
    ensures (forall k: nat :: Reads(paddedLen, blocksize, k) ==> k < length)
       <==> (0 < blocksize <= paddedLen ==> paddedLen <= length)
  {
    if 0 < blocksize <= paddedLen {
      assert Reads(paddedLen, blocksize, paddedLen - 1);
    }
  }

  /** Under that condition, and only then, the slice alone decides the outcome. */
  lemma DecidedBySlice(buf: seq<byte>, paddedLen: nat, blocksize: nat)
    ensures (forall b: nat -> byte, b': nat -> byte, n: nat ::
               UnpadsTo(Visible(buf, b, paddedLen), n, blocksize) <==>
               UnpadsTo(Visible(buf, b', paddedLen), n, blocksize))
       <==> (0 < blocksize <= paddedLen ==> paddedLen <= |buf|)
  {
    if 0 < blocksize <= paddedLen && |buf| < paddedLen {
      var b, b' := (_: nat) => MARKER, (_: nat) => 0;
      assert UnpadsTo(Visible(buf, b, paddedLen), paddedLen - 1, blocksize);
      assert !UnpadsTo(Visible(buf, b', paddedLen), paddedLen - 1, blocksize);
    } else if paddedLen <= |buf| {
      forall b: nat -> byte ensures Visible(buf, b, paddedLen) == buf[..paddedLen] {
      }
    }
  }

  /** An empty slice, padded length 1, block size 1: byte 0, which is not in it, is read and decides. */
  lemma ReadOutside(beyond: nat -> byte, n: nat)
    ensures Reads(1, 1, 0)
    ensures UnpadsTo(Visible([], beyond, 1), n, 1) <==> n == 0 && beyond(0) == MARKER
  {
    assert Visible([], beyond, 1)[0] == beyond(0);
  }

  /** At most one position can be where the padding starts, so `Unpad` is determined by its contract. */
  lemma PaddingUnique(s: seq<byte>, m: nat, n: nat, blocksize: nat)
    requires IsPadded(s, m, blocksize) && IsPadded(s, n, blocksize)
    ensures m == n
  {
  }

  /** Unpadding undoes padding, for any buffer, length and block size, and reads only the buffer. */
  method PadThenUnpad(buf: array<byte>, unpaddedLen: nat, blocksize: nat, beyond: nat -> byte)
    returns (padded: Result<nat>, unpadded: Result<nat>, ghost touched: set<nat>)
    modifies buf
    ensures padded.Err? <==> blocksize == 0 || PaddedLength(unpaddedLen, blocksize) > buf.Length
    ensures padded.Ok? ==> unpadded == Ok(unpaddedLen) && buf[..unpaddedLen] == old(buf[..unpaddedLen])
    ensures forall k :: k in touched ==> k < buf.Length
  {
    padded := Pad(buf, unpaddedLen, blocksize);
    if padded.Err? {
      return padded, Err, {};
    }
    PaddedLengthIsLeast(unpaddedLen, blocksize, 0);
    LastBlockFits(padded.value, blocksize);
    unpadded, touched := Unpad(buf, padded.value, blocksize, beyond);
    ghost var s := Visible(buf[..], beyond, padded.value);
    assert s == buf[..padded.value];
    assert UnpadsTo(s, unpaddedLen, blocksize);
    if unpadded.Ok? {
      PaddingUnique(s, unpaddedLen, unpadded.value, blocksize);
    }
  }

  /** On whole blocks, padding is the only thing unpadding accepts: the padded length it saw is the one
      `pad` would have chosen for the length it found. */
  lemma UnpaddedWasPadded(s: seq<byte>, n: nat, blocksize: nat)
    requires blocksize > 0 && |s| % blocksize == 0 && IsPadded(s, n, blocksize)
    ensures |s| == PaddedLength(n, blocksize)
  {
    var k, q := n / blocksize, |s| / blocksize;
    assert |s| == q * blocksize && PaddedLength(n, blocksize) == (k + 1) * blocksize;
    PaddedLengthIsLeast(n, blocksize, q);
    ProductGap(k + 1, q, blocksize);
  }

  /** No `usize` overflow: a slice holds at most `ISIZE_MAX` bytes. */
  lemma PadDoesNotOverflow(unpaddedLen: nat, blocksize: nat)
    requires 0 < blocksize <= USIZE_MAX && unpaddedLen <= ISIZE_MAX
    ensures unpaddedLen + (blocksize - 1 - unpaddedLen % blocksize) < USIZE_MAX
  {
    if unpaddedLen < blocksize {
      RemainderUnique(unpaddedLen, 0, blocksize);
    }
  }
}
