/** Bytes, machine-word bounds and the result types shared by every module. */
module Bytes {
  import opened Arithmetic

  type byte = x: int | 0 <= x < 256

  // Rust's `usize` and `isize` on a 64-bit target.
  const USIZE_MAX: nat := 0xFFFF_FFFF_FFFF_FFFF
  const ISIZE_MAX: nat := 0x7FFF_FFFF_FFFF_FFFF

  datatype Option<+T> = None | Some(value: T)

  // Every error of the modelled API is the unit value `()`.
  datatype Result<+T> = Ok(value: T) | Err

  /** `checked_mul` and `checked_add` of Rust's `usize`. */
  function CheckedMul(a: nat, b: nat): Option<nat> {
    if a * b <= USIZE_MAX then Some(a * b) else None
  }

  function CheckedAdd(a: nat, b: nat): Option<nat> {
    if a + b <= USIZE_MAX then Some(a + b) else None
  }

  function Zeros(n: nat): (r: seq<byte>)
    ensures |r| == n
    ensures forall i :: 0 <= i < n ==> r[i] == 0
  {
    seq(n, i => 0)
  }

  /** Exclusive or, bit by bit: the low `bits` bits of `a` and `b`. */
  function XorBits(a: nat, b: nat, bits: nat): (r: nat)
    ensures r < Pow2(bits)
  {
    if bits == 0 then 0 else (if a % 2 == b % 2 then 0 else 1) + 2 * XorBits(a / 2, b / 2, bits - 1)
  }

  function Pow2(n: nat): nat {
    if n == 0 then 1 else 2 * Pow2(n - 1)
  }

  function Xor(a: byte, b: byte): byte {
    assert Pow2(8) == 256 by { assert Pow2(4) == 16; }
    XorBits(a, b, 8)
  }

  lemma {:induction false} XorBitsInvolutive(a: nat, b: nat, bits: nat)
    requires a < Pow2(bits)
    ensures XorBits(XorBits(a, b, bits), b, bits) == a
  {
    if bits != 0 {
      var x, r := XorBits(a, b, bits), XorBits(a / 2, b / 2, bits - 1);
      assert x / 2 == r && x % 2 == if a % 2 == b % 2 then 0 else 1;
      XorBitsInvolutive(a / 2, b / 2, bits - 1);
      assert XorBits(x, b, bits) == a % 2 + 2 * XorBits(r, b / 2, bits - 1);
    }
  }

  lemma {:induction false} XorBitsZero(a: nat, bits: nat)
    requires a < Pow2(bits)
    ensures XorBits(a, 0, bits) == a
  {
    if bits != 0 {
      XorBitsZero(a / 2, bits - 1);
    }
  }

  lemma {:induction false} XorBitsCommutes(a: nat, b: nat, bits: nat)
    ensures XorBits(a, b, bits) == XorBits(b, a, bits)
  {
    if bits != 0 {
      XorBitsCommutes(a / 2, b / 2, bits - 1);
    }
  }

  lemma {:induction false} Halve(v: nat, i: nat)
    ensures Pow2(i) > 0 && v / Pow2(i + 1) == v / 2 / Pow2(i)
  {
    Pow2Positive(i);
    HalfQuotient(v, Pow2(i));
  }

  lemma {:induction false} Pow2Positive(n: nat)
    ensures Pow2(n) > 0
  {
    if n > 0 {
      Pow2Positive(n - 1);
    }
  }

  lemma XorBitsHalf(a: nat, b: nat, bits: nat)
    requires bits > 0
    ensures XorBits(a, b, bits) / 2 == XorBits(a / 2, b / 2, bits - 1)
    ensures XorBits(a, b, bits) % 2 == (a + b) % 2
  {
    LowBit(if a % 2 == b % 2 then 0 else 1, XorBits(a / 2, b / 2, bits - 1));
    ParityOfSum(a / 2, a % 2, b / 2, b % 2);
  }

  lemma LowBit(bit: nat, r: nat)
    requires bit < 2
    ensures (bit + 2 * r) / 2 == r && (bit + 2 * r) % 2 == bit
  {
  }

  lemma ParityOfSum(q: nat, r: nat, q': nat, r': nat)
    requires r < 2 && r' < 2
    ensures (2 * q + r + (2 * q' + r')) % 2 == if r == r' then 0 else 1
  {
  }

  lemma {:induction false} XorBit(a: nat, b: nat, bits: nat, i: nat)
    requires i < bits
    ensures Pow2(i) > 0 && XorBits(a, b, bits) / Pow2(i) % 2 == (a / Pow2(i) + b / Pow2(i)) % 2
  {
    hide XorBits;
    XorBitsHalf(a, b, bits);
    if i > 0 {
      XorBit(a / 2, b / 2, bits - 1, i - 1);
      Halve(XorBits(a, b, bits), i - 1);
      Halve(a, i - 1);
      Halve(b, i - 1);
    } else {
      assert Pow2(0) == 1;
    }
  }

  /** Bit `i` of the exclusive or is the sum, without carry, of the two bits `i`. */
  lemma XorOfBits(a: byte, b: byte, i: nat)
    requires i < 8
    ensures Pow2(i) > 0 && Xor(a, b) / Pow2(i) % 2 == (a / Pow2(i) + b / Pow2(i)) % 2
  {
    XorBit(a, b, 8, i);
  }

  /** Xor by `b` undoes itself, and xor with zero changes nothing. */
  lemma XorLaws(a: byte, b: byte)
    ensures Xor(Xor(a, b), b) == a
    ensures Xor(a, 0) == a && Xor(0, a) == a
    ensures Xor(a, b) == Xor(b, a)
  {
    assert Pow2(8) == 256 by { assert Pow2(4) == 16; }
    XorBitsInvolutive(a, b, 8);
    XorBitsZero(a, 8);
    XorBitsCommutes(a, b, 8);
    XorBitsCommutes(a, 0, 8);
  }
}
