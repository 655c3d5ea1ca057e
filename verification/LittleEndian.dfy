/** Byte strings as little-endian numbers: `utils::increment_le`, `utils::add_le`, nonce stepping. */
module LittleEndian {
  import opened Arithmetic
  import opened Bytes

  function Value(s: seq<byte>): nat {
    if s == [] then 0 else s[0] + 256 * Value(s[1..])
  }

  /** `v` moved up by `n` bytes: v * 2^(8 * n). */
  function Shifted(v: nat, n: nat): nat {
    if n == 0 then v else 256 * Shifted(v, n - 1)
  }

  /** 2^(8 * n) */
  function Modulus(n: nat): nat {
    Shifted(1, n)
  }

  /** The `n` low bytes of `v`. */
  function Digits(v: nat, n: nat): (s: seq<byte>)
    ensures |s| == n
  {
    if n == 0 then [] else [v % 256] + Digits(v / 256, n - 1)
  }

  lemma {:induction false} ShiftedAdd(a: nat, b: nat, n: nat)
    ensures Shifted(a + b, n) == Shifted(a, n) + Shifted(b, n)
  {
    if n > 0 {
      ShiftedAdd(a, b, n - 1);
    }
  }

  lemma {:induction false} ShiftedMore(v: nat, n: nat)
    ensures Shifted(v, n + 1) == Shifted(256 * v, n)
  {
    if n > 0 {
      ShiftedMore(v, n - 1);
    }
  }

  lemma {:induction false} ShiftedIsProduct(v: nat, n: nat)
    ensures Shifted(v, n) == v * Modulus(n)
  {
    if v > 0 {
      ShiftedIsProduct(v - 1, n);
      ShiftedAdd(v - 1, 1, n);
    } else {
      ShiftedZero(n);
    }
  }

  lemma {:induction false} ShiftedZero(n: nat)
    ensures Shifted(0, n) == 0
  {
    if n > 0 {
      ShiftedZero(n - 1);
    }
  }

  lemma {:induction false} ValueBound(s: seq<byte>)
    ensures Value(s) < Modulus(|s|)
  {
    if s != [] {
      ValueBound(s[1..]);
    }
  }

  lemma {:induction false} ValueSnoc(s: seq<byte>, b: byte)
    ensures Value(s + [b]) == Value(s) + Shifted(b, |s|)
  {
    if s == [] {
      assert (s + [b])[1..] == [];
    } else {
      assert (s + [b])[1..] == s[1..] + [b];
      ValueSnoc(s[1..], b);
    }
  }

  /** `Value` and `Digits` are inverse: a byte string is its number, on its own length. */
  lemma {:induction false} ValueDigits(v: nat, n: nat)
    requires v < Modulus(n)
    ensures Value(Digits(v, n)) == v
  {
    if n > 0 {
      ValueDigits(v / 256, n - 1);
      assert Digits(v, n)[1..] == Digits(v / 256, n - 1);
    }
  }

  lemma DigitsInjective(v: nat, w: nat, n: nat)
    requires v < Modulus(n) && w < Modulus(n) && Digits(v, n) == Digits(w, n)
    ensures v == w
  {
    ValueDigits(v, n);
    ValueDigits(w, n);
  }

  lemma LowByte(b: byte, v: nat)
    ensures (b + 256 * v) % 256 == b && (b + 256 * v) / 256 == v
  {
  }

  lemma {:induction false} DigitsValue(s: seq<byte>)
    ensures Digits(Value(s), |s|) == s
  {
    if s != [] {
      LowByte(s[0], Value(s[1..]));
      DigitsValue(s[1..]);
      assert [s[0]] + s[1..] == s;
    }
  }

  // ---------------------------------------------------------------------------------------------
  // Arithmetic modulo 2^(8 * length)
  // ---------------------------------------------------------------------------------------------

  /** Keeping `n` bytes takes away a multiple of 2^(8 * n). */
  lemma {:induction false} DigitsTruncate(v: nat, n: nat) returns (q: nat)
    ensures v == Value(Digits(v, n)) + Shifted(q, n)
  {
    if n == 0 {
      q := v;
    } else {
      q := DigitsTruncate(v / 256, n - 1);
      assert Digits(v, n)[1..] == Digits(v / 256, n - 1);
    }
  }

  /** Whole multiples of 2^(8 * n) do not show in `n` bytes. */
  lemma {:induction false} DigitsDropMultiple(v: nat, q: nat, n: nat)
    ensures Digits(v + Shifted(q, n), n) == Digits(v, n)
  {
    if n > 0 {
      var w := Shifted(q, n - 1);
      assert (v + 256 * w) % 256 == v % 256 && (v + 256 * w) / 256 == v / 256 + w;
      DigitsDropMultiple(v / 256, q, n - 1);
    }
  }

  /** `k` added to the number `s` stands for, on the length of `s`. */
  function Plus(s: seq<byte>, k: nat): (r: seq<byte>)
    ensures |r| == |s|
  {
    Digits(Value(s) + k, |s|)
  }

  /** One more, byte by byte: a first byte below 255 is increased, and 255 becomes 0 and carries on. */
  lemma IncrementBytes(s: seq<byte>)
    requires s != []
    ensures Plus(s, 1) == if s[0] < 255 then [s[0] + 1] + s[1..] else [0] + Plus(s[1..], 1)
  {
    var v := Value(s[1..]);
    if s[0] < 255 {
      LowByte(s[0] + 1, v);
      DigitsValue(s[1..]);
    } else {
      LowByte(0, v + 1);
    }
  }

  /** Two examples: a carry out of the first byte, and one out of the number. */
  lemma IncrementExamples()
    ensures Plus([255, 2, 3, 4, 5], 1) == [0, 3, 3, 4, 5]
    ensures Plus([255, 255, 255, 255, 255], 1) == [0, 0, 0, 0, 0]
  {
    IncrementBytes([255, 2, 3, 4, 5]);
    IncrementBytes([2, 3, 4, 5]);
    assert [255, 2, 3, 4, 5][1..] == [2, 3, 4, 5];
    Wraps(5);
    assert Zeros(5) == [0, 0, 0, 0, 0];
    assert seq(5, _ => 255) == [255, 255, 255, 255, 255];
  }

  /** The largest number of each length is followed by zero. */
  lemma {:induction false} Wraps(n: nat)
    ensures Plus(seq(n, _ => 255), 1) == Zeros(n)
  {
    var s: seq<byte> := seq(n, _ => 255);
    if n > 0 {
      IncrementBytes(s);
      assert s[1..] == seq(n - 1, _ => 255);
      Wraps(n - 1);
    }
  }

  /** Reduction modulo 2^(8 * n). */
  function Reduced(v: nat, n: nat): nat {
    ModulusPositive(n);
    v % Modulus(n)
  }

  lemma {:induction false} ModulusPositive(n: nat)
    ensures Modulus(n) > 0
  {
    if n > 0 {
      ModulusPositive(n - 1);
    }
  }

  lemma ReducedUnique(r: nat, q: nat, n: nat)
    requires r < Modulus(n)
    ensures Reduced(r + Shifted(q, n), n) == r
  {
    ShiftedIsProduct(q, n);
    RemainderUnique(r, q, Modulus(n));
  }

  /** Keeping `n` bytes reduces a number modulo 2^(8 * n). */
  lemma DigitsReduce(v: nat, n: nat)
    ensures Value(Digits(v, n)) == Reduced(v, n)
  {
    var q := DigitsTruncate(v, n);
    ValueBound(Digits(v, n));
    ReducedUnique(Value(Digits(v, n)), q, n);
  }

  /** So `Plus` is addition modulo 2^(8 * length). */
  lemma PlusValue(s: seq<byte>, k: nat)
    ensures Value(Plus(s, k)) == Reduced(Value(s) + k, |s|)
  {
    hide Value, Digits;
    DigitsReduce(Value(s) + k, |s|);
  }

  /** The bytes left by carrying through all digits. */
  lemma CarriedOut(x: seq<byte>, s: seq<byte>, k: nat, carry: nat)
    requires |x| == |s| && Value(x) + Shifted(carry, |s|) == Value(s) + k
    ensures x == Plus(s, k)
  {
    hide Value, Digits;
    DigitsDropMultiple(Value(x), carry, |s|);
    DigitsValue(x);
  }

  /** One step of a ripple carry, at byte `n`: the low byte of the sum stays, the rest moves on. */
  lemma CarryStep(sum: nat, n: nat)
    ensures Shifted(sum % 256, n) + Shifted(sum / 256, n + 1) == Shifted(sum, n)
  {
    ShiftedMore(sum / 256, n);
    ShiftedAdd(sum % 256, 256 * (sum / 256), n);
  }

  lemma ShiftedSum(a: nat, b: nat, c: nat, n: nat)
    ensures Shifted(a + b + c, n) == Shifted(a, n) + Shifted(b, n) + Shifted(c, n)
  {
    ShiftedAdd(a + b, c, n);
    ShiftedAdd(a, b, n);
  }

  /** `increment_le`: the number afterwards is one more, modulo 2^(8 * length). */
  method IncrementLe(x: array<byte>)
    modifies x
    ensures x[..] == Plus(old(x[..]), 1)
  {
    ghost var s := x[..];
    var carry := 1;
    for i := 0 to x.Length
      invariant 0 <= carry <= 1
      invariant forall k :: i <= k < x.Length ==> x[k] == s[k]
      invariant Value(x[..i]) + Shifted(carry, i) == Value(s[..i]) + 1
    {
      assert x[i] == s[i] && s[..i + 1] == s[..i] + [s[i]];
      var sum: nat := carry + x[i];
      ShiftedAdd(carry, s[i], i);
      CarryStep(sum, i);
      ValueSnoc(x[..i], sum % 256);
      ValueSnoc(s[..i], s[i]);
      ghost var done := x[..i];
      x[i] := sum % 256;
      carry := sum / 256;
      assert x[..i + 1] == done + [x[i]];
    }
    assert x[..x.Length] == x[..] && s[..x.Length] == s;
    CarriedOut(x[..], s, 1, carry);
  }

  /** `add_le`: unequal lengths are refused; otherwise `y` is added to `x` modulo 2^(8 * length). */
  method AddLe(x: array<byte>, y: array<byte>) returns (r: Result<()>)
    requires x != y
    modifies x
    ensures r == if x.Length == y.Length then Ok(()) else Err
    ensures r.Err? ==> x[..] == old(x[..])
    ensures r.Ok? ==> x[..] == Plus(old(x[..]), Value(y[..]))
  {
    if x.Length != y.Length {
      return Err;
    }
    ghost var s, t := x[..], y[..];
    var carry := 0;
    for i := 0 to x.Length
      invariant 0 <= carry <= 1
      invariant forall k :: i <= k < x.Length ==> x[k] == s[k]
      invariant Value(x[..i]) + Shifted(carry, i) == Value(s[..i]) + Value(t[..i])
    {
      assert x[i] == s[i] && s[..i + 1] == s[..i] + [s[i]];
      assert y[i] == t[i] && t[..i + 1] == t[..i] + [t[i]];
      var sum: nat := carry + x[i] + y[i];
      ShiftedSum(carry, s[i], t[i], i);
      CarryStep(sum, i);
      ValueSnoc(x[..i], sum % 256);
      ValueSnoc(s[..i], s[i]);
      ValueSnoc(t[..i], t[i]);
      ghost var done := x[..i];
      x[i] := sum % 256;
      carry := sum / 256;
      assert x[..i + 1] == done + [x[i]];
    }
    assert x[..x.Length] == x[..] && s[..x.Length] == s && t[..x.Length] == t;
    CarriedOut(x[..], s, Value(t), carry);
    return Ok(());
  }

  // ---------------------------------------------------------------------------------------------
  // Stepping
  // ---------------------------------------------------------------------------------------------

  /** The bytes after `k` increments. */
  function Steps(s: seq<byte>, k: nat): (r: seq<byte>)
    ensures |r| == |s|
  {
    if k == 0 then s else Plus(Steps(s, k - 1), 1)
  }

  /** `k` calls in a row. */
  method IncrementTimes(x: array<byte>, k: nat)
    modifies x
    ensures x[..] == Steps(old(x[..]), k)
  {
    for i := 0 to k
      invariant x[..] == Steps(old(x[..]), i)
    {
      IncrementLe(x);
    }
  }

  /** `k` increments add `k`. */
  lemma {:induction false} StepsAdd(s: seq<byte>, k: nat)
    ensures Steps(s, k) == Plus(s, k)
  {
    if k == 0 {
      DigitsValue(s);
    } else {
      StepsAdd(s, k - 1);
      var v := Value(s) + k - 1;
      var q := DigitsTruncate(v, |s|);
      DigitsDropMultiple(Value(Digits(v, |s|)) + 1, q, |s|);
    }
  }

  /** So `k` increments agree with one `add_le` of the bytes of `k`, and the number moves by `k`. */
  lemma StepsAgreeWithAddLe(s: seq<byte>, k: nat)
    ensures Value(Steps(s, k)) == Reduced(Value(s) + k, |s|)
    ensures k < Modulus(|s|) ==> Steps(s, k) == Plus(s, Value(Digits(k, |s|)))
  {
    hide Value, Digits;
    StepsAdd(s, k);
    PlusValue(s, k);
    if k < Modulus(|s|) {
      ValueDigits(k, |s|);
    }
  }

  lemma {:induction false} ShiftedGrows(q: nat, q': nat, n: nat)
    requires q < q'
    ensures Shifted(q', n) - Shifted(q, n) >= Modulus(n)
  {
    if n > 0 {
      ShiftedGrows(q, q', n - 1);
    }
  }

  /** The first 2^(8 * length) values visited are pairwise different, and the next one is the start. */
  lemma StepsDistinct(s: seq<byte>, j: nat, k: nat)
    requires j < k <= Modulus(|s|)
    ensures Steps(s, j) == Steps(s, k) <==> j == 0 && k == Modulus(|s|)
  {
    StepsAdd(s, j);
    StepsAdd(s, k);
    if Steps(s, j) == Steps(s, k) {
      var q := DigitsTruncate(Value(s) + j, |s|);
      var q' := DigitsTruncate(Value(s) + k, |s|);
      if q < q' {
        ShiftedGrows(q, q', |s|);
      } else if q' < q {
        ShiftedGrows(q', q, |s|);
      }
    }
    if j == 0 && k == Modulus(|s|) {
      DigitsDropMultiple(Value(s), 1, |s|);
    }
  }
}
