/** Base64 text (RFC 4648, sections 4 and 5): `base64::encode` and `base64::decode`. */
module Base64 {
  import opened Bytes

  datatype Variant = Original | OriginalNoPadding | UrlSafe | UrlSafeNoPadding {
    predicate Pads() {
      Original? || UrlSafe?
    }

    predicate UrlAlphabet() {
      UrlSafe? || UrlSafeNoPadding?
    }
  }

  type sextet = x: int | 0 <= x < 64

  function CharOf(v: Variant, x: sextet): char {
    if x < 26 then 'A' + x as char
    else if x < 52 then 'a' + (x - 26) as char
    else if x < 62 then '0' + (x - 52) as char
    else if x == 62 then (if v.UrlAlphabet() then '-' else '+')
    else (if v.UrlAlphabet() then '_' else '/')
  }

  function IndexOf(v: Variant, c: char): Option<sextet> {
    if 'A' <= c <= 'Z' then Some((c - 'A') as int)
    else if 'a' <= c <= 'z' then Some((c - 'a') as int + 26)
    else if '0' <= c <= '9' then Some((c - '0') as int + 52)
    else if c == (if v.UrlAlphabet() then '-' else '+') then Some(62)
    else if c == (if v.UrlAlphabet() then '_' else '/') then Some(63)
    else None
  }

  lemma AlphabetRoundTrip(v: Variant, x: sextet, c: char)
    ensures IndexOf(v, CharOf(v, x)) == Some(x)
    ensures IndexOf(v, c).Some? ==> CharOf(v, IndexOf(v, c).value) == c
    ensures IndexOf(v, '=').None?
  {
  }

  /** Table 1 of the standard. */
  lemma Alphabet(x: sextet)
    ensures CharOf(Original, x) == CharOf(OriginalNoPadding, x)
         == ("ABCDEFGHIJKLMNOPQRSTUVWXYZ" + "abcdefghijklmnopqrstuvwxyz" + "0123456789" + "+/")[x]
  {
  }

  /** Table 2 of the standard. */
  lemma UrlSafeAlphabet(x: sextet)
    ensures CharOf(UrlSafe, x) == CharOf(UrlSafeNoPadding, x)
         == ("ABCDEFGHIJKLMNOPQRSTUVWXYZ" + "abcdefghijklmnopqrstuvwxyz" + "0123456789" + "-_")[x]
  {
  }

  // ---------------------------------------------------------------------------------------------
  // The format: groups of three bytes are groups of four sextets
  // ---------------------------------------------------------------------------------------------

  function Sextets(b: seq<byte>): (xs: seq<sextet>)
    ensures |xs| == (|b| * 4 + 2) / 3
  {
    if |b| == 0 then []
    else if |b| == 1 then [b[0] / 4, b[0] % 4 * 16]
    else if |b| == 2 then [b[0] / 4, b[0] % 4 * 16 + b[1] / 16, b[1] % 16 * 4]
    else [b[0] / 4, b[0] % 4 * 16 + b[1] / 16, b[1] % 16 * 4 + b[2] / 64, b[2] % 64] + Sextets(b[3..])
  }

  /** The bytes a list of sextets stands for, if it stands for any: no single sextet may be left over,
      and the bits of a short last group that belong to no byte must be zero. */
  function Octets(xs: seq<sextet>): Option<seq<byte>> {
    if |xs| == 0 then Some([])
    else if |xs| == 1 then None
    else if |xs| == 2 then (if xs[1] % 16 == 0 then Some([Octet0(xs)]) else None)
    else if |xs| == 3 then (if xs[2] % 4 == 0 then Some([Octet0(xs), Octet1(xs)]) else None)
    else
      match Octets(xs[4..])
      case None => None
      case Some(rest) => Some([Octet0(xs), Octet1(xs), Octet2(xs)] + rest)
  }

  /** The bytes of the first group. */
  function Octet0(xs: seq<sextet>): byte
    requires |xs| >= 2
  {
    (xs[0] as int) * 4 + xs[1] / 16
  }

  function Octet1(xs: seq<sextet>): byte
    requires |xs| >= 3
  {
    (xs[1] as int) % 16 * 16 + xs[2] / 4
  }

  function Octet2(xs: seq<sextet>): byte
    requires |xs| >= 4
  {
    (xs[2] as int) % 4 * 64 + xs[3]
  }

  lemma {:induction false} OctetsSextets(b: seq<byte>)
    ensures Octets(Sextets(b)) == Some(b)
  {
    var xs := Sextets(b);
    if |b| == 1 {
      assert Octets(xs) == Some([b[0]]);
      assert b == [b[0]];
    } else if |b| == 2 {
      assert Octets(xs) == Some([b[0], b[1]]);
      assert b == [b[0], b[1]];
    } else if |b| >= 3 {
      assert Octet0(xs) == b[0] && Octet1(xs) == b[1] && Octet2(xs) == b[2];
      OctetsSextets(b[3..]);
      assert xs[4..] == Sextets(b[3..]);
      assert [b[0], b[1], b[2]] + b[3..] == b;
    }
  }

  /** The bytes of the first group have its sextets. */
  lemma GroupSextets(xs: seq<sextet>)
    requires |xs| >= 4
    ensures Octet0(xs) / 4 == xs[0] && Octet0(xs) % 4 * 16 + Octet1(xs) / 16 == xs[1]
    ensures Octet1(xs) % 16 * 4 + Octet2(xs) / 64 == xs[2] && Octet2(xs) % 64 == xs[3]
  {
  }

  lemma SextetsOfGroup(a: byte, b: byte, c: byte, rest: seq<byte>)
    ensures Sextets([a, b, c] + rest) == [a / 4, a % 4 * 16 + b / 16, b % 16 * 4 + c / 64, c % 64] + Sextets(rest)
  {
    assert ([a, b, c] + rest)[3..] == rest;
  }

  lemma ShortSextets(xs: seq<sextet>)
    requires |xs| < 4 && Octets(xs).Some?
    ensures Sextets(Octets(xs).value) == xs
  {
    if |xs| == 2 {
      var b := Octet0(xs);
      assert b / 4 == xs[0] && b % 4 * 16 == xs[1];
    } else if |xs| == 3 {
      var a, b := Octet0(xs), Octet1(xs);
      assert a / 4 == xs[0] && a % 4 * 16 + b / 16 == xs[1] && b % 16 * 4 == xs[2];
    }
  }

  lemma {:induction false} SextetsOctets(xs: seq<sextet>)
    requires Octets(xs).Some?
    ensures Sextets(Octets(xs).value) == xs
  {
    if |xs| < 4 {
      ShortSextets(xs);
    } else {
      SextetsOctets(xs[4..]);
      GroupSextets(xs);
      SextetsOfGroup(Octet0(xs), Octet1(xs), Octet2(xs), Octets(xs[4..]).value);
      assert [xs[0], xs[1], xs[2], xs[3]] + xs[4..] == xs;
    }
  }

  /** The padding that fills the last group of four characters. */
  function PaddingFor(v: Variant, byteCount: nat): string {
    if !v.Pads() || byteCount % 3 == 0 then "" else if byteCount % 3 == 1 then "==" else "="
  }

  function Chars(v: Variant, xs: seq<sextet>): (r: string)
    ensures |r| == |xs|
  {
    seq(|xs|, i requires 0 <= i < |xs| => CharOf(v, xs[i]))
  }

  function Text(v: Variant, b: seq<byte>): string {
    Chars(v, Sextets(b)) + PaddingFor(v, |b|)
  }

  /** The longest run of alphabet characters the text starts with, as sextets. */
  function Lead(v: Variant, text: string): (xs: seq<sextet>)
    ensures |xs| <= |text|
    ensures forall i :: 0 <= i < |xs| ==> IndexOf(v, text[i]) == Some(xs[i])
    ensures |xs| < |text| ==> IndexOf(v, text[|xs|]).None?
  {
    if text == "" || IndexOf(v, text[0]).None? then [] else [IndexOf(v, text[0]).value] + Lead(v, text[1..])
  }

  /** What a text decodes to: its leading characters must form whole bytes, and exactly the padding the
      variant asks for must follow. */
  function Decoded(v: Variant, text: string): Result<seq<byte>> {
    var xs := Lead(v, text);
    match Octets(xs)
    case None => Err
    case Some(b) => if text[|xs|..] == PaddingFor(v, |b|) then Ok(b) else Err
  }

  lemma {:induction false} LeadOfText(v: Variant, xs: seq<sextet>, tail: string)
    requires tail == "" || IndexOf(v, tail[0]).None?
    ensures Lead(v, Chars(v, xs) + tail) == xs
  {
    var text := Chars(v, xs) + tail;
    if xs != [] {
      AlphabetRoundTrip(v, xs[0], '=');
      assert text[1..] == Chars(v, xs[1..]) + tail;
      LeadOfText(v, xs[1..], tail);
    }
  }

  /** Round trip: every byte string decodes from its own text, in every variant. */
  lemma DecodeEncode(v: Variant, b: seq<byte>)
    ensures Decoded(v, Text(v, b)) == Ok(b)
  {
    var xs, tail := Sextets(b), PaddingFor(v, |b|);
    AlphabetRoundTrip(v, 0, '=');
    LeadOfText(v, xs, tail);
    OctetsSextets(b);
    assert Text(v, b)[|xs|..] == tail;
  }

  lemma CharsOfLead(v: Variant, text: string)
    ensures Chars(v, Lead(v, text)) == text[..|Lead(v, text)|]
  {
    var xs := Lead(v, text);
    forall i | 0 <= i < |xs| ensures CharOf(v, xs[i]) == text[i] {
      AlphabetRoundTrip(v, xs[i], text[i]);
    }
  }

  /** The decoder is strict: it accepts no text but the one the encoder writes. */
  lemma EncodeDecode(v: Variant, text: string)
    requires Decoded(v, text).Ok?
    ensures Text(v, Decoded(v, text).value) == text
  {
    var xs := Lead(v, text);
    SextetsOctets(xs);
    CharsOfLead(v, text);
    assert text == text[..|xs|] + text[|xs|..];
  }

  lemma EncodeInjective(v: Variant, b: seq<byte>, b': seq<byte>)
    requires Text(v, b) == Text(v, b')
    ensures b == b'
  {
    DecodeEncode(v, b);
    DecodeEncode(v, b');
  }

  lemma DivideBy3(v: nat, k: nat, r: nat)
    requires v == 3 * k + r && r < 3
    ensures v / 3 == k
  {
  }

  lemma TextLength(v: Variant, n: nat) returns (groups: nat)
    requires v.Pads()
    ensures (n * 4 + 2) / 3 + |PaddingFor(v, n)| == 4 * groups
  {
    var q, r := n / 3, n % 3;
    assert n == 3 * q + r;
    if r == 0 {
      DivideBy3(n * 4 + 2, 4 * q, 2);
      groups := q;
    } else {
      DivideBy3(n * 4 + 2, 4 * q + r + 1, r - 1);
      groups := q + 1;
    }
  }

  lemma TextChars(v: Variant, b: seq<byte>)
    ensures
      var text, n := Text(v, b), |Sextets(b)|;
      && (forall i :: 0 <= i < n ==> IndexOf(v, text[i]).Some? && text[i] == CharOf(v, Sextets(b)[i]))
      && (forall i :: n <= i < |text| ==> text[i] == '=')
  {
    var xs := Sextets(b);
    forall i | 0 <= i < |xs| ensures IndexOf(v, Text(v, b)[i]).Some? && Text(v, b)[i] == CharOf(v, xs[i]) {
      AlphabetRoundTrip(v, xs[i], '=');
    }
  }

  /** The text uses the variant's alphabet only; padding, if any, completes a group of four. */
  lemma TextShape(v: Variant, b: seq<byte>)
    ensures
      var text, n := Text(v, b), |Sextets(b)|;
      && (forall i :: 0 <= i < n ==> IndexOf(v, text[i]).Some? && text[i] == CharOf(v, Sextets(b)[i]))
      && (forall i :: n <= i < |text| ==> text[i] == '=')
      && (if v.Pads() then |text| % 4 == 0 && |text| - n <= 2 else |text| == n)
  {
    TextChars(v, b);
    if v.Pads() {
      var groups := TextLength(v, |b|);
      WholeGroups(|Text(v, b)|, groups);
    }
  }

  /** Which variants pad: the two padded ones fill the last group up, the other two write the same text
      without the padding characters. */
  lemma PaddedVariants(b: seq<byte>) returns (n: nat)
    ensures n <= 2
    ensures |Text(Original, b)| % 4 == 0 && Text(Original, b) == Text(OriginalNoPadding, b) + "=="[..n]
    ensures |Text(UrlSafe, b)| % 4 == 0 && Text(UrlSafe, b) == Text(UrlSafeNoPadding, b) + "=="[..n]
    ensures '=' !in Text(OriginalNoPadding, b) && '=' !in Text(UrlSafeNoPadding, b)
  {
    var xs := Sextets(b);
    n := |PaddingFor(Original, |b|)|;
    TextShape(Original, b);
    TextShape(UrlSafe, b);
    assert PaddingFor(Original, |b|) == PaddingFor(UrlSafe, |b|) == "=="[..n];
    assert Chars(Original, xs) == Chars(OriginalNoPadding, xs);
    assert Chars(UrlSafe, xs) == Chars(UrlSafeNoPadding, xs);
    NoPaddingCharacter(OriginalNoPadding, xs);
    NoPaddingCharacter(UrlSafeNoPadding, xs);
  }

  lemma NoPaddingCharacter(v: Variant, xs: seq<sextet>)
    ensures '=' !in Chars(v, xs)
  {
    forall i | 0 <= i < |xs| ensures Chars(v, xs)[i] != '=' {
      AlphabetRoundTrip(v, xs[i], '=');
    }
  }

  /** Four sextets, read as one number of 24 bits, are the three bytes of the group read as one number. */
  lemma {:induction false} GroupNumber(b: seq<byte>, k: nat)
    requires 3 * k + 3 <= |b|
    ensures
      var xs := Sextets(b);
      && 4 * k + 4 <= |xs|
      && 0x40000 * (xs[4 * k] as int) + 0x1000 * (xs[4 * k + 1] as int) + 0x40 * (xs[4 * k + 2] as int) + xs[4 * k + 3]
      == 0x10000 * (b[3 * k] as int) + 0x100 * (b[3 * k + 1] as int) + b[3 * k + 2]
  {
    if k > 0 {
      GroupNumber(b[3..], k - 1);
      SextetsTail(b, 4 * k);
      SextetsTail(b, 4 * k + 1);
      SextetsTail(b, 4 * k + 2);
      SextetsTail(b, 4 * k + 3);
    }
  }

  lemma SextetsTail(b: seq<byte>, i: nat)
    requires 3 <= |b| && 4 <= i < |Sextets(b)|
    ensures Sextets(b)[i] == Sextets(b[3..])[i - 4]
  {
    assert Sextets(b)[4..] == Sextets(b[3..]);
  }

  /** A last group of one or two bytes is filled up with four or two zero bits. */
  lemma {:induction false} LastGroupNumber(b: seq<byte>, k: nat)
    requires 3 * k < |b| < 3 * k + 3
    ensures
      var xs := Sextets(b);
      if |b| == 3 * k + 1 then |xs| == 4 * k + 2 && 0x40 * (xs[4 * k] as int) + xs[4 * k + 1] == 16 * (b[3 * k] as int)
      else
        && |xs| == 4 * k + 3
        && 0x1000 * (xs[4 * k] as int) + 0x40 * (xs[4 * k + 1] as int) + xs[4 * k + 2]
        == 4 * (0x100 * (b[3 * k] as int) + b[3 * k + 1])
  {
    if k > 0 {
      LastGroupNumber(b[3..], k - 1);
    }
  }

  lemma WholeGroups(length: nat, groups: nat)
    requires length == 4 * groups
    ensures length % 4 == 0
  {
  }

  /** Examples of RFC 4648, section 10: one, two and three bytes. */
  lemma Examples()
    ensures Text(Original, [0x66]) == "Zg==" && Text(UrlSafeNoPadding, [0x66]) == "Zg"
    ensures Text(Original, [0x66, 0x6f]) == "Zm8="
    ensures Text(Original, [0x66, 0x6f, 0x6f]) == "Zm9v"
  {
    assert Sextets([0x66, 0x6f, 0x6f]) == [25, 38, 61, 47];
  }

  /** The two alphabets differ in their last two characters. */
  lemma AlphabetExample()
    ensures Text(Original, [0xff, 0xef, 0xbf]) == "/++/" && Text(UrlSafe, [0xff, 0xef, 0xbf]) == "_--_"
  {
    assert Sextets([0xff, 0xef, 0xbf]) == [63, 62, 62, 63];
  }

  // ---------------------------------------------------------------------------------------------
  // The bit accumulators of the two loops
  // ---------------------------------------------------------------------------------------------

  /** `accLen` pending bits of value `acc`. */
  predicate Bits(acc: int, accLen: int) {
    || (accLen == 0 && acc == 0)
    || (accLen == 2 && 0 <= acc < 4)
    || (accLen == 4 && 0 <= acc < 16)
    || (accLen == 6 && 0 <= acc < 64)
  }

  /** `acc >> n` and the `n` low bits of `acc`, for the even `n` that occur. */
  function High(acc: nat, n: nat): nat {
    if n == 0 then acc else if n == 2 then acc / 4 else if n == 4 then acc / 16 else acc / 64
  }

  function Low(acc: nat, n: nat): nat {
    if n == 0 then 0 else if n == 2 then acc % 4 else if n == 4 then acc % 16 else acc % 64
  }

  /** What a loop has written, and the bits it has left waiting. */
  datatype Progress<T> = Progress(out: seq<T>, acc: nat, accLen: nat)

  /** One byte of the encoding loop. */
  function Feed(acc: nat, accLen: nat, b: byte): (t: Progress<sextet>)
    requires Bits(acc, accLen) && accLen <= 4
    ensures Bits(t.acc, t.accLen) && t.accLen <= 4
  {
    if accLen == 0 then Progress([b / 4], b % 4, 2)
    else if accLen == 2 then Progress([acc * 16 + b / 16], b % 16, 4)
    else Progress([acc * 4 + b / 64, b % 64], 0, 0)
  }

  function Fed(acc: nat, accLen: nat, bs: seq<byte>): (d: Progress<sextet>)
    requires Bits(acc, accLen) && accLen <= 4
    ensures Bits(d.acc, d.accLen) && d.accLen <= 4
    decreases |bs|
  {
    if bs == [] then Progress([], acc, accLen)
    else
      var t := Feed(acc, accLen, bs[0]);
      var d := Fed(t.acc, t.accLen, bs[1..]);
      Progress(t.out + d.out, d.acc, d.accLen)
  }

  /** The last sextet, filled up with zero bits. */
  function Flushed(acc: nat, accLen: nat): seq<sextet>
    requires Bits(acc, accLen) && accLen <= 4
  {
    if accLen == 0 then [] else if accLen == 2 then [acc * 16] else [acc * 4]
  }

  lemma {:induction false} FedSnoc(acc: nat, accLen: nat, bs: seq<byte>, b: byte)
    requires Bits(acc, accLen) && accLen <= 4
    ensures
      var d := Fed(acc, accLen, bs);
      var t := Feed(d.acc, d.accLen, b);
      Fed(acc, accLen, bs + [b]) == Progress(d.out + t.out, t.acc, t.accLen)
    decreases |bs|
  {
    if bs == [] {
      assert bs + [b] == [b] && [b][1..] == [];
    } else {
      var t := Feed(acc, accLen, bs[0]);
      assert (bs + [b])[0] == bs[0] && (bs + [b])[1..] == bs[1..] + [b];
      FedSnoc(t.acc, t.accLen, bs[1..], b);
    }
  }

  /** The loop from byte `k` on, when what it does to that byte is known. */
  lemma FedFrom(acc: nat, accLen: nat, b: seq<byte>, k: nat, t: Progress<sextet>)
    requires Bits(acc, accLen) && accLen <= 4 && k < |b| && t == Feed(acc, accLen, b[k])
    ensures
      var d := Fed(t.acc, t.accLen, b[k + 1..]);
      Fed(acc, accLen, b[k..]) == Progress(t.out + d.out, d.acc, d.accLen)
  {
    assert b[k..][0] == b[k] && b[k..][1..] == b[k + 1..];
  }

  lemma FedFirst(b: seq<byte>)
    requires |b| >= 1
    ensures
      var d := Fed(b[0] % 4, 2, b[1..]);
      Fed(0, 0, b) == Progress([b[0] / 4] + d.out, d.acc, d.accLen)
  {
    FedFrom(0, 0, b, 0, Progress([b[0] / 4], b[0] % 4, 2));
    assert b[0..] == b;
  }

  lemma FedSecond(b: seq<byte>)
    requires |b| >= 2
    ensures
      var d := Fed(b[1] % 16, 4, b[2..]);
      Fed(b[0] % 4, 2, b[1..]) == Progress([b[0] % 4 * 16 + b[1] / 16] + d.out, d.acc, d.accLen)
  {
    FedFrom(b[0] % 4, 2, b, 1, Progress([b[0] % 4 * 16 + b[1] / 16], b[1] % 16, 4));
  }

  lemma FedThird(b: seq<byte>)
    requires |b| >= 3
    ensures
      var d := Fed(0, 0, b[3..]);
      Fed(b[1] % 16, 4, b[2..]) == Progress([b[1] % 16 * 4 + b[2] / 64, b[2] % 64] + d.out, d.acc, d.accLen)
  {
    FedFrom(b[1] % 16, 4, b, 2, Progress([b[1] % 16 * 4 + b[2] / 64, b[2] % 64], 0, 0));
  }

  /** The loop, then the flush, writes the sextets of the format. */
  lemma {:induction false} FedIsSextets(b: seq<byte>)
    ensures var d := Fed(0, 0, b); d.out + Flushed(d.acc, d.accLen) == Sextets(b)
  {
    if |b| >= 1 {
      FedFirst(b);
    }
    if |b| >= 2 {
      FedSecond(b);
    }
    if |b| >= 3 {
      FedThird(b);
      FedIsSextets(b[3..]);
    }
  }

  /** One turn of the decoding loop: a sextet is shifted in, a full byte is written out. */
  function Turn(acc: nat, accLen: nat, x: sextet): (t: Progress<byte>)
    requires Bits(acc, accLen)
    ensures Bits(t.acc, t.accLen) && 8 * |t.out| + t.accLen == accLen + 6
  {
    if accLen == 0 then Progress([], x, 6)
    else if accLen == 6 then Progress([acc * 4 + x / 16], x % 16, 4)
    else if accLen == 4 then Progress([acc * 16 + x / 4], x % 4, 2)
    else Progress([acc * 64 + x], 0, 0)
  }

  function Drained(acc: nat, accLen: nat, xs: seq<sextet>): (d: Progress<byte>)
    requires Bits(acc, accLen)
    ensures Bits(d.acc, d.accLen) && 8 * |d.out| + d.accLen == accLen + 6 * |xs|
    decreases |xs|
  {
    if xs == [] then Progress([], acc, accLen)
    else
      var t := Turn(acc, accLen, xs[0]);
      var d := Drained(t.acc, t.accLen, xs[1..]);
      Progress(t.out + d.out, d.acc, d.accLen)
  }

  lemma {:induction false} DrainedSnoc(acc: nat, accLen: nat, xs: seq<sextet>, x: sextet)
    requires Bits(acc, accLen)
    ensures
      var d := Drained(acc, accLen, xs);
      var t := Turn(d.acc, d.accLen, x);
      Drained(acc, accLen, xs + [x]) == Progress(d.out + t.out, t.acc, t.accLen)
    decreases |xs|
  {
    if xs == [] {
      assert xs + [x] == [x] && [x][1..] == [];
    } else {
      var t := Turn(acc, accLen, xs[0]);
      assert (xs + [x])[0] == xs[0] && (xs + [x])[1..] == xs[1..] + [x];
      DrainedSnoc(t.acc, t.accLen, xs[1..], x);
    }
  }

  /** The loop from sextet `k` on, when its turn is known. */
  lemma DrainedFrom(acc: nat, accLen: nat, xs: seq<sextet>, k: nat, t: Progress<byte>)
    requires Bits(acc, accLen) && k < |xs| && t == Turn(acc, accLen, xs[k])
    ensures
      var d := Drained(t.acc, t.accLen, xs[k + 1..]);
      Drained(acc, accLen, xs[k..]) == Progress(t.out + d.out, d.acc, d.accLen)
  {
    assert xs[k..][0] == xs[k] && xs[k..][1..] == xs[k + 1..];
  }

  lemma DrainedFirst(xs: seq<sextet>)
    requires |xs| >= 1
    ensures Drained(0, 0, xs) == Drained(xs[0], 6, xs[1..])
  {
    assert xs[0..] == xs;
    DrainedFrom(0, 0, xs, 0, Progress([], xs[0], 6));
    hide Turn;
    var d := Drained(xs[0], 6, xs[1..]);
    assert [] + d.out == d.out;
  }

  lemma DrainedSecond(xs: seq<sextet>)
    requires |xs| >= 2
    ensures
      var d := Drained(xs[1] % 16, 4, xs[2..]);
      Drained(xs[0], 6, xs[1..]) == Progress([Octet0(xs)] + d.out, d.acc, d.accLen)
  {
    DrainedFrom(xs[0], 6, xs, 1, Progress([Octet0(xs)], xs[1] % 16, 4));
  }

  /** The loop over the first two sextets of a group, and over the others. */
  lemma DrainedFirstTwo(xs: seq<sextet>)
    requires |xs| >= 2
    ensures
      var d := Drained(xs[1] % 16, 4, xs[2..]);
      Drained(0, 0, xs) == Progress([Octet0(xs)] + d.out, d.acc, d.accLen)
  {
    DrainedFirst(xs);
    DrainedSecond(xs);
  }

  lemma DrainedThird(xs: seq<sextet>)
    requires |xs| >= 3
    ensures
      var d := Drained(xs[2] % 4, 2, xs[3..]);
      Drained(xs[1] % 16, 4, xs[2..]) == Progress([Octet1(xs)] + d.out, d.acc, d.accLen)
  {
    DrainedFrom(xs[1] % 16, 4, xs, 2, Progress([Octet1(xs)], xs[2] % 4, 2));
  }

  lemma DrainedFourth(xs: seq<sextet>)
    requires |xs| >= 4
    ensures
      var d := Drained(0, 0, xs[4..]);
      Drained(xs[2] % 4, 2, xs[3..]) == Progress([Octet2(xs)] + d.out, d.acc, d.accLen)
  {
    DrainedFrom(xs[2] % 4, 2, xs, 3, Progress([Octet2(xs)], 0, 0));
  }

  lemma DrainedGroup(xs: seq<sextet>)
    requires |xs| >= 4
    ensures
      var d := Drained(0, 0, xs[4..]);
      Drained(0, 0, xs) == Progress([Octet0(xs), Octet1(xs), Octet2(xs)] + d.out, d.acc, d.accLen)
  {
    DrainedFirstTwo(xs);
    DrainedThird(xs);
    DrainedFourth(xs);
    Join3(Octet0(xs), Octet1(xs), Octet2(xs), Drained(0, 0, xs[4..]).out);
  }

  lemma Join3(a: byte, b: byte, c: byte, rest: seq<byte>)
    ensures [a] + ([b] + ([c] + rest)) == [a, b, c] + rest
  {
  }

  lemma DrainedPair(xs: seq<sextet>)
    requires |xs| == 2
    ensures Drained(0, 0, xs) == Progress([Octet0(xs)], xs[1] % 16, 4)
  {
    DrainedFirstTwo(xs);
    assert xs[2..] == [];
  }

  lemma DrainedTriple(xs: seq<sextet>)
    requires |xs| == 3
    ensures Drained(0, 0, xs) == Progress([Octet0(xs), Octet1(xs)], xs[2] % 4, 2)
  {
    DrainedFirstTwo(xs);
    DrainedThird(xs);
    assert xs[3..] == [];
  }

  /** The loop writes the right bytes, and its left-over bits tell whether the text was well formed. */
  lemma {:induction false} DrainedIsOctets(xs: seq<sextet>)
    ensures
      var d := Drained(0, 0, xs);
      Octets(xs) == if d.accLen <= 4 && d.acc == 0 then Some(d.out) else None
  {
    if |xs| == 1 {
      assert Drained(xs[0], 6, xs[1..]) == Progress([], xs[0], 6);
    } else if |xs| == 2 {
      DrainedPair(xs);
    } else if |xs| == 3 {
      DrainedTriple(xs);
    } else if |xs| >= 4 {
      DrainedGroup(xs);
      DrainedIsOctets(xs[4..]);
    }
  }

  /** Half the number of left-over bits is the number of padding characters to expect. */
  lemma PaddingCount(v: Variant, byteCount: nat, accLen: nat, sextets: nat)
    requires v.Pads() && 8 * byteCount + accLen == 6 * sextets && accLen <= 4
    ensures |PaddingFor(v, byteCount)| == accLen / 2
  {
    assert byteCount == 3 * (sextets - byteCount) - accLen / 2;
  }

  // ---------------------------------------------------------------------------------------------
  // The two functions
  // ---------------------------------------------------------------------------------------------

  /** Characters and the trailing nul. */
  function EncodedLen(v: Variant, binLen: nat): nat {
    var rem := binLen % 3;
    binLen / 3 * 4 + (if rem == 0 then 0 else if v.Pads() then 4 else rem + 1) + 1
  }

  lemma EncodedLenExact(v: Variant, b: seq<byte>)
    ensures EncodedLen(v, |b|) == |Text(v, b)| + 1
    ensures |b| <= ISIZE_MAX ==> EncodedLen(v, |b|) <= USIZE_MAX
  {
  }

  method Encode(v: Variant, bin: seq<byte>) returns (text: string)
    ensures text == Text(v, bin)
  {
    var b64 := new char[EncodedLen(v, |bin|)](_ => '\0');
    EncodedLenExact(v, bin);
    var pos := EncodeBits(v, bin, b64);
    FillPadding(b64, pos);
    text := b64[..b64.Length - 1];
    assert text[..|Sextets(bin)|] == Chars(v, Sextets(bin));
    assert text[|Sextets(bin)|..] == PaddingFor(v, |bin|) by {
      PaddingTail(v, |bin|, text[|Sextets(bin)|..]);
    }
  }

  /** Padding characters up to the last one, and a nul. */
  method FillPadding(b64: array<char>, from: nat)
    requires from < b64.Length
    modifies b64
    ensures b64[..from] == old(b64[..from])
    ensures forall k :: from <= k < b64.Length - 1 ==> b64[k] == '='
  {
    var pos := from;
    while pos < b64.Length - 1
      invariant from <= pos <= b64.Length - 1
      invariant b64[..from] == old(b64[..from])
      invariant forall k :: from <= k < pos ==> b64[k] == '='
    {
      b64[pos] := '=';
      pos := pos + 1;
    }
    b64[pos] := '\0';
  }

  /** The bits of `bin`, six at a time. */
  method EncodeBits(v: Variant, bin: seq<byte>, b64: array<char>) returns (pos: nat)
    requires |Sextets(bin)| <= b64.Length
    modifies b64
    ensures pos == |Sextets(bin)| && b64[..pos] == Chars(v, Sextets(bin))
  {
    var acc, accLen := 0, 0;
    pos := 0;
    for i := 0 to |bin|
      invariant Bits(acc, accLen) && accLen <= 4
      invariant Fed(0, 0, bin[..i]).acc == acc && Fed(0, 0, bin[..i]).accLen == accLen
      invariant pos <= b64.Length && b64[..pos] == Chars(v, Fed(0, 0, bin[..i]).out)
    {
      FedSnoc(0, 0, bin[..i], bin[i]);
      assert bin[..i + 1] == bin[..i] + [bin[i]];
      FedWithin(bin, i + 1);
      ghost var before, t := Fed(0, 0, bin[..i]).out, Feed(acc, accLen, bin[i]);
      pos, acc, accLen := ShiftOut(v, b64, pos, acc, accLen, bin[i]);
      CharsAppend(v, before, t.out);
    }
    FedIsSextets(bin);
    assert bin[..|bin|] == bin;
    CharsAppend(v, Fed(0, 0, bin).out, Flushed(acc, accLen));
    if accLen > 0 {
      ghost var done := b64[..pos];
      b64[pos] := CharOf(v, if accLen == 2 then acc * 16 else acc * 4);
      pos := pos + 1;
      assert b64[..pos] == done + Chars(v, Flushed(acc, accLen));
    }
  }

  lemma CharsAppend(v: Variant, xs: seq<sextet>, ys: seq<sextet>)
    ensures Chars(v, xs + ys) == Chars(v, xs) + Chars(v, ys)
  {
  }

  lemma FedWithin(bin: seq<byte>, i: nat)
    requires i <= |bin|
    ensures |Fed(0, 0, bin[..i]).out| <= |Sextets(bin)|
  {
    FedIsSextets(bin[..i]);
  }

  /** Shifts a byte in and writes a character for every six bits. */
  method ShiftOut(v: Variant, b64: array<char>, pos: nat, acc: nat, accLen: nat, b: byte)
    returns (pos': nat, acc': nat, accLen': nat)
    requires Bits(acc, accLen) && accLen <= 4 && pos + |Feed(acc, accLen, b).out| <= b64.Length
    modifies b64
    ensures
      var t := Feed(acc, accLen, b);
      && pos' == pos + |t.out| && acc' == t.acc && accLen' == t.accLen
      && b64[..pos'] == old(b64[..pos]) + Chars(v, t.out)
  {
    pos', acc', accLen' := pos, acc * 256 + b, accLen + 8;
    ghost var t := Feed(acc, accLen, b);
    ShiftsOfFeed(acc, accLen, b);
    while accLen' >= 6
      invariant accLen' == accLen + 8 - 6 * (pos' - pos) && accLen' >= 0 && pos <= pos' <= pos + |t.out|
      invariant pos' == pos ==> acc' == acc * 256 + b
      invariant pos' == pos + 1 ==> acc' == Low(acc * 256 + b, accLen + 2)
      invariant pos' == pos + 2 ==> acc' == 0
      invariant b64[..pos'] == old(b64[..pos]) + Chars(v, t.out[..pos' - pos])
    {
      ghost var k := pos' - pos;
      accLen' := accLen' - 6;
      b64[pos'] := CharOf(v, High(acc', accLen'));
      acc' := Low(acc', accLen');
      pos' := pos' + 1;
      assert t.out[..k + 1] == t.out[..k] + [t.out[k]];
    }
    assert t.out[..|t.out|] == t.out;
  }

  lemma ShiftsOfFeed(acc: nat, accLen: nat, b: byte)
    requires Bits(acc, accLen) && accLen <= 4
    ensures
      var t, a := Feed(acc, accLen, b), acc * 256 + b;
      && t.out[0] == High(a, accLen + 2)
      && (accLen < 4 ==> |t.out| == 1 && t.acc == Low(a, accLen + 2))
      && (accLen == 4 ==> |t.out| == 2 && t.out[1] == Low(a, 6))
  {
  }

  /** Three bytes for every started group of four characters: always defined, for any text length. */
  method DecodedLen(b64Len: nat) returns (r: Option<nat>)
    requires b64Len <= USIZE_MAX
    ensures r == Some((b64Len + 3) / 4 * 3)
    ensures 8 * r.value >= 6 * b64Len
  {
    var groups := CheckedMul(b64Len / 4, 3);
    if groups.None? {
      return None;
    }
    var len := groups.value;
    if b64Len % 4 != 0 {
      var longer := CheckedAdd(len, 3);
      if longer.None? {
        return None;
      }
      len := longer.value;
    }
    return Some(len);
  }

  method Decode(v: Variant, text: string) returns (r: Result<seq<byte>>)
    requires |text| <= USIZE_MAX
    ensures r == Decoded(v, text)
  {
    var len := DecodedLen(|text|);
    if len.None? {
      return Err;
    }
    var bin := new byte[len.value](_ => 0);
    ghost var xs := Lead(v, text);
    var pos, binPos, acc, accLen := DecodeBits(v, text, bin);
    DrainedIsOctets(xs);
    if accLen > 4 || acc != 0 {
      return Err;
    }
    PaddingTail(v, binPos, text[pos..]);
    if v.Pads() {
      PaddingCount(v, binPos, accLen, |xs|);
      var ok := SkipPadding(text, pos, accLen / 2);
      if !ok {
        return Err;
      }
      pos := pos + accLen / 2;
    }
    if pos != |text| {
      return Err;
    }
    return Ok(bin[..binPos]);
  }

  method SkipPadding(text: string, pos: nat, count: nat) returns (ok: bool)
    requires pos <= |text|
    ensures ok <==> pos + count <= |text| && forall k :: pos <= k < pos + count ==> text[k] == '='
  {
    for i := 0 to count
      invariant pos + i <= |text|
      invariant forall k :: pos <= k < pos + i ==> text[k] == '='
    {
      if pos + i >= |text| || text[pos + i] != '=' {
        return false;
      }
    }
    return true;
  }

  lemma PaddingTail(v: Variant, byteCount: nat, tail: string)
    ensures tail == PaddingFor(v, byteCount) <==>
            |tail| == |PaddingFor(v, byteCount)| && forall k :: 0 <= k < |tail| ==> tail[k] == '='
  {
  }

  /** Reads the leading alphabet characters, eight bits at a time. No write leaves the buffer, whatever
      the text. */
  method DecodeBits(v: Variant, text: string, bin: array<byte>)
    returns (pos: nat, binPos: nat, acc: nat, accLen: nat)
    requires 8 * bin.Length >= 6 * |text|
    modifies bin
    ensures pos == |Lead(v, text)| && binPos <= bin.Length
    ensures Progress(bin[..binPos], acc, accLen) == Drained(0, 0, Lead(v, text))
  {
    ghost var xs := Lead(v, text);
    pos, binPos, acc, accLen := 0, 0, 0, 0;
    while pos < |text|
      invariant pos <= |xs| && binPos <= bin.Length
      invariant Progress(bin[..binPos], acc, accLen) == Drained(0, 0, xs[..pos])
    {
      var value := IndexOf(v, text[pos]);
      if value.None? {
        break;
      }
      DrainedPrefix(xs, pos, Progress(bin[..binPos], acc, accLen));
      binPos, acc, accLen := ShiftIn(bin, binPos, acc, accLen, value.value);
      pos := pos + 1;
    }
    assert xs[..pos] == xs;
  }

  lemma DrainedPrefix(xs: seq<sextet>, k: nat, d: Progress<byte>)
    requires k < |xs| && d == Drained(0, 0, xs[..k])
    ensures Bits(d.acc, d.accLen) && 8 * |d.out| + d.accLen == 6 * k
    ensures
      var t := Turn(d.acc, d.accLen, xs[k]);
      Drained(0, 0, xs[..k + 1]) == Progress(d.out + t.out, t.acc, t.accLen)
  {
    assert xs[..k + 1] == xs[..k] + [xs[k]];
    DrainedSnoc(0, 0, xs[..k], xs[k]);
  }

  /** Shifts a sextet in and writes a byte once eight bits are there. */
  method ShiftIn(bin: array<byte>, binPos: nat, acc: nat, accLen: nat, x: sextet)
    returns (binPos': nat, acc': nat, accLen': nat)
    requires Bits(acc, accLen) && 8 * binPos + accLen + 6 <= 8 * bin.Length
    modifies bin
    ensures
      var t := Turn(acc, accLen, x);
      && binPos' == binPos + |t.out| <= bin.Length && acc' == t.acc && accLen' == t.accLen
      && bin[..binPos'] == old(bin[..binPos]) + t.out
  {
    binPos', acc', accLen' := binPos, acc * 64 + x, accLen + 6;
    ShiftsOfTurn(acc, accLen, x);
    if accLen' >= 8 {
      accLen' := accLen' - 8;
      bin[binPos'] := High(acc', accLen');
      acc' := Low(acc', accLen');
      binPos' := binPos' + 1;
    }
  }

  lemma ShiftsOfTurn(acc: nat, accLen: nat, x: sextet)
    requires Bits(acc, accLen)
    ensures
      var t, a := Turn(acc, accLen, x), acc * 64 + x;
      if accLen == 0 then t == Progress([], a, 6)
      else t == Progress([High(a, accLen - 2)], Low(a, accLen - 2), accLen - 2)
  {
  }

  /** The buffer the decoder allocates holds what any accepted text of that length decodes to. */
  lemma DecodedFits(v: Variant, text: string)
    requires Decoded(v, text).Ok?
    ensures |Decoded(v, text).value| <= (|text| + 3) / 4 * 3
  {
    EncodeDecode(v, text);
  }
}
