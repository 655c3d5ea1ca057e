/** Fixed-length byte types: construction, serialization and nonce increments. */
module Newtype {
  import opened Bytes
  import LittleEndian

  /** One key, tag, digest or nonce type of the macro: `bytes.Length` is its declared length. */
  class Newtype {
    const bytes: array<byte>

    constructor (length: nat)
      ensures fresh(bytes) && bytes[..] == Zeros(length)
    {
      bytes := new byte[length](_ => 0);
    }

    /** What `serialize` hands to the serializer. */
    function Serialized(): seq<byte>
      reads bytes
    {
      bytes[..]
    }

    static method FromSlice(bs: seq<byte>, length: nat) returns (r: Option<Newtype>)
      ensures r.Some? <==> |bs| == length
      ensures r.Some? ==> fresh(r.value) && fresh(r.value.bytes) && r.value.Serialized() == bs
    {
      if |bs| != length {
        return None;
      }
      var n := new Newtype(length);
      for i := 0 to length
        invariant n.bytes[..i] == bs[..i]
        invariant n.bytes.Length == length
        modifies n.bytes
      {
        n.bytes[i] := bs[i];
      }
      return Some(n);
    }

    static method VisitBytes(v: seq<byte>, length: nat) returns (r: Result<Newtype>)
      ensures r.Ok? <==> VisitedBytes(v, length).Ok?
      ensures r.Ok? <==> |v| == length
      ensures r.Ok? ==> fresh(r.value) && fresh(r.value.bytes) && r.value.Serialized() == VisitedBytes(v, length).value
    {
      var n := FromSlice(v, length);
      match n {
        case None => return Err;
        case Some(value) => return Ok(value);
      }
    }

    /** Reads one element per byte of the type. `elements` is what the sequence will yield: an `Err` is
        passed on, an exhausted sequence leaves the remaining bytes zero, a longer one is cut short. */
    static method VisitSeq(elements: seq<Result<byte>>, length: nat) returns (r: Result<Newtype>)
      ensures r.Ok? <==> VisitedSeq(elements, length).Ok?
      ensures r.Ok? ==> fresh(r.value) && fresh(r.value.bytes) && r.value.Serialized() == VisitedSeq(elements, length).value
    {
      var res := new Newtype(length);
      var pos := 0;
      for i := 0 to length
        invariant pos == if i < |elements| then i else |elements|
        invariant forall k :: 0 <= k < pos ==> elements[k].Ok?
        invariant res.bytes.Length == length
        invariant forall k :: 0 <= k < length ==>
          res.bytes[k] == if k < i && k < |elements| then elements[k].value else 0
        modifies res.bytes
      {
        if pos < |elements| {
          var next := elements[pos];
          pos := pos + 1;
          if next.Err? {
            assert !AllOk(elements, length) by { assert elements[i].Err?; }
            return Err;
          }
          res.bytes[i] := next.value;
        }
      }
      assert AllOk(elements, length);
      return Ok(res);
    }

    method IncrementLeInplace()
      modifies bytes
      ensures Serialized() == LittleEndian.Plus(old(Serialized()), 1)
    {
      LittleEndian.IncrementLe(bytes);
    }

    method IncrementLe() returns (res: Newtype)
      ensures fresh(res) && fresh(res.bytes)
      ensures res.Serialized() == LittleEndian.Plus(Serialized(), 1)
      ensures Serialized() == old(Serialized())
    {
      var copy := FromSlice(bytes[..], bytes.Length);
      res := copy.value;
      res.IncrementLeInplace();
    }
  }

  /** None of the elements the visitor asks for is an error. */
  predicate AllOk(elements: seq<Result<byte>>, length: nat) {
    forall i :: 0 <= i < |elements| && i < length ==> elements[i].Ok?
  }

  function VisitedSeq(elements: seq<Result<byte>>, length: nat): (r: Result<seq<byte>>)
    ensures r.Ok? ==> |r.value| == length
  {
    if AllOk(elements, length) then
      Ok(seq(length, i requires 0 <= i < length => if i < |elements| then elements[i].value else 0))
    else Err
  }

  /** The visitor fails if and only if one of the first `length` elements is an error; otherwise byte `i` is
      element `i`, or zero where there is none. */
  lemma SeqOutcome(elements: seq<Result<byte>>, length: nat)
    ensures VisitedSeq(elements, length).Err? <==>
            exists i :: 0 <= i < |elements| && i < length && elements[i] == Err
    ensures VisitedSeq(elements, length).Ok? ==>
            forall i :: 0 <= i < length ==>
              (if i < |elements| then elements[i] == Ok(VisitedSeq(elements, length).value[i])
               else VisitedSeq(elements, length).value[i] == 0)
  {
    if VisitedSeq(elements, length).Err? {
      var i :| 0 <= i < |elements| && i < length && !elements[i].Ok?;
      assert elements[i] == Err;
    }
  }

  function VisitedBytes(v: seq<byte>, length: nat): Result<seq<byte>> {
    if |v| == length then Ok(v) else Err
  }

  /** A byte string, given to the visitor element by element. */
  function Elements(v: seq<byte>): seq<Result<byte>> {
    seq(|v|, i requires 0 <= i < |v| => Ok(v[i]))
  }

  /** Element by element, every byte string is accepted: short ones are padded with zeros and long ones
      cut, so the two visitors agree exactly on strings of the right length, where both undo
      `serialize`. */
  lemma VisitorsAgree(v: seq<byte>, length: nat)
    ensures VisitedSeq(Elements(v), length)
         == Ok(if |v| <= length then v + Zeros(length - |v|) else v[..length])
    ensures VisitedSeq(Elements(v), length) == VisitedBytes(v, length) <==> |v| == length
    ensures |v| == length ==> VisitedSeq(Elements(v), length) == VisitedBytes(v, length) == Ok(v)
  {
    var r := VisitedSeq(Elements(v), length);
    assert r.value == if |v| <= length then v + Zeros(length - |v|) else v[..length];
    if |v| == length {
      assert r.value == v;
    }
  }
}
