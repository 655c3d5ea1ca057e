/** The secretstream state machine: tags, the cipher it drives, and the two ends of a stream. */
module SecretStream {
  import opened Bytes

  const HEADERBYTES: nat := 24
  const ABYTES: nat := 17

  const TAG_MESSAGE: byte := 0
  const TAG_PUSH: byte := 1
  const TAG_REKEY: byte := 2
  const TAG_FINAL: byte := 3

  datatype Tag = Message | Push | Rekey | Final {

    static function FromU8(tag: byte): Result<Tag> {
      if tag == TAG_MESSAGE then Ok(Message)
      else if tag == TAG_PUSH then Ok(Push)
      else if tag == TAG_REKEY then Ok(Rekey)
      else if tag == TAG_FINAL then Ok(Final)
      else Err
    }

    /** `tag as u8`: the discriminant, that is, the position in the declaration. */
    function AsU8(): byte {
      match this
      case Message => 0
      case Push => 1
      case Rekey => 2
      case Final => 3
    }
  }

  /** The two conversions undo each other, and the bytes outside 0..3 are exactly the unknown ones. */
  lemma TagRoundTrip(tag: Tag, b: byte)
    ensures Tag.FromU8(tag.AsU8()) == Ok(tag)
    ensures Tag.FromU8(b).Ok? ==> Tag.FromU8(b).value.AsU8() == b
    ensures Tag.FromU8(b).Err? <==> b > TAG_FINAL
    ensures tag.AsU8() < 4 && [Message, Push, Rekey, Final][tag.AsU8()] == tag
    ensures Tag.FromU8(b) == if b < 4 then Ok([Message, Push, Rekey, Final][b]) else Err
  {
  }

  // ---------------------------------------------------------------------------------------------
  // The foreign cipher
  // ---------------------------------------------------------------------------------------------

  /** The foreign functions, as uninterpreted functions of the cipher state. A `None` stands for a
      non-zero return code; `afterSeal` and `afterOpen` give the state the call leaves behind. */
  datatype Primitive<!S> = Primitive(
    messageBytesMax: nat,
    initPush: (seq<byte>, seq<byte>) -> Option<(S, seq<byte>)>,     // key, random bytes
    initPull: (seq<byte>, seq<byte>) -> Option<S>,                  // header, key
    seal: (S, seq<byte>, seq<byte>, byte) -> Option<seq<byte>>,     // message, additional data, tag
    afterSeal: (S, seq<byte>, seq<byte>, byte) -> S,
    open: (S, seq<byte>, seq<byte>) -> Option<(seq<byte>, byte)>,   // ciphertext, additional data
    afterOpen: (S, seq<byte>, seq<byte>) -> S,
    rekey: S -> S
  )

  ghost predicate InitLaw<S>(p: Primitive<S>, key: seq<byte>, random: seq<byte>) {
    var r := p.initPush(key, random);
    r.Some? ==> |r.value.1| == HEADERBYTES && p.initPull(r.value.1, key) == Some(r.value.0)
  }

  /** Sealing adds ABYTES, is undone by opening in the same state, and moves both ends alike. */
  ghost predicate SealLaw<S>(p: Primitive<S>, s: S, m: seq<byte>, a: seq<byte>, t: byte) {
    match p.seal(s, m, a, t)
    case Some(c) =>
      && |c| == |m| + ABYTES
      && p.open(s, c, a) == Some((m, t))
      && p.afterOpen(s, c, a) == p.afterSeal(s, m, a, t)
    case None => p.afterSeal(s, m, a, t) == s
  }

  /** A failed opening changes nothing; a successful one removes ABYTES. */
  ghost predicate OpenLaw<S>(p: Primitive<S>, s: S, c: seq<byte>, a: seq<byte>) {
    match p.open(s, c, a)
    case Some(mt) => |c| == |mt.0| + ABYTES
    case None => p.afterOpen(s, c, a) == s
  }

  ghost predicate Lawful<S(!new)>(p: Primitive<S>) {
    && p.messageBytesMax + ABYTES <= USIZE_MAX
    && (forall key, random :: InitLaw(p, key, random))
    && (forall s, m, a, t :: SealLaw(p, s, m, a, t))
    && (forall s, c, a :: OpenLaw(p, s, c, a))
  }

  /** An absent slice is passed to C as a null pointer with length 0. */
  function AdBytes(ad: Option<seq<byte>>): seq<byte> {
    if ad.Some? then ad.value else []
  }

  // ---------------------------------------------------------------------------------------------
  // One step, on values
  // ---------------------------------------------------------------------------------------------

  datatype StreamState<S> = StreamState(cipher: S, finalized: bool)

  function RekeyStep<S>(p: Primitive<S>, st: StreamState<S>): (Result<()>, StreamState<S>) {
    if st.finalized then (Err, st) else (Ok(()), st.(cipher := p.rekey(st.cipher)))
  }

  /** A push that encrypts into a fresh vector. */
  function PushStep<S>(p: Primitive<S>, st: StreamState<S>, m: seq<byte>, ad: Option<seq<byte>>, tag: Tag)
    : (Result<seq<byte>>, StreamState<S>)
  {
    if st.finalized || |m| > p.messageBytesMax then (Err, st)
    else
      var st' := StreamState(p.afterSeal(st.cipher, m, AdBytes(ad), tag.AsU8()), tag == Final);
      match p.seal(st.cipher, m, AdBytes(ad), tag.AsU8())
      case None => (Err, st')
      case Some(c) => (Ok(c), st')
  }

  /** A pull that decrypts into a fresh vector. */
  function PullStep<S>(p: Primitive<S>, st: StreamState<S>, c: seq<byte>, ad: Option<seq<byte>>)
    : (Result<(seq<byte>, Tag)>, StreamState<S>)
  {
    if st.finalized || |c| < ABYTES || |c| - ABYTES > p.messageBytesMax then (Err, st)
    else
      var st' := st.(cipher := p.afterOpen(st.cipher, c, AdBytes(ad)));
      match p.open(st.cipher, c, AdBytes(ad))
      case None => (Err, st')
      case Some((m, t)) =>
        match Tag.FromU8(t)
        case Err => (Err, st')
        case Ok(tag) => (Ok((m, tag)), st'.(finalized := tag == Final))
  }

  /** What a caller-supplied vector holds after `push_to_vec`. */
  function PushOut<S>(p: Primitive<S>, st: StreamState<S>, m: seq<byte>, ad: Option<seq<byte>>, tag: Tag, out: seq<byte>)
    : seq<byte>
  {
    if st.finalized || |m| > p.messageBytesMax then out           // failed check: left as it was
    else
      match p.seal(st.cipher, m, AdBytes(ad), tag.AsU8())
      case None => []                                             // failed cipher: cleared
      case Some(c) => c
  }

  /** What a caller-supplied vector holds after `pull_to_vec`. A record whose tag byte is unknown
      fails, but its plaintext is already in the vector. */
  function PullOut<S>(p: Primitive<S>, st: StreamState<S>, c: seq<byte>, ad: Option<seq<byte>>, out: seq<byte>)
    : seq<byte>
  {
    if st.finalized || |c| < ABYTES || |c| - ABYTES > p.messageBytesMax then out
    else
      match p.open(st.cipher, c, AdBytes(ad))
      case None => []
      case Some((m, _)) => m
  }

  /** The check a pull makes before it calls the cipher. */
  predicate Pullable<S>(p: Primitive<S>, st: StreamState<S>, c: seq<byte>) {
    !st.finalized && ABYTES <= |c| && |c| - ABYTES <= p.messageBytesMax
  }

  /** When a push succeeds, and what it does. It succeeds if and only if the stream is open, the message is
      within the limit and the cipher seals it; the result is that ciphertext. No additional data is the
      empty additional data. Passing the check moves the cipher, and closes the stream on the final tag. */
  lemma PushOutcome<S>(p: Primitive<S>, st: StreamState<S>, m: seq<byte>, ad: Option<seq<byte>>, tag: Tag, out: seq<byte>)
    ensures
      var a: seq<byte> := match ad case None => [] case Some(bytes) => bytes;
      var t: byte := match tag case Message => 0 case Push => 1 case Rekey => 2 case Final => 3;
      var sealed := p.seal(st.cipher, m, a, t);
      var (r, st') := PushStep(p, st, m, ad, tag);
      var kept := PushOut(p, st, m, ad, tag, out);
      && (r.Ok? <==> !st.finalized && |m| <= p.messageBytesMax && sealed.Some?)
      && (r.Ok? ==> r.value == sealed.value && kept == sealed.value)
      && (st.finalized || |m| > p.messageBytesMax ==> st' == st && kept == out)
      && (!st.finalized && |m| <= p.messageBytesMax ==>
            st' == StreamState(p.afterSeal(st.cipher, m, a, t), tag == Final) && (sealed.None? ==> kept == []))
  {
  }

  /** When a pull succeeds, and what it then does. */
  lemma PullOutcome<S>(p: Primitive<S>, st: StreamState<S>, c: seq<byte>, ad: Option<seq<byte>>, out: seq<byte>)
    ensures
      var a: seq<byte> := match ad case None => [] case Some(bytes) => bytes;
      var opened' := p.open(st.cipher, c, a);
      var (r, st') := PullStep(p, st, c, ad);
      && (r.Ok? <==>
            !st.finalized && 17 <= |c| && |c| - 17 <= p.messageBytesMax && opened'.Some? && opened'.value.1 < 4)
      && (r.Ok? ==>
            && r.value == (opened'.value.0, [Message, Push, Rekey, Final][opened'.value.1])
            && st' == StreamState(p.afterOpen(st.cipher, c, a), opened'.value.1 == 3)
            && PullOut(p, st, c, ad, out) == opened'.value.0)
  {
  }

  /** When a pull fails, and what a failed pull leaves behind: nothing changes on a failed check; a
      rejected ciphertext empties a recycled vector; an authentic record with an unknown tag byte moves
      the cipher, keeps the stream open and leaves its plaintext in the vector. */
  lemma FailedPull<S(!new)>(p: Primitive<S>, st: StreamState<S>, c: seq<byte>, ad: Option<seq<byte>>, out: seq<byte>)
    requires Lawful(p)
    ensures
      var a: seq<byte> := match ad case None => [] case Some(bytes) => bytes;
      var opened' := p.open(st.cipher, c, a);
      var (r, st') := PullStep(p, st, c, ad);
      var kept := PullOut(p, st, c, ad, out);
      && (r.Err? <==> Pullable(p, st, c) ==> opened'.None? || opened'.value.1 > 3)
      && (!Pullable(p, st, c) ==> st' == st && kept == out)
      && (Pullable(p, st, c) && opened'.None? ==> st' == st && kept == [] && (kept == out <==> out == []))
      && (Pullable(p, st, c) && opened'.Some? && opened'.value.1 > 3 ==>
            st' == StreamState(p.afterOpen(st.cipher, c, a), false) && kept == opened'.value.0)
      && (r.Err? && st' != st ==> Pullable(p, st, c) && opened'.Some? && opened'.value.1 > 3)
  {
    assert OpenLaw(p, st.cipher, c, AdBytes(ad));
    match p.open(st.cipher, c, AdBytes(ad)) {
      case None =>
      case Some((m, t)) => TagRoundTrip(Message, t);
    }
  }

  // ---------------------------------------------------------------------------------------------
  // The stream itself
  // ---------------------------------------------------------------------------------------------

  /** A Rust vector: `buf.Length` is the capacity, the first `len` bytes are visible. */
  class Vec {
    var buf: array<byte>
    var len: nat

    ghost predicate Valid()
      reads this
    {
      len <= buf.Length
    }

    ghost function Contents(): seq<byte>
      requires Valid()
      reads this, buf
    {
      buf[..len]
    }

    constructor WithCapacity(capacity: nat)
      ensures Valid() && fresh(buf)
      ensures len == 0 && buf.Length >= capacity
    {
      buf := new byte[capacity](_ => 0);
      len := 0;
    }

    method Clear()
      requires Valid()
      modifies this`len
      ensures Valid() && Contents() == []
    {
      len := 0;
    }

    method Reserve(additional: nat)
      requires Valid()
      modifies this`buf
      ensures Valid() && Contents() == old(Contents())
      ensures buf == old(buf) || fresh(buf)
      ensures buf.Length >= len + additional
    {
      if buf.Length < len + additional {
        var old' := buf;
        buf := new byte[len + additional](i requires 0 <= i reads this, old' =>
          if i < len && i < old'.Length then old'[i] else 0);
      }
    }

    /** The bytes a foreign function writes through the vector's pointer: within its capacity. */
    method WriteRaw(data: seq<byte>)
      requires |data| <= buf.Length
      modifies buf
      ensures buf[..|data|] == data
    {
      for i := 0 to |data|
        invariant buf[..i] == data[..i]
      {
        buf[i] := data[i];
      }
    }

    /** `Vec::set_len`, whose safety condition is the precondition. */
    method SetLen(n: nat)
      requires n <= buf.Length
      modifies this`len
      ensures Valid() && len == n
    {
      len := n;
    }
  }

  /** One end of a stream. The type-level push/pull mode is not represented. */
  class Stream<S(!new)> {
    const prim: Primitive<S>
    var state: S
    var finalized: bool

    function View(): StreamState<S>
      reads this
    {
      StreamState(state, finalized)
    }

    constructor (prim: Primitive<S>, state: S)
      ensures this.prim == prim && View() == StreamState(state, false)
    {
      this.prim, this.state, this.finalized := prim, state, false;
    }

    static method InitPush(p: Primitive<S>, key: seq<byte>, random: seq<byte>)
      returns (r: Result<(Stream<S>, seq<byte>)>)
      requires Lawful(p)
      ensures r.Ok? <==> p.initPush(key, random).Some?
      ensures r.Ok? ==>
        && fresh(r.value.0) && r.value.0.prim == p && !r.value.0.finalized
        && p.initPush(key, random) == Some((r.value.0.state, r.value.1))
        && |r.value.1| == 24
        && p.initPull(r.value.1, key) == Some(r.value.0.state)
    {
      assert InitLaw(p, key, random);
      match p.initPush(key, random) {
        case None => return Err;
        case Some((state, header)) =>
          var stream := new Stream(p, state);
          return Ok((stream, header));
      }
    }

    static method InitPull(p: Primitive<S>, header: seq<byte>, key: seq<byte>) returns (r: Result<Stream<S>>)
      ensures r.Ok? <==> p.initPull(header, key).Some?
      ensures r.Ok? ==>
        fresh(r.value) && r.value.prim == p && r.value.View() == StreamState(p.initPull(header, key).value, false)
    {
      match p.initPull(header, key) {
        case None => return Err;
        case Some(state) =>
          var stream := new Stream(p, state);
          return Ok(stream);
      }
    }

    method Rekey() returns (r: Result<()>)
      modifies this`state
      ensures (r, View()) == RekeyStep(prim, old(View()))
      ensures r.Ok? <==> !old(finalized)
      ensures state == if old(finalized) then old(state) else prim.rekey(old(state))
    {
      if finalized {
        return Err;
      }
      state := prim.rekey(state);
      return Ok(());
    }

    /** The sum of lengths does not overflow. */
    method PushCheck(m: seq<byte>, tag: Tag) returns (r: Result<nat>)
      requires Lawful(prim)
      modifies this`finalized
      ensures r.Ok? ==> r.value <= USIZE_MAX
      ensures r == if old(finalized) || |m| > prim.messageBytesMax then Err else Ok(|m| + 17)
      ensures finalized == (old(finalized) || (r.Ok? && tag == Final))
    {
      if finalized {
        return Err;
      }
      if |m| > prim.messageBytesMax {
        return Err;
      }
      if tag == Final {
        finalized := true;
      }
      return Ok(|m| + ABYTES);
    }

    method PushImpl(m: seq<byte>, ad: Option<seq<byte>>, tag: Tag, buf: Vec) returns (r: Result<()>)
      requires Lawful(prim)
      requires buf.Valid() && buf.len == 0 && |m| + ABYTES <= buf.buf.Length
      modifies this`state, buf`len, buf.buf
      ensures buf.Valid()
      ensures state == prim.afterSeal(old(state), m, AdBytes(ad), tag.AsU8())
      ensures match prim.seal(old(state), m, AdBytes(ad), tag.AsU8())
              case None => r == Err && buf.Contents() == []
              case Some(c) => r == Ok(()) && buf.Contents() == c
    {
      var sealed := prim.seal(state, m, AdBytes(ad), tag.AsU8());
      assert SealLaw(prim, state, m, AdBytes(ad), tag.AsU8());
      state := prim.afterSeal(state, m, AdBytes(ad), tag.AsU8());
      if sealed.None? {
        return Err;
      }
      buf.WriteRaw(sealed.value);
      buf.SetLen(|sealed.value|);
      return Ok(());
    }

    method Push(m: seq<byte>, ad: Option<seq<byte>>, tag: Tag) returns (r: Result<seq<byte>>)
      requires Lawful(prim)
      modifies this
      ensures (r, View()) == PushStep(prim, old(View()), m, ad, tag)
    {
      var check := PushCheck(m, tag);
      if check.Err? {
        return Err;
      }
      var buf := new Vec.WithCapacity(check.value);
      var done := PushImpl(m, ad, tag, buf);
      if done.Err? {
        return Err;
      }
      return Ok(buf.buf[..buf.len]);
    }

    method PushToVec(m: seq<byte>, ad: Option<seq<byte>>, tag: Tag, out: Vec) returns (r: Result<()>)
      requires Lawful(prim) && out.Valid()
      modifies this, out, out.buf
      ensures out.Valid() && (out.buf == old(out.buf) || fresh(out.buf))
      ensures View() == PushStep(prim, old(View()), m, ad, tag).1
      ensures r.Ok? <==> PushStep(prim, old(View()), m, ad, tag).0.Ok?
      ensures r.Ok? ==> PushStep(prim, old(View()), m, ad, tag).0 == Ok(out.Contents())
      ensures out.Contents() == PushOut(prim, old(View()), m, ad, tag, old(out.Contents()))
    {
      var check := PushCheck(m, tag);
      if check.Err? {
        return Err;
      }
      out.Clear();
      out.Reserve(check.value);
      r := PushImpl(m, ad, tag, out);
    }

    /** Consumes the stream in Rust: afterwards nothing can call it. */
    method Finalize(ad: Option<seq<byte>>) returns (r: Result<seq<byte>>)
      requires Lawful(prim)
      modifies this
      ensures (r, View()) == PushStep(prim, old(View()), [], ad, Final)
      ensures finalized
    {
      r := Push([], ad, Final);
    }

    function PullCheck(c: seq<byte>): (r: Result<nat>)
      reads this
      ensures r.Ok? <==> Pullable(prim, View(), c)
      ensures r.Ok? ==> |c| == r.value + 17
    {
      if finalized then Err
      else if |c| < ABYTES then Err
      else if |c| - ABYTES > prim.messageBytesMax then Err
      else Ok(|c| - ABYTES)
    }

    method PullImpl(c: seq<byte>, ad: Option<seq<byte>>, buf: Vec) returns (r: Result<Tag>)
      requires Lawful(prim) && !finalized
      requires buf.Valid() && buf.len == 0 && ABYTES <= |c| && |c| - ABYTES <= buf.buf.Length
      modifies this, buf`len, buf.buf
      ensures buf.Valid()
      ensures state == prim.afterOpen(old(state), c, AdBytes(ad))
      ensures finalized == (r == Ok(Final))
      ensures match prim.open(old(state), c, AdBytes(ad))
              case None => r == Err && buf.Contents() == []
              case Some((m, t)) => r == Tag.FromU8(t) && buf.Contents() == m
    {
      var opened' := prim.open(state, c, AdBytes(ad));
      assert OpenLaw(prim, state, c, AdBytes(ad));
      state := prim.afterOpen(state, c, AdBytes(ad));
      if opened'.None? {
        return Err;
      }
      var (m, t) := opened'.value;
      buf.WriteRaw(m);
      buf.SetLen(|m|);
      var tag := Tag.FromU8(t);
      if tag.Err? {
        return Err;
      }
      if tag.value == Final {
        finalized := true;
      }
      return tag;
    }

    method Pull(c: seq<byte>, ad: Option<seq<byte>>) returns (r: Result<(seq<byte>, Tag)>)
      requires Lawful(prim)
      modifies this
      ensures (r, View()) == PullStep(prim, old(View()), c, ad)
    {
      var check := PullCheck(c);
      if check.Err? {
        return Err;
      }
      var buf := new Vec.WithCapacity(check.value);
      var tag := PullImpl(c, ad, buf);
      if tag.Err? {
        return Err;
      }
      return Ok((buf.buf[..buf.len], tag.value));
    }

    method PullToVec(c: seq<byte>, ad: Option<seq<byte>>, out: Vec) returns (r: Result<Tag>)
      requires Lawful(prim) && out.Valid()
      modifies this, out, out.buf
      ensures out.Valid() && (out.buf == old(out.buf) || fresh(out.buf))
      ensures View() == PullStep(prim, old(View()), c, ad).1
      ensures r.Ok? <==> PullStep(prim, old(View()), c, ad).0.Ok?
      ensures r.Ok? ==> PullStep(prim, old(View()), c, ad).0 == Ok((out.Contents(), r.value))
      ensures out.Contents() == PullOut(prim, old(View()), c, ad, old(out.Contents()))
    {
      var check := PullCheck(c);
      if check.Err? {
        return Err;
      }
      out.Clear();
      out.Reserve(check.value);
      r := PullImpl(c, ad, out);
    }
  }
}
