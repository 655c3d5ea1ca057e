/** Whole runs of the two ends of a stream: what was sent, what is delivered, and lockstep. */
module SecretStreamRuns {
  import opened Bytes
  import opened SecretStream

  // ---------------------------------------------------------------------------------------------
  // Traces: the state-changing events of one end
  // ---------------------------------------------------------------------------------------------

  /** A record (ciphertext, additional data, message, tag byte) or an explicit rekeying. */
  datatype Event = Record(c: seq<byte>, a: seq<byte>, m: seq<byte>, t: byte) | Rekeyed

  function Next<S>(p: Primitive<S>, s: S, e: Event): S {
    match e
    case Record(c, a, _, _) => p.afterOpen(s, c, a)
    case Rekeyed => p.rekey(s)
  }

  function After<S>(p: Primitive<S>, s: S, es: seq<Event>): S {
    if es == [] then s else After(p, Next(p, s, es[0]), es[1..])
  }

  /** Every record was sealed by the cipher in the state the trace had then reached. The tag bytes
      are arbitrary: the sealing end need not be this library. */
  ghost predicate Authentic<S>(p: Primitive<S>, s: S, es: seq<Event>) {
    es != [] ==>
      && (es[0].Record? ==>
            |es[0].m| <= p.messageBytesMax && p.seal(s, es[0].m, es[0].a, es[0].t) == Some(es[0].c))
      && Authentic(p, Next(p, s, es[0]), es[1..])
  }

  predicate IsFinal(e: Event) {
    e.Record? && e.t == TAG_FINAL
  }

  predicate HasFinal(es: seq<Event>) {
    exists i :: 0 <= i < |es| && IsFinal(es[i])
  }

  /** The messages a receiver may see: records with a known tag, up to the first final one. */
  function Deliverable(es: seq<Event>): seq<(seq<byte>, Tag)> {
    if es == [] then []
    else if es[0].Record? && Tag.FromU8(es[0].t).Ok? then
      [(es[0].m, Tag.FromU8(es[0].t).value)] + (if IsFinal(es[0]) then [] else Deliverable(es[1..]))
    else Deliverable(es[1..])
  }

  /** The trace cut after its first final record. */
  function ThroughFinal(es: seq<Event>): seq<Event> {
    if es == [] then [] else if IsFinal(es[0]) then [es[0]] else [es[0]] + ThroughFinal(es[1..])
  }

  lemma {:induction false} AfterAppend<S>(p: Primitive<S>, s: S, xs: seq<Event>, ys: seq<Event>)
    ensures After(p, s, xs + ys) == After(p, After(p, s, xs), ys)
  {
    if xs == [] {
      assert xs + ys == ys;
    } else {
      assert (xs + ys)[1..] == xs[1..] + ys;
      AfterAppend(p, Next(p, s, xs[0]), xs[1..], ys);
    }
  }

  lemma {:induction false} AuthenticAt<S>(p: Primitive<S>, s: S, es: seq<Event>, i: nat)
    requires Authentic(p, s, es) && i < |es| && es[i].Record?
    ensures p.seal(After(p, s, es[..i]), es[i].m, es[i].a, es[i].t) == Some(es[i].c)
  {
    if i > 0 {
      AuthenticAt(p, Next(p, s, es[0]), es[1..], i - 1);
      assert es[..i][1..] == es[1..][..i - 1];
    }
  }

  /** A prefix of a trace delivers a prefix of the messages, and all of them once it has a final record. */
  lemma {:induction false} DeliverablePrefix(es: seq<Event>, k: nat)
    requires k <= |es|
    ensures Deliverable(es[..k]) <= Deliverable(es)
    ensures HasFinal(es[..k]) ==> Deliverable(es[..k]) == Deliverable(es)
  {
    if k > 0 {
      assert es[..k][1..] == es[1..][..k - 1];
      DeliverablePrefix(es[1..], k - 1);
      if HasFinal(es[..k]) && !IsFinal(es[0]) {
        var i :| 0 <= i < k && IsFinal(es[..k][i]);
        assert IsFinal(es[1..][..k - 1][i - 1]);
      }
    }
  }

  // ---------------------------------------------------------------------------------------------
  // Runs of the pushing end
  // ---------------------------------------------------------------------------------------------

  /** A stream end together with the one output vector its caller keeps reusing. */
  datatype Session<S> = Session(stream: StreamState<S>, out: seq<byte>)

  datatype PushOp =
    | DoPush(m: seq<byte>, ad: Option<seq<byte>>, tag: Tag, recycle: bool)
    | PushRekey

  /** One call: `push`, `push_to_vec` (when `recycle`) or `rekey`. */
  function PushCall<S>(p: Primitive<S>, ss: Session<S>, op: PushOp): (Result<seq<byte>>, Session<S>) {
    match op
    case PushRekey =>
      var (r, st) := RekeyStep(p, ss.stream);
      (if r.Ok? then Ok([]) else Err, ss.(stream := st))
    case DoPush(m, ad, tag, recycle) =>
      var (r, st) := PushStep(p, ss.stream, m, ad, tag);
      if !recycle then (r, ss.(stream := st))
      else
        var out := PushOut(p, ss.stream, m, ad, tag, ss.out);
        (if r.Ok? then Ok(out) else Err, Session(st, out))
  }

  function PushRun<S>(p: Primitive<S>, ss: Session<S>, ops: seq<PushOp>): (run: (seq<Result<seq<byte>>>, Session<S>))
    ensures |run.0| == |ops|
    decreases ops
  {
    if ops == [] then ([], ss)
    else
      var (r, ss') := PushCall(p, ss, ops[0]);
      var (rs, ss'') := PushRun(p, ss', ops[1..]);
      ([r] + rs, ss'')
  }

  /** The events a run of the pushing end produced, from the results its caller saw. */
  function Sent(ops: seq<PushOp>, rs: seq<Result<seq<byte>>>): seq<Event>
    requires |ops| == |rs|
  {
    if ops == [] then [] else SentBy(ops[0], rs[0]) + Sent(ops[1..], rs[1..])
  }

  function SentBy(op: PushOp, r: Result<seq<byte>>): seq<Event> {
    match (op, r)
    case (_, Err) => []
    case (PushRekey, Ok(_)) => [Rekeyed]
    case (DoPush(m, ad, tag, _), Ok(c)) => [Record(c, AdBytes(ad), m, tag.AsU8())]
  }

  /** The messages and tags whose push succeeded, in order. */
  function Pushed(ops: seq<PushOp>, rs: seq<Result<seq<byte>>>): seq<(seq<byte>, Tag)>
    requires |ops| == |rs|
  {
    if ops == [] then []
    else
      (if ops[0].DoPush? && rs[0].Ok? then [(ops[0].m, ops[0].tag)] else []) + Pushed(ops[1..], rs[1..])
  }

  /** A final-tagged push that passes the check, but whose record the cipher refuses to seal. */
  predicate RefusesFinal<S>(p: Primitive<S>, s: S, op: PushOp) {
    && op.DoPush? && op.tag == Final && |op.m| <= p.messageBytesMax
    && p.seal(s, op.m, AdBytes(op.ad), TAG_FINAL).None?
  }

  /** Somewhere in the run an open stream met such a push: it is closed, yet nothing was sent. */
  ghost predicate FinalLost<S>(p: Primitive<S>, ss: Session<S>, ops: seq<PushOp>)
    decreases ops
  {
    ops != [] && !ss.stream.finalized &&
    (RefusesFinal(p, ss.stream.cipher, ops[0]) || FinalLost(p, PushCall(p, ss, ops[0]).1, ops[1..]))
  }

  lemma PushCallSends<S(!new)>(p: Primitive<S>, ss: Session<S>, op: PushOp)
    requires Lawful(p) && !ss.stream.finalized
    ensures
      var (r, ss') := PushCall(p, ss, op);
      var sent := SentBy(op, r);
      && |sent| == (if r.Ok? then 1 else 0)
      && Authentic(p, ss.stream.cipher, sent)
      && ss'.stream.cipher == After(p, ss.stream.cipher, sent)
      && (r.Ok? ==> (ss'.stream.finalized <==> IsFinal(sent[0])))
      && (r.Err? ==> (ss'.stream.finalized <==> RefusesFinal(p, ss.stream.cipher, op)))
      && (r.Ok? ==> !RefusesFinal(p, ss.stream.cipher, op))
      && (r.Ok? && op.DoPush? ==> sent[0].m == op.m && Tag.FromU8(sent[0].t) == Ok(op.tag))
  {
    if op.DoPush? {
      assert SealLaw(p, ss.stream.cipher, op.m, AdBytes(op.ad), op.tag.AsU8());
      TagRoundTrip(op.tag, 0);
    }
  }

  /** What a run of pushes, recycled pushes and rekeyings sends: an authentic trace that leads to the
      cipher state the stream is in, carrying exactly the pushed messages; the stream ends up closed
      exactly if it sent a final record or lost one in the cipher. */
  lemma {:induction false} PushRunSends<S(!new)>(p: Primitive<S>, ss: Session<S>, ops: seq<PushOp>)
    requires Lawful(p) && !ss.stream.finalized
    ensures
      var (rs, ss') := PushRun(p, ss, ops);
      var sent := Sent(ops, rs);
      && Authentic(p, ss.stream.cipher, sent)
      && ss'.stream.cipher == After(p, ss.stream.cipher, sent)
      && Deliverable(sent) == Pushed(ops, rs)
      && ThroughFinal(sent) == sent
      && (ss'.stream.finalized <==> HasFinal(sent) || FinalLost(p, ss, ops))
      && !(HasFinal(sent) && FinalLost(p, ss, ops))
    decreases ops
  {
    if ops != [] {
      var (r, ss1) := PushCall(p, ss, ops[0]);
      PushCallSends(p, ss, ops[0]);
      var (rs, ss') := PushRun(p, ss1, ops[1..]);
      if ss1.stream.finalized {
        FinalizedPush(p, ss1, ops[1..]);
        NothingSent(ops[1..], rs);
      } else {
        PushRunSends(p, ss1, ops[1..]);
      }
      assert ([r] + rs)[1..] == rs;
      var sent, rest := Sent(ops, [r] + rs), Sent(ops[1..], rs);
      if r.Ok? {
        assert sent[0] == SentBy(ops[0], r)[0] && sent[1..] == rest;
        HasFinalTail(sent);
      } else {
        assert sent == rest;
      }
    }
  }

  /** Once closed, always closed: every later call fails and changes nothing at all. */
  lemma {:induction false} FinalizedPush<S>(p: Primitive<S>, ss: Session<S>, ops: seq<PushOp>)
    requires ss.stream.finalized
    ensures forall i :: 0 <= i < |ops| ==> PushRun(p, ss, ops).0[i] == Err
    ensures PushRun(p, ss, ops).1 == ss
    ensures !FinalLost(p, ss, ops)
  {
    if ops != [] {
      FinalizedPush(p, ss, ops[1..]);
    }
  }

  lemma {:induction false} NothingSent(ops: seq<PushOp>, rs: seq<Result<seq<byte>>>)
    requires |ops| == |rs| && forall i :: 0 <= i < |rs| ==> rs[i] == Err
    ensures Sent(ops, rs) == [] && Pushed(ops, rs) == []
  {
    if ops != [] {
      NothingSent(ops[1..], rs[1..]);
    }
  }

  /** A final-tagged push that passes the check closes the stream for good, even when the cipher then
      fails: no later call of the run succeeds. So at most one final record is sent, and it is last. */
  lemma {:induction false} FinalIsLast<S>(p: Primitive<S>, ss: Session<S>, ops: seq<PushOp>, i: nat, j: nat)
    requires i < j < |ops| && ops[i].DoPush? && ops[i].tag == Final
    requires |ops[i].m| <= p.messageBytesMax
    ensures PushRun(p, ss, ops).0[j] == Err
    ensures PushRun(p, ss, ops).1.stream.finalized
    decreases ops
  {
    var (r, ss1) := PushCall(p, ss, ops[0]);
    if ss1.stream.finalized {
      FinalizedPush(p, ss1, ops[1..]);
    } else if i > 0 {
      FinalIsLast(p, ss1, ops[1..], i - 1, j - 1);
    }
  }

  // ---------------------------------------------------------------------------------------------
  // A cipher that seals every message within its limit
  // ---------------------------------------------------------------------------------------------

  ghost predicate SealsAll<S(!new)>(p: Primitive<S>) {
    forall s, m, a, t :: |m| <= p.messageBytesMax ==> p.seal(s, m, a, t).Some?
  }

  /** What the caller of a run wanted to be sent: the messages within the limit, with their tags, up to and
      including the first final one. */
  function Intended(limit: nat, ops: seq<PushOp>): seq<(seq<byte>, Tag)> {
    if ops == [] then []
    else if ops[0].PushRekey? || |ops[0].m| > limit then Intended(limit, ops[1..])
    else [(ops[0].m, ops[0].tag)] + (if ops[0].tag == Final then [] else Intended(limit, ops[1..]))
  }

  lemma CallSucceeds<S(!new)>(p: Primitive<S>, ss: Session<S>, op: PushOp)
    requires SealsAll(p) && !ss.stream.finalized
    ensures
      var (r, ss') := PushCall(p, ss, op);
      && (r.Ok? <==> op.DoPush? ==> |op.m| <= p.messageBytesMax)
      && (ss'.stream.finalized <==> op.DoPush? && op.tag == Final && |op.m| <= p.messageBytesMax)
  {
    if op.DoPush? && |op.m| <= p.messageBytesMax {
      assert p.seal(ss.stream.cipher, op.m, AdBytes(op.ad), op.tag.AsU8()).Some?;
    }
  }

  /** Such a cipher never makes a call fail: it succeeds exactly if its message is within the limit and no
      final message within the limit came before. */
  lemma {:induction false} PushResults<S(!new)>(p: Primitive<S>, ss: Session<S>, ops: seq<PushOp>, k: nat)
    requires SealsAll(p) && !ss.stream.finalized && k < |ops|
    ensures PushRun(p, ss, ops).0[k].Ok? <==>
      && (ops[k].DoPush? ==> |ops[k].m| <= p.messageBytesMax)
      && forall j :: 0 <= j < k && ops[j].DoPush? && ops[j].tag == Final ==> |ops[j].m| > p.messageBytesMax
    decreases ops
  {
    CallSucceeds(p, ss, ops[0]);
    var ss1 := PushCall(p, ss, ops[0]).1;
    if k > 0 {
      if ss1.stream.finalized {
        FinalizedPush(p, ss1, ops[1..]);
      } else {
        PushResults(p, ss1, ops[1..], k - 1);
        assert forall j :: 0 < j < k ==> ops[j] == ops[1..][j - 1];
      }
    }
  }

  /** So everything its caller wanted to be sent is pushed. */
  lemma {:induction false} PushesAll<S(!new)>(p: Primitive<S>, ss: Session<S>, ops: seq<PushOp>)
    requires SealsAll(p) && !ss.stream.finalized
    ensures Pushed(ops, PushRun(p, ss, ops).0) == Intended(p.messageBytesMax, ops)
    decreases ops
  {
    if ops != [] {
      CallSucceeds(p, ss, ops[0]);
      var (r, ss1) := PushCall(p, ss, ops[0]);
      var rs := PushRun(p, ss1, ops[1..]).0;
      assert ([r] + rs)[1..] == rs;
      if ss1.stream.finalized {
        FinalizedPush(p, ss1, ops[1..]);
        NothingSent(ops[1..], rs);
      } else {
        PushesAll(p, ss1, ops[1..]);
      }
    }
  }

  /** `Pushed` collects the successful pushes, call by call. */
  lemma {:induction false} PushedSnoc(ops: seq<PushOp>, rs: seq<Result<seq<byte>>>, op: PushOp, r: Result<seq<byte>>)
    requires |ops| == |rs|
    ensures Pushed(ops + [op], rs + [r])
         == if op.DoPush? && r.Ok? then Pushed(ops, rs) + [(op.m, op.tag)] else Pushed(ops, rs)
  {
    if ops == [] {
      assert (ops + [op])[1..] == [] && (rs + [r])[1..] == [];
    } else {
      assert (ops + [op])[1..] == ops[1..] + [op] && (rs + [r])[1..] == rs[1..] + [r];
      PushedSnoc(ops[1..], rs[1..], op, r);
    }
  }

  /** Two runs that differ only in which pushes reuse the shared vector, in what it held, and in how absent
      additional data is given. */
  predicate SameCalls(xs: seq<PushOp>, ys: seq<PushOp>) {
    |xs| == |ys| && forall i :: 0 <= i < |xs| ==> SameCall(xs[i], ys[i])
  }

  predicate SameCall(x: PushOp, y: PushOp) {
    match x
    case PushRekey => y.PushRekey?
    case DoPush(m, ad, tag, _) => y.DoPush? && y.m == m && SameAd(ad, y.ad) && y.tag == tag
  }

  /** No additional data and empty additional data are interchangeable. */
  predicate SameAd(x: Option<seq<byte>>, y: Option<seq<byte>>) {
    x == y || (x in {None, Some([])} && y in {None, Some([])})
  }

  /** Recycling output vectors is invisible: same results and same stream, whatever they held, and whether
      absent additional data is given as none or as empty. */
  lemma {:induction false} RecycledPushRefines<S>(
    p: Primitive<S>, ss: Session<S>, tt: Session<S>, xs: seq<PushOp>, ys: seq<PushOp>)
    requires ss.stream == tt.stream && SameCalls(xs, ys)
    ensures PushRun(p, ss, xs).0 == PushRun(p, tt, ys).0
    ensures PushRun(p, ss, xs).1.stream == PushRun(p, tt, ys).1.stream
    decreases xs
  {
    if xs != [] {
      assert SameCall(xs[0], ys[0]);
      assert SameCalls(xs[1..], ys[1..]) by {
        forall i | 0 <= i < |xs| - 1 ensures SameCall(xs[1..][i], ys[1..][i]) {
          assert SameCall(xs[i + 1], ys[i + 1]);
        }
      }
      RecycledPushRefines(p, PushCall(p, ss, xs[0]).1, PushCall(p, tt, ys[0]).1, xs[1..], ys[1..]);
    }
  }

  // ---------------------------------------------------------------------------------------------
  // Runs of the pulling end
  // ---------------------------------------------------------------------------------------------

  datatype PullOp = DoPull(c: seq<byte>, ad: Option<seq<byte>>, recycle: bool) | PullRekey

  datatype Pulled = Delivered(m: seq<byte>, tag: Tag) | RekeyDone

  /** One call: `pull`, `pull_to_vec` (when `recycle`) or `rekey`. */
  function PullCall<S>(p: Primitive<S>, ss: Session<S>, op: PullOp): (Result<Pulled>, Session<S>) {
    match op
    case PullRekey =>
      var (r, st) := RekeyStep(p, ss.stream);
      (if r.Ok? then Ok(RekeyDone) else Err, ss.(stream := st))
    case DoPull(c, ad, recycle) =>
      var (r, st) := PullStep(p, ss.stream, c, ad);
      if !recycle then (if r.Ok? then Ok(Delivered(r.value.0, r.value.1)) else Err, ss.(stream := st))
      else
        var out := PullOut(p, ss.stream, c, ad, ss.out);
        (if r.Ok? then Ok(Delivered(out, r.value.1)) else Err, Session(st, out))
  }

  function PullRun<S>(p: Primitive<S>, ss: Session<S>, feed: seq<PullOp>): (run: (seq<Result<Pulled>>, Session<S>))
    ensures |run.0| == |feed|
    decreases feed
  {
    if feed == [] then ([], ss)
    else
      var (r, ss') := PullCall(p, ss, feed[0]);
      var (rs, ss'') := PullRun(p, ss', feed[1..]);
      ([r] + rs, ss'')
  }

  /** The messages and tags the caller received, in order. */
  function Received(rs: seq<Result<Pulled>>): seq<(seq<byte>, Tag)> {
    if rs == [] then []
    else
      (if rs[0].Ok? && rs[0].value.Delivered? then [(rs[0].value.m, rs[0].value.tag)] else []) + Received(rs[1..])
  }

  /** `Received` collects the deliveries, call by call. */
  lemma {:induction false} ReceivedSnoc(rs: seq<Result<Pulled>>, m: seq<byte>, tag: Tag)
    ensures Received(rs + [Ok(Delivered(m, tag))]) == Received(rs) + [(m, tag)]
    ensures Received(rs + [Ok(RekeyDone)]) == Received(rs + [Err]) == Received(rs)
  {
    if rs == [] {
      forall r: Result<Pulled> ensures (rs + [r])[1..] == [] {
      }
    } else {
      forall r: Result<Pulled> ensures (rs + [r])[1..] == rs[1..] + [r] {
      }
      ReceivedSnoc(rs[1..], m, tag);
    }
  }

  /** The calls that moved the cipher state of the pulling end: records it authenticated, known tag
      or not, and rekeyings. */
  function Got<S>(p: Primitive<S>, ss: Session<S>, feed: seq<PullOp>): seq<Event>
    decreases feed
  {
    if feed == [] || ss.stream.finalized then []
    else
      var ss' := PullCall(p, ss, feed[0]).1;
      Moved(p, ss.stream.cipher, feed[0]) + Got(p, ss', feed[1..])
  }

  function Moved<S>(p: Primitive<S>, s: S, op: PullOp): seq<Event> {
    match op
    case PullRekey => [Rekeyed]
    case DoPull(c, ad, _) =>
      var opened' := p.open(s, c, AdBytes(ad));
      if |c| < ABYTES || |c| - ABYTES > p.messageBytesMax || opened'.None? then []
      else [Record(c, AdBytes(ad), opened'.value.0, opened'.value.1)]
  }

  lemma {:induction false} FinalizedPull<S>(p: Primitive<S>, ss: Session<S>, feed: seq<PullOp>)
    requires ss.stream.finalized
    ensures forall i :: 0 <= i < |feed| ==> PullRun(p, ss, feed).0[i] == Err
    ensures PullRun(p, ss, feed).1 == ss
    ensures Received(PullRun(p, ss, feed).0) == []
  {
    if feed != [] {
      FinalizedPull(p, ss, feed[1..]);
      var (r, _) := PullCall(p, ss, feed[0]);
      var (rs, _) := PullRun(p, ss, feed[1..]);
      assert ([r] + rs)[1..] == rs;
    }
  }

  lemma PullCallTrace<S(!new)>(p: Primitive<S>, ss: Session<S>, op: PullOp)
    requires Lawful(p) && !ss.stream.finalized
    ensures
      var (r, ss') := PullCall(p, ss, op);
      var moved := Moved(p, ss.stream.cipher, op);
      && |moved| <= 1
      && ss'.stream.cipher == After(p, ss.stream.cipher, moved)
      && ss'.stream.finalized == (moved != [] && IsFinal(moved[0]))
      && (if r.Ok? && r.value.Delivered? then
            moved != [] && moved[0].Record? && moved[0].m == r.value.m && Tag.FromU8(moved[0].t) == Ok(r.value.tag)
          else
            moved != [] && moved[0].Record? ==> Tag.FromU8(moved[0].t).Err?)
  {
    if op.DoPull? {
      assert OpenLaw(p, ss.stream.cipher, op.c, AdBytes(op.ad));
      TagRoundTrip(Final, TAG_FINAL);
    }
  }

  /** What any run of the pulling end amounts to, whatever it is fed: the trace of the records it
      authenticated accounts for the state, for the messages received, and for being closed. */
  lemma {:induction false} PullRunTrace<S(!new)>(p: Primitive<S>, ss: Session<S>, feed: seq<PullOp>)
    requires Lawful(p) && !ss.stream.finalized
    ensures
      var (rs, ss') := PullRun(p, ss, feed);
      var got := Got(p, ss, feed);
      && Received(rs) == Deliverable(got)
      && ss'.stream.cipher == After(p, ss.stream.cipher, got)
      && (ss'.stream.finalized <==> HasFinal(got))
      && ThroughFinal(got) == got
    decreases feed
  {
    if feed != [] {
      PullCallTrace(p, ss, feed[0]);
      var (r, ss1) := PullCall(p, ss, feed[0]);
      var (rs, ss') := PullRun(p, ss1, feed[1..]);
      assert ([r] + rs)[1..] == rs;
      var moved, rest := Moved(p, ss.stream.cipher, feed[0]), Got(p, ss1, feed[1..]);
      if ss1.stream.finalized {
        FinalizedPull(p, ss1, feed[1..]);
        assert rest == [];
      } else {
        PullRunTrace(p, ss1, feed[1..]);
      }
      if moved == [] {
        assert Got(p, ss, feed) == rest;
      } else {
        var got := Got(p, ss, feed);
        assert got == [moved[0]] + rest && got[1..] == rest;
        HasFinalTail(got);
      }
    }
  }

  lemma HasFinalTail(es: seq<Event>)
    requires es != []
    ensures HasFinal(es) <==> IsFinal(es[0]) || HasFinal(es[1..])
  {
    if HasFinal(es[1..]) {
      var i :| 0 <= i < |es[1..]| && IsFinal(es[1..][i]);
      assert IsFinal(es[i + 1]);
    }
    if HasFinal(es) && !IsFinal(es[0]) {
      var i :| 0 <= i < |es| && IsFinal(es[i]);
      assert IsFinal(es[1..][i - 1]);
    }
  }

  /** The same for two runs of pulls. */
  predicate SamePulls(xs: seq<PullOp>, ys: seq<PullOp>) {
    |xs| == |ys| && forall i :: 0 <= i < |xs| ==> SamePull(xs[i], ys[i])
  }

  predicate SamePull(x: PullOp, y: PullOp) {
    match x
    case PullRekey => y.PullRekey?
    case DoPull(c, ad, _) => y.DoPull? && y.c == c && SameAd(ad, y.ad)
  }

  lemma {:induction false} RecycledPullRefines<S>(
    p: Primitive<S>, ss: Session<S>, tt: Session<S>, xs: seq<PullOp>, ys: seq<PullOp>)
    requires ss.stream == tt.stream && SamePulls(xs, ys)
    ensures PullRun(p, ss, xs).0 == PullRun(p, tt, ys).0
    ensures PullRun(p, ss, xs).1.stream == PullRun(p, tt, ys).1.stream
    decreases xs
  {
    if xs != [] {
      assert SamePull(xs[0], ys[0]);
      assert SamePulls(xs[1..], ys[1..]) by {
        forall i | 0 <= i < |xs| - 1 ensures SamePull(xs[1..][i], ys[1..][i]) {
          assert SamePull(xs[i + 1], ys[i + 1]);
        }
      }
      RecycledPullRefines(p, PullCall(p, ss, xs[0]).1, PullCall(p, tt, ys[0]).1, xs[1..], ys[1..]);
    }
  }

  // ---------------------------------------------------------------------------------------------
  // Lockstep
  // ---------------------------------------------------------------------------------------------

  /** The feed replays the trace in order: each record with its additional data, each rekeying. */
  predicate Mirrors(feed: seq<PullOp>, es: seq<Event>) {
    |feed| == |es| && forall i :: 0 <= i < |es| ==> MirrorsEvent(feed[i], es[i])
  }

  predicate MirrorsEvent(op: PullOp, e: Event) {
    match op
    case PullRekey => e.Rekeyed?
    case DoPull(c, ad, _) => e.Record? && e.c == c && e.a == AdBytes(ad)
  }

  /** When the receiver's call on event `i` of a replayed trace must succeed. */
  predicate Accepts(es: seq<Event>, i: nat)
    requires i < |es|
  {
    !HasFinal(es[..i]) && (es[i].Record? ==> es[i].t <= TAG_FINAL)
  }

  predicate Shows(r: Pulled, e: Event) {
    match e
    case Rekeyed => r == RekeyDone
    case Record(_, _, m, t) => r.Delivered? && r.m == m && Tag.FromU8(t) == Ok(r.tag)
  }

  /** One call that replays an authentic event. */
  lemma MirrorCall<S(!new)>(p: Primitive<S>, ss: Session<S>, op: PullOp, e: Event)
    requires Lawful(p) && !ss.stream.finalized
    requires Authentic(p, ss.stream.cipher, [e]) && MirrorsEvent(op, e)
    ensures
      var (r, ss') := PullCall(p, ss, op);
      && ss'.stream == StreamState(Next(p, ss.stream.cipher, e), IsFinal(e))
      && Moved(p, ss.stream.cipher, op) == [e]
      && (r.Ok? <==> e.Record? ==> e.t <= TAG_FINAL)
      && (r.Ok? && e.Record? ==> r.value.Delivered? && r.value.m == e.m && Tag.FromU8(e.t) == Ok(r.value.tag))
      && (r.Ok? && e.Rekeyed? ==> r.value.RekeyDone?)
  {
    if e.Record? {
      assert SealLaw(p, ss.stream.cipher, e.m, e.a, e.t);
      TagRoundTrip(Final, e.t);
    }
  }

  /** Replaying an authentic trace, with tag bytes of any value: the messages received are exactly the
      deliverable ones. An unknown tag byte still advances the cipher and leaves the stream open. */
  lemma {:induction false} MirrorDelivers<S(!new)>(p: Primitive<S>, ss: Session<S>, feed: seq<PullOp>, es: seq<Event>)
    requires Lawful(p) && !ss.stream.finalized
    requires Authentic(p, ss.stream.cipher, es) && Mirrors(feed, es)
    ensures
      var (rs, ss') := PullRun(p, ss, feed);
      && Received(rs) == Deliverable(es)
      && ss'.stream == StreamState(After(p, ss.stream.cipher, ThroughFinal(es)), HasFinal(es))
      && Got(p, ss, feed) == ThroughFinal(es)
    decreases es
  {
    if es != [] {
      assert MirrorsEvent(feed[0], es[0]);
      MirrorCall(p, ss, feed[0], es[0]);
      var (r, ss1) := PullCall(p, ss, feed[0]);
      var (rs, ss') := PullRun(p, ss1, feed[1..]);
      assert ([r] + rs)[1..] == rs;
      HasFinalTail(es);
      if IsFinal(es[0]) {
        FinalizedPull(p, ss1, feed[1..]);
      } else {
        MirrorTail(feed, es);
        MirrorDelivers(p, ss1, feed[1..], es[1..]);
        assert ThroughFinal(es)[1..] == ThroughFinal(es[1..]);
      }
    }
  }

  /** In such a replay a call fails exactly on an unknown tag byte or after the first final record; every
      other call gives the caller that very event. */
  lemma {:induction false} MirrorResults<S(!new)>(
    p: Primitive<S>, ss: Session<S>, feed: seq<PullOp>, es: seq<Event>, i: nat)
    requires Lawful(p) && !ss.stream.finalized
    requires Authentic(p, ss.stream.cipher, es) && Mirrors(feed, es)
    requires i < |es|
    ensures PullRun(p, ss, feed).0[i].Ok? <==> Accepts(es, i)
    ensures Accepts(es, i) ==> Shows(PullRun(p, ss, feed).0[i].value, es[i])
    decreases es
  {
    assert MirrorsEvent(feed[0], es[0]);
    MirrorCall(p, ss, feed[0], es[0]);
    var (r, ss1) := PullCall(p, ss, feed[0]);
    var (rs, ss') := PullRun(p, ss1, feed[1..]);
    if i > 0 {
      if IsFinal(es[0]) {
        FinalizedPull(p, ss1, feed[1..]);
        AcceptsAfterFinal(es);
      } else {
        MirrorTail(feed, es);
        MirrorResults(p, ss1, feed[1..], es[1..], i - 1);
        AcceptsTail(es);
      }
    }
  }

  lemma MirrorTail(feed: seq<PullOp>, es: seq<Event>)
    requires Mirrors(feed, es) && es != []
    ensures Mirrors(feed[1..], es[1..])
  {
    forall i | 0 <= i < |es| - 1 ensures MirrorsEvent(feed[1..][i], es[1..][i]) {
      assert MirrorsEvent(feed[i + 1], es[i + 1]);
    }
  }

  lemma AcceptsAfterFinal(es: seq<Event>)
    requires es != [] && IsFinal(es[0])
    ensures forall i :: 0 <= i < |es| ==> (Accepts(es, i) <==> i == 0)
  {
    forall i | 0 < i < |es| ensures !Accepts(es, i) {
      assert IsFinal(es[..i][0]);
    }
  }

  lemma AcceptsTail(es: seq<Event>)
    requires es != [] && !IsFinal(es[0])
    ensures forall i :: 0 < i < |es| ==> (Accepts(es, i) <==> Accepts(es[1..], i - 1))
  {
    forall i | 0 < i < |es| ensures Accepts(es, i) <==> Accepts(es[1..], i - 1) {
      assert es[..i][1..] == es[1..][..i - 1];
      HasFinalTail(es[..i]);
    }
  }

  /** The whole protocol: a stream opened from the header the other end returned, and stepped through
      what that end sent, gives back exactly the pushed messages and tags, without an error, in the same
      cipher state. The two `finalized` flags agree if and only if the cipher refused no final record of the open sender. */
  lemma RoundTrip<S(!new)>(p: Primitive<S>, key: seq<byte>, random: seq<byte>, out: seq<byte>, ops: seq<PushOp>,
                           feed: seq<PullOp>, out': seq<byte>)
    requires Lawful(p) && p.initPush(key, random).Some?
    requires
      var sender := Session(StreamState(p.initPush(key, random).value.0, false), out);
      var (rs, _) := PushRun(p, sender, ops);
      Mirrors(feed, Sent(ops, rs))
    ensures p.initPull(p.initPush(key, random).value.1, key).Some?
    ensures
      var sender := Session(StreamState(p.initPush(key, random).value.0, false), out);
      var receiver := Session(StreamState(p.initPull(p.initPush(key, random).value.1, key).value, false), out');
      var (sent, sender') := PushRun(p, sender, ops);
      var (got, receiver') := PullRun(p, receiver, feed);
      && Received(got) == Pushed(ops, sent)
      && (forall i :: 0 <= i < |got| ==> got[i].Ok?)
      && receiver'.stream.cipher == sender'.stream.cipher
      && (receiver'.stream.finalized == sender'.stream.finalized <==> !FinalLost(p, sender, ops))
  {
    assert InitLaw(p, key, random);
    var s := p.initPush(key, random).value.0;
    var sender := Session(StreamState(s, false), out);
    var receiver := Session(StreamState(s, false), out');
    PushRunSends(p, sender, ops);
    var es := Sent(ops, PushRun(p, sender, ops).0);
    MirrorDelivers(p, receiver, feed, es);
    var got := PullRun(p, receiver, feed).0;
    forall i | 0 <= i < |got| ensures got[i].Ok? {
      MirrorResults(p, receiver, feed, es, i);
      FinalOnlyLast(es, i);
      SentTagsKnown(ops, PushRun(p, sender, ops).0);
      assert Accepts(es, i);
    }
  }

  /** With a cipher that seals every message within its limit, all that the caller wanted to be sent arrives. */
  lemma AllArrive<S(!new)>(p: Primitive<S>, key: seq<byte>, random: seq<byte>, out: seq<byte>, ops: seq<PushOp>,
                           feed: seq<PullOp>, out': seq<byte>)
    requires Lawful(p) && SealsAll(p) && p.initPush(key, random).Some?
    requires
      var sender := Session(StreamState(p.initPush(key, random).value.0, false), out);
      Mirrors(feed, Sent(ops, PushRun(p, sender, ops).0))
    ensures p.initPull(p.initPush(key, random).value.1, key).Some?
    ensures
      var receiver := Session(StreamState(p.initPull(p.initPush(key, random).value.1, key).value, false), out');
      Received(PullRun(p, receiver, feed).0) == Intended(p.messageBytesMax, ops)
  {
    RoundTrip(p, key, random, out, ops, feed, out');
    PushesAll(p, Session(StreamState(p.initPush(key, random).value.0, false), out), ops);
  }

  /** When moreover no message is too long and none follows a final one, the receiver's `i`-th result is
      what the sender's `i`-th call was given. */
  lemma EachArrives<S(!new)>(p: Primitive<S>, key: seq<byte>, random: seq<byte>, out: seq<byte>, ops: seq<PushOp>,
                             feed: seq<PullOp>, out': seq<byte>, i: nat)
    requires Lawful(p) && SealsAll(p) && p.initPush(key, random).Some? && i < |ops|
    requires forall k :: 0 <= k < |ops| && ops[k].DoPush? ==>
      |ops[k].m| <= p.messageBytesMax && (ops[k].tag == Final ==> k == |ops| - 1)
    requires
      var sender := Session(StreamState(p.initPush(key, random).value.0, false), out);
      Mirrors(feed, Sent(ops, PushRun(p, sender, ops).0))
    ensures |feed| == |ops| && p.initPull(p.initPush(key, random).value.1, key).Some?
    ensures
      var receiver := Session(StreamState(p.initPull(p.initPush(key, random).value.1, key).value, false), out');
      PullRun(p, receiver, feed).0[i] ==
      match ops[i] case PushRekey => Ok(RekeyDone) case DoPush(m, _, tag, _) => Ok(Delivered(m, tag))
  {
    assert InitLaw(p, key, random);
    var s := p.initPush(key, random).value.0;
    var sender, receiver := Session(StreamState(s, false), out), Session(StreamState(s, false), out');
    var rs := PushRun(p, sender, ops).0;
    PushRunSends(p, sender, ops);
    forall k | 0 <= k < |ops| ensures rs[k].Ok? {
      PushResults(p, sender, ops, k);
    }
    SentByEach(ops, rs, i);
    MirrorResults(p, receiver, feed, Sent(ops, rs), i);
    FinalOnlyLast(Sent(ops, rs), i);
    if ops[i].DoPush? {
      TagRoundTrip(ops[i].tag, 0);
    }
  }

  lemma {:induction false} SentByEach(ops: seq<PushOp>, rs: seq<Result<seq<byte>>>, i: nat)
    requires |ops| == |rs| && i < |ops| && forall k :: 0 <= k < |rs| ==> rs[k].Ok?
    ensures |Sent(ops, rs)| == |ops| && [Sent(ops, rs)[i]] == SentBy(ops[i], rs[i])
  {
    if |ops| == 1 {
      assert Sent(ops[1..], rs[1..]) == [];
    } else {
      SentByEach(ops[1..], rs[1..], if i == 0 then 0 else i - 1);
    }
  }

  lemma {:induction false} PushRunPrefix<S>(p: Primitive<S>, ss: Session<S>, ops: seq<PushOp>, k: nat)
    requires k <= |ops|
    ensures PushRun(p, ss, ops[..k]).0 == PushRun(p, ss, ops).0[..k]
    decreases ops
  {
    if k > 0 {
      var (r, ss') := PushCall(p, ss, ops[0]);
      assert ops[..k][1..] == ops[1..][..k - 1];
      PushRunPrefix(p, ss', ops[1..], k - 1);
      assert ([r] + PushRun(p, ss', ops[1..]).0)[..k] == [r] + PushRun(p, ss', ops[1..]).0[..k - 1];
    }
  }

  lemma {:induction false} PullRunPrefix<S>(p: Primitive<S>, ss: Session<S>, feed: seq<PullOp>, k: nat)
    requires k <= |feed|
    ensures PullRun(p, ss, feed[..k]).0 == PullRun(p, ss, feed).0[..k]
    decreases feed
  {
    if k > 0 {
      var (r, ss') := PullCall(p, ss, feed[0]);
      assert feed[..k][1..] == feed[1..][..k - 1];
      PullRunPrefix(p, ss', feed[1..], k - 1);
      assert ([r] + PullRun(p, ss', feed[1..]).0)[..k] == [r] + PullRun(p, ss', feed[1..]).0[..k - 1];
    }
  }

  lemma {:induction false} SentPrefix(ops: seq<PushOp>, rs: seq<Result<seq<byte>>>, k: nat)
    requires k <= |ops| == |rs|
    ensures Sent(ops[..k], rs[..k]) <= Sent(ops, rs)
  {
    if k > 0 {
      assert ops[..k][1..] == ops[1..][..k - 1] && rs[..k][1..] == rs[1..][..k - 1];
      SentPrefix(ops[1..], rs[1..], k - 1);
    }
  }

  /** Lockstep: after each `k` calls of the sender, the receiver that has replayed what they sent is in the
      sender's cipher state. The calls and results of both ends up to there are those of the whole run. */
  lemma Lockstep<S(!new)>(p: Primitive<S>, key: seq<byte>, random: seq<byte>, out: seq<byte>, ops: seq<PushOp>,
                          feed: seq<PullOp>, out': seq<byte>, k: nat) returns (n: nat)
    requires Lawful(p) && p.initPush(key, random).Some? && k <= |ops|
    requires
      var sender := Session(StreamState(p.initPush(key, random).value.0, false), out);
      Mirrors(feed, Sent(ops, PushRun(p, sender, ops).0))
    ensures p.initPull(p.initPush(key, random).value.1, key).Some? && n <= |feed|
    ensures
      var sender := Session(StreamState(p.initPush(key, random).value.0, false), out);
      var receiver := Session(StreamState(p.initPull(p.initPush(key, random).value.1, key).value, false), out');
      var (sent, sender') := PushRun(p, sender, ops[..k]);
      var (got, receiver') := PullRun(p, receiver, feed[..n]);
      && sent == PushRun(p, sender, ops).0[..k] && got == PullRun(p, receiver, feed).0[..n]
      && Sent(ops[..k], sent) == Sent(ops, PushRun(p, sender, ops).0)[..n]
      && Received(got) == Pushed(ops[..k], sent)
      && receiver'.stream.cipher == sender'.stream.cipher
      && (receiver'.stream.finalized == sender'.stream.finalized <==> !FinalLost(p, sender, ops[..k]))
  {
    assert InitLaw(p, key, random);
    var sender := Session(StreamState(p.initPush(key, random).value.0, false), out);
    var receiver := Session(StreamState(p.initPush(key, random).value.0, false), out');
    var rs := PushRun(p, sender, ops).0;
    PushRunPrefix(p, sender, ops, k);
    SentPrefix(ops, rs, k);
    n := |Sent(ops[..k], rs[..k])|;
    assert Mirrors(feed[..n], Sent(ops[..k], rs[..k])) by {
      forall i | 0 <= i < n ensures MirrorsEvent(feed[..n][i], Sent(ops[..k], rs[..k])[i]) {
        assert MirrorsEvent(feed[i], Sent(ops, rs)[i]);
      }
    }
    RoundTrip(p, key, random, out, ops[..k], feed[..n], out');
    PullRunPrefix(p, receiver, feed, n);
  }

  lemma {:induction false} FinalOnlyLast(es: seq<Event>, i: nat)
    requires ThroughFinal(es) == es && i < |es|
    ensures !HasFinal(es[..i])
  {
    if i > 0 {
      assert !IsFinal(es[0]);
      assert ThroughFinal(es)[1..] == ThroughFinal(es[1..]);
      FinalOnlyLast(es[1..], i - 1);
      assert es[..i][1..] == es[1..][..i - 1];
      HasFinalTail(es[..i]);
    }
  }

  lemma {:induction false} SentTagsKnown(ops: seq<PushOp>, rs: seq<Result<seq<byte>>>)
    requires |ops| == |rs|
    ensures forall e :: e in Sent(ops, rs) && e.Record? ==> e.t <= TAG_FINAL
  {
    if ops != [] {
      SentTagsKnown(ops[1..], rs[1..]);
    }
  }
}
