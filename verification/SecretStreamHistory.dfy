/** Concrete ciphers: one for which prefix safety holds whatever happens to its ciphertexts on the way,
    and the runs in which the two ends of a stream part. */
module SecretStreamHistory {
  import opened Bytes
  import opened SecretStream
  import opened SecretStreamRuns
  import opened SecretStreamPrefix
  import LittleEndian

  /** A state that remembers the key, the header and everything that happened since. */
  datatype History = History(key: seq<byte>, header: seq<byte>, events: seq<Event>)

  const MESSAGE_MAX: nat := 0x3F_FFFF_FFFF

  function Records(es: seq<Event>): (n: nat)
    ensures n <= |es|
  {
    if es == [] then 0 else Records(es[..|es| - 1]) + (if es[|es| - 1].Record? then 1 else 0)
  }

  function Rekeyings(es: seq<Event>): nat {
    |es| - Records(es)
  }

  /** Sixteen check bytes: the number of records so far and the number of rekeyings, on eight bytes each. */
  function CheckBytes(h: History): (r: seq<byte>)
    ensures |r| == 16
  {
    LittleEndian.Digits(Records(h.events), 8) + LittleEndian.Digits(Rekeyings(h.events), 8)
  }

  function HistorySeal(h: History, m: seq<byte>, a: seq<byte>, t: byte): Option<seq<byte>> {
    if |m| <= MESSAGE_MAX then Some([t] + m + CheckBytes(h)) else None
  }

  function HistoryOpen(h: History, c: seq<byte>, a: seq<byte>): Option<(seq<byte>, byte)> {
    if |c| >= ABYTES && c[|c| - 16..] == CheckBytes(h) then Some((c[1..|c| - 16], c[0])) else None
  }

  function HistoryAfterSeal(h: History, m: seq<byte>, a: seq<byte>, t: byte): History {
    match HistorySeal(h, m, a, t)
    case None => h
    case Some(c) => h.(events := h.events + [Record(c, a, m, t)])
  }

  function HistoryAfterOpen(h: History, c: seq<byte>, a: seq<byte>): History {
    match HistoryOpen(h, c, a)
    case None => h
    case Some((m, t)) => h.(events := h.events + [Record(c, a, m, t)])
  }

  function HistoryCipher(): Primitive<History> {
    Primitive(
      MESSAGE_MAX,
      (key, random) => if |random| == HEADERBYTES then Some((History(key, random, []), random)) else None,
      (header, key) => Some(History(key, header, [])),
      HistorySeal, HistoryAfterSeal, HistoryOpen, HistoryAfterOpen,
      (h: History) => h.(events := h.events + [Rekeyed]))
  }

  lemma HistoryLawful()
    ensures Lawful(HistoryCipher()) && SealsAll(HistoryCipher())
  {
    var p := HistoryCipher();
    forall s, m, a, t ensures SealLaw(p, s, m, a, t) {
      if |m| <= MESSAGE_MAX {
        OpensSealed(s, m, a, t);
      }
    }
    forall s, c, a ensures OpenLaw(p, s, c, a) {
    }
  }

  lemma OpensSealed(h: History, m: seq<byte>, a: seq<byte>, t: byte)
    requires |m| <= MESSAGE_MAX
    ensures HistoryOpen(h, [t] + m + CheckBytes(h), a) == Some((m, t))
  {
    var c := [t] + m + CheckBytes(h);
    assert c[|c| - 16..] == CheckBytes(h) && c[1..|c| - 16] == m;
  }

  // ---------------------------------------------------------------------------------------------
  // States are histories
  // ---------------------------------------------------------------------------------------------

  /** Every record of the trace was opened by that cipher in the state the trace had then reached. */
  ghost predicate Opened(s: History, es: seq<Event>) {
    forall k :: 0 <= k < |es| ==> OpenedAt(s, es, k)
  }

  ghost predicate OpenedAt(s: History, es: seq<Event>, k: nat)
    requires k < |es|
  {
    es[k].Record? ==> HistoryOpen(After(HistoryCipher(), s, es[..k]), es[k].c, es[k].a) == Some((es[k].m, es[k].t))
  }

  lemma SentOpened(s: History, sent: seq<Event>)
    requires Authentic(HistoryCipher(), s, sent)
    ensures Opened(s, sent)
  {
    HistoryLawful();
    forall k | 0 <= k < |sent| ensures OpenedAt(s, sent, k) {
      if sent[k].Record? {
        SentOpens(HistoryCipher(), s, sent, k);
      }
    }
  }

  lemma GotOpenedToo(ss: Session<History>, feed: seq<PullOp>)
    ensures Opened(ss.stream.cipher, Got(HistoryCipher(), ss, feed))
  {
    HistoryLawful();
    var got := Got(HistoryCipher(), ss, feed);
    forall k | 0 <= k < |got| ensures OpenedAt(ss.stream.cipher, got, k) {
      if got[k].Record? {
        GotOpened(HistoryCipher(), ss, feed, k);
      }
    }
  }

  lemma {:induction false} HistoryAfter(s: History, es: seq<Event>, i: nat)
    requires i <= |es| && Opened(s, es)
    ensures After(HistoryCipher(), s, es[..i]) == s.(events := s.events + es[..i])
  {
    if i == 0 {
      assert s.events + es[..0] == s.events;
    } else {
      HistoryAfter(s, es, i - 1);
      assert OpenedAt(s, es, i - 1);
      assert es[..i] == es[..i - 1] + [es[i - 1]];
      AfterAppend(HistoryCipher(), s, es[..i - 1], [es[i - 1]]);
      assert s.events + es[..i] == (s.events + es[..i - 1]) + [es[i - 1]];
    }
  }

  /** So no state is ever revisited by accident. */
  lemma HistoryFresh(s: History, xs: seq<Event>, ys: seq<Event>)
    requires Opened(s, xs) && Opened(s, ys)
    ensures Fresh(HistoryCipher(), s, xs, ys)
  {
    var p := HistoryCipher();
    forall i | 0 <= i <= |xs| ensures After(p, s, xs[..i]) == s.(events := s.events + xs[..i]) {
      HistoryAfter(s, xs, i);
    }
    forall j | 0 <= j <= |ys| ensures After(p, s, ys[..j]) == s.(events := s.events + ys[..j]) {
      HistoryAfter(s, ys, j);
    }
    forall i, j | 0 < i <= |xs| && 0 < j <= |ys| ensures FreshAt(p, s, xs, i, ys, j) {
      if After(p, s, xs[..i]) == After(p, s, ys[..j]) {
        SameTails(s.events, xs[..i], ys[..j]);
        assert xs[..i][..i - 1] == xs[..i - 1] && ys[..j][..j - 1] == ys[..j - 1];
      }
    }
  }

  lemma SameTails(a: seq<Event>, b: seq<Event>, c: seq<Event>)
    requires a + b == a + c
    ensures b == c
  {
    assert (a + b)[|a|..] == b && (a + c)[|a|..] == c;
  }

  // ---------------------------------------------------------------------------------------------
  // A receiver fed the sender's own ciphertexts, in whatever way
  // ---------------------------------------------------------------------------------------------

  /** Each ciphertext comes, with its additional data, from a record of the sender: in any order,
      repeated or dropped, with rekeyings anywhere. */
  predicate OwnCiphertexts(feed: seq<PullOp>, sent: seq<Event>) {
    forall k :: 0 <= k < |feed| && feed[k].DoPull? ==> SentRecord(sent, feed[k].c, AdBytes(feed[k].ad))
  }

  predicate SentRecord(sent: seq<Event>, c: seq<byte>, a: seq<byte>) {
    exists i :: 0 <= i < |sent| && IsRecord(sent[i], c, a)
  }

  predicate IsRecord(e: Event, c: seq<byte>, a: seq<byte>) {
    e.Record? && e.c == c && e.a == a
  }

  /** For instance, any selection of the calls that replay the trace, with rekeyings in between. */
  lemma SelectionIsOwn(feed: seq<PullOp>, mirror: seq<PullOp>, sent: seq<Event>)
    requires Mirrors(mirror, sent) && forall op :: op in feed ==> op in mirror || op == PullRekey
    ensures OwnCiphertexts(feed, sent)
  {
    forall k | 0 <= k < |feed| && feed[k].DoPull? ensures SentRecord(sent, feed[k].c, AdBytes(feed[k].ad)) {
      assert feed[k] in mirror;
      var i :| 0 <= i < |mirror| && mirror[i] == feed[k];
      assert MirrorsEvent(mirror[i], sent[i]);
      assert IsRecord(sent[i], feed[k].c, AdBytes(feed[k].ad));
    }
  }

  predicate OwnRecords(got: seq<Event>, sent: seq<Event>) {
    forall k :: 0 <= k < |got| && got[k].Record? ==> SentRecord(sent, got[k].c, got[k].a)
  }

  lemma {:induction false} GotOwn<S>(p: Primitive<S>, ss: Session<S>, feed: seq<PullOp>, sent: seq<Event>)
    requires OwnCiphertexts(feed, sent)
    ensures OwnRecords(Got(p, ss, feed), sent)
    ensures |Got(p, ss, feed)| <= |feed|
    decreases feed
  {
    if feed != [] && !ss.stream.finalized {
      var ss' := PullCall(p, ss, feed[0]).1;
      var moved, rest := Moved(p, ss.stream.cipher, feed[0]), Got(p, ss', feed[1..]);
      assert OwnCiphertexts(feed[1..], sent) by {
        forall k | 0 <= k < |feed| - 1 && feed[1..][k].DoPull?
          ensures SentRecord(sent, feed[1..][k].c, AdBytes(feed[1..][k].ad))
        {
          assert feed[k + 1].DoPull?;
        }
      }
      GotOwn(p, ss', feed[1..], sent);
      var got := Got(p, ss, feed);
      forall k | 0 <= k < |got| && got[k].Record? ensures SentRecord(sent, got[k].c, got[k].a) {
        assert got[k] == if k < |moved| then moved[k] else rest[k - |moved|];
        assert feed[0].DoPull? ==> SentRecord(sent, feed[0].c, AdBytes(feed[0].ad));
      }
    }
  }

  lemma {:induction false} RecordsAppend(xs: seq<Event>, ys: seq<Event>)
    ensures Records(xs + ys) == Records(xs) + Records(ys)
  {
    if ys == [] {
      assert xs + ys == xs;
    } else {
      var k := |ys| - 1;
      assert (xs + ys)[..|xs + ys| - 1] == xs + ys[..k];
      RecordsAppend(xs, ys[..k]);
    }
  }

  /** A record between two points of a trace shows in the record counts. */
  lemma {:induction false} RecordBetween(es: seq<Event>, n: nat, k: nat, i: nat)
    requires n <= k < i <= |es| && es[k].Record?
    ensures Records(es[..n]) < Records(es[..i])
  {
    assert es[..i] == es[..k] + ([es[k]] + es[k + 1..i]) && es[..k] == es[..n] + es[n..k];
    RecordsAppend(es[..k], [es[k]] + es[k + 1..i]);
    RecordsAppend([es[k]], es[k + 1..i]);
    RecordsAppend(es[..n], es[n..k]);
  }

  lemma {:induction false} OnlyRekeyings(es: seq<Event>, n: nat)
    requires n <= |es| && forall k :: n <= k < |es| ==> es[k].Rekeyed?
    ensures Records(es) == Records(es[..n])
  {
    if n == |es| {
      assert es[..n] == es;
    } else {
      OnlyRekeyings(es[..|es| - 1], n);
      assert es[..|es| - 1][..n] == es[..n];
    }
  }

  lemma SameCheckBytes(g: History, h: History)
    requires CheckBytes(g) == CheckBytes(h)
    requires |g.events| < LittleEndian.Modulus(8) && |h.events| < LittleEndian.Modulus(8)
    ensures Records(g.events) == Records(h.events) && Rekeyings(g.events) == Rekeyings(h.events)
  {
    assert CheckBytes(g)[..8] == LittleEndian.Digits(Records(g.events), 8);
    assert CheckBytes(h)[..8] == LittleEndian.Digits(Records(h.events), 8);
    assert CheckBytes(g)[8..] == LittleEndian.Digits(Rekeyings(g.events), 8);
    assert CheckBytes(h)[8..] == LittleEndian.Digits(Rekeyings(h.events), 8);
    LittleEndian.DigitsInjective(Records(g.events), Records(h.events), 8);
    LittleEndian.DigitsInjective(Rekeyings(g.events), Rekeyings(h.events), 8);
  }

  /** The two traces stay below the range of the check bytes. */
  ghost predicate Short(s: History, sent: seq<Event>, got: seq<Event>) {
    |s.events| + |sent| < LittleEndian.Modulus(8) && |s.events| + |got| < LittleEndian.Modulus(8)
  }

  /** A ciphertext opens only after as many events, and as many records, as when it was sealed. */
  lemma SameCounts(s: History, sent: seq<Event>, got: seq<Event>, i: nat, j: nat)
    requires Opened(s, sent) && Opened(s, got) && Short(s, sent, got)
    requires i < |sent| && j < |got| && got[j].Record? && IsRecord(sent[i], got[j].c, got[j].a)
    ensures i == j && Records(sent[..i]) == Records(got[..j])
  {
    assert OpenedAt(s, sent, i) && OpenedAt(s, got, j);
    HistoryAfter(s, sent, i);
    HistoryAfter(s, got, j);
    SameCheckBytes(s.(events := s.events + sent[..i]), s.(events := s.events + got[..j]));
    RecordsAppend(s.events, sent[..i]);
    RecordsAppend(s.events, got[..j]);
  }

  /** So it opens only for a receiver with the very history the sender had: at the first event in which
      the two differ the counts part, and they do not meet again at a record. */
  lemma {:induction false} SamePlace(s: History, sent: seq<Event>, got: seq<Event>, i: nat, j: nat)
    requires Opened(s, sent) && Opened(s, got) && Short(s, sent, got) && OwnRecords(got, sent)
    requires i < |sent| && j < |got| && got[j].Record? && IsRecord(sent[i], got[j].c, got[j].a)
    ensures i == j && sent[..i] == got[..j]
    decreases j, 0
  {
    SameCounts(s, sent, got, i, j);
    var n := UpToLastRecord(got[..j]);
    assert forall k :: n <= k < j ==> got[..j][k] == got[k];
    OnlyRekeyings(got[..j], n);
    assert got[..j][..n] == got[..n];
    assert sent[..n] == got[..n] by {
      if n > 0 {
        assert got[n - 1] == got[..j][n - 1];
        EarlierRecord(s, sent, got, n - 1);
      }
    }
    forall k | n <= k < i ensures sent[k] == got[k] {
      if sent[k].Record? {
        RecordBetween(sent, n, k, i);
      }
    }
    assert sent[..i] == got[..j];
  }

  /** A record the receiver opened is the sender's, at the same place of the same history. */
  lemma {:induction false} EarlierRecord(s: History, sent: seq<Event>, got: seq<Event>, j: nat)
    requires Opened(s, sent) && Opened(s, got) && Short(s, sent, got) && OwnRecords(got, sent)
    requires j < |got| && got[j].Record?
    ensures j < |sent| && sent[..j + 1] == got[..j + 1]
    decreases j, 1
  {
    assert SentRecord(sent, got[j].c, got[j].a);
    var i :| 0 <= i < |sent| && IsRecord(sent[i], got[j].c, got[j].a);
    SamePlace(s, sent, got, i, j);
    assert OpenedAt(s, sent, j) && OpenedAt(s, got, j);
    assert sent[j] == got[j];
    assert sent[..j + 1] == sent[..j] + [sent[j]] && got[..j + 1] == got[..j] + [got[j]];
  }

  /** The assumptions of prefix safety hold together, for everything this cipher can send and every
      receiver that is fed the sender's ciphertexts in any order, with repetitions, gaps and rekeyings. */
  lemma AssumptionsHold(s: History, sent: seq<Event>, out: seq<byte>, feed: seq<PullOp>)
    requires Authentic(HistoryCipher(), s, sent) && OwnCiphertexts(feed, sent)
    requires |s.events| + |sent| < LittleEndian.Modulus(8) && |s.events| + |feed| < LittleEndian.Modulus(8)
    ensures
      var p := HistoryCipher();
      var got := Got(p, Session(StreamState(s, false), out), feed);
      Lawful(p) && NoForgery(p, s, sent, got) && Fresh(p, s, sent, got)
  {
    var p := HistoryCipher();
    var ss := Session(StreamState(s, false), out);
    var got := Got(p, ss, feed);
    HistoryLawful();
    SentOpened(s, sent);
    GotOpenedToo(ss, feed);
    HistoryFresh(s, sent, got);
    GotOwn(p, ss, feed, sent);
    forall j | 0 <= j < |got| && got[j].Record? ensures SealedBefore(p, s, sent, got, j) {
      EarlierRecord(s, sent, got, j);
      assert sent[j] == sent[..j + 1][j] == got[..j + 1][j] == got[j];
      assert sent[..j] == sent[..j + 1][..j] == got[..j + 1][..j] == got[..j];
      assert SameRecord(p, s, sent, j, got, j);
    }
  }

  /** For this cipher prefix safety needs no assumption on the receiver's run. */
  lemma OwnCiphertextsDeliverPrefix(s: History, sent: seq<Event>, out: seq<byte>, feed: seq<PullOp>)
    requires Authentic(HistoryCipher(), s, sent) && OwnCiphertexts(feed, sent)
    requires |s.events| + |sent| < LittleEndian.Modulus(8) && |s.events| + |feed| < LittleEndian.Modulus(8)
    ensures
      var (rs, ss') := PullRun(HistoryCipher(), Session(StreamState(s, false), out), feed);
      && Received(rs) <= Deliverable(sent)
      && (ss'.stream.finalized ==> Received(rs) == Deliverable(sent))
  {
    AssumptionsHold(s, sent, out, feed);
    PrefixSafety(HistoryCipher(), Session(StreamState(s, false), out), feed, sent);
  }

  // ---------------------------------------------------------------------------------------------
  // Runs in which a call fails and yet has an effect
  // ---------------------------------------------------------------------------------------------

  /** An authentic record with tag byte 4: the pull fails, the cipher has moved, and the plaintext is in
      the caller's vector. */
  lemma UnknownTagHasEffect(s: History, out: seq<byte>)
    ensures
      var p, st := HistoryCipher(), StreamState(s, false);
      var c := [4] + [7] + CheckBytes(s);
      && p.seal(s, [7], [], 4) == Some(c)
      && PullStep(p, st, c, None).0 == Err
      && PullStep(p, st, c, None).1.cipher != s
      && PullOut(p, st, c, None, out) == [7]
  {
    OpensSealed(s, [7], [], 4);
    TagRoundTrip(Message, 4);
    var e := Record([4] + [7] + CheckBytes(s), [], [7], 4);
    assert |s.events + [e]| == |s.events| + 1;
  }

  /** A ciphertext the cipher rejects: the pull fails, the stream is as before, and the vector is empty. */
  lemma RejectionClearsVector(key: seq<byte>, header: seq<byte>)
    ensures
      var p, st := HistoryCipher(), StreamState(History(key, header, []), false);
      var c: seq<byte> := seq(ABYTES, _ => 255);
      && PullStep(p, st, c, None) == (Err, st)
      && PullOut(p, st, c, None, [1, 2, 3]) == []
  {
    var c: seq<byte> := seq(ABYTES, _ => 255);
    var check := CheckBytes(History(key, header, []));
    assert check[0] == 0 && c[|c| - 16..][0] == 255;
  }

  /** A lawful cipher that refuses every message. */
  function RefusingCipher(): Primitive<()> {
    Primitive(
      MESSAGE_MAX,
      (key, random) => Some(((), Zeros(HEADERBYTES))),
      (header, key) => Some(()),
      (_, _, _, _) => None, (s, _, _, _) => s,
      (_, _, _) => None, (s, _, _) => s,
      s => s)
  }

  /** With it, finalizing a stream closes the sender; nothing is sent, and the receiver stays open. */
  lemma FinalCanBeLost(out: seq<byte>, out': seq<byte>)
    ensures Lawful(RefusingCipher())
    ensures
      var ops := [DoPush([], None, Final, false)];
      var sender := Session(StreamState((), false), out);
      var (rs, sender') := PushRun(RefusingCipher(), sender, ops);
      var (_, receiver') := PullRun(RefusingCipher(), Session(StreamState((), false), out'), []);
      && rs == [Err] && Sent(ops, rs) == [] && Mirrors([], Sent(ops, rs))
      && FinalLost(RefusingCipher(), sender, ops)
      && sender'.stream.finalized && !receiver'.stream.finalized
  {
    var p := RefusingCipher();
    forall s: (), m, a, t ensures SealLaw(p, s, m, a, t) {
    }
    forall s: (), c, a ensures OpenLaw(p, s, c, a) {
    }
  }
}
