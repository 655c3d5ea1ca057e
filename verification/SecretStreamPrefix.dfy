/** Prefix safety: nothing is delivered that was not sent, in the order in which it was sent. */
module SecretStreamPrefix {
  import opened Bytes
  import opened SecretStream
  import opened SecretStreamRuns

  // The two assumptions about the cipher speak of one run only: of the events `sent` by one end and
  // of the events `got` by the other, both starting in the cipher state `s`. A law for all runs is not
  // available: `SealLaw` makes `open` accept whatever `seal` would produce, sent or not.

  /** Each record the receiver authenticated had been sealed by the sender in the very state the
      receiver is in. What it rejects is unconstrained. */
  ghost predicate NoForgery<S>(p: Primitive<S>, s: S, sent: seq<Event>, got: seq<Event>) {
    forall j :: 0 <= j < |got| && got[j].Record? ==> SealedBefore(p, s, sent, got, j)
  }

  ghost predicate SealedBefore<S>(p: Primitive<S>, s: S, sent: seq<Event>, got: seq<Event>, j: nat)
    requires j < |got| && got[j].Record?
  {
    exists i :: 0 <= i < |sent| && SameRecord(p, s, sent, i, got, j)
  }

  ghost predicate SameRecord<S>(p: Primitive<S>, s: S, sent: seq<Event>, i: nat, got: seq<Event>, j: nat)
    requires i < |sent| && j < |got| && got[j].Record?
  {
    && sent[i].Record? && sent[i].c == got[j].c && sent[i].a == got[j].a
    && After(p, s, sent[..i]) == After(p, s, got[..j])
  }

  /** No cipher state of the run is revisited by accident: two steps that lead to the same state are
      the same event from the same state, and no step leads back to the start. */
  ghost predicate Fresh<S>(p: Primitive<S>, s: S, sent: seq<Event>, got: seq<Event>) {
    && (forall i :: 0 < i <= |sent| ==> After(p, s, sent[..i]) != s)
    && (forall j :: 0 < j <= |got| ==> After(p, s, got[..j]) != s)
    && (forall i, j :: 0 < i <= |sent| && 0 < j <= |got| ==> FreshAt(p, s, sent, i, got, j))
  }

  ghost predicate FreshAt<S>(p: Primitive<S>, s: S, sent: seq<Event>, i: nat, got: seq<Event>, j: nat)
    requires 0 < i <= |sent| && 0 < j <= |got|
  {
    After(p, s, sent[..i]) == After(p, s, got[..j]) ==>
      After(p, s, sent[..i - 1]) == After(p, s, got[..j - 1]) && sent[i - 1] == got[j - 1]
  }

  /** In a fresh run, two ends in the same state have the same history. */
  lemma {:induction false} SameState<S>(p: Primitive<S>, s: S, sent: seq<Event>, got: seq<Event>, i: nat, j: nat)
    requires Fresh(p, s, sent, got) && i <= |sent| && j <= |got|
    requires After(p, s, sent[..i]) == After(p, s, got[..j])
    ensures i == j && sent[..i] == got[..j]
  {
    assert After(p, s, sent[..0]) == s == After(p, s, got[..0]);
    if i > 0 && j > 0 {
      assert FreshAt(p, s, sent, i, got, j);
      SameState(p, s, sent, got, i - 1, j - 1);
      assert sent[..i] == sent[..i - 1] + [sent[i - 1]] && got[..j] == got[..j - 1] + [got[j - 1]];
    }
  }

  lemma SentOpens<S(!new)>(p: Primitive<S>, s: S, sent: seq<Event>, i: nat)
    requires Lawful(p) && Authentic(p, s, sent) && i < |sent| && sent[i].Record?
    ensures p.open(After(p, s, sent[..i]), sent[i].c, sent[i].a) == Some((sent[i].m, sent[i].t))
  {
    AuthenticAt(p, s, sent, i);
    assert SealLaw(p, After(p, s, sent[..i]), sent[i].m, sent[i].a, sent[i].t);
  }

  /** A record the receiver authenticated, its event number `n`, extends the sender's own history. */
  lemma RecordExtends<S(!new)>(p: Primitive<S>, s: S, sent: seq<Event>, got: seq<Event>, n: nat)
    requires Lawful(p) && Authentic(p, s, sent)
    requires NoForgery(p, s, sent, got) && Fresh(p, s, sent, got)
    requires 0 < n <= |got| && got[n - 1].Record?
    requires p.open(After(p, s, got[..n - 1]), got[n - 1].c, got[n - 1].a) == Some((got[n - 1].m, got[n - 1].t))
    ensures n <= |sent| && got[..n] == sent[..n]
  {
    var j := n - 1;
    assert SealedBefore(p, s, sent, got, j);
    var i :| 0 <= i < |sent| && SameRecord(p, s, sent, i, got, j);
    SameState(p, s, sent, got, i, j);
    SentOpens(p, s, sent, j);
    assert sent[j] == got[j];
    assert sent[..n] == sent[..j] + [sent[j]] && got[..n] == got[..j] + [got[j]];
  }

  /** The records a run of pulls authenticated were opened in the states of its own trace. */
  lemma {:induction false} GotOpened<S(!new)>(p: Primitive<S>, ss: Session<S>, feed: seq<PullOp>, j: nat)
    requires Lawful(p) && j < |Got(p, ss, feed)| && Got(p, ss, feed)[j].Record?
    ensures
      var got := Got(p, ss, feed);
      p.open(After(p, ss.stream.cipher, got[..j]), got[j].c, got[j].a) == Some((got[j].m, got[j].t))
    decreases feed
  {
    var ss' := PullCall(p, ss, feed[0]).1;
    var moved, rest := Moved(p, ss.stream.cipher, feed[0]), Got(p, ss', feed[1..]);
    var got := Got(p, ss, feed);
    if feed[0].DoPull? {
      assert OpenLaw(p, ss.stream.cipher, feed[0].c, AdBytes(feed[0].ad));
    }
    if moved == [] {
      assert got == rest;
      GotOpened(p, ss', feed[1..], j);
    } else if j > 0 {
      assert got[1..] == rest;
      assert got[..j][1..] == rest[..j - 1];
      GotOpened(p, ss', feed[1..], j - 1);
    }
  }

  /** Length of a trace up to and including its last record. */
  function UpToLastRecord(es: seq<Event>): (n: nat)
    ensures n <= |es|
    ensures n > 0 ==> es[n - 1].Record?
    ensures forall i :: n <= i < |es| ==> es[i].Rekeyed?
  {
    if es == [] then 0
    else if es[|es| - 1].Record? then |es|
    else UpToLastRecord(es[..|es| - 1])
  }

  lemma {:induction false} RekeyingsDeliverNothing(es: seq<Event>, n: nat)
    requires n <= |es| && forall i :: n <= i < |es| ==> es[i].Rekeyed?
    ensures Deliverable(es) == Deliverable(es[..n])
    ensures HasFinal(es) <==> HasFinal(es[..n])
  {
    if n == |es| {
      assert es[..n] == es;
    } else {
      var k := |es| - 1;
      RekeyingsDeliverNothing(es[..k], n);
      assert es[..k][..n] == es[..n] && es == es[..k] + [Rekeyed];
      DeliverableSnocRekeyed(es[..k]);
      assert HasFinal(es[..k]) ==> HasFinal(es) by {
        if HasFinal(es[..k]) {
          var i :| 0 <= i < k && IsFinal(es[..k][i]);
          assert IsFinal(es[i]);
        }
      }
      if HasFinal(es) {
        var i :| 0 <= i < |es| && IsFinal(es[i]);
        assert IsFinal(es[..k][i]);
      }
    }
  }

  lemma {:induction false} DeliverableSnocRekeyed(es: seq<Event>)
    ensures Deliverable(es + [Rekeyed]) == Deliverable(es)
  {
    if es != [] {
      assert (es + [Rekeyed])[1..] == es[1..] + [Rekeyed];
      DeliverableSnocRekeyed(es[1..]);
    }
  }

  /** What a receiver delivers, a prefix of the sender's trace accounts for. */
  lemma GotFromPrefix<S(!new)>(p: Primitive<S>, ss: Session<S>, feed: seq<PullOp>, sent: seq<Event>) returns (n: nat)
    requires Lawful(p) && Authentic(p, ss.stream.cipher, sent)
    requires NoForgery(p, ss.stream.cipher, sent, Got(p, ss, feed))
    requires Fresh(p, ss.stream.cipher, sent, Got(p, ss, feed))
    ensures n <= |sent|
    ensures Deliverable(Got(p, ss, feed)) == Deliverable(sent[..n])
    ensures HasFinal(Got(p, ss, feed)) <==> HasFinal(sent[..n])
  {
    var got := Got(p, ss, feed);
    n := UpToLastRecord(got);
    RekeyingsDeliverNothing(got, n);
    if n > 0 {
      GotOpened(p, ss, feed, n - 1);
      RecordExtends(p, ss.stream.cipher, sent, got, n);
    } else {
      assert got[..n] == sent[..n];
    }
  }

  /** Prefix safety. Whatever the receiver is fed - reordered, dropped, repeated or altered
      ciphertexts, and rekeyings at any moment - what it hands out is a prefix of what was sent, and
      all of it once its stream is finalized. The sender may have used any tag bytes. */
  lemma PrefixSafety<S(!new)>(p: Primitive<S>, ss: Session<S>, feed: seq<PullOp>, sent: seq<Event>)
    requires Lawful(p) && !ss.stream.finalized
    requires Authentic(p, ss.stream.cipher, sent)
    requires NoForgery(p, ss.stream.cipher, sent, Got(p, ss, feed))
    requires Fresh(p, ss.stream.cipher, sent, Got(p, ss, feed))
    ensures
      var (rs, ss') := PullRun(p, ss, feed);
      && Received(rs) <= Deliverable(sent)
      && (ss'.stream.finalized ==> Received(rs) == Deliverable(sent))
  {
    PullRunTrace(p, ss, feed);
    var n := GotFromPrefix(p, ss, feed, sent);
    DeliverablePrefix(sent, n);
  }

  /** The same between two ends of this library: the receiver hands out a prefix of the messages that
      were pushed, and a finalized receiver has handed out all of them. */
  lemma StreamPrefixSafety<S(!new)>(p: Primitive<S>, key: seq<byte>, random: seq<byte>, out: seq<byte>,
                                    ops: seq<PushOp>, feed: seq<PullOp>, out': seq<byte>)
    requires Lawful(p) && p.initPush(key, random).Some?
    requires
      var s := p.initPush(key, random).value.0;
      var sent := Sent(ops, PushRun(p, Session(StreamState(s, false), out), ops).0);
      var got := Got(p, Session(StreamState(s, false), out'), feed);
      NoForgery(p, s, sent, got) && Fresh(p, s, sent, got)
    ensures p.initPull(p.initPush(key, random).value.1, key).Some?
    ensures
      var (s, header) := p.initPush(key, random).value;
      var pushed := Pushed(ops, PushRun(p, Session(StreamState(s, false), out), ops).0);
      var (rs, receiver) := PullRun(p, Session(StreamState(p.initPull(header, key).value, false), out'), feed);
      && Received(rs) <= pushed
      && (receiver.stream.finalized ==> Received(rs) == pushed)
  {
    assert InitLaw(p, key, random);
    var s := p.initPush(key, random).value.0;
    var sender := Session(StreamState(s, false), out);
    PushRunSends(p, sender, ops);
    PrefixSafety(p, Session(StreamState(s, false), out'), feed, Sent(ops, PushRun(p, sender, ops).0));
  }
}
