/** Clients that drive the stream objects through whole runs, as the module's example does. */
module SecretStreamClient {
  import opened Bytes
  import opened SecretStream
  import opened SecretStreamRuns

  /** Makes the calls of a sending run on a stream object, with one vector for the recycled ones. */
  method SendAll<S(!new)>(stream: Stream<S>, ops: seq<PushOp>, out: Vec) returns (rs: seq<Result<seq<byte>>>)
    requires Lawful(stream.prim) && out.Valid()
    modifies stream, out, out.buf
    ensures out.Valid()
    ensures (rs, Session(stream.View(), out.Contents()))
         == PushRun(stream.prim, old(Session(stream.View(), out.Contents())), ops)
  {
    ghost var whole := PushRun(stream.prim, Session(stream.View(), out.Contents()), ops);
    rs := [];
    assert ops[0..] == ops && [] + whole.0 == whole.0;
    for i := 0 to |ops|
      invariant out.Valid() && (out.buf == old(out.buf) || fresh(out.buf))
      invariant
        var rest := PushRun(stream.prim, Session(stream.View(), out.Contents()), ops[i..]);
        whole == (rs + rest.0, rest.1)
    {
      ghost var session, done := Session(stream.View(), out.Contents()), rs;
      var r := SendOne(stream, ops[i], out);
      rs := rs + [r];
      assert ops[i..][0] == ops[i] && ops[i..][1..] == ops[i + 1..];
      ghost var rest := PushRun(stream.prim, Session(stream.View(), out.Contents()), ops[i + 1..]);
      assert PushRun(stream.prim, session, ops[i..]) == ([r] + rest.0, rest.1);
      assert done + ([r] + rest.0) == rs + rest.0;
    }
    assert rs + [] == rs;
  }

  method SendOne<S(!new)>(stream: Stream<S>, op: PushOp, out: Vec) returns (r: Result<seq<byte>>)
    requires Lawful(stream.prim) && out.Valid()
    modifies stream, out, out.buf
    ensures out.Valid() && (out.buf == old(out.buf) || fresh(out.buf))
    ensures (r, Session(stream.View(), out.Contents()))
         == PushCall(stream.prim, old(Session(stream.View(), out.Contents())), op)
  {
    match op {
      case PushRekey =>
        var done := stream.Rekey();
        r := if done.Ok? then Ok([]) else Err;
      case DoPush(m, ad, tag, recycle) =>
        if recycle {
          var done := stream.PushToVec(m, ad, tag, out);
          r := if done.Ok? then Ok(out.buf[..out.len]) else Err;
        } else {
          r := stream.Push(m, ad, tag);
        }
    }
  }

  /** Makes the calls of a receiving run on a stream object. */
  method ReceiveAll<S(!new)>(stream: Stream<S>, feed: seq<PullOp>, out: Vec) returns (rs: seq<Result<Pulled>>)
    requires Lawful(stream.prim) && out.Valid()
    modifies stream, out, out.buf
    ensures out.Valid()
    ensures (rs, Session(stream.View(), out.Contents()))
         == PullRun(stream.prim, old(Session(stream.View(), out.Contents())), feed)
  {
    ghost var whole := PullRun(stream.prim, Session(stream.View(), out.Contents()), feed);
    rs := [];
    assert feed[0..] == feed && [] + whole.0 == whole.0;
    for i := 0 to |feed|
      invariant out.Valid() && (out.buf == old(out.buf) || fresh(out.buf))
      invariant
        var rest := PullRun(stream.prim, Session(stream.View(), out.Contents()), feed[i..]);
        whole == (rs + rest.0, rest.1)
    {
      ghost var session, done := Session(stream.View(), out.Contents()), rs;
      var r := ReceiveOne(stream, feed[i], out);
      rs := rs + [r];
      assert feed[i..][0] == feed[i] && feed[i..][1..] == feed[i + 1..];
      ghost var rest := PullRun(stream.prim, Session(stream.View(), out.Contents()), feed[i + 1..]);
      assert PullRun(stream.prim, session, feed[i..]) == ([r] + rest.0, rest.1);
      assert done + ([r] + rest.0) == rs + rest.0;
    }
    assert rs + [] == rs;
  }

  method ReceiveOne<S(!new)>(stream: Stream<S>, op: PullOp, out: Vec) returns (r: Result<Pulled>)
    requires Lawful(stream.prim) && out.Valid()
    modifies stream, out, out.buf
    ensures out.Valid() && (out.buf == old(out.buf) || fresh(out.buf))
    ensures (r, Session(stream.View(), out.Contents()))
         == PullCall(stream.prim, old(Session(stream.View(), out.Contents())), op)
  {
    match op {
      case PullRekey =>
        var done := stream.Rekey();
        r := if done.Ok? then Ok(RekeyDone) else Err;
      case DoPull(c, ad, recycle) =>
        if recycle {
          var tag := stream.PullToVec(c, ad, out);
          r := if tag.Ok? then Ok(Delivered(out.buf[..out.len], tag.value)) else Err;
        } else {
          var done := stream.Pull(c, ad);
          r := if done.Ok? then Ok(Delivered(done.value.0, done.value.1)) else Err;
        }
    }
  }

  /** The calls that replay what was sent, with a fresh vector each. */
  function Replay(es: seq<Event>): (feed: seq<PullOp>)
    ensures Mirrors(feed, es)
  {
    seq(|es|, i requires 0 <= i < |es| =>
      match es[i] case Rekeyed => PullRekey case Record(c, a, _, _) => DoPull(c, Some(a), false))
  }

  /** End to end: opens both ends of a stream, makes any sequence of pushes and rekeyings on one and
      replays what it sent on the other. The results are those of the two runs, and every pushed message
      arrives, with its tag and in order. Unless the cipher refuses one, these are all messages within the
      limit up to the first final one. */
  method Transmit<S(!new)>(p: Primitive<S>, key: seq<byte>, random: seq<byte>, ops: seq<PushOp>)
    returns (sent: seq<Result<seq<byte>>>, received: Result<seq<Result<Pulled>>>)
    requires Lawful(p)
    ensures received.Ok? <==> p.initPush(key, random).Some?
    ensures received.Err? ==> sent == []
    ensures received.Ok? ==>
      var start := Session(StreamState(p.initPush(key, random).value.0, false), []);
      && sent == PushRun(p, start, ops).0
      && received.value == PullRun(p, start, Replay(Sent(ops, sent))).0
      && Received(received.value) == Pushed(ops, sent)
      && (forall i :: 0 <= i < |received.value| ==> received.value[i].Ok?)
      && (SealsAll(p) ==> Received(received.value) == Intended(p.messageBytesMax, ops))
  {
    var opened' := Stream.InitPush(p, key, random);
    if opened'.Err? {
      return [], Err;
    }
    var (sender, header) := opened'.value;
    var buf := new Vec.WithCapacity(0);
    ghost var senderStart := Session(sender.View(), buf.Contents());
    sent := SendAll(sender, ops, buf);
    var other := Stream.InitPull(p, header, key);
    var receiver := other.value;
    var feed := Replay(Sent(ops, sent));
    var buf' := new Vec.WithCapacity(0);
    RoundTrip(p, key, random, senderStart.out, ops, feed, buf'.Contents());
    if SealsAll(p) {
      PushesAll(p, senderStart, ops);
    }
    var got := ReceiveAll(receiver, feed, buf');
    received := Ok(got);
  }
}
