/**
 How messages follow each other on a connection. rpc/tcp/read.go fixes that the first eight bytes,
 the two length fields, say how long a message is; the body of ReadMsg is a stub there, so reading is
 modelled as cutting the stream at that length.
 */
module Framing {
  import opened Prelude
  import opened Wire
  import Req = RequestCodec
  import Resp = ResponseCodec

  /** The bytes that announce a message's length. */
  const LEN_BYTES: nat := 8

  function Announced(bs: bytes): nat
    requires |bs| >= LEN_BYTES
  {
    Uint32(bs[..4]) + Uint32(bs[4..8])
  }

  predicate IsFrame(f: bytes) {
    |f| >= LEN_BYTES && Announced(f) == |f|
  }

  /** A stream cut into its messages, or None when it ends inside one. */
  function Split(stream: bytes): Option<seq<bytes>>
    decreases |stream|
  {
    if stream == [] then Some([])
    else if |stream| < LEN_BYTES || Announced(stream) < LEN_BYTES || Announced(stream) > |stream| then None
    else
      var n := Announced(stream);
      match Split(stream[n..])
      case None => None
      case Some(rest) => Some([stream[..n]] + rest)
  }

  function Join(frames: seq<bytes>): bytes {
    if frames == [] then [] else frames[0] + Join(frames[1..])
  }

  ghost predicate AllFrames(frames: seq<bytes>) {
    forall i :: 0 <= i < |frames| ==> IsFrame(frames[i])
  }

  lemma AnnouncedByPrefix(f: bytes, g: bytes)
    requires |f| >= LEN_BYTES && f <= g
    ensures Announced(f) == Announced(g)
  {
    assert f[..4] == g[..4] && f[4..8] == g[4..8];
  }

  /** No message is the beginning of another. */
  lemma PrefixFree(f: bytes, g: bytes)
    requires IsFrame(f) && IsFrame(g) && f <= g
    ensures f == g
  {
    AnnouncedByPrefix(f, g);
  }

  /** A concatenation of messages splits back into exactly those messages. */
  lemma {:induction false} SplitOfJoin(frames: seq<bytes>)
    requires AllFrames(frames)
    ensures Split(Join(frames)) == Some(frames)
  {
    hide Uint32;
    if frames != [] {
      var f, rest := frames[0], Join(frames[1..]);
      assert IsFrame(f);
      AnnouncedByPrefix(f, f + rest);
      assert (f + rest)[..|f|] == f && (f + rest)[|f|..] == rest;
      SplitOfJoin(frames[1..]);
      assert [f] + frames[1..] == frames;
    }
  }

  /** Splitting loses nothing, and yields messages only. */
  lemma {:induction false} JoinOfSplit(stream: bytes)
    requires Split(stream).Some?
    ensures Join(Split(stream).value) == stream && AllFrames(Split(stream).value)
    decreases |stream|
  {
    hide Uint32;
    if stream != [] {
      var n := Announced(stream);
      JoinOfSplit(stream[n..]);
      AnnouncedByPrefix(stream[..n], stream);
      var frames := Split(stream).value;
      assert frames[1..] == Split(stream[n..]).value;
      assert stream[..n] + stream[n..] == stream;
    }
  }

  /** A request that fits is a message of the announced length. */
  lemma RequestIsFrame(r: Req.Request, keys: seq<bytes>)
    requires Req.Enumerates(keys, r.meta) && Req.Fits(r)
    ensures Req.Encoded(Req.Measured(r), keys).Some? && IsFrame(Req.Encoded(Req.Measured(r), keys).value)
  {
    var m := Req.Measured(r);
    Req.EncodedLayout(r, keys);
    var bs := Req.Encoded(m, keys).value;
    assert bs[..15] == Req.Head(m, keys)[..15];
    FixedReadsBack(bs, m.headLength, m.bodyLength, m.messageId, m.version, m.compresser, m.serializer);
  }

  lemma ResponseIsFrame(r: Resp.Response)
    requires Resp.Fits(r)
    ensures Resp.Encoded(Resp.Measured(r)).Some? && IsFrame(Resp.Encoded(Resp.Measured(r)).value)
  {
    var m := Resp.Measured(r);
    Resp.FittingRoundTrip(r);
    var bs := Resp.Encoded(m).value;
    assert bs[..15] == Resp.Head(m)[..15];
    FixedReadsBack(bs, m.headLength, m.bodyLength, m.messageId, m.version, m.compresser, m.serializer);
    WrapFits(15 + |r.error|);
    WrapFits(|r.data|);
  }

  // ----- A stream of requests determines the requests -----

  /** Requests as callers send them, each with the iteration order its map happened to have. */
  ghost predicate Sendable(reqs: seq<Req.Request>, orders: seq<seq<bytes>>) {
    && |reqs| == |orders|
    && forall i :: 0 <= i < |reqs| ==>
         Req.Enumerates(orders[i], reqs[i].meta) && Req.Clean(reqs[i]) && Req.Fits(reqs[i])
  }

  ghost function Wires(reqs: seq<Req.Request>, orders: seq<seq<bytes>>): (frames: seq<bytes>)
    requires Sendable(reqs, orders)
    ensures |frames| == |reqs|
  {
    seq(|reqs|, i requires 0 <= i < |reqs| => WireOf(reqs[i], orders[i]))
  }

  ghost function WireOf(r: Req.Request, order: seq<bytes>): (f: bytes)
    requires Req.Enumerates(order, r.meta) && Req.Clean(r) && Req.Fits(r)
    ensures IsFrame(f) && Req.Decoded(f) == Some(Req.Measured(r))
  {
    RequestIsFrame(r, order);
    Req.CleanRoundTrip(r, order);
    Req.Encoded(Req.Measured(r), order).value
  }

  /** The bytes on the connection say which requests were sent and in which order, whatever the
      iteration orders were; the only freedom is in the two length fields, which the encoder sets. */
  lemma StreamDeterminesRequests(reqs: seq<Req.Request>, orders: seq<seq<bytes>>,
                                 others: seq<Req.Request>, otherOrders: seq<seq<bytes>>)
    requires Sendable(reqs, orders) && Sendable(others, otherOrders)
    requires Join(Wires(reqs, orders)) == Join(Wires(others, otherOrders))
    ensures |reqs| == |others|
    ensures forall i :: 0 <= i < |reqs| ==> Req.Measured(reqs[i]) == Req.Measured(others[i])
  {
    hide Split, Join, WireOf, Req.Measured, Req.Decoded;
    var f, g := Wires(reqs, orders), Wires(others, otherOrders);
    SplitOfJoin(f);
    SplitOfJoin(g);
    assert f == g;
    forall i: nat | i < |reqs|
      ensures Req.Measured(reqs[i]) == Req.Measured(others[i])
    {
      assert f[i] == WireOf(reqs[i], orders[i]) && g[i] == WireOf(others[i], otherOrders[i]);
    }
  }
}
