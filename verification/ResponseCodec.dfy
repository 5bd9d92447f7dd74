/** The response message of rpc/message/response.go. None stands for a panic. */
module ResponseCodec {
  import opened Prelude
  import opened Wire

  datatype Response = Response(
    headLength: uint32, bodyLength: uint32, messageId: uint32, version: byte, compresser: byte, serializer: byte,
    error: bytes, data: bytes)

  function Measured(r: Response): Response {
    r.(headLength := Wrap32(15 + |r.error|), bodyLength := Wrap32(|r.data|))
  }

  function Head(r: Response): (h: bytes)
    ensures |h| == 15 + |r.error|
    ensures h[..15] == Fixed(r.headLength, r.bodyLength, r.messageId, r.version, r.compresser, r.serializer)
  {
    Fixed(r.headLength, r.bodyLength, r.messageId, r.version, r.compresser, r.serializer) + r.error
  }

  /** The buffer after EncodeResp: a header that does not fit panics, data that does not fit is cut off. */
  function Encoded(r: Response): Option<bytes> {
    var size := Wrap32(r.headLength as int + r.bodyLength as int);
    if |Head(r)| > size then None else Some(Head(r) + Fit(r.data, size - |Head(r)|))
  }

  function Decoded(bs: bytes): Option<Response> {
    if |bs| < 15 then None
    else
      var headLength := Uint32(bs[..4]);
      if headLength < 15 || headLength > |bs| then None
      else
        Some(Response(headLength, Uint32(bs[4..8]), Uint32(bs[8..12]), bs[12], bs[13], bs[14],
                      bs[15..headLength], bs[headLength..]))
  }

  predicate Fits(r: Response) {
    15 + |r.error| + |r.data| < TWO32
  }

  lemma FittingRoundTrip(r: Response)
    requires Fits(r)
    ensures var e := Encoded(Measured(r));
            e.Some? && Decoded(e.value) == Some(Measured(r)) && |e.value| == 15 + |r.error| + |r.data|
  {
    hide Wrap32, Uint32;
    WrapFits(15 + |r.error|);
    WrapFits(|r.data|);
    WrapFits(15 + |r.error| + |r.data|);
    var m := Measured(r);
    var head, bs := Head(m), Encoded(m).value;
    assert Fit(r.data, |r.data|) == r.data;
    assert bs == head + r.data;
    assert bs[..15] == head[..15];
    FixedReadsBack(bs, m.headLength, m.bodyLength, m.messageId, m.version, m.compresser, m.serializer);
    assert bs[15..m.headLength] == head[15..] == r.error;
    assert bs[m.headLength..] == r.data;
  }

  /** Error and data may hold any bytes: measuring, encoding and decoding gives the response back exactly
      when the whole message is shorter than 2^32 bytes. */
  lemma RoundTripIff(r: Response)
    ensures (var e := Encoded(Measured(r)); e.Some? && Decoded(e.value) == Some(Measured(r))) <==> Fits(r)
  {
    hide Wrap32, Uint32;
    var e := Encoded(Measured(r));
    if Fits(r) {
      FittingRoundTrip(r);
    } else if e.Some? {
      LostSize(15 + |r.error|, |r.data|, |e.value|);
    }
  }

  /** And the other way round: whatever bytes have the announced length, and are not too many, decoding them
      and encoding the result gives the same bytes. */
  lemma EncodeOfDecoded(bs: bytes)
    requires Decoded(bs).Some? && |bs| == Uint32(bs[..4]) + Uint32(bs[4..8]) < TWO32
    ensures Encoded(Decoded(bs).value) == Some(bs)
  {
    hide Wrap32, Uint32;
    var r := Decoded(bs).value;
    WrapFits(|bs|);
    PutOfUint32(bs[..4]);
    PutOfUint32(bs[4..8]);
    PutOfUint32(bs[8..12]);
    assert Fixed(r.headLength, r.bodyLength, r.messageId, r.version, r.compresser, r.serializer) == bs[..15];
    assert Head(r) == bs[..r.headLength];
    assert Fit(r.data, |r.data|) == r.data;
    assert bs[..r.headLength] + bs[r.headLength..] == bs;
  }

  /** The layout on the wire: the fixed fields, the error, the data. */
  lemma WireLayout(r: Response)
    requires Fits(r)
    ensures var e := Encoded(Measured(r));
      && e.Some? && |e.value| == 15 + |r.error| + |r.data|
      && var b := e.value;
      && b[0] as int * 0x100_0000 + b[1] as int * 0x1_0000 + b[2] as int * 0x100 + b[3] as int == 15 + |r.error|
      && b[4] as int * 0x100_0000 + b[5] as int * 0x1_0000 + b[6] as int * 0x100 + b[7] as int == |r.data|
      && b[8] as int * 0x100_0000 + b[9] as int * 0x1_0000 + b[10] as int * 0x100 + b[11] as int == r.messageId
      && b[12] == r.version && b[13] == r.compresser && b[14] == r.serializer
      && b[15..] == r.error + r.data
  {
    hide Wrap32;
    var m := Measured(r);
    WrapFits(15 + |r.error|);
    WrapFits(|r.data|);
    WrapFits(15 + |r.error| + |r.data|);
    var b := Encoded(m).value;
    assert Fit(r.data, |r.data|) == r.data;
    assert b == Head(m) + r.data && b[..15] == Head(m)[..15];
    FixedLayout(b, m.headLength, m.bodyLength, m.messageId, m.version, m.compresser, m.serializer);
    assert b[15..] == Head(m)[15..] + r.data;
  }

  class Message {
    var headLength: uint32
    var bodyLength: uint32
    var messageId: uint32
    var version: byte
    var compresser: byte
    var serializer: byte
    var error: bytes
    var data: bytes

    function Value(): Response
      reads this
    {
      Response(headLength, bodyLength, messageId, version, compresser, serializer, error, data)
    }

    constructor (messageId: uint32, version: byte, compresser: byte, serializer: byte)
      ensures Value() == Response(0, 0, messageId, version, compresser, serializer, [], [])
    {
      headLength, bodyLength, this.messageId := 0, 0, messageId;
      this.version, this.compresser, this.serializer := version, compresser, serializer;
      error, data := [], [];
    }

    /** uint32(len) is taken before the addition; both wrap. */
    method CalculateHeaderLength()
      modifies this`headLength
      ensures headLength == Wrap32(15 + |error|)
    {
      WrapAbsorb(|error|, 15);
      headLength := Wrap32(15 + Wrap32(|error|) as int);
    }

    method CalculateBodyLength()
      modifies this`bodyLength
      ensures bodyLength == Wrap32(|data|)
    {
      bodyLength := Wrap32(|data|);
    }
  }

  method EncodeResp(resp: Message) returns (bs: Option<array<byte>>)
    ensures bs.None? <==> Encoded(resp.Value()).None?
    ensures bs.Some? ==> fresh(bs.value) && Encoded(resp.Value()) == Some(bs.value[..])
  {
    hide Fixed, Wrap32, Fit;
    var buf := new byte[Wrap32(resp.headLength as int + resp.bodyLength as int)](_ => 0);
    if buf.Length < 15 {
      return None;
    }
    ghost var fixed := Fixed(resp.headLength, resp.bodyLength, resp.messageId, resp.version,
                             resp.compresser, resp.serializer);
    PutFixed(buf, resp.headLength, resp.bodyLength, resp.messageId, resp.version, resp.compresser, resp.serializer);
    ghost var zeros := buf[15..];
    var n := Copy(buf, 15, resp.error);
    if 15 + |resp.error| > buf.Length {
      return None;
    }
    assert resp.error[..n] == resp.error;
    assert buf[..15 + n] == fixed + resp.error;
    assert buf[15 + n..] == zeros[n..] == Zeros(buf.Length - 15 - n);
    PutData(buf, 15 + n, resp.data);
    return Some(buf);
  }

  method DecodeResp(bs: bytes) returns (resp: Option<Message>)
    ensures resp.Some? ==> fresh(resp.value) && Decoded(bs) == Some(resp.value.Value())
    ensures resp.None? ==> Decoded(bs).None?
  {
    if |bs| < 15 {
      return None;
    }
    hide Uint32;
    var r := new Message(0, 0, 0, 0);
    r.headLength := Uint32(bs[..4]);
    r.bodyLength := Uint32(bs[4..8]);
    r.messageId := Uint32(bs[8..12]);
    r.version, r.compresser, r.serializer := bs[12], bs[13], bs[14];
    if r.headLength < 15 || r.headLength > |bs| {
      return None;
    }
    r.error := bs[15..r.headLength];
    r.data := bs[r.headLength..];
    return Some(r);
  }
}
