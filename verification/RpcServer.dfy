/**
 The server side of a connection, rpc/server.go: a loop that decodes a request, runs the service
 method and writes the response. Methods, serializers and compressors are parameters; a method may
 answer differently at every turn.
 */
module RpcServer {
  import opened Prelude
  import opened Wire
  import opened Framing
  import Req = RequestCodec
  import Resp = ResponseCodec

  datatype Outcome<+T> = Ok(value: T) | Err(message: bytes)

  datatype Compressor = Compressor(compress: bytes -> Outcome<bytes>, unCompress: bytes -> Outcome<bytes>)

  datatype Serializer<!V> = Serializer(encode: V -> Outcome<bytes>, decode: bytes -> Outcome<V>)

  /** What a service method is given: which message of the connection this is, the deadline of its
      context, and the decoded argument. */
  datatype Call<V> = Call(turn: nat, deadline: Option<int>, input: V)

  datatype Server<!V> = Server(
    services: map<bytes, map<bytes, Call<V> -> Outcome<V>>>,
    serializers: seq<Option<Serializer<V>>>,
    compressors: seq<Option<Compressor>>,
    parseInt: bytes -> Option<int>)

  /** NewServer makes one slot for every value of a byte; an empty slot is a nil interface. */
  ghost predicate Valid<V>(s: Server<V>) {
    |s.serializers| == 256 && |s.compressors| == 256
  }

  function Ascii(s: string): bytes
    requires forall i :: 0 <= i < |s| ==> s[i] as int < 256
  {
    seq(|s|, i requires 0 <= i < |s| => s[i] as int)
  }

  const INVALID_SERVICE_NAME: bytes := Ascii("emicro: Invalid service name")

  /** The error text of an unknown method: UTF-8 with nine Chinese characters before the name. */
  function NotFoundServiceMethod(name: bytes): bytes {
    Ascii("server: ")
    + [0xE6, 0x9C, 0xAA, 0xE6, 0x89, 0xBE, 0xE5, 0x88, 0xB0, 0xE7, 0x9B, 0xAE, 0xE6, 0xA0, 0x87, 0xE6, 0x9C, 0x8D,
       0xE5, 0x8A, 0xA1, 0xE6, 0x96, 0xB9, 0xE6, 0xB3, 0x95]
    + Ascii(" ") + name
  }

  /** A lookup in a Go map of strings. */
  function MetaOf(r: Req.Request, key: string): bytes
    requires forall i :: 0 <= i < |key| ==> key[i] as int < 256
  {
    if Ascii(key) in r.meta then r.meta[Ascii(key)] else []
  }

  function Deadline<V>(s: Server<V>, r: Req.Request): Option<int> {
    s.parseInt(MetaOf(r, "deadline"))
  }

  predicate OneWay(r: Req.Request) {
    MetaOf(r, "one-way") == Ascii("true")
  }

  /** The response before its lengths are measured; None where a nil codec is called. */
  function Invoked<V>(s: Server<V>, turn: nat, r: Req.Request): Option<Resp.Response>
    requires Valid(s)
  {
    var echo := Resp.Response(0, 0, r.messageId, r.version, r.compresser, r.serializer, [], []);
    if r.serviceName !in s.services then Some(echo.(error := INVALID_SERVICE_NAME))
    else if r.methodName !in s.services[r.serviceName] then Some(echo.(error := NotFoundServiceMethod(r.methodName)))
    else
      match s.compressors[r.compresser]
      case None => None
      case Some(compressor) =>
        match compressor.unCompress(r.data)
        case Err(message) => Some(echo.(error := message))
        case Ok(plain) =>
          match s.serializers[r.serializer]
          case None => None
          case Some(serializer) =>
            var m := s.services[r.serviceName][r.methodName];
            var data := Executed(serializer, compressor, m, turn, Deadline(s, r), plain);
            Some(match data case Ok(bs) => echo.(data := bs) case Err(message) => echo.(error := message))
  }

  /** Decode the argument, call the method, encode and compress what it returns. */
  function Executed<V>(serializer: Serializer<V>, compressor: Compressor, call: Call<V> -> Outcome<V>, turn: nat,
                       deadline: Option<int>, plain: bytes): Outcome<bytes> {
    match serializer.decode(plain)
    case Err(message) => Err(message)
    case Ok(input) =>
      match call(Call(turn, deadline, input))
      case Err(message) => Err(message)
      case Ok(output) =>
        match serializer.encode(output)
        case Err(message) => Err(message)
        case Ok(bs) => compressor.compress(bs)
  }

  ghost predicate Echoes(p: Resp.Response, r: Req.Request) {
    && p.messageId == r.messageId && p.version == r.version
    && p.compresser == r.compresser && p.serializer == r.serializer
  }

  /** On every path the response belongs to its request and carries an error or data, never both. */
  lemma ResponseBelongs<V>(s: Server<V>, turn: nat, r: Req.Request)
    requires Valid(s) && Invoked(s, turn, r).Some?
    ensures var p := Invoked(s, turn, r).value; Echoes(p, r) && (p.error == [] || p.data == [])
  {
    hide Executed;
  }

  // ----- What a call puts in the response -----

  /** A request is one-way when its metadata hold the text true under the key one-way, byte by byte. */
  lemma OneWayIff(r: Req.Request)
    ensures OneWay(r) <==>
      var key: bytes := [111, 110, 101, 45, 119, 97, 121];
      key in r.meta && r.meta[key] == [116, 114, 117, 101]
  {
    assert Ascii("one-way") == [111, 110, 101, 45, 119, 97, 121];
    assert Ascii("true") == [116, 114, 117, 101];
  }

  /** What the method is called with: the turn, what the metadata under the key deadline parse to, and the
      argument. */
  ghost function CallOf<V>(s: Server<V>, turn: nat, r: Req.Request, input: V): Call<V> {
    var key: bytes := [100, 101, 97, 100, 108, 105, 110, 101];
    Call(turn, s.parseInt(if key in r.meta then r.meta[key] else []), input)
  }

  lemma DeadlineIs<V>(s: Server<V>, turn: nat, r: Req.Request, input: V)
    ensures CallOf(s, turn, r, input) == Call(turn, Deadline(s, r), input)
  {
    assert Ascii("deadline") == [100, 101, 97, 100, 108, 105, 110, 101];
  }

  /** The request names a method and two codecs that there are. */
  ghost predicate Callable<V>(s: Server<V>, r: Req.Request)
    requires Valid(s)
  {
    && r.serviceName in s.services && r.methodName in s.services[r.serviceName]
    && s.compressors[r.compresser].Some? && s.serializers[r.serializer].Some?
  }

  /** Every stage succeeds: uncompress, decode, call, encode, compress; the last yields d. */
  ghost predicate Yields<V>(s: Server<V>, turn: nat, r: Req.Request, d: bytes)
    requires Valid(s) && Callable(s, r)
  {
    var c, z := s.compressors[r.compresser].value, s.serializers[r.serializer].value;
    var plain := c.unCompress(r.data);
    plain.Ok? &&
    var input := z.decode(plain.value);
    input.Ok? &&
    var output := s.services[r.serviceName][r.methodName](CallOf(s, turn, r, input.value));
    output.Ok? &&
    var bs := z.encode(output.value);
    bs.Ok? && c.compress(bs.value) == Ok(d)
  }

  /** e is what the first of those stages that fails has to say. */
  ghost predicate FailsWith<V>(s: Server<V>, turn: nat, r: Req.Request, e: bytes)
    requires Valid(s) && Callable(s, r)
  {
    var c, z := s.compressors[r.compresser].value, s.serializers[r.serializer].value;
    var plain := c.unCompress(r.data);
    plain == Err(e) ||
    (plain.Ok? &&
     var input := z.decode(plain.value);
     input == Err(e) ||
     (input.Ok? &&
      var output := s.services[r.serviceName][r.methodName](CallOf(s, turn, r, input.value));
      output == Err(e) ||
      (output.Ok? &&
       var bs := z.encode(output.value);
       bs == Err(e) || (bs.Ok? && c.compress(bs.value) == Err(e)))))
  }

  /** The response to r, with nothing in it yet. */
  ghost function Blank(r: Req.Request): Resp.Response {
    Resp.Response(0, 0, r.messageId, r.version, r.compresser, r.serializer, [], [])
  }

  /** A response carries d as its data, and no error, exactly when every stage succeeds and yields d, and
      e as its error, and no data, exactly when e is the first failure: one of the two is always so. */
  lemma AnswerIff<V>(s: Server<V>, turn: nat, r: Req.Request)
    requires Valid(s) && Callable(s, r)
    ensures forall d :: Yields(s, turn, r, d) ==> Invoked(s, turn, r) == Some(Blank(r).(data := d))
    ensures forall e :: FailsWith(s, turn, r, e) ==> Invoked(s, turn, r) == Some(Blank(r).(error := e))
    ensures Invoked(s, turn, r).Some?
    ensures var p := Invoked(s, turn, r).value;
            (p == Blank(r).(data := p.data) && Yields(s, turn, r, p.data))
            || (p == Blank(r).(error := p.error) && FailsWith(s, turn, r, p.error))
  {
    var c, z := s.compressors[r.compresser].value, s.serializers[r.serializer].value;
    var plain := c.unCompress(r.data);
    if plain.Ok? {
      var input := z.decode(plain.value);
      if input.Ok? {
        DeadlineIs(s, turn, r, input.value);
      }
    }
  }

  /** What is not there is answered by an error of the server's own, before any codec is looked for. */
  lemma UnknownIs<V>(s: Server<V>, turn: nat, r: Req.Request)
    requires Valid(s)
    ensures r.serviceName !in s.services ==>
      Invoked(s, turn, r) == Some(Blank(r).(error := INVALID_SERVICE_NAME))
    ensures r.serviceName in s.services && r.methodName !in s.services[r.serviceName] ==>
      Invoked(s, turn, r) == Some(Blank(r).(error := NotFoundServiceMethod(r.methodName)))
  {
  }

  /** Codecs that read back what they write. */
  ghost predicate Inverse<V(!new)>(c: Compressor, z: Serializer<V>) {
    && (forall plain, d :: c.compress(plain) == Ok(d) ==> c.unCompress(d) == Ok(plain))
    && (forall v, plain :: z.encode(v) == Ok(plain) ==> z.decode(plain) == Ok(v))
  }

  /** What the caller sees who encoded and compressed the argument v: if the method fails, its error; if it
      returns a value that can be encoded and compressed, data that uncompresses and decodes to that value. */
  lemma CallerSees<V(!new)>(s: Server<V>, turn: nat, r: Req.Request, v: V, plain: bytes)
    requires Valid(s) && Callable(s, r)
    requires var c, z := s.compressors[r.compresser].value, s.serializers[r.serializer].value;
             Inverse(c, z) && z.encode(v) == Ok(plain) && c.compress(plain) == Ok(r.data)
    ensures Invoked(s, turn, r).Some?
    ensures var c, z := s.compressors[r.compresser].value, s.serializers[r.serializer].value;
            var output := s.services[r.serviceName][r.methodName](CallOf(s, turn, r, v));
            var p := Invoked(s, turn, r).value;
            match output
            case Err(message) => p.error == message && p.data == []
            case Ok(result) =>
              z.encode(result).Ok? && c.compress(z.encode(result).value).Ok? ==>
                && p.error == []
                && c.unCompress(p.data) == z.encode(result)
                && z.decode(z.encode(result).value) == Ok(result)
  {
    hide Invoked;
    AnswerIff(s, turn, r);
    var c, z := s.compressors[r.compresser].value, s.serializers[r.serializer].value;
    var output := s.services[r.serviceName][r.methodName](CallOf(s, turn, r, v));
    assert c.unCompress(r.data) == Ok(plain) && z.decode(plain) == Ok(v);
    match output
    case Err(message) => assert FailsWith(s, turn, r, message);
    case Ok(result) =>
      if z.encode(result).Ok? && c.compress(z.encode(result).value).Ok? {
        var bs := z.encode(result).value;
        var d := c.compress(bs).value;
        assert z.encode(result) == Ok(bs) && c.compress(bs) == Ok(d);
        assert Yields(s, turn, r, d);
      }
  }

  /** A request brings the server down exactly when its method exists and a codec it needs, in the order
      in which they are needed, was never registered. */
  lemma PanicsIff<V>(s: Server<V>, turn: nat, r: Req.Request)
    requires Valid(s)
    ensures Invoked(s, turn, r).None? <==>
      && r.serviceName in s.services && r.methodName in s.services[r.serviceName]
      && (s.compressors[r.compresser].None? ||
          (s.compressors[r.compresser].value.unCompress(r.data).Ok? && s.serializers[r.serializer].None?))
  {
    hide Executed;
  }

  /** reflectionStub.Invoke and the lookup before it, filling the response field by field. */
  method Invoke<V>(s: Server<V>, turn: nat, req: Req.Message) returns (response: Option<Resp.Message>)
    requires Valid(s)
    ensures response.Some? ==> fresh(response.value) && Invoked(s, turn, req.Value()) == Some(response.value.Value())
    ensures response.None? ==> Invoked(s, turn, req.Value()).None?
  {
    ghost var r := req.Value();
    var resp := new Resp.Message(req.messageId, req.version, req.compresser, req.serializer);
    if req.serviceName !in s.services {
      resp.error := INVALID_SERVICE_NAME;
      return Some(resp);
    }
    var methods := s.services[req.serviceName];
    if req.methodName !in methods {
      resp.error := NotFoundServiceMethod(req.methodName);
      return Some(resp);
    }
    var compressor := s.compressors[req.compresser];
    if compressor.None? {
      return None;
    }
    var plain := compressor.value.unCompress(req.data);
    if plain.Err? {
      resp.error := plain.message;
      return Some(resp);
    }
    var serializer := s.serializers[req.serializer];
    if serializer.None? {
      return None;
    }
    var input := serializer.value.decode(plain.value);
    if input.Err? {
      resp.error := input.message;
      return Some(resp);
    }
    var output := methods[req.methodName](Call(turn, Deadline(s, req.Value()), input.value));
    if output.Err? {
      resp.error := output.message;
      return Some(resp);
    }
    var bs := serializer.value.encode(output.value);
    if bs.Err? {
      resp.error := bs.message;
      return Some(resp);
    }
    bs := compressor.value.compress(bs.value);
    if bs.Err? {
      resp.error := bs.message;
      return Some(resp);
    }
    resp.data := bs.value;
    return Some(resp);
  }

  // ----- The loop over a connection -----

  /** What ReadMsg returns: a message, the end of the stream, or another error. */
  datatype Event = Msg(bs: bytes) | Eof | Broken

  datatype Reaction = Crash | Silence | Write(bs: bytes)

  datatype Fate = Serving | Closed | Crashed

  /** One turn of the loop for a message. */
  function React<V>(s: Server<V>, turn: nat, bs: bytes): Reaction
    requires Valid(s)
  {
    match Req.Decoded(bs)
    case None => Crash
    case Some(r) =>
      match Invoked(s, turn, r)
      case None => Crash
      case Some(p) =>
        if OneWay(r) then Silence
        else
          match Resp.Encoded(Resp.Measured(p))
          case None => Crash
          case Some(out) => Write(out)
  }

  /** Everything written in the first n turns, and what has become of the connection. An end of stream
      does not end the loop. */
  function Served<V>(s: Server<V>, events: seq<Event>, n: nat): (seq<bytes>, Fate)
    requires Valid(s) && n <= |events|
    decreases n
  {
    if n == 0 then ([], Serving)
    else
      var before := Served(s, events, n - 1);
      if before.1 != Serving then before
      else
        match events[n - 1]
        case Eof => before
        case Broken => (before.0, Closed)
        case Msg(bs) =>
          match React(s, n - 1, bs)
          case Crash => (before.0, Crashed)
          case Silence => before
          case Write(out) => (before.0 + [out], Serving)
  }

  /** An event after which the loop goes on: the end of the stream too, which makes it read again. */
  ghost predicate GoesOn<V>(s: Server<V>, turn: nat, event: Event)
    requires Valid(s)
  {
    event == Eof || (event.Msg? && !React(s, turn, event.bs).Crash?)
  }

  /** The connection is served as long as every event lets the loop go on; the first that does not decides
      whether it is closed, by a read error, or the server crashes. */
  lemma {:induction false} FateIff<V>(s: Server<V>, events: seq<Event>, n: nat)
    requires Valid(s) && n <= |events|
    ensures Served(s, events, n).1 == Serving <==> forall i :: 0 <= i < n ==> GoesOn(s, i, events[i])
    ensures Served(s, events, n).1 == Closed <==>
      exists i :: 0 <= i < n && events[i] == Broken && forall j :: 0 <= j < i ==> GoesOn(s, j, events[j])
    decreases n
  {
    hide React;
    if n > 0 {
      FateIff(s, events, n - 1);
      assert GoesOn(s, n - 1, events[n - 1]) || !GoesOn(s, n - 1, events[n - 1]);
    }
  }

  /** An end of stream writes nothing. */
  lemma EofWritesNothing<V>(s: Server<V>, events: seq<Event>, n: nat)
    requires Valid(s) && n < |events| && events[n] == Eof
    ensures Served(s, events, n + 1) == Served(s, events, n)
  {
  }

  lemma {:induction false} Stopped<V>(s: Server<V>, events: seq<Event>, n: nat, m: nat)
    requires Valid(s) && n <= m <= |events| && Served(s, events, n).1 != Serving
    ensures Served(s, events, m) == Served(s, events, n)
    decreases m
  {
    if n < m {
      Stopped(s, events, n, m - 1);
    }
  }

  /** handleConn, for a finite prefix of what the connection delivers. The result of Write is ignored. */
  method HandleConn<V>(s: Server<V>, events: seq<Event>) returns (written: seq<bytes>, fate: Fate)
    requires Valid(s)
    ensures (written, fate) == Served(s, events, |events|)
  {
    hide React;
    written, fate := [], Serving;
    for i := 0 to |events|
      invariant fate == Serving && (written, fate) == Served(s, events, i)
    {
      match events[i]
      case Eof => continue;
      case Broken =>
        fate := Closed;
        Stopped(s, events, i + 1, |events|);
        return;
      case Msg(bs) =>
        var reaction := Turn(s, i, bs);
        if reaction.Crash? {
          fate := Crashed;
          Stopped(s, events, i + 1, |events|);
          return;
        }
        if reaction.Silence? {
          continue;
        }
        written := written + [reaction.bs];
    }
  }

  method Turn<V>(s: Server<V>, turn: nat, bs: bytes) returns (reaction: Reaction)
    requires Valid(s)
    ensures reaction == React(s, turn, bs)
  {
    hide Invoked, Req.Decoded, Resp.Encoded;
    var req := Req.DecodeReq(bs);
    if req.None? {
      return Crash;
    }
    var resp := Invoke(s, turn, req.value);
    if resp.None? {
      return Crash;
    }
    if OneWay(req.value.Value()) {
      return Silence;
    }
    ghost var p := resp.value.Value();
    resp.value.CalculateHeaderLength();
    resp.value.CalculateBodyLength();
    assert resp.value.Value() == Resp.Measured(p);
    var out := Resp.EncodeResp(resp.value);
    if out.None? {
      return Crash;
    }
    return Write(out.value[..]);
  }

  // ----- Whole conversations -----

  /** The events of a transport that delivers the requests one by one. */
  ghost function Delivered(reqs: seq<Req.Request>, orders: seq<seq<bytes>>): (events: seq<Event>)
    requires Sendable(reqs, orders)
    ensures |events| == |reqs|
  {
    seq(|reqs|, i requires 0 <= i < |reqs| => Msg(WireOf(reqs[i], orders[i])))
  }

  /** What the server computes for request i. */
  ghost function Reply<V>(s: Server<V>, reqs: seq<Req.Request>, i: nat): Option<Resp.Response>
    requires Valid(s) && i < |reqs|
  {
    Invoked(s, i, Req.Measured(reqs[i]))
  }

  /** Request i does not bring the server down, which PanicsIff describes, and the response it wants is
      shorter than 2^32 bytes. */
  ghost predicate Answerable<V>(s: Server<V>, reqs: seq<Req.Request>, i: nat)
    requires Valid(s) && i < |reqs|
  {
    Reply(s, reqs, i).Some? && (!OneWay(reqs[i]) ==> Resp.Fits(Reply(s, reqs, i).value))
  }

  /** The positions of the requests that want an answer. */
  ghost function Waiting(reqs: seq<Req.Request>, n: nat): (w: seq<nat>)
    requires n <= |reqs|
    ensures forall j :: 0 <= j < |w| ==> w[j] < n && !OneWay(reqs[w[j]])
    ensures forall i, j :: 0 <= i < j < |w| ==> w[i] < w[j]
    ensures forall i :: 0 <= i < n && !OneWay(reqs[i]) ==> i in w
  {
    if n == 0 then []
    else if OneWay(reqs[n - 1]) then Waiting(reqs, n - 1)
    else Waiting(reqs, n - 1) + [n - 1]
  }

  /** bs is one whole message, and it is the response to request i. */
  ghost predicate Answers<V>(s: Server<V>, reqs: seq<Req.Request>, i: nat, bs: bytes)
    requires Valid(s) && i < |reqs|
  {
    && IsFrame(bs)
    && Reply(s, reqs, i).Some?
    && var p := Reply(s, reqs, i).value;
       && Resp.Decoded(bs) == Some(Resp.Measured(p))
       && Echoes(p, reqs[i])
       && (p.error == [] || p.data == [])
  }

  /** The turn in which request i arrives. */
  lemma TurnOf<V>(s: Server<V>, reqs: seq<Req.Request>, orders: seq<seq<bytes>>, i: nat)
    requires Valid(s) && Sendable(reqs, orders) && i < |reqs|
    ensures React(s, i, WireOf(reqs[i], orders[i])) ==
      match Reply(s, reqs, i)
      case None => Crash
      case Some(p) =>
        if OneWay(reqs[i]) then Silence
        else
          match Resp.Encoded(Resp.Measured(p))
          case None => Crash
          case Some(bs) => Write(bs)
  {
    hide Invoked, Req.Decoded, Resp.Encoded, Resp.Decoded;
  }

  /** Only the metadata silences the server. */
  lemma SilentIff<V>(s: Server<V>, reqs: seq<Req.Request>, orders: seq<seq<bytes>>, i: nat)
    requires Valid(s) && Sendable(reqs, orders) && i < |reqs| && Reply(s, reqs, i).Some?
    ensures React(s, i, WireOf(reqs[i], orders[i])) == Silence <==>
      var key: bytes := [111, 110, 101, 45, 119, 97, 121];
      key in reqs[i].meta && reqs[i].meta[key] == [116, 114, 117, 101]
  {
    hide React, Reply, WireOf, OneWay;
    TurnOf(s, reqs, orders, i);
    OneWayIff(reqs[i]);
  }

  /** What is written in that turn is the answer exactly when the response is short enough. */
  lemma AnswersIff<V>(s: Server<V>, reqs: seq<Req.Request>, i: nat, bs: bytes)
    requires Valid(s) && i < |reqs| && Reply(s, reqs, i).Some?
    requires Resp.Encoded(Resp.Measured(Reply(s, reqs, i).value)) == Some(bs)
    ensures Answers(s, reqs, i, bs) <==> Resp.Fits(Reply(s, reqs, i).value)
  {
    hide Invoked, Req.Decoded, Resp.Encoded, Resp.Decoded, IsFrame;
    var p := Reply(s, reqs, i).value;
    Resp.RoundTripIff(p);
    ResponseBelongs(s, i, Req.Measured(reqs[i]));
    if Resp.Fits(p) {
      ResponseIsFrame(p);
    }
  }

  /** The request is passed over or answered as it asks. */
  ghost predicate Proper<V>(s: Server<V>, reqs: seq<Req.Request>, i: nat, reaction: Reaction)
    requires Valid(s) && i < |reqs|
  {
    if OneWay(reqs[i]) then reaction == Silence else reaction.Write? && Answers(s, reqs, i, reaction.bs)
  }

  lemma ProperIff<V>(s: Server<V>, reqs: seq<Req.Request>, orders: seq<seq<bytes>>, i: nat)
    requires Valid(s) && Sendable(reqs, orders) && i < |reqs|
    ensures Proper(s, reqs, i, React(s, i, WireOf(reqs[i], orders[i]))) <==> Answerable(s, reqs, i)
  {
    hide React, Answers, Reply, Resp.Encoded, WireOf;
    TurnOf(s, reqs, orders, i);
    if Reply(s, reqs, i).Some? {
      var p := Reply(s, reqs, i).value;
      Resp.RoundTripIff(p);
      if Resp.Encoded(Resp.Measured(p)).Some? {
        AnswersIff(s, reqs, i, Resp.Encoded(Resp.Measured(p)).value);
      }
    }
  }

  /** Message j written after n turns is the response to the j-th request that wants one. */
  ghost predicate Matches<V>(s: Server<V>, reqs: seq<Req.Request>, out: seq<bytes>, n: nat)
    requires Valid(s) && n <= |reqs|
  {
    var w := Waiting(reqs, n);
    |out| == |w| && forall j :: 0 <= j < |w| ==> Answers(s, reqs, w[j], out[j])
  }

  lemma MatchesWithOneMore<V>(s: Server<V>, reqs: seq<Req.Request>, out: seq<bytes>, n: nat, bs: bytes)
    requires Valid(s) && n < |reqs|
    ensures OneWay(reqs[n]) ==> (Matches(s, reqs, out, n + 1) <==> Matches(s, reqs, out, n))
    ensures !OneWay(reqs[n]) ==>
      (Matches(s, reqs, out + [bs], n + 1) <==> Matches(s, reqs, out, n) && Answers(s, reqs, n, bs))
  {
    hide Answers, OneWay;
    var w := Waiting(reqs, n);
    if !OneWay(reqs[n]) && Matches(s, reqs, out + [bs], n + 1) {
      forall j | 0 <= j < |w|
        ensures Answers(s, reqs, w[j], out[j])
      {
        assert (w + [n])[j] == w[j] && (out + [bs])[j] == out[j];
      }
      assert (w + [n])[|w|] == n && (out + [bs])[|w|] == bs;
    }
  }

  /** The first n requests have been served, and served right. */
  ghost predicate ServedRight<V>(s: Server<V>, reqs: seq<Req.Request>, orders: seq<seq<bytes>>, n: nat)
    requires Valid(s) && Sendable(reqs, orders) && n <= |reqs|
  {
    var r := Served(s, Delivered(reqs, orders), n);
    r.1 == Serving && Matches(s, reqs, r.0, n)
  }

  /** One more request is served right exactly when the ones before were and this one is answerable. */
  lemma ServesOneMore<V>(s: Server<V>, reqs: seq<Req.Request>, orders: seq<seq<bytes>>, n: nat)
    requires Valid(s) && Sendable(reqs, orders) && n < |reqs|
    ensures ServedRight(s, reqs, orders, n + 1) <==> ServedRight(s, reqs, orders, n) && Answerable(s, reqs, n)
  {
    ProperIff(s, reqs, orders, n);
    MessageArrives(s, reqs, orders, n);
    StaysRightIff(s, reqs, orders, n, React(s, n, WireOf(reqs[n], orders[n])));
  }

  /** What one delivered message does to the connection. */
  lemma MessageArrives<V>(s: Server<V>, reqs: seq<Req.Request>, orders: seq<seq<bytes>>, n: nat)
    requires Valid(s) && Sendable(reqs, orders) && n < |reqs|
    ensures var events, reaction := Delivered(reqs, orders), React(s, n, WireOf(reqs[n], orders[n]));
            Served(s, events, n + 1) == Continued(Served(s, events, n), reaction)
  {
    hide React, WireOf;
    assert Delivered(reqs, orders)[n] == Msg(WireOf(reqs[n], orders[n]));
  }

  ghost function Continued(before: (seq<bytes>, Fate), reaction: Reaction): (seq<bytes>, Fate) {
    if before.1 != Serving || reaction.Silence? then before
    else if reaction.Crash? then (before.0, Crashed)
    else (before.0 + [reaction.bs], Serving)
  }

  lemma StaysRightIff<V>(s: Server<V>, reqs: seq<Req.Request>, orders: seq<seq<bytes>>, n: nat, reaction: Reaction)
    requires Valid(s) && Sendable(reqs, orders) && n < |reqs|
    requires var events := Delivered(reqs, orders);
             Served(s, events, n + 1) == Continued(Served(s, events, n), reaction)
    requires OneWay(reqs[n]) ==> !reaction.Write?
    requires !OneWay(reqs[n]) ==> !reaction.Silence?
    ensures ServedRight(s, reqs, orders, n + 1) <==>
            ServedRight(s, reqs, orders, n) && Proper(s, reqs, n, reaction)
  {
    hide React, Answers, OneWay, WireOf, Matches, Served;
    var out := Served(s, Delivered(reqs, orders), n).0;
    MatchesWithOneMore(s, reqs, out, n, if reaction.Write? then reaction.bs else []);
  }

  lemma NothingServed<V>(s: Server<V>, reqs: seq<Req.Request>, orders: seq<seq<bytes>>)
    requires Valid(s) && Sendable(reqs, orders)
    ensures ServedRight(s, reqs, orders, 0)
  {
  }

  lemma {:induction false} ServedRightIff<V>(s: Server<V>, reqs: seq<Req.Request>, orders: seq<seq<bytes>>, n: nat)
    requires Valid(s) && Sendable(reqs, orders) && n <= |reqs|
    ensures ServedRight(s, reqs, orders, n) <==> forall i :: 0 <= i < n ==> Answerable(s, reqs, i)
    decreases n
  {
    hide *;
    if n == 0 {
      NothingServed(s, reqs, orders);
    } else {
      ServedRightIff(s, reqs, orders, n - 1);
      ServesOneMore(s, reqs, orders, n - 1);
    }
  }

  /** For every sequence of requests: the connection stays up and the messages written are exactly one
      response for each request that is not one-way, in order, each with its request's message id, version,
      compressor and serializer, if and only if every request is answerable. The bytes written then split
      back into those messages. */
  lemma OneResponseEachIff<V>(s: Server<V>, reqs: seq<Req.Request>, orders: seq<seq<bytes>>)
    requires Valid(s) && Sendable(reqs, orders)
    ensures var r := Served(s, Delivered(reqs, orders), |reqs|);
      && (r.1 == Serving && Matches(s, reqs, r.0, |reqs|) <==>
          forall i :: 0 <= i < |reqs| ==> Answerable(s, reqs, i))
      && (Matches(s, reqs, r.0, |reqs|) ==> Split(Join(r.0)) == Some(r.0))
  {
    hide Served, Answerable;
    ServedRightIff(s, reqs, orders, |reqs|);
    var out := Served(s, Delivered(reqs, orders), |reqs|).0;
    if Matches(s, reqs, out, |reqs|) {
      SplitOfJoin(out);
    }
  }
}
