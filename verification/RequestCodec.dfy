/**
 The request message of rpc/message/request.go: an encoder that fills a buffer in place, walking the
 metadata map in whatever order the runtime picks, and a decoder that scans for delimiters. None
 stands for a panic.
 */
module RequestCodec {
  import opened Prelude
  import opened Wire

  /** Strings are Go strings, sequences of bytes; a nil map is an empty map, a nil slice an empty one. */
  datatype Request = Request(
    headLength: uint32, bodyLength: uint32, messageId: uint32, version: byte, compresser: byte, serializer: byte,
    serviceName: bytes, methodName: bytes, meta: map<bytes, bytes>, data: bytes)

  // ----- What the encoder writes -----

  /** keys lists every key of the map once: one possible iteration order. */
  ghost predicate Enumerates(keys: seq<bytes>, meta: map<bytes, bytes>) {
    && (forall i, j :: 0 <= i < j < |keys| ==> keys[i] != keys[j])
    && (forall k :: k in keys <==> k in meta)
  }

  function Entry(key: bytes, value: bytes): bytes {
    key + [PAIR_SPLITTER] + value + [SPLITTER]
  }

  ghost function MetaText(keys: seq<bytes>, meta: map<bytes, bytes>): bytes
    requires forall k :: k in keys ==> k in meta
  {
    if keys == [] then [] else Entry(keys[0], meta[keys[0]]) + MetaText(keys[1..], meta)
  }

  lemma {:induction false} MetaTextAppend(keys: seq<bytes>, key: bytes, meta: map<bytes, bytes>)
    requires key in meta && forall k :: k in keys ==> k in meta
    ensures MetaText(keys + [key], meta) == MetaText(keys, meta) + Entry(key, meta[key])
  {
    if keys == [] {
      assert [key][1..] == [];
    } else {
      MetaTextAppend(keys[1..], key, meta);
      assert (keys + [key])[1..] == keys[1..] + [key];
    }
  }

  /** The bytes all pairs take together, in no particular order. */
  ghost function MetaSize(meta: map<bytes, bytes>): nat {
    if meta == map[] then 0
    else
      var k :| k in meta;
      |Entry(k, meta[k])| + MetaSize(meta - {k})
  }

  lemma {:induction false} MetaSizeAnyOrder(meta: map<bytes, bytes>, k: bytes)
    requires k in meta
    ensures MetaSize(meta) == |Entry(k, meta[k])| + MetaSize(meta - {k})
    decreases |meta|
  {
    var first :| first in meta && MetaSize(meta) == |Entry(first, meta[first])| + MetaSize(meta - {first});
    if first != k {
      assert |meta - {first}| < |meta| && |meta - {k}| < |meta| by {
        Shrinks(meta, first);
        Shrinks(meta, k);
      }
      MetaSizeAnyOrder(meta - {first}, k);
      MetaSizeAnyOrder(meta - {k}, first);
      assert meta - {first} - {k} == meta - {k} - {first};
    }
  }

  lemma Shrinks(meta: map<bytes, bytes>, k: bytes)
    requires k in meta
    ensures |meta - {k}| == |meta| - 1
  {
    assert (meta - {k}).Keys == meta.Keys - {k};
    assert |meta.Keys| == |meta| && |(meta - {k}).Keys| == |meta - {k}|;
  }

  /** Every iteration order writes the same number of bytes. */
  lemma {:induction false} MetaTextSize(keys: seq<bytes>, meta: map<bytes, bytes>)
    requires Enumerates(keys, meta)
    ensures |MetaText(keys, meta)| == MetaSize(meta)
  {
    if keys == [] {
      assert meta == map[];
    } else {
      var k, rest := keys[0], meta - {keys[0]};
      assert forall x :: x in keys[1..] ==> x in keys && x != k;
      assert forall x :: x in keys ==> x == k || x in keys[1..];
      MetaTextSize(keys[1..], rest);
      MetaTextFrame(keys[1..], meta, rest);
      MetaSizeAnyOrder(meta, k);
    }
  }

  lemma {:induction false} MetaTextFrame(keys: seq<bytes>, m: map<bytes, bytes>, n: map<bytes, bytes>)
    requires forall k :: k in keys ==> k in m && k in n && m[k] == n[k]
    ensures MetaText(keys, m) == MetaText(keys, n)
  {
    if keys != [] {
      MetaTextFrame(keys[1..], m, n);
    }
  }

  ghost function HeaderSize(r: Request): nat {
    15 + |r.serviceName| + 1 + |r.methodName| + 1 + MetaSize(r.meta)
  }

  /** The request with the lengths that CalculateHeaderLength and CalculateBodyLength set. */
  ghost function Measured(r: Request): Request {
    r.(headLength := Wrap32(HeaderSize(r)), bodyLength := Wrap32(|r.data|))
  }

  ghost function Head(r: Request, keys: seq<bytes>): (h: bytes)
    requires forall k :: k in keys ==> k in r.meta
    ensures |h| >= 15
    ensures h[..15] == Fixed(r.headLength, r.bodyLength, r.messageId, r.version, r.compresser, r.serializer)
  {
    Fixed(r.headLength, r.bodyLength, r.messageId, r.version, r.compresser, r.serializer)
    + r.serviceName + [SPLITTER] + r.methodName + [SPLITTER] + MetaText(keys, r.meta)
  }

  lemma HeadSize(r: Request, keys: seq<bytes>)
    requires Enumerates(keys, r.meta)
    ensures |Head(r, keys)| == HeaderSize(r)
  {
    MetaTextSize(keys, r.meta);
  }

  /** The buffer after EncodeReq; its size is a uint32 sum, a header that does not fit panics, and data
      that does not fit is silently cut off. */
  ghost function Encoded(r: Request, keys: seq<bytes>): Option<bytes>
    requires forall k :: k in keys ==> k in r.meta
  {
    var size := Wrap32(r.headLength as int + r.bodyLength as int);
    var head := Head(r, keys);
    if |head| > size then None else Some(head + Fit(r.data, size - |head|))
  }

  // ----- What the decoder reads -----

  function DecodeMeta(header: bytes, meta: map<bytes, bytes>): Option<map<bytes, bytes>>
    decreases |header|
  {
    var index := IndexByte(header, SPLITTER);
    if index == -1 then Some(meta)
    else
      var pair := header[..index];
      var pairIndex := IndexByte(pair, PAIR_SPLITTER);
      if pairIndex == -1 then None
      else DecodeMeta(header[index + 1..], meta[pair[..pairIndex] := pair[pairIndex + 1..]])
  }

  /** Service name, method name, and what follows them. */
  function DecodeNames(header: bytes): Option<(bytes, bytes, bytes)> {
    var i := IndexByte(header, SPLITTER);
    if i == -1 then None
    else
      var rest := header[i + 1..];
      var j := IndexByte(rest, SPLITTER);
      if j == -1 then None else Some((header[..i], rest[..j], rest[j + 1..]))
  }

  function Decoded(bs: bytes): Option<Request> {
    if |bs| < 15 then None
    else
      var headLength, bodyLength := Uint32(bs[..4]), Uint32(bs[4..8]);
      if headLength < 15 || headLength > |bs| then None
      else
        match DecodeNames(bs[15..headLength])
        case None => None
        case Some(names) =>
          match DecodeMeta(names.2, map[])
          case None => None
          case Some(meta) =>
            Some(Request(headLength, bodyLength, Uint32(bs[8..12]), bs[12], bs[13], bs[14], names.0, names.1, meta,
                         if bodyLength != 0 then bs[headLength..] else []))
  }

  // ----- The round trip -----

  ghost predicate CleanMeta(meta: map<bytes, bytes>) {
    forall k :: k in meta ==> SPLITTER !in k && PAIR_SPLITTER !in k && SPLITTER !in meta[k]
  }

  /** The delimiters stay out of names, keys and values. Data may hold any bytes. */
  ghost predicate Clean(r: Request) {
    SPLITTER !in r.serviceName && SPLITTER !in r.methodName && CleanMeta(r.meta)
  }

  ghost predicate Fits(r: Request) {
    HeaderSize(r) + |r.data| < TWO32
  }

  /** Whatever the decoder accepts, the parts it hands out hold no delimiter. */
  lemma {:induction false} DecodeMetaIsClean(header: bytes, meta: map<bytes, bytes>)
    requires CleanMeta(meta) && DecodeMeta(header, meta).Some?
    ensures CleanMeta(DecodeMeta(header, meta).value)
    decreases |header|
  {
    var index := IndexByte(header, SPLITTER);
    if index != -1 {
      var pair := header[..index];
      var p := IndexByte(pair, PAIR_SPLITTER);
      PairIsClean(pair, p, meta);
      DecodeMetaIsClean(header[index + 1..], meta[pair[..p] := pair[p + 1..]]);
    }
  }

  lemma PairIsClean(pair: bytes, p: nat, meta: map<bytes, bytes>)
    requires CleanMeta(meta) && SPLITTER !in pair && p < |pair| && PAIR_SPLITTER !in pair[..p]
    ensures CleanMeta(meta[pair[..p] := pair[p + 1..]])
  {
    assert SPLITTER !in pair[..p] && SPLITTER !in pair[p + 1..];
  }

  lemma DecodedIsClean(bs: bytes)
    requires Decoded(bs).Some?
    ensures Clean(Decoded(bs).value)
  {
    DecodeMetaIsClean(DecodeNames(bs[15..Uint32(bs[..4])]).value.2, map[]);
  }

  /** The scan takes off the first pair and goes on with the rest. */
  lemma DecodeEntry(key: bytes, value: bytes, more: bytes, got: map<bytes, bytes>)
    requires SPLITTER !in key && PAIR_SPLITTER !in key && SPLITTER !in value
    ensures DecodeMeta(Entry(key, value) + more, got) == DecodeMeta(more, got[key := value])
  {
    var pair := key + [PAIR_SPLITTER] + value;
    var text := Entry(key, value) + more;
    assert text == pair + [SPLITTER] + more;
    IndexOfDelimiter(pair, SPLITTER, more);
    IndexOfDelimiter(key, PAIR_SPLITTER, value);
    assert text[..|pair|] == pair && text[|pair| + 1..] == more;
    assert pair[..|key|] == key && pair[|key| + 1..] == value;
  }

  /** got with the pairs of keys stored into it one after the other. */
  ghost function Stored(keys: seq<bytes>, meta: map<bytes, bytes>, got: map<bytes, bytes>): map<bytes, bytes>
    requires forall k :: k in keys ==> k in meta
  {
    if keys == [] then got else Stored(keys[1..], meta, got[keys[0] := meta[keys[0]]])
  }

  lemma {:induction false} DecodeMetaOfText(keys: seq<bytes>, meta: map<bytes, bytes>, got: map<bytes, bytes>)
    requires CleanMeta(meta) && forall k :: k in keys ==> k in meta
    ensures DecodeMeta(MetaText(keys, meta), got) == Some(Stored(keys, meta, got))
  {
    if keys != [] {
      var key, value := keys[0], meta[keys[0]];
      DecodeEntry(key, value, MetaText(keys[1..], meta), got);
      DecodeMetaOfText(keys[1..], meta, got[key := value]);
    }
  }

  lemma {:induction false} StoredIsPart(keys: seq<bytes>, meta: map<bytes, bytes>, got: map<bytes, bytes>)
    requires forall k :: k in keys ==> k in meta
    requires forall k :: k in got ==> k in meta && got[k] == meta[k]
    ensures var r := Stored(keys, meta, got);
            && (forall k :: k in r <==> k in got || k in keys)
            && (forall k :: k in r ==> k in meta && r[k] == meta[k])
  {
    if keys != [] {
      StoredIsPart(keys[1..], meta, got[keys[0] := meta[keys[0]]]);
    }
  }

  /** Whatever order the map was walked in, scanning restores it. */
  lemma WholeMap(keys: seq<bytes>, meta: map<bytes, bytes>)
    requires Enumerates(keys, meta) && CleanMeta(meta)
    ensures DecodeMeta(MetaText(keys, meta), map[]) == Some(meta)
  {
    DecodeMetaOfText(keys, meta, map[]);
    StoredIsPart(keys, meta, map[]);
    assert Stored(keys, meta, map[]) == meta;
  }

  lemma NamesReadBack(service: bytes, method_: bytes, text: bytes)
    requires SPLITTER !in service && SPLITTER !in method_
    ensures DecodeNames(service + [SPLITTER] + method_ + [SPLITTER] + text) == Some((service, method_, text))
  {
    var header, rest := service + [SPLITTER] + method_ + [SPLITTER] + text, method_ + [SPLITTER] + text;
    assert header == service + [SPLITTER] + rest;
    IndexOfDelimiter(service, SPLITTER, rest);
    IndexOfDelimiter(method_, SPLITTER, text);
    assert header[..|service|] == service && header[|service| + 1..] == rest;
    assert rest[..|method_|] == method_ && rest[|method_| + 1..] == text;
  }

  /** What the encoder writes for a message that fits, and where its parts lie. */
  lemma EncodedLayout(r: Request, keys: seq<bytes>)
    requires Enumerates(keys, r.meta) && Fits(r)
    ensures var m, e := Measured(r), Encoded(Measured(r), keys);
            && m.headLength == HeaderSize(r) && m.bodyLength == |r.data|
            && e.Some? && e.value == Head(m, keys) + r.data && |Head(m, keys)| == HeaderSize(r)
  {
    hide Wrap32, MetaSize, MetaText, Head;
    HeadSize(Measured(r), keys);
    WrapFits(HeaderSize(r));
    WrapFits(|r.data|);
    WrapFits(HeaderSize(r) + |r.data|);
    assert Fit(r.data, |r.data|) == r.data;
  }

  /** The layout on the wire: the fixed fields, the names and the pairs with their delimiters, the data. */
  lemma WireLayout(r: Request, keys: seq<bytes>)
    requires Enumerates(keys, r.meta) && Fits(r)
    ensures var e := Encoded(Measured(r), keys);
      && e.Some? && |e.value| == HeaderSize(r) + |r.data|
      && var b := e.value;
      && b[0] as int * 0x100_0000 + b[1] as int * 0x1_0000 + b[2] as int * 0x100 + b[3] as int == HeaderSize(r)
      && b[4] as int * 0x100_0000 + b[5] as int * 0x1_0000 + b[6] as int * 0x100 + b[7] as int == |r.data|
      && b[8] as int * 0x100_0000 + b[9] as int * 0x1_0000 + b[10] as int * 0x100 + b[11] as int == r.messageId
      && b[12] == r.version && b[13] == r.compresser && b[14] == r.serializer
      && b[15..] == r.serviceName + [10] + r.methodName + [10] + PairsText(PairsOf(keys, r.meta)) + r.data
  {
    hide Wrap32, MetaSize;
    var m := Measured(r);
    EncodedLayout(r, keys);
    var b, head := Encoded(m, keys).value, Head(m, keys);
    assert b[..15] == head[..15];
    FixedLayout(b, m.headLength, m.bodyLength, m.messageId, m.version, m.compresser, m.serializer);
    TextOfPairs(keys, r.meta);
    assert head[15..] == r.serviceName + [10] + r.methodName + [10] + MetaText(keys, r.meta);
    assert b[15..] == head[15..] + r.data;
  }

  /** Key-value pairs one after the other, each with a carriage return inside and a newline behind. */
  ghost function PairsText(pairs: seq<(bytes, bytes)>): bytes {
    if pairs == [] then [] else pairs[0].0 + [13] + pairs[0].1 + [10] + PairsText(pairs[1..])
  }

  ghost function PairsOf(keys: seq<bytes>, meta: map<bytes, bytes>): (pairs: seq<(bytes, bytes)>)
    requires forall k :: k in keys ==> k in meta
    ensures |pairs| == |keys|
  {
    seq(|keys|, i requires 0 <= i < |keys| => (keys[i], meta[keys[i]]))
  }

  lemma {:induction false} TextOfPairs(keys: seq<bytes>, meta: map<bytes, bytes>)
    requires forall k :: k in keys ==> k in meta
    ensures MetaText(keys, meta) == PairsText(PairsOf(keys, meta))
  {
    if keys != [] {
      TextOfPairs(keys[1..], meta);
      assert PairsOf(keys, meta)[1..] == PairsOf(keys[1..], meta);
    }
  }

  // ----- The decoder on any bytes -----

  /** got with the pairs stored into it, a later one over an earlier one of the same key. */
  ghost function PairsStored(pairs: seq<(bytes, bytes)>, got: map<bytes, bytes>): map<bytes, bytes> {
    if pairs == [] then got else PairsStored(pairs[1..], got[pairs[0].0 := pairs[0].1])
  }

  ghost predicate CleanPairs(pairs: seq<(bytes, bytes)>) {
    forall i :: 0 <= i < |pairs| ==> 10 !in pairs[i].0 && 13 !in pairs[i].0 && 10 !in pairs[i].1
  }

  /** A header is two lines, the names, then any number of pairs, then anything without a newline. */
  ghost predicate Reads(header: bytes, service: bytes, method_: bytes, pairs: seq<(bytes, bytes)>, tail: bytes) {
    && 10 !in service && 10 !in method_ && CleanPairs(pairs) && 10 !in tail
    && header == service + [10] + method_ + [10] + (PairsText(pairs) + tail)
  }

  lemma {:induction false} PairsRead(pairs: seq<(bytes, bytes)>, tail: bytes, got: map<bytes, bytes>)
    requires CleanPairs(pairs) && 10 !in tail
    ensures DecodeMeta(PairsText(pairs) + tail, got) == Some(PairsStored(pairs, got))
  {
    if pairs == [] {
      assert [] + tail == tail;
    } else {
      var rest := PairsText(pairs[1..]) + tail;
      DecodeEntry(pairs[0].0, pairs[0].1, rest, got);
      assert PairsText(pairs) + tail == Entry(pairs[0].0, pairs[0].1) + rest;
      PairsRead(pairs[1..], tail, got[pairs[0].0 := pairs[0].1]);
    }
  }

  lemma {:induction false} PairsFound(header: bytes, got: map<bytes, bytes>)
      returns (pairs: seq<(bytes, bytes)>, tail: bytes)
    requires DecodeMeta(header, got).Some?
    ensures CleanPairs(pairs) && 10 !in tail && header == PairsText(pairs) + tail
    decreases |header|
  {
    var index := IndexByte(header, SPLITTER);
    if index == -1 {
      pairs, tail := [], header;
    } else {
      var pair := header[..index];
      var p := IndexByte(pair, PAIR_SPLITTER);
      var key, value := pair[..p], pair[p + 1..];
      var rest;
      rest, tail := PairsFound(header[index + 1..], got[key := value]);
      pairs := [(key, value)] + rest;
      hide *;
      FirstPair(header, index, p);
      OneMorePair(key, value, rest, tail);
      PairsClean(key, value, rest);
    }
  }

  lemma FirstPair(header: bytes, index: nat, p: nat)
    requires index < |header| && header[index] == SPLITTER && SPLITTER !in header[..index]
    requires p < index && header[..index][p] == PAIR_SPLITTER && PAIR_SPLITTER !in header[..index][..p]
    ensures var pair := header[..index];
      && header == (pair[..p] + [13] + pair[p + 1..] + [10]) + header[index + 1..]
      && 10 !in pair[..p] && 13 !in pair[..p] && 10 !in pair[p + 1..]
  {
    var pair := header[..index];
    assert pair == pair[..p] + [13] + pair[p + 1..];
    assert header == pair + [10] + header[index + 1..];
  }

  lemma OneMorePair(key: bytes, value: bytes, rest: seq<(bytes, bytes)>, tail: bytes)
    ensures PairsText([(key, value)] + rest) + tail == (key + [13] + value + [10]) + (PairsText(rest) + tail)
  {
    assert ([(key, value)] + rest)[1..] == rest;
  }

  lemma PairsClean(key: bytes, value: bytes, rest: seq<(bytes, bytes)>)
    requires CleanPairs(rest) && 10 !in key && 13 !in key && 10 !in value
    ensures CleanPairs([(key, value)] + rest)
  {
  }

  /** The panics of the decoder: it survives exactly the bytes that have a header of the announced length,
      of at least 15 bytes, that reads as names and pairs. */
  lemma DecodesIff(bs: bytes)
    ensures Decoded(bs).Some? <==>
      |bs| >= 15 && 15 <= Uint32(bs[..4]) <= |bs| &&
      exists service, method_, pairs, tail :: Reads(bs[15..Uint32(bs[..4])], service, method_, pairs, tail)
  {
    hide Uint32, DecodeMeta, DecodeNames, Reads;
    if |bs| >= 15 && 15 <= Uint32(bs[..4]) <= |bs| {
      var header := bs[15..Uint32(bs[..4])];
      if Decoded(bs).Some? {
        var pairs, tail := PairsFound(DecodeNames(header).value.2, map[]);
        NamesFound(header, pairs, tail);
      } else if service, method_, pairs, tail :| Reads(header, service, method_, pairs, tail) {
        HeaderRead(header, service, method_, pairs, tail);
      }
    }
  }

  lemma NamesFound(header: bytes, pairs: seq<(bytes, bytes)>, tail: bytes)
    requires DecodeNames(header).Some? && CleanPairs(pairs) && 10 !in tail
    requires DecodeNames(header).value.2 == PairsText(pairs) + tail
    ensures Reads(header, DecodeNames(header).value.0, DecodeNames(header).value.1, pairs, tail)
  {
    hide PairsText, CleanPairs;
    var i := IndexByte(header, SPLITTER);
    var rest := header[i + 1..];
    var j := IndexByte(rest, SPLITTER);
    assert header == header[..i] + [10] + rest;
    assert rest == rest[..j] + [10] + rest[j + 1..];
    ThreeParts(header[..i], rest[..j], PairsText(pairs) + tail);
  }

  lemma ThreeParts(a: bytes, b: bytes, c: bytes)
    ensures a + [10] + (b + [10] + c) == a + [10] + b + [10] + c
  {
  }

  lemma HeaderRead(header: bytes, service: bytes, method_: bytes, pairs: seq<(bytes, bytes)>, tail: bytes)
    requires Reads(header, service, method_, pairs, tail)
    ensures DecodeNames(header) == Some((service, method_, PairsText(pairs) + tail))
    ensures DecodeMeta(PairsText(pairs) + tail, map[]) == Some(PairsStored(pairs, map[]))
  {
    NamesReadBack(service, method_, PairsText(pairs) + tail);
    PairsRead(pairs, tail, map[]);
  }

  /** And what it makes of them: the names, the pairs with later ones over earlier ones, and as data what
      follows the header, unless the second word is 0. */
  lemma DecodedMeans(bs: bytes, service: bytes, method_: bytes, pairs: seq<(bytes, bytes)>, tail: bytes)
    requires |bs| >= 15 && 15 <= Uint32(bs[..4]) <= |bs|
    requires Reads(bs[15..Uint32(bs[..4])], service, method_, pairs, tail)
    ensures Decoded(bs) == Some(Request(
      Uint32(bs[..4]), Uint32(bs[4..8]), Uint32(bs[8..12]), bs[12], bs[13], bs[14], service, method_,
      PairsStored(pairs, map[]), if Uint32(bs[4..8]) == 0 then [] else bs[Uint32(bs[..4])..]))
  {
    hide Uint32, DecodeMeta, DecodeNames;
    HeaderRead(bs[15..Uint32(bs[..4])], service, method_, pairs, tail);
  }

  lemma CleanRoundTrip(r: Request, keys: seq<bytes>)
    requires Enumerates(keys, r.meta) && Clean(r) && Fits(r)
    ensures var e := Encoded(Measured(r), keys);
            && e.Some? && Decoded(e.value) == Some(Measured(r))
            && |e.value| == HeaderSize(r) + |r.data|
  {
    var m := Measured(r);
    EncodedLayout(r, keys);
    var head, bs := Head(m, keys), Encoded(m, keys).value;
    assert bs[..15] == head[..15];
    FixedReadsBack(bs, m.headLength, m.bodyLength, m.messageId, m.version, m.compresser, m.serializer);
    assert bs[15..m.headLength] == head[15..];
    assert head[15..] == r.serviceName + [SPLITTER] + r.methodName + [SPLITTER] + MetaText(keys, r.meta);
    NamesReadBack(r.serviceName, r.methodName, MetaText(keys, r.meta));
    WholeMap(keys, r.meta);
    assert bs[m.headLength..] == r.data;
  }

  /** A message of 2^32 bytes or more either panics or loses data. */
  lemma TooLongFails(r: Request, keys: seq<bytes>)
    requires Enumerates(keys, r.meta) && !Fits(r)
    requires Encoded(Measured(r), keys).Some? && Decoded(Encoded(Measured(r), keys).value).Some?
    ensures Decoded(Encoded(Measured(r), keys).value).value.data != r.data
  {
    hide Decoded, Encoded, Wrap32, MetaSize;
    EncodedSize(Measured(r), keys);
    var bs := Encoded(Measured(r), keys).value;
    LostSize(HeaderSize(r), |r.data|, |bs|);
    DataWithin(bs);
  }

  lemma EncodedSize(r: Request, keys: seq<bytes>)
    requires Enumerates(keys, r.meta) && Encoded(r, keys).Some?
    ensures HeaderSize(r) <= |Encoded(r, keys).value| == Wrap32(r.headLength as int + r.bodyLength as int)
  {
    HeadSize(r, keys);
  }

  lemma DataWithin(bs: bytes)
    requires Decoded(bs).Some?
    ensures |Decoded(bs).value.data| <= |bs|
  {
    hide DecodeNames, DecodeMeta, Uint32;
  }

  /** The round trip, for every iteration order of the map: computing the lengths, encoding and decoding
      gives the request back exactly when no delimiter occurs where it would be misread and the whole
      message is shorter than 2^32 bytes. */
  lemma RoundTripIff(r: Request, keys: seq<bytes>)
    requires Enumerates(keys, r.meta)
    ensures (var e := Encoded(Measured(r), keys); e.Some? && Decoded(e.value) == Some(Measured(r)))
       <==> Clean(r) && Fits(r)
  {
    hide Encoded, Decoded, Fits;
    var e := Encoded(Measured(r), keys);
    if Clean(r) && Fits(r) {
      CleanRoundTrip(r, keys);
    } else if e.Some? && Decoded(e.value) == Some(Measured(r)) {
      DecodedIsClean(e.value);
      TooLongFails(r, keys);
    }
  }

  // ----- The code -----

  /** The message object whose fields the code assigns one by one. */
  class Message {
    var headLength: uint32
    var bodyLength: uint32
    var messageId: uint32
    var version: byte
    var compresser: byte
    var serializer: byte
    var serviceName: bytes
    var methodName: bytes
    var meta: map<bytes, bytes>
    var data: bytes

    function Value(): Request
      reads this
    {
      Request(headLength, bodyLength, messageId, version, compresser, serializer, serviceName, methodName, meta, data)
    }

    /** An object with all fields zero. */
    constructor ()
      ensures Value() == Request(0, 0, 0, 0, 0, 0, [], [], map[], [])
    {
      headLength, bodyLength, messageId := 0, 0, 0;
      version, compresser, serializer := 0, 0, 0;
      serviceName, methodName, meta, data := [], [], map[], [];
    }

    method CalculateHeaderLength()
      modifies this`headLength
      ensures headLength == Wrap32(HeaderSize(Value()))
    {
      var length := 15 + |serviceName| + 1 + |methodName| + 1;
      var left := meta;
      while left != map[]
        invariant left.Keys <= meta.Keys && forall k :: k in left ==> left[k] == meta[k]
        invariant length + MetaSize(left) == HeaderSize(Value())
        decreases |left|
      {
        var key :| key in left;
        MetaSizeAnyOrder(left, key);
        Shrinks(left, key);
        length := length + |key| + 1 + |left[key]| + 1;
        left := left - {key};
      }
      headLength := Wrap32(length);
    }

    method CalculateBodyLength()
      modifies this`bodyLength
      ensures bodyLength == Wrap32(|data|)
    {
      bodyLength := Wrap32(|data|);
    }
  }

  /** Fills a buffer of headLength+bodyLength bytes. order is the iteration order the map happened to
      have; for an absent result some write would have been out of bounds. */
  method EncodeReq(req: Message) returns (bs: Option<array<byte>>, ghost order: seq<bytes>)
    ensures bs.None? ==> HeaderSize(req.Value()) > Wrap32(req.headLength as int + req.bodyLength as int)
    ensures bs.Some? ==> Enumerates(order, req.meta) && fresh(bs.value)
                         && Encoded(req.Value(), order) == Some(bs.value[..])
  {
    hide MetaSize, MetaText, Fixed, Wrap32, Fit, Zeros, Encoded, Head;
    order := [];
    var buf := new byte[Wrap32(req.headLength as int + req.bodyLength as int)](_ => 0);
    if buf.Length < 15 {
      return None, order;
    }
    AllZeros(buf[..]);
    var next := None;
    next, order := PutHead(buf, req);
    if next.None? {
      return None, order;
    }
    PutData(buf, next.value, req.data);
    EncodedFrom(req.Value(), order, buf[..]);
    return Some(buf), order;
  }

  /** Everything up to the body. */
  method PutHead(buf: array<byte>, req: Message) returns (next: Option<nat>, ghost order: seq<bytes>)
    requires 15 <= buf.Length && buf[..] == Zeros(buf.Length)
    modifies buf
    ensures next == if HeaderSize(req.Value()) <= buf.Length then Some(HeaderSize(req.Value())) else None
    ensures next.Some? ==> Enumerates(order, req.meta) && buf[..next.value] == Head(req.Value(), order)
    ensures next.Some? ==> buf[next.value..] == Zeros(buf.Length - next.value)
  {
    hide MetaSize, MetaText, Fixed, Head;
    order := [];
    PutFixed(buf, req.headLength, req.bodyLength, req.messageId, req.version, req.compresser, req.serializer);
    ghost var zeros := buf[15..];
    next := PutNames(buf, req.serviceName, req.methodName);
    if next.None? {
      return;
    }
    assert buf[next.value..] == zeros[next.value - 15..];
    zeros := buf[next.value..];
    ghost var at := next.value;
    next, order := PutMeta(buf, next.value, req.meta);
    if next.None? {
      return;
    }
    HeadParts(req.Value(), order);
    assert buf[next.value..] == zeros[next.value - at..];
  }

  lemma HeadParts(r: Request, order: seq<bytes>)
    requires forall k :: k in order ==> k in r.meta
    ensures Head(r, order) == Fixed(r.headLength, r.bodyLength, r.messageId, r.version, r.compresser, r.serializer)
      + (r.serviceName + [SPLITTER] + r.methodName + [SPLITTER]) + MetaText(order, r.meta)
  {
  }

  lemma EncodedFrom(r: Request, order: seq<bytes>, bs: bytes)
    requires Enumerates(order, r.meta) && |bs| == Wrap32(r.headLength as int + r.bodyLength as int)
    requires |Head(r, order)| <= |bs| && bs == Head(r, order) + Fit(r.data, |bs| - |Head(r, order)|)
    ensures Encoded(r, order) == Some(bs)
  {
  }

  lemma AllZeros(z: bytes)
    ensures (forall i :: 0 <= i < |z| ==> z[i] == 0) ==> z == Zeros(|z|)
  {
  }

  method PutNames(buf: array<byte>, service: bytes, method_: bytes) returns (next: Option<nat>)
    requires 15 <= buf.Length
    modifies buf
    ensures var n := 15 + |service| + 1 + |method_| + 1; next == if n <= buf.Length then Some(n) else None
    ensures next.Some? ==> buf[..next.value] == old(buf[..15]) + (service + [SPLITTER] + method_ + [SPLITTER])
    ensures next.Some? ==> buf[next.value..] == old(buf[15..])[next.value - 15..]
  {
    ghost var rest := buf[15..];
    next := PutText(buf, 15, service, SPLITTER);
    if next.None? {
      return;
    }
    ghost var start, before := next.value, buf[..next.value];
    assert buf[start..] == rest[start - 15..];
    ghost var more := buf[start..];
    next := PutText(buf, next.value, method_, SPLITTER);
    if next.Some? {
      assert buf[next.value..] == more[next.value - start..];
      assert buf[..next.value] == before + (method_ + [SPLITTER]);
    }
  }

  /** What is left of the map after order, and nothing twice. */
  ghost predicate Walked(order: seq<bytes>, left: map<bytes, bytes>, meta: map<bytes, bytes>) {
    && (forall i, j :: 0 <= i < j < |order| ==> order[i] != order[j])
    && (forall k :: k in meta <==> k in left || k in order)
    && (forall k :: k in left ==> k !in order && left[k] == meta[k])
  }

  lemma WalkOn(order: seq<bytes>, left: map<bytes, bytes>, meta: map<bytes, bytes>, key: bytes)
    requires Walked(order, left, meta) && key in left
    ensures Walked(order + [key], left - {key}, meta)
    ensures MetaText(order + [key], meta) == MetaText(order, meta) + Entry(key, left[key])
    ensures MetaSize(left) == |Entry(key, left[key])| + MetaSize(left - {key})
    ensures |left - {key}| < |left|
  {
    MetaSizeAnyOrder(left, key);
    Shrinks(left, key);
    MetaTextAppend(order, key, meta);
    assert forall k :: k in order + [key] <==> k in order || k == key;
  }

  /** The encoder's loop over the map, in the order the runtime picks. */
  method PutMeta(buf: array<byte>, cur: nat, meta: map<bytes, bytes>)
      returns (next: Option<nat>, ghost order: seq<bytes>)
    requires cur <= buf.Length
    modifies buf
    ensures next == if cur + MetaSize(meta) <= buf.Length then Some(cur + MetaSize(meta)) else None
    ensures next.Some? ==> Enumerates(order, meta) && buf[..next.value] == old(buf[..cur]) + MetaText(order, meta)
    ensures next.Some? ==> buf[next.value..] == old(buf[next.value..])
  {
    hide Entry, MetaText, MetaSize, Enumerates;
    WalkStart(meta);
    order := [];
    var left, at: nat := meta, cur;
    while left != map[]
      invariant at <= buf.Length && at + MetaSize(left) == cur + MetaSize(meta)
      invariant Walked(order, left, meta)
      invariant buf[..at] == old(buf[..cur]) + MetaText(order, meta)
      invariant buf[at..] == old(buf[at..])
      decreases |left|
    {
      var key :| key in left;
      WalkOn(order, left, meta, key);
      next := PutPair(buf, at, key, left[key]);
      if next.None? {
        return;
      }
      at := next.value;
      order := order + [key];
      left := left - {key};
    }
    WalkEnd(order, meta);
    next := Some(at);
  }

  lemma WalkStart(meta: map<bytes, bytes>)
    ensures Walked([], meta, meta) && MetaText([], meta) == []
  {
  }

  lemma WalkEnd(order: seq<bytes>, meta: map<bytes, bytes>)
    requires Walked(order, map[], meta)
    ensures Enumerates(order, meta) && MetaSize(map[]) == 0
  {
  }

  /** One round of the encoder's loop over the map. */
  method PutPair(buf: array<byte>, cur: nat, key: bytes, value: bytes) returns (next: Option<nat>)
    requires cur <= buf.Length
    modifies buf
    ensures var n := cur + |Entry(key, value)|; next == if n <= buf.Length then Some(n) else None
    ensures next.Some? ==> buf[..next.value] == old(buf[..cur]) + Entry(key, value)
    ensures next.Some? ==> buf[next.value..] == old(buf[next.value..])
  {
    next := PutText(buf, cur, key, PAIR_SPLITTER);
    if next.None? {
      return;
    }
    ghost var rest := buf[next.value..];
    next := PutText(buf, next.value, value, SPLITTER);
    if next.Some? {
      assert buf[..next.value] == old(buf[..cur]) + (key + [PAIR_SPLITTER]) + (value + [SPLITTER]);
      assert Entry(key, value) == (key + [PAIR_SPLITTER]) + (value + [SPLITTER]);
    }
  }

  /** Reads a message; None where the code would panic. */
  method DecodeReq(bs: bytes) returns (req: Option<Message>)
    ensures req.Some? ==> fresh(req.value) && Decoded(bs) == Some(req.value.Value())
    ensures req.None? ==> Decoded(bs).None?
  {
    hide Uint32, DecodeNames, DecodeMeta, Decoded;
    DecodedShort(bs);
    if |bs| < 15 {
      return None;
    }
    var r := new Message();
    r.headLength := Uint32(bs[..4]);
    r.bodyLength := Uint32(bs[4..8]);
    r.messageId := Uint32(bs[8..12]);
    r.version, r.compresser, r.serializer := bs[12], bs[13], bs[14];
    if r.headLength < 15 || r.headLength > |bs| {
      return None;
    }
    DecodedFrom(bs);
    var names := ReadNames(bs[15..r.headLength]);
    if names.None? {
      return None;
    }
    r.serviceName, r.methodName := names.value.0, names.value.1;
    var meta := ReadMeta(names.value.2);
    if meta.None? {
      return None;
    }
    r.meta := meta.value;
    if r.bodyLength != 0 {
      r.data := bs[r.headLength..];
    }
    return Some(r);
  }

  /** The decoder's first two scans. */
  method ReadNames(text: bytes) returns (names: Option<(bytes, bytes, bytes)>)
    ensures names == DecodeNames(text)
  {
    var header := text;
    var index := IndexByte(header, SPLITTER);
    if index == -1 {
      return None;
    }
    var serviceName := header[..index];
    header := header[index + 1..];
    index := IndexByte(header, SPLITTER);
    if index == -1 {
      return None;
    }
    return Some((serviceName, header[..index], header[index + 1..]));
  }

  lemma DecodedShort(bs: bytes)
    ensures |bs| < 15 ==> Decoded(bs).None?
    ensures |bs| >= 15 && !(15 <= Uint32(bs[..4]) <= |bs|) ==> Decoded(bs).None?
  {
  }

  lemma DecodedFrom(bs: bytes)
    requires |bs| >= 15 && 15 <= Uint32(bs[..4]) <= |bs|
    ensures var names := DecodeNames(bs[15..Uint32(bs[..4])]);
      if names.None? || DecodeMeta(names.value.2, map[]).None? then Decoded(bs).None?
      else Decoded(bs) == Some(Request(Uint32(bs[..4]), Uint32(bs[4..8]), Uint32(bs[8..12]), bs[12], bs[13], bs[14],
                                       names.value.0, names.value.1, DecodeMeta(names.value.2, map[]).value,
                                       if Uint32(bs[4..8]) != 0 then bs[Uint32(bs[..4])..] else []))
  {
  }

  /** The decoder's loop over the pairs. */
  method ReadMeta(text: bytes) returns (meta: Option<map<bytes, bytes>>)
    ensures meta == DecodeMeta(text, map[])
  {
    var header, got: map<bytes, bytes> := text, map[];
    var index := IndexByte(header, SPLITTER);
    while index != -1
      invariant index == IndexByte(header, SPLITTER)
      invariant DecodeMeta(header, got) == DecodeMeta(text, map[])
      decreases |header|
    {
      var pair := header[..index];
      var pairIndex := IndexByte(pair, PAIR_SPLITTER);
      if pairIndex == -1 {
        return None;
      }
      got := got[pair[..pairIndex] := pair[pairIndex + 1..]];
      header := header[index + 1..];
      index := IndexByte(header, SPLITTER);
    }
    return Some(got);
  }

  /** The sequence of calls that the two sides of a connection make: measure, encode, decode. It returns
      an equal message exactly when RoundTripIff says so. */
  method ThereAndBack(req: Message) returns (back: Option<Message>)
    modifies req
    ensures req.Value() == Measured(old(req.Value()))
    ensures (back.Some? && back.value.Value() == req.Value()) <==> Clean(old(req.Value())) && Fits(old(req.Value()))
  {
    ghost var r := req.Value();
    req.CalculateHeaderLength();
    req.CalculateBodyLength();
    assert req.Value() == Measured(r);
    ghost var order;
    var bs;
    bs, order := EncodeReq(req);
    if bs.None? {
      if Clean(r) && Fits(r) {
        WrapFits(HeaderSize(r));
        WrapFits(|r.data|);
        WrapFits(HeaderSize(r) + |r.data|);
        assert false;
      }
      return None;
    }
    RoundTripIff(r, order);
    back := DecodeReq(bs.value[..]);
  }
}
