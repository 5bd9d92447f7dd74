/** Bytes as the messages of rpc/message use them: big-endian words, the delimiters, and the 15 bytes
    that both message kinds begin with. */
module Wire {
  import opened Prelude

  type byte = x: int | 0 <= x < 256
  type bytes = seq<byte>

  /** '\n' ends a name or a pair, '\r' parts key and value. */
  const SPLITTER: byte := 10
  const PAIR_SPLITTER: byte := 13

  function PutUint32(x: uint32): (b: bytes)
    ensures |b| == 4
  {
    [x / 0x100_0000, x / 0x1_0000 % 256, x / 256 % 256, x % 256]
  }

  function Uint32(b: bytes): uint32
    requires |b| == 4
  {
    b[0] as int * 0x100_0000 + b[1] as int * 0x1_0000 + b[2] as int * 256 + b[3] as int
  }

  lemma Uint32OfPut(x: uint32)
    ensures Uint32(PutUint32(x)) == x
  {
    var a, b := x / 0x1_0000, x / 256;
    assert x / 0x100_0000 == a / 256 && a == b / 256;
  }

  /** The position of the first c, or -1. */
  function IndexByte(s: bytes, c: byte): (r: int)
    ensures -1 <= r < |s|
    ensures r == -1 ==> c !in s
    ensures r >= 0 ==> s[r] == c && c !in s[..r]
  {
    if s == [] then -1
    else if s[0] == c then 0
    else
      var r := IndexByte(s[1..], c);
      if r == -1 then -1
      else
        assert s[..r + 1] == [s[0]] + s[1..][..r];
        r + 1
  }

  /** A text without c, up to its delimiter c. */
  lemma {:induction false} IndexOfDelimiter(s: bytes, c: byte, t: bytes)
    requires c !in s
    ensures IndexByte(s + [c] + t, c) == |s|
  {
    if s != [] {
      IndexOfDelimiter(s[1..], c, t);
      assert (s + [c] + t)[1..] == s[1..] + [c] + t;
    }
  }

  /** The fields every message starts with. */
  function Fixed(head: uint32, body: uint32, id: uint32, version: byte, compresser: byte, serializer: byte): (b: bytes)
    ensures |b| == 15
  {
    PutUint32(head) + PutUint32(body) + PutUint32(id) + [version, compresser, serializer]
  }

  lemma FixedReadsBack(b: bytes, head: uint32, body: uint32, id: uint32,
                       version: byte, compresser: byte, serializer: byte)
    requires |b| >= 15 && b[..15] == Fixed(head, body, id, version, compresser, serializer)
    ensures Uint32(b[..4]) == head && Uint32(b[4..8]) == body && Uint32(b[8..12]) == id
    ensures b[12] == version && b[13] == compresser && b[14] == serializer
  {
    var f := Fixed(head, body, id, version, compresser, serializer);
    assert b[..4] == f[..4] == PutUint32(head);
    assert b[4..8] == f[4..8] == PutUint32(body);
    assert b[8..12] == f[8..12] == PutUint32(id);
    assert b[12] == f[12] && b[13] == f[13] && b[14] == f[14];
    Uint32OfPut(head);
    Uint32OfPut(body);
    Uint32OfPut(id);
  }

  /** Where the fixed fields lie: three big-endian words, then three single bytes. */
  lemma FixedLayout(b: bytes, head: uint32, body: uint32, id: uint32,
                    version: byte, compresser: byte, serializer: byte)
    requires |b| >= 15 && b[..15] == Fixed(head, body, id, version, compresser, serializer)
    ensures b[0] as int * 0x100_0000 + b[1] as int * 0x1_0000 + b[2] as int * 0x100 + b[3] as int == head
    ensures b[4] as int * 0x100_0000 + b[5] as int * 0x1_0000 + b[6] as int * 0x100 + b[7] as int == body
    ensures b[8] as int * 0x100_0000 + b[9] as int * 0x1_0000 + b[10] as int * 0x100 + b[11] as int == id
    ensures b[12] == version && b[13] == compresser && b[14] == serializer
  {
    FixedReadsBack(b, head, body, id, version, compresser, serializer);
  }

  lemma PutOfUint32(b: bytes)
    requires |b| == 4
    ensures PutUint32(Uint32(b)) == b
  {
    var x := Uint32(b);
    assert x / 256 == b[0] as int * 0x1_0000 + b[1] as int * 256 + b[2] as int;
    assert x / 0x1_0000 == b[0] as int * 256 + b[1] as int;
  }

  function Zeros(n: nat): (z: bytes)
    ensures |z| == n
  {
    seq(n, _ => 0)
  }

  /** What copy leaves in a zeroed space of n bytes: the data cut off at the end, or zeros behind it. */
  function Fit(data: bytes, n: nat): (r: bytes)
    ensures |r| == n
  {
    if |data| >= n then data[..n] else data + Zeros(n - |data|)
  }

  lemma FitSplit(data: bytes, room: nat, n: nat)
    requires n == if |data| <= room then |data| else room
    ensures data[..n] + Zeros(room - n) == Fit(data, room)
  {
  }

  /** Go's copy(bs[off:], src): as much as there is room for. */
  method Copy(bs: array<byte>, off: nat, src: bytes) returns (n: nat)
    requires off <= bs.Length
    modifies bs
    ensures n == if off + |src| <= bs.Length then |src| else bs.Length - off
    ensures bs[..off + n] == old(bs[..off]) + src[..n]
    ensures bs[off + n..] == old(bs[off + n..])
  {
    n := if off + |src| <= bs.Length then |src| else bs.Length - off;
    for i := 0 to n
      invariant bs[..off + i] == old(bs[..off]) + src[..i]
      invariant bs[off + i..] == old(bs[off + i..])
    {
      bs[off + i] := src[i];
    }
  }

  /** Writes a text and its delimiter and moves on; None is the panic of a slice or index beyond the
      buffer. */
  method PutText(bs: array<byte>, cur: nat, text: bytes, delimiter: byte) returns (next: Option<nat>)
    requires cur <= bs.Length
    modifies bs
    ensures next == if cur + |text| + 1 <= bs.Length then Some(cur + |text| + 1) else None
    ensures next.Some? ==> bs[..next.value] == old(bs[..cur]) + (text + [delimiter])
    ensures next.Some? ==> bs[next.value..] == old(bs[next.value..])
  {
    var n := Copy(bs, cur, text);
    if cur + |text| + 1 > bs.Length {
      return None;
    }
    ghost var rest := bs[cur + n..];
    bs[cur + n] := delimiter;
    assert bs[cur + n + 1..] == rest[1..];
    assert bs[..cur + n + 1] == bs[..cur + n] + [delimiter];
    return Some(cur + n + 1);
  }

  /** The first 15 bytes, field by field. */
  method PutFixed(bs: array<byte>, head: uint32, body: uint32, id: uint32,
                  version: byte, compresser: byte, serializer: byte)
    requires 15 <= bs.Length
    modifies bs
    ensures bs[..15] == Fixed(head, body, id, version, compresser, serializer)
    ensures bs[15..] == old(bs[15..])
  {
    ghost var was := bs[15..];
    var n := Copy(bs, 0, PutUint32(head));
    assert bs[..4] == PutUint32(head) && bs[4..][11..] == was;
    n := Copy(bs, 4, PutUint32(body));
    assert bs[..8] == PutUint32(head) + PutUint32(body) && bs[8..][7..] == was;
    n := Copy(bs, 8, PutUint32(id));
    assert bs[..12] == PutUint32(head) + PutUint32(body) + PutUint32(id) && bs[12..][3..] == was;
    ghost var words := bs[..12];
    bs[12], bs[13], bs[14] := version, compresser, serializer;
    assert bs[..12] == words;
    assert bs[..15] == bs[..12] + [version, compresser, serializer];
  }

  /** The body goes into what room is left. */
  method PutData(bs: array<byte>, cur: nat, data: bytes)
    requires cur <= bs.Length && bs[cur..] == Zeros(bs.Length - cur)
    modifies bs
    ensures bs[..] == old(bs[..cur]) + Fit(data, bs.Length - cur)
  {
    var n := Copy(bs, cur, data);
    FitSplit(data, bs.Length - cur, n);
    assert bs[cur + n..] == Zeros(bs.Length - cur - n);
    assert bs[..] == bs[..cur + n] + bs[cur + n..];
  }

  /** When a header and data that need 2^32 bytes or more get a buffer that holds the header, the data is
      what does not fit. */
  lemma LostSize(head: nat, data: nat, size: nat)
    requires head <= size == Wrap32(Wrap32(head) as int + Wrap32(data) as int) && head + data >= TWO32
    ensures data >= TWO32 > size
  {
  }
}
