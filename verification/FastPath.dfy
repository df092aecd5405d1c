/** The in-band clipboard path: 48 byte chunks in bytes 16..63 of ordinary packets, then a terminator. */
module FastPath {
  import opened Bytes
  import opened Crypto
  import opened Packets
  import opened Framing

  const CHUNK_SIZE := 48

  predicate ChunkType(typ: byte) {
    typ == PT_CLIPBOARD_TEXT || typ == PT_CLIPBOARD_IMAGE
  }

  /** The first 16 bytes go in the payload, zero padded; the rest in the name area. */
  function ChunkPacket(typ: byte, chunk: seq<byte>, src: uint32, des: uint32, id: int32): Packet {
    Packet(typ, id, src, des, ToBlock(chunk), if |chunk| <= 16 then [] else chunk[16..], true)
  }

  function Terminator(src: uint32, des: uint32, id: int32): Packet {
    Packet(PT_CLIPBOARD_DATA_END, id, src, des, Zeros(16), [], false)
  }

  /** The next chunk of data. */
  function Head(data: seq<byte>): seq<byte> {
    if |data| > CHUNK_SIZE then data[..CHUNK_SIZE] else data
  }

  function Chunked(typ: byte, data: seq<byte>, src: uint32, des: uint32, start: int): seq<Packet>
    decreases |data|
  {
    if data == [] then [Terminator(src, des, ToInt32(start))]
    else [ChunkPacket(typ, Head(data), src, des, ToInt32(start))] + Chunked(typ, data[|Head(data)|..], src, des, start + 1)
  }

  method EncodeFastPath(typ: byte, data: seq<byte>, src: uint32, des: uint32, startID: int32) returns (out: seq<Packet>)
    ensures out == Chunked(typ, data, src, des, startID)
  {
    hide Chunked, ChunkPacket, Terminator, ToInt32;
    var off, id := 0, startID;
    ghost var n := 0;
    out := [];
    ToInt32Fits(startID);
    assert data[0..] == data;
    NothingChunked(Chunked(typ, data, src, des, startID));
    while off < |data|
      invariant 0 <= off <= |data| && id == ToInt32(startID + n)
      invariant out + Chunked(typ, data[off..], src, des, startID + n) == Chunked(typ, data, src, des, startID)
    {
      var end := if off + CHUNK_SIZE > |data| then |data| else off + CHUNK_SIZE;
      NextChunk(typ, data, src, des, startID + n, off, end, out);
      out := out + [ChunkPacket(typ, data[off..end], src, des, id)];
      Int32Successor(startID + n);
      id := if id == 0x7FFF_FFFF then -0x8000_0000 else id + 1;
      n := n + 1;
      off := end;
    }
    ChunkedEnd(typ, src, des, startID + n);
    assert data[off..] == [];
    out := out + [Terminator(src, des, id)];
  }

  lemma NothingChunked(ps: seq<Packet>)
    ensures [] + ps == ps
  {
  }

  lemma ChunkedEnd(typ: byte, src: uint32, des: uint32, start: int)
    ensures Chunked(typ, [], src, des, start) == [Terminator(src, des, ToInt32(start))]
  {
  }

  lemma NextChunk(typ: byte, data: seq<byte>, src: uint32, des: uint32, start: int, off: nat, end: nat, out: seq<Packet>)
    requires off < |data| && end == if off + CHUNK_SIZE > |data| then |data| else off + CHUNK_SIZE
    ensures out + Chunked(typ, data[off..], src, des, start) ==
            out + [ChunkPacket(typ, data[off..end], src, des, ToInt32(start))] + Chunked(typ, data[end..], src, des, start + 1)
  {
    hide ChunkPacket, ToInt32;
    assert data[off..end] == Head(data[off..]);
    assert data[off..][end - off..] == data[end..];
  }

  lemma Int32Successor(i: int)
    ensures ToInt32(i + 1) == if ToInt32(i) == 0x7FFF_FFFF then -0x8000_0000 else ToInt32(i) + 1
  {
  }

  /** ceil(n/48). */
  function Chunks(n: nat): nat {
    (n + CHUNK_SIZE - 1) / CHUNK_SIZE
  }

  lemma ChunksOf(n: nat)
    ensures n == 0 ==> Chunks(n) == 0
    ensures n > 0 ==> Chunks(n) == 1 + Chunks(if n > CHUNK_SIZE then n - CHUNK_SIZE else 0)
    ensures n <= CHUNK_SIZE * Chunks(n) < n + CHUNK_SIZE
    ensures CHUNK_SIZE * Chunks(n) == n <==> n % CHUNK_SIZE == 0
  {
  }

  lemma {:induction false} ChunkedLength(typ: byte, data: seq<byte>, src: uint32, des: uint32, start: int)
    ensures |Chunked(typ, data, src, des, start)| == Chunks(|data|) + 1
    decreases |data|
  {
    hide Chunks, ChunkPacket;
    ChunksOf(|data|);
    if data != [] { ChunkedLength(typ, data[|Head(data)|..], src, des, start + 1); }
  }

  lemma {:induction false} ChunkedAt(typ: byte, data: seq<byte>, src: uint32, des: uint32, start: int, i: nat)
    requires i < |Chunked(typ, data, src, des, start)|
    ensures var ps := Chunked(typ, data, src, des, start);
            ps[i].src == src && ps[i].des == des && ps[i].id == ToInt32(start + i)
                  && ps[i].typ == if i < |ps| - 1 then typ else PT_CLIPBOARD_DATA_END
    decreases i
  {
    hide ToInt32, ToBlock;
    if data != [] {
      var more := Chunked(typ, data[|Head(data)|..], src, des, start + 1);
      assert more != [] by { ChunkedLength(typ, data[|Head(data)|..], src, des, start + 1); }
      if i > 0 {
        assert Chunked(typ, data, src, des, start)[i] == more[i - 1];
        ChunkedAt(typ, data[|Head(data)|..], src, des, start + 1, i - 1);
      }
    }
  }

  /** ceil(n/48) chunks and a terminator, under consecutive ids. */
  lemma ChunkedShape(typ: byte, data: seq<byte>, src: uint32, des: uint32, start: int)
    ensures var ps := Chunked(typ, data, src, des, start);
            && |ps| == Chunks(|data|) + 1
            && (forall i :: 0 <= i < |ps| ==>
                  ps[i].src == src && ps[i].des == des && ps[i].id == ToInt32(start + i)
                  && ps[i].typ == if i < |ps| - 1 then typ else PT_CLIPBOARD_DATA_END)
  {
    hide Chunked, Chunks, ToInt32;
    ChunkedLength(typ, data, src, des, start);
    forall i | 0 <= i < |Chunked(typ, data, src, des, start)|
      ensures var ps := Chunked(typ, data, src, des, start);
              ps[i].src == src && ps[i].des == des && ps[i].id == ToInt32(start + i)
                  && ps[i].typ == if i < |ps| - 1 then typ else PT_CLIPBOARD_DATA_END
    {
      ChunkedAt(typ, data, src, des, start, i);
    }
  }

  /** Encoding one chunk and re-copying its raw bytes: the copy changes nothing. */
  method EncodeChunkPacket(typ: byte, id: int32, src: uint32, des: uint32, chunk: seq<byte>, magic: uint32)
    returns (r: Result<array<byte>>)
    ensures r.Err? <==> |chunk| > CHUNK_SIZE
    ensures r.Ok? ==> fresh(r.value) && r.value[..] == Encoding(ChunkPacket(typ, chunk, src, des, id), magic)
  {
    if |chunk| > CHUNK_SIZE { return Err(TooBig); }
    var wire := Encode(ChunkPacket(typ, chunk, src, des, id), magic);
    ghost var was := wire[..];
    ChunkOnWire(typ, id, src, des, chunk, magic);
    CopyAt(wire, 16, chunk);
    assert forall k :: 16 <= k < 16 + |chunk| ==> wire[k] == wire[16..16 + |chunk|][k - 16] && was[k] == was[16..][k - 16];
    assert wire[..] == was;
    r := Ok(wire);
  }

  /** Bytes 16..63 of a chunk's wire form. */
  function Image(chunk: seq<byte>): seq<byte> {
    ToBlock(chunk) + Pad(if |chunk| <= 16 then [] else chunk[16..])
  }

  /** They begin with the chunk, are exactly it when it is full, and otherwise end in a space. */
  lemma ChunkOnWire(typ: byte, id: int32, src: uint32, des: uint32, chunk: seq<byte>, magic: uint32)
    requires |chunk| <= CHUNK_SIZE
    ensures var wire := Encoding(ChunkPacket(typ, chunk, src, des, id), magic);
            |wire| == 64 && wire[16..] == Image(chunk)
    ensures chunk <= Image(chunk) && |Image(chunk)| == CHUNK_SIZE
    ensures |chunk| < CHUNK_SIZE ==> Image(chunk)[CHUNK_SIZE - 1] == 0x20
  {
    ImageHolds(chunk);
    PayloadAndName(ChunkPacket(typ, chunk, src, des, id), magic);
  }

  lemma PayloadAndName(p: Packet, magic: uint32)
    requires Extended(p)
    ensures Encoding(p, magic)[16..] == p.payload + Pad(p.name)
  {
    hide Pad, Sum;
    var cov := Covered(p, magic);
    assert cov[14..] == p.payload;
    assert Encoding(p, magic)[2..32] == cov;
    assert Encoding(p, magic)[16..] == cov[14..] + Pad(p.name);
  }

  lemma ImageHolds(chunk: seq<byte>)
    requires |chunk| <= CHUNK_SIZE
    ensures chunk <= Image(chunk) && |Image(chunk)| == CHUNK_SIZE
    ensures |chunk| < CHUNK_SIZE ==> Image(chunk)[CHUNK_SIZE - 1] == 0x20
  {
    if |chunk| > 16 {
      assert chunk == chunk[..16] + chunk[16..];
      assert chunk[16..] <= Pad(chunk[16..]);
    }
  }

  class Accumulator {
    var buf: seq<byte>

    constructor ()
      ensures buf == []
    {
      buf := [];
    }

    /** p is the decoded packet, wire the bytes it came from. */
    method Feed(p: Packet, wire: seq<byte>) returns (done: Result<bool>)
      modifies this
      ensures done == Fed(p, wire)
      ensures buf == if done == Ok(false) then old(buf) + wire[16..64] else old(buf)
    {
      if ChunkType(p.typ) {
        if |wire| != 64 { return Err(BadSize); }
        buf := buf + wire[16..64];
        done := Ok(false);
      } else if p.typ == PT_CLIPBOARD_DATA_END {
        done := Ok(true);
      } else {
        done := Err(UnexpectedType);
      }
    }

    /** The longest prefix of the buffer that does not end in a zero: only zeros are cut, and all of them. */
    method Contents() returns (b: seq<byte>)
      ensures b <= buf && forall i :: |b| <= i < |buf| ==> buf[i] == 0
      ensures b != [] ==> b[|b| - 1] != 0
      ensures b == TrimRight(buf, {0})
    {
      b := TrimRight(buf, {0});
    }

    method Reset()
      modifies this
      ensures buf == []
    {
      buf := [];
    }
  }

  function Fed(p: Packet, wire: seq<byte>): (r: Result<bool>)
    ensures r == Ok(false) ==> |wire| == 64
  {
    if ChunkType(p.typ) then (if |wire| != 64 then Err(BadSize) else Ok(false))
    else if p.typ == PT_CLIPBOARD_DATA_END then Ok(true)
    else Err(UnexpectedType)
  }

  /** A text or image chunk of 64 bytes goes on, a terminator ends, anything else is refused. */
  lemma FedExactly(p: Packet, wire: seq<byte>)
    ensures Fed(p, wire) == Ok(false) <==> p.typ in {124, 125} && |wire| == 64
    ensures Fed(p, wire) == Ok(true) <==> p.typ == 76
  {
  }

  /** A packet sent, decoded and fed: the buffer afterwards, and whether it completed the transfer. */
  function FeedOne(buf: seq<byte>, sent: Packet, magic: uint32): Result<(seq<byte>, bool)> {
    hide Encoding, Decode;
    var wire := Encoding(sent, magic);
    match Decode(wire, magic)
    case Err(e) => Err(e)
    case Ok(p) =>
      match Fed(p, wire)
      case Err(e) => Err(e)
      case Ok(done) => Ok((if done then buf else buf + wire[16..64], done))
  }

  /** Feeding a sequence of packets in turn, with every answer. */
  function FeedAll(buf: seq<byte>, ps: seq<Packet>, magic: uint32): Result<(seq<byte>, seq<bool>)>
    decreases |ps|
  {
    hide *;
    if ps == [] then Ok((buf, [])) else
      match FeedOne(buf, ps[0], magic)
      case Err(e) => Err(e)
      case Ok((next, done)) =>
        match FeedAll(next, ps[1..], magic)
        case Err(e) => Err(e)
        case Ok((b, dones)) => Ok((b, [done] + dones))
  }

  /** What accumulates: the wire images of the chunks. */
  function Accumulated(data: seq<byte>): seq<byte>
    decreases |data|
  {
    if data == [] then [] else Image(Head(data)) + Accumulated(data[|Head(data)|..])
  }

  function OnlyLast(n: nat): seq<bool> {
    seq(n, _ => false) + [true]
  }

  lemma FeedChunk(typ: byte, chunk: seq<byte>, src: uint32, des: uint32, id: int32, magic: uint32, buf: seq<byte>)
    requires ChunkType(typ) && |chunk| <= CHUNK_SIZE
    ensures FeedOne(buf, ChunkPacket(typ, chunk, src, des, id), magic) == Ok((buf + Image(chunk), false))
  {
    hide Encoding, Decode, Image, WireName;
    var wire := Encoding(ChunkPacket(typ, chunk, src, des, id), magic);
    DecodeEncode(ChunkPacket(typ, chunk, src, des, id), magic, magic);
    ChunkOnWire(typ, id, src, des, chunk, magic);
    assert wire[16..64] == wire[16..];
  }

  lemma FeedTerminator(src: uint32, des: uint32, id: int32, magic: uint32, buf: seq<byte>)
    ensures FeedOne(buf, Terminator(src, des, id), magic) == Ok((buf, true))
  {
    hide Encoding, Decode, WireName;
    DecodeEncode(Terminator(src, des, id), magic, magic);
  }

  /** Every packet is accepted, and completion is reported on the terminator alone. */
  lemma {:induction false} FastPathDelivers(typ: byte, data: seq<byte>, src: uint32, des: uint32, start: int, magic: uint32,
                                            buf: seq<byte>)
    requires typ == 124 || typ == 125
    ensures var ps := Chunked(typ, data, src, des, start);
            FeedAll(buf, ps, magic) == Ok((buf + Accumulated(data), OnlyLast(|ps| - 1)))
    decreases |data|
  {
    hide Image, FeedOne, FeedAll, Accumulated, ChunkPacket, Terminator, ToInt32;
    if data == [] {
      var p := Terminator(src, des, ToInt32(start));
      FeedTerminator(src, des, ToInt32(start), magic, buf);
      FeedNone(buf, magic);
      FeedMore(buf, p, [], magic, buf, true, buf, []);
      assert [p] + [] == [p] && [true] + [] == OnlyLast(0);
    } else {
      var h := Head(data);
      var p, rest := ChunkPacket(typ, h, src, des, ToInt32(start)), data[|h|..];
      var more := Chunked(typ, rest, src, des, start + 1);
      FeedChunk(typ, h, src, des, ToInt32(start), magic, buf);
      FastPathDelivers(typ, rest, src, des, start + 1, magic, buf + Image(h));
      FeedMore(buf, p, more, magic, buf + Image(h), false, buf + Image(h) + Accumulated(rest), OnlyLast(|more| - 1));
      AccumulatedSplit(data);
      assert buf + Image(h) + Accumulated(rest) == buf + (Image(h) + Accumulated(rest));
      assert [false] + OnlyLast(|more| - 1) == OnlyLast(|more|);
    }
  }

  lemma FeedNone(buf: seq<byte>, magic: uint32)
    ensures FeedAll(buf, [], magic) == Ok((buf, [])) && buf + Accumulated([]) == buf
  {
  }

  lemma FeedMore(buf: seq<byte>, p: Packet, more: seq<Packet>, magic: uint32, next: seq<byte>, done: bool,
                 b: seq<byte>, dones: seq<bool>)
    requires FeedOne(buf, p, magic) == Ok((next, done)) && FeedAll(next, more, magic) == Ok((b, dones))
    ensures FeedAll(buf, [p] + more, magic) == Ok((b, [done] + dones))
  {
    hide FeedOne;
    assert ([p] + more)[1..] == more;
  }

  lemma {:induction false} AccumulatedLength(data: seq<byte>)
    ensures |Accumulated(data)| == CHUNK_SIZE * Chunks(|data|)
    decreases |data|
  {
    hide Image, Chunks;
    ChunksOf(|data|);
    if data != [] {
      ChunkOnWire(PT_CLIPBOARD_TEXT, 0, 0, 0, Head(data), 0);
      AccumulatedLength(data[|Head(data)|..]);
    }
  }

  lemma AccumulatedSplit(data: seq<byte>)
    requires data != []
    ensures var h := Head(data);
            data == h + data[|h|..] && Accumulated(data) == Image(h) + Accumulated(data[|h|..])
    ensures |data| <= CHUNK_SIZE ==> Accumulated(data) == Image(data)
  {
    hide Image;
  }

  lemma {:induction false} AccumulatedPrefix(data: seq<byte>)
    ensures data <= Accumulated(data)
    ensures |data| % CHUNK_SIZE != 0 ==> Accumulated(data) != [] && Accumulated(data)[|Accumulated(data)| - 1] == 0x20
    decreases |data|
  {
    hide Image, Accumulated;
    if data != [] {
      var h := Head(data);
      ChunkOnWire(PT_CLIPBOARD_TEXT, 0, 0, 0, h, 0);
      AccumulatedSplit(data);
      if |data| > CHUNK_SIZE {
        AccumulatedPrefix(data[CHUNK_SIZE..]);
        assert Image(h) == h;
      }
    }
  }

  /** The buffer starts with the data and is ceil(n/48) whole chunks long, so it exceeds the data by less than one
      chunk, and by nothing exactly when 48 divides the length; a short last chunk leaves a space at the end. */
  lemma AccumulatedHasData(data: seq<byte>)
    ensures var b := Accumulated(data);
            && data <= b && |b| == CHUNK_SIZE * Chunks(|data|) < |data| + CHUNK_SIZE
            && (|b| == |data| <==> |data| % CHUNK_SIZE == 0)
            && (|b| > |data| ==> b[|b| - 1] == 0x20)
  {
    hide Accumulated, Chunks;
    ChunksOf(|data|);
    AccumulatedLength(data);
    AccumulatedPrefix(data);
  }

  /** The trimmed contents are the data exactly when 48 divides its length and it does not end in a zero byte. */
  lemma ContentsExact(data: seq<byte>)
    ensures TrimRight(Accumulated(data), {0}) == data <==>
            |data| % CHUNK_SIZE == 0 && (data != [] ==> data[|data| - 1] != 0)
  {
    hide Accumulated, Chunks;
    var b := Accumulated(data);
    AccumulatedHasData(data);
    if |b| == |data| { assert b == data; }
    TrimmedAlready(b);
    TrimmedAlready(data);
  }

  lemma TrimmedAlready(b: seq<byte>)
    ensures TrimRight(b, {0}) == b <==> (b != [] ==> b[|b| - 1] != 0)
  {
  }
}
