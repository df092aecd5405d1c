/** Packet framing over the encrypted stream: 32 bytes, then 32 more when the type byte says so. */
module Framing {
  import opened Bytes
  import opened Packets
  import opened Stream

  /** The next frame of a plaintext stream, if it is there in full. */
  function NextFrame(u: seq<byte>): Option<seq<byte>> {
    if |u| < 32 then None
    else if !IsExtended(u[0]) then Some(u[..32])
    else if |u| < 64 then None
    else Some(u[..64])
  }

  method ReadAuto(sc: SecureConn) returns (r: Result<seq<byte>>)
    requires sc.Valid()
    modifies sc`decIV, sc`ended, sc.inbound`taken
    ensures sc.Valid()
    ensures NextFrame(old(sc.Unread())).Some? ==>
              var frame := NextFrame(old(sc.Unread())).value;
              r == Ok(frame) && sc.Unread() == old(sc.Unread())[|frame|..]
    ensures NextFrame(old(sc.Unread())).None? ==> r == Err(Eof) && sc.Unread() == []
  {
    hide IsExtended;
    ghost var u := sc.Unread();
    r := sc.ReadRaw(32);
    if r.Ok? && IsExtended(r.value[0]) {
      var head := r.value;
      r := sc.ReadRaw(32);
      if r.Ok? {
        assert u[..32] + u[32..][..32] == u[..64] && u[32..][32..] == u[64..];
        r := Ok(head + r.value);
      }
    }
  }

  /** Encode and WriteRaw; frames are always whole blocks. */
  method WritePacket(sc: SecureConn, p: Packet, magic: uint32)
    requires sc.Valid()
    modifies sc`encIV, sc`sent, sc.outbound`bytes
    ensures sc.Valid() && sc.Unread() == old(sc.Unread())
    ensures sc.sent == old(sc.sent) + Encoding(p, magic)
  {
    var wire := Encode(p, magic);
    var r := sc.WriteRaw(wire[..]);
  }

  datatype Ending = Clean | Truncated | Bad(error: Error)

  /** Repeatedly reading a frame and decoding it, until the stream ends or a packet is refused. */
  function DecodeAll(u: seq<byte>, magic: uint32): (seq<Packet>, Ending)
    decreases |u|
  {
    match NextFrame(u)
    case None => ([], if u == [] then Clean else Truncated)
    case Some(frame) =>
      match Decode(frame, magic)
      case Err(e) => ([], Bad(e))
      case Ok(p) => var (ps, end) := DecodeAll(u[|frame|..], magic); ([p] + ps, end)
  }

  function EncodeAll(ps: seq<Packet>, magic: uint32): seq<byte> {
    if ps == [] then [] else Encoding(ps[0], magic) + EncodeAll(ps[1..], magic)
  }

  lemma {:induction false} EncodeAllAppend(ps: seq<Packet>, p: Packet, magic: uint32)
    ensures EncodeAll(ps + [p], magic) == EncodeAll(ps, magic) + Encoding(p, magic)
  {
    hide Encoding;
    if ps == [] {
    } else {
      assert (ps + [p])[1..] == ps[1..] + [p];
      EncodeAllAppend(ps[1..], p, magic);
    }
  }

  lemma {:induction false} EncodeAllConcat(ps: seq<Packet>, qs: seq<Packet>, magic: uint32)
    ensures EncodeAll(ps + qs, magic) == EncodeAll(ps, magic) + EncodeAll(qs, magic)
  {
    hide Encoding;
    if ps == [] {
      assert ps + qs == qs;
    } else {
      assert (ps + qs)[1..] == ps[1..] + qs;
      EncodeAllConcat(ps[1..], qs, magic);
    }
  }

  function AllOnWire(ps: seq<Packet>): seq<Packet> {
    seq(|ps|, i requires 0 <= i < |ps| => OnWire(ps[i]))
  }

  /** A packet the reader can delimit: it carries a name only on a type whose frames are 64 bytes. */
  predicate Framable(p: Packet) {
    Extended(p) ==> IsExtended(p.typ)
  }

  lemma FrameOf(p: Packet, magic: uint32, rest: seq<byte>)
    ensures NextFrame(Encoding(p, magic) + rest) ==
            Some(if Framable(p) then Encoding(p, magic) else Encoding(p, magic)[..32])
    ensures Decode(Encoding(p, magic)[..32], magic).Ok? && !Decode(Encoding(p, magic)[..32], magic).value.hasName
  {
    hide IsExtended, Pad, Decode, Sum, Fields;
    var raw := Encoding(p, magic);
    assert (raw + rest)[..|raw|] == raw;
    assert (raw + rest)[..32] == raw[..32];
    HeadDecodes(p, magic);
  }

  lemma HeadDecodes(p: Packet, magic: uint32)
    ensures Decode(Encoding(p, magic)[..32], magic).Ok? && !Decode(Encoding(p, magic)[..32], magic).value.hasName
  {
    hide IsExtended, Pad, Fields, FromLe32, ToInt32;
    var head, cov := Encoding(p, magic)[..32], Covered(p, magic);
    assert head[2..32] == cov && head[1] == Sum(cov) % 0x100 && head[2] == cov[0] && head[3] == cov[1];
  }

  lemma DecodeStep(p: Packet, magic: uint32, tail: seq<byte>)
    requires Framable(p)
    ensures DecodeAll(Encoding(p, magic) + tail, magic) == ([OnWire(p)] + DecodeAll(tail, magic).0, DecodeAll(tail, magic).1)
  {
    hide IsExtended, Encoding, Decode;
    var raw := Encoding(p, magic);
    FrameOf(p, magic, tail);
    assert (raw + tail)[|raw|..] == tail;
    DecodeEncode(p, magic, magic);
  }

  /** A stream of framable packets followed by anything decodes to those packets and then to the decoding of the rest. */
  lemma {:induction false} DecodePrefix(ps: seq<Packet>, magic: uint32, rest: seq<byte>)
    requires forall p :: p in ps ==> Framable(p)
    ensures DecodeAll(EncodeAll(ps, magic) + rest, magic) ==
            (AllOnWire(ps) + DecodeAll(rest, magic).0, DecodeAll(rest, magic).1)
  {
    hide IsExtended, Encoding, Decode, DecodeAll, OnWire, Framable;
    var more := DecodeAll(rest, magic).0;
    if ps == [] {
      assert EncodeAll(ps, magic) + rest == rest && AllOnWire(ps) + more == more;
    } else {
      var tail := EncodeAll(ps[1..], magic) + rest;
      assert EncodeAll(ps, magic) + rest == Encoding(ps[0], magic) + tail;
      DecodeStep(ps[0], magic, tail);
      DecodePrefix(ps[1..], magic, rest);
      assert AllOnWire(ps) + more == [OnWire(ps[0])] + (AllOnWire(ps[1..]) + more);
    }
  }

  /** Any packet sequence comes back in order and in sync exactly when every packet in it is framable. */
  lemma {:induction false} StreamRoundTrip(ps: seq<Packet>, magic: uint32)
    ensures DecodeAll(EncodeAll(ps, magic), magic) == (AllOnWire(ps), Clean) <==> forall p :: p in ps ==> Framable(p)
  {
    if forall p :: p in ps ==> Framable(p) {
      DecodePrefix(ps, magic, []);
      assert EncodeAll(ps, magic) + [] == EncodeAll(ps, magic) && AllOnWire(ps) + [] == AllOnWire(ps);
    } else {
      LosesSync(ps, magic);
    }
  }

  /** The first unframable packet is read short. */
  lemma {:induction false} LosesSync(ps: seq<Packet>, magic: uint32)
    requires exists p :: p in ps && !Framable(p)
    ensures DecodeAll(EncodeAll(ps, magic), magic).0 != AllOnWire(ps)
  {
    hide IsExtended, Encoding, Decode;
    var raw, tail := Encoding(ps[0], magic), EncodeAll(ps[1..], magic);
    var got := DecodeAll(raw + tail, magic).0;
    if Framable(ps[0]) {
      DecodeStep(ps[0], magic, tail);
      LosesSync(ps[1..], magic);
      assert got[1..] == DecodeAll(tail, magic).0 && AllOnWire(ps)[1..] == AllOnWire(ps[1..]);
    } else {
      FrameOf(ps[0], magic, tail);
      assert !got[0].hasName && AllOnWire(ps)[0].hasName;
    }
  }
}
