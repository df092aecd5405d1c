/** The handshake program against an honest peer, down to the bytes. */
module HandshakeWire {
  import opened Bytes
  import opened Crypto
  import opened Packets
  import opened Stream
  import opened Framing
  import opened FanOut
  import opened Handshake
  import HandshakeRun

  /** One side: its challenges, slot and name, and where its packet ids stand. */
  datatype Party = Party(chs: seq<Block>, id: uint32, name: Name, start: int32, count: nat)

  function Challenges(p: Party): (ps: seq<Packet>)
    ensures |ps| == |p.chs|
  {
    ChallengePackets(p.chs, p.id, p.name, p.start, p.count)
  }

  function Acks(me: Party, heard: seq<Packet>): seq<Packet> {
    AckPackets(heard, me.name, me.start, me.count + ROUNDS)
  }

  /** All that a side sends: its challenges, then the acks of the other's, in order. */
  function Spoken(me: Party, other: Party): seq<Packet> {
    Challenges(me) + Acks(me, AllOnWire(Challenges(other)))
  }

  /** What the other side says, as it arrives. */
  function Heard(me: Party, other: Party): seq<Packet> {
    AllOnWire(Spoken(other, me))
  }

  /** The ack of the i-th packet of a series of challenges is the i-th ack. */
  lemma {:induction false} AckEach(me: Party, ps: seq<Packet>)
    requires forall i :: 0 <= i < |ps| ==> ps[i].typ == PT_HANDSHAKE
    ensures |Acks(me, ps)| == |ps|
    ensures forall i :: 0 <= i < |ps| ==>
              Acks(me, ps)[i] == AckChallenge(ps[i], me.name, IdOf(me.start, me.count + ROUNDS + i))
  {
    hide AckChallenge, IdOf;
    if ps != [] { AckEach(me, ps[..|ps| - 1]); }
  }

  /** Acks call for no answer. */
  lemma {:induction false} AcksUnanswered(me: Party, ps: seq<Packet>, acks: seq<Packet>)
    requires forall i :: 0 <= i < |acks| ==> acks[i].typ == PT_HANDSHAKE_ACK
    ensures Acks(me, ps + acks) == Acks(me, ps)
  {
    if acks == [] {
      assert ps + acks == ps;
    } else {
      assert (ps + acks)[..|ps + acks| - 1] == ps + acks[..|acks| - 1];
      AcksUnanswered(me, ps, acks[..|acks| - 1]);
    }
  }

  /** The twenty packets: the other's challenges under its name, then the complements of mine. */
  ghost predicate Honest(hs: seq<Packet>, me: Party, other: Party) {
    && |me.chs| == |other.chs| == ROUNDS && |hs| == 2 * ROUNDS
    && (forall i :: 0 <= i < ROUNDS ==> hs[i].typ == PT_HANDSHAKE && hs[i].payload == other.chs[i])
    && (forall i :: ROUNDS <= i < 2 * ROUNDS ==> hs[i].typ == PT_HANDSHAKE_ACK && hs[i].payload == Complement(me.chs[i - ROUNDS]))
    && (forall i :: 0 <= i < 2 * ROUNDS ==> hs[i].name == WireName(other.name))
  }

  lemma HeardIsHonest(me: Party, other: Party)
    requires |me.chs| == |other.chs| == ROUNDS
    ensures Honest(Heard(me, other), me, other)
    ensures |Spoken(other, me)| == 2 * ROUNDS && forall i :: 0 <= i < 2 * ROUNDS ==> Extended(Spoken(other, me)[i])
  {
    hide WireName, Complement, IdOf, IsExtended, Acks;
    var acks := Acks(other, AllOnWire(Challenges(me)));
    AckEach(other, AllOnWire(Challenges(me)));
    forall i | ROUNDS <= i < 2 * ROUNDS
      ensures Spoken(other, me)[i].typ == PT_HANDSHAKE_ACK && Spoken(other, me)[i].hasName
      ensures Spoken(other, me)[i].name == other.name
      ensures Spoken(other, me)[i].payload == Complement(me.chs[i - ROUNDS])
    {
      assert Spoken(other, me)[i] == acks[i - ROUNDS];
    }
  }

  /** I answer all ten challenges and nothing else. */
  lemma AnswersGiven(me: Party, other: Party)
    requires |me.chs| == |other.chs| == ROUNDS
    ensures Acks(me, Heard(me, other)) == Acks(me, AllOnWire(Challenges(other)))
  {
    hide Acks, Complement, WireName, Challenges;
    HeardIsHonest(me, other);
    var hs, cs := Heard(me, other), AllOnWire(Challenges(other));
    assert hs[..ROUNDS] == cs;
    assert hs == cs + hs[ROUNDS..];
    AcksUnanswered(me, cs, hs[ROUNDS..]);
  }

  /** The reader's progress after n of them: the first n - 10 challenges are acked. */
  function ProgressAt(other: Party, n: nat): Local {
    var v := if n < ROUNDS then 0 else n - ROUNDS;
    Local(HandshakeRun.Acked(v), v, if n == 0 then [] else WireName(other.name))
  }

  lemma HonestStep(hs: seq<Packet>, me: Party, other: Party, n: nat)
    requires Honest(hs, me, other) && n < 2 * ROUNDS
    ensures OnPacket(me.chs, ProgressAt(other, n), hs[n]) == Ok(ProgressAt(other, n + 1))
  {
    hide WireName, Complement, FirstMatch;
    if n >= ROUNDS { HandshakeRun.NextAckMatches(me.chs, n - ROUNDS, hs[n]); }
  }

  lemma {:induction false} HonestProgress(hs: seq<Packet>, me: Party, other: Party, n: nat)
    requires Honest(hs, me, other) && n <= 2 * ROUNDS
    ensures Progress(me.chs, hs[..n]) == Ok(ProgressAt(other, n))
  {
    hide OnPacket;
    if n == 0 {
      assert Fresh(ROUNDS).acked == HandshakeRun.Acked(0);
    } else {
      assert hs[..n][..n - 1] == hs[..n - 1];
      HonestProgress(hs, me, other, n - 1);
      HonestStep(hs, me, other, n - 1);
    }
  }

  /** 64 byte packets lie end to end. */
  lemma {:induction false} FramesLieInLine(ps: seq<Packet>, magic: uint32, rest: seq<byte>)
    requires forall i :: 0 <= i < |ps| ==> Extended(ps[i])
    ensures StartsWith(EncodeAll(ps, magic) + rest, AllOnWire(ps), magic)
    ensures (EncodeAll(ps, magic) + rest)[64 * |ps|..] == rest
  {
    hide Encoding, Decode, Extended, OnWire;
    if ps == [] {
      assert EncodeAll(ps, magic) + rest == rest;
    } else {
      var one, tail := Encoding(ps[0], magic), EncodeAll(ps[1..], magic) + rest;
      FramesLieInLine(ps[1..], magic, rest);
      OneFrame(ps[0], magic);
      assert EncodeAll(ps, magic) + rest == one + tail;
      forall i | 0 <= i < |ps| ensures Decode((one + tail)[64 * i..64 * i + 64], magic) == Ok(OnWire(ps[i])) {
        if i == 0 {
          assert (one + tail)[0..64] == one;
        } else {
          assert (one + tail)[64 * i..64 * i + 64] == tail[64 * (i - 1)..64 * (i - 1) + 64];
          assert AllOnWire(ps[1..])[i - 1] == OnWire(ps[i]);
        }
      }
      assert (one + tail)[64 * |ps|..] == tail[64 * |ps[1..]|..];
    }
  }

  lemma OneFrame(p: Packet, magic: uint32)
    requires Extended(p)
    ensures |Encoding(p, magic)| == 64 && Decode(Encoding(p, magic), magic) == Ok(OnWire(p))
  {
    DecodeEncode(p, magic, magic);
  }

  /** A reader that has accepted ps from a stream that starts with the honest twenty has accepted a prefix of them. */
  lemma PrefixOfHonest(u: seq<byte>, ps: seq<Packet>, hs: seq<Packet>, magic: uint32, me: Party, other: Party)
    requires Honest(hs, me, other) && StartsWith(u, hs, magic)
    requires Progress(me.chs, ps).Ok? && Reading(u, ps, magic, me.chs, Progress(me.chs, ps).value)
    ensures |ps| <= |hs| && ps == hs[..|ps|]
  {
    hide Decode, Progress;
    forall i | 0 <= i < |ps| && i < |hs| ensures ps[i] == hs[i] {
    }
    if |ps| > |hs| {
      assert ps[..|hs|] == hs[..|hs|];
      HonestProgress(hs, me, other, |hs|);
    }
  }

  /** It neither stops early nor reads on. */
  lemma HonestEnding(u: seq<byte>, ps: seq<Packet>, hs: seq<Packet>, magic: uint32, me: Party, other: Party)
    requires Honest(hs, me, other) && StartsWith(u, hs, magic) && |ps| <= |hs| && ps == hs[..|ps|]
    requires Progress(me.chs, ps).Ok?
    ensures Progress(me.chs, ps).value.verified == ROUNDS ==>
              ps == hs && Progress(me.chs, ps).value.peer == WireName(other.name)
    ensures forall e :: Progress(me.chs, ps).value.verified < ROUNDS ==> !StopsAt(u, ps, magic, me.chs, e)
  {
    hide Decode, Progress, WireName;
    HonestProgress(hs, me, other, |ps|);
    if |ps| < |hs| {
      assert ps + [hs[|ps|]] == hs[..|ps| + 1];
      HonestProgress(hs, me, other, |ps| + 1);
    }
  }

  lemma MeetingEnds(u: seq<byte>, ps: seq<Packet>, magic: uint32, me: Party, other: Party, rest: seq<byte>)
    requires |me.chs| == |other.chs| == ROUNDS && u == EncodeAll(Spoken(other, me), magic) + rest
    requires Progress(me.chs, ps).Ok? && Reading(u, ps, magic, me.chs, Progress(me.chs, ps).value)
    ensures var l := Progress(me.chs, ps).value;
            && (l.verified == ROUNDS ==> ps == Heard(me, other) && l.peer == WireName(other.name) && u[64 * |ps|..] == rest)
            && (forall e :: l.verified < ROUNDS ==> !StopsAt(u, ps, magic, me.chs, e))
  {
    hide Honest, StartsWith, StopsAt, Progress, Reading, Encoding, EncodeAll, Spoken, WireName, Extended;
    HeardIsHonest(me, other);
    FramesLieInLine(Spoken(other, me), magic, rest);
    PrefixOfHonest(u, ps, Heard(me, other), magic, me, other);
    HonestEnding(u, ps, Heard(me, other), magic, me, other);
  }

  lemma SpokenBytes(before: seq<byte>, magic: uint32, me: Party, other: Party)
    requires |me.chs| == |other.chs| == ROUNDS
    ensures before + EncodeAll(Challenges(me), magic) + EncodeAll(Acks(me, Heard(me, other)), magic) ==
            before + EncodeAll(Spoken(me, other), magic)
  {
    hide EncodeAll, Acks, Challenges, Heard;
    AnswersGiven(me, other);
    EncodeAllConcat(Challenges(me), Acks(me, AllOnWire(Challenges(other))), magic);
  }

  /** The program against what an honest peer says, whatever comes after it: it returns the peer's name, leaves the rest
      unread, and says exactly what an honest peer of the other would. */
  method MeetPeer(sc: SecureConn, magic: uint32, sender: Sender, me: Party, ghost other: Party, ghost rest: seq<byte>)
    returns (r: Result<Name>)
    requires sc.Valid() && sender.Valid() && (me.start, me.count) == (sender.start, sender.count)
    requires |me.chs| == |other.chs| == ROUNDS
    requires sc.Unread() == EncodeAll(Spoken(other, me), magic) + rest
    modifies sc, sc.inbound, sc.outbound, sender
    ensures sc.Valid() && sender.Valid()
    ensures r == Ok(WireName(other.name)) && sc.Unread() == rest
    ensures sc.sent == old(sc.sent) + EncodeAll(Spoken(me, other), magic)
  {
    hide Honest, StartsWith, StopsAt, Progress, Reading, Encoding, EncodeAll, AckPackets, ChallengePackets,
         Spoken, Heard, WireName, SecureConn.Valid, SecureConn.ValidOut, SecureConn.Unread, SecureConn.Incoming, Sender.Valid;
    ghost var u := sc.Unread();
    ghost var ps;
    r, ps := ClientHandshake(sc, magic, sender, me.id, me.name, me.chs);
    MeetingEnds(u, ps, magic, me, other, rest);
    SpokenBytes(old(sc.sent), magic, me, other);
  }
}
