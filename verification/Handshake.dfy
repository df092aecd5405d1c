/** The ten-round mutual challenge, as one peer runs it against whatever arrives. */
module Handshake {
  import opened Bytes
  import opened Crypto
  import opened Packets
  import opened Stream
  import opened Framing
  import opened FanOut

  const ROUNDS := 10

  /** The bitwise complement of a payload. */
  function Complement(b: Block): Block {
    seq(16, i requires 0 <= i < 16 => Not(b[i]))
  }

  lemma ComplementTwice(b: Block)
    ensures Complement(Complement(b)) == b
  {
  }

  function Challenge(ch: Block, id: int32, selfID: uint32, own: Name): Packet {
    Packet(PT_HANDSHAKE, id, selfID, ID_ALL, ch, own, true)
  }

  function AckChallenge(req: Packet, own: Name, id: int32): Packet {
    Packet(PT_HANDSHAKE_ACK, id, ID_NONE, req.src, Complement(req.payload), own, true)
  }

  predicate VerifyAck(ack: Packet, ch: Block) {
    ack.payload == Complement(ch)
  }

  /** Each byte of the ack and the byte of the challenge in the same place add up to 0xFF: no bit in common, none missing. */
  predicate Complementary(ack: Packet, ch: Block) {
    forall j :: 0 <= j < 16 ==> ack.payload[j] as int + ch[j] == 0xFF
  }

  /** The ack to a challenge goes back to its sender, under our name and no slot, with every bit of the payload turned. */
  lemma AckTurnsEveryBit(req: Packet, own: Name, id: int32)
    ensures var ack := AckChallenge(req, own, id);
            && Complementary(ack, req.payload)
            && ack.typ == 127 && ack.src == 0 && ack.des == req.src && ack.name == own && ack.hasName && ack.id == id
  {
  }

  /** An ack is accepted for a challenge exactly when it turns every bit of it; so a peer that echoes is refused. */
  lemma VerifiedExactly(ack: Packet, ch: Block)
    ensures VerifyAck(ack, ch) <==> Complementary(ack, ch)
    ensures ack.payload == ch ==> !VerifyAck(ack, ch)
  {
    if Complementary(ack, ch) {
      assert forall j :: 0 <= j < 16 ==> ack.payload[j] == Complement(ch)[j];
    }
    if ack.payload == ch {
      assert ack.payload[0] as int + ch[0] != 0xFF;
    }
  }

  /** A challenge carries its random block as drawn, our slot and our name, and is for everyone. */
  lemma ChallengeAsDrawn(ch: Block, id: int32, selfID: uint32, own: Name)
    ensures var p := Challenge(ch, id, selfID, own);
            p.typ == 126 && p.payload == ch && p.src == selfID && p.des == 255 && p.name == own && p.hasName && p.id == id
  {
  }

  /** The reading side's progress. */
  datatype Local = Local(acked: seq<bool>, verified: nat, peer: Name)

  function Fresh(rounds: nat): Local {
    Local(seq(rounds, _ => false), 0, [])
  }

  /** The first challenge from i on that is neither acked nor fails to match; |chs| when there is none. */
  function FirstMatch(chs: seq<Block>, acked: seq<bool>, ack: Packet, i: nat): (k: nat)
    requires |acked| == |chs| && i <= |chs|
    ensures i <= k <= |chs|
    ensures k < |chs| ==> !acked[k] && VerifyAck(ack, chs[k])
    ensures forall j :: i <= j < k ==> acked[j] || !VerifyAck(ack, chs[j])
    decreases |chs| - i
  {
    if i == |chs| || (!acked[i] && VerifyAck(ack, chs[i])) then i else FirstMatch(chs, acked, ack, i + 1)
  }

  /** One received packet: the new progress, and the packet to answer when it was a challenge. */
  function OnPacket(chs: seq<Block>, l: Local, p: Packet): Result<Local>
    requires |l.acked| == |chs|
  {
    if p.typ == PT_HANDSHAKE then
      Ok(l.(peer := if l.peer == [] then p.name else l.peer))
    else if p.typ == PT_HANDSHAKE_ACK then
      var k := FirstMatch(chs, l.acked, p, 0);
      if k == |chs| then Err(AckMismatch)
      else Ok(Local(l.acked[k := true], l.verified + 1, if l.peer == [] then p.name else l.peer))
    else Err(UnexpectedType)
  }

  // Matching acks to challenges, whatever their order.

  /** The payloads the acks among ps answer. */
  function Answers(ps: seq<Packet>): multiset<Block> {
    if ps == [] then multiset{} else
      var last := ps[|ps| - 1];
      Answers(ps[..|ps| - 1]) + if last.typ == PT_HANDSHAKE_ACK then multiset{Complement(last.payload)} else multiset{}
  }

  predicate HandshakeTypes(ps: seq<Packet>) {
    forall p :: p in ps ==> p.typ == PT_HANDSHAKE || p.typ == PT_HANDSHAKE_ACK
  }

  /** The progress after ps, or the first error. */
  function Progress(chs: seq<Block>, ps: seq<Packet>): (r: Result<Local>)
    ensures r.Ok? ==> |r.value.acked| == |chs|
  {
    if ps == [] then Ok(Fresh(|chs|)) else
      match Progress(chs, ps[..|ps| - 1])
      case Err(e) => Err(e)
      case Ok(l) => OnPacket(chs, l, ps[|ps| - 1])
  }

  /** The challenges whose flag equals `flag`. */
  function Flagged(chs: seq<Block>, acked: seq<bool>, flag: bool): multiset<Block>
    requires |acked| == |chs|
  {
    if chs == [] then multiset{} else
      Flagged(chs[..|chs| - 1], acked[..|chs| - 1], flag)
      + if acked[|chs| - 1] == flag then multiset{chs[|chs| - 1]} else multiset{}
  }

  lemma {:induction false} FlaggedSplit(chs: seq<Block>, acked: seq<bool>)
    requires |acked| == |chs|
    ensures Flagged(chs, acked, true) + Flagged(chs, acked, false) == multiset(chs)
    ensures |Flagged(chs, acked, true)| + |Flagged(chs, acked, false)| == |chs|
  {
    if chs == [] {
    } else {
      var n := |chs| - 1;
      assert chs == chs[..n] + [chs[n]];
      FlaggedSplit(chs[..n], acked[..n]);
    }
  }

  lemma {:induction false} FlaggedHas(chs: seq<Block>, acked: seq<bool>, flag: bool, ch: Block)
    requires |acked| == |chs|
    ensures ch in Flagged(chs, acked, flag) <==> exists i :: 0 <= i < |chs| && acked[i] == flag && chs[i] == ch
  {
    if chs == [] {
    } else {
      hide Flagged;
      var n := |chs| - 1;
      FlaggedLast(chs, acked, flag);
      FlaggedHas(chs[..n], acked[..n], flag, ch);
      if i :| 0 <= i < n && acked[i] == flag && chs[i] == ch {
        assert acked[..n][i] == flag && chs[..n][i] == ch;
      }
    }
  }

  lemma {:induction false} FlaggedSet(chs: seq<Block>, acked: seq<bool>, k: nat)
    requires |acked| == |chs| && k < |chs| && !acked[k]
    ensures Flagged(chs, acked[k := true], true) == Flagged(chs, acked, true) + multiset{chs[k]}
  {
    hide Flagged;
    var n, after := |chs| - 1, acked[k := true];
    FlaggedLast(chs, acked, true);
    FlaggedLast(chs, after, true);
    if k == n {
      assert after[..n] == acked[..n];
    } else {
      assert after[..n] == acked[..n][k := true] && chs[..n][k] == chs[k];
      FlaggedSet(chs[..n], acked[..n], k);
    }
  }

  lemma FlaggedLast(chs: seq<Block>, acked: seq<bool>, flag: bool)
    requires |acked| == |chs| > 0
    ensures var n := |chs| - 1;
            Flagged(chs, acked, flag) ==
            if acked[n] == flag then Flagged(chs[..n], acked[..n], flag) + multiset{chs[n]}
            else Flagged(chs[..n], acked[..n], flag)
  {
  }

  /** One ack: the search succeeds exactly when the answered challenge still has an unacked copy. */
  lemma AckStep(chs: seq<Block>, acked: seq<bool>, p: Packet)
    requires |acked| == |chs|
    ensures var k, a := FirstMatch(chs, acked, p, 0), Complement(p.payload);
            && (k < |chs| <==> Flagged(chs, acked, true) + multiset{a} <= multiset(chs))
            && (k < |chs| ==> Flagged(chs, acked[k := true], true) == Flagged(chs, acked, true) + multiset{a})
  {
    var k, a := FirstMatch(chs, acked, p, 0), Complement(p.payload);
    ComplementTwice(p.payload);
    FlaggedSplit(chs, acked);
    FlaggedHas(chs, acked, false, a);
    if k < |chs| {
      ComplementTwice(chs[k]);
      FlaggedSet(chs, acked, k);
    }
    OneMore(Flagged(chs, acked, true), Flagged(chs, acked, false), a);
  }

  lemma OneMore(taken: multiset<Block>, left: multiset<Block>, a: Block)
    ensures a in left <==> taken + multiset{a} <= taken + left
  {
    if taken + multiset{a} <= taken + left {
      assert (taken + multiset{a})[a] <= (taken + left)[a];
    }
  }

  /** Whatever the order of the packets, and even with repeated challenges: the first-unacked search accepts them all
      exactly when they are handshake packets whose acks answer a sub-multiset of the challenges; and the
      challenges flagged as acked are then, as a multiset, exactly the ones answered. */
  lemma {:induction false} AckMatching(chs: seq<Block>, ps: seq<Packet>)
    ensures Progress(chs, ps).Ok? <==> HandshakeTypes(ps) && Answers(ps) <= multiset(chs)
    ensures Progress(chs, ps).Ok? ==>
              var l := Progress(chs, ps).value;
              Flagged(chs, l.acked, true) == Answers(ps) && l.verified == |Answers(ps)|
  {
    hide Flagged, FirstMatch, Complement;
    if ps == [] {
      NothingFlagged(chs);
    } else {
      var n := |ps| - 1;
      var p := ps[n];
      AckMatching(chs, ps[..n]);
      assert HandshakeTypes(ps) <==> HandshakeTypes(ps[..n]) && (p.typ == PT_HANDSHAKE || p.typ == PT_HANDSHAKE_ACK) by {
        assert ps == ps[..n] + [p];
      }
      if Progress(chs, ps[..n]).Ok? && p.typ == PT_HANDSHAKE_ACK {
        AckStep(chs, Progress(chs, ps[..n]).value.acked, p);
      }
    }
  }

  /** Success against an arbitrary peer: every packet read was a handshake packet, and the complemented ack payloads
      are the challenges, as a multiset. */
  lemma SuccessAnswersEveryChallenge(chs: seq<Block>, ps: seq<Packet>)
    requires Progress(chs, ps).Ok? && Progress(chs, ps).value.verified >= |chs|
    ensures HandshakeTypes(ps) && Answers(ps) == multiset(chs)
  {
    AckMatching(chs, ps);
    assert multiset(chs) == Answers(ps) + (multiset(chs) - Answers(ps));
  }

  /** The challenge that the ack at place a of ps was accepted for; |chs| when it was accepted for none. */
  function MatchOf(chs: seq<Block>, ps: seq<Packet>, a: nat): (k: nat)
    requires a < |ps|
    ensures k <= |chs|
  {
    var before := Progress(chs, ps[..a]);
    if before.Ok? then FirstMatch(chs, before.value.acked, ps[a], 0) else |chs|
  }

  /** Some ack was accepted for challenge i. */
  ghost predicate AnsweredBy(chs: seq<Block>, ps: seq<Packet>, i: nat) {
    exists a :: 0 <= a < |ps| && ps[a].typ == 127 && MatchOf(chs, ps, a) == i
  }

  /** Each ack went to a challenge of its own, whose every bit it turns, and the challenges acked are those. */
  ghost predicate Matched(chs: seq<Block>, ps: seq<Packet>, acked: seq<bool>)
    requires |acked| == |chs|
  {
    && (forall a :: 0 <= a < |ps| && ps[a].typ == 127 ==>
          MatchOf(chs, ps, a) < |chs| && Complementary(ps[a], chs[MatchOf(chs, ps, a)]) && acked[MatchOf(chs, ps, a)])
    && (forall a, b :: 0 <= a < b < |ps| && ps[a].typ == ps[b].typ == 127 ==> MatchOf(chs, ps, a) != MatchOf(chs, ps, b))
    && (forall i :: 0 <= i < |chs| && acked[i] ==> AnsweredBy(chs, ps, i))
  }

  lemma MatchesStay(chs: seq<Block>, ps: seq<Packet>, p: Packet)
    ensures forall a :: 0 <= a < |ps| ==> MatchOf(chs, ps + [p], a) == MatchOf(chs, ps, a) && (ps + [p])[a] == ps[a]
  {
    hide FirstMatch, Progress;
    forall a | 0 <= a < |ps| ensures MatchOf(chs, ps + [p], a) == MatchOf(chs, ps, a) {
      assert (ps + [p])[..a] == ps[..a];
    }
  }

  lemma AnswersStay(chs: seq<Block>, ps: seq<Packet>, p: Packet, i: nat)
    requires AnsweredBy(chs, ps, i)
    ensures AnsweredBy(chs, ps + [p], i)
  {
    hide MatchOf;
    MatchesStay(chs, ps, p);
    var a :| 0 <= a < |ps| && ps[a].typ == 127 && MatchOf(chs, ps, a) == i;
    assert (ps + [p])[a].typ == 127;
  }

  lemma NextProgress(chs: seq<Block>, ps: seq<Packet>, p: Packet)
    requires Progress(chs, ps).Ok?
    ensures Progress(chs, ps + [p]) == OnPacket(chs, Progress(chs, ps).value, p)
    ensures MatchOf(chs, ps + [p], |ps|) == FirstMatch(chs, Progress(chs, ps).value.acked, p, 0)
  {
    hide OnPacket, FirstMatch;
    assert (ps + [p])[..|ps|] == ps;
  }

  /** What one more accepted packet changes: an ack takes a challenge that was free. */
  lemma NextMatch(chs: seq<Block>, ps: seq<Packet>, p: Packet)
    requires Progress(chs, ps).Ok? && Progress(chs, ps + [p]).Ok?
    ensures var was, now, k := Progress(chs, ps).value.acked, Progress(chs, ps + [p]).value.acked, MatchOf(chs, ps + [p], |ps|);
            if p.typ == 127 then k < |chs| && !was[k] && Complementary(p, chs[k]) && now == was[k := true] else now == was
  {
    hide Progress, MatchOf, FirstMatch, VerifyAck, Complementary;
    NextProgress(chs, ps, p);
    if p.typ == 127 {
      VerifiedExactly(p, chs[MatchOf(chs, ps + [p], |ps|)]);
    }
  }

  lemma NextMatched(chs: seq<Block>, ps: seq<Packet>, p: Packet)
    requires Progress(chs, ps).Ok? && Progress(chs, ps + [p]).Ok? && Matched(chs, ps, Progress(chs, ps).value.acked)
    ensures Matched(chs, ps + [p], Progress(chs, ps + [p]).value.acked)
  {
    hide MatchOf, Progress, Complementary, AnsweredBy;
    var n, next := |ps|, ps + [p];
    var was, now := Progress(chs, ps).value.acked, Progress(chs, next).value.acked;
    MatchesStay(chs, ps, p);
    NextMatch(chs, ps, p);
    assert next[n] == p;
    forall i | 0 <= i < |chs| && now[i] ensures AnsweredBy(chs, next, i) {
      if was[i] { AnswersStay(chs, ps, p, i); } else { NewAnswer(chs, next, n); }
    }
  }

  lemma NewAnswer(chs: seq<Block>, ps: seq<Packet>, a: nat)
    requires a < |ps| && ps[a].typ == 127
    ensures AnsweredBy(chs, ps, MatchOf(chs, ps, a))
  {
  }

  lemma {:induction false} AcceptedIsMatched(chs: seq<Block>, ps: seq<Packet>)
    requires Progress(chs, ps).Ok?
    ensures Matched(chs, ps, Progress(chs, ps).value.acked)
  {
    if ps != [] {
      hide Matched, OnPacket, MatchOf;
      var n := |ps| - 1;
      AcceptedIsMatched(chs, ps[..n]);
      assert ps == ps[..n] + [ps[n]];
      NextMatched(chs, ps[..n], ps[n]);
    }
  }

  /** On success every challenge was answered by an ack of its own that turned every bit of it, and every ack read was
      one of these. */
  lemma EachChallengeAnswered(chs: seq<Block>, ps: seq<Packet>)
    requires Progress(chs, ps).Ok? && Progress(chs, ps).value.verified >= |chs|
    ensures forall a :: 0 <= a < |ps| && ps[a].typ == 127 ==>
              MatchOf(chs, ps, a) < |chs| && Complementary(ps[a], chs[MatchOf(chs, ps, a)])
    ensures forall a, b :: 0 <= a < b < |ps| && ps[a].typ == ps[b].typ == 127 ==> MatchOf(chs, ps, a) != MatchOf(chs, ps, b)
    ensures forall i :: 0 <= i < |chs| ==> AnsweredBy(chs, ps, i)
  {
    hide Progress, MatchOf, Complementary, Flagged, AnsweredBy;
    AcceptedIsMatched(chs, ps);
    AckMatching(chs, ps);
    var l := Progress(chs, ps).value;
    FlaggedSplit(chs, l.acked);
    SuccessAnswersEveryChallenge(chs, ps);
    assert |Flagged(chs, l.acked, true)| == |multiset(chs)| == |chs|;
    forall i | 0 <= i < |chs| ensures l.acked[i] {
      FlaggedHas(chs, l.acked, false, chs[i]);
      NoneLeft(Flagged(chs, l.acked, false), chs[i]);
    }
  }

  lemma NoneLeft(left: multiset<Block>, ch: Block)
    requires |left| == 0
    ensures ch !in left
  {
  }

  lemma {:induction false} NothingFlagged(chs: seq<Block>)
    ensures Flagged(chs, Fresh(|chs|).acked, true) == multiset{}
  {
    if chs == [] {
    } else {
      assert Fresh(|chs|).acked[..|chs| - 1] == Fresh(|chs| - 1).acked;
      NothingFlagged(chs[..|chs| - 1]);
    }
  }

  // The dialer's and acceptor's loop.

  function ChallengePackets(chs: seq<Block>, selfID: uint32, own: Name, start: int, count: nat): seq<Packet> {
    seq(|chs|, i requires 0 <= i < |chs| => Challenge(chs[i], IdOf(start, count + i), selfID, own))
  }

  /** The acks owed for the challenges among ps, in order, under consecutive ids. */
  function AckPackets(ps: seq<Packet>, own: Name, start: int, count: nat): seq<Packet> {
    if ps == [] then [] else
      var acks, p := AckPackets(ps[..|ps| - 1], own, start, count), ps[|ps| - 1];
      if p.typ == PT_HANDSHAKE then acks + [AckChallenge(p, own, IdOf(start, count + |acks|))] else acks
  }

  /** The stream u starts with 64 byte frames that decode to ps. */
  ghost predicate StartsWith(u: seq<byte>, ps: seq<Packet>, magic: uint32) {
    64 * |ps| <= |u| && forall i :: 0 <= i < |ps| ==> Decode(u[64 * i..64 * i + 64], magic) == Ok(ps[i])
  }

  /** What a failed handshake met after the packets ps. */
  ghost predicate StopsAt(u: seq<byte>, ps: seq<Packet>, magic: uint32, chs: seq<Block>, e: Error) {
    var at := 64 * |ps|;
    if |u| < at + 64 then e == Eof else
      match Decode(u[at..at + 64], magic)
      case Err(d) => e == d
      case Ok(p) => Progress(chs, ps + [p]) == Err(e)
  }

  lemma OneMoreChallenge(rnd: seq<Block>, i: nat, selfID: uint32, own: Name, start: int, count: nat,
                         magic: uint32, before: seq<byte>)
    requires i < |rnd|
    ensures before + EncodeAll(ChallengePackets(rnd[..i + 1], selfID, own, start, count), magic) ==
            before + EncodeAll(ChallengePackets(rnd[..i], selfID, own, start, count), magic)
            + Encoding(Challenge(rnd[i], IdOf(start, count + i), selfID, own), magic)
  {
    hide Encoding, EncodeAll, Challenge, IdOf;
    var ps, p := ChallengePackets(rnd[..i], selfID, own, start, count), Challenge(rnd[i], IdOf(start, count + i), selfID, own);
    assert ChallengePackets(rnd[..i + 1], selfID, own, start, count) == ps + [p];
    EncodeAllAppend(ps, p, magic);
  }

  lemma NoChallengeYet(rnd: seq<Block>, selfID: uint32, own: Name, start: int, count: nat, magic: uint32, before: seq<byte>)
    ensures before + EncodeAll(ChallengePackets(rnd[..0], selfID, own, start, count), magic) == before
  {
  }

  /** The ten challenges go out first. */
  method SendChallenges(sc: SecureConn, magic: uint32, sender: Sender, selfID: uint32, own: Name, rnd: seq<Block>)
    requires sc.Valid() && sender.Valid()
    modifies sc`encIV, sc`sent, sc.outbound`bytes, sender
    ensures sc.Valid() && sender.Valid() && sc.Unread() == old(sc.Unread()) && sender.count == old(sender.count) + |rnd|
    ensures sc.sent == old(sc.sent) + EncodeAll(ChallengePackets(rnd, selfID, own, sender.start, old(sender.count)), magic)
  {
    hide *;
    NoChallengeYet(rnd, selfID, own, sender.start, sender.count, magic, sc.sent);
    for i := 0 to |rnd|
      invariant sc.Valid() && sender.Valid() && sc.Unread() == old(sc.Unread()) && sender.count == old(sender.count) + i
      invariant sc.sent ==
                old(sc.sent) + EncodeAll(ChallengePackets(rnd[..i], selfID, own, sender.start, old(sender.count)), magic)
    {
      var id := sender.Next();
      OneMoreChallenge(rnd, i, selfID, own, sender.start, old(sender.count), magic, old(sc.sent));
      WritePacket(sc, Challenge(rnd[i], id, selfID, own), magic);
    }
    assert rnd[..|rnd|] == rnd;
  }

  /** ReadPacket(true) and Decode. */
  method ReadFrame(sc: SecureConn, magic: uint32) returns (r: Result<Packet>)
    requires sc.Valid()
    modifies sc`decIV, sc`ended, sc.inbound`taken
    ensures sc.Valid()
    ensures |old(sc.Unread())| < 64 ==> r == Err(Eof)
    ensures |old(sc.Unread())| >= 64 ==> r == Decode(old(sc.Unread())[..64], magic) && sc.Unread() == old(sc.Unread())[64..]
  {
    var raw := sc.ReadRaw(64);
    r := if raw.Ok? then Decode(raw.value, magic) else Err(raw.error);
  }

  /** The reader has accepted ps, not yet enough, and stands at progress l. */
  ghost predicate Reading(u: seq<byte>, ps: seq<Packet>, magic: uint32, chs: seq<Block>, l: Local) {
    && StartsWith(u, ps, magic)
    && Progress(chs, ps) == Ok(l)
    && forall n :: 0 <= n < |ps| ==> Progress(chs, ps[..n]).Ok? && Progress(chs, ps[..n]).value.verified < ROUNDS
  }

  lemma NothingRead(u: seq<byte>, magic: uint32, chs: seq<Block>)
    ensures Reading(u, [], magic, chs, Fresh(|chs|)) && u[0..] == u
  {
  }

  lemma NoFrame(u: seq<byte>, ps: seq<Packet>, magic: uint32, chs: seq<Block>)
    requires 64 * |ps| <= |u|
    ensures |u[64 * |ps|..]| < 64 ==> StopsAt(u, ps, magic, chs, Eof)
    ensures |u[64 * |ps|..]| >= 64 && Decode(u[64 * |ps|..][..64], magic).Err? ==>
              StopsAt(u, ps, magic, chs, Decode(u[64 * |ps|..][..64], magic).error)
  {
    hide Decode, Progress;
    if |u| >= 64 * |ps| + 64 {
      assert u[64 * |ps|..][..64] == u[64 * |ps|..64 * |ps| + 64];
    }
  }

  /** One more accepted packet, or the packet at which the reader stops. */
  lemma Advance(u: seq<byte>, ps: seq<Packet>, magic: uint32, chs: seq<Block>, l: Local, p: Packet)
    requires Reading(u, ps, magic, chs, l) && l.verified < ROUNDS && |l.acked| == |chs|
    requires 64 * |ps| + 64 <= |u| && Decode(u[64 * |ps|..][..64], magic) == Ok(p)
    ensures OnPacket(chs, l, p).Err? ==> StopsAt(u, ps, magic, chs, OnPacket(chs, l, p).error)
    ensures OnPacket(chs, l, p).Ok? ==> Reading(u, ps + [p], magic, chs, OnPacket(chs, l, p).value)
    ensures u[64 * |ps|..][64..] == u[64 * |ps + [p]|..]
  {
    hide Decode, OnPacket;
    var next := ps + [p];
    assert next[..|ps|] == ps;
    assert u[64 * |ps|..][..64] == u[64 * |ps|..64 * |ps| + 64];
    assert forall n :: 0 <= n < |ps| ==> next[..n] == ps[..n];
  }

  lemma OneMoreAck(ps: seq<Packet>, p: Packet, own: Name, start: int, count: nat, magic: uint32, before: seq<byte>)
    ensures var acks, next := AckPackets(ps, own, start, count), AckPackets(ps + [p], own, start, count);
            if p.typ == PT_HANDSHAKE then
              && |next| == |acks| + 1
              && before + EncodeAll(next, magic) ==
                 before + EncodeAll(acks, magic) + Encoding(AckChallenge(p, own, IdOf(start, count + |acks|)), magic)
            else next == acks
  {
    hide Encoding, EncodeAll, AckChallenge, IdOf;
    assert (ps + [p])[..|ps|] == ps;
    var acks := AckPackets(ps, own, start, count);
    EncodeAllAppend(acks, AckChallenge(p, own, IdOf(start, count + |acks|)), magic);
  }

  lemma NoAckYet(own: Name, start: int, count: nat, magic: uint32, before: seq<byte>)
    ensures AckPackets([], own, start, count) == [] && before + EncodeAll([], magic) == before
  {
  }

  method MatchAck(chs: seq<Block>, acked: array<bool>, p: Packet) returns (k: nat)
    requires acked.Length == |chs|
    ensures k == FirstMatch(chs, acked[..], p, 0)
  {
    for i := 0 to |chs|
      invariant FirstMatch(chs, acked[..], p, 0) == FirstMatch(chs, acked[..], p, i)
    {
      if !acked[i] && VerifyAck(p, chs[i]) { return i; }
    }
    k := |chs|;
  }

  /** Runs against any peer at all.  `rnd` are the ten random challenges; `ps` collects the packets accepted. */
  method ClientHandshake(sc: SecureConn, magic: uint32, sender: Sender, selfID: uint32, own: Name, rnd: seq<Block>)
    returns (r: Result<Name>, ghost ps: seq<Packet>)
    requires sc.Valid() && sender.Valid() && |rnd| == ROUNDS
    modifies sc, sc.inbound, sc.outbound, sender
    ensures sc.Valid() && sender.Valid()
    ensures Progress(rnd, ps).Ok? && Reading(old(sc.Unread()), ps, magic, rnd, Progress(rnd, ps).value)
    ensures r.Ok? ==> Progress(rnd, ps).value.verified == ROUNDS && r.value == Progress(rnd, ps).value.peer
    ensures r.Ok? ==> 64 * |ps| <= |old(sc.Unread())| && sc.Unread() == old(sc.Unread())[64 * |ps|..]
    ensures r.Err? ==> Progress(rnd, ps).value.verified < ROUNDS && StopsAt(old(sc.Unread()), ps, magic, rnd, r.error)
    ensures sc.sent == old(sc.sent)
                       + EncodeAll(ChallengePackets(rnd, selfID, own, sender.start, old(sender.count)), magic)
                       + EncodeAll(AckPackets(ps, own, sender.start, old(sender.count) + ROUNDS), magic)
  {
    hide Encoding, EncodeAll, ChallengePackets, AckPackets, AckChallenge, Decode, FirstMatch, StartsWith, StopsAt, Progress,
         IdOf, SecureConn.Valid, SecureConn.ValidOut, SecureConn.Unread, SecureConn.Incoming, Sender.Valid;
    ghost var u := sc.Unread();
    SendChallenges(sc, magic, sender, selfID, own, rnd);
    ghost var base, sent1 := sender.count, sc.sent;
    ps := [];
    var acked := new bool[ROUNDS](_ => false);
    var verified, peer := 0, [];
    assert acked[..] == Fresh(ROUNDS).acked;
    NothingRead(u, magic, rnd);
    NoAckYet(own, sender.start, base, magic, sent1);
    while verified < ROUNDS
      invariant sc.Valid() && sender.Valid() && 64 * |ps| <= |u| && sc.Unread() == u[64 * |ps|..]
      invariant Reading(u, ps, magic, rnd, Local(acked[..], verified, peer)) && verified <= ROUNDS
      invariant sender.count == base + |AckPackets(ps, own, sender.start, base)|
      invariant sc.sent == sent1 + EncodeAll(AckPackets(ps, own, sender.start, base), magic)
      decreases |u| - 64 * |ps|
    {
      NoFrame(u, ps, magic, rnd);
      var pkt := ReadFrame(sc, magic);
      if pkt.Err? { return Err(pkt.error), ps; }
      var p := pkt.value;
      Advance(u, ps, magic, rnd, Local(acked[..], verified, peer), p);
      OneMoreAck(ps, p, own, sender.start, base, magic, sent1);
      if p.typ == PT_HANDSHAKE {
        var id := sender.Next();
        WritePacket(sc, AckChallenge(p, own, id), magic);
      } else if p.typ == PT_HANDSHAKE_ACK {
        var k := MatchAck(rnd, acked, p);
        if k == ROUNDS { return Err(AckMismatch), ps; }
        acked[k] := true;
        verified := verified + 1;
      } else {
        return Err(UnexpectedType), ps;
      }
      if peer == [] {
        peer := p.name;
      }
      ps := ps + [p];
    }
    r := Ok(peer);
  }
}
