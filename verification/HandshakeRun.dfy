/** Two honest peers running the handshake over FIFO channels, in every interleaving. */
module HandshakeRun {
  import opened Bytes
  import opened Crypto
  import opened Packets
  import opened Handshake

  /** Shared by both peers: the magic, and how many unread packets each direction can buffer. */
  datatype Cfg = Cfg(magic: uint32, cap: nat)

  /** Where a peer stands; Acking is the write of an ack that may have to wait for buffer space. */
  datatype Phase = Sending | Reading | Acking(req: Packet) | Done | Failed

  /** `sent` is every wire packet written so far; the other peer has taken the first `other.read` of them. */
  datatype Peer = Peer(chs: seq<Block>, own: Name, src: uint32, phase: Phase, loc: Local, read: nat, sent: seq<seq<byte>>)

  datatype Move = Send(id: int32) | Read | Ack(id: int32) | App(wire: seq<byte>)

  predicate HasRoom(me: Peer, other: Peer, cfg: Cfg) {
    |me.sent| < other.read + cfg.cap
  }

  /** The move can be made now.  Writes block on a full buffer, reads on an empty one. */
  predicate Enabled(me: Peer, other: Peer, cfg: Cfg, m: Move) {
    match m
    case Send(_) => me.phase == Sending && |me.sent| < |me.chs| && HasRoom(me, other, cfg)
    case Read => me.phase == Reading && me.read < |other.sent| && |me.loc.acked| == |me.chs|
    case Ack(_) => me.phase.Acking? && HasRoom(me, other, cfg)
    case App(_) => me.phase == Done && HasRoom(me, other, cfg)
  }

  /** A move changes only the mover: it appends to what it sent or advances what it read. */
  function Moved(me: Peer, other: Peer, cfg: Cfg, m: Move): Peer
    requires Enabled(me, other, cfg, m)
  {
    match m
    case Send(id) =>
      var sent := me.sent + [Encoding(Challenge(me.chs[|me.sent|], id, me.src, me.own), cfg.magic)];
      me.(sent := sent, phase := if |sent| == |me.chs| then Reading else Sending)
    case Read => Received(me.(read := me.read + 1), other.sent[me.read], cfg)
    case Ack(id) =>
      me.(sent := me.sent + [Encoding(AckChallenge(me.phase.req, me.own, id), cfg.magic)], phase := Reading)
    case App(wire) => me.(sent := me.sent + [wire])
  }

  function Received(me: Peer, raw: seq<byte>, cfg: Cfg): Peer
    requires |me.loc.acked| == |me.chs|
  {
    if |raw| != 64 || Decode(raw, cfg.magic).Err? then me.(phase := Failed) else
      var p := Decode(raw, cfg.magic).value;
      match OnPacket(me.chs, me.loc, p)
      case Err(_) => me.(phase := Failed)
      case Ok(l) =>
        me.(loc := l, phase := if p.typ == PT_HANDSHAKE then Acking(p) else if l.verified >= |me.chs| then Done else Reading)
  }

  datatype Pair = Pair(l: Peer, r: Peer)
  datatype Act = Act(left: bool, move: Move)

  predicate Can(s: Pair, cfg: Cfg, a: Act) {
    if a.left then Enabled(s.l, s.r, cfg, a.move) else Enabled(s.r, s.l, cfg, a.move)
  }

  function Step(s: Pair, cfg: Cfg, a: Act): Pair
    requires Can(s, cfg, a)
  {
    if a.left then s.(l := Moved(s.l, s.r, cfg, a.move)) else s.(r := Moved(s.r, s.l, cfg, a.move))
  }

  predicate Initial(p: Peer) {
    |p.chs| == ROUNDS && p.phase == Sending && p.loc == Fresh(ROUNDS) && p.read == 0 && p.sent == []
  }

  /** The acts can all be made in turn from s. */
  predicate Runs(s: Pair, cfg: Cfg, acts: seq<Act>)
    decreases |acts|
  {
    acts != [] ==> Can(s, cfg, acts[0]) && Runs(Step(s, cfg, acts[0]), cfg, acts[1..])
  }

  function Final(s: Pair, cfg: Cfg, acts: seq<Act>): Pair
    requires Runs(s, cfg, acts)
    decreases |acts|
  {
    if acts == [] then s else Final(Step(s, cfg, acts[0]), cfg, acts[1..])
  }

  // The invariant.

  predicate Carries(w: seq<byte>, cfg: Cfg, typ: byte, payload: Block, name: Name) {
    |w| == 64 && Decode(w, cfg.magic).Ok? &&
    var p := Decode(w, cfg.magic).value;
    p.typ == typ && p.payload == payload && p.name == WireName(name)
  }

  /** The first ten packets are my challenges, the next ten the acks of the other's challenges, in order. */
  ghost predicate Script(me: Peer, other: Peer, cfg: Cfg) {
    && |me.chs| == ROUNDS
    && (forall i :: 0 <= i < |me.sent| && i < ROUNDS ==> Carries(me.sent[i], cfg, PT_HANDSHAKE, me.chs[i], me.own))
    && (forall i :: 0 <= i < |me.sent| - ROUNDS && i < ROUNDS && i < |other.chs| ==>
          Carries(me.sent[ROUNDS + i], cfg, PT_HANDSHAKE_ACK, Complement(other.chs[i]), me.own))
  }

  function Min(a: int, b: int): int {
    if a < b then a else b
  }

  /** After v acks the first v challenges are the acked ones. */
  function Acked(v: nat): seq<bool> {
    seq(ROUNDS, i => i < v)
  }

  ghost predicate Bookkeeping(me: Peer, other: Peer, cfg: Cfg)
    requires |other.chs| == ROUNDS
  {
    var v := me.read - Min(me.read, ROUNDS);
    && me.read <= |other.sent| && |me.sent| <= other.read + cfg.cap
    && me.read <= 2 * ROUNDS
    && me.loc == Local(Acked(v), v, if me.read == 0 then [] else WireName(other.own))
    && match me.phase
       case Sending => |me.sent| < ROUNDS && me.read == 0
       case Reading => |me.sent| == ROUNDS + Min(me.read, ROUNDS) && me.read < 2 * ROUNDS
       case Acking(req) => 1 <= me.read <= ROUNDS && |me.sent| == ROUNDS + me.read - 1 && req.payload == other.chs[me.read - 1]
       case Done => me.read == 2 * ROUNDS && |me.sent| >= 2 * ROUNDS
       case Failed => false
  }

  ghost predicate Inv(me: Peer, other: Peer, cfg: Cfg) {
    Script(me, other, cfg) && |other.chs| == ROUNDS && Bookkeeping(me, other, cfg)
  }

  lemma ChallengeCarries(cfg: Cfg, ch: Block, id: int32, src: uint32, own: Name)
    ensures Carries(Encoding(Challenge(ch, id, src, own), cfg.magic), cfg, PT_HANDSHAKE, ch, own)
  {
    DecodeEncode(Challenge(ch, id, src, own), cfg.magic, cfg.magic);
  }

  lemma AckCarries(cfg: Cfg, req: Packet, id: int32, own: Name)
    ensures Carries(Encoding(AckChallenge(req, own, id), cfg.magic), cfg, PT_HANDSHAKE_ACK, Complement(req.payload), own)
  {
    DecodeEncode(AckChallenge(req, own, id), cfg.magic, cfg.magic);
  }

  /** With acks arriving in order, the search settles on the next challenge even if challenges repeat. */
  lemma NextAckMatches(chs: seq<Block>, v: nat, p: Packet)
    requires |chs| == ROUNDS && v < ROUNDS && p.payload == Complement(chs[v])
    ensures FirstMatch(chs, Acked(v), p, 0) == v
    ensures Acked(v)[v := true] == Acked(v + 1)
  {
  }

  /** What the next packet written must carry. */
  ghost predicate Fits(me: Peer, other: Peer, cfg: Cfg, w: seq<byte>)
    requires |me.chs| == |other.chs| == ROUNDS
  {
    var n := |me.sent|;
    && (n < ROUNDS ==> Carries(w, cfg, PT_HANDSHAKE, me.chs[n], me.own))
    && (ROUNDS <= n < 2 * ROUNDS ==> Carries(w, cfg, PT_HANDSHAKE_ACK, Complement(other.chs[n - ROUNDS]), me.own))
  }

  lemma AppendKeepsScript(me: Peer, other: Peer, cfg: Cfg, w: seq<byte>, after: Peer)
    requires Script(me, other, cfg) && |other.chs| == ROUNDS && Fits(me, other, cfg, w)
    requires after.chs == me.chs && after.own == me.own && after.sent == me.sent + [w]
    ensures Script(after, other, cfg)
  {
    hide Carries;
  }

  lemma WriteKeepsInv(me: Peer, other: Peer, cfg: Cfg, m: Move)
    requires Inv(me, other, cfg) && Inv(other, me, cfg) && Enabled(me, other, cfg, m) && !m.Read?
    ensures var after := Moved(me, other, cfg, m); Inv(after, other, cfg) && Inv(other, after, cfg)
  {
    hide Encoding, Decode, Complement, WireName, Challenge, AckChallenge, Carries;
    var after := Moved(me, other, cfg, m);
    match m {
      case Send(id) => ChallengeCarries(cfg, me.chs[|me.sent|], id, me.src, me.own);
      case Ack(id) => AckCarries(cfg, me.phase.req, id, me.own);
      case App(_) =>
    }
    AppendKeepsScript(me, other, cfg, after.sent[|me.sent|], after);
  }

  lemma ReadKeepsInv(me: Peer, other: Peer, cfg: Cfg)
    requires Inv(me, other, cfg) && Inv(other, me, cfg) && Enabled(me, other, cfg, Read)
    ensures var after := Moved(me, other, cfg, Read); Inv(after, other, cfg) && Inv(other, after, cfg)
  {
    hide Encoding, Decode, FirstMatch, Complement, WireName;
    var raw, n := other.sent[me.read], me.read - ROUNDS;
    if n < 0 {
      assert Carries(raw, cfg, PT_HANDSHAKE, other.chs[me.read], other.own);
      assert Acked(0) == me.loc.acked;
    } else {
      assert raw == other.sent[ROUNDS + n];
      assert Carries(raw, cfg, PT_HANDSHAKE_ACK, Complement(me.chs[n]), other.own);
      NextAckMatches(me.chs, n, Decode(raw, cfg.magic).value);
    }
  }

  lemma MoveKeepsInv(me: Peer, other: Peer, cfg: Cfg, m: Move)
    requires Inv(me, other, cfg) && Inv(other, me, cfg) && Enabled(me, other, cfg, m)
    ensures var after := Moved(me, other, cfg, m); Inv(after, other, cfg) && Inv(other, after, cfg)
  {
    if m.Read? { ReadKeepsInv(me, other, cfg); } else { WriteKeepsInv(me, other, cfg, m); }
  }

  // Safety, progress and termination.

  function Measure(s: Pair, cfg: Cfg): int {
    2 * (2 * ROUNDS + cfg.cap) - |s.l.sent| - |s.r.sent| + 4 * ROUNDS - s.l.read - s.r.read
  }

  ghost predicate Good(s: Pair, cfg: Cfg) {
    Inv(s.l, s.r, cfg) && Inv(s.r, s.l, cfg)
  }

  lemma StepFalls(s: Pair, cfg: Cfg, a: Act)
    requires Good(s, cfg) && Can(s, cfg, a)
    ensures Good(Step(s, cfg, a), cfg)
    ensures 0 <= Measure(Step(s, cfg, a), cfg) < Measure(s, cfg)
  {
    hide Script, Carries, Received;
    if a.left { MoveKeepsInv(s.l, s.r, cfg, a.move); } else { MoveKeepsInv(s.r, s.l, cfg, a.move); }
    MoveCounts(s.l, s.r, cfg, a.move);
    MoveCounts(s.r, s.l, cfg, a.move);
  }

  lemma MoveCounts(me: Peer, other: Peer, cfg: Cfg, m: Move)
    ensures Enabled(me, other, cfg, m) ==>
              var after := Moved(me, other, cfg, m);
              |after.sent| + after.read == |me.sent| + me.read + 1
  {
  }

  /** What a peer that has returned may rely on. */
  ghost predicate Returned(me: Peer, other: Peer, cfg: Cfg) {
    && |other.chs| == ROUNDS
    && me.read == 20 && |me.sent| >= 20
    && me.loc.verified == 10 && me.loc.peer == WireName(other.own)
    && forall i :: 0 <= i < ROUNDS ==> Carries(me.sent[ROUNDS + i], cfg, PT_HANDSHAKE_ACK, Complement(other.chs[i]), me.own)
  }

  lemma {:induction false} RunsKeepGood(s: Pair, cfg: Cfg, acts: seq<Act>)
    requires Good(s, cfg) && Runs(s, cfg, acts)
    ensures Good(Final(s, cfg, acts), cfg)
    ensures |acts| <= Measure(s, cfg)
    decreases |acts|
  {
    if acts == [] {
    } else {
      StepFalls(s, cfg, acts[0]);
      RunsKeepGood(Step(s, cfg, acts[0]), cfg, acts[1..]);
    }
  }

  lemma InitialIsGood(s: Pair, cfg: Cfg)
    requires Initial(s.l) && Initial(s.r)
    ensures Good(s, cfg) && Measure(s, cfg) == 8 * ROUNDS + 2 * cfg.cap
  {
    assert Fresh(ROUNDS).acked == Acked(0);
  }

  /** In no interleaving does either side meet an error, whatever a returned side goes on to send; and a side returns with
      exactly twenty packets read, all ten challenges of the peer answered and the peer's name. */
  lemma HandshakeIsSafe(s: Pair, cfg: Cfg, acts: seq<Act>)
    requires Initial(s.l) && Initial(s.r) && Runs(s, cfg, acts)
    ensures var t := Final(s, cfg, acts);
            && t.l.phase != Failed && t.r.phase != Failed
            && (t.l.phase == Done ==> Returned(t.l, t.r, cfg))
            && (t.r.phase == Done ==> Returned(t.r, t.l, cfg))
  {
    hide Runs, Final;
    InitialIsGood(s, cfg);
    RunsKeepGood(s, cfg, acts);
  }

  /** Some handshake step (not an application send) can be taken. */
  predicate CanMove(s: Pair, cfg: Cfg) {
    || Can(s, cfg, Act(true, Send(0))) || Can(s, cfg, Act(true, Read)) || Can(s, cfg, Act(true, Ack(0)))
    || Can(s, cfg, Act(false, Send(0))) || Can(s, cfg, Act(false, Read)) || Can(s, cfg, Act(false, Ack(0)))
  }

  lemma NeverStuck(s: Pair, cfg: Cfg)
    requires Good(s, cfg) && cfg.cap >= ROUNDS && !(s.l.phase == Done && s.r.phase == Done)
    ensures CanMove(s, cfg)
  {
    hide Script, Carries;
  }

  /** Deadlock freedom, exactly: with buffers of ten packets every reachable unfinished state has a next step;
      with any smaller buffer there is a run into a state where neither side can do anything. */
  lemma DeadlockFreeIffTenBuffered(s: Pair, cfg: Cfg)
    requires Initial(s.l) && Initial(s.r)
    ensures cfg.cap >= ROUNDS <==>
            forall acts :: Runs(s, cfg, acts) ==>
              var t := Final(s, cfg, acts); (t.l.phase == Done && t.r.phase == Done) || CanMove(t, cfg)
  {
    InitialIsGood(s, cfg);
    if cfg.cap >= ROUNDS {
      forall acts | Runs(s, cfg, acts)
        ensures var t := Final(s, cfg, acts); (t.l.phase == Done && t.r.phase == Done) || CanMove(t, cfg)
      {
        RunsKeepGood(s, cfg, acts);
        var t := Final(s, cfg, acts);
        if !(t.l.phase == Done && t.r.phase == Done) { NeverStuck(t, cfg); }
      }
    } else {
      var acts := FillBoth(s, cfg);
      var t := Final(s, cfg, acts);
      assert !CanMove(t, cfg);
    }
  }

  /** Both sides send until their buffers are full, before either has read. */
  lemma {:induction false} FillBoth(s: Pair, cfg: Cfg) returns (acts: seq<Act>)
    requires Good(s, cfg) && cfg.cap < ROUNDS
    requires s.l.phase == Sending && s.r.phase == Sending
    ensures Runs(s, cfg, acts)
    ensures var t := Final(s, cfg, acts);
            t.l.phase == Sending && t.r.phase == Sending && !CanMove(t, cfg)
    decreases Measure(s, cfg)
  {
    var a := Act(|s.l.sent| < cfg.cap, Send(0));
    if Can(s, cfg, a) {
      StepFalls(s, cfg, a);
      var rest := FillBoth(Step(s, cfg, a), cfg);
      acts := [a] + rest;
      assert acts[1..] == rest;
    } else {
      acts := [];
    }
  }

  /** From the start, and with buffers of ten packets or more: no run is longer than 80 + 2 * cap steps, and a run that
      can go no further has returned on both sides, each with the other's name. */
  lemma EveryRunCompletes(s: Pair, cfg: Cfg, acts: seq<Act>)
    requires Initial(s.l) && Initial(s.r) && cfg.cap >= ROUNDS && Runs(s, cfg, acts)
    ensures |acts| <= 8 * ROUNDS + 2 * cfg.cap
    ensures !CanMove(Final(s, cfg, acts), cfg) ==>
              var t := Final(s, cfg, acts);
              && t.l.phase == Done && Returned(t.l, t.r, cfg)
              && t.r.phase == Done && Returned(t.r, t.l, cfg)
  {
    InitialIsGood(s, cfg);
    RunsKeepGood(s, cfg, acts);
    HandshakeIsSafe(s, cfg, acts);
    var t := Final(s, cfg, acts);
    if !(t.l.phase == Done && t.r.phase == Done) { NeverStuck(t, cfg); }
  }
}
