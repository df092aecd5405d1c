/** The listening server: what each received packet does to layout and pool, and the read loop of one leg. */
module Servers {
  import opened Bytes
  import opened Crypto
  import opened Packets
  import opened Stream
  import opened Framing
  import opened Dedups
  import opened FanOut
  import opened Matrices
  import opened Pools
  import opened Layouts

  /** Who the server is: its name, how names compare, its magic and the start of its packet ids. */
  datatype Identity = Identity(self: Name, names: Naming, magic: uint32, start: int32)

  /** Callbacks to the daemon. */
  datatype LegEvent =
    | OnMatrix(layout: Matrix)
    | OnPresence(name: Name, src: uint32, awake: bool)
    | OnNextMachine(x: int, y: int, dest: uint32)
    | OnKey(k: KeyEvent, src: uint32, des: uint32)
    | OnMouse(m: MouseEvent, src: uint32, des: uint32)
    | OnHideMouse
    | OnBeat(src: uint32, name: Name, postAction: int32)
    | OnAsk(src: uint32, name: Name, postAction: int32)

  /** The server as packets see it: layout, pool, the ids used so far, and what it made happen. */
  datatype Node = Node(layout: Layout, ids: Ids, count: nat, events: seq<LegEvent>, replies: seq<Packet>)

  function SelfSlot(who: Identity, m: Matrix): uint32 {
    var s := SlotOf(who.names, m, who.self);
    if s != 0 then s else 1
  }

  function Presence(who: Identity, slot: uint32, id: int32): Packet {
    Packet(PT_HEARTBEAT_EX, id, slot, ID_ALL, Zeros(16), who.self, true)
  }

  function ConfirmL3(who: Identity, slot: uint32, id: int32): Packet {
    Packet(PT_HEARTBEAT_EX_L3, id, slot, ID_ALL, Zeros(16), [], false)
  }

  function Emit(n: Node, e: LegEvent): Node {
    n.(events := n.events + [e])
  }

  function Reply(n: Node, p: Packet): Node {
    n.(replies := n.replies + [p], count := n.count + 1)
  }

  /** The pool learns from every packet that names its sender's slot. */
  function PoolAfter(ids: Ids, p: Packet): Ids {
    if p.hasName && p.name != [] && 1 <= p.src <= MAX_MACHINE then Learned(ids, p.name, p.src) else ids
  }

  function MergedNode(who: Identity, n: Node, p: Packet): Node {
    var l := Merged(who.names, n.layout, p);
    var merged := n.(layout := l);
    if p.src == MAX_MACHINE then Emit(merged, OnMatrix(l.matrix)) else merged
  }

  /** The types that are only passed on to the daemon. */
  function Callbacks(p: Packet): seq<LegEvent> {
    var base := Base(p.typ);
    if base == PT_NEXT_MACHINE then
      var (x, y, dest) := GetNextMachine(p.payload);
      [OnNextMachine(x, y, dest)]
    else if base == PT_KEYBOARD then [OnKey(GetKey(p.payload), p.src, p.des)]
    else if base == PT_MOUSE then [OnMouse(GetMouse(p.payload), p.src, p.des)]
    else if base == PT_HIDE_MOUSE then [OnHideMouse]
    else if base == PT_CLIPBOARD then [OnBeat(p.src, p.name, GetPostAction(p.payload))]
    else if base == PT_CLIPBOARD_ASK then [OnAsk(p.src, p.name, GetPostAction(p.payload))]
    else []
  }

  /** handlePacket, but for closing the leg. */
  function Handled(who: Identity, n: Node, p: Packet): Node {
    var t := n.(ids := PoolAfter(n.ids, p));
    var base := Base(p.typ);
    if base == PT_HELLO then
      Emit(Reply(t, Presence(who, SelfSlot(who, t.layout.matrix), IdOf(who.start, t.count))), OnPresence(p.name, p.src, false))
    else if base == PT_HEARTBEAT || base == PT_AWAKE || base == PT_HEARTBEAT_EX then
      Emit(t, OnPresence(p.name, p.src, base == PT_AWAKE))
    else if base == PT_MATRIX then MergedNode(who, t, p)
    else if base == PT_HEARTBEAT_EX_L2 then
      Reply(t, ConfirmL3(who, SelfSlot(who, t.layout.matrix), IdOf(who.start, t.count)))
    else t.(events := t.events + Callbacks(p))
  }

  predicate Closes(p: Packet) {
    Base(p.typ) == PT_BYEBYE
  }

  /** A leg's packets through the duplicate window and the handler, up to one that closes the leg. */
  function ServeAll(who: Identity, n: Node, log: seq<int32>, ps: seq<Packet>): (Node, seq<int32>)
    decreases |ps|
  {
    if ps == [] then (n, log)
    else if ps[0].id in Recent(log) then ServeAll(who, n, log, ps[1..])
    else
      var t := Handled(who, n, ps[0]);
      if Closes(ps[0]) then (t, log + [ps[0].id]) else ServeAll(who, t, log + [ps[0].id], ps[1..])
  }

  class Server {
    const who: Identity
    const pool: Pool
    const dedup: Dedup
    const sender: Sender
    var matrix: Matrix
    var adopted: bool
    var events: seq<LegEvent>
    ghost var replies: seq<Packet>

    ghost predicate Valid()
      reads this, pool, dedup, dedup.ids, sender
    {
      pool.Valid() && dedup.Valid() && sender.Valid() && sender.start == who.start
    }

    ghost function Now(): Node
      reads this, pool, sender
    {
      Node(Layout(matrix, adopted), pool.ids, sender.count, events, replies)
    }

    constructor (who: Identity)
      ensures Valid() && Now() == Node(BLANK, map[], 0, [], []) && dedup.log == [] && this.who == who
      ensures fresh(pool) && fresh(dedup) && fresh(dedup.ids) && fresh(sender)
    {
      this.who := who;
      pool := new Pool();
      dedup := new Dedup();
      sender := new Sender(who.start);
      matrix, adopted, events, replies := EMPTY, false, [], [];
    }

    method SetMatrix(m: Matrix)
      modifies this`matrix, this`adopted
      ensures Layout(matrix, adopted) == Configured(who.names, Layout(old(matrix), old(adopted)), m)
    {
      matrix := m;
      if !IsEmpty(who.names, m) {
        adopted := false;
      }
    }

    /** The first locked region of trustPeer, and the learning after it. */
    method TrustPeer(peer: Name, now: int) returns (selfSlot: uint32)
      requires Valid()
      modifies this`matrix, this`adopted, pool
      ensures Valid()
      ensures Layout(matrix, adopted) == Joined(who.names, who.self, Layout(old(matrix), old(adopted)), peer)
      ensures pool.ids == Learned(old(pool.ids), peer, SlotOf(who.names, matrix, peer))
      ensures selfSlot == SelfSlot(who, matrix)
    {
      hide SlotFrom, AdoptFresh, Learned, Dedup.Valid, Pool.Valid, Sender.Valid;
      if IsEmpty(who.names, matrix) {
        matrix := AdoptFresh(who.names, who.self, peer);
        adopted := true;
      }
      if SlotOf(who.names, matrix, peer) == 0 {
        var i := 0;
        while i < MAX_MACHINE && matrix.slots[i] != []
          invariant 0 <= i <= MAX_MACHINE
          invariant FillVacant(matrix.slots, peer, 0) == FillVacant(matrix.slots, peer, i)
        {
          i := i + 1;
        }
        if i < MAX_MACHINE {
          matrix := matrix.(slots := matrix.slots[i := peer]);
        }
      }
      var slot := SlotOf(who.names, matrix, peer);
      selfSlot := SelfSlot(who, matrix);
      NotLearnable(pool.ids, peer);
      if slot != 0 {
        pool.Learn(peer, slot, now);
      }
    }

    /** The second locked region: the layout to send, if it may be sent. */
    method ShareSnapshot() returns (m: Option<Matrix>)
      ensures m == if Shares(who.names, Layout(matrix, adopted)) then Some(matrix) else None
    {
      m := if !IsEmpty(who.names, matrix) && !adopted then Some(matrix) else None;
    }

    method SendMatrixBurst(sc: SecureConn, m: Matrix)
      requires Valid() && sc.Valid()
      modifies sc`encIV, sc`sent, sc.outbound`bytes, sender
      ensures Valid() && sc.Valid() && sender.count == old(sender.count) + MAX_MACHINE
      ensures sc.sent == old(sc.sent) + EncodeAll(Burst(m, who.start, old(sender.count)), who.magic)
    {
      hide Encoding, EncodeAll, BurstPacket, IdOf, SecureConn.Valid, SecureConn.ValidOut, Dedup.Valid, Pool.Valid, Sender.Valid;
      ghost var out := [];
      NoBytes(sc.sent, who.magic);
      for i := 0 to MAX_MACHINE
        invariant Valid() && sc.Valid() && sender.count == old(sender.count) + i
        invariant out == Burst(m, who.start, old(sender.count))[..i]
        invariant sc.sent == old(sc.sent) + EncodeAll(out, who.magic)
      {
        var id := sender.Next();
        var p := BurstPacket(m, i, id);
        EncodeAllAppend(out, p, who.magic);
        WritePacket(sc, p, who.magic);
        out := out + [p];
      }
      assert out == Burst(m, who.start, old(sender.count));
    }

    method MergeMatrix(p: Packet)
      modifies this`matrix, this`adopted, this`events
      ensures Layout(matrix, adopted) == Merged(who.names, Layout(old(matrix), old(adopted)), p)
      ensures events == if p.src == MAX_MACHINE then old(events) + [OnMatrix(matrix)] else old(events)
    {
      if 1 <= p.src <= MAX_MACHINE {
        matrix := matrix.(slots := matrix.slots[p.src - 1 := p.name]);
      }
      if p.src == MAX_MACHINE {
        var (wrap, twoRow) := ParseFlags(p.typ);
        matrix := matrix.(wrap := wrap, twoRow := twoRow);
      }
      if !IsEmpty(who.names, matrix) {
        adopted := false;
      }
      if p.src == MAX_MACHINE {
        events := events + [OnMatrix(matrix)];
      }
    }

    method SendReply(sc: SecureConn, p: Packet)
      requires sc.Valid()
      modifies this`replies, sc`encIV, sc`sent, sc.outbound`bytes
      ensures sc.Valid() && sc.Unread() == old(sc.Unread()) && replies == old(replies) + [p]
      ensures Answered(old(sc.sent), old(replies), sc.sent, replies, who.magic)
    {
      OneAnswer(sc.sent, replies, p, who.magic);
      WritePacket(sc, p, who.magic);
      replies := replies + [p];
    }

    /** The arms of the handler that only pass a packet on to the daemon. */
    method RunCallbacks(p: Packet)
      modifies this`events
      ensures events == old(events) + Callbacks(p)
    {
      hide Base, Callbacks, GetNextMachine, GetKey, GetMouse, GetPostAction;
      CallbacksOf(p);
      var base := Base(p.typ);
      if base == PT_NEXT_MACHINE {
        var (x, y, dest) := GetNextMachine(p.payload);
        events := events + [OnNextMachine(x, y, dest)];
      } else if base == PT_KEYBOARD {
        events := events + [OnKey(GetKey(p.payload), p.src, p.des)];
      } else if base == PT_MOUSE {
        events := events + [OnMouse(GetMouse(p.payload), p.src, p.des)];
      } else if base == PT_HIDE_MOUSE {
        events := events + [OnHideMouse];
      } else if base == PT_CLIPBOARD {
        events := events + [OnBeat(p.src, p.name, GetPostAction(p.payload))];
      } else if base == PT_CLIPBOARD_ASK {
        events := events + [OnAsk(p.src, p.name, GetPostAction(p.payload))];
      }
    }

    /** Every packet with a name says who sits in its sender's slot. */
    method LearnFrom(p: Packet, now: int)
      requires pool.Valid()
      modifies pool
      ensures pool.Valid() && pool.ids == PoolAfter(old(pool.ids), p)
    {
      if p.hasName && p.name != [] && 1 <= p.src <= MAX_MACHINE {
        pool.Learn(p.name, p.src, now);
      }
    }

    method HandlePacket(sc: SecureConn, p: Packet, now: int) returns (close: bool)
      requires Valid() && sc.Valid()
      modifies this, pool, sender, sc`encIV, sc`sent, sc.outbound`bytes
      ensures Valid() && sc.Valid() && sc.Unread() == old(sc.Unread())
      ensures Now() == Handled(who, old(Now()), p) && close == Closes(p)
      ensures Answered(old(sc.sent), old(replies), sc.sent, replies, who.magic)
    {
      hide Answered, Encoding, EncodeAll, IdOf, Base, PoolAfter, Merged, SelfSlot, Presence, ConfirmL3, Callbacks,
           GetNextMachine, GetKey, GetMouse, GetPostAction,
           SecureConn.Valid, SecureConn.ValidOut, SecureConn.Unread, SecureConn.Incoming, Dedup.Valid, Pool.Valid, Sender.Valid;
      NoAnswer(sc.sent, replies, who.magic);
      LearnFrom(p, now);
      close := false;
      var base := Base(p.typ);
      if base == PT_HELLO {
        var id := sender.Next();
        SendReply(sc, Presence(who, SelfSlot(who, matrix), id));
        events := events + [OnPresence(p.name, p.src, false)];
      } else if base == PT_HEARTBEAT || base == PT_AWAKE || base == PT_HEARTBEAT_EX {
        pool.Touch(p.name, now);
        events := events + [OnPresence(p.name, p.src, base == PT_AWAKE)];
      } else if base == PT_BYEBYE {
        close := true;
        ByeIsSilent(p);
      } else if base == PT_MATRIX {
        MergeMatrix(p);
      } else if base == PT_HEARTBEAT_EX_L2 {
        var id := sender.Next();
        SendReply(sc, ConfirmL3(who, SelfSlot(who, matrix), id));
      } else {
        RunCallbacks(p);
      }
    }

    /** The read loop of one leg, until the stream ends, a packet is refused or the peer says goodbye. */
    method ServeLeg(sc: SecureConn, now: int)
      requires Valid() && sc.Valid()
      modifies this, pool, dedup, dedup.ids, sender, sc, sc.inbound`taken, sc.outbound`bytes
      ensures Valid() && sc.Valid()
      ensures (Now(), dedup.log) == ServeAll(who, old(Now()), old(dedup.log), DecodeAll(old(sc.Unread()), who.magic).0)
      ensures Answered(old(sc.sent), old(replies), sc.sent, replies, who.magic)
    {
      hide Answered, Encoding, EncodeAll, Decode, Handled, Closes, NextFrame, Recent,
           SecureConn.Valid, SecureConn.ValidOut, SecureConn.Unread, SecureConn.Incoming, Dedup.Valid, Pool.Valid, Sender.Valid;
      NoAnswer(sc.sent, replies, who.magic);
      while true
        invariant Valid() && sc.Valid()
        invariant ServeAll(who, Now(), dedup.log, DecodeAll(sc.Unread(), who.magic).0) ==
                  ServeAll(who, old(Now()), old(dedup.log), DecodeAll(old(sc.Unread()), who.magic).0)
        invariant Answered(old(sc.sent), old(replies), sc.sent, replies, who.magic)
        decreases |sc.Unread()|
      {
        ghost var u := sc.Unread();
        FrameShrinks(u, who.magic);
        var raw := ReadAuto(sc);
        if raw.Err? { return; }
        var d := Decode(raw.value, who.magic);
        if d.Err? { return; }
        var p := d.value;
        ghost var rest := DecodeAll(sc.Unread(), who.magic).0;
        assert ([p] + rest)[1..] == rest;
        var dup := dedup.Seen(p.id);
        if dup { continue; }
        ghost var was, sent := replies, sc.sent;
        var close := HandlePacket(sc, p, now);
        MoreAnswers(old(sc.sent), old(replies), sent, was, sc.sent, replies, who.magic);
        if close { return; }
      }
    }
  }

  /** One callback for each of six types, none for any other. */
  lemma CallbacksOf(p: Packet)
    ensures var base, c := Base(p.typ), Callbacks(p);
            && (base == PT_NEXT_MACHINE ==> var (x, y, dest) := GetNextMachine(p.payload); c == [OnNextMachine(x, y, dest)])
            && (base == PT_KEYBOARD ==> c == [OnKey(GetKey(p.payload), p.src, p.des)])
            && (base == PT_MOUSE ==> c == [OnMouse(GetMouse(p.payload), p.src, p.des)])
            && (base == PT_HIDE_MOUSE ==> c == [OnHideMouse])
            && (base == PT_CLIPBOARD ==> c == [OnBeat(p.src, p.name, GetPostAction(p.payload))])
            && (base == PT_CLIPBOARD_ASK ==> c == [OnAsk(p.src, p.name, GetPostAction(p.payload))])
            && (base !in {PT_NEXT_MACHINE, PT_KEYBOARD, PT_MOUSE, PT_HIDE_MOUSE, PT_CLIPBOARD, PT_CLIPBOARD_ASK} ==> c == [])
  {
    hide Base, GetNextMachine, GetKey, GetMouse, GetPostAction;
  }

  lemma ByeIsSilent(p: Packet)
    requires Base(p.typ) == PT_BYEBYE
    ensures Callbacks(p) == []
  {
    hide Base, GetNextMachine, GetKey, GetMouse, GetPostAction;
    CallbacksOf(p);
  }

  lemma NotLearnable(ids: Ids, name: Name)
    ensures Learned(ids, name, 0) == ids
  {
  }

  lemma NoBytes(sent: seq<byte>, magic: uint32)
    ensures sent == sent + EncodeAll([], magic)
  {
  }

  /** Between two moments the replies grew, and what was written are the new ones. */
  ghost predicate Answered(sent0: seq<byte>, was: seq<Packet>, sent: seq<byte>, now: seq<Packet>, magic: uint32) {
    was <= now && sent == sent0 + EncodeAll(now[|was|..], magic)
  }

  lemma NoAnswer(sent: seq<byte>, was: seq<Packet>, magic: uint32)
    ensures Answered(sent, was, sent, was, magic)
  {
  }

  lemma OneAnswer(sent: seq<byte>, was: seq<Packet>, p: Packet, magic: uint32)
    ensures Answered(sent, was, sent + Encoding(p, magic), was + [p], magic)
  {
    hide Encoding;
    assert (was + [p])[|was|..] == [p];
    assert EncodeAll([p], magic) == Encoding(p, magic) + EncodeAll([], magic);
  }

  lemma MoreAnswers(sent0: seq<byte>, first: seq<Packet>, sent1: seq<byte>, was: seq<Packet>,
                    sent2: seq<byte>, now: seq<Packet>, magic: uint32)
    requires Answered(sent0, first, sent1, was, magic) && Answered(sent1, was, sent2, now, magic)
    ensures Answered(sent0, first, sent2, now, magic)
  {
    hide EncodeAll;
    assert now[|first|..] == was[|first|..] + now[|was|..];
    EncodeAllConcat(was[|first|..], now[|was|..], magic);
  }

  /** Reading a frame leaves less to read. */
  lemma FrameShrinks(u: seq<byte>, magic: uint32)
    ensures NextFrame(u).Some? ==> 0 < |NextFrame(u).value| <= |u|
  {
  }

  // Input and clipboard packets: what a peer's senders build is what our handler reports.

  function KeyPacket(k: KeyEvent, src: uint32, des: uint32, id: int32): Packet {
    Packet(PT_KEYBOARD, id, src, des, KeyBytes(k), [], false)
  }

  function MousePacket(m: MouseEvent, src: uint32, des: uint32, id: int32): Packet {
    Packet(PT_MOUSE, id, src, des, MouseBytes(m), [], false)
  }

  function NextMachinePacket(src: uint32, dest: uint32, x: int, y: int, id: int32): Packet {
    Packet(PT_NEXT_MACHINE, id, src, dest, NextMachineBytes(x, y, dest), [], false)
  }

  function ClipboardPacket(ask: bool, src: uint32, des: uint32, name: Name, postAction: int32, id: int32): Packet {
    Packet(if ask then PT_CLIPBOARD_ASK else PT_CLIPBOARD, id, src, des, PostActionBytes(postAction), name, true)
  }

  /** A sent packet arrives and is handled without disturbing the layout, with exactly this callback. */
  ghost predicate ArrivesAs(who: Identity, p: Packet, e: LegEvent) {
    && Framable(p)
    && forall n: Node :: Handled(who, n, OnWire(p)).events == n.events + [e] && Handled(who, n, OnWire(p)).layout == n.layout
  }

  lemma CallbackArrives(who: Identity, p: Packet, e: LegEvent)
    requires Framable(p) && Callbacks(OnWire(p)) == [e]
    requires Base(p.typ) in {PT_NEXT_MACHINE, PT_KEYBOARD, PT_MOUSE, PT_CLIPBOARD, PT_CLIPBOARD_ASK}
    ensures ArrivesAs(who, p, e)
  {
    hide Callbacks, PoolAfter, SelfSlot, Presence, ConfirmL3, MergedNode, IsExtended;
  }

  lemma InputArrives(who: Identity, k: KeyEvent, m: MouseEvent, src: uint32, des: uint32, id: int32)
    ensures ArrivesAs(who, KeyPacket(k, src, des, id), OnKey(k, src, des))
    ensures ArrivesAs(who, MousePacket(m, src, des, id), OnMouse(m, src, des))
  {
    hide ArrivesAs, KeyBytes, MouseBytes, GetKey, GetMouse;
    KeyRoundTrip(k);
    MouseRoundTrip(m);
    CallbackArrives(who, KeyPacket(k, src, des, id), OnKey(k, src, des));
    CallbackArrives(who, MousePacket(m, src, des, id), OnMouse(m, src, des));
  }

  /** A switch arrives with its destination and entry point, the entry point being within int32 as grid points are. */
  lemma SwitchArrives(who: Identity, src: uint32, dest: uint32, x: int32, y: int32, id: int32)
    ensures ArrivesAs(who, NextMachinePacket(src, dest, x, y, id), OnNextMachine(x, y, dest))
  {
    hide ArrivesAs, NextMachineBytes, GetNextMachine;
    NextMachineRoundTrip(x, y, dest);
    CallbackArrives(who, NextMachinePacket(src, dest, x, y, id), OnNextMachine(x, y, dest));
  }

  lemma ClipboardArrives(who: Identity, src: uint32, des: uint32, name: Name, postAction: int32, id: int32)
    ensures ArrivesAs(who, ClipboardPacket(false, src, des, name, postAction, id), OnBeat(src, WireName(name), postAction))
    ensures ArrivesAs(who, ClipboardPacket(true, src, des, name, postAction, id), OnAsk(src, WireName(name), postAction))
  {
    hide ArrivesAs, PostActionBytes, GetPostAction, WireName;
    PostActionRoundTrip(postAction);
    CallbackArrives(who, ClipboardPacket(false, src, des, name, postAction, id), OnBeat(src, WireName(name), postAction));
    CallbackArrives(who, ClipboardPacket(true, src, des, name, postAction, id), OnAsk(src, WireName(name), postAction));
  }

  // Replication.

  function BurstPacket(m: Matrix, i: int, id: int32): Packet
    requires 0 <= i < MAX_MACHINE
  {
    Packet(TypeByte(m), id, i + 1, ID_ALL, Zeros(16), m.slots[i], true)
  }

  /** The four packets that carry a layout. */
  function Burst(m: Matrix, start: int, count: nat): seq<Packet> {
    seq(MAX_MACHINE, i requires 0 <= i < MAX_MACHINE => BurstPacket(m, i, IdOf(start, count + i)))
  }

  function HandledAll(who: Identity, n: Node, ps: seq<Packet>): Node
    decreases |ps|
  {
    if ps == [] then n else HandledAll(who, Handled(who, n, ps[0]), ps[1..])
  }

  /** A slot packet sets its slot and no other; only the fourth sets the flags and reports the layout; one for no slot
      changes no slot. */
  lemma SlotPacketEffects(who: Identity, n: Node, p: Packet)
    ensures var t, was := MergedNode(who, n, p), n.layout.matrix;
            var m := t.layout.matrix;
            && (forall i :: 0 <= i < 4 ==> m.slots[i] == if p.src == i + 1 then p.name else was.slots[i])
            && (p.src != 4 ==> (m.wrap, m.twoRow) == (was.wrap, was.twoRow) && t.events == n.events)
            && (p.src == 4 ==>
                  (m.wrap, m.twoRow) == (p.typ / 2 % 2 == 1, p.typ / 4 % 2 == 1) && t.events == n.events + [OnMatrix(m)])
            && t.ids == n.ids && t.count == n.count && t.replies == n.replies
  {
    hide IsEmpty;
  }

  /** A packet without a name, or from no slot, teaches nothing. */
  lemma NamelessTeachesNothing(ids: Ids, p: Packet)
    requires !p.hasName || p.name == [] || p.src < 1 || p.src > 4
    ensures PoolAfter(ids, p) == ids
  {
  }

  predicate IsMatrixPacket(p: Packet) {
    Base(p.typ) == PT_MATRIX
  }

  function MatrixPackets(ps: seq<Packet>): seq<Packet> {
    if ps == [] then [] else (if IsMatrixPacket(ps[0]) then [ps[0]] else []) + MatrixPackets(ps[1..])
  }

  lemma HandledLayout(who: Identity, n: Node, p: Packet)
    ensures Handled(who, n, p).layout == if IsMatrixPacket(p) then Merged(who.names, n.layout, p) else n.layout
    ensures Handled(who, n, p).ids == PoolAfter(n.ids, p)
  {
    hide Merged, Base, PoolAfter, SelfSlot, Presence, ConfirmL3, Callbacks, IdOf;
  }

  /** The layout depends on the matrix packets alone. */
  lemma {:induction false} OnlyMatrixPacketsMatter(who: Identity, n: Node, k: Node, ps: seq<Packet>)
    requires n.layout == k.layout
    ensures HandledAll(who, n, ps).layout == HandledAll(who, k, MatrixPackets(ps)).layout
    decreases |ps|
  {
    hide Handled, Merged, IsMatrixPacket;
    if ps == [] {
    } else {
      var p, ms := ps[0], MatrixPackets(ps[1..]);
      HandledLayout(who, n, p);
      HandledLayout(who, k, p);
      if IsMatrixPacket(p) {
        assert ([p] + ms)[1..] == ms;
        OnlyMatrixPacketsMatter(who, Handled(who, n, p), Handled(who, k, p), ps[1..]);
      } else {
        assert [] + ms == ms;
        OnlyMatrixPacketsMatter(who, Handled(who, n, p), k, ps[1..]);
      }
    }
  }

  /** In every run of a leg the pool keeps one slot per name and one name per slot, so at most four names. */
  lemma {:induction false} PoolInEveryRun(who: Identity, n: Node, log: seq<int32>, ps: seq<Packet>)
    requires Injective(n.ids)
    ensures var t := ServeAll(who, n, log, ps).0; Injective(t.ids) && |t.ids| <= MAX_MACHINE
    decreases |ps|
  {
    hide Handled, Injective, Closes, Recent;
    PoolIsSmall(n.ids);
    if ps != [] {
      var t := Handled(who, n, ps[0]);
      HandledLayout(who, n, ps[0]);
      LearnedInjective(n.ids, ps[0].name, ps[0].src);
      PoolIsSmall(t.ids);
      PoolInEveryRun(who, n, log, ps[1..]);
      PoolInEveryRun(who, t, log + [ps[0].id], ps[1..]);
    }
  }

  /** A layout as it arrives: names cut to 32 bytes, without trailing spaces and NULs. */
  function Travelled(m: Matrix): Matrix {
    m.(slots := [WireName(m.slots[0]), WireName(m.slots[1]), WireName(m.slots[2]), WireName(m.slots[3])])
  }

  predicate CleanLayout(m: Matrix) {
    forall i :: 0 <= i < MAX_MACHINE ==> CleanName(m.slots[i])
  }

  predicate DistinctNames(m: Matrix) {
    forall i, j :: 0 <= i < j < MAX_MACHINE && m.slots[i] != [] ==> m.slots[i] != m.slots[j]
  }

  lemma TravelsIntact(m: Matrix)
    ensures Travelled(m) == m <==> CleanLayout(m)
  {
    hide WireName, CleanName;
    forall i | 0 <= i < MAX_MACHINE ensures Travelled(m).slots[i] == m.slots[i] <==> CleanName(m.slots[i]) {
      CleanNameTravels(m.slots[i]);
      assert i in {0, 1, 2, 3};
    }
    if CleanLayout(m) { assert Travelled(m).slots == m.slots; }
  }

  lemma CleanNameTravels(n: Name)
    ensures WireName(n) == n <==> CleanName(n)
  {
  }

  /** Merging the four packets in order from any layout gives exactly the sender's. */
  lemma BurstMerges(names: Naming, l: Layout, m: Matrix, qs: seq<Packet>)
    requires |qs| == MAX_MACHINE
    requires forall i :: 0 <= i < MAX_MACHINE ==> qs[i].typ == TypeByte(m) && qs[i].src == i + 1 && qs[i].name == m.slots[i]
    ensures var t := Merged(names, Merged(names, Merged(names, Merged(names, l, qs[0]), qs[1]), qs[2]), qs[3]);
            t.matrix == m && (t.adopted ==> IsEmpty(names, m))
  {
    hide TypeByte, ParseFlags, IsEmpty;
    FlagsRoundTrip(m);
    var t := Merged(names, Merged(names, Merged(names, Merged(names, l, qs[0]), qs[1]), qs[2]), qs[3]);
    assert t.matrix.slots == m.slots;
  }

  lemma FourHandled(who: Identity, n: Node, qs: seq<Packet>)
    requires |qs| == 4
    ensures HandledAll(who, n, qs) == Handled(who, Handled(who, Handled(who, Handled(who, n, qs[0]), qs[1]), qs[2]), qs[3])
  {
    hide Handled;
    var a, b, c := qs[1..], qs[2..], qs[3..];
    assert a[0] == qs[1] && a[1..] == b && b[0] == qs[2] && b[1..] == c && c[0] == qs[3] && c[1..] == [];
    HandledFirst(who, n, qs);
    HandledFirst(who, Handled(who, n, qs[0]), a);
    HandledFirst(who, Handled(who, Handled(who, n, qs[0]), qs[1]), b);
    HandledFirst(who, Handled(who, Handled(who, Handled(who, n, qs[0]), qs[1]), qs[2]), c);
  }

  lemma HandledFirst(who: Identity, n: Node, qs: seq<Packet>)
    requires qs != []
    ensures HandledAll(who, n, qs) == HandledAll(who, Handled(who, n, qs[0]), qs[1..])
    ensures |qs| == 1 ==> HandledAll(who, n, qs) == Handled(who, n, qs[0])
  {
    hide Handled;
  }

  lemma NamedIsExtended(p: Packet)
    requires p.hasName
    ensures Extended(p)
  {
  }

  lemma BurstIsFramable(m: Matrix, start: int, count: nat)
    ensures forall p :: p in Burst(m, start, count) ==> Framable(p)
  {
    hide TypeByte, IsExtended, IdOf, Extended, ParseFlags, Base;
    FlagsRoundTrip(m);
    var ps := Burst(m, start, count);
    forall p | p in ps ensures Framable(p) {
      var i :| 0 <= i < |ps| && ps[i] == p;
      assert p == BurstPacket(m, i, IdOf(start, count + i));
    }
  }

  /** A burst as it arrives. */
  lemma BurstArrives(m: Matrix, start: int, count: nat)
    ensures var qs := AllOnWire(Burst(m, start, count));
            |qs| == MAX_MACHINE && forall i :: 0 <= i < MAX_MACHINE ==>
              && qs[i].typ == TypeByte(m) && qs[i].src == i + 1 && qs[i].name == Travelled(m).slots[i] && qs[i].hasName
              && IsMatrixPacket(qs[i]) && qs[i].id == IdOf(start, count + i)
  {
    hide TypeByte, Base, IdOf, WireName, Extended;
    var ps := Burst(m, start, count);
    var qs := AllOnWire(ps);
    assert |qs| == |ps| == MAX_MACHINE;
    FlagsRoundTrip(m);
    forall i | 0 <= i < MAX_MACHINE
      ensures qs[i].typ == TypeByte(m) && qs[i].src == i + 1 && qs[i].name == Travelled(m).slots[i] && qs[i].hasName
              && IsMatrixPacket(qs[i]) && qs[i].id == IdOf(start, count + i)
    {
      assert qs[i] == OnWire(ps[i]) && ps[i] == BurstPacket(m, i, IdOf(start, count + i));
      NamedIsExtended(ps[i]);
      assert i in {0, 1, 2, 3};
    }
  }

  /** However other packets are mixed in, from any prior state, the four packets of a burst leave the receiver with
      exactly the sender's flags and slots as they travel (so exactly the sender's layout if and only if its names
      are clean), and no longer with a guess unless there is nothing in them. */
  lemma BurstReplicates(who: Identity, n: Node, m: Matrix, start: int, count: nat, ps: seq<Packet>)
    requires MatrixPackets(ps) == AllOnWire(Burst(m, start, count))
    ensures var l := HandledAll(who, n, ps).layout;
            && l.matrix == Travelled(m)
            && (l.matrix == m <==> CleanLayout(m))
            && (l.adopted ==> IsEmpty(who.names, l.matrix))
  {
    hide Handled, Merged, IsMatrixPacket, Burst, AllOnWire, IsEmpty, TypeByte, Travelled, CleanLayout, IdOf;
    var qs := AllOnWire(Burst(m, start, count));
    TravelsIntact(m);
    OnlyMatrixPacketsMatter(who, n, n, ps);
    BurstArrives(m, start, count);
    FourHandled(who, n, qs);
    var a := Handled(who, n, qs[0]);
    var b := Handled(who, a, qs[1]);
    var c := Handled(who, b, qs[2]);
    HandledLayout(who, n, qs[0]);
    HandledLayout(who, a, qs[1]);
    HandledLayout(who, b, qs[2]);
    HandledLayout(who, c, qs[3]);
    SameType(m);
    BurstMerges(who.names, n.layout, Travelled(m), qs);
  }

  lemma SameType(m: Matrix)
    ensures TypeByte(Travelled(m)) == TypeByte(m)
  {
  }

  /** Learning four distinct names for the four slots, in order; empty names are skipped. */
  lemma LearnFour(ids: Ids, s: Slots)
    requires forall i, j :: 0 <= i < j < MAX_MACHINE && s[i] != [] ==> s[i] != s[j]
    ensures var t := Learned(Learned(Learned(Learned(ids, s[0], 1), s[1], 2), s[2], 3), s[3], 4);
            forall i :: 0 <= i < MAX_MACHINE && s[i] != [] ==> s[i] in t && t[s[i]] == i + 1
  {
    hide Learned;
    var a := Learned(ids, s[0], 1);
    var b := Learned(a, s[1], 2);
    var c := Learned(b, s[2], 3);
    LearnedBinds(ids, s[0], 1);
    LearnedBinds(a, s[1], 2);
    LearnedBinds(b, s[2], 3);
    LearnedBinds(c, s[3], 4);
  }

  lemma LearnedBinds(ids: Ids, name: Name, id: uint32)
    ensures var t := Learned(ids, name, id);
            && (Learnable(name, id) ==> name in t && t[name] == id)
            && (forall n :: n in ids && n != name && ids[n] != id ==> n in t && t[n] == ids[n])
  {
  }

  /** The pool maps every occupied name to its slot. */
  predicate Knows(ids: Ids, m: Matrix) {
    forall i :: 0 <= i < MAX_MACHINE && m.slots[i] != [] ==> m.slots[i] in ids && ids[m.slots[i]] == i + 1
  }

  /** After a burst handled in one piece the pool knows the layout it carried, if its names arrive distinct. */
  lemma BurstTeachesPool(who: Identity, n: Node, m: Matrix, start: int, count: nat)
    requires DistinctNames(Travelled(m))
    ensures Knows(HandledAll(who, n, AllOnWire(Burst(m, start, count))).ids, Travelled(m))
  {
    hide Handled, IsMatrixPacket, Burst, AllOnWire, TypeByte, Travelled, IdOf, Learned;
    var qs, s := AllOnWire(Burst(m, start, count)), Travelled(m).slots;
    BurstArrives(m, start, count);
    FourHandled(who, n, qs);
    var a := Handled(who, n, qs[0]);
    var b := Handled(who, a, qs[1]);
    var c := Handled(who, b, qs[2]);
    HandledLayout(who, n, qs[0]);
    HandledLayout(who, a, qs[1]);
    HandledLayout(who, b, qs[2]);
    HandledLayout(who, c, qs[3]);
    EmptyUnlearnable(n.ids, 1);
    EmptyUnlearnable(a.ids, 2);
    EmptyUnlearnable(b.ids, 3);
    EmptyUnlearnable(c.ids, 4);
    LearnFour(n.ids, s);
  }

  lemma EmptyUnlearnable(ids: Ids, id: uint32)
    ensures Learned(ids, [], id) == ids
  {
  }

  // The same over the wire, through the duplicate window.

  /** Packets with new, distinct ids that do not close the leg are all handled. */
  lemma {:induction false} FreshAllHandled(who: Identity, n: Node, log: seq<int32>, ps: seq<Packet>)
    requires forall i :: 0 <= i < |ps| ==> ps[i].id !in Recent(log) && !Closes(ps[i])
    requires forall i, j :: 0 <= i < j < |ps| ==> ps[i].id != ps[j].id
    ensures ServeAll(who, n, log, ps).0 == HandledAll(who, n, ps)
    decreases |ps|
  {
    hide Handled, Closes, Recent;
    if ps != [] {
      var id := ps[0].id;
      WindowAfter(log, id);
      forall i | 0 <= i < |ps[1..]| ensures ps[1..][i].id !in Recent(log + [id]) && !Closes(ps[1..][i]) {
        assert ps[1..][i] == ps[i + 1];
      }
      FreshAllHandled(who, Handled(who, n, ps[0]), log + [id], ps[1..]);
    }
  }

  lemma WindowAfter(log: seq<int32>, id: int32)
    ensures forall x :: x in Recent(log + [id]) ==> x == id || x in Recent(log)
  {
    var r := Recent(log + [id]);
    forall x | x in r ensures x == id || x in Recent(log) {
      var i :| 0 <= i < |r| && r[i] == x;
      if i < |r| - 1 {
        var at := |log| + 1 - |r| + i;
        assert x == log[at] == Recent(log)[at - (|log| - |Recent(log)|)];
      }
    }
  }

  /** What SendMatrixBurst writes, read by the ServeLeg of a peer with the same key whose window holds none of its
      ids: the peer ends up with the sender's layout, and its pool knows every machine by its slot. */
  lemma BurstOverTheWire(who: Identity, n: Node, log: seq<int32>, m: Matrix, start: int, count: nat)
    requires forall k :: count <= k < count + MAX_MACHINE ==> IdOf(start, k) !in Recent(log)
    ensures var bytes := EncodeAll(Burst(m, start, count), who.magic);
            var t := ServeAll(who, n, log, DecodeAll(bytes, who.magic).0).0;
            && t.layout.matrix == Travelled(m)
            && (t.layout.matrix == m <==> CleanLayout(m))
            && (t.layout.adopted ==> IsEmpty(who.names, t.layout.matrix))
            && (DistinctNames(Travelled(m)) ==> Knows(t.ids, Travelled(m)))
  {
    hide *;
    var ps := Burst(m, start, count);
    var qs := AllOnWire(ps);
    StreamRoundTrip(ps, who.magic);
    BurstIsFramable(m, start, count);
    BurstArrives(m, start, count);
    BurstServed(who, n, log, m, start, count);
    forall i | 0 <= i < |qs| ensures IsMatrixPacket(qs[i]) { assert qs[i].src == i + 1; }
    AllMatrix(qs);
    BurstReplicates(who, n, m, start, count, qs);
    if DistinctNames(Travelled(m)) { BurstTeachesPool(who, n, m, start, count); }
  }

  lemma BurstServed(who: Identity, n: Node, log: seq<int32>, m: Matrix, start: int, count: nat)
    requires forall k :: count <= k < count + MAX_MACHINE ==> IdOf(start, k) !in Recent(log)
    ensures var qs := AllOnWire(Burst(m, start, count));
            ServeAll(who, n, log, qs).0 == HandledAll(who, n, qs)
  {
    hide Handled, Recent, AllOnWire, Burst, IdOf, TypeByte, Travelled, ServeAll, HandledAll, Base;
    var qs := AllOnWire(Burst(m, start, count));
    BurstArrives(m, start, count);
    forall i, j | 0 <= i < j < MAX_MACHINE ensures qs[i].id != qs[j].id {
      IdsCollide(start, count + i, count + j);
      assert qs[i].id == IdOf(start, count + i) && qs[j].id == IdOf(start, count + j);
    }
    forall i | 0 <= i < MAX_MACHINE ensures qs[i].id !in Recent(log) && !Closes(qs[i]) {
      assert IsMatrixPacket(qs[i]) && qs[i].id == IdOf(start, count + i);
    }
    FreshAllHandled(who, n, log, qs);
  }

  lemma {:induction false} AllMatrix(qs: seq<Packet>)
    requires forall i :: 0 <= i < |qs| ==> IsMatrixPacket(qs[i])
    ensures MatrixPackets(qs) == qs
  {
    hide IsMatrixPacket;
    if qs != [] { AllMatrix(qs[1..]); }
  }
}
