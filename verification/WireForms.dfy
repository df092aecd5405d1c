/** The wire form of every packet the program builds: its type byte, its length, and that a reader delimits it. */
module WireForms {
  import opened Bytes
  import opened Crypto
  import opened Packets
  import opened Framing
  import opened Matrices
  import opened Handshake
  import opened Session
  import opened FastPath
  import opened Servers
  import FanOut

  /** The types whose frames are 64 bytes, by number; a matrix type may carry its two flags. */
  lemma LongTypes(t: byte)
    ensures IsExtended(t) <==> t in {3, 20, 21, 51, 69, 76, 78, 79, 124, 125, 126, 127, 128, 130, 132, 134}
    ensures Base(t) == if t >= 128 && t / 2 % 4 != 0 then t - t / 2 % 4 * 2 else t
  {
    if t >= 0x80 { FlagsOfMatrix(t); }
  }

  lemma FlagsOfMatrix(t: byte)
    requires t >= 0x80
    ensures ClearFlags(t) == 0x80 <==> t in {128, 130, 132, 134}
  {
    var low := t / 2 % 4;
    assert low in {0, 1, 2, 3} && ClearFlags(t) == t - 2 * low;
  }

  /** With `rest` after it on the stream, p is `len` bytes that start with `typ`, and a reader takes exactly those. */
  predicate TravelsBefore(p: Packet, typ: byte, len: nat, magic: uint32, rest: seq<byte>) {
    var raw := Encoding(p, magic);
    |raw| == len && raw[0] == typ && NextFrame(raw + rest) == Some(raw)
  }

  ghost predicate Travels(p: Packet, typ: byte, len: nat) {
    forall magic: uint32, rest: seq<byte> :: TravelsBefore(p, typ, len, magic, rest)
  }

  lemma FramableTravels(p: Packet)
    requires Framable(p)
    ensures Travels(p, p.typ, if Extended(p) then 64 else 32)
  {
    hide Framable, Extended, Covered, Sum, Pad, NextFrame;
    var len := if Extended(p) then 64 else 32;
    forall magic: uint32, rest: seq<byte> ensures TravelsBefore(p, p.typ, len, magic, rest) {
      FrameOf(p, magic, rest);
    }
  }

  /** A packet without a name on a short type. */
  lemma ShortTravels(p: Packet, typ: byte)
    requires p.typ == typ && !IsExtended(typ) && !p.hasName && p.name == []
    ensures Travels(p, typ, 32)
  {
    hide IsExtended, Travels;
    FramableTravels(p);
  }

  lemma LongTravels(p: Packet, typ: byte)
    requires p.typ == typ && IsExtended(typ)
    ensures Travels(p, typ, 64)
  {
    hide IsExtended, Travels;
    FramableTravels(p);
  }

  /** Input, switch and leave packets are short. */
  lemma InputForms(k: KeyEvent, m: MouseEvent, src: uint32, des: uint32, x: int, y: int, id: int32)
    ensures Travels(KeyPacket(k, src, des, id), 122, 32)
    ensures Travels(MousePacket(m, src, des, id), 123, 32)
    ensures Travels(NextMachinePacket(src, des, x, y, id), 121, 32)
    ensures Travels(HideMouse(src, des, id), 50, 32)
    ensures Travels(MachineSwitched(src, des, id), 77, 32)
  {
    hide IsExtended, Travels, KeyBytes, MouseBytes, NextMachineBytes;
    LongTypes(122); LongTypes(123); LongTypes(121); LongTypes(50); LongTypes(77);
    ShortTravels(KeyPacket(k, src, des, id), 122);
    ShortTravels(MousePacket(m, src, des, id), 123);
    ShortTravels(NextMachinePacket(src, des, x, y, id), 121);
    ShortTravels(HideMouse(src, des, id), 50);
    ShortTravels(MachineSwitched(src, des, id), 77);
  }

  function HideMouse(src: uint32, des: uint32, id: int32): Packet {
    Packet(50, id, src, des, Zeros(16), [], false)
  }

  function MachineSwitched(src: uint32, des: uint32, id: int32): Packet {
    Packet(77, id, src, des, Zeros(16), [], false)
  }

  /** A named presence packet of any kind: hello, heartbeat, awake or extended heartbeat. */
  function Beat(typ: byte, src: uint32, name: Name, id: int32): Packet {
    Packet(typ, id, src, ID_ALL, Zeros(16), name, true)
  }

  /** Presence, clipboard beats and asks and the slots of a layout burst are long, the level 3 answer is short. */
  lemma PresenceForms(who: Identity, typ: byte, slot: uint32, id: int32, m: Matrix, i: int, des: uint32, name: Name,
                      postAction: int32)
    requires typ in {3, 20, 21, 51} && 0 <= i < 4
    ensures Travels(Presence(who, slot, id), 51, 64)
    ensures Travels(ConfirmL3(who, slot, id), 53, 32)
    ensures Travels(Beat(typ, slot, name, id), typ, 64)
    ensures Travels(ClipboardPacket(false, slot, des, name, postAction, id), 69, 64)
    ensures Travels(ClipboardPacket(true, slot, des, name, postAction, id), 78, 64)
    ensures Travels(BurstPacket(m, i, id), 128 + (if m.wrap then 2 else 0) + (if m.twoRow then 4 else 0), 64)
  {
    hide IsExtended, Travels, PostActionBytes;
    LongTypes(51); LongTypes(53); LongTypes(typ); LongTypes(69); LongTypes(78); LongTypes(TypeByte(m));
    LongTravels(Presence(who, slot, id), 51);
    ShortTravels(ConfirmL3(who, slot, id), 53);
    LongTravels(Beat(typ, slot, name, id), typ);
    LongTravels(ClipboardPacket(false, slot, des, name, postAction, id), 69);
    LongTravels(ClipboardPacket(true, slot, des, name, postAction, id), 78);
    LongTravels(BurstPacket(m, i, id), TypeByte(m));
  }

  /** So are the handshake's, the header packets of a transfer, and the chunks and the terminator of the fast path. */
  lemma SessionForms(ch: Block, id: int32, selfID: uint32, own: Name, req: Packet, h: Header, typ: byte,
                     chunk: seq<byte>, src: uint32, des: uint32)
    requires typ == 124 || typ == 125
    ensures Travels(Challenge(ch, id, selfID, own), 126, 64)
    ensures Travels(AckChallenge(req, own, id), 127, 64)
    ensures Travels(HeaderPacket(h, id), if h.push then 79 else 69, 64)
    ensures Travels(ChunkPacket(typ, chunk, src, des, id), typ, 64)
    ensures Travels(Terminator(src, des, id), 76, 64)
  {
    hide IsExtended, Travels, PostActionBytes, Complement, ToBlock;
    LongTypes(126); LongTypes(127); LongTypes(79); LongTypes(69); LongTypes(typ); LongTypes(76);
    LongTravels(Challenge(ch, id, selfID, own), 126);
    LongTravels(AckChallenge(req, own, id), 127);
    LongTravels(HeaderPacket(h, id), if h.push then 79 else 69);
    LongTravels(ChunkPacket(typ, chunk, src, des, id), typ);
    LongTravels(Terminator(src, des, id), 76);
  }

  // What the handler answers, by type number.

  /** Our slot as others see it: where our name is found, and the first one while it is not. */
  lemma OwnSlot(who: Identity, m: Matrix)
    ensures var s := SelfSlot(who, m);
            && 1 <= s <= 4
            && (SlotOf(who.names, m, who.self) != 0 ==> s == SlotOf(who.names, m, who.self))
            && (SlotOf(who.names, m, who.self) == 0 ==> s == 1)
  {
  }

  /** A hello is answered by our presence, under the next id and our slot, and reported as not awake. */
  lemma HelloAnswered(who: Identity, n: Node, p: Packet)
    requires p.typ == 3
    ensures var t := Handled(who, n, p);
            && |t.replies| == |n.replies| + 1 && t.replies[..|n.replies|] == n.replies && t.count == n.count + 1
            && t.events == n.events + [OnPresence(p.name, p.src, false)] && t.layout == n.layout
            && var q := t.replies[|n.replies|];
               && q.typ == 51 && q.name == who.self && q.hasName && q.des == 255
               && q.src == SelfSlot(who, n.layout.matrix) && q.id == FanOut.IdOf(who.start, n.count)
  {
    hide SelfSlot, FanOut.IdOf, PoolAfter;
  }

  /** A level 2 heartbeat is answered by a nameless level 3, and reported to nobody. */
  lemma LevelTwoAnswered(who: Identity, n: Node, p: Packet)
    requires p.typ == 52
    ensures var t := Handled(who, n, p);
            && |t.replies| == |n.replies| + 1 && t.replies[..|n.replies|] == n.replies && t.count == n.count + 1
            && t.events == n.events && t.layout == n.layout
            && var q := t.replies[|n.replies|];
               && q.typ == 53 && q.name == [] && !q.hasName && q.des == 255
               && q.src == SelfSlot(who, n.layout.matrix) && q.id == FanOut.IdOf(who.start, n.count)
  {
    hide SelfSlot, FanOut.IdOf, PoolAfter;
  }

  /** Heartbeats are reported and not answered; of them only type 21 says that the sender is awake. */
  lemma BeatsReported(who: Identity, n: Node, p: Packet)
    requires p.typ in {20, 21, 51}
    ensures var t := Handled(who, n, p);
            && t.events == n.events + [OnPresence(p.name, p.src, p.typ == 21)]
            && t.replies == n.replies && t.count == n.count && t.layout == n.layout
  {
    hide PoolAfter;
  }

  /** Only type 4 closes a leg; it, and every type that has no other arm, leaves all but the pool as it was. */
  lemma OthersAreSilent(who: Identity, n: Node, p: Packet)
    ensures Closes(p) <==> p.typ == 4
    ensures p.typ < 128 && p.typ !in {3, 20, 21, 50, 51, 52, 69, 78, 121, 122, 123} ==>
              Handled(who, n, p) == n.(ids := PoolAfter(n.ids, p))
  {
    hide PoolAfter, SelfSlot, Presence, ConfirmL3, MergedNode, IsExtended, GetNextMachine, GetKey, GetMouse, GetPostAction;
    LongTypes(p.typ);
    assert n.events + [] == n.events;
  }
}
