/** One input event all the way: captured here, forwarded, received and injected on the machine that has the focus. */
module Delivery {
  import opened Bytes
  import opened Packets
  import opened Geometry
  import opened Matrices
  import opened Hosts
  import HostRun
  import opened Servers

  datatype Wm = WmMove | WmButton(flag: int) | WmWheel

  /** What a WM_* code says; the horizontal wheel counts as a wheel. */
  function FromWM(wm: uint32): Option<Wm> {
    if wm == 0x0200 then Some(WmMove)
    else if wm == 0x0201 then Some(WmButton(0x02)) else if wm == 0x0202 then Some(WmButton(0x04))
    else if wm == 0x0204 then Some(WmButton(0x08)) else if wm == 0x0205 then Some(WmButton(0x10))
    else if wm == 0x0207 then Some(WmButton(0x20)) else if wm == 0x0208 then Some(WmButton(0x40))
    else if wm == 0x020A || wm == 0x020E then Some(WmWheel)
    else None
  }

  predicate ForUs(des: uint32, self: uint32) {
    des == self || des == ID_ALL
  }

  function MotionOf(m: MouseEvent, b: Rect): Event {
    if IsRelative(m) then Move(DeltaOf(m.x), DeltaOf(m.y), true)
    else Move(Denormalize(m.x, b.left, b.right), Denormalize(m.y, b.top, b.bottom), false)
  }

  /** What a daemon in slot `self`, with the focus at `current`, injects for a received callback. */
  function Injected(e: LegEvent, b: Rect, current: uint32, self: uint32): Option<Event> {
    match e
    case OnKey(k, _, des) =>
      if current != self || !ForUs(des, self) then None
      else Some(Key(k.vk, k.flags / KEY_UP % 2 == 0))
    case OnMouse(m, _, des) =>
      if current != self || !ForUs(des, self) then None else
        (match FromWM(ToUint32(m.flags))
         case None => None
         case Some(WmWheel) => Some(Wheel(m.wheelDelta))
         case Some(WmButton(flag)) => Some(Button(flag))
         case Some(WmMove) => Some(MotionOf(m, b)))
    case _ => None
  }

  /** The packet a sender builds for a forwarded event; key packets carry a timestamp. */
  function PacketOf(o: Out, id: int32, time: int64): Packet
    requires o.SendKey? || o.SendMouse?
  {
    if o.SendKey? then KeyPacket(KeyEvent(time, o.vk, o.flags), o.src, o.des, id) else MousePacket(o.m, o.src, o.des, id)
  }

  function CallbackOf(o: Out, time: int64): LegEvent
    requires o.SendKey? || o.SendMouse?
  {
    if o.SendKey? then OnKey(KeyEvent(time, o.vk, o.flags), o.src, o.des) else OnMouse(o.m, o.src, o.des)
  }

  /** The event the user means the other machine to see: motion as a delta, once there is a previous position. */
  function Meant(j: FwdJob): Option<Event> {
    match j.e
    case Move(_, _, _) => if j.hasDelta then Some(Move(j.dx, j.dy, true)) else None
    case Button(flag) => if flag in {0x02, 0x04, 0x08, 0x10, 0x20, 0x40} then Some(j.e) else None
    case _ => Some(j.e)
  }

  predicate FitsInt32(i: int) {
    -0x8000_0000 <= i < 0x8000_0000
  }

  predicate FitsMarked(d: int) {
    -0x8000_0000 + MOVE_MOUSE_RELATIVE <= d < 0x8000_0000 - MOVE_MOUSE_RELATIVE
  }

  /** The wire's integers are wide enough for the event. */
  predicate FitsWire(j: FwdJob) {
    match j.e
    case Move(_, _, _) => FitsMarked(j.dx) && FitsMarked(j.dy)
    case Key(vk, _) => FitsInt32(vk)
    case Wheel(delta) => FitsInt32(delta)
    case Button(_) => true
  }

  /** A queued event becomes no packet exactly when it means nothing elsewhere, and else one packet that survives
      encoding, decoding and dispatch; the machine with the focus then injects exactly the event meant if and only if
      the wire is wide enough for it, and no other machine injects anything. */
  lemma ForwardedInputArrives(who: Identity, j: FwdJob, self: uint32, dest: uint32, id: int32, time: int64, b: Rect)
    requires dest != self && dest != ID_ALL
    ensures var outs := ForwardOuts(j, self, dest);
            if Meant(j) == None then outs == [] else
              && |outs| == 1 && (outs[0].SendKey? || outs[0].SendMouse?)
              && ArrivesAs(who, PacketOf(outs[0], id, time), CallbackOf(outs[0], time))
              && (Injected(CallbackOf(outs[0], time), b, dest, dest) == Meant(j) <==> FitsWire(j))
              && forall me, current :: Injected(CallbackOf(outs[0], time), b, current, me).Some? ==> me == current == dest
  {
    hide ArrivesAs, MotionOf, RelativeDelta, KeyPacket, MousePacket;
    var outs := ForwardOuts(j, self, dest);
    if Meant(j).Some? {
      OutArrives(who, outs[0], id, time);
      match j.e {
        case Move(_, _, _) => MotionArrives(j, b);
        case Key(vk, _) => ToInt32Fits(vk);
        case Wheel(delta) => ToInt32Fits(delta);
        case Button(flag) =>
      }
    }
  }

  lemma OutArrives(who: Identity, o: Out, id: int32, time: int64)
    requires o.SendKey? || o.SendMouse?
    ensures ArrivesAs(who, PacketOf(o, id, time), CallbackOf(o, time))
  {
    hide ArrivesAs, KeyPacket, MousePacket;
    if o.SendKey? {
      InputArrives(who, KeyEvent(time, o.vk, o.flags), MouseEvent(0, 0, 0, 0), o.src, o.des, id);
    } else {
      InputArrives(who, KeyEvent(time, 0, 0), o.m, o.src, o.des, id);
    }
  }

  /** Marked deltas come off again exactly when both fit under the marker. */
  lemma MotionArrives(j: FwdJob, b: Rect)
    ensures MotionOf(MouseEvent(RelativeDelta(j.dx), RelativeDelta(j.dy), 0, WM_MOUSE_MOVE), b) == Move(j.dx, j.dy, true)
            <==> FitsMarked(j.dx) && FitsMarked(j.dy)
  {
    hide RelativeDelta, DeltaOf, Denormalize;
    RelativeDeltaRoundTrip(j.dx);
    RelativeDeltaRoundTrip(j.dy);
  }

  /** A modifier release of a switch is injected by the machine it is addressed to, the old focus, and by no other. */
  lemma ReleaseInjected(self: uint32, left: uint32, o: Out, time: int64, b: Rect, current: uint32, me: uint32)
    requires o in Releases(self, left)
    ensures o.SendKey? &&
            Injected(CallbackOf(o, time), b, current, me) ==
            if current == me && ForUs(left, me) then Some(Key(o.vk, false)) else None
  {
    var i :| 0 <= i < |MODIFIERS| && Releases(self, left)[i] == o;
    assert o == SendKey(MODIFIERS[i], KEY_UP, self, left);
  }

  /** While our slot does not change, the old focus of every switch is our own slot, so no other machine injects any of
      its modifier releases. */
  lemma ReleasesReachNobody(s: State, b: Rect, acts: seq<HostRun.Act>, k: nat, time: int64, to: Rect, current: uint32, me: uint32)
    requires k < |acts| && s.pending == None && acts[k].Consume? && forall i :: 0 <= i < |acts| ==> acts[i].self == s.current
    requires me != s.current && s.current != ID_ALL
    ensures var was, out := HostRun.After(s, b, acts, k).out, HostRun.After(s, b, acts, k + 1).out;
            was <= out && forall o :: o in out[|was|..] && o.SendKey? ==> Injected(CallbackOf(o, time), to, current, me) == None
  {
    hide HostRun.After;
    HostRun.ReleasesGoHome(s, b, acts, k);
  }

  predicate Sideways(edge: Edge) {
    edge == EdgeLeft || edge == EdgeRight
  }

  /** The edge leaves a screen at least four pixels across for one no smaller. */
  predicate NoSmaller(edge: Edge, from: Rect, to: Rect) {
    if Sideways(edge) then 4 <= from.right - from.left <= to.right - to.left
    else 4 <= from.bottom - from.top <= to.bottom - to.top
  }

  /** A switch request goes over the wire unharmed, and the receiving host, taking the focus back without `SetPosition`,
      stands where no edge of the crossed axis fires: the focus does not bounce. */
  lemma SwitchDoesNotBounce(who: Identity, s: State, b: Rect, self: uint32, m: Matrix, id: int32,
                            peer: State, to: Rect, peerSelf: uint32)
    requires EdgeRequest(s, b, self, m).Some? && NoSmaller(EdgeRequest(s, b, self, m).value.edge, b, to)
    ensures var r := EdgeRequest(s, b, self, m).value;
            ArrivesAs(who, NextMachinePacket(self, r.dest, r.entryX, r.entryY, id), OnNextMachine(r.entryX, r.entryY, r.dest))
    ensures var r := EdgeRequest(s, b, self, m).value;
            var t := FocusBack(peer, to, r.entryX, r.entryY, peerSelf, false);
            t.current == peerSelf &&
            DetectEdge(t.px, t.py, to, SKIP_PIXELS) !in if Sideways(r.edge) then {EdgeLeft, EdgeRight} else {EdgeTop, EdgeBottom}
  {
    hide ArrivesAs, NextMachinePacket, NeighborOf, Denormalize, Normalize, EntryForJump, JumpNorm;
    var r := EdgeRequest(s, b, self, m).value;
    AntiBounce(s.px, s.py, b, to, r.edge);
    EntryOnGrid(s.px, s.py, b, r.edge);
    SwitchArrives(who, self, r.dest, r.entryX, r.entryY, id);
  }

  lemma EntryOnGrid(x: int, y: int, from: Rect, edge: Edge)
    requires NoSmaller(edge, from, from) && edge != EdgeNone
    ensures var (ex, ey) := EntryForJump(x, y, from, edge, JUMP_PIXELS);
            0 <= ex <= COORD_MAX && 0 <= ey <= COORD_MAX
  {
    hide Normalize, JumpNorm;
    NormalizeMonotone(x, x, from.left, from.right);
    NormalizeMonotone(y, y, from.top, from.bottom);
    JumpNormRange(if Sideways(edge) then from.right - from.left else from.bottom - from.top);
  }

  // A switch is broadcast, and whoever gets it takes its own focus back.

  /** A peer in slot `me`, wherever its focus was, after the callback of a switch to `dest` from anyone. */
  function Reclaimed(e: LegEvent, peer: State, to: Rect, me: uint32, canPosition: bool): State
    requires e.OnNextMachine?
  {
    FocusBack(peer, to, e.x, e.y, me, canPosition)
  }

  /** Every machine that gets a switch packet, whatever destination it names, has its own focus at home afterwards and
      forwards nothing that is still queued; so of the input that then follows to `dest`, each packet is injected on
      `dest`, just as it would be there alone, and on no other machine. */
  lemma SwitchReclaimsEveryone(who: Identity, src: uint32, dest: uint32, x: int32, y: int32, id: int32,
                               peer: State, to: Rect, me: uint32, canPosition: bool)
    requires dest != ID_ALL
    ensures ArrivesAs(who, NextMachinePacket(src, dest, x, y, id), OnNextMachine(x, y, dest))
    ensures var t := Reclaimed(OnNextMachine(x, y, dest), peer, to, me, canPosition);
            && t.current == me
            && (forall j :: ForwardOuts(j, me, t.current) == [])
            && (forall o: Out, time: int64 :: (o.SendKey? || o.SendMouse?) && o.des == dest ==>
                  Injected(CallbackOf(o, time), to, t.current, me) ==
                  if me == dest then Injected(CallbackOf(o, time), to, dest, dest) else None)
  {
    hide ArrivesAs, NextMachinePacket, Denormalize, Blasts, MotionOf;
    SwitchArrives(who, src, dest, x, y, id);
  }

  /** So a switch between two machines also ends a third one's: away at `there`, it is pulled home, and what it captures
      next stays with it, though the packet named neither. */
  lemma BystanderLosesFocus(who: Identity, src: uint32, dest: uint32, x: int32, y: int32, id: int32, peer: State, to: Rect,
                            me: uint32, there: uint32, e: Event, m: Matrix)
    requires peer.current == there && there != me && me != dest && dest != ID_ALL && !e.Move?
    ensures var t := Reclaimed(OnNextMachine(x, y, dest), peer, to, me, true);
            && Captured(peer, to, e, me, m).fwd ==
               (if |peer.fwd| < FWD_CAPACITY then peer.fwd + [FwdJob(e, 0, 0, false)] else peer.fwd)
            && Captured(t, to, e, me, m).fwd == peer.fwd
  {
    hide Denormalize, Blasts;
  }
}
