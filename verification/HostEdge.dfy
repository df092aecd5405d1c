/** Where an edge leads: the request a captured move makes, from the tracker's position and the layout alone. */
module HostEdge {
  import opened Bytes
  import opened Packets
  import opened Geometry
  import opened Matrices
  import opened Hosts

  // The tracker.

  /** A relative move adds to the tracker and an absolute one replaces it, as far as the desktop goes. */
  lemma TrackerFollows(s: State, b: Rect, e: Event)
    requires e.Move? && b.left < b.right && b.top < b.bottom
    ensures var t := Track(s, b, e);
            var x, y := if e.rel then s.px + e.x else e.x, if e.rel then s.py + e.y else e.y;
            && b.left <= t.px < b.right && b.top <= t.py < b.bottom && t.hasPos
            && (b.left <= x < b.right ==> t.px == x) && (x < b.left ==> t.px == b.left) && (x >= b.right ==> t.px == b.right - 1)
            && (b.top <= y < b.bottom ==> t.py == y) && (y < b.top ==> t.py == b.top) && (y >= b.bottom ==> t.py == b.bottom - 1)
  {
  }

  /** A fired edge is armed again exactly by a move that ends more than 16 pixels inside every edge pixel. */
  lemma RearmedExactly(s: State, b: Rect, e: Event)
    requires e.Move?
    ensures var t := Track(s, b, e);
            t.armed <==>
            s.armed || (t.px - b.left > 16 && b.right - 1 - t.px > 16 && t.py - b.top > 16 && b.bottom - 1 - t.py > 16)
  {
  }

  /** The delta that is queued for a move while away: the motion itself, and for an absolute position what it is from the
      position before, clamping aside; it counts once there was one. */
  lemma DeltasQueued(s: State, b: Rect, e: Event, self: uint32, m: Matrix)
    requires e.Move? && s.current != self && |s.fwd| < 64
    ensures var t := Captured(s, b, e, self, m);
            && |t.fwd| == |s.fwd| + 1 && t.fwd[..|s.fwd|] == s.fwd
            && var j := t.fwd[|s.fwd|];
               && j.e == e && (j.hasDelta <==> s.hasPos)
               && (e.rel ==> (j.dx, j.dy) == (e.x, e.y))
               && (!e.rel ==> (s.px + j.dx, s.py + j.dy) == (e.x, e.y))
  {
    hide Clamp, InInset;
  }

  /** Anything captured while away is queued behind what is already there, or lost when 64 events are; and nothing is
      queued at home. */
  lemma QueuedOrLost(s: State, b: Rect, e: Event, self: uint32, m: Matrix)
    ensures var t := Captured(s, b, e, self, m);
            && (s.current == self ==> t.fwd == s.fwd)
            && (s.current != self && |s.fwd| >= 64 ==> t.fwd == s.fwd)
            && (s.current != self && |s.fwd| < 64 ==>
                  |t.fwd| == |s.fwd| + 1 && t.fwd[..|s.fwd|] == s.fwd && t.fwd[|s.fwd|].e == e)
  {
    hide Clamp, InInset, EdgeRequest;
  }

  // The request.

  /** The slot a request made at the left, right, upper or lower edge must name, 0 when nobody sits that way. */
  ghost predicate LeadsTo(m: Matrix, self: int, edge: Edge, t: int) {
    if self < 1 || self > 4 then t == 0
    else if m.twoRow then
      var beside := if self % 2 == 1 then self + 1 else self - 1;
      var across := if self <= 2 then self + 2 else self - 2;
      match edge
      case EdgeLeft => t == if m.slots[beside - 1] != [] && (self % 2 == 0 || m.wrap) then beside else 0
      case EdgeRight => t == if m.slots[beside - 1] != [] && (self % 2 == 1 || m.wrap) then beside else 0
      case EdgeTop => t == if m.slots[across - 1] != [] && self > 2 then across else 0
      case EdgeBottom => t == if m.slots[across - 1] != [] && self <= 2 then across else 0
      case EdgeNone => t == 0
    else
      match edge
      case EdgeLeft => NearestAlong(m, self, -1, t)
      case EdgeRight => NearestAlong(m, self, 1, t)
      case _ => t == 0
  }

  lemma EdgeLeads(m: Matrix, self: int, edge: Edge)
    ensures LeadsTo(m, self, edge, NeighborOf(m, self, ToDir(edge)))
  {
    hide NeighborOf, NearestAlong;
    if self < 1 || self > 4 {
      NoNeighborOutside(m, self, ToDir(edge));
    } else if m.twoRow {
      NeighborInGrid(m, self);
      NoNeighborOutside(m, if edge == EdgeNone then 0 else self, DirNone);
      if edge == EdgeNone { NoneLeadsNowhere(m, self); }
    } else {
      NearestInRow(m, self);
      NothingAboveRow(m, self);
      if edge == EdgeNone { NoneLeadsNowhere(m, self); }
    }
  }

  lemma NoneLeadsNowhere(m: Matrix, self: int)
    ensures NeighborOf(m, self, DirNone) == 0
  {
  }

  /** The edge the tracker stands at: left before right, sideways before up and down. */
  function EdgeAt(x: int, y: int, b: Rect): Edge {
    if x <= b.left then EdgeLeft
    else if x >= b.right - 1 then EdgeRight
    else if y <= b.top then EdgeTop
    else if y >= b.bottom - 1 then EdgeBottom
    else EdgeNone
  }

  /** The captured move made a request, whatever was pending before. */
  function Made(s: State, b: Rect, e: Event, self: uint32, m: Matrix): Option<SwitchRequest> {
    Captured(s.(pending := None), b, e, self, m).pending
  }

  lemma MadeIsPending(s: State, b: Rect, e: Event, self: uint32, m: Matrix)
    ensures Captured(s, b, e, self, m).pending == if Made(s, b, e, self, m).Some? then Made(s, b, e, self, m) else s.pending
  {
    hide NeighborOf, EntryForJump, DetectEdge, Clamp, InInset;
  }

  /** A captured move makes a request if and only if the host has the focus, is armed (before the move, or by it), and
      somebody sits beyond the edge the tracker then stands at; the request names that edge, the slot beyond it and the
      entry point there. */
  lemma RequestedExactly(s: State, b: Rect, e: Event, self: uint32, m: Matrix)
    requires e.Move?
    ensures var t := Track(s, b, e);
            var edge, r := EdgeAt(t.px, t.py, b), Made(s, b, e, self, m);
            && (r.Some? <==> s.current == self && t.armed && edge != EdgeNone && !LeadsTo(m, self, edge, 0))
            && (r.Some? ==>
                  && r.value.edge == edge && LeadsTo(m, self, edge, r.value.dest)
                  && (r.value.entryX, r.value.entryY) == EntryForJump(t.px, t.py, b, edge, 2))
  {
    hide NeighborOf, EntryForJump, LeadsTo, Clamp, InInset;
    var t := Track(s, b, e);
    var edge := EdgeAt(t.px, t.py, b);
    EdgesAreStrips(t.px, t.py, b);
    EdgeLeads(m, self, edge);
    NeighborSound(m, self, ToDir(edge));
    OneAnswer(m, self, edge, NeighborOf(m, self, ToDir(edge)));
  }

  lemma OneAnswer(m: Matrix, self: int, edge: Edge, t: int)
    requires LeadsTo(m, self, edge, t)
    ensures LeadsTo(m, self, edge, 0) <==> t == 0
  {
    hide NobodyAt, Place;
  }

  /** A request whose slot has become ours or empty by the time it is handled is sent beyond the same edge of the layout
      as it is then; one whose slot is still another's goes there. */
  lemma SentBeyondEdge(r: SwitchRequest, self: uint32, m: Matrix)
    ensures if r.dest == self || r.dest < 1 || r.dest > 4 || m.slots[r.dest - 1] == [] then
              LeadsTo(m, self, r.edge, Destination(r, self, m))
            else Destination(r, self, m) == r.dest
  {
    hide NeighborOf, LeadsTo;
    EdgeLeads(m, self, r.edge);
  }

  /** A request with somewhere to go moves the focus there, once the switch packet is out; it moves nothing when that
      fails, and does nothing at all with nowhere to go. */
  lemma SwitchMade(s: State, r: SwitchRequest, self: uint32, m: Matrix, ok: bool)
    ensures var t, dest := Switched(s, r, self, m, ok), Destination(r, self, m);
            && (dest == 0 || dest == self ==> t == s)
            && (dest != 0 && dest != self ==>
                  && |t.out| > |s.out| && SendNextMachine(self, dest, r.entryX, r.entryY) in t.out[|s.out|..]
                  && t.current == (if ok then dest else s.current))
            && (!ok ==> forall o :: o in t.out[|s.out|..] ==> !o.SendSwitched? && o != HideCursor && o != SetForwarding(true))
  {
    hide Destination;
    var t, dest := Switched(s, r, self, m, ok), Destination(r, self, m);
    if dest != 0 && dest != self {
      var at := |s.out| + |Releases(self, s.current)|;
      assert t.out[at] == SendNextMachine(self, dest, r.entryX, r.entryY);
      assert t.out[|s.out|..][at - |s.out|] == t.out[at];
    }
  }

  // Coming back.

  /** Whoever gets the focus puts the cursor where the entry point denormalises to, and its own tracker there unless the
      backend keeps one. */
  lemma ReturnLands(s: State, b: Rect, ex: int, ey: int, self: uint32, canPosition: bool)
    ensures var t, at := FocusBack(s, b, ex, ey, self, canPosition), Landing((ex, ey), b);
            && t.current == self && t.fwd == s.fwd && t.armed == s.armed && t.pending == s.pending
            && s.out + [SetForwarding(false), ShowCursor] <= t.out
            && t.out[|t.out| - 1] == (if canPosition then SetPosition(at.0, at.1) else InjectAbs(at.0, at.1))
            && (t.px, t.py) == (if canPosition then (s.px, s.py) else at)
  {
    hide Denormalize, Blasts;
  }

  /** Where a cursor on the desktop ends when it is moved by the deltas of some injected relative moves. */
  function Pushed(p: (int, int), outs: seq<Out>, b: Rect): (int, int) {
    if outs == [] then p else
      var q := Pushed(p, outs[..|outs| - 1], b);
      var o := outs[|outs| - 1];
      if o.InjectRel? then (Clamp(q.0 + o.dx, b.left, b.right), Clamp(q.1 + o.dy, b.top, b.bottom)) else q
  }

  lemma PushedOnce(p: (int, int), dx: int, dy: int, b: Rect)
    ensures Pushed(p, [InjectRel(dx, dy)], b) == (Clamp(p.0 + dx, b.left, b.right), Clamp(p.1 + dy, b.top, b.bottom))
  {
    assert [InjectRel(dx, dy)][..0] == [];
  }

  lemma PushedTwice(p: (int, int), first: Out, dx: int, dy: int, b: Rect)
    ensures var q := Pushed(p, [first], b);
            Pushed(p, [first, InjectRel(dx, dy)], b) == (Clamp(q.0 + dx, b.left, b.right), Clamp(q.1 + dy, b.top, b.bottom))
  {
    hide Clamp;
    assert [first, InjectRel(dx, dy)][..1] == [first];
  }

  /** On a desktop of up to 20000 pixels each way the pushes drive the cursor into the edges of the entry, from wherever
      it is, and leave it alone along an axis on which the entry is at no edge. */
  lemma PushesReachTheEntry(ex: int, ey: int, p: (int, int), b: Rect)
    requires b.left <= p.0 < b.right && b.top <= p.1 < b.bottom && b.right - b.left <= 20000 && b.bottom - b.top <= 20000
    ensures var q := Pushed(p, Blasts(ex, ey), b);
            && q.0 == (if ex <= 1000 then b.left else if ex >= 64535 then b.right - 1 else p.0)
            && q.1 == (if ey <= 1000 then b.top else if ey >= 64535 then b.bottom - 1 else p.1)
  {
    hide Pushed;
    var outs := Blasts(ex, ey);
    if outs == [] {
      NotPushed(p, b);
    } else {
      PushedOnce(p, outs[0].dx, outs[0].dy, b);
      assert outs[0] == InjectRel(outs[0].dx, outs[0].dy);
      if |outs| == 2 {
        PushedTwice(p, outs[0], outs[1].dx, outs[1].dy, b);
        assert outs == [outs[0], InjectRel(outs[1].dx, outs[1].dy)];
      } else {
        assert outs == [outs[0]];
      }
    }
  }

  lemma NotPushed(p: (int, int), b: Rect)
    ensures Pushed(p, [], b) == p
  {
  }
}
