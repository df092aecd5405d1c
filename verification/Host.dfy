/** The edge-switch machine: tracking, hysteresis, delegation to the neighbour and forwarding while away. */
module Hosts {
  import opened Bytes
  import opened Packets
  import opened Geometry
  import opened Matrices

  const REARM_INSET := 16
  const FWD_CAPACITY := 64
  const FAR := 20000
  const KEY_UP := 0x80
  const WM_MOUSE_MOVE := 0x0200
  const WM_MOUSE_WHEEL := 0x020A
  const MODIFIERS: seq<int32> := [0x10, 0x11, 0x12, 0x5B]

  /** A captured input event. */
  datatype Event = Move(x: int, y: int, rel: bool) | Button(flag: int) | Wheel(delta: int) | Key(vk: int, down: bool)

  datatype FwdJob = FwdJob(e: Event, dx: int, dy: int, hasDelta: bool)

  datatype SwitchRequest = SwitchRequest(edge: Edge, entryX: int, entryY: int, dest: uint32)

  /** Everything the host makes others do, in order: packets through the sender, then calls on the backend. */
  datatype Out =
    | SendKey(vk: int32, flags: int32, src: uint32, des: uint32)
    | SendMouse(m: MouseEvent, src: uint32, des: uint32)
    | SendNextMachine(src: uint32, dest: uint32, x: int, y: int)
    | SendSwitched(src: uint32, dest: uint32)
    | HideCursor | ShowCursor | SetForwarding(on: bool)
    | InjectRel(dx: int, dy: int) | InjectAbs(x: int, y: int) | SetPosition(x: int, y: int)

  datatype State = State(px: int, py: int, hasPos: bool, armed: bool, current: uint32,
                         pending: Option<SwitchRequest>, fwd: seq<FwdJob>, out: seq<Out>)

  // One step of each kind, on values.

  /** Clamping to the desktop; an empty span is left alone. */
  function Clamp(v: int, lo: int, hi: int): int {
    if hi <= lo then v else if v < lo then lo else if v > hi - 1 then hi - 1 else v
  }

  /** Strictly inside the box whose visit re-arms a fired edge. */
  predicate InInset(x: int, y: int, b: Rect) {
    && b.left + REARM_INSET < x < b.right - 1 - REARM_INSET
    && b.top + REARM_INSET < y < b.bottom - 1 - REARM_INSET
  }

  function ToDir(e: Edge): Direction {
    match e
    case EdgeLeft => DirLeft
    case EdgeRight => DirRight
    case EdgeTop => DirTop
    case EdgeBottom => DirBottom
    case EdgeNone => DirNone
  }

  /** A full queue drops the newest event. */
  function Enqueue(s: State, j: FwdJob): State {
    if |s.fwd| < FWD_CAPACITY then s.(fwd := s.fwd + [j]) else s
  }

  /** The tracker after a move, re-armed when that lands inside the inset box. */
  function Track(s: State, b: Rect, e: Event): State
    requires e.Move?
  {
    var x := Clamp(if e.rel then s.px + e.x else e.x, b.left, b.right);
    var y := Clamp(if e.rel then s.py + e.y else e.y, b.top, b.bottom);
    s.(px := x, py := y, hasPos := true, armed := s.armed || InInset(x, y, b))
  }

  /** The request an armed, focused host makes where its tracker stands, if an edge there leads somewhere. */
  function EdgeRequest(s: State, b: Rect, self: uint32, m: Matrix): Option<SwitchRequest> {
    var edge := DetectEdge(s.px, s.py, b, SKIP_PIXELS);
    var dest := NeighborOf(m, self, ToDir(edge));
    if s.current != self || !s.armed || edge == EdgeNone || dest == 0 || dest == self then None else
      var (ex, ey) := EntryForJump(s.px, s.py, b, edge, JUMP_PIXELS);
      NeighborSound(m, self, ToDir(edge));
      Some(SwitchRequest(edge, ex, ey, dest))
  }

  function Captured(s: State, b: Rect, e: Event, self: uint32, m: Matrix): State {
    if e.Move? then
      var t := Track(s, b, e);
      if t.current != self then
        Enqueue(t, FwdJob(e, if e.rel then e.x else e.x - s.px, if e.rel then e.y else e.y - s.py, s.hasPos))
      else
        match EdgeRequest(t, b, self, m)
        case None => t
        case Some(r) => t.(armed := false, pending := Some(r))
    else if s.current != self then Enqueue(s, FwdJob(e, 0, 0, false))
    else s
  }

  /** Where a switch goes: the requested slot if it is still another machine's, else a fresh look at the layout. */
  function Destination(r: SwitchRequest, self: uint32, m: Matrix): uint32 {
    if r.dest == self || !Occupied(m, r.dest) then
      NeighborSound(m, self, ToDir(r.edge));
      NeighborOf(m, self, ToDir(r.edge))
    else r.dest
  }

  function Releases(self: uint32, des: uint32): seq<Out> {
    seq(|MODIFIERS|, i requires 0 <= i < |MODIFIERS| => SendKey(MODIFIERS[i], KEY_UP, self, des))
  }

  /** `ok` says whether sending the NextMachine packet succeeds. */
  function Switched(s: State, r: SwitchRequest, self: uint32, m: Matrix, ok: bool): State {
    var dest := Destination(r, self, m);
    if dest == 0 || dest == self then s else
      var before := s.out + Releases(self, s.current) + [SendNextMachine(self, dest, r.entryX, r.entryY)];
      if !ok then s.(out := before)
      else s.(out := before + [SendSwitched(self, dest), HideCursor, SetForwarding(true)], current := dest)
  }

  /** MOUSEEVENTF button transitions to WM_* codes. */
  function ButtonToWM(flag: int): Option<int> {
    if flag == 0x02 then Some(0x0201) else if flag == 0x04 then Some(0x0202)
    else if flag == 0x08 then Some(0x0204) else if flag == 0x10 then Some(0x0205)
    else if flag == 0x20 then Some(0x0207) else if flag == 0x40 then Some(0x0208)
    else None
  }

  /** What one queued event turns into for the machine that has the focus. */
  function ForwardOuts(j: FwdJob, self: uint32, dest: uint32): seq<Out> {
    if dest == self then [] else
      match j.e
      case Key(vk, down) => [SendKey(ToInt32(vk), if down then 0 else KEY_UP, self, dest)]
      case Move(_, _, _) =>
        if !j.hasDelta then []
        else [SendMouse(MouseEvent(RelativeDelta(j.dx), RelativeDelta(j.dy), 0, WM_MOUSE_MOVE), self, dest)]
      case Button(flag) =>
        (match ButtonToWM(flag)
         case None => []
         case Some(wm) => [SendMouse(MouseEvent(RelativeDelta(0), RelativeDelta(0), 0, wm), self, dest)])
      case Wheel(delta) => [SendMouse(MouseEvent(0, 0, ToInt32(delta), WM_MOUSE_WHEEL), self, dest)]
  }

  /** The relative moves that drive the cursor into the entry edges. */
  function Blasts(ex: int, ey: int): seq<Out> {
    (if ex <= 1000 then [InjectRel(-FAR, 0)] else if ex >= 64535 then [InjectRel(FAR, 0)] else [])
    + (if ey <= 1000 then [InjectRel(0, -FAR)] else if ey >= 64535 then [InjectRel(0, FAR)] else [])
  }

  function FocusBack(s: State, b: Rect, ex: int, ey: int, self: uint32, canPosition: bool): State {
    var x, y := Denormalize(ex, b.left, b.right), Denormalize(ey, b.top, b.bottom);
    var t := s.(current := self, out := s.out + [SetForwarding(false), ShowCursor] + Blasts(ex, ey));
    if canPosition then t.(out := t.out + [SetPosition(x, y)])
    else t.(px := x, py := y, hasPos := true, out := t.out + [InjectAbs(x, y)])
  }

  /** The stateful host; its live layout and slot arrive as arguments of each call. */
  class Host {
    const bounds: Rect
    var px: int
    var py: int
    var hasPos: bool
    var armed: bool
    var current: uint32
    var pending: Option<SwitchRequest>
    var fwd: seq<FwdJob>
    var out: seq<Out>

    function Now(): State
      reads this
    {
      State(px, py, hasPos, armed, current, pending, fwd, out)
    }

    constructor (bounds: Rect, self: uint32)
      ensures Now() == State(0, 0, false, true, self, None, [], []) && this.bounds == bounds
    {
      this.bounds := bounds;
      px, py, hasPos, armed, current := 0, 0, false, true, self;
      pending, fwd, out := None, [], [];
    }

    method OnCapture(e: Event, self: uint32, m: Matrix)
      modifies this
      ensures Now() == Captured(old(Now()), bounds, e, self, m)
    {
      hide InInset, DetectEdge, EntryForJump, NeighborOf, Clamp;
      if e.Move? {
        var dx, dy, had := TrackMove(e);
        if current != self {
          Enqueue(FwdJob(e, dx, dy, had));
          return;
        }
        if !armed { return; }
        var edge := DetectEdge(px, py, bounds, SKIP_PIXELS);
        if edge == EdgeNone { return; }
        var dest := Neighbor(m, self, ToDir(edge));
        if dest == ID_NONE || dest == self { return; }
        var (ex, ey) := EntryForJump(px, py, bounds, edge, JUMP_PIXELS);
        armed := false;
        pending := Some(SwitchRequest(edge, ex, ey, dest));
        return;
      }
      if current != self {
        Enqueue(FwdJob(e, 0, 0, false));
      }
    }

    /** The locked part of OnCapture: advance the tracker, clamp it to the desktop, re-arm inside the inset box. */
    method TrackMove(e: Event) returns (dx: int, dy: int, had: bool)
      requires e.Move?
      modifies this`px, this`py, this`hasPos, this`armed
      ensures Now() == Track(old(Now()), bounds, e)
      ensures (dx, dy, had) == (if e.rel then e.x else e.x - old(px), if e.rel then e.y else e.y - old(py), old(hasPos))
    {
      hide InInset;
      dx, dy, had := e.x, e.y, hasPos;
      if e.rel {
        px, py := px + dx, py + dy;
      } else {
        dx, dy := e.x - px, e.y - py;
        px, py := e.x, e.y;
      }
      hasPos := true;
      ClampTracker();
      if !armed {
        if InInset(px, py, bounds) {
          armed := true;
        }
      }
    }

    method ClampTracker()
      modifies this`px, this`py
      ensures px == Clamp(old(px), bounds.left, bounds.right) && py == Clamp(old(py), bounds.top, bounds.bottom)
    {
      if bounds.right > bounds.left {
        if px < bounds.left { px := bounds.left; }
        if px > bounds.right - 1 { px := bounds.right - 1; }
      }
      if bounds.bottom > bounds.top {
        if py < bounds.top { py := bounds.top; }
        if py > bounds.bottom - 1 { py := bounds.bottom - 1; }
      }
    }

    method Enqueue(j: FwdJob)
      modifies this`fwd
      ensures fwd == if |old(fwd)| < FWD_CAPACITY then old(fwd) + [j] else old(fwd)
    {
      if |fwd| < FWD_CAPACITY {
        fwd := fwd + [j];
      }
    }

    /** The Run loop receives a pending request and handles it. */
    method DoSwitch(self: uint32, m: Matrix, ok: bool)
      requires pending.Some?
      modifies this
      ensures Now() == Switched(old(Now()), old(pending.value), self, m, ok).(pending := None)
    {
      var r := pending.value;
      pending := None;
      var dest := r.dest;
      if dest == self || !Occupied(m, dest) {
        dest := Neighbor(m, self, ToDir(r.edge));
        if dest == ID_NONE || dest == self { return; }
      }
      ghost var was := out;
      for i := 0 to |MODIFIERS|
        invariant out == was + Releases(self, current)[..i]
        invariant Now() == old(Now()).(pending := None, out := out)
      {
        out := out + [SendKey(MODIFIERS[i], KEY_UP, self, current)];
      }
      assert Releases(self, current)[..|MODIFIERS|] == Releases(self, current);
      out := out + [SendNextMachine(self, dest, r.entryX, r.entryY)];
      if !ok { return; }
      out := out + [SendSwitched(self, dest), HideCursor, SetForwarding(true)];
      current := dest;
    }

    /** The Run loop receives one queued event and ships it: at most one packet, to the machine that has the focus. */
    method Forward(self: uint32)
      requires fwd != []
      modifies this`fwd, this`out
      ensures Now() == old(Now()).(fwd := old(fwd)[1..], out := old(out) + ForwardOuts(old(fwd)[0], self, current))
      ensures |old(out)| <= |out| <= |old(out)| + 1
      ensures |out| > |old(out)| ==>
                var o := out[|old(out)|];
                current != self && (o.SendKey? || o.SendMouse?) && o.src == self && o.des == current
    {
      var j := fwd[0];
      fwd := fwd[1..];
      var dest := current;
      if dest == self { return; }
      match j.e {
        case Key(vk, down) =>
          var flags := 0;
          if !down { flags := KEY_UP; }
          out := out + [SendKey(ToInt32(vk), flags, self, dest)];
        case Move(_, _, _) =>
          if !j.hasDelta { return; }
          out := out + [SendMouse(MouseEvent(RelativeDelta(j.dx), RelativeDelta(j.dy), 0, WM_MOUSE_MOVE), self, dest)];
        case Button(flag) =>
          var wm := ButtonToWM(flag);
          if wm.None? { return; }
          out := out + [SendMouse(MouseEvent(RelativeDelta(0), RelativeDelta(0), 0, wm.value), self, dest)];
        case Wheel(delta) =>
          out := out + [SendMouse(MouseEvent(0, 0, ToInt32(delta), WM_MOUSE_WHEEL), self, dest)];
      }
    }

    method OnNextMachine(ex: int, ey: int, self: uint32, canPosition: bool)
      modifies this
      ensures Now() == FocusBack(old(Now()), bounds, ex, ey, self, canPosition)
    {
      current := self;
      out := out + [SetForwarding(false), ShowCursor];
      var x, y := Denormalize(ex, bounds.left, bounds.right), Denormalize(ey, bounds.top, bounds.bottom);
      var blasts := [];
      if ex <= 1000 { blasts := blasts + [InjectRel(-FAR, 0)]; } else if ex >= 64535 { blasts := blasts + [InjectRel(FAR, 0)]; }
      if ey <= 1000 { blasts := blasts + [InjectRel(0, -FAR)]; } else if ey >= 64535 { blasts := blasts + [InjectRel(0, FAR)]; }
      assert blasts == Blasts(ex, ey);
      out := out + blasts;
      if canPosition {
        out := out + [SetPosition(x, y)];
        return;
      }
      px, py, hasPos := x, y, true;
      out := out + [InjectAbs(x, y)];
    }
  }
}
