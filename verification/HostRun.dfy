/** Whole runs of the host: hysteresis between switch requests, and what every switch packet names. */
module HostRun {
  import opened Bytes
  import opened Packets
  import opened Geometry
  import opened Matrices
  import opened Hosts

  /** One turn of the host.  The layout and our own slot may differ at every turn. */
  datatype Act =
    | Capture(e: Event, self: uint32, m: Matrix)
    | Consume(self: uint32, m: Matrix, ok: bool)
    | Ship(self: uint32)
    | Return(ex: int, ey: int, self: uint32, canPosition: bool)

  function Step(s: State, b: Rect, a: Act): State {
    match a
    case Capture(e, self, m) => Captured(s, b, e, self, m)
    case Consume(self, m, ok) =>
      if s.pending.None? then s else Switched(s, s.pending.value, self, m, ok).(pending := None)
    case Ship(self) =>
      if s.fwd == [] then s else s.(fwd := s.fwd[1..], out := s.out + ForwardOuts(s.fwd[0], self, s.current))
    case Return(ex, ey, self, canPosition) => FocusBack(s, b, ex, ey, self, canPosition)
  }

  /** The host takes a turn. */
  method TakeTurn(h: Host, a: Act)
    modifies h
    ensures h.Now() == Step(old(h.Now()), h.bounds, a)
  {
    hide Captured, Switched, ForwardOuts, FocusBack;
    match a {
      case Capture(e, self, m) => h.OnCapture(e, self, m);
      case Consume(self, m, ok) => if h.pending.Some? { h.DoSwitch(self, m, ok); }
      case Ship(self) => if h.fwd != [] { h.Forward(self); }
      case Return(ex, ey, self, canPosition) => h.OnNextMachine(ex, ey, self, canPosition);
    }
  }

  /** The state after the first k turns. */
  function After(s: State, b: Rect, acts: seq<Act>, k: nat): State
    requires k <= |acts|
  {
    if k == 0 then s else Step(After(s, b, acts, k - 1), b, acts[k - 1])
  }

  // Hysteresis.

  /** The turn makes a switch request. */
  predicate Fires(s: State, b: Rect, a: Act) {
    a.Capture? && a.e.Move? && EdgeRequest(Track(s, b, a.e), b, a.self, a.m).Some?
  }

  predicate FiresAt(s: State, b: Rect, acts: seq<Act>, k: nat)
    requires k < |acts|
  {
    Fires(After(s, b, acts, k), b, acts[k])
  }

  /** A captured move that fires nothing and leaves the tracker inside the inset box. */
  predicate Dives(s: State, b: Rect, a: Act) {
    a.Capture? && a.e.Move? && !Fires(s, b, a) && InInset(Step(s, b, a).px, Step(s, b, a).py, b)
  }

  predicate NonEmpty(b: Rect) {
    b.left < b.right && b.top < b.bottom
  }

  /** The tracker is on the desktop, in one of its edge strips. */
  predicate OnEdge(s: State, b: Rect) {
    && b.left <= s.px < b.right && b.top <= s.py < b.bottom
    && (Triggers(s.px, b.left, b.right) || Triggers(s.py, b.top, b.bottom))
  }

  lemma FiringFacts(s: State, b: Rect, a: Act)
    requires NonEmpty(b) && Fires(s, b, a)
    ensures OnEdge(Step(s, b, a), b) && !Step(s, b, a).armed
    ensures s.armed
  {
    var t := Track(s, b, a.e);
    EdgesAreStrips(t.px, t.py, b);
  }

  /** Only a dive re-arms. */
  lemma ArmingFacts(s: State, b: Rect, a: Act)
    requires !s.armed && Step(s, b, a).armed
    ensures Dives(s, b, a)
  {
    hide EntryForJump, NeighborOf, Denormalize;
    assert a.Capture? && a.e.Move?;
    var t := Track(s, b, a.e);
    EdgesAreStrips(t.px, t.py, b);
  }

  lemma {:induction false} SomeDive(s: State, b: Rect, acts: seq<Act>, i: nat, j: nat) returns (k: nat)
    requires i <= j <= |acts| && !After(s, b, acts, i).armed && After(s, b, acts, j).armed
    ensures i <= k < j && Dives(After(s, b, acts, k), b, acts[k])
    decreases j
  {
    hide Step, Dives;
    assert i < j;
    if After(s, b, acts, j - 1).armed {
      k := SomeDive(s, b, acts, i, j - 1);
    } else {
      k := j - 1;
      ArmingFacts(After(s, b, acts, k), b, acts[k]);
    }
  }

  function Abs(a: int): nat {
    if a < 0 then -a else a
  }

  /** Distance in the max norm. */
  function Dist(s: State, t: State): nat {
    var dx, dy := Abs(s.px - t.px), Abs(s.py - t.py);
    if dx > dy then dx else dy
  }

  /** How far the tracker travels from the state after i turns to the one after j, re-anchoring jumps included. */
  function PathLength(s: State, b: Rect, acts: seq<Act>, i: nat, j: nat): nat
    requires i <= j <= |acts|
    decreases j
  {
    if i == j then 0 else PathLength(s, b, acts, i, j - 1) + Dist(After(s, b, acts, j - 1), After(s, b, acts, j))
  }

  lemma {:induction false} PathAtLeastDist(s: State, b: Rect, acts: seq<Act>, i: nat, j: nat)
    requires i <= j <= |acts|
    ensures PathLength(s, b, acts, i, j) >= Dist(After(s, b, acts, i), After(s, b, acts, j))
    decreases j
  {
    hide After;
    if i < j { PathAtLeastDist(s, b, acts, i, j - 1); }
  }

  lemma {:induction false} PathSplits(s: State, b: Rect, acts: seq<Act>, i: nat, k: nat, j: nat)
    requires i <= k <= j <= |acts|
    ensures PathLength(s, b, acts, i, j) == PathLength(s, b, acts, i, k) + PathLength(s, b, acts, k, j)
    decreases j
  {
    hide After, Dist;
    if k < j { PathSplits(s, b, acts, i, k, j - 1); }
  }

  lemma EdgeFarFromInset(s: State, t: State, b: Rect)
    requires OnEdge(s, b) && InInset(t.px, t.py, b)
    ensures Dist(s, t) >= REARM_INSET + 1 && Dist(t, s) >= REARM_INSET + 1
  {
  }

  /** Between any two switch requests of any run the tracker dives into the inset box without firing, so it travels
      at least twice the inset and a pixel, whatever else happens in between. */
  lemma Hysteresis(s: State, b: Rect, acts: seq<Act>, i: nat, j: nat)
    requires NonEmpty(b) && i < j < |acts| && FiresAt(s, b, acts, i) && FiresAt(s, b, acts, j)
    ensures exists k :: i < k < j && Dives(After(s, b, acts, k), b, acts[k])
    ensures PathLength(s, b, acts, i + 1, j + 1) >= 2 * (REARM_INSET + 1)
  {
    hide Step, Fires, InInset, OnEdge, Dist;
    var p, q := After(s, b, acts, i), After(s, b, acts, j);
    FiringFacts(p, b, acts[i]);
    FiringFacts(q, b, acts[j]);
    var k := SomeDive(s, b, acts, i + 1, j);
    EdgeFarFromInset(After(s, b, acts, i + 1), After(s, b, acts, k + 1), b);
    EdgeFarFromInset(After(s, b, acts, j + 1), After(s, b, acts, k + 1), b);
    PathSplits(s, b, acts, i + 1, k + 1, j + 1);
    PathAtLeastDist(s, b, acts, i + 1, k + 1);
    PathAtLeastDist(s, b, acts, k + 1, j + 1);
  }

  // What is sent.

  /** Turn a, taken in state s, explains an output: switch packets carry the pending request and name another machine
      occupied in the layout read at that very turn; forwarded input goes to the machine that has the focus, another
      one; the only other key packets are modifier releases addressed to the old focus; and the cursor is hidden by a
      switch and shown, warped and pushed by a return only. */
  predicate Explains(s: State, a: Act, o: Out) {
    match o
    case SendNextMachine(src, dest, x, y) =>
      && a.Consume? && src == a.self && dest != a.self && Occupied(a.m, dest)
      && s.pending.Some? && (x, y) == (s.pending.value.entryX, s.pending.value.entryY)
    case SendSwitched(src, dest) => a.Consume? && src == a.self && dest != a.self && Occupied(a.m, dest) && a.ok
    case SendMouse(_, src, des) => a.Ship? && src == a.self && des == s.current && des != a.self
    case SendKey(vk, flags, src, des) =>
      src == a.self && des == s.current &&
      ((a.Ship? && des != a.self) || (a.Consume? && vk in MODIFIERS && flags == KEY_UP))
    case HideCursor => a.Consume? && a.ok
    case SetForwarding(on) => if on then a.Consume? && a.ok else a.Return?
    case ShowCursor => a.Return?
    case InjectRel(_, _) => a.Return?
    case InjectAbs(_, _) => a.Return? && !a.canPosition
    case SetPosition(_, _) => a.Return? && a.canPosition
  }

  lemma SwitchExplains(s: State, a: Act)
    requires a.Consume? && s.pending.Some?
    ensures var t := Switched(s, s.pending.value, a.self, a.m, a.ok);
            s.out <= t.out && forall n :: |s.out| <= n < |t.out| ==> Explains(s, a, t.out[n])
  {
    hide NeighborOf;
    NeighborSound(a.m, a.self, ToDir(s.pending.value.edge));
  }

  lemma CapturesSendNothing(s: State, b: Rect, a: Act)
    ensures a.Capture? ==> Step(s, b, a).out == s.out && Step(s, b, a).current == s.current
  {
    hide EdgeRequest, Clamp, InInset;
  }

  lemma ShipExplains(s: State, a: Act)
    requires a.Ship? && s.fwd != []
    ensures forall o :: o in ForwardOuts(s.fwd[0], a.self, s.current) ==> Explains(s, a, o)
  {
    hide RelativeDelta, Occupied;
  }

  lemma ReturnExplains(s: State, b: Rect, a: Act)
    requires a.Return?
    ensures var t := FocusBack(s, b, a.ex, a.ey, a.self, a.canPosition);
            s.out <= t.out && forall n :: |s.out| <= n < |t.out| ==> Explains(s, a, t.out[n])
  {
    hide Denormalize, Occupied;
    var t := FocusBack(s, b, a.ex, a.ey, a.self, a.canPosition);
    BlastsAreMoves(a.ex, a.ey);
    var head, blasts := [SetForwarding(false), ShowCursor], Blasts(a.ex, a.ey);
    assert t.out == s.out + (head + blasts + [t.out[|t.out| - 1]]);
  }

  lemma BlastsAreMoves(ex: int, ey: int)
    ensures forall o :: o in Blasts(ex, ey) ==> o.InjectRel?
  {
  }

  lemma StepExplains(s: State, b: Rect, a: Act)
    ensures var t := Step(s, b, a);
            s.out <= t.out && forall n :: |s.out| <= n < |t.out| ==> Explains(s, a, t.out[n])
  {
    hide Captured, Switched, FocusBack, ForwardOuts, Explains;
    match a {
      case Capture(_, _, _) => CapturesSendNothing(s, b, a);
      case Consume(_, _, _) => if s.pending.Some? { SwitchExplains(s, a); }
      case Ship(_) =>
        if s.fwd != [] {
          ShipExplains(s, a);
          var outs := ForwardOuts(s.fwd[0], a.self, s.current);
          assert forall n :: |s.out| <= n < |Step(s, b, a).out| ==> Step(s, b, a).out[n] == outs[n - |s.out|];
        }
      case Return(_, _, _, _) => ReturnExplains(s, b, a);
    }
  }

  /** In the history `out` of a run, what turn a added on its way from s to t is still there and explained by it. */
  ghost predicate Accounted(s: State, a: Act, t: State, out: seq<Out>) {
    s.out <= t.out <= out && forall n :: |s.out| <= n < |t.out| ==> Explains(s, a, out[n])
  }

  lemma LastTurn(s: State, b: Rect, acts: seq<Act>, k: nat)
    requires 0 < k <= |acts|
    ensures After(s, b, acts, k) == Step(After(s, b, acts, k - 1), b, acts[k - 1])
  {
  }

  lemma AccountStays(s: State, a: Act, t: State, out: seq<Out>, more: seq<Out>)
    requires Accounted(s, a, t, out) && out <= more
    ensures Accounted(s, a, t, more)
  {
    hide Explains;
  }

  /** In every run, however the layout and our slot change between turns, every output is explained by the turn that
      produced it, from the state that turn found. */
  lemma {:induction false} EveryPacketExplained(s: State, b: Rect, acts: seq<Act>, k: nat)
    requires k <= |acts|
    ensures forall i :: 0 <= i < k ==>
              Accounted(After(s, b, acts, i), acts[i], After(s, b, acts, i + 1), After(s, b, acts, k).out)
  {
    hide After, Step, Explains;
    if k > 0 {
      var u, t := After(s, b, acts, k - 1), After(s, b, acts, k);
      LastTurn(s, b, acts, k);
      StepExplains(u, b, acts[k - 1]);
      EveryPacketExplained(s, b, acts, k - 1);
      forall i | 0 <= i < k ensures Accounted(After(s, b, acts, i), acts[i], After(s, b, acts, i + 1), t.out) {
        if i < k - 1 { AccountStays(After(s, b, acts, i), acts[i], After(s, b, acts, i + 1), u.out, t.out); }
      }
    }
  }

  // Where the focus is.

  /** The machine last told that it has the focus, unless forwarding was switched off since. */
  function Told(out: seq<Out>): Option<uint32> {
    if out == [] then None else
      var last := out[|out| - 1];
      if last.SendSwitched? then Some(last.dest)
      else if last == SetForwarding(false) then None
      else Told(out[..|out| - 1])
  }

  /** Our slot when the focus last came home, or at the start. */
  function Home(start: uint32, acts: seq<Act>, k: nat): uint32
    requires k <= |acts|
  {
    if k == 0 then start else if acts[k - 1].Return? then acts[k - 1].self else Home(start, acts, k - 1)
  }

  lemma {:induction false} ToldStays(out: seq<Out>, more: seq<Out>)
    requires forall o :: o in more ==> !o.SendSwitched? && o != SetForwarding(false)
    ensures Told(out + more) == Told(out)
  {
    if more == [] {
      assert out + more == out;
    } else {
      assert (out + more)[..|out + more| - 1] == out + more[..|more| - 1];
      ToldStays(out, more[..|more| - 1]);
    }
  }

  lemma ToldAnew(out: seq<Out>, o: Out, more: seq<Out>)
    requires o.SendSwitched? || o == SetForwarding(false)
    requires forall p :: p in more ==> !p.SendSwitched? && p != SetForwarding(false)
    ensures Told(out + [o] + more) == if o.SendSwitched? then Some(o.dest) else None
  {
    ToldStays(out + [o], more);
  }

  /** Only a return and a completed switch change what is told, and the focus goes exactly there. */
  lemma StepTells(s: State, b: Rect, a: Act)
    ensures var t := Step(s, b, a);
            if a.Return? then t.current == a.self && Told(t.out) == None
            else (t.current == s.current && Told(t.out) == Told(s.out)) || Told(t.out) == Some(t.current)
  {
    hide Told, EdgeRequest, Clamp, InInset, Denormalize, Blasts, RelativeDelta, Destination;
    var t := Step(s, b, a);
    match a {
      case Capture(_, _, _) => CapturesSendNothing(s, b, a);
      case Ship(self) =>
        if s.fwd != [] { ToldStays(s.out, ForwardOuts(s.fwd[0], self, s.current)); }
      case Return(ex, ey, self, canPosition) =>
        BlastsAreMoves(ex, ey);
        var warp := t.out[|t.out| - 1];
        var more := [ShowCursor] + Blasts(ex, ey) + [warp];
        assert t.out == s.out + [SetForwarding(false)] + more;
        ToldAnew(s.out, SetForwarding(false), more);
      case Consume(self, m, ok) =>
        if s.pending.Some? { SwitchTells(s, s.pending.value, self, m, ok); }
    }
  }

  lemma SwitchTells(s: State, r: SwitchRequest, self: uint32, m: Matrix, ok: bool)
    ensures var t := Switched(s, r, self, m, ok);
            (t.current == s.current && Told(t.out) == Told(s.out)) || Told(t.out) == Some(t.current)
  {
    hide Told, Destination;
    var t, dest := Switched(s, r, self, m, ok), Destination(r, self, m);
    var head := Releases(self, s.current) + [SendNextMachine(self, dest, r.entryX, r.entryY)];
    if ok {
      ToldAnew(s.out + head, SendSwitched(self, dest), [HideCursor, SetForwarding(true)]);
      assert s.out + Releases(self, s.current) + [SendNextMachine(self, dest, r.entryX, r.entryY)]
             + [SendSwitched(self, dest), HideCursor, SetForwarding(true)]
          == s.out + head + [SendSwitched(self, dest)] + [HideCursor, SetForwarding(true)];
    } else {
      ToldStays(s.out, head);
      assert s.out + Releases(self, s.current) + [SendNextMachine(self, dest, r.entryX, r.entryY)] == s.out + head;
    }
  }

  /** In every run that starts with nobody told: the focus is at the machine last told so, or, when nobody is, at the
      slot we had when it last came home. */
  lemma {:induction false} FocusIsTold(s: State, b: Rect, acts: seq<Act>, k: nat)
    requires k <= |acts| && Told(s.out) == None
    ensures var t := After(s, b, acts, k);
            t.current == match Told(t.out) case Some(d) => d case None => Home(s.current, acts, k)
  {
    hide Step, Told;
    if k > 0 {
      FocusIsTold(s, b, acts, k - 1);
      StepTells(After(s, b, acts, k - 1), b, acts[k - 1]);
    }
  }

  /** While our slot does not change, the focus is away exactly when some machine was told so, and then at that one. */
  lemma FocusFollowsTold(s: State, b: Rect, acts: seq<Act>, k: nat)
    requires k <= |acts| && Told(s.out) == None && forall i :: 0 <= i < |acts| ==> acts[i].self == s.current
    ensures var t := After(s, b, acts, k);
            t.current == match Told(t.out) case Some(d) => d case None => s.current
  {
    hide After, Told;
    FocusIsTold(s, b, acts, k);
    HomeStays(s.current, acts, k);
  }

  lemma {:induction false} HomeStays(start: uint32, acts: seq<Act>, k: nat)
    requires k <= |acts| && forall i :: 0 <= i < |acts| ==> acts[i].self == start
    ensures Home(start, acts, k) == start
  {
    if k > 0 { HomeStays(start, acts, k - 1); }
  }

  /** The event is one that is forwarded at all. */
  predicate Forwards(j: FwdJob) {
    match j.e
    case Move(_, _, _) => j.hasDelta
    case Button(flag) => ButtonToWM(flag).Some?
    case _ => true
  }

  /** The turn from s to t forwards input to a machine that was not told it has the focus. */
  ghost predicate Stray(s: State, t: State) {
    s.out <= t.out && exists o :: o in t.out[|s.out|..] && (o.SendKey? || o.SendMouse?) && Told(s.out) != Some(o.des)
  }

  /** Input strays exactly when nobody is told and our slot is no longer the one we had when the focus came home. */
  lemma StrayForward(s: State, b: Rect, acts: seq<Act>, k: nat)
    requires k < |acts| && Told(s.out) == None && acts[k].Ship?
    ensures var u := After(s, b, acts, k);
            Stray(u, After(s, b, acts, k + 1)) <==>
            Told(u.out) == None && acts[k].self != Home(s.current, acts, k) && u.fwd != [] && Forwards(u.fwd[0])
  {
    hide Told, RelativeDelta, Home;
    FocusIsTold(s, b, acts, k);
    var u, t := After(s, b, acts, k), After(s, b, acts, k + 1);
    if u.fwd != [] {
      var sent := ForwardOuts(u.fwd[0], acts[k].self, u.current);
      assert t.out == u.out + sent && t.out[|u.out|..] == sent;
      if sent != [] { assert sent[0] in sent; }
    }
  }

  /** It happens: a key pressed and shipped just after our slot went from 1 to 2 is sent to machine 1, though no switch
      packet ever was. */
  lemma RenumberedHostStrays(b: Rect, m: Matrix)
    ensures var s := State(0, 0, false, true, 1, None, [], []);
            var acts := [Capture(Key(0x41, true), 2, m), Ship(2)];
            After(s, b, acts, 2).out == [SendKey(0x41, 0, 2, 1)]
  {
    var s := State(0, 0, false, true, 1, None, [], []);
    var acts := [Capture(Key(0x41, true), 2, m), Ship(2)];
    var one := After(s, b, acts, 1);
    assert one == Step(After(s, b, acts, 0), b, acts[0]);
    assert one.fwd == [FwdJob(Key(0x41, true), 0, 0, false)] && one.fwd[1..] == [];
    assert After(s, b, acts, 2) == Step(one, b, acts[1]);
  }

  /** A completed switch releases every modifier in packets addressed to the old focus, and tells the new one. */
  lemma SwitchReleases(s: State, b: Rect, a: Act)
    requires a.Consume? && Step(s, b, a).current != s.current
    ensures var t := Step(s, b, a);
            && |t.out| >= |s.out| + 4
            && (forall vk :: vk in {0x10, 0x11, 0x12, 0x5B} ==>
                  SendKey(vk, 0x80, a.self, s.current) in t.out[|s.out|..|t.out| - 4])
            && t.out[|t.out| - 4..] == [SendNextMachine(a.self, t.current, s.pending.value.entryX, s.pending.value.entryY),
                                        SendSwitched(a.self, t.current), HideCursor, SetForwarding(true)]
  {
    hide NeighborOf, Releases;
    var t := Step(s, b, a);
    assert t.out[|s.out|..|t.out| - 4] == Releases(a.self, s.current);
    ReleasesAll(a.self, s.current);
  }

  lemma ReleasesAll(self: uint32, des: uint32)
    ensures forall vk :: vk in {0x10, 0x11, 0x12, 0x5B} ==> SendKey(vk, 0x80, self, des) in Releases(self, des)
  {
    var outs := Releases(self, des);
    assert outs[0] == SendKey(0x10, 0x80, self, des) && outs[1] == SendKey(0x11, 0x80, self, des);
    assert outs[2] == SendKey(0x12, 0x80, self, des) && outs[3] == SendKey(0x5B, 0x80, self, des);
  }

  /** While our slot does not change, a request is pending only with the focus at home. */
  lemma {:induction false} PendingMeansHome(s: State, b: Rect, acts: seq<Act>, k: nat)
    requires k <= |acts| && s.pending == None && forall i :: 0 <= i < |acts| ==> acts[i].self == s.current
    ensures var t := After(s, b, acts, k); t.pending.Some? ==> t.current == s.current
  {
    hide Step;
    if k > 0 {
      PendingMeansHome(s, b, acts, k - 1);
      StepPending(After(s, b, acts, k - 1), b, acts[k - 1]);
    }
  }

  lemma StepPending(s: State, b: Rect, a: Act)
    ensures var t := Step(s, b, a);
            t.pending.Some? ==> (s.pending.Some? && t.current == s.current) || t.current == a.self
  {
    hide NeighborOf, EntryForJump, DetectEdge, Clamp, InInset, Denormalize, Blasts;
  }

  /** So then every modifier release of every switch is addressed to ourselves. */
  lemma ReleasesGoHome(s: State, b: Rect, acts: seq<Act>, k: nat)
    requires k < |acts| && s.pending == None && acts[k].Consume? && forall i :: 0 <= i < |acts| ==> acts[i].self == s.current
    ensures var u, t := After(s, b, acts, k), After(s, b, acts, k + 1);
            u.out <= t.out && forall o :: o in t.out[|u.out|..] && o.SendKey? ==> o.des == s.current
  {
    hide Step, Explains;
    var u, t := After(s, b, acts, k), After(s, b, acts, k + 1);
    PendingMeansHome(s, b, acts, k);
    StepExplains(u, b, acts[k]);
    if u.pending == None { ConsumeNeedsPending(u, b, acts[k]); }
    forall o | o in t.out[|u.out|..] && o.SendKey? ensures o.des == s.current {
      var n :| 0 <= n < |t.out[|u.out|..]| && t.out[|u.out|..][n] == o;
      assert t.out[|u.out| + n] == o && Explains(u, acts[k], o);
      KeysGoToFocus(u, acts[k], o);
    }
  }

  lemma KeysGoToFocus(s: State, a: Act, o: Out)
    requires Explains(s, a, o) && o.SendKey?
    ensures o.des == s.current
  {
  }

  lemma ConsumeNeedsPending(s: State, b: Rect, a: Act)
    requires a.Consume? && s.pending == None
    ensures Step(s, b, a) == s
  {
  }
}
