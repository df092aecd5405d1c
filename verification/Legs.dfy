/** One sender's packets over several legs, deduplicated by one window at the receiver: each passes exactly once. */
module Legs {
  import opened Bytes
  import opened Dedups
  import opened FanOut

  // The receiving side of one sender.  All its packets draw from one counter: broadcasts, and packets for single legs
  // (presence, layout bursts, answers).  Each leg is a FIFO, up to the moment it fails; legs are read in any
  // interleaving; and all of them pass one window.

  /** `queue` holds the numbers of the packets written to the leg, of which the first `next` were delivered. */
  datatype Leg = Leg(queue: seq<nat>, next: nat, open: bool)

  /** `sent` packets were numbered so far, `casts` are the broadcasts among them; `log` is the window's history and
      `accepted` the numbers of the packets that passed it. */
  datatype Net = Net(legs: seq<Leg>, sent: nat, casts: seq<nat>, log: seq<int32>, accepted: seq<nat>)

  /** Cast is a broadcast that nothing comes between; a broadcast that runs beside others is a Draw, which takes the
      next number, and later one Put for each leg.  Post writes a packet to the given legs alone, or to none.  A leg
      that joins carries what is written from then on. */
  datatype Act = Cast | Draw | Put(k: nat, to: nat) | Post(legs: set<nat>) | Join | Fail(leg: nat) | Deliver(leg: nat)

  /** To the given legs, or to all; a leg that has failed takes nothing. */
  function Written(legs: seq<Leg>, k: nat, to: Option<set<nat>>): (r: seq<Leg>)
    ensures |r| == |legs|
  {
    seq(|legs|, i requires 0 <= i < |legs| =>
      if (to.None? || i in to.value) && legs[i].open then legs[i].(queue := legs[i].queue + [k]) else legs[i])
  }

  function Step(s: Net, start: int, a: Act): Net {
    match a
    case Cast => s.(legs := Written(s.legs, s.sent, None), sent := s.sent + 1, casts := s.casts + [s.sent])
    case Draw => s.(sent := s.sent + 1, casts := s.casts + [s.sent])
    case Put(k, l) => if k < s.sent && l < |s.legs| then s.(legs := Written(s.legs, k, Some({l}))) else s
    case Post(to) => s.(legs := Written(s.legs, s.sent, Some(to)), sent := s.sent + 1)
    case Join => s.(legs := s.legs + [Leg([], 0, true)])
    case Fail(l) => if l < |s.legs| then s.(legs := s.legs[l := s.legs[l].(open := false)]) else s
    case Deliver(l) =>
      if !Delivers(s, a) then s else
        var k := Arriving(s, a);
        var id := IdOf(start, k);
        s.(legs := s.legs[l := s.legs[l].(next := s.legs[l].next + 1)],
           log := Record(s.log, id),
           accepted := if id in Recent(s.log) then s.accepted else s.accepted + [k])
  }

  /** The step takes a packet off a leg. */
  predicate Delivers(s: Net, a: Act) {
    a.Deliver? && a.leg < |s.legs| && s.legs[a.leg].next < |s.legs[a.leg].queue|
  }

  function Arriving(s: Net, a: Act): nat
    requires Delivers(s, a)
  {
    s.legs[a.leg].queue[s.legs[a.leg].next]
  }

  function Start(legs: nat): Net {
    Net(seq(legs, _ => Leg([], 0, true)), 0, [], [], [])
  }

  /** The state after the first n turns. */
  function After(legs: nat, start: int, acts: seq<Act>, n: nat): Net
    requires n <= |acts|
  {
    if n == 0 then Start(legs) else Step(After(legs, start, acts, n - 1), start, acts[n - 1])
  }

  lemma LastTurn(legs: nat, start: int, acts: seq<Act>, n: nat)
    requires n <= |acts|
    ensures After(legs, start, acts, n) ==
            if n == 0 then Start(legs) else Step(After(legs, start, acts, n - 1), start, acts[n - 1])
  {
  }

  // Exactly once.

  /** The numbers agree modulo 2^32, so the packets carry the same id. */
  predicate SameId(i: int, j: int) {
    (i - j) % 0x1_0000_0000 == 0
  }

  /** Among the last 50 accepted packets one has k's id: k itself, or one a multiple of 2^32 away. */
  predicate InWindow(accepted: seq<nat>, k: nat) {
    exists i :: 0 <= i < |accepted| && i >= |accepted| - DEDUP_WINDOW && SameId(accepted[i], k)
  }

  /** A copy of an accepted packet arrives while its id is among the last 50 accepted, and a new packet while its id is
      not. */
  predicate Timely(s: Net, a: Act) {
    Delivers(s, a) ==> (InWindow(s.accepted, Arriving(s, a)) <==> Arriving(s, a) in s.accepted)
  }

  /** The half of it about copies. */
  predicate CopyTimely(s: Net, a: Act) {
    Delivers(s, a) && Arriving(s, a) in s.accepted ==> InWindow(s.accepted, Arriving(s, a))
  }

  /** The half of it about new packets: no id among the last 50 accepted has wrapped around to theirs. */
  predicate NewTimely(s: Net, a: Act) {
    Delivers(s, a) && Arriving(s, a) !in s.accepted ==> !InWindow(s.accepted, Arriving(s, a))
  }

  /** A late copy has fewer than 50 acceptances after its own. */
  predicate NotTooLate(s: Net, a: Act) {
    Delivers(s, a) && Arriving(s, a) in s.accepted ==>
      exists i :: 0 <= i < |s.accepted| && i >= |s.accepted| - DEDUP_WINDOW && s.accepted[i] == Arriving(s, a)
  }

  ghost predicate TimelyUpTo(legs: nat, start: int, acts: seq<Act>, n: nat)
    requires n <= |acts|
  {
    forall i :: 0 <= i < n ==> Timely(After(legs, start, acts, i), acts[i])
  }

  ghost predicate AllTimely(legs: nat, start: int, acts: seq<Act>) {
    TimelyUpTo(legs, start, acts, |acts|)
  }

  lemma NothingTimely(legs: nat, start: int, acts: seq<Act>)
    ensures TimelyUpTo(legs, start, acts, 0)
  {
  }

  lemma TimelyLast(legs: nat, start: int, acts: seq<Act>, n: nat)
    requires 0 < n <= |acts|
    ensures TimelyUpTo(legs, start, acts, n) <==>
            TimelyUpTo(legs, start, acts, n - 1) && Timely(After(legs, start, acts, n - 1), acts[n - 1])
  {
    hide After, Timely;
  }

  /** Every packet delivered so far was accepted, exactly once. */
  ghost predicate Once(s: Net) {
    && (forall i, j :: 0 <= i < j < |s.accepted| ==> s.accepted[i] != s.accepted[j])
    && (forall l, i :: 0 <= l < |s.legs| && 0 <= i < s.legs[l].next && i < |s.legs[l].queue| ==> s.legs[l].queue[i] in s.accepted)
  }

  ghost predicate AlwaysOnce(legs: nat, start: int, acts: seq<Act>) {
    forall n: nat :: n <= |acts| ==> Once(After(legs, start, acts, n))
  }

  function Ids(start: int, ks: seq<nat>): seq<int32> {
    seq(|ks|, i requires 0 <= i < |ks| => IdOf(start, ks[i]))
  }

  /** The window's history is that of the accepted packets, and no leg has delivered more than it was given. */
  ghost predicate Sound(s: Net, start: int) {
    s.log == Ids(start, s.accepted) && forall l :: 0 <= l < |s.legs| ==> s.legs[l].next <= |s.legs[l].queue|
  }

  /** The window answers by the numbers: it refuses a packet exactly when its id is among the last 50 accepted. */
  lemma WindowDecides(s: Net, start: int, k: nat)
    requires Sound(s, start)
    ensures IdOf(start, k) in Recent(s.log) <==> InWindow(s.accepted, k)
  {
    hide IdOf;
    var r, n := Recent(s.log), |s.accepted|;
    assert forall d :: 0 <= d < |r| ==> r[d] == IdOf(start, s.accepted[n - |r| + d]);
    if IdOf(start, k) in r {
      var d :| 0 <= d < |r| && r[d] == IdOf(start, k);
      IdsCollide(start, s.accepted[n - |r| + d], k);
    }
    if InWindow(s.accepted, k) {
      var i :| 0 <= i < n && i >= n - DEDUP_WINDOW && SameId(s.accepted[i], k);
      IdsCollide(start, s.accepted[i], k);
      assert r[i - (n - |r|)] == IdOf(start, k);
    }
  }

  lemma StepSound(s: Net, start: int, a: Act)
    requires Sound(s, start)
    ensures Sound(Step(s, start, a), start)
  {
    hide IdOf, Recent;
    if Delivers(s, a) {
      assert Ids(start, s.accepted + [Arriving(s, a)]) == Ids(start, s.accepted) + [IdOf(start, Arriving(s, a))];
    }
  }

  lemma {:induction false} RunsAreSound(legs: nat, start: int, acts: seq<Act>, n: nat)
    requires n <= |acts|
    ensures Sound(After(legs, start, acts, n), start)
  {
    hide *;
    LastTurn(legs, start, acts, n);
    if n == 0 {
      StartIsSound(legs, start);
    } else {
      RunsAreSound(legs, start, acts, n - 1);
      StepSound(After(legs, start, acts, n - 1), start, acts[n - 1]);
    }
  }

  lemma StartIsSound(legs: nat, start: int)
    ensures Sound(Start(legs), start) && Once(Start(legs))
  {
  }

  /** From a state where all is well, one step keeps it so exactly when it is timely. */
  lemma StepOnce(s: Net, start: int, a: Act)
    requires Sound(s, start) && Once(s)
    ensures Once(Step(s, start, a)) <==> Timely(s, a)
  {
    hide IdOf, Recent, InWindow;
    if Delivers(s, a) {
      WindowDecides(s, start, Arriving(s, a));
      DeliveryOnce(s, start, a);
    }
  }

  lemma DeliveryOnce(s: Net, start: int, a: Act)
    requires Sound(s, start) && Once(s) && Delivers(s, a)
    requires IdOf(start, Arriving(s, a)) in Recent(s.log) <==> InWindow(s.accepted, Arriving(s, a))
    ensures Once(Step(s, start, a)) <==> Timely(s, a)
  {
    hide IdOf, Recent, InWindow;
    var k, t, l := Arriving(s, a), Step(s, start, a), a.leg;
    assert t.legs[l].queue[s.legs[l].next] == k;
    if k in s.accepted && !InWindow(s.accepted, k) {
      var i :| 0 <= i < |s.accepted| && s.accepted[i] == k;
      assert t.accepted[i] == t.accepted[|s.accepted|];
    }
  }

  lemma {:induction false} OnceUpTo(legs: nat, start: int, acts: seq<Act>, n: nat)
    requires n <= |acts| && TimelyUpTo(legs, start, acts, n)
    ensures Once(After(legs, start, acts, n))
  {
    hide *;
    LastTurn(legs, start, acts, n);
    if n == 0 {
      StartIsSound(legs, start);
    } else {
      TimelyLast(legs, start, acts, n);
      OnceUpTo(legs, start, acts, n - 1);
      RunsAreSound(legs, start, acts, n - 1);
      StepOnce(After(legs, start, acts, n - 1), start, acts[n - 1]);
    }
  }

  /** In every run, with any mixture of broadcasts and packets for single legs, and legs that join and fail: at every
      moment each packet delivered so far has been accepted exactly once, if and only if every arrival is timely. */
  lemma ExactlyOnce(legs: nat, start: int, acts: seq<Act>)
    ensures AlwaysOnce(legs, start, acts) <==> AllTimely(legs, start, acts)
  {
    hide Step, Once, Timely, Sound;
    if AllTimely(legs, start, acts) {
      forall n: nat | n <= |acts| ensures Once(After(legs, start, acts, n)) {
        assert TimelyUpTo(legs, start, acts, n);
        OnceUpTo(legs, start, acts, n);
      }
    }
    if AlwaysOnce(legs, start, acts) {
      forall i | 0 <= i < |acts| ensures Timely(After(legs, start, acts, i), acts[i]) {
        RunsAreSound(legs, start, acts, i);
        assert Once(After(legs, start, acts, i)) && Once(After(legs, start, acts, i + 1));
        StepOnce(After(legs, start, acts, i), start, acts[i]);
      }
    }
  }

  /** The last 50 accepted numbers lie within 2^32 of the arriving one. */
  predicate Spanned(s: Net, a: Act) {
    Delivers(s, a) ==>
      forall i :: 0 <= i < |s.accepted| && i >= |s.accepted| - DEDUP_WINDOW ==> Near(s.accepted[i], Arriving(s, a))
  }

  predicate Near(j: int, k: int) {
    -0x1_0000_0000 < j - k < 0x1_0000_0000
  }

  lemma NearIds(j: int, k: int)
    ensures SameId(j, k) && Near(j, k) <==> j == k
  {
  }

  /** Across any number of wraps: while the window spans less than 2^32 numbers, timely is just that no copy is too
      late. */
  lemma SpannedTimely(s: Net, a: Act)
    requires Spanned(s, a)
    ensures Timely(s, a) <==> NotTooLate(s, a)
  {
    hide SameId, Near;
    if Delivers(s, a) {
      var k := Arriving(s, a);
      forall j: nat ensures SameId(j, k) && Near(j, k) <==> j == k { NearIds(j, k); }
      assert forall i :: 0 <= i < |s.accepted| ==> s.accepted[i] in s.accepted;
    }
  }

  /** Hence, in runs whose window never spans 2^32 numbers: all is well at every moment if and only if no copy arrives too
      late. */
  lemma ExactlyOnceUnlessLate(legs: nat, start: int, acts: seq<Act>)
    requires forall i :: 0 <= i < |acts| ==> Spanned(After(legs, start, acts, i), acts[i])
    ensures AlwaysOnce(legs, start, acts) <==> forall i :: 0 <= i < |acts| ==> NotTooLate(After(legs, start, acts, i), acts[i])
  {
    hide After, Timely, NotTooLate, Spanned, AlwaysOnce;
    ExactlyOnce(legs, start, acts);
    forall i | 0 <= i < |acts|
      ensures Timely(After(legs, start, acts, i), acts[i]) <==> NotTooLate(After(legs, start, acts, i), acts[i])
    {
      SpannedTimely(After(legs, start, acts, i), acts[i]);
    }
  }

  // In order.

  /** Broadcasts reach every leg that is open: a leg carries each up to some point, and its queue is in sending order. */
  ghost predicate Carried(s: Net) {
    && (forall c :: c in s.casts ==> c < s.sent)
    && (forall l, i :: 0 <= l < |s.legs| && 0 <= i < |s.legs[l].queue| ==> s.legs[l].queue[i] < s.sent)
    && (forall l, i, j :: 0 <= l < |s.legs| && 0 <= i < j < |s.legs[l].queue| ==> s.legs[l].queue[i] < s.legs[l].queue[j])
    && (forall l, c :: 0 <= l < |s.legs| && s.legs[l].open && c in s.casts ==> c in s.legs[l].queue)
    && (forall l, c, d :: 0 <= l < |s.legs| && c in s.casts && d in s.casts && c < d && d in s.legs[l].queue ==>
          c in s.legs[l].queue)
  }

  /** The broadcasts among the accepted packets are in sending order, without a gap. */
  ghost predicate CastsInOrder(s: Net) {
    && (forall i, j :: 0 <= i < j < |s.accepted| && s.accepted[i] in s.casts && s.accepted[j] in s.casts ==>
          s.accepted[i] < s.accepted[j])
    && (forall c, d :: c in s.casts && d in s.casts && c < d && d in s.accepted ==> c in s.accepted)
  }

  /** No leg joins, and no two broadcasts run side by side. */
  predicate InTurn(a: Act) {
    !a.Join? && !a.Draw? && !a.Put?
  }

  lemma StepCarries(s: Net, start: int, a: Act)
    requires Carried(s) && InTurn(a)
    ensures Carried(Step(s, start, a))
  {
    hide IdOf, Recent;
    if a.Cast? || a.Post? {
      WrittenCarries(s, if a.Cast? then None else Some(a.legs), a.Cast?);
    }
  }

  lemma WrittenCarries(s: Net, to: Option<set<nat>>, cast: bool)
    requires Carried(s) && (cast ==> to == None)
    ensures Carried(s.(legs := Written(s.legs, s.sent, to), sent := s.sent + 1,
                       casts := if cast then s.casts + [s.sent] else s.casts))
  {
    var legs := Written(s.legs, s.sent, to);
    forall l | 0 <= l < |legs| && (to.None? || l in to.value) && legs[l].open ensures s.sent in legs[l].queue {
      assert legs[l].queue[|s.legs[l].queue|] == s.sent;
    }
    KeepsCarried(s, legs, cast);
  }

  lemma KeepsCarried(s: Net, legs: seq<Leg>, cast: bool)
    requires Carried(s) && |legs| == |s.legs|
    requires forall l :: 0 <= l < |legs| ==>
               && legs[l].open == s.legs[l].open
               && (legs[l].queue == s.legs[l].queue || (legs[l].open && legs[l].queue == s.legs[l].queue + [s.sent]))
               && (cast && legs[l].open ==> s.sent in legs[l].queue)
    ensures Carried(s.(legs := legs, sent := s.sent + 1, casts := if cast then s.casts + [s.sent] else s.casts))
  {
    assert forall l, k :: 0 <= l < |legs| && k in legs[l].queue ==> k in s.legs[l].queue || k == s.sent;
    assert forall l, k :: 0 <= l < |legs| && k in s.legs[l].queue ==> k in legs[l].queue;
  }

  lemma StepOrders(s: Net, start: int, a: Act)
    requires Sound(s, start) && Once(s) && Carried(s) && CastsInOrder(s) && Timely(s, a) && InTurn(a)
    requires forall k :: k in s.accepted ==> k < s.sent
    ensures CastsInOrder(Step(s, start, a)) && forall k :: k in Step(s, start, a).accepted ==> k < Step(s, start, a).sent
  {
    hide IdOf, Recent, InWindow, Timely, CastsInOrder, Sound, Once, Carried;
    var t := Step(s, start, a);
    if Delivers(s, a) {
      DeliveryOrders(s, start, a);
    } else if a.Cast? {
      NewCast(s, t);
    } else {
      SameCasts(s, t);
    }
  }

  lemma NewCast(s: Net, t: Net)
    requires CastsInOrder(s) && t.accepted == s.accepted && t.casts == s.casts + [s.sent]
    requires forall k :: k in s.accepted ==> k < s.sent
    ensures CastsInOrder(t)
  {
    assert forall i :: 0 <= i < |s.accepted| ==> s.accepted[i] in s.accepted;
  }

  lemma SameCasts(s: Net, t: Net)
    requires CastsInOrder(s) && t.accepted == s.accepted && t.casts == s.casts
    ensures CastsInOrder(t)
  {
  }

  lemma DeliveryOrders(s: Net, start: int, a: Act)
    requires Sound(s, start) && Once(s) && Carried(s) && CastsInOrder(s) && Delivers(s, a) && Timely(s, a)
    requires forall k :: k in s.accepted ==> k < s.sent
    ensures CastsInOrder(Step(s, start, a)) && forall k :: k in Step(s, start, a).accepted ==> k < s.sent
  {
    hide IdOf, Recent, InWindow, Sound;
    var t, k, queue := Step(s, start, a), Arriving(s, a), s.legs[a.leg].queue;
    WindowDecides(s, start, k);
    if k in s.accepted {
      SameCasts(s, t);
    } else {
      forall c | c in s.casts && c < k && k in s.casts ensures c in s.accepted {
        assert c in queue;
        var i :| 0 <= i < |queue| && queue[i] == c;
        assert i < s.legs[a.leg].next;
      }
      NewAccepted(s, t, k);
    }
  }

  lemma NewAccepted(s: Net, t: Net, k: nat)
    requires CastsInOrder(s) && k !in s.accepted && t.accepted == s.accepted + [k] && t.casts == s.casts
    requires forall c :: c in s.casts && c < k && k in s.casts ==> c in s.accepted
    ensures CastsInOrder(t)
  {
    assert forall i :: 0 <= i < |s.accepted| ==> s.accepted[i] in s.accepted;
  }

  ghost predicate AllInTurn(acts: seq<Act>) {
    forall i :: 0 <= i < |acts| ==> InTurn(acts[i])
  }

  lemma {:induction false} RunsAreOrdered(legs: nat, start: int, acts: seq<Act>, n: nat)
    requires n <= |acts| && AllInTurn(acts) && TimelyUpTo(legs, start, acts, n)
    ensures var s := After(legs, start, acts, n);
            Carried(s) && CastsInOrder(s) && forall k :: k in s.accepted ==> k < s.sent
  {
    hide After, Step, Timely, TimelyUpTo, Sound, Carried, CastsInOrder, Once;
    LastTurn(legs, start, acts, n);
    if n == 0 {
      StartIsOrdered(legs);
    } else {
      TimelyLast(legs, start, acts, n);
      var s := After(legs, start, acts, n - 1);
      RunsAreOrdered(legs, start, acts, n - 1);
      RunsAreSound(legs, start, acts, n - 1);
      OnceUpTo(legs, start, acts, n - 1);
      StepCarries(s, start, acts[n - 1]);
      StepOrders(s, start, acts[n - 1]);
    }
  }

  lemma StartIsOrdered(legs: nat)
    ensures var s := Start(legs); Carried(s) && CastsInOrder(s) && s.accepted == []
  {
  }

  /** What came of a run: the packets delivered passed exactly once, broadcasts in sending order and without a gap; and
      once a leg that never failed has drained, no broadcast is missing. */
  ghost predicate Delivered(s: Net) {
    && Once(s) && CastsInOrder(s)
    && ((exists l :: 0 <= l < |s.legs| && s.legs[l].open && s.legs[l].next == |s.legs[l].queue|)
        ==> forall c :: c in s.casts ==> c in s.accepted)
  }

  /** So it is, whatever else goes on between broadcasts, when all legs are there from the start, broadcasts do not run
      side by side, no copy arrives too late, and the window never spans 2^32 numbers. */
  lemma ExactlyOnceInOrder(legs: nat, start: int, acts: seq<Act>)
    requires AllInTurn(acts)
    requires forall i :: 0 <= i < |acts| ==>
               var s := After(legs, start, acts, i); NotTooLate(s, acts[i]) && Spanned(s, acts[i])
    ensures Delivered(After(legs, start, acts, |acts|))
  {
    hide After, Timely, NotTooLate, Spanned, CastsInOrder;
    forall i | 0 <= i < |acts| ensures Timely(After(legs, start, acts, i), acts[i]) {
      SpannedTimely(After(legs, start, acts, i), acts[i]);
    }
    TimelyDelivered(legs, start, acts);
  }

  lemma TimelyDelivered(legs: nat, start: int, acts: seq<Act>)
    requires AllInTurn(acts) && AllTimely(legs, start, acts)
    ensures Delivered(After(legs, start, acts, |acts|))
  {
    hide After, Timely, CastsInOrder;
    RunsAreOrdered(legs, start, acts, |acts|);
    OnceUpTo(legs, start, acts, |acts|);
  }

  // Broadcasts alone.

  function Iota(n: nat): seq<nat> {
    seq(n, i => i)
  }

  lemma InIota(n: nat)
    ensures forall k: nat :: k in Iota(n) <==> k < n
  {
    forall k: nat | k < n ensures k in Iota(n) { assert Iota(n)[k] == k; }
  }

  ghost predicate CastsAlone(acts: seq<Act>) {
    forall i :: 0 <= i < |acts| ==> InTurn(acts[i]) && !acts[i].Post?
  }

  /** Every packet is a broadcast. */
  ghost predicate AllCast(s: Net) {
    s.casts == Iota(s.sent)
  }

  lemma StartAllCast(legs: nat)
    ensures AllCast(Start(legs))
  {
  }

  lemma StepAllCast(s: Net, start: int, a: Act)
    requires AllCast(s) && InTurn(a) && !a.Post?
    ensures AllCast(Step(s, start, a))
  {
    hide IdOf, Recent, Written;
    assert Iota(s.sent) + [s.sent] == Iota(s.sent + 1);
  }

  lemma {:induction false} RunsAllCast(legs: nat, start: int, acts: seq<Act>, n: nat)
    requires n <= |acts| && CastsAlone(acts)
    ensures AllCast(After(legs, start, acts, n))
  {
    hide After, Step, AllCast;
    LastTurn(legs, start, acts, n);
    if n == 0 {
      StartAllCast(legs);
    } else {
      RunsAllCast(legs, start, acts, n - 1);
      StepAllCast(After(legs, start, acts, n - 1), start, acts[n - 1]);
    }
  }

  /** The packets let through so far are 0, 1, 2, ... */
  predicate Straight(s: Net) {
    s.accepted == Iota(|s.accepted|)
  }

  /** In order and without a gap, they are 0, 1, 2, ... */
  lemma OrderedIsStraight(s: Net)
    requires AllCast(s) && CastsInOrder(s) && forall k :: k in s.accepted ==> k < s.sent
    ensures Straight(s)
  {
    forall i | 0 <= i < |s.accepted| ensures s.accepted[i] == i { IthIsI(s, i); }
  }

  lemma {:induction false} IthIsI(s: Net, i: nat)
    requires AllCast(s) && CastsInOrder(s) && i < |s.accepted| && forall k :: k in s.accepted ==> k < s.sent
    ensures s.accepted[i] == i
  {
    InIota(s.sent);
    if i > 0 { IthIsI(s, i - 1); }
    SmallestIn(s, i);
    var p :| 0 <= p < |s.accepted| && s.accepted[p] == i;
    assert s.accepted[p] in s.casts && s.accepted[i] in s.casts && p >= i && p <= i;
  }

  lemma SmallestIn(s: Net, i: nat)
    requires AllCast(s) && CastsInOrder(s) && i < |s.accepted| && forall k :: k in s.accepted ==> k < s.sent
    requires i > 0 ==> s.accepted[i - 1] == i - 1
    ensures s.accepted[i] >= i && i in s.accepted
    ensures forall p :: 0 <= p < |s.accepted| ==> s.accepted[p] in s.casts
  {
    InIota(s.sent);
    forall p | 0 <= p < |s.accepted| ensures s.accepted[p] in s.casts { assert s.accepted[p] in s.accepted; }
    assert s.accepted[i] in s.accepted;
    assert i in s.casts;
  }

  /** All broadcasts before an arriving one have been accepted. */
  lemma EarlierAccepted(s: Net, a: Act)
    requires Once(s) && Carried(s) && AllCast(s) && Delivers(s, a)
    ensures forall c: nat :: c < Arriving(s, a) ==> c in s.accepted
  {
    var k, queue, next := Arriving(s, a), s.legs[a.leg].queue, s.legs[a.leg].next;
    InIota(s.sent);
    assert queue[next] == k && k in queue && k in s.casts;
    forall c: nat | c < k ensures c in s.accepted {
      assert c in s.casts && c in queue;
      var i :| 0 <= i < |queue| && queue[i] == c;
      assert i < next;
    }
  }

  /** An untimely arrival spoils 0, 1, 2, ... */
  lemma UntimelySpoils(s: Net, start: int, a: Act)
    requires Sound(s, start) && Once(s) && Carried(s) && AllCast(s) && Straight(s) && !Timely(s, a)
    ensures !Straight(Step(s, start, a))
  {
    hide IdOf, Recent, Once, Carried, AllCast;
    var k, hi := Arriving(s, a), |s.accepted|;
    WindowDecides(s, start, k);
    EarlierAccepted(s, a);
    InIota(hi);
    assert hi !in s.accepted && k <= hi;
    if k in s.accepted {
      assert Step(s, start, a).accepted[hi] == k < hi;
    }
  }

  lemma StraightBefore(s: Net, start: int, a: Act)
    requires Straight(Step(s, start, a))
    ensures Straight(s)
  {
    hide IdOf, Recent;
    var t := Step(s, start, a).accepted;
    assert s.accepted <= t;
    forall i | 0 <= i < |s.accepted| ensures s.accepted[i] == i { assert t[i] == i; }
  }

  /** If the first n turns keep to 0, 1, 2, ... and all but the last were timely, so was the last. */
  lemma LastIsTimely(legs: nat, start: int, acts: seq<Act>, n: nat)
    requires 0 < n <= |acts| && CastsAlone(acts)
    requires Straight(After(legs, start, acts, n - 1)) && Straight(After(legs, start, acts, n))
    requires TimelyUpTo(legs, start, acts, n - 1)
    ensures Timely(After(legs, start, acts, n - 1), acts[n - 1])
  {
    hide After, Step, Timely, TimelyUpTo, Sound, Once, Carried, CastsInOrder, AllCast, Straight;
    var s := After(legs, start, acts, n - 1);
    LastTurn(legs, start, acts, n);
    RunsAreSound(legs, start, acts, n - 1);
    OnceUpTo(legs, start, acts, n - 1);
    RunsAreOrdered(legs, start, acts, n - 1);
    RunsAllCast(legs, start, acts, n - 1);
    if !Timely(s, acts[n - 1]) { UntimelySpoils(s, start, acts[n - 1]); }
  }

  lemma {:induction false} StraightIsTimely(legs: nat, start: int, acts: seq<Act>, n: nat)
    requires n <= |acts| && CastsAlone(acts)
    requires Straight(After(legs, start, acts, n))
    ensures TimelyUpTo(legs, start, acts, n)
  {
    hide *;
    if n == 0 {
      NothingTimely(legs, start, acts);
    } else {
      LastTurn(legs, start, acts, n);
      StraightBefore(After(legs, start, acts, n - 1), start, acts[n - 1]);
      StraightIsTimely(legs, start, acts, n - 1);
      LastIsTimely(legs, start, acts, n);
      TimelyLast(legs, start, acts, n);
    }
  }

  /** A new broadcast is never taken for an old one: whatever its number, the window holds the 50 just before it. */
  lemma NewBroadcastTimely(s: Net, a: Act)
    requires Once(s) && Carried(s) && AllCast(s) && Straight(s)
    ensures NewTimely(s, a)
  {
    hide Once, Carried, AllCast;
    if Delivers(s, a) && Arriving(s, a) !in s.accepted {
      EarlierAccepted(s, a);
      InIota(|s.accepted|);
      assert |s.accepted| !in s.accepted && Arriving(s, a) == |s.accepted|;
    }
  }

  /** So with broadcasts alone it is enough that copies are timely. */
  lemma {:induction false} CopiesSuffice(legs: nat, start: int, acts: seq<Act>, n: nat)
    requires n <= |acts| && CastsAlone(acts)
    requires forall i :: 0 <= i < n ==> CopyTimely(After(legs, start, acts, i), acts[i])
    ensures TimelyUpTo(legs, start, acts, n)
  {
    hide *;
    if n == 0 {
      NothingTimely(legs, start, acts);
    } else {
      CopiesSuffice(legs, start, acts, n - 1);
      NextTimely(legs, start, acts, n - 1);
      TimelyLast(legs, start, acts, n);
    }
  }

  lemma NextTimely(legs: nat, start: int, acts: seq<Act>, n: nat)
    requires n < |acts| && CastsAlone(acts) && CopyTimely(After(legs, start, acts, n), acts[n])
    requires TimelyUpTo(legs, start, acts, n)
    ensures Timely(After(legs, start, acts, n), acts[n])
  {
    hide After, TimelyUpTo, Once, Carried, CastsInOrder, AllCast, Straight, InWindow;
    var s := After(legs, start, acts, n);
    OnceUpTo(legs, start, acts, n);
    RunsAreOrdered(legs, start, acts, n);
    RunsAllCast(legs, start, acts, n);
    OrderedIsStraight(s);
    NewBroadcastTimely(s, acts[n]);
  }

  lemma {:induction false} TimelyIsStraight(legs: nat, start: int, acts: seq<Act>)
    requires CastsAlone(acts) && AllTimely(legs, start, acts)
    ensures Straight(After(legs, start, acts, |acts|))
  {
    hide After, Timely, CastsInOrder, AllCast, Carried, Straight;
    RunsAreOrdered(legs, start, acts, |acts|);
    RunsAllCast(legs, start, acts, |acts|);
    OrderedIsStraight(After(legs, start, acts, |acts|));
  }

  /** With broadcasts alone, at any count and across any number of wraps: the packets let through are 0, 1, 2, ... if and
      only if each copy arrives while its id is among the last 50 accepted. */
  lemma CastsAloneExact(legs: nat, start: int, acts: seq<Act>)
    requires CastsAlone(acts)
    ensures Straight(After(legs, start, acts, |acts|)) <==>
            forall i :: 0 <= i < |acts| ==> CopyTimely(After(legs, start, acts, i), acts[i])
  {
    hide After, Straight, InWindow;
    if Straight(After(legs, start, acts, |acts|)) {
      StraightIsTimely(legs, start, acts, |acts|);
    }
    if forall i :: 0 <= i < |acts| ==> CopyTimely(After(legs, start, acts, i), acts[i]) {
      CopiesSuffice(legs, start, acts, |acts|);
      TimelyIsStraight(legs, start, acts);
    }
  }

  lemma NotTooLateIsTimely(s: Net, a: Act)
    requires NotTooLate(s, a)
    ensures CopyTimely(s, a)
  {
  }

  /** In particular, if no copy arrives after 50 newer acceptances, broadcasts pass exactly once and in sending order, for
      any number of them; and once a leg that never failed has drained, all have passed. */
  lemma BroadcastsSurvive(legs: nat, start: int, acts: seq<Act>)
    requires CastsAlone(acts) && forall i :: 0 <= i < |acts| ==> NotTooLate(After(legs, start, acts, i), acts[i])
    ensures var s := After(legs, start, acts, |acts|);
            && Straight(s) && Once(s)
            && ((exists l :: 0 <= l < |s.legs| && s.legs[l].open && s.legs[l].next == |s.legs[l].queue|)
                ==> s.accepted == Iota(s.sent))
  {
    hide After, Timely, CopyTimely, NotTooLate, CastsInOrder, Carried, Once;
    forall i | 0 <= i < |acts| ensures CopyTimely(After(legs, start, acts, i), acts[i]) {
      NotTooLateIsTimely(After(legs, start, acts, i), acts[i]);
    }
    CopiesSuffice(legs, start, acts, |acts|);
    TimelyIsStraight(legs, start, acts);
    TimelyDelivered(legs, start, acts);
    RunsAreOrdered(legs, start, acts, |acts|);
    RunsAllCast(legs, start, acts, |acts|);
    AllThere(After(legs, start, acts, |acts|));
  }

  lemma AllThere(s: Net)
    requires AllCast(s) && Straight(s) && forall k :: k in s.accepted ==> k < s.sent
    ensures (forall c :: c in s.casts ==> c in s.accepted) ==> s.accepted == Iota(s.sent)
  {
    InIota(s.sent);
    InIota(|s.accepted|);
    if forall c :: c in s.casts ==> c in s.accepted {
      assert |s.accepted| !in s.accepted;
      assert s.sent !in s.accepted;
    }
  }
}
