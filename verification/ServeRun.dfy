/** What reaches the handler: every packet that the window accepts, in order, each once. */
module ServeRuns {
  import opened Bytes
  import opened Packets
  import opened Framing
  import opened Dedups
  import opened FanOut
  import opened Servers
  import Legs

  // One stream of packets.

  function IdsOf(ps: seq<Packet>): seq<int32> {
    seq(|ps|, i requires 0 <= i < |ps| => ps[i].id)
  }

  /** The packets of ps that are not copies of one of the last 50 accepted. */
  function Passed(log: seq<int32>, ps: seq<Packet>): seq<Packet>
    decreases |ps|
  {
    if ps == [] then []
    else if ps[0].id in Recent(log) then Passed(log, ps[1..])
    else [ps[0]] + Passed(log + [ps[0].id], ps[1..])
  }

  lemma PassedFirst(log: seq<int32>, ps: seq<Packet>)
    requires ps != []
    ensures Passed(log, ps) ==
            if ps[0].id in Recent(log) then Passed(log, ps[1..]) else [ps[0]] + Passed(log + [ps[0].id], ps[1..])
    ensures log + IdsOf(Passed(log, ps)) ==
            if ps[0].id in Recent(log) then log + IdsOf(Passed(log, ps[1..]))
            else log + [ps[0].id] + IdsOf(Passed(log + [ps[0].id], ps[1..]))
  {
    hide Recent, IdsOf;
    IdsCons(log, ps[0], Passed(log + [ps[0].id], ps[1..]));
  }

  lemma IdsCons(log: seq<int32>, p: Packet, rest: seq<Packet>)
    ensures log + IdsOf([p] + rest) == log + [p.id] + IdsOf(rest)
  {
    assert IdsOf([p] + rest) == [p.id] + IdsOf(rest);
  }

  /** Up to a packet that closes the leg, the handler gets exactly the packets that pass, in order, each once, and the
      window remembers exactly those. */
  lemma {:induction false} ServesWhatPasses(who: Identity, n: Node, log: seq<int32>, ps: seq<Packet>)
    requires forall p :: p in ps ==> !Closes(p)
    ensures ServeAll(who, n, log, ps) == (HandledAll(who, n, Passed(log, ps)), log + IdsOf(Passed(log, ps)))
    decreases |ps|
  {
    hide Handled, Closes, Recent, IdsOf;
    if ps == [] {
      NonePass(log);
    } else {
      var p, rest := ps[0], Passed(log + [ps[0].id], ps[1..]);
      PassedFirst(log, ps);
      ServesWhatPasses(who, n, log, ps[1..]);
      ServesWhatPasses(who, Handled(who, n, p), log + [p.id], ps[1..]);
      assert ([p] + rest)[1..] == rest;
    }
  }

  lemma NonePass(log: seq<int32>)
    ensures log + IdsOf([]) == log
  {
  }

  /** A copy of one of the last 50 accepted, wherever it comes, changes neither layout, pool, callbacks, replies nor the
      window. */
  lemma {:induction false} CopySkipped(who: Identity, n: Node, log: seq<int32>, before: seq<Packet>, p: Packet,
                                       after: seq<Packet>)
    requires forall q :: q in before ==> !Closes(q)
    requires p.id in Recent(log + IdsOf(Passed(log, before)))
    ensures ServeAll(who, n, log, before + [p] + after) == ServeAll(who, n, log, before + after)
    decreases |before|
  {
    hide Handled, Closes, Recent, IdsOf, Passed;
    if before == [] {
      SkippedFirst(who, n, log, p, after);
      assert before + [p] + after == [p] + after && before + after == after;
    } else {
      var q, more := before[0], before[1..];
      PassedFirst(log, before);
      assert before + [p] + after == [q] + (more + [p] + after) && before + after == [q] + (more + after);
      assert ([q] + (more + [p] + after))[1..] == more + [p] + after && ([q] + (more + after))[1..] == more + after;
      if q.id in Recent(log) {
        CopySkipped(who, n, log, more, p, after);
      } else {
        CopySkipped(who, Handled(who, n, q), log + [q.id], more, p, after);
      }
    }
  }

  lemma SkippedFirst(who: Identity, n: Node, log: seq<int32>, p: Packet, after: seq<Packet>)
    requires p.id in Recent(log + IdsOf(Passed(log, [])))
    ensures ServeAll(who, n, log, [p] + after) == ServeAll(who, n, log, after)
  {
    hide Handled, Closes, Recent;
    NonePass(log);
    assert ([p] + after)[1..] == after;
  }

  /** Nothing after an accepted packet that closes the leg is handled, or remembered. */
  lemma {:induction false} NothingAfterClose(who: Identity, n: Node, log: seq<int32>, before: seq<Packet>, p: Packet,
                                             after: seq<Packet>)
    requires forall q :: q in before ==> !Closes(q)
    requires Closes(p) && p.id !in Recent(log + IdsOf(Passed(log, before)))
    ensures ServeAll(who, n, log, before + [p] + after) == ServeAll(who, n, log, before + [p])
    decreases |before|
  {
    hide Handled, Closes, Recent, IdsOf, Passed;
    if before == [] {
      PassedNone(log);
      assert before + [p] + after == [p] + after && before + [p] == [p];
      assert ([p] + after)[0] == p;
    } else {
      var q, more := before[0], before[1..];
      PassedFirst(log, before);
      assert before + [p] + after == [q] + (more + [p] + after) && before + [p] == [q] + (more + [p]);
      assert ([q] + (more + [p] + after))[1..] == more + [p] + after && ([q] + (more + [p]))[1..] == more + [p];
      if q.id in Recent(log) {
        NothingAfterClose(who, n, log, more, p, after);
      } else {
        NothingAfterClose(who, Handled(who, n, q), log + [q.id], more, p, after);
      }
    }
  }

  lemma PassedNone(log: seq<int32>)
    ensures log + IdsOf(Passed(log, [])) == log
  {
  }

  /** One packet more. */
  lemma {:induction false} PassedLast(log: seq<int32>, ps: seq<Packet>, p: Packet)
    ensures Passed(log, ps + [p]) == Passed(log, ps) + if p.id in Recent(log + IdsOf(Passed(log, ps))) then [] else [p]
    decreases |ps|
  {
    hide Recent, IdsOf, Passed;
    if ps == [] {
      PassedNone(log);
      PassedFirst(log, [p]);
      assert ps + [p] == [p] && [p][1..] == [];
      PassedEmpty(log);
      PassedEmpty(log + [p.id]);
    } else {
      var q := ps[0];
      PassedFirst(log, ps);
      PassedFirst(log, ps + [p]);
      assert (ps + [p])[1..] == ps[1..] + [p];
      PassedLast(log, ps[1..], p);
      PassedLast(log + [q.id], ps[1..], p);
    }
  }

  lemma PassedEmpty(log: seq<int32>)
    ensures Passed(log, []) == []
  {
  }

  // Several legs before one window.

  /** The numbers of the packets delivered in the first n turns, copies included, in the order of delivery. */
  function Arrivals(legs: nat, start: int, acts: seq<Legs.Act>, n: nat): seq<nat>
    requires n <= |acts|
  {
    if n == 0 then [] else
      var s := Legs.After(legs, start, acts, n - 1);
      Arrivals(legs, start, acts, n - 1) + if Legs.Delivers(s, acts[n - 1]) then [Legs.Arriving(s, acts[n - 1])] else []
  }

  function Contents(sent: nat -> Packet, ks: seq<nat>): seq<Packet> {
    seq(|ks|, i requires 0 <= i < |ks| => sent(ks[i]))
  }

  ghost predicate Numbered(sent: nat -> Packet, start: int) {
    forall k: nat :: sent(k).id == IdOf(start, k)
  }

  lemma OneMoreContent(sent: nat -> Packet, start: int, ks: seq<nat>, k: nat)
    requires Numbered(sent, start)
    ensures Contents(sent, ks + [k]) == Contents(sent, ks) + [sent(k)]
    ensures IdsOf(Contents(sent, ks)) == Legs.Ids(start, ks)
  {
    hide IdOf;
  }

  lemma NoLog(log: seq<int32>)
    ensures [] + log == log
  {
  }

  /** What passes the window of the packets as they arrive is what the legs' run accepts. */
  lemma {:induction false} WindowsAgree(legs: nat, start: int, acts: seq<Legs.Act>, n: nat, sent: nat -> Packet)
    requires n <= |acts| && Numbered(sent, start)
    ensures Passed([], Contents(sent, Arrivals(legs, start, acts, n))) ==
            Contents(sent, Legs.After(legs, start, acts, n).accepted)
  {
    hide Legs.After, Legs.Sound, Legs.Written, Contents, IdsOf, Passed, IdOf, Recent, Numbered;
    Legs.LastTurn(legs, start, acts, n);
    if n == 0 {
      PassedEmpty([]);
      NoContents(sent);
    } else {
      var s, a := Legs.After(legs, start, acts, n - 1), acts[n - 1];
      WindowsAgree(legs, start, acts, n - 1, sent);
      Legs.RunsAreSound(legs, start, acts, n - 1);
      if Legs.Delivers(s, a) {
        ArrivalAgrees(s, start, a, Arrivals(legs, start, acts, n - 1), sent);
      } else {
        assert Arrivals(legs, start, acts, n) == Arrivals(legs, start, acts, n - 1);
      }
    }
  }

  lemma NoContents(sent: nat -> Packet)
    ensures Contents(sent, []) == []
  {
  }

  lemma ArrivalAgrees(s: Legs.Net, start: int, a: Legs.Act, ks: seq<nat>, sent: nat -> Packet)
    requires Legs.Sound(s, start) && Numbered(sent, start) && Legs.Delivers(s, a)
    requires Passed([], Contents(sent, ks)) == Contents(sent, s.accepted)
    ensures Passed([], Contents(sent, ks + [Legs.Arriving(s, a)])) == Contents(sent, Legs.Step(s, start, a).accepted)
  {
    hide Contents, IdsOf, Passed, IdOf, Recent;
    var k := Legs.Arriving(s, a);
    OneMoreContent(sent, start, ks, k);
    OneMoreContent(sent, start, s.accepted, k);
    PassedLast([], Contents(sent, ks), sent(k));
    NoLog(IdsOf(Contents(sent, s.accepted)));
  }

  /** So over any legs and however the packets are spread over them, delayed and repeated, the handler gets exactly the
      packets the run accepts, in that order. */
  lemma ServedAsAccepted(who: Identity, n: Node, legs: nat, start: int, acts: seq<Legs.Act>, sent: nat -> Packet)
    requires Numbered(sent, start) && forall k: nat :: !Closes(sent(k))
    ensures ServeAll(who, n, [], Contents(sent, Arrivals(legs, start, acts, |acts|))).0 ==
            HandledAll(who, n, Contents(sent, Legs.After(legs, start, acts, |acts|).accepted))
  {
    hide Legs.After, Arrivals, Passed, IdsOf, IdOf, Closes, ServeAll, HandledAll;
    WindowsAgree(legs, start, acts, |acts|, sent);
    ServesWhatPasses(who, n, [], Contents(sent, Arrivals(legs, start, acts, |acts|)));
  }

  /** With broadcasts and no copy too late, that is each broadcast once, in sending order, and all of them once a leg that
      never failed has drained. */
  lemma BroadcastsServedOnce(who: Identity, n: Node, legs: nat, start: int, acts: seq<Legs.Act>, sent: nat -> Packet)
    requires Numbered(sent, start) && forall k: nat :: !Closes(sent(k))
    requires Legs.CastsAlone(acts)
    requires forall i :: 0 <= i < |acts| ==> Legs.NotTooLate(Legs.After(legs, start, acts, i), acts[i])
    ensures var s := Legs.After(legs, start, acts, |acts|);
            && ServeAll(who, n, [], Contents(sent, Arrivals(legs, start, acts, |acts|))).0 ==
               HandledAll(who, n, Contents(sent, Legs.Iota(|s.accepted|)))
            && ((exists l :: 0 <= l < |s.legs| && s.legs[l].open && s.legs[l].next == |s.legs[l].queue|)
                ==> |s.accepted| == s.sent)
  {
    hide Legs.After, Legs.NotTooLate, Legs.CastsAlone, Legs.Once, Arrivals, Contents, IdOf, Closes, ServeAll, HandledAll;
    ServedAsAccepted(who, n, legs, start, acts, sent);
    Legs.BroadcastsSurvive(legs, start, acts);
  }

  // Keystrokes.

  /** The k-th keystroke as it arrives. */
  function Typed(keys: nat -> KeyEvent, src: uint32, des: uint32, start: int): nat -> Packet {
    (k: nat) => OnWire(KeyPacket(keys(k), src, des, IdOf(start, k)))
  }

  function Reported(keys: nat -> KeyEvent, src: uint32, des: uint32, m: nat): seq<LegEvent> {
    seq(m, k requires 0 <= k < m => OnKey(keys(k), src, des))
  }

  lemma {:induction false} TypedIsReported(who: Identity, n: Node, keys: nat -> KeyEvent, src: uint32, des: uint32,
                                           start: int, m: nat)
    ensures HandledAll(who, n, Contents(Typed(keys, src, des, start), Legs.Iota(m))).events ==
            n.events + Reported(keys, src, des, m)
  {
    hide Handled, KeyPacket, IdOf, OnWire, HandledAll, Framable;
    var sent := Typed(keys, src, des, start);
    if m == 0 {
      NothingHandled(who, n);
      assert Contents(sent, Legs.Iota(0)) == [] && n.events + Reported(keys, src, des, 0) == n.events;
    } else {
      var ps, p := Contents(sent, Legs.Iota(m - 1)), sent(m - 1);
      assert Contents(sent, Legs.Iota(m)) == ps + [p];
      TypedIsReported(who, n, keys, src, des, start, m - 1);
      HandledLast(who, n, ps, p);
      InputArrives(who, keys(m - 1), MouseEvent(0, 0, 0, 0), src, des, IdOf(start, m - 1));
      assert Reported(keys, src, des, m) == Reported(keys, src, des, m - 1) + [OnKey(keys(m - 1), src, des)];
    }
  }

  lemma NothingHandled(who: Identity, n: Node)
    ensures HandledAll(who, n, []) == n
  {
  }

  lemma {:induction false} HandledLast(who: Identity, n: Node, ps: seq<Packet>, p: Packet)
    ensures HandledAll(who, n, ps + [p]) == Handled(who, HandledAll(who, n, ps), p)
    decreases |ps|
  {
    hide Handled;
    if ps == [] {
      assert ps + [p] == [p] && [p][1..] == [];
    } else {
      assert (ps + [p])[1..] == ps[1..] + [p];
      HandledLast(who, Handled(who, n, ps[0]), ps[1..], p);
    }
  }

  lemma KeyIsOpen(k: KeyEvent, src: uint32, des: uint32, id: int32)
    ensures OnWire(KeyPacket(k, src, des, id)).id == id && !Closes(OnWire(KeyPacket(k, src, des, id)))
  {
    hide KeyBytes, WireName, Extended;
  }

  /** Keys typed on one machine and broadcast over any number of legs, no copy too late, are reported to the daemon of
      another in the order typed, each once, and all of them once a leg that never failed has drained. */
  lemma KeysArriveOnce(who: Identity, n: Node, legs: nat, start: int, acts: seq<Legs.Act>, keys: nat -> KeyEvent,
                       src: uint32, des: uint32)
    requires Legs.CastsAlone(acts)
    requires forall i :: 0 <= i < |acts| ==> Legs.NotTooLate(Legs.After(legs, start, acts, i), acts[i])
    ensures var s := Legs.After(legs, start, acts, |acts|);
            var arrived := Contents(Typed(keys, src, des, start), Arrivals(legs, start, acts, |acts|));
            && ServeAll(who, n, [], arrived).0.events == n.events + Reported(keys, src, des, |s.accepted|)
            && ((exists l :: 0 <= l < |s.legs| && s.legs[l].open && s.legs[l].next == |s.legs[l].queue|)
                ==> |s.accepted| == s.sent)
  {
    hide Legs.After, Legs.NotTooLate, Legs.CastsAlone, Legs.Iota, Arrivals, Contents, Reported, IdOf, KeyBytes,
         ServeAll, HandledAll;
    var sent := Typed(keys, src, des, start);
    forall k: nat ensures sent(k).id == IdOf(start, k) && !Closes(sent(k)) { KeyIsOpen(keys(k), src, des, IdOf(start, k)); }
    BroadcastsServedOnce(who, n, legs, start, acts, sent);
    TypedIsReported(who, n, keys, src, des, start, |Legs.After(legs, start, acts, |acts|).accepted|);
  }
}
