/** Runs that show what the conditions of exactly-once, in-order delivery are for. */
module LegRuns {
  import opened Bytes
  import opened Dedups
  import opened FanOut
  import opened Legs

  /** 51 broadcasts over two legs, the first leg read to its end, then the first packet of the second. */
  function LateCopy(): (acts: seq<Act>)
    ensures |acts| == 103
  {
    seq(103, i => if i < 51 then Cast else if i < 102 then Deliver(0) else Deliver(1))
  }

  /** Both legs given n broadcasts. */
  function Filled(n: nat): Net {
    Net([Leg(Iota(n), 0, true), Leg(Iota(n), 0, true)], n, Iota(n), [], [])
  }

  lemma CastOneMore(start: int, n: nat)
    ensures Step(Filled(n), start, Cast) == Filled(n + 1)
  {
    assert Iota(n) + [n] == Iota(n + 1);
    assert Written(Filled(n).legs, n, None) == Filled(n + 1).legs;
  }

  lemma {:induction false} AfterCasts(start: int, n: nat)
    requires n <= 51
    ensures After(2, start, LateCopy(), n) == Filled(n)
  {
    if n == 0 {
      assert Iota(0) == [];
      assert Start(2).legs == [Leg([], 0, true), Leg([], 0, true)];
    } else {
      hide Step, Filled;
      AfterCasts(start, n - 1);
      assert LateCopy()[n - 1] == Cast;
      CastOneMore(start, n - 1);
    }
  }

  /** The first leg read up to packet m. */
  function ReadUpTo(start: int, m: nat): Net {
    Net([Leg(Iota(51), m, true), Leg(Iota(51), 0, true)], 51, Iota(51), Ids(start, Iota(m)), Iota(m))
  }

  lemma ReadOneMore(start: int, m: nat)
    requires m < 51
    ensures Step(ReadUpTo(start, m), start, Deliver(0)) == ReadUpTo(start, m + 1)
  {
    hide IdOf, Recent;
    var s := ReadUpTo(start, m);
    WindowDecides(s, start, m);
    assert Iota(m) + [m] == Iota(m + 1);
    assert Ids(start, Iota(m + 1)) == Ids(start, Iota(m)) + [IdOf(start, m)];
  }

  lemma {:induction false} AfterDeliveries(start: int, m: nat)
    requires m <= 51
    ensures After(2, start, LateCopy(), 51 + m) == ReadUpTo(start, m)
  {
    if m == 0 {
      AfterCasts(start, 51);
    } else {
      hide Step, ReadUpTo, Iota;
      AfterDeliveries(start, m - 1);
      assert LateCopy()[50 + m] == Deliver(0);
      ReadOneMore(start, m - 1);
    }
  }

  /** A copy that arrives after 50 newer acceptances is accepted again. */
  lemma LateCopyRepeats(start: int)
    ensures After(2, start, LateCopy(), 103).accepted == Iota(51) + [0]
  {
    hide IdOf, Recent;
    AfterDeliveries(start, 51);
    var s := After(2, start, LateCopy(), 102);
    assert LateCopy()[102] == Deliver(1) && Arriving(s, Deliver(1)) == 0;
    WindowDecides(s, start, 0);
  }

  /** One broadcast, a leg that joins, and another broadcast; the new leg is read first. */
  function Overtaking(): (acts: seq<Act>)
    ensures |acts| == 5
  {
    [Cast, Join, Cast, Deliver(1), Deliver(0)]
  }

  /** The legs of that run once both broadcasts are out. */
  function Overtaken(first: nat, second: nat, log: seq<int32>, accepted: seq<nat>): Net {
    Net([Leg([0, 1], first, true), Leg([1], second, true)], 2, [0, 1], log, accepted)
  }

  lemma OvertakingSent(start: int)
    ensures After(1, start, Overtaking(), 3) == Overtaken(0, 0, [], [])
  {
    var none: seq<nat> := [];
    assert none + [0] == [0] && none + [1] == [1] && [0] + [1] == [0, 1];
    assert Start(1).legs == [Leg([], 0, true)];
    var a, b := After(1, start, Overtaking(), 1), After(1, start, Overtaking(), 2);
    var l0, l1: seq<Leg> := [Leg([], 0, true)], [Leg([0], 0, true)];
    assert Written(l0, 0, None)[0] == l1[0];
    assert Written(l0, 0, None) == l1;
    assert After(1, start, Overtaking(), 0) == Start(1) && Overtaking()[0] == Cast && Overtaking()[1] == Join;
    assert a == Step(Start(1), start, Cast);
    assert a.legs == Written(Start(1).legs, Start(1).sent, None) == l1;
    assert b == Step(a, start, Overtaking()[1]);
    assert b.legs == [Leg([0], 0, true), Leg([], 0, true)];
    assert Written(b.legs, 1, None) == [Leg([0, 1], 0, true), Leg([1], 0, true)];
  }

  lemma WindowOfOne()
    ensures !InWindow([], 1) && !InWindow([1], 0)
  {
  }

  lemma RecentFew(id: int32)
    ensures Recent([]) == [] && Recent([id]) == [id]
  {
  }

  lemma OvertakingRead(start: int)
    ensures var c := Overtaken(0, 0, [], []);
            var d := Overtaken(0, 1, [IdOf(start, 1)], [1]);
            && Step(c, start, Deliver(1)) == d && Timely(c, Deliver(1))
            && Step(d, start, Deliver(0)).accepted == [1, 0] && Timely(d, Deliver(0))
  {
    hide IdOf, InWindow, Recent;
    WindowOfOne();
    RecentFew(IdOf(start, 1));
    var c := Overtaken(0, 0, [], []);
    assert c.accepted + [1] == [1] && c.log + [IdOf(start, 1)] == [IdOf(start, 1)];
    IdsCollide(start, 0, 1);
  }

  /** A leg that joins between two broadcasts lets the second overtake the first, though every arrival is timely. */
  lemma JoinerOvertakes(start: int)
    ensures After(1, start, Overtaking(), 5).accepted == [1, 0] && AllTimely(1, start, Overtaking())
  {
    hide Step, Overtaken, IdOf, InWindow;
    OvertakingSent(start);
    OvertakingRead(start);
    var acts := Overtaking();
    assert After(1, start, acts, 4) == Step(After(1, start, acts, 3), start, acts[3]);
    assert After(1, start, acts, 5) == Step(After(1, start, acts, 4), start, acts[4]);
    forall i | 0 <= i < 5 ensures Timely(After(1, start, acts, i), acts[i]) {
      assert i in {0, 1, 2, 3, 4};
    }
  }

  /** Two broadcasts side by side: the second to draw its number writes first. */
  function SideBySide(): (acts: seq<Act>)
    ensures |acts| == 6
  {
    [Draw, Draw, Put(1, 0), Put(0, 0), Deliver(0), Deliver(0)]
  }

  function Crossed(next: nat, log: seq<int32>, accepted: seq<nat>): Net {
    Net([Leg([1, 0], next, true)], 2, [0, 1], log, accepted)
  }

  lemma CrossedSent(start: int)
    ensures After(1, start, SideBySide(), 4) == Crossed(0, [], [])
  {
    var none: seq<nat> := [];
    assert none + [0] == [0] && none + [1] == [1] && [0] + [1] == [0, 1] && [1] + [0] == [1, 0];
    var acts, l0, l1, l2: seq<Leg> := SideBySide(), [Leg([], 0, true)], [Leg([1], 0, true)], [Leg([1, 0], 0, true)];
    assert Start(1) == Net(l0, 0, [], [], []);
    assert After(1, start, acts, 0) == Start(1) && acts[0] == acts[1] == Draw && acts[2] == Put(1, 0) && acts[3] == Put(0, 0);
    assert After(1, start, acts, 1) == Net(l0, 1, [0], [], []);
    assert After(1, start, acts, 2) == Net(l0, 2, [0, 1], [], []);
    assert Written(l0, 1, Some({0})) == l1 && Written(l1, 0, Some({0})) == l2;
    assert After(1, start, acts, 3) == Net(l1, 2, [0, 1], [], []);
  }

  lemma CrossedRead(start: int)
    ensures var c := Crossed(0, [], []);
            var d := Crossed(1, [IdOf(start, 1)], [1]);
            && Step(c, start, Deliver(0)) == d && Timely(c, Deliver(0))
            && Step(d, start, Deliver(0)).accepted == [1, 0] && Timely(d, Deliver(0))
  {
    hide IdOf, InWindow, Recent;
    WindowOfOne();
    RecentFew(IdOf(start, 1));
    var c := Crossed(0, [], []);
    assert c.accepted + [1] == [1] && c.log + [IdOf(start, 1)] == [IdOf(start, 1)];
    IdsCollide(start, 0, 1);
  }

  /** Both pass once, in the order in which they were written, not numbered. */
  lemma SideBySideCross(start: int)
    ensures After(1, start, SideBySide(), 6).accepted == [1, 0] && AllTimely(1, start, SideBySide())
  {
    hide Step, Crossed, IdOf, InWindow;
    CrossedSent(start);
    CrossedRead(start);
    var acts := SideBySide();
    assert After(1, start, acts, 5) == Step(After(1, start, acts, 4), start, acts[4]);
    assert After(1, start, acts, 6) == Step(After(1, start, acts, 5), start, acts[5]);
    forall i | 0 <= i < 6 ensures Timely(After(1, start, acts, i), acts[i]) {
      assert i in {0, 1, 2, 3, 4, 5};
    }
  }

  const WRAP: nat := 0x1_0000_0000

  /** A packet on the leg, read at once; then 2^32 - 1 packets elsewhere; then another on the leg. */
  function LongSilence(): (acts: seq<Act>)
    ensures |acts| == WRAP + 3
  {
    seq(WRAP + 3, i => if i == 0 || i == WRAP + 1 then Post({0}) else if i == 1 || i == WRAP + 2 then Deliver(0) else Post({}))
  }

  function Silent(start: int, sent: nat): Net {
    Net([Leg([0], 1, true)], sent, [], [IdOf(start, 0)], [0])
  }

  lemma SilenceBegins(start: int)
    ensures After(1, start, LongSilence(), 2) == Silent(start, 1)
  {
    hide IdOf;
    var none: seq<nat> := [];
    var acts, l0, l1: seq<Leg> := LongSilence(), [Leg([], 0, true)], [Leg([0], 0, true)];
    assert none + [0] == [0] && Start(1) == Net(l0, 0, [], [], []) && acts[0] == Post({0}) && acts[1] == Deliver(0);
    assert Written(l0, 0, Some({0})) == l1;
    assert After(1, start, acts, 0) == Start(1);
    assert After(1, start, acts, 1) == Net(l1, 1, [], [], []);
  }

  lemma SilentPost(start: int, sent: nat)
    ensures Step(Silent(start, sent), start, Post({})) == Silent(start, sent + 1)
  {
    assert Written(Silent(start, sent).legs, sent, Some({})) == Silent(start, sent).legs;
  }

  lemma {:induction false} SilenceLasts(start: int, n: nat)
    requires 2 <= n <= WRAP + 1
    ensures After(1, start, LongSilence(), n) == Silent(start, n - 1)
    decreases n
  {
    hide After, Step, Silent;
    if n == 2 {
      SilenceBegins(start);
    } else {
      SilenceLasts(start, n - 1);
      assert LongSilence()[n - 1] == Post({});
      LastTurn(1, start, LongSilence(), n);
      SilentPost(start, n - 2);
    }
  }

  /** The other packet carries the first one's id and is lost: the bound on the span is needed. */
  lemma WrapLosesPacket(start: int)
    ensures var s := After(1, start, LongSilence(), WRAP + 3);
            s.legs == [Leg([0, WRAP], 2, true)] && s.accepted == [0]
  {
    hide After, IdOf;
    var acts, s := LongSilence(), After(1, start, LongSilence(), WRAP + 1);
    SilenceLasts(start, WRAP + 1);
    LastTurn(1, start, acts, WRAP + 2);
    LastTurn(1, start, acts, WRAP + 3);
    assert acts[WRAP + 1] == Post({0}) && acts[WRAP + 2] == Deliver(0);
    var t, zero: seq<nat> := After(1, start, acts, WRAP + 2), [0];
    assert zero + [WRAP] == [0, WRAP];
    var before, now: seq<Leg> := [Leg(zero, 1, true)], [Leg([0, WRAP], 1, true)];
    assert Written(before, WRAP, Some({0})) == now;
    assert t.legs == [Leg([0, WRAP], 1, true)];
    IdsCollide(start, 0, WRAP);
    assert IdOf(start, WRAP) == t.log[0];
  }
}
