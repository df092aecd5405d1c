/** The coalescing one-slot handoff between the capture callback and the Run loop. */
module Switchers {
  import opened Bytes

  /** The depth-one channel.  `R` is the request type. */
  class Switcher<R> {
    var slot: Option<R>

    constructor ()
      ensures slot == None
    {
      slot := None;
    }

    /** The consumer's non-blocking receive. */
    method Take() returns (r: Option<R>)
      modifies this
      ensures r == old(slot) && slot == None
    {
      r, slot := slot, None;
    }

    /** RequestSwitch: three selects, between which a consumer may run (`runs[0]` after the first, `runs[1]` after the
        second).  Whatever the consumer does, the request ends up in the slot, and an older one is taken or dropped. */
    method RequestSwitch(r: R, runs: (bool, bool)) returns (taken: Option<R>)
      modifies this
      ensures slot == Some(r)
      ensures taken == if runs.0 then old(slot) else None
    {
      taken := None;
      if slot.None? {
        slot := Some(r);
        return;
      }
      if runs.0 { taken := Take(); }
      slot := None;
      if runs.1 { var none := Take(); }
      if slot.None? {
        slot := Some(r);
      }
    }
  }

  // The same as interleaved steps of one producer and one consumer; requests are numbered 0, 1, 2, ...

  /** Between the selects of a request. */
  datatype Stage = Idle | Drain(req: nat) | Put(req: nat)

  datatype Handoff = Handoff(stage: Stage, slot: Option<nat>, asked: nat, taken: seq<nat>, lost: set<nat>)

  /** Select is the producer's next select statement, starting a new request when idle. */
  datatype Move = Select | Consume

  const START := Handoff(Idle, None, 0, [], {})

  function Step(s: Handoff, m: Move): Handoff {
    match m
    case Consume =>
      (match s.slot
       case None => s
       case Some(r) => s.(slot := None, taken := s.taken + [r]))
    case Select =>
      match s.stage
      case Idle =>
        if s.slot == None then s.(slot := Some(s.asked), asked := s.asked + 1)
        else s.(stage := Drain(s.asked), asked := s.asked + 1)
      case Drain(r) =>
        (match s.slot
         case None => s.(stage := Put(r))
         case Some(stale) => s.(stage := Put(r), slot := None, lost := s.lost + {stale}))
      case Put(r) =>
        if s.slot == None then s.(stage := Idle, slot := Some(r)) else s.(stage := Idle, lost := s.lost + {r})
  }

  function Run(moves: seq<Move>): Handoff {
    if moves == [] then START else Step(Run(moves[..|moves| - 1]), moves[|moves| - 1])
  }

  function Last(s: seq<nat>): int {
    if s == [] then -1 else s[|s| - 1]
  }

  ghost predicate Inv(s: Handoff) {
    && (forall i, j :: 0 <= i < j < |s.taken| ==> s.taken[i] < s.taken[j])
    && (forall i :: 0 <= i < |s.taken| ==> s.taken[i] <= Last(s.taken))
    && Last(s.taken) < s.asked
    && (s.slot.Some? ==> Last(s.taken) < s.slot.value < s.asked)
    && (forall r :: r in s.lost ==> r < s.asked - 1)
    && (match s.stage
        case Idle => s.asked > 0 ==> (if s.slot.Some? then s.slot.value else Last(s.taken)) == s.asked - 1
        case Drain(r) => r == s.asked - 1 && Last(s.taken) < r && (s.slot.Some? ==> s.slot.value < r)
        case Put(r) => r == s.asked - 1 && Last(s.taken) < r && s.slot == None)
    && (forall r :: 0 <= r < s.asked ==>
          r in s.taken || r in s.lost || s.slot == Some(r) || (s.stage != Idle && r == s.asked - 1))
  }

  lemma StepKeeps(s: Handoff, m: Move)
    requires Inv(s)
    ensures Inv(Step(s, m))
  {
    var t := Step(s, m);
    if m == Consume && s.slot.Some? {
      assert t.taken[|s.taken|] == s.slot.value;
      assert forall r :: r in s.taken ==> r in t.taken;
    }
  }

  /** In every interleaving: the consumer sees requests in the order they were made, each at most once; only a request
      older than the newest is ever dropped; and once a request has returned it is in the slot or has been taken. */
  lemma {:induction false} NewestNeverLost(moves: seq<Move>)
    ensures var s := Run(moves);
            && Inv(s)
            && (s.stage == Idle && s.asked > 0 ==>
                s.slot == Some(s.asked - 1) || (s.slot == None && Last(s.taken) == s.asked - 1))
            && s.asked - 1 !in s.lost
  {
    if moves != [] {
      NewestNeverLost(moves[..|moves| - 1]);
      StepKeeps(Run(moves[..|moves| - 1]), moves[|moves| - 1]);
    }
  }
}
