/** What a layout sent on trust is made of: which slots somebody wrote, and which are still the server's guess. */
module Guesses {
  import opened Bytes
  import opened Packets
  import opened Matrices
  import opened Layouts

  lemma LastTurn(names: Naming, self: Name, acts: seq<Act>, k: nat)
    requires 0 < k <= |acts|
    ensures After(names, self, acts, k) == Step(names, self, After(names, self, acts, k - 1), acts[k - 1])
  {
  }

  // Who wrote a slot.

  /** Turn i wrote slot s (counted from 0): a configuration, a packet for it, an adoption, or a joiner put there. */
  predicate Writes(names: Naming, self: Name, acts: seq<Act>, i: nat, s: nat)
    requires i < |acts| && s < MAX_MACHINE
  {
    match acts[i]
    case Configure(_) => true
    case Merge(p) => p.src == s + 1
    case Join(_) =>
      || Adopts(names, self, acts, i)
      || After(names, self, acts, i + 1).matrix.slots[s] != After(names, self, acts, i).matrix.slots[s]
    case Share => false
  }

  /** The last turn before k that wrote slot s. */
  function Author(names: Naming, self: Name, acts: seq<Act>, k: nat, s: nat): (i: Option<nat>)
    requires k <= |acts| && s < MAX_MACHINE
    ensures i.Some? ==> i.value < k
  {
    if k == 0 then None
    else if Writes(names, self, acts, k - 1, s) then Some(k - 1)
    else Author(names, self, acts, k - 1, s)
  }

  /** What the author put there: its own word, or for a joiner its name, or in a guess our own name first. */
  predicate Offered(names: Naming, self: Name, acts: seq<Act>, i: nat, s: nat, name: Name)
    requires i < |acts| && s < MAX_MACHINE
  {
    match acts[i]
    case Configure(m) => name == m.slots[s]
    case Merge(p) => name == p.name
    case Join(peer) => name == peer || (Adopts(names, self, acts, i) && s == 0 && name == self)
    case Share => false
  }

  lemma QuietTurn(names: Naming, self: Name, acts: seq<Act>, i: nat, s: nat)
    requires i < |acts| && s < MAX_MACHINE
    ensures var was, now := After(names, self, acts, i).matrix.slots[s], After(names, self, acts, i + 1).matrix.slots[s];
            && (!Writes(names, self, acts, i, s) ==> now == was)
            && (Writes(names, self, acts, i, s) && now != [] ==> Offered(names, self, acts, i, s, now))
  {
    hide After, IsEmpty, SlotFrom, FillVacant, SameName;
    LastTurn(names, self, acts, i + 1);
    var l := After(names, self, acts, i);
    if acts[i].Join? {
      FillVacantFacts(Adopted(names, self, l, acts[i].peer).matrix.slots, acts[i].peer, 0);
    }
  }

  /** Every occupied slot has an author, and still holds what the author put there. */
  lemma {:induction false} SlotHasAuthor(names: Naming, self: Name, acts: seq<Act>, k: nat, s: nat)
    requires k <= |acts| && s < MAX_MACHINE && After(names, self, acts, k).matrix.slots[s] != []
    ensures var now, i := After(names, self, acts, k).matrix.slots[s], Author(names, self, acts, k, s);
            && i.Some?
            && After(names, self, acts, i.value + 1).matrix.slots[s] == now
            && Offered(names, self, acts, i.value, s, now)
  {
    hide After, Writes, Offered;
    if k == 0 {
      NothingAtFirst(names, self, acts);
    } else {
      QuietTurn(names, self, acts, k - 1, s);
      if !Writes(names, self, acts, k - 1, s) { SlotHasAuthor(names, self, acts, k - 1, s); }
    }
  }

  lemma NothingAtFirst(names: Naming, self: Name, acts: seq<Act>)
    ensures After(names, self, acts, 0) == BLANK && forall s :: 0 <= s < MAX_MACHINE ==> BLANK.matrix.slots[s] == []
  {
  }

  // When a layout may be shared.

  /** Turn j is the last adoption before k. */
  predicate LastAdoption(names: Naming, self: Name, acts: seq<Act>, j: nat, k: nat)
    requires k <= |acts|
  {
    j < k && Adopts(names, self, acts, j) && forall i :: j < i < k ==> !Adopts(names, self, acts, i)
  }

  /** Something was merged or configured in the turns from i up to k. */
  predicate Touched(acts: seq<Act>, i: nat, k: nat)
    requires k <= |acts|
  {
    exists t :: i <= t < k && (acts[t].Merge? || acts[t].Configure?)
  }

  /** The flag after an adoption, or from the start when there is none: it stays until something is merged or configured,
      and then it is gone from any layout that is not empty. */
  lemma {:induction false} FlagFollows(names: Naming, self: Name, acts: seq<Act>, from: nat, k: nat)
    requires from <= k <= |acts| && forall i :: from <= i < k ==> !Adopts(names, self, acts, i)
    ensures var l := After(names, self, acts, k);
            && (!Touched(acts, from, k) ==> l.adopted == After(names, self, acts, from).adopted)
            && (Touched(acts, from, k) ==> !l.adopted || IsEmpty(names, l.matrix))
    decreases k
  {
    hide After, Touched, Adopts;
    if k == from {
      NotTouchedYet(acts, from);
    } else {
      FlagFollows(names, self, acts, from, k - 1);
      LastTurn(names, self, acts, k);
      TouchedNext(acts, from, k);
      FlagStep(names, self, acts, k - 1);
    }
  }

  lemma NotTouchedYet(acts: seq<Act>, i: nat)
    requires i <= |acts|
    ensures !Touched(acts, i, i)
  {
  }

  lemma TouchedNext(acts: seq<Act>, i: nat, k: nat)
    requires i < k <= |acts|
    ensures Touched(acts, i, k) <==> Touched(acts, i, k - 1) || acts[k - 1].Merge? || acts[k - 1].Configure?
  {
  }

  lemma FlagStep(names: Naming, self: Name, acts: seq<Act>, i: nat)
    requires i < |acts| && !Adopts(names, self, acts, i)
    ensures var l, t := After(names, self, acts, i), Step(names, self, After(names, self, acts, i), acts[i]);
            if acts[i].Merge? || acts[i].Configure? then !t.adopted || IsEmpty(names, t.matrix)
            else t.adopted == l.adopted && (IsEmpty(names, l.matrix) ==> t == l)
  {
    hide After, IsEmpty, FillVacant, SlotFrom, AdoptFresh;
  }

  /** A layout that is not empty may be shared exactly when something was merged or configured since the last adoption,
      or when nothing was ever adopted. */
  lemma SharedExactly(names: Naming, self: Name, acts: seq<Act>, k: nat)
    requires k <= |acts| && !IsEmpty(names, After(names, self, acts, k).matrix)
    ensures Shares(names, After(names, self, acts, k)) <==>
            forall j: nat :: LastAdoption(names, self, acts, j, k) ==> Touched(acts, j + 1, k)
  {
    hide After, Touched, IsEmpty, Adopts;
    if j: nat :| LastAdoption(names, self, acts, j, k) {
      AdoptionFlags(names, self, acts, j);
      FlagFollows(names, self, acts, j + 1, k);
      forall i: nat | LastAdoption(names, self, acts, i, k) ensures i == j { }
    } else {
      forall i | 0 <= i < k ensures !Adopts(names, self, acts, i) {
        if Adopts(names, self, acts, i) { var j := LastOf(names, self, acts, i, k); }
      }
      NothingAtFirst(names, self, acts);
      FlagFollows(names, self, acts, 0, k);
    }
  }

  lemma AdoptionFlags(names: Naming, self: Name, acts: seq<Act>, j: nat)
    requires j < |acts| && Adopts(names, self, acts, j)
    ensures After(names, self, acts, j + 1).adopted
  {
    hide IsEmpty, FillVacant, SlotFrom;
  }

  lemma {:induction false} LastOf(names: Naming, self: Name, acts: seq<Act>, i: nat, k: nat) returns (j: nat)
    requires i < k <= |acts| && Adopts(names, self, acts, i)
    ensures LastAdoption(names, self, acts, j, k)
    decreases k
  {
    hide Adopts;
    if Adopts(names, self, acts, k - 1) { j := k - 1; } else { j := LastOf(names, self, acts, i, k - 1); }
  }

  // The guess in what is sent.

  /** Slot s is occupied and nobody wrote it since the server guessed it. */
  predicate HoldsGuess(names: Naming, self: Name, acts: seq<Act>, k: nat, s: nat)
    requires k <= |acts| && s < MAX_MACHINE
  {
    var i := Author(names, self, acts, k, s);
    After(names, self, acts, k).matrix.slots[s] != [] && i.Some? && Adopts(names, self, acts, i.value)
  }

  /** Neither a configuration nor a packet for slot s in the turns after j. */
  predicate Unanswered(acts: seq<Act>, j: nat, k: nat, s: nat)
    requires k <= |acts|
  {
    forall i :: j < i < k ==> !acts[i].Configure? && !(acts[i].Merge? && acts[i].p.src == s + 1)
  }

  lemma {:induction false} GuessStays(names: Naming, self: Name, acts: seq<Act>, j: nat, k: nat, s: nat)
    requires k <= |acts| && s < MAX_MACHINE && LastAdoption(names, self, acts, j, k) && Unanswered(acts, j, k, s)
    requires After(names, self, acts, j + 1).matrix.slots[s] != []
    ensures Author(names, self, acts, k, s) == Some(j)
    ensures After(names, self, acts, k).matrix.slots[s] == After(names, self, acts, j + 1).matrix.slots[s]
    decreases k
  {
    hide After, IsEmpty;
    if k > j + 1 {
      GuessStays(names, self, acts, j, k - 1, s);
      LastTurn(names, self, acts, k);
      OccupiedStays(names, self, acts, k - 1, s);
    }
  }

  lemma OccupiedStays(names: Naming, self: Name, acts: seq<Act>, i: nat, s: nat)
    requires i < |acts| && s < MAX_MACHINE && !Adopts(names, self, acts, i) && After(names, self, acts, i).matrix.slots[s] != []
    requires !acts[i].Configure? && !(acts[i].Merge? && acts[i].p.src == s + 1)
    ensures !Writes(names, self, acts, i, s)
  {
    hide After, IsEmpty, SlotFrom, FillVacant, AdoptFresh;
    LastTurn(names, self, acts, i + 1);
    if acts[i].Join? { FillVacantFacts(After(names, self, acts, i).matrix.slots, acts[i].peer, 0); }
  }

  lemma {:induction false} NoWriteSince(names: Naming, self: Name, acts: seq<Act>, k: nat, s: nat)
    requires k <= |acts| && s < MAX_MACHINE && Author(names, self, acts, k, s).Some?
    ensures var j := Author(names, self, acts, k, s).value;
            && Unanswered(acts, j, k, s)
            && (Adopts(names, self, acts, j) ==> LastAdoption(names, self, acts, j, k))
  {
    hide After, IsEmpty;
    if !Writes(names, self, acts, k - 1, s) { NoWriteSince(names, self, acts, k - 1, s); }
  }

  /** Turn j, the last adoption, guessed slot s; since then something was merged, but nothing for that slot, and nothing
      was configured. */
  predicate Released(names: Naming, self: Name, acts: seq<Act>, j: nat, k: nat, s: nat)
    requires k <= |acts| && s < MAX_MACHINE
  {
    && LastAdoption(names, self, acts, j, k) && After(names, self, acts, j + 1).matrix.slots[s] != []
    && Unanswered(acts, j, k, s)
    && exists i :: j < i < k && acts[i].Merge?
  }

  /** A slot that is still the server's guess is sent on trust if and only if since the last adoption something was
      merged, though nothing for that slot, and nothing was configured. */
  lemma GuessSent(names: Naming, self: Name, acts: seq<Act>, k: nat, s: nat)
    requires k <= |acts| && s < MAX_MACHINE && !IsEmpty(names, After(names, self, acts, k).matrix)
    ensures Shares(names, After(names, self, acts, k)) && HoldsGuess(names, self, acts, k, s) <==>
            exists j: nat :: Released(names, self, acts, j, k, s)
  {
    hide After, Adopts, IsEmpty, Author, Shares;
    SharedExactly(names, self, acts, k);
    if Shares(names, After(names, self, acts, k)) && HoldsGuess(names, self, acts, k, s) {
      var j := Author(names, self, acts, k, s).value;
      SlotHasAuthor(names, self, acts, k, s);
      NoWriteSince(names, self, acts, k, s);
      assert LastAdoption(names, self, acts, j, k) && Touched(acts, j + 1, k);
      assert Released(names, self, acts, j, k, s);
    }
    if j: nat :| Released(names, self, acts, j, k, s) {
      GuessStays(names, self, acts, j, k, s);
      assert Touched(acts, j + 1, k);
      forall i: nat | LastAdoption(names, self, acts, i, k) ensures i == j { }
    }
  }

  /** Only the first two slots are ever guessed. */
  lemma GuessIsTwo(names: Naming, self: Name, acts: seq<Act>, j: nat)
    requires j < |acts| && Adopts(names, self, acts, j)
    ensures var m := After(names, self, acts, j + 1).matrix; m.slots[2] == m.slots[3] == []
  {
    hide IsEmpty, SlotFrom;
    var peer := acts[j].peer;
    var base := AdoptFresh(names, self, peer);
    SlotFromFirst(names, base, peer, 0);
    GuessFill(base.slots, peer);
    assert base.slots[1] != [] ==> SameName(names, base.slots[1], peer);
  }

  lemma GuessFill(slots: Slots, peer: Name)
    requires slots[2] == slots[3] == []
    ensures slots[0] == [] || slots[1] == [] ==> var t := FillVacant(slots, peer, 0); t[2] == t[3] == []
  {
    if slots[0] != [] && slots[1] == [] { FillVacantSecond(slots, peer); }
  }

  predicate PacketCame(acts: seq<Act>, j: nat, k: nat, src: uint32)
    requires k <= |acts|
  {
    exists i :: j < i < k && acts[i].Merge? && acts[i].p.src == src
  }

  /** After a configuration, or once a packet for each of the first two slots has come (as a whole burst brings), no
      guess is left to send. */
  lemma NoGuessLeft(names: Naming, self: Name, acts: seq<Act>, j: nat, k: nat, s: nat)
    requires k <= |acts| && s < MAX_MACHINE && LastAdoption(names, self, acts, j, k)
    requires (exists i :: j < i < k && acts[i].Configure?)
             || (PacketCame(acts, j, k, 1) && PacketCame(acts, j, k, 2))
    ensures !HoldsGuess(names, self, acts, k, s)
  {
    hide After, Adopts, IsEmpty, Author;
    if HoldsGuess(names, self, acts, k, s) { GuessUnanswered(names, self, acts, j, k, s); }
  }

  lemma GuessUnanswered(names: Naming, self: Name, acts: seq<Act>, j: nat, k: nat, s: nat)
    requires k <= |acts| && s < MAX_MACHINE && LastAdoption(names, self, acts, j, k) && HoldsGuess(names, self, acts, k, s)
    ensures s < 2 && Unanswered(acts, j, k, s)
  {
    hide After, Adopts, IsEmpty, Author;
    SlotHasAuthor(names, self, acts, k, s);
    NoWriteSince(names, self, acts, k, s);
    var i := Author(names, self, acts, k, s).value;
    assert i == j;
    GuessIsTwo(names, self, acts, j);
  }

  // Two runs that send a guess.

  /** A packet for a vacant slot, with no name in it, is enough to make the server send its untouched guess. */
  lemma EmptyPacketReleasesGuess(names: Naming, self: Name, peer: Name, p: Packet)
    requires names.trim([]) == [] && Solid(names, self) && peer != [] && names.fold(peer) != names.fold(self)
    requires p.src == 3 && p.name == []
    ensures var l := After(names, self, [Join(peer), Merge(p)], 2);
            l.matrix == AdoptFresh(names, self, peer) && l.matrix.slots == [self, peer, [], []] && Shares(names, l)
  {
    hide SlotFrom, FillVacant;
    var acts, m := [Join(peer), Merge(p)], AdoptFresh(names, self, peer);
    FirstGuess(names, self, peer);
    assert After(names, self, acts, 1) == Step(names, self, After(names, self, acts, 0), acts[0]);
    assert After(names, self, acts, 2) == Step(names, self, After(names, self, acts, 1), acts[1]);
    assert m.slots[2 := []] == m.slots && names.trim(m.slots[0]) != [];
  }

  /** And the first packet of an ordinary burst makes it send a layout whose second slot is still guessed. */
  lemma HalfBurstReleasesGuess(names: Naming, self: Name, peer: Name, other: Name, p: Packet)
    requires names.trim([]) == [] && Solid(names, self) && Solid(names, other)
    requires peer != [] && names.fold(peer) != names.fold(self)
    requires p.src == 1 && p.name == other
    ensures var l := After(names, self, [Join(peer), Merge(p)], 2);
            l.matrix.slots == [other, peer, [], []] && Shares(names, l)
  {
    hide SlotFrom, FillVacant;
    var acts, m := [Join(peer), Merge(p)], AdoptFresh(names, self, peer);
    FirstGuess(names, self, peer);
    assert After(names, self, acts, 1) == Step(names, self, After(names, self, acts, 0), acts[0]);
    assert After(names, self, acts, 2) == Step(names, self, After(names, self, acts, 1), acts[1]);
    assert m.slots[0 := other] == [other, peer, [], []] && names.trim(m.slots[0 := other][0]) != [];
  }

  lemma FirstGuess(names: Naming, self: Name, peer: Name)
    requires names.trim([]) == [] && peer != [] && names.fold(peer) != names.fold(self)
    ensures Joined(names, self, BLANK, peer) == Layout(AdoptFresh(names, self, peer), true)
  {
    hide SlotFrom, FillVacant;
    var m := AdoptFresh(names, self, peer);
    SlotFromFirst(names, m, peer, 0);
    assert SameName(names, m.slots[1], peer);
    BlankIsEmpty(names);
  }
}
