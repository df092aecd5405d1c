/** The server's layout: adopted from a first peer, extended by joiners, merged from packets or configured. */
module Layouts {
  import opened Bytes
  import opened Packets
  import opened Matrices

  /** `adopted` marks a guess, which must not be shared. */
  datatype Layout = Layout(matrix: Matrix, adopted: bool)

  /** A new server knows nothing. */
  const BLANK := Layout(EMPTY, false)

  /** The first vacant position from i on takes the name. */
  function FillVacant(slots: Slots, name: Name, i: nat): Slots
    requires i <= MAX_MACHINE
    decreases MAX_MACHINE - i
  {
    if i == MAX_MACHINE then slots
    else if slots[i] == [] then slots[i := name]
    else FillVacant(slots, name, i + 1)
  }

  /** A layout with nothing in it is replaced by the guess [self, peer]. */
  function Adopted(names: Naming, self: Name, l: Layout, peer: Name): Layout {
    if IsEmpty(names, l.matrix) then Layout(AdoptFresh(names, self, peer), true) else l
  }

  /** The locked region of a peer's arrival. */
  function Joined(names: Naming, self: Name, l: Layout, peer: Name): Layout {
    var base := Adopted(names, self, l, peer);
    if SlotOf(names, base.matrix, peer) != 0 then base
    else base.(matrix := base.matrix.(slots := FillVacant(base.matrix.slots, peer, 0)))
  }

  /** One matrix packet: its slot, and with the fourth slot the flags. */
  function Merged(names: Naming, l: Layout, p: Packet): Layout {
    var placed := if 1 <= p.src <= MAX_MACHINE then l.matrix.(slots := l.matrix.slots[p.src - 1 := p.name]) else l.matrix;
    var (wrap, twoRow) := ParseFlags(p.typ);
    var m := if p.src == MAX_MACHINE then placed.(wrap := wrap, twoRow := twoRow) else placed;
    Layout(m, l.adopted && IsEmpty(names, m))
  }

  function Configured(names: Naming, l: Layout, m: Matrix): Layout {
    Layout(m, l.adopted && IsEmpty(names, m))
  }

  /** Whether a newly trusted peer gets the layout. */
  predicate Shares(names: Naming, l: Layout) {
    !IsEmpty(names, l.matrix) && !l.adopted
  }

  // Joins.

  lemma {:induction false} FillVacantFacts(slots: Slots, name: Name, i: nat)
    requires i <= MAX_MACHINE
    ensures var t := FillVacant(slots, name, i);
            && (forall j :: 0 <= j < MAX_MACHINE && slots[j] != [] ==> t[j] == slots[j])
            && (forall j :: 0 <= j < MAX_MACHINE && t[j] != slots[j] ==> t[j] == name)
            && ((exists j :: i <= j < MAX_MACHINE && slots[j] == []) ==>
                exists j :: i <= j < MAX_MACHINE && slots[j] == [] && t[j] == name)
    decreases MAX_MACHINE - i
  {
    if i < MAX_MACHINE && slots[i] != [] { FillVacantFacts(slots, name, i + 1); }
  }

  predicate Vacant(m: Matrix) {
    exists i :: 0 <= i < MAX_MACHINE && m.slots[i] == []
  }

  /** A joiner is left without a slot exactly when it has no name, or is new to a layout with no vacancy. */
  lemma JoinerPlaced(names: Naming, self: Name, l: Layout, peer: Name)
    ensures var base := Adopted(names, self, l, peer).matrix;
            SlotOf(names, Joined(names, self, l, peer).matrix, peer) == 0 <==>
            SlotOf(names, base, peer) == 0 && (peer == [] || !Vacant(base))
  {
    hide IsEmpty, FillVacant, SlotFrom, AdoptFresh;
    var base, after := Adopted(names, self, l, peer).matrix, Joined(names, self, l, peer).matrix;
    SlotFromFirst(names, base, peer, 0);
    SlotFromFirst(names, after, peer, 0);
    FillVacantFacts(base.slots, peer, 0);
    if SlotOf(names, base, peer) == 0 {
      if peer != [] && Vacant(base) {
        var j :| 0 <= j < MAX_MACHINE && base.slots[j] == [] && after.slots[j] == peer;
        assert SameName(names, after.slots[j], peer);
      } else {
        assert forall j :: 0 <= j < MAX_MACHINE ==> after.slots[j] == base.slots[j];
      }
    }
  }

  lemma {:induction false} FillsFirst(slots: Slots, name: Name, i: nat, j: nat)
    requires i <= j < MAX_MACHINE && slots[j] == [] && forall k :: i <= k < j ==> slots[k] != []
    ensures FillVacant(slots, name, i) == slots[j := name]
    decreases j - i
  {
    if i < j { FillsFirst(slots, name, i + 1, j); }
  }

  lemma {:induction false} FillsNone(slots: Slots, name: Name, i: nat)
    requires i <= MAX_MACHINE && forall k :: i <= k < MAX_MACHINE ==> slots[k] != []
    ensures FillVacant(slots, name, i) == slots
    decreases MAX_MACHINE - i
  {
    if i < MAX_MACHINE { FillsNone(slots, name, i + 1); }
  }

  /** A newcomer to a layout that is not empty takes the first vacant slot and changes no other; with none vacant, or when
      it is already there, nothing changes. */
  lemma NewcomerTakesFirst(names: Naming, self: Name, l: Layout, peer: Name)
    requires !IsEmpty(names, l.matrix)
    ensures var t := Joined(names, self, l, peer);
            && t.adopted == l.adopted && t.matrix.wrap == l.matrix.wrap && t.matrix.twoRow == l.matrix.twoRow
            && (SlotOf(names, l.matrix, peer) != 0 ==> t == l)
            && ((forall k :: 0 <= k < 4 ==> l.matrix.slots[k] != []) ==> t == l)
            && forall j :: 0 <= j < 4 && SlotOf(names, l.matrix, peer) == 0 && l.matrix.slots[j] == []
                           && (forall k :: 0 <= k < j ==> l.matrix.slots[k] != []) ==>
                 t.matrix.slots == l.matrix.slots[j := peer]
  {
    hide IsEmpty, FillVacant, SlotFrom;
    var slots := l.matrix.slots;
    if forall k :: 0 <= k < 4 ==> slots[k] != [] { FillsNone(slots, peer, 0); }
    forall j | 0 <= j < 4 && slots[j] == [] && (forall k :: 0 <= k < j ==> slots[k] != [])
      ensures FillVacant(slots, peer, 0) == slots[j := peer]
    {
      FillsFirst(slots, peer, 0, j);
    }
  }

  /** A peer with our own name gets no second slot. */
  lemma OwnNameSeatsOnce(names: Naming, self: Name, l: Layout)
    requires IsEmpty(names, l.matrix) && self != []
    ensures Joined(names, self, l, self).matrix == Matrix([self, [], [], []], false, false)
  {
    hide SlotFrom, FillVacant;
    var base := AdoptFresh(names, self, self);
    SlotFromFirst(names, base, self, 0);
    assert SameName(names, base.slots[0], self);
  }

  /** The first peer of an empty server: the server sits in slot 1 and a peer of another name in slot 2. */
  lemma FirstPeerSeats(names: Naming, self: Name, l: Layout, peer: Name)
    requires IsEmpty(names, l.matrix) && self != []
    ensures var t := Joined(names, self, l, peer);
            && t.adopted && SlotOf(names, t.matrix, self) == 1 && t.matrix.slots[0] == self
            && (peer != [] && !SameName(names, self, peer) ==> SlotOf(names, t.matrix, peer) == 2 && t.matrix.slots[1] == peer)
            && t.matrix.slots[2] == t.matrix.slots[3] == []
  {
    hide SlotFrom, FillVacant;
    var base, t := AdoptFresh(names, self, peer), Joined(names, self, l, peer).matrix;
    SlotFromFirst(names, base, peer, 0);
    SlotFromFirst(names, t, peer, 0);
    SlotFromFirst(names, t, self, 0);
    if base.slots[1] == [] { FillVacantSecond(base.slots, peer); }
    assert base.slots[1] != [] ==> SameName(names, base.slots[1], peer);
    assert SameName(names, t.slots[0], self);
    assert t.slots[1] == peer ==> SameName(names, t.slots[1], peer);
  }

  lemma FillVacantSecond(slots: Slots, name: Name)
    requires slots[0] != [] && slots[1] == []
    ensures FillVacant(slots, name, 0) == slots[1 := name]
  {
    assert FillVacant(slots, name, 1) == slots[1 := name];
  }

  /** A name that is neither empty nor blank. */
  predicate Solid(names: Naming, n: Name) {
    n != [] && names.trim(n) != []
  }

  /** Joining moves no one: solid slots keep their names, and whoever was found at one is still found there. */
  lemma JoinKeepsSlots(names: Naming, self: Name, l: Layout, peer: Name)
    ensures var t := Joined(names, self, l, peer);
            forall i :: 0 <= i < MAX_MACHINE && Solid(names, l.matrix.slots[i]) ==> t.matrix.slots[i] == l.matrix.slots[i]
  {
    hide FillVacant, SlotFrom, AdoptFresh;
    FillVacantFacts(Adopted(names, self, l, peer).matrix.slots, peer, 0);
  }

  /** The lookup of `who` finds slot k, which holds a solid name. */
  predicate Found(names: Naming, m: Matrix, who: Name, k: uint32) {
    1 <= k <= MAX_MACHINE && SlotOf(names, m, who) == k && Solid(names, m.slots[k - 1])
  }

  lemma JoinKeepsLookup(names: Naming, self: Name, l: Layout, peer: Name, who: Name, k: uint32)
    requires Found(names, l.matrix, who, k)
    ensures Found(names, Joined(names, self, l, peer).matrix, who, k)
  {
    hide FillVacant, SlotFrom, AdoptFresh;
    var t := Joined(names, self, l, peer).matrix;
    SlotFromFirst(names, l.matrix, who, 0);
    SlotFromFirst(names, l.matrix, peer, 0);
    SlotFromFirst(names, t, who, 0);
    FillVacantFacts(l.matrix.slots, peer, 0);
  }

  function JoinAll(names: Naming, self: Name, l: Layout, peers: seq<Name>): Layout {
    if peers == [] then l else Joined(names, self, JoinAll(names, self, l, peers[..|peers| - 1]), peers[|peers| - 1])
  }

  /** Over any series of joins, solid slots keep their names, and whoever is found at a solid slot after some of the
      joins is found in that same slot at the end. */
  lemma {:induction false} JoinsAreStable(names: Naming, self: Name, l: Layout, peers: seq<Name>, j: nat)
    requires j <= |peers|
    ensures var mid, end := JoinAll(names, self, l, peers[..j]).matrix, JoinAll(names, self, l, peers).matrix;
            && (forall i :: 0 <= i < MAX_MACHINE && Solid(names, mid.slots[i]) ==> end.slots[i] == mid.slots[i])
            && (forall who, k :: Found(names, mid, who, k) ==> Found(names, end, who, k))
    decreases |peers|
  {
    hide Joined, Found, Solid;
    if j == |peers| {
      assert peers[..j] == peers;
    } else {
      var n := |peers| - 1;
      var prev := JoinAll(names, self, l, peers[..n]);
      assert peers[..n][..j] == peers[..j];
      JoinsAreStable(names, self, l, peers[..n], j);
      JoinKeepsSlots(names, self, prev, peers[n]);
      forall who, k | Found(names, prev.matrix, who, k) ensures Found(names, Joined(names, self, prev, peers[n]).matrix, who, k) {
        JoinKeepsLookup(names, self, prev, peers[n], who, k);
      }
    }
  }

  /** What TrimSpace and EqualFold are known for: only the empty string folds like the empty string. */
  ghost predicate Lawful(names: Naming) {
    names.trim([]) == [] && forall n :: names.fold(n) == names.fold([]) ==> n == []
  }

  /** While there is a vacancy every joiner with a solid name gets a slot, and is found there after all later joins. */
  lemma JoinerKeepsSeat(names: Naming, self: Name, l: Layout, peers: seq<Name>, j: nat)
    requires Lawful(names) && j < |peers| && Solid(names, peers[j])
    requires Vacant(Adopted(names, self, JoinAll(names, self, l, peers[..j]), peers[j]).matrix)
    ensures exists k :: Found(names, JoinAll(names, self, l, peers[..j + 1]).matrix, peers[j], k)
                        && Found(names, JoinAll(names, self, l, peers).matrix, peers[j], k)
  {
    hide Joined, Adopted, Vacant, SlotFrom;
    var prev, who := JoinAll(names, self, l, peers[..j]), peers[j];
    assert peers[..j + 1][..j] == peers[..j];
    assert JoinAll(names, self, l, peers[..j + 1]) == Joined(names, self, prev, who);
    var mid := Joined(names, self, prev, who).matrix;
    JoinerPlaced(names, self, prev, who);
    SlotFromFirst(names, mid, who, 0);
    var k := SlotOf(names, mid, who);
    assert Found(names, mid, who, k);
    JoinsAreStable(names, self, l, peers, j + 1);
    assert Found(names, JoinAll(names, self, l, peers).matrix, who, k);
  }

  // Anti-clobber, over every interleaving of the locked regions.

  datatype Act = Join(peer: Name) | Merge(p: Packet) | Configure(m: Matrix) | Share

  function Step(names: Naming, self: Name, l: Layout, a: Act): Layout {
    match a
    case Join(peer) => Joined(names, self, l, peer)
    case Merge(p) => Merged(names, l, p)
    case Configure(m) => Configured(names, l, m)
    case Share => l
  }

  function After(names: Naming, self: Name, acts: seq<Act>, k: nat): Layout
    requires k <= |acts|
  {
    if k == 0 then BLANK else Step(names, self, After(names, self, acts, k - 1), acts[k - 1])
  }

  /** Turn i was a merge or a configuration that left something in the layout. */
  predicate Fed(names: Naming, self: Name, acts: seq<Act>, i: nat)
    requires i < |acts|
  {
    (acts[i].Merge? || acts[i].Configure?) && !IsEmpty(names, After(names, self, acts, i + 1).matrix)
  }

  /** Turn i replaced an empty layout by a guess. */
  predicate Adopts(names: Naming, self: Name, acts: seq<Act>, i: nat)
    requires i < |acts|
  {
    acts[i].Join? && IsEmpty(names, After(names, self, acts, i).matrix)
  }

  /** In every interleaving, a layout that may be shared has been fed by a merge or a configuration since the server last
      adopted a guess.  That is all: which of its slots may still be guessed is for Guesses to say. */
  lemma {:induction false} AntiClobber(names: Naming, self: Name, acts: seq<Act>, k: nat)
    requires k <= |acts| && names.trim([]) == [] && Shares(names, After(names, self, acts, k))
    ensures exists i :: 0 <= i < k && Fed(names, self, acts, i) && forall j :: i < j < k ==> !Adopts(names, self, acts, j)
  {
    hide Joined, Merged, Configured, IsEmpty;
    if k == 0 {
      BlankIsEmpty(names);
    } else {
      var prev, a := After(names, self, acts, k - 1), acts[k - 1];
      StepShares(names, self, prev, a);
      if Fed(names, self, acts, k - 1) {
      } else {
        AntiClobber(names, self, acts, k - 1);
        var i :| 0 <= i < k - 1 && Fed(names, self, acts, i) && forall j :: i < j < k - 1 ==> !Adopts(names, self, acts, j);
        assert forall j :: i < j < k ==> !Adopts(names, self, acts, j);
      }
    }
  }

  lemma BlankIsEmpty(names: Naming)
    requires names.trim([]) == []
    ensures IsEmpty(names, EMPTY)
  {
  }

  /** A shareable layout comes from a shareable one without adoption, or from a merge or configuration. */
  lemma StepShares(names: Naming, self: Name, l: Layout, a: Act)
    requires Shares(names, Step(names, self, l, a))
    ensures a.Join? || a.Share? ==> Shares(names, l)
  {
    hide FillVacant, SlotFrom, AdoptFresh;
  }
}
