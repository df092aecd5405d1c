/** The four-slot machine layout: flags, slot lookup and neighbours. */
module Matrices {
  import opened Bytes
  import opened Packets

  type Slots = s: seq<Name> | |s| == MAX_MACHINE witness [[], [], [], []]

  datatype Matrix = Matrix(slots: Slots, wrap: bool, twoRow: bool)

  /** strings.TrimSpace, and the folding under which strings.EqualFold compares; any two functions will do. */
  datatype Naming = Naming(trim: Name -> Name, fold: Name -> Name)

  const EMPTY := Matrix([[], [], [], []], false, false)

  const SWAP_FLAG := 2
  const TWO_ROW_FLAG := 4

  function TypeByte(m: Matrix): byte {
    PT_MATRIX + (if m.wrap then SWAP_FLAG else 0) + (if m.twoRow then TWO_ROW_FLAG else 0)
  }

  /** Bits 1 and 2. */
  function ParseFlags(t: byte): (bool, bool) {
    (t / SWAP_FLAG % 2 == 1, t / TWO_ROW_FLAG % 2 == 1)
  }

  lemma FlagsRoundTrip(m: Matrix)
    ensures ParseFlags(TypeByte(m)) == (m.wrap, m.twoRow) && Base(TypeByte(m)) == PT_MATRIX && IsExtended(TypeByte(m))
    ensures TypeByte(m) == 128 + (if m.wrap then 2 else 0) + (if m.twoRow then 4 else 0)
  {
    match (m.wrap, m.twoRow)
    case (false, false) => assert TypeByte(m) == 128;
    case (true, false) => assert TypeByte(m) == 130;
    case (false, true) => assert TypeByte(m) == 132;
    case (true, true) => assert TypeByte(m) == 134;
  }

  predicate IsEmpty(names: Naming, m: Matrix) {
    forall i :: 0 <= i < MAX_MACHINE ==> names.trim(m.slots[i]) == []
  }

  predicate SameName(names: Naming, a: Name, b: Name) {
    names.fold(names.trim(a)) == names.fold(names.trim(b))
  }

  /** The 1-based slot of the first match from position i on, or 0. */
  function SlotFrom(names: Naming, m: Matrix, name: Name, i: nat): (s: uint32)
    requires i <= MAX_MACHINE
    ensures s <= MAX_MACHINE
    decreases MAX_MACHINE - i
  {
    if i == MAX_MACHINE then 0
    else if m.slots[i] != [] && SameName(names, m.slots[i], name) then i + 1
    else SlotFrom(names, m, name, i + 1)
  }

  function SlotOf(names: Naming, m: Matrix, name: Name): (s: uint32)
    ensures s <= MAX_MACHINE
  {
    SlotFrom(names, m, name, 0)
  }

  lemma {:induction false} SlotFromFirst(names: Naming, m: Matrix, name: Name, i: nat)
    requires i <= MAX_MACHINE
    ensures var s := SlotFrom(names, m, name, i);
            && (s == 0 <==> forall j :: i <= j < MAX_MACHINE ==> m.slots[j] == [] || !SameName(names, m.slots[j], name))
            && (s != 0 ==> i < s <= MAX_MACHINE && m.slots[s - 1] != [] && SameName(names, m.slots[s - 1], name)
                           && forall j :: i <= j < s - 1 ==> m.slots[j] == [] || !SameName(names, m.slots[j], name))
    decreases MAX_MACHINE - i
  {
    if i < MAX_MACHINE { SlotFromFirst(names, m, name, i + 1); }
  }

  /** A lookup succeeds exactly when some slot in use has, trimmed and folded, the name asked for, and finds the first. */
  lemma FoundByFoldedName(names: Naming, m: Matrix, name: Name)
    ensures var s := SlotOf(names, m, name);
            && (s == 0 <==> forall j :: 0 <= j < 4 && m.slots[j] != [] ==>
                              names.fold(names.trim(m.slots[j])) != names.fold(names.trim(name)))
            && (s != 0 ==> s <= 4 && m.slots[s - 1] != []
                           && names.fold(names.trim(m.slots[s - 1])) == names.fold(names.trim(name))
                           && forall j :: 0 <= j < s - 1 && m.slots[j] != [] ==>
                                names.fold(names.trim(m.slots[j])) != names.fold(names.trim(name)))
  {
    hide SlotFrom;
    SlotFromFirst(names, m, name, 0);
  }

  /** One name that is more than blanks is enough for a layout not to be empty, in any slot. */
  lemma NotEmptyByOne(names: Naming, m: Matrix)
    ensures !IsEmpty(names, m) <==> exists i :: 0 <= i < 4 && names.trim(m.slots[i]) != []
  {
  }

  /** [self, peer]; the peer's slot stays vacant when the two names fold alike. */
  function AdoptFresh(names: Naming, self: Name, peer: Name): Matrix {
    EMPTY.(slots := [self, if peer != [] && names.fold(peer) != names.fold(self) then peer else [], [], []])
  }

  // Neighbours.

  datatype Direction = DirNone | DirLeft | DirRight | DirTop | DirBottom

  predicate Occupied(m: Matrix, slot: int) {
    1 <= slot <= MAX_MACHINE && m.slots[slot - 1] != []
  }

  /** One step along the row; 0 when it leaves an unwrapped row. */
  function NextInRow(m: Matrix, i: int, step: int): (j: int)
    requires 1 <= i <= MAX_MACHINE && -1 <= step <= 1
    ensures 0 <= j <= MAX_MACHINE
  {
    var j := i + step;
    if m.wrap then (j - 1 + MAX_MACHINE * 8) % MAX_MACHINE + 1 else if j < 1 || j > MAX_MACHINE then 0 else j
  }

  /** The first occupied slot other than self within n more steps after i. */
  function ScanRow(m: Matrix, self: int, i: int, step: int, n: nat): int
    requires 1 <= i <= MAX_MACHINE && -1 <= step <= 1
    decreases n
  {
    if n == 0 then 0 else
      var j := NextInRow(m, i, step);
      if j == 0 then 0
      else if j != self && Occupied(m, j) then j
      else ScanRow(m, self, j, step, n - 1)
  }

  /** The slot at a row and column of the 2x2 grid, 0 outside it. */
  function At(row: int, col: int): int {
    if row < 0 || row > 1 || col < 0 || col > 1 then 0 else row * 2 + col + 1
  }

  function NeighborOf(m: Matrix, self: int, d: Direction): int {
    if self < 1 || self > MAX_MACHINE || d == DirNone then 0
    else if !m.twoRow then
      if d == DirRight then ScanRow(m, self, self, 1, MAX_MACHINE)
      else if d == DirLeft then ScanRow(m, self, self, -1, MAX_MACHINE)
      else 0
    else
      var row, col := (self - 1) / 2, (self - 1) % 2;
      match d
      case DirRight => if Occupied(m, At(row, col + 1)) then At(row, col + 1)
                       else if m.wrap && Occupied(m, At(row, 0)) && At(row, 0) != self then At(row, 0) else 0
      case DirLeft => if Occupied(m, At(row, col - 1)) then At(row, col - 1)
                      else if m.wrap && Occupied(m, At(row, 1)) && At(row, 1) != self then At(row, 1) else 0
      case DirBottom => if Occupied(m, At(row + 1, col)) then At(row + 1, col) else 0
      case DirTop => if Occupied(m, At(row - 1, col)) then At(row - 1, col) else 0
  }

  /** The 1x4 walk: up to four steps, stopping at the end of an unwrapped row or at the first occupied other slot. */
  method WalkRow(m: Matrix, self: int, step: int) returns (r: int)
    requires 1 <= self <= MAX_MACHINE && (step == 1 || step == -1)
    ensures r == ScanRow(m, self, self, step, MAX_MACHINE)
  {
    hide Occupied, ScanRow;
    var i := self;
    for n := 0 to MAX_MACHINE
      invariant 1 <= i <= MAX_MACHINE
      invariant ScanRow(m, self, self, step, MAX_MACHINE) == ScanRow(m, self, i, step, MAX_MACHINE - n)
      invariant n == MAX_MACHINE ==> ScanRow(m, self, i, step, 0) == 0
    {
      ScanStep(m, self, i, step, MAX_MACHINE - n);
      i := i + step;
      if m.wrap {
        i := (i - 1 + MAX_MACHINE * 8) % MAX_MACHINE + 1;
      } else if i < 1 || i > MAX_MACHINE {
        return 0;
      }
      if i != self && Occupied(m, i) {
        return i;
      }
    }
    r := 0;
  }

  method Neighbor(m: Matrix, self: uint32, d: Direction) returns (r: uint32)
    ensures r == NeighborOf(m, self, d)
  {
    hide ScanRow;
    NeighborSound(m, self, d);
    if self < 1 || self > MAX_MACHINE || d == DirNone { return 0; }
    if !m.twoRow {
      if d != DirRight && d != DirLeft { return 0; }
      var t := WalkRow(m, self, if d == DirRight then 1 else -1);
      return t;
    }
    var row, col := (self - 1) / 2, (self - 1) % 2;
    match d {
      case DirRight =>
        var s := At(row, col + 1);
        if Occupied(m, s) { return s; }
        if m.wrap {
          s := At(row, 0);
          if Occupied(m, s) && s != self { return s; }
        }
      case DirLeft =>
        var s := At(row, col - 1);
        if Occupied(m, s) { return s; }
        if m.wrap {
          s := At(row, 1);
          if Occupied(m, s) && s != self { return s; }
        }
      case DirBottom =>
        var s := At(row + 1, col);
        if Occupied(m, s) { return s; }
      case DirTop =>
        var s := At(row - 1, col);
        if Occupied(m, s) { return s; }
    }
    r := 0;
  }

  /** The four steps of a row scan, written out. */
  lemma RowOfFour(m: Matrix, self: int, step: int)
    requires 1 <= self <= MAX_MACHINE && (step == 1 || step == -1)
    ensures var a := NextInRow(m, self, step);
            var b := if a == 0 then 0 else NextInRow(m, a, step);
            var c := if b == 0 then 0 else NextInRow(m, b, step);
            ScanRow(m, self, self, step, MAX_MACHINE) ==
            if Occupied(m, a) && a != self then a else if Occupied(m, b) && b != self then b
            else if Occupied(m, c) && c != self then c else 0
  {
    hide NextInRow, Occupied;
    var a := NextInRow(m, self, step);
    if a != 0 {
      var b := NextInRow(m, a, step);
      ScanStep(m, self, self, step, 4);
      ScanStep(m, self, a, step, 3);
      if b != 0 {
        var c := NextInRow(m, b, step);
        ScanStep(m, self, b, step, 2);
        if c != 0 {
          ScanStep(m, self, c, step, 1);
          FourStepsReturn(m, self, step);
        }
      }
    }
  }

  lemma ScanStep(m: Matrix, self: int, i: int, step: int, n: nat)
    requires 1 <= i <= MAX_MACHINE && -1 <= step <= 1 && n > 0
    ensures var j := NextInRow(m, i, step);
            && (j == 0 ==> ScanRow(m, self, i, step, n) == 0)
            && (j != 0 ==> ScanRow(m, self, j, step, 0) == 0 &&
                           ScanRow(m, self, i, step, n) ==
                           if j != self && Occupied(m, j) then j else ScanRow(m, self, j, step, n - 1))
  {
  }

  lemma FourStepsReturn(m: Matrix, i: int, step: int)
    requires 1 <= i <= MAX_MACHINE && (step == 1 || step == -1)
    ensures var a := NextInRow(m, i, step);
            var b := if a == 0 then 0 else NextInRow(m, a, step);
            var c := if b == 0 then 0 else NextInRow(m, b, step);
            c == 0 || NextInRow(m, c, step) in {0, i}
  {
  }

  /** A neighbour is an occupied slot other than self. */
  lemma NeighborSound(m: Matrix, self: int, d: Direction)
    ensures var t := NeighborOf(m, self, d);
            t == 0 || (Occupied(m, t) && t != self && 1 <= self <= MAX_MACHINE)
    ensures var t := NeighborOf(m, self, d); t == 0 || (1 <= t <= 4 && m.slots[t - 1] != [])
  {
    hide ScanRow;
    if 1 <= self <= MAX_MACHINE {
      RowOfFour(m, self, 1);
      RowOfFour(m, self, -1);
    }
  }

  /** The slot k places away from self along the row, on the circle of four when it wraps. */
  function Place(m: Matrix, self: int, step: int, k: nat): int {
    if m.wrap then (self - 1 + step * k) % MAX_MACHINE + 1 else self + step * k
  }

  /** Nobody sits k places away: there is no such slot, or it has no name in it. */
  predicate NobodyAt(m: Matrix, self: int, step: int, k: nat) {
    var p := Place(m, self, step, k);
    p < 1 || p > 4 || m.slots[p - 1] == []
  }

  /** t is the nearest slot with a name in it that way, or 0 when there is none. */
  ghost predicate NearestAlong(m: Matrix, self: int, step: int, t: int) {
    && (t == 0 <==> forall k :: 1 <= k <= 3 ==> NobodyAt(m, self, step, k))
    && (t != 0 ==>
          exists n :: 1 <= n <= 3 && t == Place(m, self, step, n) && !NobodyAt(m, self, step, n)
                      && forall k :: 1 <= k < n ==> NobodyAt(m, self, step, k))
  }

  /** The place as a slot, 0 when it lies outside the row. */
  function SlotAt(m: Matrix, self: int, step: int, k: nat): int {
    var p := Place(m, self, step, k);
    if 1 <= p <= MAX_MACHINE then p else 0
  }

  lemma StepsReachPlaces(m: Matrix, self: int, step: int)
    requires 1 <= self <= MAX_MACHINE && (step == 1 || step == -1)
    ensures var a := NextInRow(m, self, step);
            var b := if a == 0 then 0 else NextInRow(m, a, step);
            var c := if b == 0 then 0 else NextInRow(m, b, step);
            a == SlotAt(m, self, step, 1) && b == SlotAt(m, self, step, 2) && c == SlotAt(m, self, step, 3)
    ensures forall k :: 1 <= k < MAX_MACHINE ==> Place(m, self, step, k) != self
  {
    assert self in {1, 2, 3, 4};
  }

  lemma OnlySlotsOccupied(m: Matrix, self: int, step: int, k: nat)
    ensures NobodyAt(m, self, step, k) <==> !Occupied(m, SlotAt(m, self, step, k))
    ensures Occupied(m, SlotAt(m, self, step, k)) ==> SlotAt(m, self, step, k) == Place(m, self, step, k) != 0
  {
  }

  lemma ScanFindsNearest(m: Matrix, self: int, step: int)
    requires 1 <= self <= MAX_MACHINE && (step == 1 || step == -1)
    ensures NearestAlong(m, self, step, ScanRow(m, self, self, step, MAX_MACHINE))
  {
    hide ScanRow, Occupied, NextInRow, Place, SlotAt, NobodyAt;
    RowOfFour(m, self, step);
    StepsReachPlaces(m, self, step);
    OnlySlotsOccupied(m, self, step, 1);
    OnlySlotsOccupied(m, self, step, 2);
    OnlySlotsOccupied(m, self, step, 3);
  }

  /** In a single row the neighbours to the left and to the right are the nearest occupied slots that way; none exactly
      when that way holds none. */
  lemma NearestInRow(m: Matrix, self: int)
    requires 1 <= self <= MAX_MACHINE && !m.twoRow
    ensures NearestAlong(m, self, 1, NeighborOf(m, self, DirRight))
    ensures NearestAlong(m, self, -1, NeighborOf(m, self, DirLeft))
  {
    hide ScanRow, NearestAlong;
    ScanFindsNearest(m, self, 1);
    ScanFindsNearest(m, self, -1);
  }

  /** In a single row nothing lies up or down. */
  lemma NothingAboveRow(m: Matrix, self: int)
    requires !m.twoRow
    ensures NeighborOf(m, self, DirTop) == NeighborOf(m, self, DirBottom) == 0
  {
  }

  /** In the 2x2 grid [[1,2],[3,4]]: sideways the other slot of the row, round the back only when wrapping; up and down
      the other slot of the column; each only when there is a name in it. */
  lemma NeighborInGrid(m: Matrix, self: int)
    requires 1 <= self <= MAX_MACHINE && m.twoRow
    ensures var beside := if self % 2 == 1 then self + 1 else self - 1;
            var across := if self <= 2 then self + 2 else self - 2;
            && NeighborOf(m, self, DirRight) == (if m.slots[beside - 1] != [] && (self % 2 == 1 || m.wrap) then beside else 0)
            && NeighborOf(m, self, DirLeft) == (if m.slots[beside - 1] != [] && (self % 2 == 0 || m.wrap) then beside else 0)
            && NeighborOf(m, self, DirBottom) == (if m.slots[across - 1] != [] && self <= 2 then across else 0)
            && NeighborOf(m, self, DirTop) == (if m.slots[across - 1] != [] && self > 2 then across else 0)
  {
    assert self in {1, 2, 3, 4};
  }

  function Opposite(d: Direction): Direction {
    match d
    case DirLeft => DirRight
    case DirRight => DirLeft
    case DirTop => DirBottom
    case DirBottom => DirTop
    case DirNone => DirNone
  }

  lemma ThereAndBackInRow(m: Matrix, self: int, step: int)
    requires Occupied(m, self) && (step == 1 || step == -1)
    ensures var t := ScanRow(m, self, self, step, MAX_MACHINE);
            t != 0 ==> 1 <= t <= MAX_MACHINE && ScanRow(m, t, t, -step, MAX_MACHINE) == self
  {
    hide ScanRow, NextInRow;
    RowOfFour(m, self, step);
    StepBack(m, self, step);
    var t, a := ScanRow(m, self, self, step, MAX_MACHINE), NextInRow(m, self, step);
    if a != 0 {
      StepBack(m, a, step);
      var b := NextInRow(m, a, step);
      if b != 0 { StepBack(m, b, step); }
    }
    if t != 0 { RowOfFour(m, t, -step); }
  }

  lemma StepBack(m: Matrix, i: int, step: int)
    requires 1 <= i <= MAX_MACHINE && (step == 1 || step == -1)
    ensures var j := NextInRow(m, i, step);
            j != 0 ==> 1 <= j <= MAX_MACHINE && j != i && NextInRow(m, j, -step) == i
  {
  }

  /** Without a place of our own there is no neighbour, nor in no direction. */
  lemma NoNeighborOutside(m: Matrix, self: int, d: Direction)
    requires self < 1 || self > 4 || d == DirNone
    ensures NeighborOf(m, self, d) == 0
  {
  }

  /** Crossing an edge and coming straight back through the opposite edge returns to where one started, in every layout. */
  lemma ThereAndBack(m: Matrix, self: int, d: Direction)
    requires Occupied(m, self) && NeighborOf(m, self, d) != 0
    ensures NeighborOf(m, NeighborOf(m, self, d), Opposite(d)) == self
  {
    hide ScanRow;
    NeighborSound(m, self, d);
    if !m.twoRow {
      ThereAndBackInRow(m, self, if d == DirRight then 1 else -1);
    }
  }
}
