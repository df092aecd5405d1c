/** The 50-entry duplicate window: a circular buffer that behaves as "the last 50 accepted ids". */
module Dedups {
  import opened Bytes

  const DEDUP_WINDOW := 50

  function Recent(log: seq<int32>): (r: seq<int32>)
    ensures |r| <= DEDUP_WINDOW && |r| <= |log|
  {
    if |log| <= DEDUP_WINDOW then log else log[|log| - DEDUP_WINDOW..]
  }

  /** The log after an id was offered: unchanged when the id is a recent one. */
  function Record(log: seq<int32>, id: int32): seq<int32> {
    if id in Recent(log) then log else log + [id]
  }

  class Dedup {
    const ids: array<int32>
    var pos: nat
    var seen: nat
    ghost var log: seq<int32>  // every id accepted since creation or reset

    ghost predicate Valid()
      reads this, ids
    {
      && ids.Length == DEDUP_WINDOW
      && pos == Cell(|log|)
      && seen == |Recent(log)|
      && (forall k :: |log| - seen <= k < |log| ==> ids[Cell(k)] == log[k])
      && (forall i, j :: 0 <= i < j < |Recent(log)| ==> Recent(log)[i] != Recent(log)[j])
    }

    constructor ()
      ensures Valid() && log == [] && fresh(ids)
    {
      ids := new int32[DEDUP_WINDOW](_ => 0);
      pos, seen, log := 0, 0, [];
    }

    method Seen(id: int32) returns (dup: bool)
      requires Valid()
      modifies this, ids
      ensures Valid()
      ensures dup <==> id in Recent(old(log))
      ensures log == Record(old(log), id)
    {
      Cells();
      var n := if seen > DEDUP_WINDOW then DEDUP_WINDOW else seen;
      for i := 0 to n
        invariant forall k :: 0 <= k < i ==> ids[k] != id
      {
        if ids[i] == id {
          assert id in ids[..seen];
          return true;
        }
      }
      assert id !in ids[..seen];
      Insert(id);
      dup := false;
    }

    /** The recording half of Seen: overwrite the oldest cell. */
    method Insert(id: int32)
      requires Valid() && id !in Recent(log)
      modifies this, ids
      ensures Valid() && log == old(log) + [id]
    {
      hide Cell;
      Slides(log, id);
      CellBasics(|log|);
      forall k | |log| - DEDUP_WINDOW < k < |log| && k >= 0 ensures Cell(k) != pos {
        CellsDiffer(k, |log|);
      }
      ids[pos] := id;
      pos := (pos + 1) % DEDUP_WINDOW;
      if seen < DEDUP_WINDOW {
        seen := seen + 1;
      }
      log := log + [id];
    }

    method Reset()
      requires Valid()
      modifies this, ids
      ensures Valid() && log == []
    {
      forall i | 0 <= i < ids.Length { ids[i] := 0; }
      pos, seen, log := 0, 0, [];
    }

    /** Cell i holds the recent id at position Entry - base. */
    lemma CellHolds(i: nat)
      requires Valid() && i < seen
      ensures var d := Entry(|log| - seen, i) - (|log| - seen);
              d < seen && Cell(|log| - seen + d) == i && ids[i] == Recent(log)[d]
    {
      EntryOfCell(|log| - seen, seen, i);
    }

    /** The recent id at position d sits in one of the first `seen` cells. */
    lemma EntryHeld(d: nat)
      requires Valid() && d < seen
      ensures Cell(|log| - seen + d) < seen && ids[Cell(|log| - seen + d)] == Recent(log)[d]
    {
      CellOfEntry(|log| - seen, seen, |log| - seen + d);
      assert Recent(log)[d] == log[|log| - seen + d];
    }

    /** The first `seen` cells hold exactly the recent ids, each once. */
    lemma Cells()
      requires Valid()
      ensures forall x :: x in ids[..seen] <==> x in Recent(log)
      ensures forall i, j :: 0 <= i < j < seen ==> ids[i] != ids[j]
    {
      hide Cell, Entry, Recent;
      forall x | x in ids[..seen] ensures x in Recent(log) {
        var i :| 0 <= i < seen && ids[i] == x;
        CellHolds(i);
      }
      forall x | x in Recent(log) ensures x in ids[..seen] {
        var d :| 0 <= d < seen && Recent(log)[d] == x;
        EntryHeld(d);
        assert ids[..seen][Cell(|log| - seen + d)] == x;
      }
      forall i, j | 0 <= i < j < seen ensures ids[i] != ids[j] {
        CellHolds(i);
        CellHolds(j);
      }
    }
  }

  /** The cell that the k-th accepted id goes to. */
  function Cell(k: nat): (c: nat)
    ensures c < DEDUP_WINDOW
  {
    k % DEDUP_WINDOW
  }

  /** The first log position at or after `base` that cell i holds. */
  function Entry(base: nat, i: nat): (k: nat)
    ensures base <= k
  {
    base + (i - base) % DEDUP_WINDOW
  }

  lemma EntryOfCell(base: nat, seen: nat, i: nat)
    requires i < seen <= DEDUP_WINDOW && (seen < DEDUP_WINDOW ==> base == 0)
    ensures Entry(base, i) < base + seen && Cell(Entry(base, i)) == i
  {
  }

  lemma CellOfEntry(base: nat, seen: nat, k: nat)
    requires seen <= DEDUP_WINDOW && (seen < DEDUP_WINDOW ==> base == 0) && base <= k < base + seen
    ensures Cell(k) < seen
  {
  }

  lemma CellsDiffer(k: nat, l: nat)
    requires k < l < k + DEDUP_WINDOW
    ensures Cell(k) != Cell(l)
  {
  }

  lemma CellBasics(k: nat)
    ensures Cell(k + 1) == (Cell(k) + 1) % DEDUP_WINDOW
  {
  }

  /** Appending a new id drops the oldest of a full window and keeps the rest distinct. */
  lemma Slides(log: seq<int32>, id: int32)
    requires id !in Recent(log)
    requires forall i, j :: 0 <= i < j < |Recent(log)| ==> Recent(log)[i] != Recent(log)[j]
    ensures forall i, j :: 0 <= i < j < |Recent(log + [id])| ==> Recent(log + [id])[i] != Recent(log + [id])[j]
    ensures |Recent(log + [id])| == if |log| < DEDUP_WINDOW then |log| + 1 else DEDUP_WINDOW
  {
    var r, s := Recent(log), Recent(log + [id]);
    var drop := |r| + 1 - |s|;
    forall i | 0 <= i < |s| ensures s[i] == if i == |s| - 1 then id else r[i + drop] {
    }
  }
}
