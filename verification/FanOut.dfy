/** One id per packet, fanned out over every message leg. */
module FanOut {
  import opened Bytes
  import opened Packets

  /** The id of a sender's k-th packet: the counter is incremented first and truncated to an int32. */
  function IdOf(start: int, k: nat): int32 {
    ToInt32(start + 1 + k)
  }

  lemma IdsCollide(start: int, i: nat, j: nat)
    ensures IdOf(start, i) == IdOf(start, j) <==> (i - j) % 0x1_0000_0000 == 0
  {
    ToInt32Collides(start + 1 + i, start + 1 + j);
  }

  class Sender {
    var next: int64
    ghost const start: int32
    ghost var count: nat  // calls of Next so far

    ghost predicate Valid()
      reads this
    {
      (next - start - count) % 0x1_0000_0000_0000_0000 == 0
    }

    constructor (start: int32)
      ensures Valid() && this.start == start && count == 0
    {
      this.start, next, count := start, start, 0;
    }

    /** The int64 counter may itself wrap; the ids stay consecutive modulo 2^32. */
    method Next() returns (id: int32)
      requires Valid()
      modifies this
      ensures Valid() && count == old(count) + 1
      ensures id == IdOf(start, old(count))
    {
      next := if next == 0x7FFF_FFFF_FFFF_FFFF then -0x8000_0000_0000_0000 else next + 1;
      id := ToInt32(next);
      count := count + 1;
      WrapsTogether(next - start - count);
      ToInt32Collides(next, start + count);
    }
  }

  lemma WrapsTogether(d: int)
    requires d % 0x1_0000_0000_0000_0000 == 0
    ensures d % 0x1_0000_0000 == 0
  {
    assert d == 0x1_0000_0000 * (0x1_0000_0000 * (d / 0x1_0000_0000_0000_0000));
  }

  /** What one leg has been given to send; a leg that is not open fails every write. */
  datatype Line = Line(clip: bool, open: bool, queue: seq<seq<byte>>)

  predicate Takes(line: Line) {
    !line.clip && line.open
  }

  class Broadcaster {
    const sender: Sender
    const magic: uint32
    var lines: seq<Line>

    constructor (sender: Sender, magic: uint32, lines: seq<Line>)
      ensures this.sender == sender && this.magic == magic && this.lines == lines
    {
      this.sender, this.magic, this.lines := sender, magic, lines;
    }

    /** Encodes once under the next id and writes the same bytes to every open message leg. */
    method Broadcast(p: Packet) returns (r: Result<()>)
      requires sender.Valid()
      modifies this`lines, sender
      ensures sender.Valid() && sender.count == old(sender.count) + 1
      ensures |lines| == |old(lines)|
      ensures var wire := Encoding(p.(id := IdOf(sender.start, old(sender.count))), magic);
              forall i :: 0 <= i < |lines| ==>
                lines[i] == if Takes(old(lines)[i]) then old(lines)[i].(queue := old(lines)[i].queue + [wire]) else old(lines)[i]
      ensures r == (if exists i :: 0 <= i < |lines| && Takes(lines[i]) then Ok(())
                    else if exists i :: 0 <= i < |lines| && !lines[i].clip then Err(WriteFailed) else Err(NoLegs))
    {
      var id := sender.Next();
      var wire := Encoding(p.(id := id), magic);
      var legs, sent, after := 0, 0, lines;
      for i := 0 to |lines|
        invariant |after| == |lines| && 0 <= sent <= legs
        invariant forall j :: i <= j < |lines| ==> after[j] == lines[j]
        invariant forall j :: 0 <= j < i ==>
                    after[j] == if Takes(lines[j]) then lines[j].(queue := lines[j].queue + [wire]) else lines[j]
        invariant sent > 0 <==> exists j :: 0 <= j < i && Takes(after[j])
        invariant legs > 0 <==> exists j :: 0 <= j < i && !after[j].clip
      {
        if !lines[i].clip {
          legs := legs + 1;
          if lines[i].open {
            after := after[i := lines[i].(queue := lines[i].queue + [wire])];
            sent := sent + 1;
          }
        }
      }
      lines := after;
      r := if legs == 0 then Err(NoLegs) else if sent == 0 then Err(WriteFailed) else Ok(());
    }
  }
}
