// An unbounded timeline of samples and the ring that keeps the last part of it.
//
// Positions count samples since the connection began.  A ring of a given size keeps
// the sample at position p in slot p % size until a later block reaches that slot.

module AudioTimeline {
  import opened RingSlots

  datatype Block = Block(at: nat, data: seq<int>)

  function End(b: Block): nat {
    b.at + |b.data|
  }

  // Where the blocks end, and where the last stretch of them without a gap begins.
  function EndOf(blocks: seq<Block>): nat {
    if blocks == [] then 0 else End(blocks[|blocks|-1])
  }

  function SolidFrom(blocks: seq<Block>): nat {
    if blocks == [] then 0
    else
      var before, b := blocks[..|blocks|-1], blocks[|blocks|-1];
      if before != [] && EndOf(before) == b.at then SolidFrom(before) else b.at
  }

  // Blocks in time order that each fit the ring.
  predicate Ordered(blocks: seq<Block>, size: nat) {
    forall i :: 0 <= i < |blocks| ==>
      |blocks[i].data| <= size && (i > 0 ==> End(blocks[i-1]) <= blocks[i].at)
  }

  predicate Covered(blocks: seq<Block>, p: nat) {
    blocks != [] &&
    var b := blocks[|blocks|-1];
    b.at <= p < End(b) || Covered(blocks[..|blocks|-1], p)
  }

  // The sample written for position p.
  function ValueAt(blocks: seq<Block>, p: nat): int {
    if blocks == [] then 0
    else
      var b := blocks[|blocks|-1];
      if b.at <= p < End(b) then b.data[p - b.at] else ValueAt(blocks[..|blocks|-1], p)
  }

  // ---------- The ring ----------

  // What slot i holds after the blocks were written one after the other, each over
  // what was there.
  function RingAt(blocks: seq<Block>, size: nat, i: nat): int
    requires i < size
  {
    if blocks == [] then 0
    else
      var b := blocks[|blocks|-1];
      var d := Ahead(Slot(b.at, size), size, i);
      if d < |b.data| then b.data[d] else RingAt(blocks[..|blocks|-1], size, i)
  }

  // Two positions of one slot are whole turns apart.
  lemma SameSlotApart(p: nat, q: nat, size: nat)
    requires size > 0 && p < q && Slot(p, size) == Slot(q, size)
    ensures p + size <= q
  {
    if q < p + size {
      SlotAhead(p, size, q - p);
    }
  }

  lemma SlotOneTurnOn(p: nat, size: nat)
    requires size > 0
    ensures Slot(p + size, size) == Slot(p, size)
  {
    SlotAfterTurns(p, size, 1);
  }

  lemma CoveredBelowEnd(blocks: seq<Block>, size: nat, p: nat)
    requires Ordered(blocks, size) && Covered(blocks, p)
    ensures p < EndOf(blocks)
  {
    if blocks != [] {
      var before := blocks[..|blocks|-1];
      var b := blocks[|blocks|-1];
      if !(b.at <= p < End(b)) {
        CoveredBelowEnd(before, size, p);
      }
    }
  }

  // A slot holds the sample of the greatest position of that slot ever written, or
  // zero if there is none.
  lemma {:induction false} RingIsLatest(blocks: seq<Block>, size: nat, i: nat) returns (p: int)
    requires i < size && Ordered(blocks, size)
    ensures p < 0 ==> RingAt(blocks, size, i) == 0 && forall q: nat :: Covered(blocks, q) ==> Slot(q, size) != i
    ensures p >= 0 ==>
              && Covered(blocks, p) && Slot(p, size) == i && RingAt(blocks, size, i) == ValueAt(blocks, p)
              && forall q: nat :: Covered(blocks, q) && Slot(q, size) == i ==> q <= p
  {
    hide Slot;
    if blocks == [] {
      return -1;
    }
    var before, b := blocks[..|blocks|-1], blocks[|blocks|-1];
    var d := Ahead(Slot(b.at, size), size, i);
    p := RingIsLatest(before, size, i);
    if d < |b.data| {
      AheadHits(b.at, size, i);
      p := b.at + d;
      forall q: nat | Covered(blocks, q) && Slot(q, size) == i
        ensures q <= p
      {
        if p < q {
          CoveredBelowEnd(blocks, size, q);
          SameSlotApart(p, q, size);
        }
      }
    } else {
      forall q: nat | b.at <= q < End(b)
        ensures Slot(q, size) != i
      {
        SlotAhead(b.at, size, q - b.at);
      }
      if p >= 0 {
        CoveredBelowEnd(before, size, p);
      }
    }
  }

  // A position written less than one turn before the end is still in its slot.
  lemma RingIsExact(blocks: seq<Block>, size: nat, p: nat)
    requires size > 0 && Ordered(blocks, size) && Covered(blocks, p) && EndOf(blocks) <= p + size
    ensures RingAt(blocks, size, Slot(p, size)) == ValueAt(blocks, p)
  {
    hide Slot;
    var q := RingIsLatest(blocks, size, Slot(p, size));
    if p < q {
      CoveredBelowEnd(blocks, size, q);
      SameSlotApart(p, q, size);
    }
  }

  lemma {:induction false} SolidIsCovered(blocks: seq<Block>, p: nat)
    requires SolidFrom(blocks) <= p < EndOf(blocks)
    ensures Covered(blocks, p)
  {
    if blocks != [] {
      var before, b := blocks[..|blocks|-1], blocks[|blocks|-1];
      if p < b.at {
        SolidIsCovered(before, p);
      }
    }
  }
}
