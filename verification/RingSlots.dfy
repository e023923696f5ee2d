// Slots of a ring that positions go around.

module RingSlots {
  import opened Arithmetic

  // The slot of a position.
  function Slot(p: nat, size: nat): (s: nat)
    requires size > 0
    ensures s < size
  {
    p % size
  }

  // How far after slot s the ring comes to slot i.
  function Ahead(s: nat, size: nat, i: nat): (d: nat)
    requires s < size && i < size
    ensures d < size
  {
    if s <= i then i - s else i + size - s
  }

  // Slots follow positions, one turn of the ring per size.
  lemma SlotAhead(p: nat, size: nat, x: nat)
    requires 0 < size && x < size
    ensures Slot(p + x, size) == if Slot(p, size) + x < size then Slot(p, size) + x else Slot(p, size) + x - size
    ensures Ahead(Slot(p, size), size, Slot(p + x, size)) == x
  {
    var q, s := p / size, p % size;
    assert p == q * size + s;
    if s + x < size {
      DivModUnique(p + x, size, q, s + x);
    } else {
      assert (q + 1) * size == q * size + size;
      DivModUnique(p + x, size, q + 1, s + x - size);
    }
  }

  lemma AheadHits(p: nat, size: nat, i: nat)
    requires i < size
    ensures Slot(p + Ahead(Slot(p, size), size, i), size) == i
  {
    hide Slot;
    SlotAhead(p, size, Ahead(Slot(p, size), size, i));
  }

  // Whole turns of the ring lead back to the slot.
  lemma SlotAfterTurns(p: nat, size: nat, k: nat)
    requires size > 0
    ensures Slot(p + k * size, size) == Slot(p, size)
  {
    var q, s := p / size, p % size;
    assert p == q * size + s;
    assert (q + k) * size == q * size + k * size;
    DivModUnique(p + k * size, size, q + k, s);
  }
}
