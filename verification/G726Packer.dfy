// The bit packer of the streamed audio codec (G.726): codes into a byte buffer.

module G726Packer {
  import opened G726Numerals

  // The codes so far are the full bytes and u bits of the byte begun.
  ghost predicate Packed(codes: seq<bv8>, w: nat, bytes: seq<bv8>, part: bv8, u: nat) {
    && u < 8 && w * |codes| == 8 * |bytes| + u
    && Val(part) < Pow2(u)
    && Digits(codes, w) == Digits(bytes, 8) + Val(part) * Pow2(8 * |bytes|)
  }

  // Adding the code c: b is the byte begun with c joined to it, rest what did not fit.
  lemma PackStep(codes: seq<bv8>, w: nat, bytes: seq<bv8>, part: bv8, u: nat, c: bv8, b: bv8, rest: bv8)
    requires Packed(codes, w, bytes, part, u) && 0 < w <= 8 && Val(c) < Pow2(w)
    requires Val(b) + 256 * Val(rest) == Val(part) + Scaled(c, u)
    ensures u + w < 8 ==> Packed(codes + [c], w, bytes, b, u + w)
    ensures u + w >= 8 ==> Packed(codes + [c], w, bytes + [b], rest, u + w - 8)
  {
    hide Val, Pow2, Digits;
    OneMore(w, |codes|);
    OneMore(8, |bytes|);
    CarryFits(Val(part), Val(c), Val(b), Val(rest), u, w);
    PackedNumeral(codes, w, bytes, part, u, c, b, rest);
    if u + w < 8 {
      assert Val(rest) * Pow2(8 * |bytes| + 8) == 0;
    } else {
      DigitsSnoc(bytes, b, 8);
      assert 8 * |bytes + [b]| == 8 * |bytes| + 8;
    }
  }

  lemma OneMore(w: nat, n: nat)
    ensures w * (n + 1) == w * n + w
  {
  }

  lemma PackedNumeral(codes: seq<bv8>, w: nat, bytes: seq<bv8>, part: bv8, u: nat, c: bv8, b: bv8, rest: bv8)
    requires Packed(codes, w, bytes, part, u)
    requires Val(b) + 256 * Val(rest) == Val(part) + Scaled(c, u)
    ensures Digits(codes + [c], w) ==
            Digits(bytes, 8) + Val(b) * Pow2(8 * |bytes|) + Val(rest) * Pow2(8 * |bytes| + 8)
  {
    hide Val, Pow2, Digits;
    var n, m := w * |codes|, 8 * |bytes|;
    DigitsSnoc(codes, c, w);
    PowAdds(u, m);
    PowAdds(8, m);
    SmallPowers();
    SumOfParts(Val(part), Pow2(m), Pow2(u), Val(c), Val(b), Val(rest), Pow2(n), Pow2(m + 8));
  }

  // What does not fit into the byte is less than the bits still missing in the next.
  lemma CarryFits(part: nat, c: nat, b: nat, rest: nat, u: nat, w: nat)
    requires part < Pow2(u) && c < Pow2(w) && w <= 8 && u < 8 && b < 256
    requires b + 256 * rest == part + Pow2(u) * c
    ensures u + w < 8 ==> rest == 0 && b < Pow2(u + w)
    ensures u + w >= 8 ==> rest < Pow2(u + w - 8)
  {
    hide Pow2;
    PowAdds(w, u);
    Carry(part, c, Pow2(u), Pow2(w));
    SmallPowers();
    if u + w >= 8 {
      PowAdds(8, u + w - 8);
    } else {
      PowGrows(u + w, 8);
    }
  }

  lemma PowGrows(m: nat, n: nat)
    requires m <= n
    ensures Pow2(m) <= Pow2(n)
  {
    PowAdds(n - m, m);
    NotBelow(Pow2(n - m), Pow2(m));
  }

  lemma SumOfParts(part: nat, p: nat, v: nat, c: nat, b: nat, rest: nat, q: nat, r: nat)
    requires b + 256 * rest == part + v * c && q == v * p && r == 256 * p
    ensures part * p + c * q == b * p + rest * r
  {
    assert c * (v * p) == (v * c) * p;
    assert (part + v * c) * p == (b + 256 * rest) * p;
  }

  // ---------- Joining and splitting bytes ----------

  // A code moved up by u bits.
  function Scaled(c: bv8, u: nat): nat {
    Pow2(u) * Val(c)
  }

  // What a code was placed as adds up to the byte begun and the code moved up.
  predicate Adds(placed: (bv8, bv8), part: bv8, c: bv8, u: nat) {
    Val(placed.0) + 256 * Val(placed.1) == Val(part) + Scaled(c, u)
  }

  // A code in a new byte, or joined to a byte of which some bits are used, and what of
  // the code is left for the next byte.
  function Join0(c: bv8): (r: (bv8, bv8))
    ensures Adds(r, 0, c, 0)
  {
    (c, 0)
  }

  lemma Shift1(p: bv8, c: bv8)
    ensures Val(p) < 2 ==> Val(p | (c << 1)) + 256 * Val(c >> 7) == Val(p) + Scaled(c, 1)
  {
    SmallPowers();
  }

  function Join1(p: bv8, c: bv8): (r: (bv8, bv8))
    ensures Val(p) < 2 ==> Adds(r, p, c, 1)
  {
    hide Val, Scaled;
    Shift1(p, c);
    (p | (c << 1), c >> 7)
  }

  lemma Shift2(p: bv8, c: bv8)
    ensures Val(p) < 4 ==> Val(p | (c << 2)) + 256 * Val(c >> 6) == Val(p) + Scaled(c, 2)
  {
    SmallPowers();
  }

  function Join2(p: bv8, c: bv8): (r: (bv8, bv8))
    ensures Val(p) < 4 ==> Adds(r, p, c, 2)
  {
    hide Val, Scaled;
    Shift2(p, c);
    (p | (c << 2), c >> 6)
  }

  lemma Shift3(p: bv8, c: bv8)
    ensures Val(p) < 8 ==> Val(p | (c << 3)) + 256 * Val(c >> 5) == Val(p) + Scaled(c, 3)
  {
    SmallPowers();
  }

  function Join3(p: bv8, c: bv8): (r: (bv8, bv8))
    ensures Val(p) < 8 ==> Adds(r, p, c, 3)
  {
    hide Val, Scaled;
    Shift3(p, c);
    (p | (c << 3), c >> 5)
  }

  lemma Shift4(p: bv8, c: bv8)
    ensures Val(p) < 16 ==> Val(p | (c << 4)) + 256 * Val(c >> 4) == Val(p) + Scaled(c, 4)
  {
    SmallPowers();
  }

  function Join4(p: bv8, c: bv8): (r: (bv8, bv8))
    ensures Val(p) < 16 ==> Adds(r, p, c, 4)
  {
    hide Val, Scaled;
    Shift4(p, c);
    (p | (c << 4), c >> 4)
  }

  lemma Shift5(p: bv8, c: bv8)
    ensures Val(p) < 32 ==> Val(p | (c << 5)) + 256 * Val(c >> 3) == Val(p) + Scaled(c, 5)
  {
    SmallPowers();
  }

  function Join5(p: bv8, c: bv8): (r: (bv8, bv8))
    ensures Val(p) < 32 ==> Adds(r, p, c, 5)
  {
    hide Val, Scaled;
    Shift5(p, c);
    (p | (c << 5), c >> 3)
  }

  lemma Shift6(p: bv8, c: bv8)
    ensures Val(p) < 64 ==> Val(p | (c << 6)) + 256 * Val(c >> 2) == Val(p) + Scaled(c, 6)
  {
    SmallPowers();
  }

  function Join6(p: bv8, c: bv8): (r: (bv8, bv8))
    ensures Val(p) < 64 ==> Adds(r, p, c, 6)
  {
    hide Val, Scaled;
    Shift6(p, c);
    (p | (c << 6), c >> 2)
  }

  lemma Shift7(p: bv8, c: bv8)
    ensures Val(p) < 128 ==> Val(p | (c << 7)) + 256 * Val(c >> 1) == Val(p) + Scaled(c, 7)
  {
    SmallPowers();
  }

  function Join7(p: bv8, c: bv8): (r: (bv8, bv8))
    ensures Val(p) < 128 ==> Adds(r, p, c, 7)
  {
    hide Val, Scaled;
    Shift7(p, c);
    (p | (c << 7), c >> 1)
  }

  // ---------- Packing ----------

  // buffer holds codes packed into its first p bytes and u bits of the next.
  ghost predicate Begun(codes: seq<bv8>, w: nat, buffer: array<bv8>, p: nat, u: nat)
    reads buffer
  {
    && p <= buffer.Length && (u > 0 ==> p < buffer.Length)
    && Packed(codes, w, buffer[..p], if u > 0 then buffer[p] else 0, u)
  }

  // The bytes that holds.
  function Touched(p: nat, u: nat): nat {
    p + (if u > 0 then 1 else 0)
  }

  lemma NothingPacked(w: nat)
    ensures Packed([], w, [], 0, 0)
  {
  }

  lemma PackedPart(codes: seq<bv8>, w: nat, bytes: seq<bv8>, part: bv8, u: nat)
    requires Packed(codes, w, bytes, part, u)
    ensures Val(part) < Pow2(u) && w * |codes| == 8 * |bytes| + u
  {
  }

  lemma WholeByte(codes: seq<bv8>, w: nat, bytes: seq<bv8>, rest: bv8)
    ensures Packed(codes, w, bytes, rest, 0) ==> Packed(codes, w, bytes, 0, 0)
  {
    hide Digits;
  }

  // All codes packed: the byte begun, if any, is the last one.
  lemma PackedIsPacking(codes: seq<bv8>, w: nat, bytes: seq<bv8>, part: bv8, u: nat)
    requires Packed(codes, w, bytes, part, u) && w <= 8
    ensures u == 0 ==> IsPacking(codes, w, bytes)
    ensures u > 0 ==> IsPacking(codes, w, bytes + [part])
  {
    hide Val, Pow2;
    DigitsSnoc(bytes, part, 8);
    SmallPowers();
    if u > 0 {
      assert |bytes + [part]| == PackedSize(|codes|, w);
    } else {
      assert Val(part) * Pow2(8 * |bytes|) == 0;
    }
  }

  lemma BegunIsPacking(codes: seq<bv8>, w: nat, buffer: array<bv8>, p: nat, u: nat)
    requires Begun(codes, w, buffer, p, u) && w <= 8
    ensures Touched(p, u) == PackedSize(|codes|, w)
    ensures IsPacking(codes, w, buffer[..PackedSize(|codes|, w)])
  {
    hide Val, Pow2, Digits, Packed;
    PackedIsPacking(codes, w, buffer[..p], if u > 0 then buffer[p] else 0, u);
    if u > 0 {
      assert buffer[..p+1] == buffer[..p] + [buffer[p]];
    }
  }

  // One code added: b in the byte begun, and rest in the next one if it is begun.
  lemma BegunStep(codes: seq<bv8>, w: nat, bytes: seq<bv8>, part: bv8, u: nat, c: bv8, b: bv8, rest: bv8,
                  buffer: array<bv8>, p': nat, u': nat)
    requires Packed(codes, w, bytes, part, u) && 0 < w <= 8 && Val(c) < Pow2(w)
    requires Val(b) + 256 * Val(rest) == Val(part) + Scaled(c, u)
    requires if u + w < 8 then p' == |bytes| && u' == u + w else p' == |bytes| + 1 && u' == u + w - 8
    requires p' <= buffer.Length && |bytes| < buffer.Length && (u' > 0 ==> p' < buffer.Length)
    requires buffer[..|bytes|] == bytes && buffer[|bytes|] == b
    requires p' > |bytes| && u' > 0 ==> buffer[p'] == rest
    ensures Begun(codes + [c], w, buffer, p', u')
  {
    hide Val, Pow2, Digits, Packed, Scaled;
    PackStep(codes, w, bytes, part, u, c, b, rest);
    if p' > |bytes| {
      WholeByte(codes + [c], w, bytes + [b], rest);
      assert buffer[..p'] == bytes + [b];
    } else {
      assert buffer[..p'] == bytes;
    }
  }

  // Eight 5-bit codes fill five bytes; at each position so many bits of the byte begun are used.
  function Used5(position: nat): (u: nat)
    requires position < 8
    ensures u < 8
  {
    match position
    case 0 => 0
    case 1 => 5
    case 2 => 2
    case 3 => 7
    case 4 => 4
    case 5 => 1
    case 6 => 6
    case 7 => 3
  }

  // The byte begun joined with a code, and what of the code is left for the next byte.
  function Place5(position: nat, cur: bv8, encoded: bv8): (bv8, bv8)
    requires position < 8
  {
    match position
    case 0 => Join0(encoded)
    case 1 => Join5(cur, encoded)
    case 2 => Join2(cur, encoded)
    case 3 => Join7(cur, encoded)
    case 4 => Join4(cur, encoded)
    case 5 => Join1(cur, encoded)
    case 6 => Join6(cur, encoded)
    case 7 => Join3(cur, encoded)
  }

  lemma Place5Adds(position: nat, cur: bv8, encoded: bv8)
    requires position < 8 && (position > 0 ==> Val(cur) < Pow2(Used5(position)))
    ensures Adds(Place5(position, cur, encoded), if position > 0 then cur else 0, encoded, Used5(position))
  {
    hide Adds, Pow2, Val, Join0, Join1, Join2, Join3, Join4, Join5, Join6, Join7;
    SmallPowers();
  }

  method Encode5(codes: seq<bv8>, buffer: array<bv8>)
    requires Fit(codes, 5) && PackedSize(|codes|, 5) <= buffer.Length
    modifies buffer
    ensures IsPacking(codes, 5, buffer[..PackedSize(|codes|, 5)])
    ensures forall k :: PackedSize(|codes|, 5) <= k < buffer.Length ==> buffer[k] == old(buffer[k])
  {
    hide Val, Pow2, Digits, Packed, IsPacking, Scaled, Place5;
    NothingPacked(5);
    assert codes[..0] == [] && buffer[..0] == [];
    var p: nat, position: nat := 0, 0;
    for i := 0 to |codes|
      invariant position < 8 && Begun(codes[..i], 5, buffer, p, Used5(position))
      invariant forall k :: Touched(p, Used5(position)) <= k < buffer.Length ==> buffer[k] == old(buffer[k])
    {
      var encoded := codes[i];
      ghost var before, u := buffer[..p], Used5(position);
      ghost var part := if position > 0 then buffer[p] else 0;
      PackedPart(codes[..i], 5, before, part, u);
      Place5Adds(position, buffer[p], encoded);
      var (b, rest) := Place5(position, buffer[p], encoded);
      buffer[p] := b;
      if position == 1 || position == 3 || position == 4 || position == 6 {
        p := p + 1;
        buffer[p] := rest;
        position := position + 1;
      } else if position == 7 {
        p := p + 1;
        position := 0;
      } else {
        position := position + 1;
      }
      assert buffer[..|before|] == before;
      BegunStep(codes[..i], 5, before, part, u, encoded, b, rest, buffer, p, Used5(position));
      assert codes[..i+1] == codes[..i] + [encoded];
    }
    assert codes[..|codes|] == codes;
    BegunIsPacking(codes, 5, buffer, p, Used5(position));
  }

  // Eight 3-bit codes fill three bytes; at each position so many bits of the byte begun are used.
  function Used3(position: nat): (u: nat)
    requires position < 8
    ensures u < 8
  {
    match position
    case 0 => 0
    case 1 => 3
    case 2 => 6
    case 3 => 1
    case 4 => 4
    case 5 => 7
    case 6 => 2
    case 7 => 5
  }

  // The byte begun joined with a code, and what of the code is left for the next byte.
  function Place3(position: nat, cur: bv8, encoded: bv8): (bv8, bv8)
    requires position < 8
  {
    match position
    case 0 => Join0(encoded)
    case 1 => Join3(cur, encoded)
    case 2 => Join6(cur, encoded)
    case 3 => Join1(cur, encoded)
    case 4 => Join4(cur, encoded)
    case 5 => Join7(cur, encoded)
    case 6 => Join2(cur, encoded)
    case 7 => Join5(cur, encoded)
  }

  lemma Place3Adds(position: nat, cur: bv8, encoded: bv8)
    requires position < 8 && (position > 0 ==> Val(cur) < Pow2(Used3(position)))
    ensures Adds(Place3(position, cur, encoded), if position > 0 then cur else 0, encoded, Used3(position))
  {
    hide Adds, Pow2, Val, Join0, Join1, Join2, Join3, Join4, Join5, Join6, Join7;
    SmallPowers();
  }

  method Encode3(codes: seq<bv8>, buffer: array<bv8>)
    requires Fit(codes, 3) && PackedSize(|codes|, 3) <= buffer.Length
    modifies buffer
    ensures IsPacking(codes, 3, buffer[..PackedSize(|codes|, 3)])
    ensures forall k :: PackedSize(|codes|, 3) <= k < buffer.Length ==> buffer[k] == old(buffer[k])
  {
    hide Val, Pow2, Digits, Packed, IsPacking, Scaled, Place3;
    NothingPacked(3);
    assert codes[..0] == [] && buffer[..0] == [];
    var p: nat, position: nat := 0, 0;
    for i := 0 to |codes|
      invariant position < 8 && Begun(codes[..i], 3, buffer, p, Used3(position))
      invariant forall k :: Touched(p, Used3(position)) <= k < buffer.Length ==> buffer[k] == old(buffer[k])
    {
      var encoded := codes[i];
      ghost var before, u := buffer[..p], Used3(position);
      ghost var part := if position > 0 then buffer[p] else 0;
      PackedPart(codes[..i], 3, before, part, u);
      Place3Adds(position, buffer[p], encoded);
      var (b, rest) := Place3(position, buffer[p], encoded);
      buffer[p] := b;
      if position == 2 || position == 5 {
        p := p + 1;
        buffer[p] := rest;
        position := position + 1;
      } else if position == 7 {
        p := p + 1;
        position := 0;
      } else {
        position := position + 1;
      }
      assert buffer[..|before|] == before;
      BegunStep(codes[..i], 3, before, part, u, encoded, b, rest, buffer, p, Used3(position));
      assert codes[..i+1] == codes[..i] + [encoded];
    }
    assert codes[..|codes|] == codes;
    BegunIsPacking(codes, 3, buffer, p, Used3(position));
  }

  // Four 2-bit codes fill a byte; at each position so many bits of the byte begun are used.
  function Used2(position: nat): (u: nat)
    requires position < 4
    ensures u < 8
  {
    match position
    case 0 => 0
    case 1 => 2
    case 2 => 4
    case 3 => 6
  }

  // The byte begun joined with a code, and what of the code is left for the next byte.
  function Place2(position: nat, cur: bv8, encoded: bv8): (bv8, bv8)
    requires position < 4
  {
    match position
    case 0 => Join0(encoded)
    case 1 => Join2(cur, encoded)
    case 2 => Join4(cur, encoded)
    case 3 => Join6(cur, encoded)
  }

  lemma Place2Adds(position: nat, cur: bv8, encoded: bv8)
    requires position < 4 && (position > 0 ==> Val(cur) < Pow2(Used2(position)))
    ensures Adds(Place2(position, cur, encoded), if position > 0 then cur else 0, encoded, Used2(position))
  {
    hide Adds, Pow2, Val, Join0, Join2, Join4, Join6;
    SmallPowers();
  }

  method Encode2(codes: seq<bv8>, buffer: array<bv8>)
    requires Fit(codes, 2) && PackedSize(|codes|, 2) <= buffer.Length
    modifies buffer
    ensures IsPacking(codes, 2, buffer[..PackedSize(|codes|, 2)])
    ensures forall k :: PackedSize(|codes|, 2) <= k < buffer.Length ==> buffer[k] == old(buffer[k])
  {
    hide Val, Pow2, Digits, Packed, IsPacking, Scaled, Place2;
    NothingPacked(2);
    assert codes[..0] == [] && buffer[..0] == [];
    var p: nat, position: nat := 0, 0;
    for i := 0 to |codes|
      invariant position < 4 && Begun(codes[..i], 2, buffer, p, Used2(position))
      invariant forall k :: Touched(p, Used2(position)) <= k < buffer.Length ==> buffer[k] == old(buffer[k])
    {
      var encoded := codes[i];
      ghost var before, u := buffer[..p], Used2(position);
      ghost var part := if position > 0 then buffer[p] else 0;
      PackedPart(codes[..i], 2, before, part, u);
      Place2Adds(position, buffer[p], encoded);
      var (b, rest) := Place2(position, buffer[p], encoded);
      buffer[p] := b;
      if position == 3 {
        p := p + 1;
        position := 0;
      } else {
        position := position + 1;
      }
      assert buffer[..|before|] == before;
      BegunStep(codes[..i], 2, before, part, u, encoded, b, rest, buffer, p, Used2(position));
      assert codes[..i+1] == codes[..i] + [encoded];
    }
    assert codes[..|codes|] == codes;
    BegunIsPacking(codes, 2, buffer, p, Used2(position));
  }

  method Encode4(codes: seq<bv8>, buffer: array<bv8>)
    requires Fit(codes, 4) && PackedSize(|codes|, 4) <= buffer.Length
    modifies buffer
    ensures IsPacking(codes, 4, buffer[..PackedSize(|codes|, 4)])
    ensures forall k :: PackedSize(|codes|, 4) <= k < buffer.Length ==> buffer[k] == old(buffer[k])
  {
    hide Val, Pow2, Digits, Packed, IsPacking, Scaled, Join0, Join4;
    SmallPowers();
    NothingPacked(4);
    assert codes[..0] == [] && buffer[..0] == [];
    var p: nat := 0;
    for i := 0 to |codes|
      invariant Begun(codes[..i], 4, buffer, p, if i % 2 == 0 then 0 else 4)
      invariant forall k :: Touched(p, if i % 2 == 0 then 0 else 4) <= k < buffer.Length ==> buffer[k] == old(buffer[k])
    {
      var encoded := codes[i];
      ghost var before, u := buffer[..p], if i % 2 == 0 then 0 else 4;
      ghost var part := if i % 2 == 0 then 0 else buffer[p];
      PackedPart(codes[..i], 4, before, part, u);
      var (b, rest) := if i % 2 == 0 then Join0(encoded) else Join4(buffer[p], encoded);
      buffer[p] := b;
      if i % 2 != 0 {
        p := p + 1;
      }
      assert buffer[..|before|] == before;
      BegunStep(codes[..i], 4, before, part, u, encoded, b, rest, buffer, p, if i % 2 == 0 then 4 else 0);
      assert codes[..i+1] == codes[..i] + [encoded];
    }
    assert codes[..|codes|] == codes;
    BegunIsPacking(codes, 4, buffer, p, if |codes| % 2 == 0 then 0 else 4);
  }

  method Encode8(codes: seq<bv8>, buffer: array<bv8>)
    requires PackedSize(|codes|, 8) <= buffer.Length
    modifies buffer
    ensures IsPacking(codes, 8, buffer[..PackedSize(|codes|, 8)])
    ensures forall k :: PackedSize(|codes|, 8) <= k < buffer.Length ==> buffer[k] == old(buffer[k])
  {
    for i := 0 to |codes|
      invariant buffer[..i] == codes[..i]
      invariant forall k :: i <= k < buffer.Length ==> buffer[k] == old(buffer[k])
    {
      buffer[i] := codes[i];
    }
    assert buffer[..|codes|] == codes;
  }
}
