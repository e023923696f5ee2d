// The bit unpacker of the streamed audio codec (G.726): bytes into codes.

module G726Unpacker {
  import opened Arithmetic
  import opened G726Numerals

  // The bytes so far are the codes out and u bits left over.
  ghost predicate Unpacked(bytes: seq<bv8>, w: nat, out: seq<bv8>, rem: bv8, u: nat) {
    && u < w && 8 * |bytes| == w * |out| + u
    && Fit(out, w) && Val(rem) < Pow2(u)
    && Digits(bytes, 8) == Digits(out, w) + Val(rem) * Pow2(w * |out|)
  }

  // The codes taken and what is left over are the bits left over before and the byte b.
  ghost predicate Takes(taken: (seq<bv8>, bv8), w: nat, rem: bv8, u: nat, b: bv8, u': nat) {
    && Fit(taken.0, w) && Val(taken.1) < Pow2(u')
    && Digits(taken.0, w) + Val(taken.1) * Pow2(w * |taken.0|) == Val(rem) + Pow2(u) * Val(b)
    && u + 8 == w * |taken.0| + u'
  }

  lemma UnpackStep(bytes: seq<bv8>, w: nat, out: seq<bv8>, rem: bv8, u: nat, b: bv8,
                   taken: (seq<bv8>, bv8), u': nat)
    requires Unpacked(bytes, w, out, rem, u) && Takes(taken, w, rem, u, b, u') && u' < w
    ensures Unpacked(bytes + [b], w, out + taken.0, taken.1, u')
  {
    hide Val, Pow2, Digits;
    var n, m, k := 8 * |bytes|, w * |out|, w * |taken.0|;
    SizeAdds(w, |out|, |taken.0|);
    DigitsSnoc(bytes, b, 8);
    DigitsAppend(out, taken.0, w);
    PowAdds(m, u);
    PowAdds(m, k);
    SumOfParts(Digits(taken.0, w), Val(taken.1), Val(rem), Val(b), Pow2(m), Pow2(k), Pow2(u), Pow2(n), Pow2(m + k));
  }

  lemma SizeAdds(w: nat, m: nat, n: nat)
    ensures w * (m + n) == w * m + w * n
  {
  }

  lemma SumOfParts(d: nat, rest: nat, rem: nat, b: nat, p: nat, q: nat, v: nat, pv: nat, pq: nat)
    requires d + rest * q == rem + v * b && pv == p * v && pq == p * q
    ensures rem * p + b * pv == d * p + rest * pq
  {
    assert b * (p * v) == (v * b) * p;
    assert rest * (p * q) == (rest * q) * p;
    assert (rem + v * b) * p == (d + rest * q) * p;
  }

  // All bytes unpacked: the bits left over are less than a code.
  lemma UnpackedIsUnpacking(bytes: seq<bv8>, w: nat, out: seq<bv8>, rem: bv8, u: nat)
    requires Unpacked(bytes, w, out, rem, u)
    ensures IsUnpacking(bytes, w, out)
  {
    hide Val, Pow2, Digits;
    DivModUnique(8 * |bytes|, w, |out|, u);
  }

  lemma NothingUnpacked(w: nat)
    requires w > 0
    ensures Unpacked([], w, [], 0, 0)
  {
  }

  lemma ValOfZero()
    ensures Val(0) == 0
  {
  }

  // ---------- Numerals of a few codes ----------

  lemma FewDigits(a: bv8, b: bv8, c: bv8, d: bv8, w: nat)
    ensures Digits([a], w) == Val(a)
    ensures Digits([a, b], w) == Val(a) + Val(b) * Pow2(w)
    ensures Digits([a, b, c], w) == Val(a) + Val(b) * Pow2(w) + Val(c) * Pow2(2 * w)
    ensures Digits([a, b, c, d], w) == Val(a) + Val(b) * Pow2(w) + Val(c) * Pow2(2 * w) + Val(d) * Pow2(3 * w)
  {
    hide Val, Pow2, Digits;
    NoDigits(w);
    assert [] + [a] == [a] && [a] + [b] == [a, b] && [a, b] + [c] == [a, b, c] && [a, b, c] + [d] == [a, b, c, d];
    SnocAfter([], a, w, 0);
    SnocAfter([a], b, w, 1);
    SnocAfter([a, b], c, w, 2);
    SnocAfter([a, b, c], d, w, 3);
  }

  lemma SnocAfter(s: seq<bv8>, d: bv8, w: nat, n: nat)
    requires |s| == n
    ensures Digits(s + [d], w) == Digits(s, w) + Val(d) * Pow2(n * w)
  {
    hide Val, Pow2, Digits;
    DigitsSnoc(s, d, w);
    assert w * |s| == n * w;
  }

  // ---------- Taking codes out of a byte ----------

  lemma Bits5at0(b: bv8)
    ensures Val(b & 31) + 32 * Val(b >> 5) == Val(b)
    ensures Val(b & 31) < 32 && Val(b >> 5) < 8
  {
  }

  function Take5at0(b: bv8): (r: (seq<bv8>, bv8))
    ensures Takes(r, 5, 0, 0, b, 3)
  {
    hide Val, Digits;
    Bits5at0(b);
    SmallPowers();
    ValOfZero();
    FewDigits(b & 31, 0, 0, 0, 5);
    ([b & 31], b >> 5)
  }

  lemma Bits5at1(b: bv8, rem: bv8)
    ensures Val(rem) < 8 ==>
              Val(((b & 3) << 3) | rem) + 32 * Val((b >> 2) & 31) + 1024 * Val(b >> 7) == Val(rem) + 8 * Val(b)
    ensures Val(rem) < 8 ==> Val(((b & 3) << 3) | rem) < 32 && Val((b >> 2) & 31) < 32 && Val(b >> 7) < 2
  {
  }

  function Take5at1(b: bv8, rem: bv8): (r: (seq<bv8>, bv8))
    ensures Val(rem) < 8 ==> Takes(r, 5, rem, 3, b, 1)
  {
    hide Val, Digits;
    Bits5at1(b, rem);
    SmallPowers();
    ValOfZero();
    FewDigits(((b & 3) << 3) | rem, (b >> 2) & 31, 0, 0, 5);
    ([((b & 3) << 3) | rem, (b >> 2) & 31], b >> 7)
  }

  lemma Bits5at2(b: bv8, rem: bv8)
    ensures Val(rem) < 2 ==> Val(rem | ((b & 15) << 1)) + 32 * Val(b >> 4) == Val(rem) + 2 * Val(b)
    ensures Val(rem) < 2 ==> Val(rem | ((b & 15) << 1)) < 32 && Val(b >> 4) < 16
  {
  }

  function Take5at2(b: bv8, rem: bv8): (r: (seq<bv8>, bv8))
    ensures Val(rem) < 2 ==> Takes(r, 5, rem, 1, b, 4)
  {
    hide Val, Digits;
    Bits5at2(b, rem);
    SmallPowers();
    ValOfZero();
    FewDigits(rem | ((b & 15) << 1), 0, 0, 0, 5);
    ([rem | ((b & 15) << 1)], b >> 4)
  }

  lemma Bits5at3(b: bv8, rem: bv8)
    ensures Val(rem) < 16 ==>
              Val(rem | ((b & 1) << 4)) + 32 * Val((b >> 1) & 31) + 1024 * Val(b >> 6) == Val(rem) + 16 * Val(b)
    ensures Val(rem) < 16 ==> Val(rem | ((b & 1) << 4)) < 32 && Val((b >> 1) & 31) < 32 && Val(b >> 6) < 4
  {
  }

  function Take5at3(b: bv8, rem: bv8): (r: (seq<bv8>, bv8))
    ensures Val(rem) < 16 ==> Takes(r, 5, rem, 4, b, 2)
  {
    hide Val, Digits;
    Bits5at3(b, rem);
    SmallPowers();
    ValOfZero();
    FewDigits(rem | ((b & 1) << 4), (b >> 1) & 31, 0, 0, 5);
    ([rem | ((b & 1) << 4), (b >> 1) & 31], b >> 6)
  }

  lemma Bits5at4(b: bv8, rem: bv8)
    ensures Val(rem) < 4 ==> Val(rem | ((b & 7) << 2)) + 32 * Val(b >> 3) == Val(rem) + 4 * Val(b)
    ensures Val(rem) < 4 ==> Val(rem | ((b & 7) << 2)) < 32 && Val(b >> 3) < 32
  {
  }

  function Take5at4(b: bv8, rem: bv8): (r: (seq<bv8>, bv8))
    ensures Val(rem) < 4 ==> Takes(r, 5, rem, 2, b, 0)
  {
    hide Val, Digits;
    Bits5at4(b, rem);
    SmallPowers();
    ValOfZero();
    FewDigits(rem | ((b & 7) << 2), b >> 3, 0, 0, 5);
    ([rem | ((b & 7) << 2), b >> 3], 0)
  }

  lemma Bits4(b: bv8)
    ensures Val(b & 15) + 16 * Val(b >> 4) == Val(b)
    ensures Val(b & 15) < 16 && Val(b >> 4) < 16
  {
  }

  function Take4(b: bv8): (r: (seq<bv8>, bv8))
    ensures Takes(r, 4, 0, 0, b, 0)
  {
    hide Val, Digits;
    Bits4(b);
    SmallPowers();
    ValOfZero();
    FewDigits(b & 15, b >> 4, 0, 0, 4);
    ([b & 15, b >> 4], 0)
  }

  lemma Bits3at0(b: bv8)
    ensures Val(b & 7) + 8 * Val((b >> 3) & 7) + 64 * Val(b >> 6) == Val(b)
    ensures Val(b & 7) < 8 && Val((b >> 3) & 7) < 8 && Val(b >> 6) < 4
  {
  }

  function Take3at0(b: bv8): (r: (seq<bv8>, bv8))
    ensures Takes(r, 3, 0, 0, b, 2)
  {
    hide Val, Digits;
    Bits3at0(b);
    SmallPowers();
    ValOfZero();
    FewDigits(b & 7, (b >> 3) & 7, 0, 0, 3);
    ([b & 7, (b >> 3) & 7], b >> 6)
  }

  lemma Bits3at1(b: bv8, rem: bv8)
    ensures Val(rem) < 4 ==>
              Val(rem | ((b & 1) << 2)) + 8 * Val((b >> 1) & 7) + 64 * Val((b >> 4) & 7) + 512 * Val(b >> 7) ==
              Val(rem) + 4 * Val(b)
    ensures Val(rem) < 4 ==>
              Val(rem | ((b & 1) << 2)) < 8 && Val((b >> 1) & 7) < 8 && Val((b >> 4) & 7) < 8 && Val(b >> 7) < 2
  {
  }

  function Take3at1(b: bv8, rem: bv8): (r: (seq<bv8>, bv8))
    ensures Val(rem) < 4 ==> Takes(r, 3, rem, 2, b, 1)
  {
    hide Val, Digits;
    Bits3at1(b, rem);
    SmallPowers();
    ValOfZero();
    FewDigits(rem | ((b & 1) << 2), (b >> 1) & 7, (b >> 4) & 7, 0, 3);
    ([rem | ((b & 1) << 2), (b >> 1) & 7, (b >> 4) & 7], b >> 7)
  }

  lemma Bits3at2(b: bv8, rem: bv8)
    ensures Val(rem) < 2 ==>
              Val(rem | ((b & 3) << 1)) + 8 * Val((b >> 2) & 7) + 64 * Val((b >> 5) & 7) == Val(rem) + 2 * Val(b)
    ensures Val(rem) < 2 ==> Val(rem | ((b & 3) << 1)) < 8 && Val((b >> 2) & 7) < 8 && Val((b >> 5) & 7) < 8
  {
  }

  function Take3at2(b: bv8, rem: bv8): (r: (seq<bv8>, bv8))
    ensures Val(rem) < 2 ==> Takes(r, 3, rem, 1, b, 0)
  {
    hide Val, Digits;
    Bits3at2(b, rem);
    SmallPowers();
    ValOfZero();
    FewDigits(rem | ((b & 3) << 1), (b >> 2) & 7, (b >> 5) & 7, 0, 3);
    ([rem | ((b & 3) << 1), (b >> 2) & 7, (b >> 5) & 7], 0)
  }

  lemma Bits2(b: bv8)
    ensures Val(b & 3) + 4 * Val((b >> 2) & 3) + 16 * Val((b >> 4) & 3) + 64 * Val((b >> 6) & 3) == Val(b)
    ensures Val(b & 3) < 4 && Val((b >> 2) & 3) < 4 && Val((b >> 4) & 3) < 4 && Val((b >> 6) & 3) < 4
  {
  }

  function Take2(b: bv8): (r: (seq<bv8>, bv8))
    ensures Takes(r, 2, 0, 0, b, 0)
  {
    hide Val, Digits;
    Bits2(b);
    SmallPowers();
    ValOfZero();
    FewDigits(b & 3, (b >> 2) & 3, (b >> 4) & 3, (b >> 6) & 3, 2);
    ([b & 3, (b >> 2) & 3, (b >> 4) & 3, (b >> 6) & 3], 0)
  }

  // Five bytes hold eight 5-bit codes; so many bits are left over before each byte.
  function Left5(position: nat): nat
    requires position < 5
  {
    match position
    case 0 => 0
    case 1 => 3
    case 2 => 1
    case 3 => 4
    case 4 => 2
  }

  function Take5(position: nat, b: bv8, rem: bv8): (seq<bv8>, bv8)
    requires position < 5
  {
    match position
    case 0 => Take5at0(b)
    case 1 => Take5at1(b, rem)
    case 2 => Take5at2(b, rem)
    case 3 => Take5at3(b, rem)
    case 4 => Take5at4(b, rem)
  }

  lemma Take5Takes(position: nat, b: bv8, rem: bv8)
    requires position < 5 && (position > 0 ==> Val(rem) < Pow2(Left5(position)))
    ensures Takes(Take5(position, b, rem), 5, if position > 0 then rem else 0, Left5(position), b,
                  Left5((position + 1) % 5))
  {
    hide Takes, Pow2, Val, Take5at0, Take5at1, Take5at2, Take5at3, Take5at4;
    SmallPowers();
  }

  method Decode5(buffer: seq<bv8>) returns (out: seq<bv8>)
    ensures IsUnpacking(buffer, 5, out)
  {
    hide Val, Pow2, Digits, Unpacked, Takes, Take5, IsUnpacking;
    NothingUnpacked(5);
    out := [];
    var position: nat, remaining: bv8 := 0, 0;
    assert buffer[..0] == [];
    for i := 0 to |buffer|
      invariant position < 5
      invariant Unpacked(buffer[..i], 5, out, if position > 0 then remaining else 0, Left5(position))
    {
      ghost var rem := if position > 0 then remaining else 0;
      LeftOver(buffer[..i], 5, out, rem, Left5(position));
      Take5Takes(position, buffer[i], remaining);
      var taken := Take5(position, buffer[i], remaining);
      UnpackStep(buffer[..i], 5, out, rem, Left5(position), buffer[i], taken, Left5((position + 1) % 5));
      WholeCodes(buffer[..i] + [buffer[i]], 5, out + taken.0, taken.1);
      out := out + taken.0;
      remaining := taken.1;
      position := if position < 4 then position + 1 else 0;
      assert buffer[..i+1] == buffer[..i] + [buffer[i]];
    }
    assert buffer[..|buffer|] == buffer;
    UnpackedIsUnpacking(buffer, 5, out, if position > 0 then remaining else 0, Left5(position));
  }

  // Three bytes hold eight 3-bit codes; so many bits are left over before each byte.
  function Left3(position: nat): nat
    requires position < 3
  {
    match position
    case 0 => 0
    case 1 => 2
    case 2 => 1
  }

  function Take3(position: nat, b: bv8, rem: bv8): (seq<bv8>, bv8)
    requires position < 3
  {
    match position
    case 0 => Take3at0(b)
    case 1 => Take3at1(b, rem)
    case 2 => Take3at2(b, rem)
  }

  lemma Take3Takes(position: nat, b: bv8, rem: bv8)
    requires position < 3 && (position > 0 ==> Val(rem) < Pow2(Left3(position)))
    ensures Takes(Take3(position, b, rem), 3, if position > 0 then rem else 0, Left3(position), b,
                  Left3((position + 1) % 3))
  {
    hide Takes, Pow2, Val, Take3at0, Take3at1, Take3at2;
    SmallPowers();
  }

  method Decode3(buffer: seq<bv8>) returns (out: seq<bv8>)
    ensures IsUnpacking(buffer, 3, out)
  {
    hide Val, Pow2, Digits, Unpacked, Takes, Take3, IsUnpacking;
    NothingUnpacked(3);
    out := [];
    var position: nat, remaining: bv8 := 0, 0;
    assert buffer[..0] == [];
    for i := 0 to |buffer|
      invariant position < 3
      invariant Unpacked(buffer[..i], 3, out, if position > 0 then remaining else 0, Left3(position))
    {
      ghost var rem := if position > 0 then remaining else 0;
      LeftOver(buffer[..i], 3, out, rem, Left3(position));
      Take3Takes(position, buffer[i], remaining);
      var taken := Take3(position, buffer[i], remaining);
      UnpackStep(buffer[..i], 3, out, rem, Left3(position), buffer[i], taken, Left3((position + 1) % 3));
      WholeCodes(buffer[..i] + [buffer[i]], 3, out + taken.0, taken.1);
      out := out + taken.0;
      remaining := taken.1;
      position := if position < 2 then position + 1 else 0;
      assert buffer[..i+1] == buffer[..i] + [buffer[i]];
    }
    assert buffer[..|buffer|] == buffer;
    UnpackedIsUnpacking(buffer, 3, out, if position > 0 then remaining else 0, Left3(position));
  }

  method Decode4(buffer: seq<bv8>) returns (out: seq<bv8>)
    ensures IsUnpacking(buffer, 4, out)
  {
    hide Val, Pow2, Digits, Unpacked, Takes, Take4, IsUnpacking;
    NothingUnpacked(4);
    out := [];
    assert buffer[..0] == [];
    for i := 0 to |buffer|
      invariant Unpacked(buffer[..i], 4, out, 0, 0)
    {
      var taken := Take4(buffer[i]);
      UnpackStep(buffer[..i], 4, out, 0, 0, buffer[i], taken, 0);
      WholeCodes(buffer[..i] + [buffer[i]], 4, out + taken.0, taken.1);
      out := out + taken.0;
      assert buffer[..i+1] == buffer[..i] + [buffer[i]];
    }
    assert buffer[..|buffer|] == buffer;
    UnpackedIsUnpacking(buffer, 4, out, 0, 0);
  }

  method Decode2(buffer: seq<bv8>) returns (out: seq<bv8>)
    ensures IsUnpacking(buffer, 2, out)
  {
    hide Val, Pow2, Digits, Unpacked, Takes, Take2, IsUnpacking;
    NothingUnpacked(2);
    out := [];
    assert buffer[..0] == [];
    for i := 0 to |buffer|
      invariant Unpacked(buffer[..i], 2, out, 0, 0)
    {
      var taken := Take2(buffer[i]);
      UnpackStep(buffer[..i], 2, out, 0, 0, buffer[i], taken, 0);
      WholeCodes(buffer[..i] + [buffer[i]], 2, out + taken.0, taken.1);
      out := out + taken.0;
      assert buffer[..i+1] == buffer[..i] + [buffer[i]];
    }
    assert buffer[..|buffer|] == buffer;
    UnpackedIsUnpacking(buffer, 2, out, 0, 0);
  }

  method Decode8(buffer: seq<bv8>) returns (out: seq<bv8>)
    ensures IsUnpacking(buffer, 8, out)
  {
    out := [];
    for i := 0 to |buffer|
      invariant out == buffer[..i]
    {
      out := out + [buffer[i]];
    }
    assert buffer[..|buffer|] == buffer;
    BytesFit(out);
    assert Digits(buffer, 8) == Digits(out, 8) + 0 * Pow2(8 * |out|);
  }

  lemma LeftOver(bytes: seq<bv8>, w: nat, out: seq<bv8>, rem: bv8, u: nat)
    requires Unpacked(bytes, w, out, rem, u)
    ensures Val(rem) < Pow2(u)
  {
  }

  lemma WholeCodes(bytes: seq<bv8>, w: nat, out: seq<bv8>, rem: bv8)
    ensures Unpacked(bytes, w, out, rem, 0) ==> Unpacked(bytes, w, out, 0, 0)
  {
    hide Digits;
  }
}
