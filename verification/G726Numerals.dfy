// Little-endian numerals over codes and over bytes.
//
// G.726 packs codes of 2 to 5 bits into octets with the first code in the least
// significant bits (section 4.5.4 of RFC 3551).  Read as little-endian numerals, the
// codes and the bytes they are packed into are then the same number.

module G726Numerals {
  import opened Arithmetic

  // The number a byte stands for, bit by bit.
  function Val(b: bv8): (v: nat)
    ensures v < 0x100
  {
    (if b & 1 != 0 then 1 else 0) + (if b & 2 != 0 then 2 else 0) +
    (if b & 4 != 0 then 4 else 0) + (if b & 8 != 0 then 8 else 0) +
    (if b & 16 != 0 then 16 else 0) + (if b & 32 != 0 then 32 else 0) +
    (if b & 64 != 0 then 64 else 0) + (if b & 128 != 0 then 128 else 0)
  }

  lemma ValIsInjective(a: bv8, b: bv8)
    requires Val(a) == Val(b)
    ensures a == b
  {
    assert (a & 128 != 0) == (b & 128 != 0);
    assert (a & 64 != 0) == (b & 64 != 0);
    assert (a & 32 != 0) == (b & 32 != 0);
    assert (a & 16 != 0) == (b & 16 != 0);
  }

  function Pow2(n: nat): (p: nat)
    ensures p > 0
  {
    if n == 0 then 1 else 2 * Pow2(n - 1)
  }

  lemma {:induction false} PowAdds(m: nat, n: nat)
    ensures Pow2(m + n) == Pow2(m) * Pow2(n)
  {
    if n > 0 {
      PowAdds(m, n - 1);
    }
  }

  lemma SmallPowers()
    ensures Pow2(0) == 1 && Pow2(1) == 2 && Pow2(2) == 4 && Pow2(3) == 8 && Pow2(4) == 16
    ensures Pow2(5) == 32 && Pow2(6) == 64 && Pow2(7) == 128 && Pow2(8) == 256
  {
    assert Pow2(2) == 2 * Pow2(1) == 4;
    assert Pow2(4) == 2 * Pow2(3) == 4 * Pow2(2);
    assert Pow2(6) == 2 * Pow2(5) == 4 * Pow2(4);
    assert Pow2(8) == 2 * Pow2(7) == 4 * Pow2(6);
  }

  // ---------- Numerals ----------

  // The digits s, each of w bits, the first one the least significant.
  function Digits(s: seq<bv8>, w: nat): nat {
    if s == [] then 0
    else Digits(s[..|s|-1], w) + Val(s[|s|-1]) * Pow2(w * (|s| - 1))
  }

  predicate Fit(s: seq<bv8>, w: nat) {
    forall i :: 0 <= i < |s| ==> Val(s[i]) < Pow2(w)
  }

  lemma DigitsSnoc(s: seq<bv8>, d: bv8, w: nat)
    ensures Digits(s + [d], w) == Digits(s, w) + Val(d) * Pow2(w * |s|)
  {
    assert (s + [d])[..|s|] == s;
  }

  lemma Distribute(a: nat, b: nat, p: nat, q: nat)
    ensures (b + a * p) * q == b * q + a * (p * q)
  {
  }

  lemma NoDigits(w: nat)
    ensures Digits([], w) == 0 && Pow2(0) == 1
  {
  }

  lemma {:induction false} DigitsAppend(s: seq<bv8>, t: seq<bv8>, w: nat)
    ensures Digits(s + t, w) == Digits(s, w) + Digits(t, w) * Pow2(w * |s|)
  {
    hide Val, Pow2, Digits;
    if t == [] {
      assert s + t == s;
      NoDigits(w);
    } else {
      var t', d := t[..|t|-1], t[|t|-1];
      var m, n := w * |s|, w * |t'|;
      assert t == t' + [d];
      assert s + t == (s + t') + [d];
      DigitsAppend(s, t', w);
      DigitsSnoc(s + t', d, w);
      DigitsSnoc(t', d, w);
      LengthAdds(s, t', w);
      PowAdds(n, m);
      Distribute(Val(d), Digits(t', w), Pow2(n), Pow2(m));
    }
  }

  lemma LengthAdds(s: seq<bv8>, t: seq<bv8>, w: nat)
    ensures w * |s + t| == w * |t| + w * |s|
  {
  }

  lemma Carry(a: nat, x: nat, p: nat, b: nat)
    requires a < p && x < b
    ensures a + x * p < b * p
  {
    assert x * p + p <= b * p by {
      assert (x + 1) * p <= b * p;
    }
  }

  lemma NotBelow(x: nat, p: nat)
    ensures x > 0 ==> x * p >= p
  {
  }

  lemma {:induction false} DigitsBound(s: seq<bv8>, w: nat)
    requires Fit(s, w)
    ensures Digits(s, w) < Pow2(w * |s|)
  {
    hide Val, Pow2;
    if s == [] {
      SmallPowers();
    } else {
      var s', d := s[..|s|-1], s[|s|-1];
      DigitsBound(s', w);
      assert w * |s| == w + w * |s'|;
      PowAdds(w, w * |s'|);
      Carry(Digits(s', w), Val(d), Pow2(w * |s'|), Pow2(w));
    }
  }

  lemma SplitUnique(a: nat, x: nat, b: nat, y: nat, p: nat)
    requires a < p && b < p && a + x * p == b + y * p
    ensures a == b && x == y
  {
    if x < y {
      Carry(a, x, p, y);
    } else if y < x {
      Carry(b, y, p, x);
    }
  }

  // Numerals of one length determine their digits.
  lemma {:induction false} DigitsUnique(s: seq<bv8>, t: seq<bv8>, w: nat)
    requires |s| == |t| && Fit(s, w) && Fit(t, w) && Digits(s, w) == Digits(t, w)
    ensures s == t
  {
    hide Val, Pow2;
    if s != [] {
      var s', t' := s[..|s|-1], t[..|t|-1];
      DigitsBound(s', w);
      DigitsBound(t', w);
      SplitUnique(Digits(s', w), Val(s[|s|-1]), Digits(t', w), Val(t[|t|-1]), Pow2(w * |s'|));
      ValIsInjective(s[|s|-1], t[|t|-1]);
      DigitsUnique(s', t', w);
      assert s == s' + [s[|s|-1]] && t == t' + [t[|t|-1]];
    }
  }

  function Zeros(n: nat): seq<bv8> {
    seq(n, _ => 0)
  }

  lemma {:induction false} ZerosAddNothing(s: seq<bv8>, n: nat, w: nat)
    requires Fit(s, w)
    ensures Digits(s + Zeros(n), w) == Digits(s, w) && Fit(s + Zeros(n), w)
  {
    if n == 0 {
      assert s + Zeros(n) == s;
    } else {
      ZerosAddNothing(s, n - 1, w);
      assert s + Zeros(n) == s + Zeros(n - 1) + [0];
      DigitsSnoc(s + Zeros(n - 1), 0, w);
    }
  }

  lemma ZerosAreZero(n: nat, w: nat)
    ensures |Zeros(n)| == n && Fit(Zeros(n), w) && Digits(Zeros(n), w) == 0
  {
    hide Val, Pow2;
    ZerosAddNothing([], n, w);
    assert [] + Zeros(n) == Zeros(n);
  }

  lemma BytesFit(s: seq<bv8>)
    ensures Fit(s, 8)
  {
    SmallPowers();
  }

  // ---------- Packing ----------

  function PackedSize(n: nat, w: nat): nat {
    (n * w + 7) / 8
  }

  // bytes are the packed form of the codes, each of w bits.
  ghost predicate IsPacking(codes: seq<bv8>, w: nat, bytes: seq<bv8>) {
    && |bytes| == PackedSize(|codes|, w)
    && Digits(bytes, 8) == Digits(codes, w)
  }

  // out are the codes of w bits that fit into bytes; what is left over is less than a code.
  ghost predicate IsUnpacking(bytes: seq<bv8>, w: nat, out: seq<bv8>)
    requires w > 0
  {
    && |out| == 8 * |bytes| / w && Fit(out, w)
    && exists rest: nat :: Digits(bytes, 8) == Digits(out, w) + rest * Pow2(w * |out|)
  }

  lemma PackingIsUnique(codes: seq<bv8>, w: nat, bytes: seq<bv8>, bytes': seq<bv8>)
    requires IsPacking(codes, w, bytes) && IsPacking(codes, w, bytes')
    ensures bytes == bytes'
  {
    BytesFit(bytes);
    BytesFit(bytes');
    DigitsUnique(bytes, bytes', 8);
  }

  lemma SizeInverse(n: nat, w: nat)
    requires 0 < w <= 8
    ensures n <= 8 * PackedSize(n, w) / w
    ensures PackedSize(8 * n / w, w) == n
  {
    Quotient(8 * PackedSize(n, w), w);
    TimesGrows(w, 8 * PackedSize(n, w) / w, n);
    Quotient(8 * n, w);
  }

  // Unpacking what was packed gives the codes back, followed by zero codes only.
  lemma UnpackAfterPack(codes: seq<bv8>, w: nat, bytes: seq<bv8>, out: seq<bv8>)
    requires 0 < w <= 8 && Fit(codes, w)
    requires IsPacking(codes, w, bytes) && IsUnpacking(bytes, w, out)
    ensures |codes| <= |out| && out == codes + Zeros(|out| - |codes|)
  {
    hide Val, Digits, Pow2, PackedSize;
    SizeInverse(|codes|, w);
    var padded := codes + Zeros(|out| - |codes|);
    ZerosAddNothing(codes, |out| - |codes|, w);
    var rest: nat :| Digits(bytes, 8) == Digits(out, w) + rest * Pow2(w * |out|);
    DigitsBound(padded, w);
    DigitsBound(out, w);
    SplitUnique(Digits(padded, w), 0, Digits(out, w), rest, Pow2(w * |out|));
    DigitsUnique(padded, out, w);
  }

  // Packing what was unpacked gives the bytes back exactly when the bits that make up
  // no whole code, at the top of the last byte, are zero.
  lemma PackAfterUnpackIff(bytes: seq<bv8>, w: nat, out: seq<bv8>, bytes': seq<bv8>)
    requires 0 < w <= 8
    requires IsUnpacking(bytes, w, out) && IsPacking(out, w, bytes')
    ensures bytes' == bytes <==>
            bytes == [] || Val(bytes[|bytes|-1]) < Pow2(8 - 8 * |bytes| % w)
  {
    hide Val, Digits, Pow2, PackedSize;
    SizeInverse(|bytes|, w);
    var rest: nat :| Digits(bytes, 8) == Digits(out, w) + rest * Pow2(w * |out|);
    DigitsBound(out, w);
    BytesFit(bytes);
    BytesFit(bytes');
    if Digits(bytes', 8) == Digits(bytes, 8) {
      DigitsUnique(bytes', bytes, 8);
    }
    assert bytes' == bytes <==> rest == 0 by {
      NotBelow(rest, Pow2(w * |out|));
    }
    RestIsTop(bytes, w, Digits(out, w), rest);
  }

  lemma RestIsTop(bytes: seq<bv8>, w: nat, low: nat, rest: nat)
    requires 0 < w <= 8
    requires var n := w * (8 * |bytes| / w); Digits(bytes, 8) == low + rest * Pow2(n) && low < Pow2(n)
    ensures rest == 0 <==> bytes == [] || Val(bytes[|bytes|-1]) < Pow2(8 - 8 * |bytes| % w)
  {
    hide Val, Pow2, Digits;
    var n, r := w * (8 * |bytes| / w), 8 * |bytes| % w;
    assert n + r == 8 * |bytes|;
    if bytes == [] {
      NoDigits(8);
      NotBelow(rest, Pow2(n));
    } else {
      SplitAtTop(bytes, n, 8 - r, low, rest);
    }
  }

  // The bytes split below their top q bits.
  lemma SplitAtTop(bytes: seq<bv8>, n: nat, q: nat, low: nat, rest: nat)
    requires bytes != [] && n == q + 8 * (|bytes| - 1)
    requires Digits(bytes, 8) == low + rest * Pow2(n) && low < Pow2(n)
    ensures rest == 0 <==> Val(bytes[|bytes|-1]) < Pow2(q)
  {
    hide Val, Pow2, Digits;
    var before, top := bytes[..|bytes|-1], bytes[|bytes|-1];
    var m := 8 * |before|;
    assert bytes == before + [top];
    DigitsSnoc(before, top, 8);
    BytesFit(before);
    DigitsBound(before, 8);
    PowAdds(q, m);
    TopDigit(Digits(before, 8), Val(top), Pow2(m), Pow2(q), low, rest);
  }

  // One number split at p and at the greater p * q.
  lemma TopDigit(a: nat, x: nat, p: nat, q: nat, b: nat, y: nat)
    requires a < p && b < q * p && a + x * p == b + y * (q * p)
    ensures y == 0 <==> x < q
  {
    if x < q {
      Carry(a, x, p, q);
      NotBelow(y, q * p);
    } else {
      assert x * p >= q * p;
    }
  }

  // Whole groups leave no bits over.
  lemma PackAfterUnpackGroups(bytes: seq<bv8>, w: nat, out: seq<bv8>, bytes': seq<bv8>)
    requires 0 < w <= 8 && 8 * |bytes| % w == 0
    requires IsUnpacking(bytes, w, out) && IsPacking(out, w, bytes')
    ensures bytes' == bytes
  {
    PackAfterUnpackIff(bytes, w, out, bytes');
    SmallPowers();
  }
}
