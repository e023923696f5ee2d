// The built-in resampler: the nearest earlier sample, channels dealt out in turn.

module AudioResampler {
  import opened Arithmetic

  // The source frame that destination frame i is taken from.
  function FrameIndex(i: nat, sr: nat, dr: nat): nat
    requires dr > 0
  {
    i * sr / dr
  }

  // Index of the source sample that destination sample k is taken from; sr, sc and
  // dr, dc are the rates and channel counts.
  function SourceIndex(k: nat, sr: nat, sc: nat, dr: nat, dc: nat): nat
    requires dr > 0 && sc > 0 && dc > 0
  {
    FrameIndex(k / dc, sr, dr) * sc + k % dc % sc
  }

  // Source and destination blocks last equally long.
  predicate SameDuration(src: seq<int>, sr: nat, sc: nat, dr: nat, dc: nat, n: nat) {
    && sr > 0 && dr > 0 && sc > 0 && dc > 0
    && |src| % sc == 0 && n % dc == 0
    && |src| / sc * dr == n / dc * sr
  }

  lemma QuotientBound(a: nat, d: nat, b: nat)
    requires d > 0 && a < b * d
    ensures a / d < b
  {
    assert a == a / d * d + a % d;
    TimesGrows(d, b, a / d);
  }

  lemma FrameInBounds(i: nat, srcFrames: nat, dstFrames: nat, sr: nat, dr: nat)
    requires sr > 0 && dr > 0 && srcFrames * dr == dstFrames * sr && i < dstFrames
    ensures FrameIndex(i, sr, dr) < srcFrames
  {
    assert i * sr < dstFrames * sr;
    QuotientBound(i * sr, dr, srcFrames);
  }

  lemma SampleInBounds(f: nat, c: nat, frames: nat, channels: nat)
    requires f < frames && c < channels
    ensures f * channels + c < frames * channels
  {
    assert (f + 1) * channels <= frames * channels;
  }

  lemma FrameOf(k: nat, n: nat, channels: nat)
    requires channels > 0 && k < n && n % channels == 0
    ensures k / channels < n / channels && k / channels * channels + k % channels == k
  {
    QuotientBound(k, channels, n / channels);
  }

  // For all rates: channel j of frame i is taken from the source frame that is the last to
  // begin no later than it, f / sr <= i / dr < (f + 1) / sr, and from the channel that comes
  // to it as the source channels are dealt out again and again.
  lemma NearestEarlier(i: nat, j: nat, sr: nat, sc: nat, dr: nat, dc: nat) returns (f: nat, round: nat, c: nat)
    requires sr > 0 && dr > 0 && sc > 0 && j < dc
    ensures SourceIndex(i * dc + j, sr, sc, dr, dc) == f * sc + c
    ensures f * dr <= i * sr < (f + 1) * dr
    ensures c < sc && j == round * sc + c
  {
    hide SourceIndex, FrameIndex;
    f, round, c := FrameIndex(i, sr, dr), j / sc, j % sc;
    IndexOfSample(i, j, sr, sc, dr, dc);
    LastToBegin(i, sr, dr);
  }

  lemma LastToBegin(i: nat, sr: nat, dr: nat)
    requires dr > 0
    ensures FrameIndex(i, sr, dr) * dr <= i * sr < (FrameIndex(i, sr, dr) + 1) * dr
  {
    Quotient(i * sr, dr);
    NextFrame(FrameIndex(i, sr, dr), dr);
  }

  // Whatever the rates and channel counts, every index lies inside the source block.
  lemma SourceInBounds(src: seq<int>, sr: nat, sc: nat, dr: nat, dc: nat, n: nat, k: nat)
    requires SameDuration(src, sr, sc, dr, dc, n) && k < n
    ensures SourceIndex(k, sr, sc, dr, dc) < |src|
  {
    FrameOf(k, n, dc);
    FrameInBounds(k / dc, |src| / sc, n / dc, sr, dr);
    SampleInBounds(FrameIndex(k / dc, sr, dr), k % dc % sc, |src| / sc, sc);
  }

  ghost predicate IsResampled(src: seq<int>, sr: nat, sc: nat, dr: nat, dc: nat, dst: seq<int>)
    requires SameDuration(src, sr, sc, dr, dc, |dst|)
  {
    forall k :: 0 <= k < |dst| ==>
      SourceIndex(k, sr, sc, dr, dc) < |src| && dst[k] == src[SourceIndex(k, sr, sc, dr, dc)]
  }

  lemma IndexOfSample(i: nat, j: nat, sr: nat, sc: nat, dr: nat, dc: nat)
    requires dr > 0 && sc > 0 && j < dc
    ensures SourceIndex(i * dc + j, sr, sc, dr, dc) == FrameIndex(i, sr, dr) * sc + j % sc
  {
    DivModUnique(i * dc + j, dc, i, j);
  }

  lemma NextChannel(j: nat, sc: nat)
    requires sc > 0
    ensures (j + 1) % sc == if j % sc + 1 >= sc then 0 else j % sc + 1
  {
    if j % sc + 1 >= sc {
      assert j + 1 == (j / sc + 1) * sc + 0;
      DivModUnique(j + 1, sc, j / sc + 1, 0);
    } else {
      DivModUnique(j + 1, sc, j / sc, j % sc + 1);
    }
  }

  // Index of the sample that sample k comes from when it goes up and down again.
  lemma UpAndDownIndex(k: nat, sr: nat, sc: nat, m: nat, dc: nat)
    requires 0 < m && 0 < sr && 0 < sc <= dc
    ensures SourceIndex(SourceIndex(k, m * sr, dc, sr, sc), sr, sc, m * sr, dc) == k
  {
    var i, c := k / sc, k % sc;
    ScaledUp(i, m, sr);
    assert k == i * sc + c;
    assert c % dc == c by { DivModUnique(c, dc, 0, c); }
    assert SourceIndex(k, m * sr, dc, sr, sc) == i * m * dc + c;
    IndexOfSample(i * m, c, sr, sc, m * sr, dc);
    assert c % sc == c by { DivModUnique(c, sc, 0, c); }
  }

  // Up by a whole factor, to at least as many channels, and back down gives the block back.
  lemma UpAndDown(src: seq<int>, sr: nat, sc: nat, m: nat, dc: nat, mid: seq<int>, dst: seq<int>)
    requires 0 < m && 0 < sc <= dc && |dst| == |src|
    requires SameDuration(src, sr, sc, m * sr, dc, |mid|) && IsResampled(src, sr, sc, m * sr, dc, mid)
    requires SameDuration(mid, m * sr, dc, sr, sc, |dst|) && IsResampled(mid, m * sr, dc, sr, sc, dst)
    ensures dst == src
  {
    hide SourceIndex;
    forall k: nat | k < |dst|
      ensures dst[k] == src[k]
    {
      UpAndDownIndex(k, sr, sc, m, dc);
    }
  }

  lemma ScaledUp(i: nat, m: nat, sr: nat)
    requires m > 0 && sr > 0
    ensures i * (m * sr) / sr == i * m
    ensures i * m * sr / (m * sr) == i
  {
    assert i * (m * sr) == i * m * sr + 0;
    DivModUnique(i * (m * sr), sr, i * m, 0);
    DivModUnique(i * m * sr, m * sr, i, 0);
  }

  // The first n samples are resampled.
  ghost predicate FilledTo(src: seq<int>, sr: nat, sc: nat, dr: nat, dc: nat, dst: seq<int>, n: nat)
    requires dr > 0 && sc > 0 && dc > 0
  {
    n <= |dst| &&
    forall k :: 0 <= k < n ==>
      SourceIndex(k, sr, sc, dr, dc) < |src| && dst[k] == src[SourceIndex(k, sr, sc, dr, dc)]
  }

  lemma FillNext(src: seq<int>, sr: nat, sc: nat, dr: nat, dc: nat, dst: seq<int>,
                 k: nat, i: nat, j: nat, f: nat, c: nat)
    requires SameDuration(src, sr, sc, dr, dc, |dst|) && j < dc && k == i * dc + j
    requires i < |dst| / dc && f == FrameIndex(i, sr, dr) && c == j % sc
    requires FilledTo(src, sr, sc, dr, dc, dst, k)
    ensures k < |dst| && f * sc + c < |src|
    ensures FilledTo(src, sr, sc, dr, dc, dst[k := src[f * sc + c]], k + 1)
  {
    hide SourceIndex;
    SampleInBounds(i, j, |dst| / dc, dc);
    FrameOf(0, |dst|, dc);
    IndexOfSample(i, j, sr, sc, dr, dc);
    SourceInBounds(src, sr, sc, dr, dc, |dst|, k);
  }

  // The branch for one channel on both sides.
  method ResampleMono(src: seq<int>, sr: nat, dst: array<int>, dr: nat)
    requires SameDuration(src, sr, 1, dr, 1, dst.Length)
    modifies dst
    ensures IsResampled(src, sr, 1, dr, 1, dst[..])
  {
    hide SourceIndex;
    for i := 0 to dst.Length
      invariant FilledTo(src, sr, 1, dr, 1, dst[..], i)
    {
      ghost var before := dst[..];
      FillNext(src, sr, 1, dr, 1, before, i, i, 0, FrameIndex(i, sr, dr), 0);
      dst[i] := src[i * sr / dr];
      assert dst[..] == before[i := src[FrameIndex(i, sr, dr)]];
    }
  }

  lemma SmallMod(j: nat, n: nat)
    requires j < n
    ensures j % n == j
  {
    DivModUnique(j, n, 0, j);
  }

  // One frame of destination channels, all from the source frame that begins at ofs.
  method CopyFrame(src: seq<int>, sr: nat, sc: nat, dst: array<int>, dr: nat, i: nat, k: nat, ofs: nat)
    requires SameDuration(src, sr, sc, dr, sc, dst.Length) && i < dst.Length / sc
    requires k == i * sc && ofs == FrameIndex(i, sr, dr) * sc
    requires FilledTo(src, sr, sc, dr, sc, dst[..], k)
    modifies dst
    ensures FilledTo(src, sr, sc, dr, sc, dst[..], k + sc)
  {
    hide SourceIndex, FilledTo;
    ghost var f := FrameIndex(i, sr, dr);
    for j := 0 to sc
      invariant FilledTo(src, sr, sc, dr, sc, dst[..], k + j)
    {
      ghost var before := dst[..];
      SmallMod(j, sc);
      FillNext(src, sr, sc, dr, sc, before, k + j, i, j, f, j);
      dst[k + j] := src[ofs + j];
      assert dst[..] == before[k + j := src[ofs + j]];
    }
  }

  // One frame of destination channels, to which the source channels are dealt in turn.
  method DealFrame(src: seq<int>, sr: nat, sc: nat, dst: array<int>, dr: nat, dc: nat, i: nat, k: nat, ofs: nat)
    requires SameDuration(src, sr, sc, dr, dc, dst.Length) && i < dst.Length / dc
    requires k == i * dc && ofs == FrameIndex(i, sr, dr) * sc
    requires FilledTo(src, sr, sc, dr, dc, dst[..], k)
    modifies dst
    ensures FilledTo(src, sr, sc, dr, dc, dst[..], k + dc)
  {
    hide SourceIndex, FilledTo;
    ghost var f := FrameIndex(i, sr, dr);
    var srcChan := 0;
    SmallMod(0, sc);
    for j := 0 to dc
      invariant srcChan == j % sc
      invariant FilledTo(src, sr, sc, dr, dc, dst[..], k + j)
    {
      ghost var before := dst[..];
      FillNext(src, sr, sc, dr, dc, before, k + j, i, j, f, srcChan);
      dst[k + j] := src[ofs + srcChan];
      assert dst[..] == before[k + j := src[ofs + srcChan]];
      NextChannel(j, sc);
      srcChan := srcChan + 1;
      if srcChan >= sc {
        srcChan := 0;
      }
    }
  }

  function SourceOffset(i: nat, sr: nat, dr: nat, sc: nat): nat
    requires dr > 0
  {
    FrameIndex(i, sr, dr) * sc
  }

  // The branches for the same number of channels on both sides and for different ones.
  method ResampleFrames(src: seq<int>, sr: nat, sc: nat, dst: array<int>, dr: nat, dc: nat)
    requires SameDuration(src, sr, sc, dr, dc, dst.Length)
    modifies dst
    ensures IsResampled(src, sr, sc, dr, dc, dst[..])
  {
    hide SourceIndex, FrameIndex;
    var k := 0;
    for i := 0 to dst.Length / dc
      invariant k == i * dc && FilledTo(src, sr, sc, dr, dc, dst[..], k)
    {
      var ofs := SourceOffset(i, sr, dr, sc);
      if sc == dc {
        CopyFrame(src, sr, sc, dst, dr, i, k, ofs);
      } else {
        DealFrame(src, sr, sc, dst, dr, dc, i, k, ofs);
      }
      k := k + dc;
      NextFrame(i, dc);
    }
    FrameCount(dst.Length, dc);
  }

  lemma NextFrame(i: nat, dc: nat)
    ensures (i + 1) * dc == i * dc + dc
  {
  }

  lemma FrameCount(n: nat, dc: nat)
    requires dc > 0 && n % dc == 0
    ensures n / dc * dc == n
  {
  }

  method InternalResample(src: seq<int>, sr: nat, sc: nat, dst: array<int>, dr: nat, dc: nat)
    requires SameDuration(src, sr, sc, dr, dc, dst.Length)
    modifies dst
    ensures IsResampled(src, sr, sc, dr, dc, dst[..])
  {
    hide SourceIndex;
    if sc == dc && sc == 1 {
      ResampleMono(src, sr, dst, dr);
    } else {
      ResampleFrames(src, sr, sc, dst, dr, dc);
    }
  }
}
