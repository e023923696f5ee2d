// The streamed audio codec (G.726).
//
// Encode and Decode of the plugin codec are not part of this model: EncodeFrame is
// given the codes Encode returned for the samples of the frame, DecodeFrame returns
// the codes that Decode is given.

module StreamedAudioCodec {
  import opened Arithmetic
  import opened G726Numerals
  import opened G726Packer
  import opened G726Unpacker

  // The bits of a frame's bytes that no sample fills are too few for one sample more.
  predicate RoomForNoMore(samples: nat, bits: nat) {
    8 * PackedSize(samples, bits) - samples * bits < bits
  }

  lemma DecodedFits(samples: nat, bits: nat, n: nat)
    requires 0 < bits && n <= PackedSize(samples, bits)
    ensures RoomForNoMore(samples, bits) ==> 8 * n / bits <= samples
    ensures 8 * PackedSize(samples, bits) / bits <= samples ==> RoomForNoMore(samples, bits)
  {
    hide PackedSize;
    QuotientAtMostIff(8 * n, bits, samples);
    QuotientAtMostIff(8 * PackedSize(samples, bits), bits, samples);
  }

  lemma ZerosUnpack(n: nat, bits: nat)
    requires 0 < bits
    ensures IsUnpacking(Zeros(n), bits, Zeros(8 * n / bits))
  {
    hide Val, Pow2, Fit, Digits;
    var out := Zeros(8 * n / bits);
    ZerosAreZero(n, 8);
    ZerosAreZero(|out|, bits);
    assert Digits(Zeros(n), 8) == Digits(out, bits) + 0 * Pow2(bits * |out|);
  }

  // Of no more bytes than a frame has, what is decoded always fits the samples of a frame,
  // exactly if the bits that are left over are too few for one sample more.
  lemma DecodedFitsIff(samples: nat, bits: nat)
    requires 0 < bits
    ensures RoomForNoMore(samples, bits) <==>
            forall buffer, out ::
              |buffer| <= PackedSize(samples, bits) && IsUnpacking(buffer, bits, out) ==> |out| <= samples
  {
    hide Digits, Val, Pow2, PackedSize, RoomForNoMore;
    if RoomForNoMore(samples, bits) {
      forall buffer, out | |buffer| <= PackedSize(samples, bits) && IsUnpacking(buffer, bits, out)
        ensures |out| <= samples
      {
        DecodedFits(samples, bits, |buffer|);
      }
    } else {
      ZerosUnpack(PackedSize(samples, bits), bits);
      DecodedFits(samples, bits, PackedSize(samples, bits));
    }
  }

  class MCUStreamedAudioCodec {
    const samplesPerFrame: nat
    const bytesPerFrame: nat
    const bitsPerSample: nat

    predicate Valid() {
      bytesPerFrame == PackedSize(samplesPerFrame, bitsPerSample)
    }

    constructor (samples: nat, bits: nat)
      ensures Valid() && samplesPerFrame == samples && bitsPerSample == bits
    {
      samplesPerFrame := samples;
      bytesPerFrame := (samples * bits + 7) / 8;
      bitsPerSample := bits;
    }

    // Packs one frame into the first bytesPerFrame bytes of the buffer, whatever they
    // held before, and touches no other byte.
    method EncodeFrame(codes: seq<bv8>, buffer: array<bv8>) returns (ok: bool)
      requires Valid() && |codes| == samplesPerFrame && bytesPerFrame <= buffer.Length
      requires Fit(codes, bitsPerSample)
      modifies buffer
      ensures ok <==> bitsPerSample in {2, 3, 4, 5, 8}
      ensures ok ==> IsPacking(codes, bitsPerSample, buffer[..bytesPerFrame])
      ensures forall k :: 0 <= k < buffer.Length && (ok ==> bytesPerFrame <= k) ==> buffer[k] == old(buffer[k])
    {
      hide IsPacking, Digits, Val, Pow2;
      match bitsPerSample
      case 8 => Encode8(codes, buffer); ok := true;
      case 5 => Encode5(codes, buffer); ok := true;
      case 4 => Encode4(codes, buffer); ok := true;
      case 3 => Encode3(codes, buffer); ok := true;
      case 2 => Encode2(codes, buffer); ok := true;
      case _ => ok := false;
    }

    // Unpacks every whole code of the bytes given.  decodedBytes counts two bytes for
    // each sample Decode makes of a code.
    method DecodeFrame(buffer: seq<bv8>)
      returns (ok: bool, written: nat, decodedBytes: nat, out: seq<bv8>)
      ensures ok <==> bitsPerSample in {2, 3, 4, 5, 8}
      ensures ok ==> IsUnpacking(buffer, bitsPerSample, out)
      ensures ok ==> written == |buffer| && decodedBytes == 2 * (8 * |buffer| / bitsPerSample)
      ensures ok && Valid() && |buffer| <= bytesPerFrame && RoomForNoMore(samplesPerFrame, bitsPerSample) ==>
                |out| <= samplesPerFrame
    {
      hide Digits, Val, Pow2, PackedSize;
      if bitsPerSample > 0 && Valid() && |buffer| <= bytesPerFrame {
        DecodedFits(samplesPerFrame, bitsPerSample, |buffer|);
      }
      ok, written, decodedBytes, out := true, 0, 0, [];
      match bitsPerSample {
        case 8 => out := Decode8(buffer);
        case 5 => out := Decode5(buffer);
        case 4 => out := Decode4(buffer);
        case 3 => out := Decode3(buffer);
        case 2 => out := Decode2(buffer);
        case _ => ok := false; return;
      }
      written := |buffer|;
      decodedBytes := |out| * 2;
    }
  }

  lemma CodesAfterFrame(n: nat, bits: nat)
    requires bits in {2, 3, 4, 5, 8}
    ensures 8 * PackedSize(n, bits) / bits <= n + 3
    ensures n * bits % 8 == 0 ==> 8 * PackedSize(n, bits) / bits == n
  {
    PackedBits(n, bits);
    hide PackedSize;
    var all := 8 * PackedSize(n, bits);
    QuotientAtMostIff(all, bits, n + 3);
    assert (n + 3) * bits + bits == n * bits + 4 * bits;
    if n * bits % 8 == 0 {
      DivModUnique(all, bits, n, 0);
    }
  }

  lemma PackedBits(n: nat, bits: nat)
    ensures n * bits <= 8 * PackedSize(n, bits) <= n * bits + 7
    ensures n * bits % 8 == 0 ==> 8 * PackedSize(n, bits) == n * bits
  {
  }

  // A frame that was packed is unpacked to its codes, followed by at most three zero codes.
  lemma FrameRoundTrip(codes: seq<bv8>, bits: nat, bytes: seq<bv8>, out: seq<bv8>)
    requires bits in {2, 3, 4, 5, 8} && Fit(codes, bits)
    requires IsPacking(codes, bits, bytes) && IsUnpacking(bytes, bits, out)
    ensures |codes| <= |out| <= |codes| + 3 && out == codes + Zeros(|out| - |codes|)
    ensures |codes| * bits % 8 == 0 ==> out == codes
  {
    hide Digits, Val, Pow2, Fit, PackedSize;
    UnpackAfterPack(codes, bits, bytes, out);
    CodesAfterFrame(|codes|, bits);
    if |codes| * bits % 8 == 0 {
      assert Zeros(0) == [] && codes + [] == codes;
    }
  }
}
