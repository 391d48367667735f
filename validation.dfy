/**
 * Header validation: seven independent rules, each adding its own bit to an
 * error code, and the decision to go on when the code is 0 or exactly 16
 * (a wrong ImageSize field alone is only a warning).
 */
module Validation {
  import opened CArith
  import opened Headers

  /**
   * `expected_bytes = (Width * Height * Bits) / 8`, with C's truncating division;
   * the product is taken on mathematical integers.
   */
  function ExpectedBytes(ih: InfoHeader): int
  {
    TruncDiv8(ih.Width * ih.Height * ih.Bits)
  }

  // The seven rules. The two size rules compare an `int` with an `unsigned
  // int` field, so the `int` side is converted to `unsigned int` first.

  /** Bit 1: the pixels do not start right after the two headers (a colour table). */
  predicate OffsetMismatch(hs: Headers)
  {
    hs.file.Offset != 54
  }

  /** Bit 2: not a 40-byte info header. */
  predicate InfoSizeMismatch(hs: Headers)
  {
    hs.info.Size != 40
  }

  /** Bit 4: more than one colour plane, or compressed. */
  predicate UnsupportedPlanesOrCompression(hs: Headers)
  {
    hs.info.Planes != 1 || hs.info.Compression != 0
  }

  /** Bit 8: not 24 bits per pixel. */
  predicate UnsupportedBits(hs: Headers)
  {
    hs.info.Bits != 24
  }

  /** Bit 16: the ImageSize field disagrees with the dimensions. */
  predicate ImageSizeMismatch(hs: Headers)
  {
    ToU32(ExpectedBytes(hs.info)) != hs.info.ImageSize
  }

  /** Bit 32: the file size field disagrees with the dimensions plus both headers. */
  predicate FileSizeMismatch(hs: Headers)
  {
    ToU32(ExpectedBytes(hs.info) + 14 + 40) != hs.file.Size
  }

  /** Bit 64: a colour map is declared. */
  predicate HasColorMap(hs: Headers)
  {
    hs.info.Colors != 0 || hs.info.ImportantColors != 0
  }

  /** Which rules fail, lowest bit first. */
  function Violations(hs: Headers): seq<bool>
  {
    [OffsetMismatch(hs), InfoSizeMismatch(hs), UnsupportedPlanesOrCompression(hs), UnsupportedBits(hs),
     ImageSizeMismatch(hs), FileSizeMismatch(hs), HasColorMap(hs)]
  }

  // ---------------------------------------------------------------- bit masks

  /** The number whose binary digits, lowest first, are `bs`. */
  function BitsOf(bs: seq<bool>): nat
  {
    if bs == [] then 0 else (if bs[0] then 1 else 0) + 2 * BitsOf(bs[1..])
  }

  /** Binary digit `k` of `m`. */
  predicate Bit(m: nat, k: nat)
  {
    if k == 0 then m % 2 == 1 else Bit(m / 2, k - 1)
  }

  function Pow2(k: nat): (p: nat)
    ensures p > 0
  {
    if k == 0 then 1 else 2 * Pow2(k - 1)
  }

  /** Each digit of the number is its own flag. */
  lemma {:induction false} BitsOfBit(bs: seq<bool>, k: nat)
    requires k < |bs|
    ensures Bit(BitsOf(bs), k) == bs[k]
  {
    var low, rest := if bs[0] then 1 else 0, BitsOf(bs[1..]);
    HalveOdd(low, rest);
    if k > 0 {
      BitsOfBit(bs[1..], k - 1);
    }
  }

  lemma HalveOdd(low: nat, rest: nat)
    requires low < 2
    ensures (low + 2 * rest) % 2 == low && (low + 2 * rest) / 2 == rest
  {
  }

  lemma {:induction false} BitsOfBound(bs: seq<bool>)
    ensures BitsOf(bs) < Pow2(|bs|)
  {
    if bs != [] {
      BitsOfBound(bs[1..]);
    }
  }

  /** Different flags give different numbers. */
  lemma BitsOfInjective(a: seq<bool>, b: seq<bool>)
    requires |a| == |b| && BitsOf(a) == BitsOf(b)
    ensures a == b
  {
    forall k | 0 <= k < |a|
      ensures a[k] == b[k]
    {
      BitsOfBit(a, k);
      BitsOfBit(b, k);
    }
  }

  // ---------------------------------------------------------------- the error code

  /** `error_code` after the seven checks: bit k set for each failing rule k. */
  function Mask(hs: Headers): nat
  {
    BitsOf(Violations(hs))
  }

  /** Each rule sets its own bit of the error code and no other, so the code reports every failing rule. */
  lemma MaskBits(hs: Headers)
    ensures Mask(hs) < 128
    ensures Bit(Mask(hs), 0) == OffsetMismatch(hs)
    ensures Bit(Mask(hs), 1) == InfoSizeMismatch(hs)
    ensures Bit(Mask(hs), 2) == UnsupportedPlanesOrCompression(hs)
    ensures Bit(Mask(hs), 3) == UnsupportedBits(hs)
    ensures Bit(Mask(hs), 4) == ImageSizeMismatch(hs)
    ensures Bit(Mask(hs), 5) == FileSizeMismatch(hs)
    ensures Bit(Mask(hs), 6) == HasColorMap(hs)
  {
    var v := Violations(hs);
    BitsOfBound(v);
    assert Pow2(7) == 128;
    BitsOfBit(v, 0);
    BitsOfBit(v, 1);
    BitsOfBit(v, 2);
    BitsOfBit(v, 3);
    BitsOfBit(v, 4);
    BitsOfBit(v, 5);
    BitsOfBit(v, 6);
  }

  /** The error code is the sum of the bits of exactly the failing rules. */
  lemma MaskIsSumOfViolatedBits(hs: Headers)
    ensures Mask(hs) == (if OffsetMismatch(hs) then 1 else 0) + (if InfoSizeMismatch(hs) then 2 else 0)
                      + (if UnsupportedPlanesOrCompression(hs) then 4 else 0) + (if UnsupportedBits(hs) then 8 else 0)
                      + (if ImageSizeMismatch(hs) then 16 else 0) + (if FileSizeMismatch(hs) then 32 else 0)
                      + (if HasColorMap(hs) then 64 else 0)
  {
    SevenBits(Violations(hs));
  }

  lemma SevenBits(v: seq<bool>)
    requires |v| == 7
    ensures BitsOf(v) == (if v[0] then 1 else 0) + (if v[1] then 2 else 0) + (if v[2] then 4 else 0)
                       + (if v[3] then 8 else 0) + (if v[4] then 16 else 0) + (if v[5] then 32 else 0)
                       + (if v[6] then 64 else 0)
  {
    var t1 := v[1..];
    var t2 := t1[1..];
    var t3 := t2[1..];
    var t4 := t3[1..];
    var t5 := t4[1..];
    var t6 := t5[1..];
    BitsOfStep(v);
    BitsOfStep(t1);
    BitsOfStep(t2);
    BitsOfStep(t3);
    BitsOfStep(t4);
    BitsOfStep(t5);
    BitsOfStep(t6);
    assert t6[1..] == [];
    assert t1[0] == v[1] && t2[0] == v[2] && t3[0] == v[3] && t4[0] == v[4] && t5[0] == v[5] && t6[0] == v[6];
  }

  lemma BitsOfStep(bs: seq<bool>)
    requires bs != []
    ensures BitsOf(bs) == (if bs[0] then 1 else 0) + 2 * BitsOf(bs[1..])
  {
  }

  /** The seven checks, each adding its bit; none of them stops the others. */
  method ComputeErrorCode(hs: Headers) returns (errorCode: int)
    ensures errorCode == Mask(hs)
  {
    var header, infoheader := hs.file, hs.info;
    errorCode := 0;
    if header.Offset != 54 {
      errorCode := errorCode + 1;
    }
    if infoheader.Size != 40 {
      errorCode := errorCode + 2;
    }
    if infoheader.Planes != 1 || infoheader.Compression != 0 {
      errorCode := errorCode + 4;
    }
    if infoheader.Bits != 24 {
      errorCode := errorCode + 8;
    }
    var expectedBytes := TruncDiv8(infoheader.Width * infoheader.Height * infoheader.Bits);
    if ToU32(expectedBytes) != infoheader.ImageSize {
      errorCode := errorCode + 16;
    }
    if ToU32(expectedBytes + 14 + 40) != header.Size {
      errorCode := errorCode + 32;
    }
    if infoheader.Colors != 0 || infoheader.ImportantColors != 0 {
      errorCode := errorCode + 64;
    }
    MaskIsSumOfViolatedBits(hs);
  }

  // ---------------------------------------------------------------- the decision

  /** Go on when no rule fails, or when only the ImageSize rule does. */
  predicate Proceed(errorCode: int)
  {
    errorCode == 0 || errorCode == 16
  }

  /** Processing goes on exactly when every rule but the ImageSize rule holds. */
  lemma ProceedIff(hs: Headers)
    ensures Proceed(Mask(hs)) <==>
              !OffsetMismatch(hs) && !InfoSizeMismatch(hs) && !UnsupportedPlanesOrCompression(hs)
              && !UnsupportedBits(hs) && !FileSizeMismatch(hs) && !HasColorMap(hs)
    ensures Mask(hs) == 16 <==> Proceed(Mask(hs)) && ImageSizeMismatch(hs)
    ensures Mask(hs) == 0 <==> Proceed(Mask(hs)) && !ImageSizeMismatch(hs)
  {
    MaskIsSumOfViolatedBits(hs);
  }

  /** For 24-bit pixels the expected size is exactly three bytes per pixel. */
  lemma ExpectedBytes24(ih: InfoHeader)
    requires ih.Bits == 24
    ensures ExpectedBytes(ih) == 3 * (ih.Width * ih.Height)
  {
    var n := ih.Width * ih.Height;
    assert ih.Width * ih.Height * ih.Bits == 24 * n;
  }

  /**
   * Headers that let processing go on describe 24-bit pixels, no colour map,
   * and a file of both headers plus three bytes per pixel (modulo 2^32).
   */
  lemma ProceedingHeadersAreConsistent(hs: Headers)
    requires Proceed(Mask(hs))
    ensures hs.file.Offset == HeaderSize && hs.info.Size == InfoHeaderSize
    ensures hs.info.Bits == 24 && hs.info.Planes == 1 && hs.info.Compression == 0
    ensures hs.info.Colors == 0 && hs.info.ImportantColors == 0
    ensures hs.file.Size == ToU32(3 * (hs.info.Width * hs.info.Height) + HeaderSize)
  {
    ProceedIff(hs);
    ExpectedBytes24(hs.info);
  }

  /**
   * A 2x2 image whose ImageSize field is left at zero gets only the warning,
   * and processing goes on.
   */
  lemma UnsetImageSizeOnlyWarns(hs: Headers)
    requires hs.file.Offset == 54 && hs.file.Size == 66
    requires hs.info == InfoHeader(40, 2, 2, 1, 24, 0, 0, hs.info.XResolution, hs.info.YResolution, 0, 0)
    ensures Mask(hs) == 16 && Proceed(Mask(hs))
  {
    MaskIsSumOfViolatedBits(hs);
  }
}
