/** The size rule of imresample: the new side length is the old one scaled
    by the ratio of pixel scales and rounded the way Python 3 rounds, and
    a side above 10000 samples is refused before any interpolation. */
module Resample {
  import opened Images

  /** The largest side length imresample accepts. */
  const MaxSide: int := 10000

  /** Python 3 `round(x)`: the nearest integer, and the even one of the two
      when `x` lies exactly halfway between them. */
  function RoundHalfEven(x: real): (n: int)
    ensures -0.5 <= x - n as real <= 0.5
    ensures (x - n as real == 0.5 || x - n as real == -0.5) ==> n % 2 == 0
  {
    var f := x.Floor;
    var d := x - f as real;
    if d < 0.5 then f
    else if d > 0.5 then f + 1
    else if f % 2 == 0 then f
    else f + 1
  }

  /** The contract above pins the result down: an integer nearer than one
      half, or exactly one half away and even, is the rounded value. */
  lemma RoundHalfEvenUnique(x: real, m: int)
    requires (-0.5 < x - m as real < 0.5) ||
             ((x - m as real == 0.5 || x - m as real == -0.5) && m % 2 == 0)
    ensures RoundHalfEven(x) == m
  {
  }

  /** The size and zoom factor imresample computes. */
  datatype Resampling = Resampling(newSize: int, ratio: real)

  /** The unrounded new side length, `old_size * source / target`. */
  function RawSize(oldSize: nat, sourceScale: real, targetScale: real): real
    requires targetScale != 0.0
  {
    oldSize as real * sourceScale / targetScale
  }

  /** imresample's size arithmetic for an image whose first axis holds
      `oldSize` samples: a zero target scale or an empty axis divides by
      zero, and a rounded size above MaxSide is refused. */
  function ResampleSize(oldSize: nat, sourceScale: real, targetScale: real): (r: Result<Resampling>)
    ensures r == Err(ZeroDivision) <==> targetScale == 0.0 || oldSize == 0
    ensures r == Err(SizeCapExceeded) <==>
      targetScale != 0.0 && oldSize > 0 && RoundHalfEven(RawSize(oldSize, sourceScale, targetScale)) > MaxSide
    ensures r.Ok? <==>
      targetScale != 0.0 && oldSize > 0 && RoundHalfEven(RawSize(oldSize, sourceScale, targetScale)) <= MaxSide
    ensures r.Ok? ==> r.value.newSize == RoundHalfEven(RawSize(oldSize, sourceScale, targetScale))
    ensures r.Ok? ==> r.value.newSize <= MaxSide
    ensures r.Ok? ==>
      -0.5 <= RawSize(oldSize, sourceScale, targetScale) - r.value.newSize as real <= 0.5
    ensures r.Ok? ==> r.value.ratio * oldSize as real == r.value.newSize as real
  {
    if targetScale == 0.0 then Err(ZeroDivision)
    else
      var newSize := RoundHalfEven(RawSize(oldSize, sourceScale, targetScale));
      if oldSize == 0 then Err(ZeroDivision)
      else if newSize > MaxSide then Err(SizeCapExceeded)
      else Ok(Resampling(newSize, newSize as real / oldSize as real))
  }

  /** The cap is inclusive: a side of exactly 10000 is accepted, 10001 is not. */
  lemma CapIsInclusive()
    ensures ResampleSize(5000, 2.0, 1.0) == Ok(Resampling(10000, 2.0))
    ensures ResampleSize(10001, 1.0, 1.0) == Err(SizeCapExceeded)
  {
    RoundHalfEvenUnique(10000.0, 10000);
    RoundHalfEvenUnique(10001.0, 10001);
  }

  /** A 200-sample side resampled by a factor of 100 exceeds the cap, and a
      42-sample side doubled becomes 84. */
  lemma ResampleExamples()
    ensures ResampleSize(200, 100.0, 1.0) == Err(SizeCapExceeded)
    ensures ResampleSize(42, 2.0, 1.0) == Ok(Resampling(84, 2.0))
  {
    RoundHalfEvenUnique(20000.0, 20000);
    RoundHalfEvenUnique(84.0, 84);
  }

  /** Ties go to the even neighbour: a raw size of 2.5 rounds to 2 and
      3.5 rounds to 4. */
  lemma TiesRoundToEven()
    ensures ResampleSize(5, 1.0, 2.0) == Ok(Resampling(2, 0.4))
    ensures ResampleSize(7, 1.0, 2.0) == Ok(Resampling(4, 4.0 / 7.0))
  {
    RoundHalfEvenUnique(2.5, 2);
    RoundHalfEvenUnique(3.5, 4);
  }
}
