/** The spatial half of psf2otf: zero-pad the PSF at the corner to the
    output shape, then circularly shift each axis so that the PSF's central
    sample lands at index (0, 0), ready for the FFT. */
module Otf {
  import opened Images
  import opened Alignment

  /** A positive multiple of a positive number is at least that number. */
  lemma MulAtLeast(d: int, n: int)
    requires d >= 1 && n > 0
    ensures d * n >= n
  {
  }

  /** Distinct multiples of a positive number are at least that number apart. */
  lemma MultiplesApart(a: int, b: int, n: int)
    requires a > b && n > 0
    ensures a * n - b * n >= n
  {
    MulAtLeast(a - b, n);
    assert (a - b) * n == a * n - b * n;
  }

  /** Euclidean remainder determined by a quotient/remainder decomposition. */
  lemma ModOfDecomposition(x: int, n: int, q: int, m: int)
    requires n > 0 && 0 <= m < n && x == q * n + m
    ensures x % n == m
  {
    var q', m' := x / n, x % n;
    assert x == q' * n + m';
    if q' > q {
      MultiplesApart(q', q, n);
    } else if q' < q {
      MultiplesApart(q, q', n);
    }
  }

  /** Shifting forward and then back by the same amount, modulo `n`,
      returns to the starting index. */
  lemma ShiftBack(i: int, k: int, n: int)
    requires n > 0 && 0 <= i < n
    ensures ((i + k) % n - k) % n == i
  {
    var q, m := (i + k) / n, (i + k) % n;
    assert m - k == (-q) * n + i;
    ModOfDecomposition(m - k, n, -q, i);
  }

  /** Shifting back and then forward by the same amount, modulo `n`,
      returns to the starting index. */
  lemma ShiftForth(i: int, k: int, n: int)
    requires n > 0 && 0 <= i < n
    ensures ((i - k) % n + k) % n == i
  {
    var q, m := (i - k) / n, (i - k) % n;
    assert m + k == (-q) * n + i;
    ModOfDecomposition(m + k, n, -q, i);
  }

  /** The index a sample at `a` moves to when shifted back by `k` modulo
      `n`, and the fact that shifting forward again returns it to `a`. */
  lemma LandingIndex(a: int, k: int, n: int) returns (i: int)
    requires n > 0 && 0 <= a < n
    ensures i == (a - k) % n && 0 <= i < n && (i + k) % n == a
  {
    i := (a - k) % n;
    ShiftForth(a, k, n);
  }

  /** np.roll(img, shift, axis): a circular shift along one axis; output
      index `t` of that axis takes the input at `(t - shift) mod n`. */
  function Roll(img: Image, shift: int, axis: nat): (r: Image)
    requires img.Valid() && axis < 2
    ensures r.Valid() && r.Dims() == img.Dims()
  {
    if axis == 0 then
      Image(img.height, img.width,
        seq(img.height, i requires 0 <= i < img.height => img.px[(i - shift) % img.height]))
    else
      Image(img.height, img.width,
        seq(img.height, i requires 0 <= i < img.height =>
          seq(img.width, j requires 0 <= j < img.width => img.px[i][(j - shift) % img.width])))
  }

  /** Rolling moves the sample at index `t` of the rolled axis to index
      `(t + shift) mod n`, and leaves the other index alone. */
  lemma {:induction false} RollMovesSample(img: Image, shift: int, axis: nat, i: nat, j: nat)
    requires img.Valid() && axis < 2 && i < img.height && j < img.width
    ensures axis == 0 ==> Roll(img, shift, axis).px[(i + shift) % img.height][j] == img.px[i][j]
    ensures axis == 1 ==> Roll(img, shift, axis).px[i][(j + shift) % img.width] == img.px[i][j]
  {
    if axis == 0 {
      ShiftBack(i, shift, img.height);
    } else {
      ShiftBack(j, shift, img.width);
    }
  }

  /** Rolling reads the sample at `(t - shift) mod n` along the rolled axis. */
  lemma RollAt(img: Image, shift: int, axis: nat, i: nat, j: nat)
    requires img.Valid() && axis < 2 && i < img.height && j < img.width
    ensures axis == 0 ==> Roll(img, shift, axis).px[i][j] == img.px[(i - shift) % img.height][j]
    ensures axis == 1 ==> Roll(img, shift, axis).px[i][j] == img.px[i][(j - shift) % img.width]
  {
  }

  /** Rolling back by the opposite shift undoes a roll. */
  lemma {:induction false} RollInverse(img: Image, shift: int, axis: nat)
    requires img.Valid() && axis < 2
    ensures Roll(Roll(img, shift, axis), -shift, axis) == img
  {
    var mid := Roll(img, shift, axis);
    var back := Roll(mid, -shift, axis);
    forall i, j | 0 <= i < img.height && 0 <= j < img.width
      ensures back.px[i][j] == img.px[i][j]
    {
      RollAt(mid, -shift, axis, i, j);
      if axis == 0 {
        var k := (i + shift) % img.height;
        assert (i - -shift) % img.height == k;
        RollAt(img, shift, axis, k, j);
        ShiftBack(i, shift, img.height);
        assert back.px[i][j] == mid.px[k][j] == img.px[(k - shift) % img.height][j];
      } else {
        var k := (j + shift) % img.width;
        assert (j - -shift) % img.width == k;
        RollAt(img, shift, axis, i, k);
        ShiftBack(j, shift, img.width);
        assert back.px[i][j] == mid.px[i][k] == img.px[i][(k - shift) % img.width];
      }
    }
    SamePixels(back, img);
  }

  /** The circular shift psf2otf applies after padding: each axis rolled
      back by half of the PSF's own size `h` x `w` along it. */
  function ShiftToOrigin(padded: Image, h: nat, w: nat): (r: Image)
    requires padded.Valid()
    ensures r.Valid() && r.Dims() == padded.Dims()
  {
    Roll(Roll(padded, -(h / 2), 0), -(w / 2), 1)
  }

  /** The array after the first `k` passes of psf2otf's `for axis` loop:
      axis `t` rolled back by half of `inshape[t]`, for every `t < k`. */
  function RolledAxes(padded: Image, inshape: seq<int>, k: nat): (r: Image)
    requires padded.Valid() && k <= |inshape| && k <= 2
    ensures r.Valid() && r.Dims() == padded.Dims()
  {
    if k == 0 then padded
    else Roll(RolledAxes(padded, inshape, k - 1), -(inshape[k - 1] / 2), k - 1)
  }

  /** Once both axes of a 2-D array have been rolled, the loop has produced
      the shift to the origin. */
  lemma AllAxesRolled(padded: Image, inshape: seq<int>)
    requires padded.Valid() && |inshape| == 2 && inshape[0] >= 0 && inshape[1] >= 0
    ensures RolledAxes(padded, inshape, 2) == ShiftToOrigin(padded, inshape[0], inshape[1])
  {
    assert RolledAxes(padded, inshape, 1) == Roll(padded, -(inshape[0] / 2), 0);
  }

  /** Reading the shift backwards: output sample (i, j) is the padded
      sample at (i + h/2, j + w/2), wrapped around the array. */
  lemma ShiftToOriginAt(padded: Image, h: nat, w: nat, i: nat, j: nat)
    requires padded.Valid() && i < padded.height && j < padded.width
    ensures ShiftToOrigin(padded, h, w).px[i][j] ==
      padded.px[(i + h / 2) % padded.height][(j + w / 2) % padded.width]
  {
    var rows := Roll(padded, -(h / 2), 0);
    assert (j - -(w / 2)) % padded.width == (j + w / 2) % padded.width;
    assert ShiftToOrigin(padded, h, w).px[i][j] == rows.px[i][(j + w / 2) % padded.width];
    assert (i - -(h / 2)) % padded.height == (i + h / 2) % padded.height;
  }

  /** The corner-padded PSF holds the PSF at the top left and zeros
      elsewhere. */
  lemma CornerPadAt(psf: Image, shape: Shape, a: nat, b: nat)
    requires psf.Valid() && Padded(psf, shape, Corner).Ok?
    requires a < shape.rows && b < shape.cols
    ensures Padded(psf, shape, Corner).value.px[a][b] ==
      if a < psf.height && b < psf.width then psf.px[a][b] else 0.0
  {
    if psf.Dims() != shape {
      assert PadOffset(psf, shape, Corner) == Shape(0, 0);
      var padded := Padded(psf, shape, Corner).value;
      if a < psf.height && b < psf.width {
        assert padded.px[a + 0][b + 0] == psf.px[a][b];
      }
    }
  }

  /** The array psf2otf hands to the FFT: the all-zero PSF short-circuits
      to zeros of the PSF's own shape, whatever shape was asked for;
      otherwise the PSF is corner-padded to `shape` (failing as zero_pad
      does) and then shifted. */
  function CenteredPsf(psf: Image, shape: Shape): (r: Result<Image>)
    requires psf.Valid()
    ensures AllZero(psf) ==> r == Ok(Zeros(psf.height, psf.width))
    ensures !AllZero(psf) ==>
      (r.Ok? <==> psf.Dims() == shape ||
                  (0 < shape.rows && 0 < shape.cols && psf.height <= shape.rows && psf.width <= shape.cols))
    ensures !AllZero(psf) && r.Err? ==> r == Padded(psf, shape, Corner)
    ensures !AllZero(psf) && r.Ok? ==> r.value.Valid() && r.value.Dims() == shape
  {
    if AllZero(psf) then Ok(Zeros(psf.height, psf.width))
    else
      match Padded(psf, shape, Corner)
      case Err(e) => Err(e)
      case Ok(padded) => Ok(ShiftToOrigin(padded, psf.height, psf.width))
  }

  /** Output sample (i, j) of the non-degenerate case is the PSF sample at
      (i + h/2, j + w/2) modulo the output shape when that falls inside the
      PSF, and zero otherwise. */
  lemma CenteredPsfAt(psf: Image, shape: Shape, i: nat, j: nat, a: int, b: int)
    requires psf.Valid() && !AllZero(psf) && CenteredPsf(psf, shape).Ok?
    requires i < shape.rows && j < shape.cols
    requires a == (i + psf.height / 2) % shape.rows && b == (j + psf.width / 2) % shape.cols
    ensures CenteredPsf(psf, shape).value.px[i][j] ==
      if a < psf.height && b < psf.width then psf.px[a][b] else 0.0
  {
    assert Padded(psf, shape, Corner).Ok?;
    var padded := Padded(psf, shape, Corner).value;
    assert CenteredPsf(psf, shape).value == ShiftToOrigin(padded, psf.height, psf.width);
    ShiftToOriginAt(padded, psf.height, psf.width, i, j);
    CornerPadAt(psf, shape, a, b);
  }

  /** Every PSF sample (a, b) lands at (a - h/2, b - w/2) modulo the output
      shape. */
  lemma {:induction false} PsfSampleLands(psf: Image, shape: Shape, a: nat, b: nat)
    requires psf.Valid() && !AllZero(psf) && CenteredPsf(psf, shape).Ok?
    requires a < psf.height && b < psf.width
    ensures CenteredPsf(psf, shape).value.px[(a - psf.height / 2) % shape.rows][(b - psf.width / 2) % shape.cols]
      == psf.px[a][b]
  {
    assert psf.height <= shape.rows && psf.width <= shape.cols;
    var i := LandingIndex(a, psf.height / 2, shape.rows);
    var j := LandingIndex(b, psf.width / 2, shape.cols);
    CenteredPsfAt(psf, shape, i, j, a, b);
  }

  /** The PSF's central sample (h/2, w/2) lands at the origin. */
  lemma CenterLandsAtOrigin(psf: Image, shape: Shape)
    requires psf.Valid() && !AllZero(psf) && CenteredPsf(psf, shape).Ok?
    ensures psf.height > 0 && psf.width > 0
    ensures CenteredPsf(psf, shape).value.px[0][0] == psf.px[psf.height / 2][psf.width / 2]
  {
    NonZeroIsNonEmpty(psf);
    assert psf.height <= shape.rows && psf.width <= shape.cols;
    var a, b := psf.height / 2, psf.width / 2;
    ModOfDecomposition(0 + a, shape.rows, 0, a);
    ModOfDecomposition(0 + b, shape.cols, 0, b);
    CenteredPsfAt(psf, shape, 0, 0, a, b);
  }

  /** A sample offset by `k` (with k < n) wraps back to `k` only from 0. */
  lemma WrapHitsOffsetOnlyAtZero(i: int, k: int, n: int)
    requires 0 <= i < n && 0 <= k < n
    ensures (i + k) % n == k <==> i == 0
  {
    if i + k < n {
      ModOfDecomposition(i + k, n, 0, i + k);
    } else {
      ModOfDecomposition(i + k, n, 1, i + k - n);
    }
  }

  /** A unit impulse at the geometric center of the PSF array. */
  predicate IsCenteredDirac(psf: Image)
    requires psf.Valid()
  {
    && psf.height > 0 && psf.width > 0
    && forall i, j :: 0 <= i < psf.height && 0 <= j < psf.width ==>
         psf.px[i][j] == if i == psf.height / 2 && j == psf.width / 2 then 1.0 else 0.0
  }

  /** A centered Dirac becomes a unit impulse at index (0, 0): the input
      whose FFT is flat. */
  lemma {:induction false} DiracCentersAtOrigin(psf: Image, shape: Shape)
    requires psf.Valid() && IsCenteredDirac(psf)
    requires shape.rows >= psf.height && shape.cols >= psf.width
    ensures CenteredPsf(psf, shape).Ok?
    ensures CenteredPsf(psf, shape).value.Dims() == shape
    ensures forall i, j :: 0 <= i < shape.rows && 0 <= j < shape.cols ==>
      CenteredPsf(psf, shape).value.px[i][j] == if i == 0 && j == 0 then 1.0 else 0.0
  {
    assert psf.px[psf.height / 2][psf.width / 2] == 1.0;
    assert !AllZero(psf);
    var out := CenteredPsf(psf, shape).value;
    forall i, j | 0 <= i < shape.rows && 0 <= j < shape.cols
      ensures out.px[i][j] == if i == 0 && j == 0 then 1.0 else 0.0
    {
      DiracCell(psf, shape, i, j);
    }
  }

  /** One output sample of a centered Dirac after the shift. */
  lemma DiracCell(psf: Image, shape: Shape, i: nat, j: nat)
    requires psf.Valid() && IsCenteredDirac(psf) && !AllZero(psf)
    requires shape.rows >= psf.height && shape.cols >= psf.width
    requires i < shape.rows && j < shape.cols
    ensures CenteredPsf(psf, shape).Ok?
    ensures CenteredPsf(psf, shape).value.px[i][j] == if i == 0 && j == 0 then 1.0 else 0.0
  {
    var out := CenteredPsf(psf, shape).value;
    var a, b := (i + psf.height / 2) % shape.rows, (j + psf.width / 2) % shape.cols;
    CenteredPsfAt(psf, shape, i, j, a, b);
    WrapHitsOffsetOnlyAtZero(i, psf.height / 2, shape.rows);
    WrapHitsOffsetOnlyAtZero(j, psf.width / 2, shape.cols);
    if a < psf.height && b < psf.width {
      assert out.px[i][j] == psf.px[a][b];
      assert psf.px[a][b] == if a == psf.height / 2 && b == psf.width / 2 then 1.0 else 0.0;
    } else {
      assert out.px[i][j] == 0.0;
    }
  }

  /** psf2otf up to the FFT: the short-circuit on an all-zero PSF, the
      corner padding, and the loop that rolls each axis by minus half of
      the PSF's own size along it. */
  method CenterPsf(psf: Image, shape: Shape) returns (r: Result<Image>)
    requires psf.Valid()
    ensures r == CenteredPsf(psf, shape)
  {
    if AllZero(psf) {
      return Ok(Zeros(psf.height, psf.width));
    }
    var inshape: seq<int> := [psf.height, psf.width];
    var padded :- ZeroPad(psf, shape, Corner);
    var out := padded;
    for axis: nat := 0 to |inshape|
      invariant out == RolledAxes(padded, inshape, axis)
    {
      out := Roll(out, -(inshape[axis] / 2), axis);
    }
    AllAxesRolled(padded, inshape);
    return Ok(out);
  }
}
