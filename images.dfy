/** Two-dimensional PSF images, target shapes, and the error conditions
    raised by the alignment and lookup steps of make_psf_kernel. */
module Images {

  /** A requested array shape. The caller may pass any integers, so a
      target dimension can be zero or negative (an error for trim and
      zero_pad). */
  datatype Shape = Shape(rows: int, cols: int)

  /** A real-valued 2-D array: `px[i][j]` is the sample at row `i`,
      column `j`. The shape is kept explicitly so that arrays with an
      empty axis still have one. */
  datatype Image = Image(height: nat, width: nat, px: seq<seq<real>>) {

    /** Every row holds exactly `width` samples. */
    predicate Valid() {
      |px| == height && forall i :: 0 <= i < height ==> |px[i]| == width
    }

    /** The numpy `.shape` of the array. */
    function Dims(): Shape {
      Shape(height, width)
    }
  }

  /** The distinct exceptions raised by the modelled code. */
  datatype Error =
    | NonPositiveShape    // ValueError: "null or negative shape given"
    | TargetLarger        // ValueError: "TRIM: target size bigger than source one"
    | TargetSmaller       // ValueError: "ZERO_PAD: target size smaller than source one"
    | ParityMismatch      // ValueError: "... have different parity"
    | ZeroDivision        // ZeroDivisionError from a size ratio
    | SizeCapExceeded     // MemoryError: resampled side above 10000
    | PixelScaleNotFound  // IOError: "Pixel size not found in FITS file"

  /** Either a value or the error that the source raises instead. */
  datatype Result<+T> = Ok(value: T) | Err(error: Error) {
    predicate IsFailure() {
      Err?
    }

    function PropagateFailure<U>(): Result<U>
      requires Err?
    {
      Err(error)
    }

    function Extract(): T
      requires Ok?
    {
      value
    }
  }

  /** An all-zero array of the given shape (`np.zeros`). */
  function Zeros(height: nat, width: nat): (z: Image)
    ensures z.Valid() && z.height == height && z.width == width
    ensures forall i, j :: 0 <= i < height && 0 <= j < width ==> z.px[i][j] == 0.0
  {
    Image(height, width, seq(height, _ => seq(width, _ => 0.0)))
  }

  /** `np.all(img == 0)`: holds vacuously for an array with an empty axis. */
  predicate AllZero(img: Image)
    requires img.Valid()
  {
    forall i, j :: 0 <= i < img.height && 0 <= j < img.width ==> img.px[i][j] == 0.0
  }

  /** `np.all(img == 0)` holds exactly when the array equals
      `np.zeros_like(img)`. */
  lemma AllZeroIsZeros(img: Image)
    requires img.Valid()
    ensures AllZero(img) <==> img == Zeros(img.height, img.width)
  {
    if AllZero(img) {
      SamePixels(img, Zeros(img.height, img.width));
    }
  }

  /** An array with a nonzero sample has no empty axis. */
  lemma NonZeroIsNonEmpty(img: Image)
    requires img.Valid() && !AllZero(img)
    ensures img.height > 0 && img.width > 0
  {
  }

  /** `inner` sits in the middle of `outer`: it is no larger on either
      axis, the margins left on both sides of each axis are equal, and the
      samples agree across that offset. */
  predicate CenteredIn(inner: Image, outer: Image)
    requires inner.Valid() && outer.Valid()
  {
    && inner.height <= outer.height && inner.width <= outer.width
    && (outer.height - inner.height) % 2 == 0
    && (outer.width - inner.width) % 2 == 0
    && forall i, j :: 0 <= i < inner.height && 0 <= j < inner.width ==>
         inner.px[i][j] == outer.px[i + (outer.height - inner.height) / 2][j + (outer.width - inner.width) / 2]
  }

  /** One sample of a centered image, read from the outer array. */
  lemma CenteredAt(inner: Image, outer: Image, i: nat, j: nat)
    requires inner.Valid() && outer.Valid() && CenteredIn(inner, outer)
    requires i < inner.height && j < inner.width
    ensures inner.px[i][j] == outer.px[i + (outer.height - inner.height) / 2][j + (outer.width - inner.width) / 2]
  {
  }

  /** An array holds only one centered image of a given shape. */
  lemma SameCentered(a: Image, b: Image, outer: Image)
    requires a.Valid() && b.Valid() && outer.Valid() && a.Dims() == b.Dims()
    requires CenteredIn(a, outer) && CenteredIn(b, outer)
    ensures a == b
  {
    forall i, j | 0 <= i < a.height && 0 <= j < a.width
      ensures a.px[i][j] == b.px[i][j]
    {
      CenteredAt(a, outer, i, j);
      CenteredAt(b, outer, i, j);
    }
    SamePixels(a, b);
  }

  /** `outer` is `inner` centered in a frame of zeros: `inner` is centered
      in it and every sample outside that window is zero. */
  predicate CenteredOnZeros(inner: Image, outer: Image)
    requires inner.Valid() && outer.Valid()
  {
    && CenteredIn(inner, outer)
    && forall i, j ::
         (&& 0 <= i < outer.height && 0 <= j < outer.width
          && !(&& (outer.height - inner.height) / 2 <= i < (outer.height - inner.height) / 2 + inner.height
               && (outer.width - inner.width) / 2 <= j < (outer.width - inner.width) / 2 + inner.width))
         ==> outer.px[i][j] == 0.0
  }

  /** Two valid images with the same shape and the same samples are equal. */
  lemma SamePixels(a: Image, b: Image)
    requires a.Valid() && b.Valid() && a.Dims() == b.Dims()
    requires forall i, j :: 0 <= i < a.height && 0 <= j < a.width ==> a.px[i][j] == b.px[i][j]
    ensures a == b
  {
    forall i | 0 <= i < a.height
      ensures a.px[i] == b.px[i]
    {
      assert |a.px[i]| == |b.px[i]|;
      forall j | 0 <= j < a.width
        ensures a.px[i][j] == b.px[i][j]
      {
      }
    }
    assert a.px == b.px;
  }
}
