/** Geometric alignment of a PSF onto a target grid: center-cropping
    (trim), zero-padding at the corner or the center (zero_pad), and the
    choice between the two that the command-line driver makes. */
module Alignment {
  import opened Images

  /** Where zero_pad places the source image; every `position` string other
      than 'center' takes the corner branch. */
  datatype Anchor = Corner | Center

  /** trim(image, shape): center-crop `image` to `shape`. */
  function Trim(image: Image, shape: Shape): (r: Result<Image>)
    requires image.Valid()
    ensures image.Dims() == shape ==> r == Ok(image)
    ensures r.Ok? <==>
      || image.Dims() == shape
      || (&& 0 < shape.rows <= image.height && 0 < shape.cols <= image.width
          && (image.height - shape.rows) % 2 == 0 && (image.width - shape.cols) % 2 == 0)
    ensures r.Ok? ==> r.value.Valid() && r.value.Dims() == shape && CenteredIn(r.value, image)
    ensures r == Err(NonPositiveShape) <==> image.Dims() != shape && (shape.rows <= 0 || shape.cols <= 0)
    ensures r == Err(TargetLarger) <==>
      image.Dims() != shape && shape.rows > 0 && shape.cols > 0 &&
      (shape.rows > image.height || shape.cols > image.width)
    ensures r == Err(ParityMismatch) <==>
      && image.Dims() != shape && 0 < shape.rows <= image.height && 0 < shape.cols <= image.width
      && ((image.height - shape.rows) % 2 != 0 || (image.width - shape.cols) % 2 != 0)
  {
    if image.Dims() == shape then Ok(image)
    else if shape.rows <= 0 || shape.cols <= 0 then Err(NonPositiveShape)
    else if image.height - shape.rows < 0 || image.width - shape.cols < 0 then Err(TargetLarger)
    else if (image.height - shape.rows) % 2 != 0 || (image.width - shape.cols) % 2 != 0 then Err(ParityMismatch)
    else
      var offx, offy := (image.height - shape.rows) / 2, (image.width - shape.cols) / 2;
      Ok(Image(shape.rows, shape.cols,
        seq(shape.rows, i requires 0 <= i < shape.rows =>
          seq(shape.cols, j requires 0 <= j < shape.cols => image.px[i + offx][j + offy]))))
  }

  /** The offset of the source block inside the padded array: none at the
      corner, half the size difference on each axis at the center. */
  function PadOffset(image: Image, shape: Shape, anchor: Anchor): (off: Shape)
    ensures anchor == Corner ==> off == Shape(0, 0)
    ensures anchor == Center && (shape.rows - image.height) % 2 == 0 ==>
      off.rows + image.height + off.rows == shape.rows
    ensures anchor == Center && (shape.cols - image.width) % 2 == 0 ==>
      off.cols + image.width + off.cols == shape.cols
  {
    if anchor == Center then Shape((shape.rows - image.height) / 2, (shape.cols - image.width) / 2)
    else Shape(0, 0)
  }

  /** The `rows` x `cols` array holding `image` at offset `off` and zero
      everywhere else. */
  function Embed(image: Image, rows: nat, cols: nat, off: Shape): (r: Image)
    requires image.Valid()
    requires 0 <= off.rows && off.rows + image.height <= rows
    requires 0 <= off.cols && off.cols + image.width <= cols
    ensures r.Valid() && r.height == rows && r.width == cols
    ensures forall i, j :: 0 <= i < image.height && 0 <= j < image.width ==>
      r.px[i + off.rows][j + off.cols] == image.px[i][j]
    ensures forall i, j :: 0 <= i < rows && 0 <= j < cols ==>
      r.px[i][j] ==
        if off.rows <= i < off.rows + image.height && off.cols <= j < off.cols + image.width
        then image.px[i - off.rows][j - off.cols] else 0.0
  {
    Image(rows, cols,
      seq(rows, i requires 0 <= i < rows =>
        seq(cols, j requires 0 <= j < cols =>
          if off.rows <= i < off.rows + image.height && off.cols <= j < off.cols + image.width
          then image.px[i - off.rows][j - off.cols] else 0.0)))
  }

  /** The array zero_pad(image, shape, position) returns: the source block
      at the anchor's offset inside an otherwise all-zero array. */
  function Padded(image: Image, shape: Shape, anchor: Anchor): (r: Result<Image>)
    requires image.Valid()
    ensures image.Dims() == shape ==> r == Ok(image)
    ensures r.Ok? <==>
      || image.Dims() == shape
      || (&& 0 < shape.rows && 0 < shape.cols
          && image.height <= shape.rows && image.width <= shape.cols
          && (anchor == Center ==>
                (shape.rows - image.height) % 2 == 0 && (shape.cols - image.width) % 2 == 0))
    ensures r == Err(NonPositiveShape) <==> image.Dims() != shape && (shape.rows <= 0 || shape.cols <= 0)
    ensures r == Err(TargetSmaller) <==>
      image.Dims() != shape && shape.rows > 0 && shape.cols > 0 &&
      (shape.rows < image.height || shape.cols < image.width)
    ensures r == Err(ParityMismatch) <==>
      && image.Dims() != shape && anchor == Center
      && 0 < shape.rows && 0 < shape.cols && image.height <= shape.rows && image.width <= shape.cols
      && ((shape.rows - image.height) % 2 != 0 || (shape.cols - image.width) % 2 != 0)
    ensures r.Ok? ==> r.value.Valid() && r.value.Dims() == shape
    ensures r.Ok? && image.Dims() != shape ==>
      r.value == Embed(image, shape.rows, shape.cols, PadOffset(image, shape, anchor))
    ensures r.Ok? && anchor == Center ==> CenteredOnZeros(image, r.value)
  {
    if image.Dims() == shape then Ok(image)
    else if shape.rows <= 0 || shape.cols <= 0 then Err(NonPositiveShape)
    else if shape.rows - image.height < 0 || shape.cols - image.width < 0 then Err(TargetSmaller)
    else if anchor == Center && ((shape.rows - image.height) % 2 != 0 || (shape.cols - image.width) % 2 != 0) then
      Err(ParityMismatch)
    else
      var padded := Embed(image, shape.rows, shape.cols, PadOffset(image, shape, anchor));
      if anchor == Center then EmbedAtCenter(image, shape, padded); Ok(padded) else Ok(padded)
  }

  /** Embedding at the center offset of a same-parity target centers the
      image on a zero background. */
  lemma EmbedAtCenter(image: Image, shape: Shape, padded: Image)
    requires image.Valid() && image.height <= shape.rows && image.width <= shape.cols
    requires (shape.rows - image.height) % 2 == 0 && (shape.cols - image.width) % 2 == 0
    requires padded == Embed(image, shape.rows, shape.cols, PadOffset(image, shape, Center))
    ensures CenteredOnZeros(image, padded)
  {
    var off := PadOffset(image, shape, Center);
    assert off.rows == (padded.height - image.height) / 2;
    assert off.cols == (padded.width - image.width) / 2;
    forall i, j | 0 <= i < image.height && 0 <= j < image.width
      ensures image.px[i][j] == padded.px[i + (padded.height - image.height) / 2][j + (padded.width - image.width) / 2]
    {
    }
    forall i, j |
      && 0 <= i < padded.height && 0 <= j < padded.width
      && !(&& (padded.height - image.height) / 2 <= i < (padded.height - image.height) / 2 + image.height
           && (padded.width - image.width) / 2 <= j < (padded.width - image.width) / 2 + image.width)
      ensures padded.px[i][j] == 0.0
    {
    }
  }

  /** The samples of a 2-D array, as an image value. */
  function Snapshot(a: array2<real>): (img: Image)
    reads a
    ensures img.Valid() && img.height == a.Length0 && img.width == a.Length1
    ensures forall i, j :: 0 <= i < a.Length0 && 0 <= j < a.Length1 ==> img.px[i][j] == a[i, j]
  {
    Image(a.Length0, a.Length1,
      seq(a.Length0, i requires 0 <= i < a.Length0 reads a =>
        seq(a.Length1, j requires 0 <= j < a.Length1 reads a => a[i, j])))
  }

  /** `pad_img[idx + offx, idy + offy] = image`: write the source block
      into a zero array at the given offset, one sample at a time. */
  method CopyBlock(pad: array2<real>, image: Image, offx: nat, offy: nat)
    requires image.Valid()
    requires offx + image.height <= pad.Length0 && offy + image.width <= pad.Length1
    requires forall a, b :: 0 <= a < pad.Length0 && 0 <= b < pad.Length1 ==> pad[a, b] == 0.0
    modifies pad
    ensures forall a, b :: 0 <= a < pad.Length0 && 0 <= b < pad.Length1 ==>
      pad[a, b] ==
        if offx <= a < offx + image.height && offy <= b < offy + image.width
        then image.px[a - offx][b - offy] else 0.0
  {
    for i := 0 to image.height
      invariant forall a, b :: 0 <= a < pad.Length0 && 0 <= b < pad.Length1 ==>
        pad[a, b] ==
          if offx <= a < offx + i && offy <= b < offy + image.width
          then image.px[a - offx][b - offy] else 0.0
    {
      for j := 0 to image.width
        invariant forall a, b :: 0 <= a < pad.Length0 && 0 <= b < pad.Length1 ==>
          pad[a, b] ==
            if (offx <= a < offx + i && offy <= b < offy + image.width) || (a == offx + i && offy <= b < offy + j)
            then image.px[a - offx][b - offy] else 0.0
      {
        pad[i + offx, j + offy] := image.px[i][j];
      }
    }
  }

  /** After the block copy, the array holds exactly the embedded image. */
  lemma SnapshotOfBlock(pad: array2<real>, image: Image, offx: nat, offy: nat)
    requires image.Valid()
    requires offx + image.height <= pad.Length0 && offy + image.width <= pad.Length1
    requires forall a, b :: 0 <= a < pad.Length0 && 0 <= b < pad.Length1 ==>
      pad[a, b] ==
        if offx <= a < offx + image.height && offy <= b < offy + image.width
        then image.px[a - offx][b - offy] else 0.0
    ensures Snapshot(pad) == Embed(image, pad.Length0, pad.Length1, Shape(offx, offy))
  {
    var padded, expected := Snapshot(pad), Embed(image, pad.Length0, pad.Length1, Shape(offx, offy));
    forall i, j | 0 <= i < pad.Length0 && 0 <= j < pad.Length1
      ensures padded.px[i][j] == expected.px[i][j]
    {
      assert padded.px[i][j] == pad[i, j];
      assert expected.px[i][j] ==
        if offx <= i < offx + image.height && offy <= j < offy + image.width
        then image.px[i - offx][j - offy] else 0.0;
    }
    SamePixels(padded, expected);
  }

  /** zero_pad(image, shape, position): allocate a zero array of the target
      shape and write the source block into it at the anchor's offset. */
  method ZeroPad(image: Image, shape: Shape, anchor: Anchor) returns (r: Result<Image>)
    requires image.Valid()
    ensures r == Padded(image, shape, anchor)
  {
    if image.Dims() == shape {
      return Ok(image);
    }
    if shape.rows <= 0 || shape.cols <= 0 {
      return Err(NonPositiveShape);
    }
    var dx, dy := shape.rows - image.height, shape.cols - image.width;
    if dx < 0 || dy < 0 {
      return Err(TargetSmaller);
    }
    var pad := new real[shape.rows, shape.cols]((_, _) => 0.0);
    var offx, offy := 0, 0;
    if anchor == Center {
      if dx % 2 != 0 || dy % 2 != 0 {
        return Err(ParityMismatch);
      }
      offx, offy := dx / 2, dy / 2;
    }
    CopyBlock(pad, image, offx, offy);
    var padded := Snapshot(pad);
    SnapshotOfBlock(pad, image, offx, offy);
    r := Ok(padded);
  }

  /** The shapes for which the driver's trim-or-pad step succeeds: equal
      shapes, or a positive target that is no larger or no smaller than the
      source on both axes and differs from it by an even amount on each. */
  predicate Alignable(source: Image, target: Shape)
  {
    || source.Dims() == target
    || (&& target.rows > 0 && target.cols > 0
        && ((source.height >= target.rows && source.width >= target.cols) ||
            (source.height <= target.rows && source.width <= target.cols))
        && (source.height - target.rows) % 2 == 0 && (source.width - target.cols) % 2 == 0)
  }

  /** The driver's alignment of the source PSF onto the target PSF's shape:
      trim when the source is larger on either axis, center-pad otherwise. */
  method Align(source: Image, target: Shape) returns (r: Result<Image>)
    requires source.Valid()
    ensures r.Ok? <==> Alignable(source, target)
    ensures r.Ok? ==> r.value.Valid() && r.value.Dims() == target
    ensures r.Ok? && (source.height > target.rows || source.width > target.cols) ==>
      CenteredIn(r.value, source)
    ensures r.Ok? && !(source.height > target.rows || source.width > target.cols) ==>
      CenteredOnZeros(source, r.value)
  {
    if source.height > target.rows || source.width > target.cols {
      r := Trim(source, target);
    } else {
      r := ZeroPad(source, target, Center);
    }
  }

  /** Trimming an array to the shape of an image centered in it recovers
      that image. */
  lemma TrimRecoversCentered(outer: Image, x: Image)
    requires outer.Valid() && x.Valid() && x.height > 0 && x.width > 0
    requires CenteredIn(x, outer)
    ensures Trim(outer, x.Dims()) == Ok(x)
  {
    var t := Trim(outer, x.Dims());
    assert t.Ok?;
    SameCentered(t.value, x, outer);
  }

  /** Center-padding and then trimming back to the original shape gives the
      original image back, for any larger target of the same parity. */
  lemma {:induction false} TrimUndoesCenterPad(x: Image, s: Shape)
    requires x.Valid() && x.height > 0 && x.width > 0
    requires s.rows >= x.height && s.cols >= x.width
    requires (s.rows - x.height) % 2 == 0 && (s.cols - x.width) % 2 == 0
    ensures Padded(x, s, Center).Ok?
    ensures Trim(Padded(x, s, Center).value, x.Dims()) == Ok(x)
  {
    var p := Padded(x, s, Center);
    assert p.Ok?;
    assert CenteredOnZeros(x, p.value);
    TrimRecoversCentered(p.value, x);
  }

  /** The round trip needs a non-empty image: an array with an empty axis
      pads fine, but trim refuses its zero-sized shape. */
  lemma EmptyImageRoundTripFails()
    ensures Padded(Image(0, 2, []), Shape(2, 2), Center).Ok?
    ensures Trim(Padded(Image(0, 2, []), Shape(2, 2), Center).value, Shape(0, 2)) == Err(NonPositiveShape)
  {
    var x := Image(0, 2, []);
    assert x.Valid();
  }
}
