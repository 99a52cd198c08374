/** get_pixscale: find an image's pixel scale, in arcseconds, in its FITS
    header by trying a fixed list of keywords in priority order. The header
    is a map from keyword to numeric value. */
module PixelScale {
  import opened Images

  datatype Option<T> = None | Some(value: T)

  /** The keywords tried, highest priority first. */
  const PixelScaleKeys: seq<string> := ["PIXSCALE", "PIXSCALX", "SECPIX", "CDELT1", "CDELT2", "CD1_1"]

  /** The keywords whose values are in degrees rather than arcseconds. */
  const DegreeKeys: seq<string> := ["CDELT1", "CDELT2", "CD1_1"]

  const ArcsecPerDegree: real := 3600.0

  function Abs(x: real): (a: real)
    ensures a >= 0.0 && (a == x || a == -x)
  {
    if x < 0.0 then -x else x
  }

  /** The index of the first keyword at or after `from` that the header
      holds, if any. */
  function FirstPresent(header: map<string, real>, from: nat): (r: Option<nat>)
    requires from <= |PixelScaleKeys|
    ensures r.Some? ==>
      && from <= r.value < |PixelScaleKeys|
      && PixelScaleKeys[r.value] in header
      && forall k :: from <= k < r.value ==> PixelScaleKeys[k] !in header
    ensures r.None? ==> forall k :: from <= k < |PixelScaleKeys| ==> PixelScaleKeys[k] !in header
    decreases |PixelScaleKeys| - from
  {
    if from == |PixelScaleKeys| then None
    else if PixelScaleKeys[from] in header then Some(from)
    else FirstPresent(header, from + 1)
  }

  /** The pixel scale get_pixscale returns for `header`. */
  function PixelScaleOf(header: map<string, real>): (r: Result<real>)
    ensures r.Err? <==> forall k :: 0 <= k < |PixelScaleKeys| ==> PixelScaleKeys[k] !in header
    ensures r.Err? ==> r.error == PixelScaleNotFound
    ensures r.Ok? ==> r.value >= 0.0
  {
    match FirstPresent(header, 0)
    case None => Err(PixelScaleNotFound)
    case Some(k) =>
      var key := PixelScaleKeys[k];
      var scale := Abs(header[key]);
      Ok(if key in DegreeKeys then scale * ArcsecPerDegree else scale)
  }

  /** The first keyword of the list that the header holds decides the
      result: its absolute value, converted from degrees for the last three
      keywords of the list. */
  lemma {:induction false} FirstKeyDecides(header: map<string, real>, k: nat)
    requires k < |PixelScaleKeys| && PixelScaleKeys[k] in header
    requires forall j :: 0 <= j < k ==> PixelScaleKeys[j] !in header
    ensures PixelScaleOf(header) ==
      Ok(Abs(header[PixelScaleKeys[k]]) * (if k >= 3 then ArcsecPerDegree else 1.0))
  {
    var first := FirstPresent(header, 0);
    assert first == Some(k);
    if k == 0 {
      assert PixelScaleKeys[0] !in DegreeKeys;
    } else if k == 1 {
      assert PixelScaleKeys[1] !in DegreeKeys;
    } else if k == 2 {
      assert PixelScaleKeys[2] !in DegreeKeys;
    } else {
      assert PixelScaleKeys[k] == DegreeKeys[k - 3];
    }
  }

  /** Keywords after the first one found are ignored: two headers that
      agree on the keywords up to it give the same pixel scale. */
  lemma {:induction false} LaterKeysIgnored(h1: map<string, real>, h2: map<string, real>, k: nat)
    requires k < |PixelScaleKeys| && PixelScaleKeys[k] in h1 && PixelScaleKeys[k] in h2
    requires h1[PixelScaleKeys[k]] == h2[PixelScaleKeys[k]]
    requires forall j :: 0 <= j < k ==> PixelScaleKeys[j] !in h1 && PixelScaleKeys[j] !in h2
    ensures PixelScaleOf(h1) == PixelScaleOf(h2)
  {
    FirstKeyDecides(h1, k);
    FirstKeyDecides(h2, k);
  }

  /** get_pixscale: scan the keyword list, stop at the first keyword the
      header holds, fail when there is none, and scale degrees to
      arcseconds. */
  method GetPixelScale(header: map<string, real>) returns (r: Result<real>)
    ensures r == PixelScaleOf(header)
  {
    var pixelKey := "";
    ghost var found := |PixelScaleKeys|;
    for i := 0 to |PixelScaleKeys|
      invariant pixelKey == "" && found == |PixelScaleKeys|
      invariant forall k :: 0 <= k < i ==> PixelScaleKeys[k] !in header
    {
      if PixelScaleKeys[i] in header {
        pixelKey := PixelScaleKeys[i];
        found := i;
        break;
      }
    }
    if pixelKey == "" {
      assert found == |PixelScaleKeys|;
      return Err(PixelScaleNotFound);
    }
    assert found < |PixelScaleKeys| && pixelKey == PixelScaleKeys[found];
    assert FirstPresent(header, 0) == Some(found);
    var pixelScale := Abs(header[pixelKey]);
    if pixelKey in DegreeKeys {
      pixelScale := pixelScale * ArcsecPerDegree;
    }
    return Ok(pixelScale);
  }
}
