/**
  The SQM region mask: an all-zero single-channel grid with a solid
  rectangle of 255s, taken from the configured region of interest scaled
  down by the binning factor, or from a central fallback when the region is
  not configured; optionally restricted to where an external mask is set.
 */
module SqmMask {
  import opened Basics
  import opened Grids

  const MaskOn: int := 255

  datatype Rect = Rect(x1: int, y1: int, x2: int, y2: int)

  datatype SqmError =
    | ZeroBinning
    | MaskSizeMismatch
    | MissingSetting(key: string)

  /** Python's `int()` on a float: truncation toward zero. */
  function Trunc(x: real): (n: int)
    ensures 0.0 <= x ==> 0 <= n && n as real <= x < n as real + 1.0
    ensures x < 0.0 ==> n <= 0 && n as real - 1.0 < x <= n as real
  {
    if x >= 0.0 then x.Floor else -((-x).Floor)
  }

  /** One region coordinate divided by the binning factor and truncated. */
  function Scale(v: int, binning: int): int
    requires binning != 0
  {
    Trunc(v as real / binning as real)
  }

  /** For a positive binning, scaling is integer division rounded toward zero. */
  lemma ScaleIsQuotient(v: int, binning: int)
    requires binning > 0
    ensures v >= 0 ==> Scale(v, binning) == v / binning
    ensures v < 0 ==> Scale(v, binning) == -((-v) / binning)
  {
    if v >= 0 {
      FloorOfQuotient(v, binning);
    } else {
      FloorOfQuotient(-v, binning);
      assert (-v) as real / binning as real == -(v as real / binning as real);
    }
  }

  /** For natural `u` and positive `b`, the real quotient rounds down to the integer quotient. */
  lemma FloorOfQuotient(u: nat, b: int)
    requires b > 0
    ensures (u as real / b as real).Floor == u / b
  {
    var n := u / b;
    assert n * b <= u < (n + 1) * b;
    CastMul(n, b);
    CastMul(n + 1, b);
    DivBetween(u as real, b as real, n as real);
  }

  lemma CastMul(a: int, b: int)
    ensures (a * b) as real == a as real * b as real
  {
  }

  lemma DivBetween(a: real, b: real, n: real)
    requires b > 0.0 && n * b <= a < (n + 1.0) * b
    ensures n <= a / b < n + 1.0
  {
    var q := a / b;
    assert q * b == a;
    if q >= n + 1.0 {
      MulNonneg(q - (n + 1.0), b);
      assert false;
    }
  }

  lemma MulNonneg(x: real, y: real)
    requires x >= 0.0 && y >= 0.0
    ensures x * y >= 0.0
  {
  }

  /** The fallback rectangle: half the size plus and minus a fifth, in each axis. */
  function CentralRect(height: nat, width: nat): Rect {
    Rect(Trunc(width as real / 2.0 - width as real / 5.0), Trunc(height as real / 2.0 - height as real / 5.0),
         Trunc(width as real / 2.0 + width as real / 5.0), Trunc(height as real / 2.0 + height as real / 5.0))
  }

  /** The fallback spans three to seven tenths of each axis, rounded down. */
  lemma CentralRectTenths(height: nat, width: nat)
    ensures CentralRect(height, width) == Rect(3 * width / 10, 3 * height / 10, 7 * width / 10, 7 * height / 10)
  {
    TenthsFloor(width, 3);
    TenthsFloor(width, 7);
    TenthsFloor(height, 3);
    TenthsFloor(height, 7);
    assert width as real / 2.0 - width as real / 5.0 == (3 * width) as real / 10.0;
    assert width as real / 2.0 + width as real / 5.0 == (7 * width) as real / 10.0;
    assert height as real / 2.0 - height as real / 5.0 == (3 * height) as real / 10.0;
    assert height as real / 2.0 + height as real / 5.0 == (7 * height) as real / 10.0;
  }

  lemma TenthsFloor(n: nat, k: nat)
    ensures Trunc((k * n) as real / 10.0) == k * n / 10
  {
    var q := k * n / 10;
    assert q * 10 <= k * n < q * 10 + 10;
    assert (q * 10) as real == q as real * 10.0;
  }

  /**
    The rectangle `_generateSqmMask` fills. With a region of four or more
    entries the first four are scaled; with fewer the central fallback is used;
    a zero binning raises as soon as the first entry is divided.
   */
  function RoiRect(roi: seq<int>, binning: int, height: nat, width: nat): (r: Result<Rect, SqmError>)
    ensures r.Err? <==> |roi| > 0 && binning == 0
    ensures r.Err? ==> r.error == ZeroBinning
    ensures r.Ok? && |roi| < 4 ==> r.value == CentralRect(height, width)
    ensures r.Ok? && |roi| >= 4 ==>
              r.value == Rect(Scale(roi[0], binning), Scale(roi[1], binning), Scale(roi[2], binning), Scale(roi[3], binning))
  {
    if |roi| == 0 then Ok(CentralRect(height, width))
    else if binning == 0 then Err(ZeroBinning)
    else if |roi| < 4 then Ok(CentralRect(height, width))
    else Ok(Rect(Scale(roi[0], binning), Scale(roi[1], binning), Scale(roi[2], binning), Scale(roi[3], binning)))
  }

  /** Column `x`, row `y` lies in the filled rectangle between the two corners, boundary included. */
  predicate InRect(r: Rect, x: int, y: int) {
    && (if r.x1 <= r.x2 then r.x1 <= x <= r.x2 else r.x2 <= x <= r.x1)
    && (if r.y1 <= r.y2 then r.y1 <= y <= r.y2 else r.y2 <= y <= r.y1)
  }

  /** A height x width mask whose cells are 255 inside `r` and 0 elsewhere (cv2.rectangle, FILLED). */
  function RectMask(height: nat, width: nat, r: Rect): (m: Grid)
    ensures IsRect(m, height, width)
    ensures forall y, x :: 0 <= y < height && 0 <= x < width ==>
              (m[y][x] == MaskOn <==> InRect(r, x, y)) && (m[y][x] == 0 <==> !InRect(r, x, y))
  {
    seq(height, y requires 0 <= y < height => seq(width, x requires 0 <= x < width => if InRect(r, x, y) then MaskOn else 0))
  }

  /** cv2.bitwise_and(mask, mask, mask=external): `mask` where `external` is set, 0 elsewhere. */
  function Restrict(mask: Grid, external: Grid): (m: Grid)
    requires SameShape2(mask, external)
    ensures SameShape2(m, mask)
    ensures forall y, x :: 0 <= y < |m| && 0 <= x < |m[y]| ==> m[y][x] == if external[y][x] != 0 then mask[y][x] else 0
  {
    seq(|mask|, y requires 0 <= y < |mask| =>
      seq(|mask[y]|, x requires 0 <= x < |mask[y]| => if external[y][x] != 0 then mask[y][x] else 0))
  }

  /**
    `_generateSqmMask` for a frame of `height` x `width`: a 0/255 grid that is
    255 exactly inside the rectangle and, with an external mask, only where
    that mask is nonzero. An external mask of another size makes OpenCV raise.
   */
  function BuildMask(roi: seq<int>, binning: int, external: Option<Grid>, height: nat, width: nat): (r: Result<Grid, SqmError>)
    ensures r.Err? <==> RoiRect(roi, binning, height, width).Err? || (external.Some? && !IsRect(external.value, height, width))
    // the division by the binning comes first; the size check only once the rectangle exists
    ensures RoiRect(roi, binning, height, width).Err? ==> r == Err(RoiRect(roi, binning, height, width).error)
    ensures RoiRect(roi, binning, height, width).Ok? && external.Some? && !IsRect(external.value, height, width) ==>
              r == Err(MaskSizeMismatch)
    ensures r.Ok? ==> IsRect(r.value, height, width)
    ensures r.Ok? ==> forall y, x :: 0 <= y < height && 0 <= x < width ==> r.value[y][x] == 0 || r.value[y][x] == MaskOn
    ensures r.Ok? ==> forall y, x :: 0 <= y < height && 0 <= x < width ==>
              (r.value[y][x] == MaskOn <==>
                 InRect(RoiRect(roi, binning, height, width).value, x, y) && (external.None? || external.value[y][x] != 0))
  {
    match RoiRect(roi, binning, height, width)
    case Err(e) => Err(e)
    case Ok(rect) =>
      var m := RectMask(height, width, rect);
      if external.None? then Ok(m)
      else if !IsRect(external.value, height, width) then Err(MaskSizeMismatch)
      else Ok(Restrict(m, external.value))
  }

  /** Restricting by an external mask only ever switches cells off. */
  lemma RestrictedWithinRect(roi: seq<int>, binning: int, external: Grid, height: nat, width: nat)
    requires BuildMask(roi, binning, Some(external), height, width).Ok?
    ensures BuildMask(roi, binning, None, height, width).Ok?
    ensures var restricted := BuildMask(roi, binning, Some(external), height, width).value;
            var plain := BuildMask(roi, binning, None, height, width).value;
            forall y, x :: 0 <= y < height && 0 <= x < width && restricted[y][x] != 0 ==> plain[y][x] == MaskOn
  {
  }

  /** Region [100, 100, 200, 200] at binning 2 covers (50, 50) to (100, 100). */
  lemma BinnedRoiExample(height: nat, width: nat)
    ensures RoiRect([100, 100, 200, 200], 2, height, width) == Ok(Rect(50, 50, 100, 100))
  {
    ScaleIsQuotient(100, 2);
    ScaleIsQuotient(200, 2);
  }

  /** Without a configured region a 1000 x 800 frame uses columns 300..700 and rows 240..560. */
  lemma FallbackExample()
    ensures RoiRect([], 1, 800, 1000) == Ok(Rect(300, 240, 700, 560))
  {
    CentralRectTenths(800, 1000);
  }
}
