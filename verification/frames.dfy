/**
  Decoded camera frames as numpy hands them over: a 2-D single-channel array
  or a 3-D array of rows of pixels of channels (BGR order). The colour to gray
  reduction of OpenCV is not modelled; it is a per-pixel function `luma`
  supplied by the caller.
 */
module Frames {
  import opened Grids

  datatype Frame = Mono(gray: Grid) | Color(pixels: Cube)

  function Height(f: Frame): nat {
    match f
    case Mono(g) => |g|
    case Color(c) => |c|
  }

  function Width(f: Frame): nat {
    match f
    case Mono(g) => if |g| == 0 then 0 else |g[0]|
    case Color(c) => if |c| == 0 then 0 else |c[0]|
  }

  function Channels(f: Frame): nat {
    match f
    case Mono(_) => 1
    case Color(c) => if |c| == 0 || |c[0]| == 0 then 0 else |c[0][0]|
  }

  /**
    A non-empty rectangular array as the image decoder returns it: 2-D, or 3-D
    with 3 (BGR) or 4 (BGRA) channels, the channel counts OpenCV's BGR to gray
    conversion accepts.
   */
  predicate Valid(f: Frame) {
    && Height(f) > 0 && Width(f) > 0
    && match f
       case Mono(g) => IsRect(g, Height(f), Width(f))
       case Color(c) => Channels(f) in {3, 4} && IsCube(c, Height(f), Width(f), Channels(f))
  }

  /** Two frames of the same array shape, the condition under which cv2.max accepts them. */
  predicate Compatible(a: Frame, b: Frame) {
    || (a.Mono? && b.Mono? && SameShape2(a.gray, b.gray))
    || (a.Color? && b.Color? && SameShape3(a.pixels, b.pixels))
  }

  /** `a` is at least `b` in every sample, and both have the same shape. */
  predicate Dominates(a: Frame, b: Frame) {
    || (a.Mono? && b.Mono? && Dominates2(a.gray, b.gray))
    || (a.Color? && b.Color? && Dominates3(a.pixels, b.pixels))
  }

  /** Every sample of `f` is zero. */
  predicate IsBlack(f: Frame) {
    match f
    case Mono(g) => forall i, k :: 0 <= i < |g| && 0 <= k < |g[i]| ==> g[i][k] == 0
    case Color(c) => forall i, j, k :: 0 <= i < |c| && 0 <= j < |c[i]| && 0 <= k < |c[i][j]| ==> c[i][j][k] == 0
  }

  /**
    The black buffer a star trail starts from: height x width for a 2-D frame,
    height x width x 3 for any other frame, whatever its channel count, so a
    4-channel frame never has the buffer's shape.
   */
  function Blank(f: Frame): (b: Frame)
    requires Valid(f)
    ensures IsBlack(b)
    ensures Height(b) == Height(f) && Width(b) == Width(f)
    ensures f.Mono? ==> b.Mono? && IsRect(b.gray, Height(f), Width(f))
    ensures f.Color? ==> b.Color? && IsCube(b.pixels, Height(f), Width(f), 3)
    ensures f.Mono? || Channels(f) == 3 <==> Compatible(b, f)
  {
    match f
    case Mono(g) => Mono(ZeroGrid(|g|, |g[0]|))
    case Color(c) =>
      var z := ZeroCube(|c|, |c[0]|, 3);
      assert SameShape3(z, c) <==> |c[0][0]| == 3 by {
        if |c[0][0]| != 3 {
          assert |z[0][0]| != |c[0][0]|;
        }
      }
      Color(z)
  }

  /** cv2.max: the elementwise maximum of two frames of one shape. */
  function MaxFrame(a: Frame, b: Frame): (r: Frame)
    requires Compatible(a, b)
    ensures Compatible(r, a) && Compatible(r, b)
    ensures Dominates(r, a) && Dominates(r, b)
    // and it is the least such frame, so no sample is larger than the larger operand's
    ensures forall u :: Dominates(u, a) && Dominates(u, b) ==> Dominates(u, r)
  {
    if a.Mono? then Mono(MaxGrid(a.gray, b.gray)) else Color(MaxCube(a.pixels, b.pixels))
  }

  /** The single-channel view used for the brightness tests: a 2-D frame is used as it is. */
  function GrayView(f: Frame, luma: seq<int> -> int): (g: Grid)
    requires Valid(f)
    ensures IsRect(g, Height(f), Width(f))
    ensures f.Mono? ==> g == f.gray
    ensures f.Color? ==> forall i, j :: 0 <= i < |g| && 0 <= j < |g[i]| ==> g[i][j] == luma(f.pixels[i][j])
  {
    match f
    case Mono(g) => g
    case Color(c) => seq(|c|, i requires 0 <= i < |c| => seq(|c[i]|, j requires 0 <= j < |c[i]| => luma(c[i][j])))
  }

  /** The arithmetic mean of all samples of a non-empty rectangular grid (cv2.mean of one channel). */
  function Mean(g: Grid): (m: real)
    requires |g| > 0 && |g[0]| > 0 && IsRect(g, |g|, |g[0]|)
    ensures m * (|g| * |g[0]|) as real == SumGrid(g) as real
    ensures forall lo, hi :: Within(g, lo, hi) ==> lo as real <= m <= hi as real
  {
    var n := |g| * |g[0]|;
    forall lo, hi | Within(g, lo, hi)
      ensures lo as real <= SumGrid(g) as real / n as real <= hi as real
    {
      SumGridBounds(g, |g[0]|, lo, hi);
      DivBounds(SumGrid(g), n, lo, hi);
    }
    SumGrid(g) as real / n as real
  }

  lemma DivBounds(s: int, n: nat, lo: int, hi: int)
    requires n > 0 && lo * n <= s <= hi * n
    ensures lo as real <= s as real / n as real <= hi as real
  {
    assert (lo * n) as real == lo as real * n as real;
    assert (hi * n) as real == hi as real * n as real;
  }

  // ---------------------------------------------------------------------
  // The star-trail fold and its independence of the folding order

  /** All frames of `fs` have the shape of `b`. */
  predicate AllCompatible(b: Frame, fs: seq<Frame>) {
    forall k :: 0 <= k < |fs| ==> Compatible(b, fs[k])
  }

  lemma CompatibleTrans(a: Frame, b: Frame, c: Frame)
    requires Compatible(a, b) && Compatible(b, c)
    ensures Compatible(a, c) && Compatible(c, a)
  {
  }

  lemma MaxFrameLaws(a: Frame, b: Frame, c: Frame)
    requires Compatible(a, b) && Compatible(b, c)
    ensures Compatible(a, c)
    ensures MaxFrame(a, b) == MaxFrame(b, a)
    ensures MaxFrame(MaxFrame(a, b), c) == MaxFrame(a, MaxFrame(b, c))
  {
    if a.Mono? {
      MaxGridLaws(a.gray, b.gray, c.gray);
    } else {
      MaxCubeLaws(a.pixels, b.pixels, c.pixels);
    }
  }

  /** Folds `fs` into `b` left to right with cv2.max, as successive accepted frames are. */
  function FoldMax(b: Frame, fs: seq<Frame>): (r: Frame)
    requires AllCompatible(b, fs)
    ensures Compatible(r, b)
    decreases |fs|
  {
    if |fs| == 0 then b
    else
      var b' := MaxFrame(b, fs[0]);
      assert AllCompatible(b', fs[1..]) by {
        forall k | 0 <= k < |fs| - 1 {
          CompatibleTrans(b', b, fs[1..][k]);
        }
      }
      FoldMax(b', fs[1..])
  }

  /** The folded buffer dominates its starting buffer and every folded frame. */
  lemma {:induction false} FoldMaxDominates(b: Frame, fs: seq<Frame>)
    requires AllCompatible(b, fs)
    ensures Dominates(FoldMax(b, fs), b)
    ensures forall k :: 0 <= k < |fs| ==> Dominates(FoldMax(b, fs), fs[k])
    decreases |fs|
  {
    if |fs| == 0 {
      DominatesRefl(b);
    } else {
      var b' := MaxFrame(b, fs[0]);
      FoldMaxDominates(b', fs[1..]);
      var r := FoldMax(b, fs);
      DominatesTrans(r, b', b);
      DominatesTrans(r, b', fs[0]);
      forall k | 1 <= k < |fs|
        ensures Dominates(r, fs[k])
      {
        assert fs[k] == fs[1..][k - 1];
      }
    }
  }

  lemma DominatesRefl(a: Frame)
    ensures Dominates(a, a)
  {
  }

  lemma DominatesTrans(a: Frame, b: Frame, c: Frame)
    requires Dominates(a, b) && Dominates(b, c)
    ensures Dominates(a, c)
  {
    if a.Mono? {
      Dominates2Trans(a.gray, b.gray, c.gray);
    } else {
      Dominates3Trans(a.pixels, b.pixels, c.pixels);
    }
  }

  lemma {:induction false} FoldMaxAppend(b: Frame, s: seq<Frame>, t: seq<Frame>)
    requires AllCompatible(b, s + t)
    ensures AllCompatible(b, s) && AllCompatible(FoldMax(b, s), t)
    ensures FoldMax(b, s + t) == FoldMax(FoldMax(b, s), t)
    decreases |s|
  {
    assert forall k :: 0 <= k < |s| ==> s[k] == (s + t)[k];
    assert forall k :: 0 <= k < |t| ==> t[k] == (s + t)[|s| + k];
    forall k | 0 <= k < |t| {
      CompatibleTrans(FoldMax(b, s), b, t[k]);
    }
    if |s| == 0 {
      assert s + t == t;
    } else {
      var b' := MaxFrame(b, s[0]);
      assert (s + t)[1..] == s[1..] + t;
      assert (s + t)[0] == s[0];
      FoldMaxAppend(b', s[1..], t);
      calc {
        FoldMax(b, s + t);
        FoldMax(b', (s + t)[1..]);
        FoldMax(b', s[1..] + t);
        FoldMax(FoldMax(b', s[1..]), t);
        FoldMax(FoldMax(b, s), t);
      }
    }
  }

  /** Folding a frame in first or last gives the same buffer. */
  lemma {:induction false} FoldMaxPull(b: Frame, x: Frame, fs: seq<Frame>)
    requires Compatible(b, x) && AllCompatible(b, fs)
    ensures AllCompatible(MaxFrame(b, x), fs)
    ensures FoldMax(MaxFrame(b, x), fs) == MaxFrame(FoldMax(b, fs), x)
    decreases |fs|
  {
    var bx := MaxFrame(b, x);
    forall k | 0 <= k < |fs| {
      CompatibleTrans(bx, b, fs[k]);
    }
    if |fs| > 0 {
      var f := fs[0];
      var bf := MaxFrame(b, f);
      calc {
        FoldMax(bx, fs);
        FoldMax(MaxFrame(bx, f), fs[1..]);
        { CompatibleTrans(x, b, f);
          MaxFrameLaws(b, x, f);
          MaxFrameLaws(x, f, x);
          MaxFrameLaws(b, f, x);
          assert MaxFrame(bx, f) == MaxFrame(b, MaxFrame(x, f)) == MaxFrame(b, MaxFrame(f, x)) == MaxFrame(bf, x); }
        FoldMax(MaxFrame(bf, x), fs[1..]);
        { assert AllCompatible(bf, fs[1..]) by {
            forall k | 0 <= k < |fs| - 1 { CompatibleTrans(bf, b, fs[1..][k]); }
          }
          CompatibleTrans(bf, b, x);
          FoldMaxPull(bf, x, fs[1..]); }
        MaxFrame(FoldMax(bf, fs[1..]), x);
        MaxFrame(FoldMax(b, fs), x);
      }
    }
  }

  /** Folding a sequence equals folding it with the frame at `j` taken out and applied last. */
  lemma FoldMaxMoveLast(b: Frame, ps: seq<Frame>, j: nat)
    requires AllCompatible(b, ps) && j < |ps|
    ensures AllCompatible(b, ps[..j] + ps[j + 1..])
    ensures FoldMax(b, ps) == MaxFrame(FoldMax(b, ps[..j] + ps[j + 1..]), ps[j])
  {
    var x, pre, post := ps[j], ps[..j], ps[j + 1..];
    assert ps == pre + ([x] + post);
    FoldMaxAppend(b, pre, [x] + post);
    var left := FoldMax(b, pre);
    FoldMaxCons(left, x, post);
    FoldMaxPull(left, x, post);
    AllCompatibleRemove(b, ps, j);
    FoldMaxAppend(b, pre, post);
  }

  lemma AllCompatibleRemove(b: Frame, ps: seq<Frame>, j: nat)
    requires AllCompatible(b, ps) && j < |ps|
    ensures AllCompatible(b, ps[..j] + ps[j + 1..])
  {
    var rest := ps[..j] + ps[j + 1..];
    forall k | 0 <= k < |rest| ensures Compatible(b, rest[k]) {
      if k < j {
        assert rest[k] == ps[k];
      } else {
        assert rest[k] == ps[k + 1];
      }
    }
  }

  lemma FoldMaxCons(b: Frame, x: Frame, t: seq<Frame>)
    requires AllCompatible(b, [x] + t)
    ensures Compatible(b, x) && AllCompatible(MaxFrame(b, x), t)
    ensures FoldMax(b, [x] + t) == FoldMax(MaxFrame(b, x), t)
  {
    assert ([x] + t)[0] == x;
    assert ([x] + t)[1..] == t;
  }

  lemma MultisetRemove<T>(fs: seq<T>, ps: seq<T>, j: nat)
    requires |fs| > 0 && j < |ps| && ps[j] == fs[0] && multiset(fs) == multiset(ps)
    ensures multiset(fs[1..]) == multiset(ps[..j] + ps[j + 1..])
  {
    assert fs == [fs[0]] + fs[1..];
    assert multiset(fs) == multiset{fs[0]} + multiset(fs[1..]);
    assert ps == ps[..j] + [ps[j]] + ps[j + 1..];
    assert multiset(ps) == multiset(ps[..j]) + multiset{ps[j]} + multiset(ps[j + 1..]);
    assert multiset(ps[..j] + ps[j + 1..]) == multiset(ps[..j]) + multiset(ps[j + 1..]);
    assert multiset(fs[1..]) == multiset(fs) - multiset{fs[0]};
    assert multiset(ps[..j] + ps[j + 1..]) == multiset(ps) - multiset{ps[j]};
  }

  /**
    The star-trail buffer does not depend on the order in which the accepted
    frames are folded: any rearrangement of the frames gives the same buffer.
   */
  lemma {:induction false} FoldMaxPermutation(b: Frame, fs: seq<Frame>, ps: seq<Frame>)
    requires AllCompatible(b, fs) && multiset(fs) == multiset(ps)
    ensures AllCompatible(b, ps)
    ensures FoldMax(b, fs) == FoldMax(b, ps)
    decreases |fs|
  {
    forall k | 0 <= k < |ps|
      ensures Compatible(b, ps[k])
    {
      assert ps[k] in multiset(fs);
    }
    if |fs| > 0 {
      var x := fs[0];
      assert x in multiset(ps);
      var j :| 0 <= j < |ps| && ps[j] == x;
      var rest := ps[..j] + ps[j + 1..];
      MultisetRemove(fs, ps, j);
      var bx := MaxFrame(b, x);
      assert AllCompatible(bx, fs[1..]) by {
        forall k | 0 <= k < |fs| - 1 { CompatibleTrans(bx, b, fs[1..][k]); }
      }
      FoldMaxPermutation(bx, fs[1..], rest);
      FoldMaxPull(b, x, rest);
      FoldMaxMoveLast(b, ps, j);
    }
  }
}
