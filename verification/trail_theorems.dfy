/** Properties of whole star-trail jobs, relating the generator to the max-fold of its accepted frames. */
module TrailTheorems {
  import opened Basics
  import opened Grids
  import opened Frames
  import opened Seqs
  import opened StarTrails

  /** The frames a generator with an established buffer keeps out of `frames`. */
  function Kept(g: Generator, frames: seq<Frame>, luma: seq<int> -> int): seq<Frame>
    requires g.trail.Some?
  {
    Filter(AcceptTest(g.limits, g.trail.value.pixelsCutoff, luma), frames)
  }

  /**
    Once the buffer exists, running a list of frames is the same as folding the
    frames that pass the exclusion tests into the buffer: the run fails exactly
    when one of them has another shape, and otherwise the buffer is their
    max-fold and the counters split the list between kept and excluded frames.
   */
  lemma {:induction false} ProcessAllFolds(g: Generator, frames: seq<Frame>, luma: seq<int> -> int)
    requires g.trail.Some? && AllValid(frames)
    ensures var r := ProcessAll(g, frames, luma);
            var kept := Kept(g, frames, luma);
            && (r.failure.None? <==> AllCompatible(g.trail.value.image, kept))
            && (r.failure.None? ==>
                  && r.state.trail.value.image == FoldMax(g.trail.value.image, kept)
                  && r.state.trailCount == g.trailCount + |kept|
                  && r.state.excludedImages == g.excludedImages + (|frames| - |kept|))
    decreases |frames|
  {
    if |frames| > 0 {
      var f := frames[0];
      var t := g.trail.value;
      var p := AcceptTest(g.limits, t.pixelsCutoff, luma);
      var s := ProcessImage(g, f, luma);
      var rest := Filter(p, frames[1..]);
      assert AllValid(frames[1..]);
      assert s.state.trail.value.pixelsCutoff == t.pixelsCutoff;
      assert Kept(s.state, frames[1..], luma) == rest;
      assert Kept(g, frames, luma) == if p(f) then [f] + rest else rest;
      if p(f) {
        KeptFrameFolds(g, f, luma);
      } else {
        ExcludedFrameKeepsBuffer(g, f, luma);
      }
      if s.failure.None? {
        ProcessAllFolds(s.state, frames[1..], luma);
        if p(f) {
          KeptStep(t.image, f, rest);
        }
      } else {
        assert !Compatible(t.image, ([f] + rest)[0]);
      }
    }
  }

  /** Folding one more compatible frame first, as an accepting processImage does. */
  lemma KeptStep(b: Frame, f: Frame, rest: seq<Frame>)
    requires Compatible(b, f)
    ensures AllCompatible(MaxFrame(b, f), rest) <==> AllCompatible(b, [f] + rest)
    ensures AllCompatible(b, [f] + rest) ==> FoldMax(b, [f] + rest) == FoldMax(MaxFrame(b, f), rest)
  {
    var b' := MaxFrame(b, f);
    forall x | Compatible(b, x) || Compatible(b', x)
      ensures Compatible(b, x) && Compatible(b', x)
    {
      if Compatible(b, x) { CompatibleTrans(b', b, x); } else { CompatibleTrans(b, b', x); }
    }
    assert forall k :: 0 <= k < |rest| ==> ([f] + rest)[k + 1] == rest[k];
    assert ([f] + rest)[1..] == rest;
  }

  /**
    From any state, the trail a list of frames produces is the max-fold, over
    the buffer the first frame sets up, of exactly the frames that pass the
    exclusion tests against the cutoff the first frame fixes.
   */
  lemma TrailIsFoldOfKept(g: Generator, frames: seq<Frame>, luma: seq<int> -> int)
    requires AllValid(frames) && |frames| > 0
    ensures var e := Establish(g, frames[0]);
            var r := ProcessAll(g, frames, luma);
            var kept := Kept(e, frames, luma);
            r.failure.None? ==>
              && AllCompatible(e.trail.value.image, kept)
              && r.state.trail.value.image == FoldMax(e.trail.value.image, kept)
              && r.state.trail.value.pixelsCutoff == e.trail.value.pixelsCutoff
              && r.state.trailCount == g.trailCount + |kept|
  {
    var e := Establish(g, frames[0]);
    var r := ProcessAll(g, frames, luma);
    EstablishFirst(g, frames, luma);
    assert r == ProcessAll(e, frames, luma);
    ProcessAllFolds(e, frames, luma);
  }

  lemma EstablishFirst(g: Generator, frames: seq<Frame>, luma: seq<int> -> int)
    requires AllValid(frames) && |frames| > 0
    ensures ProcessAll(g, frames, luma) == ProcessAll(Establish(g, frames[0]), frames, luma)
  {
    var e := Establish(g, frames[0]);
    assert Establish(e, frames[0]) == Establish(g, frames[0]);
    assert ProcessImage(g, frames[0], luma) == ProcessImage(e, frames[0], luma);
  }

  /**
    Monotonicity of the fold: after a successful run the buffer is at least the
    buffer it started from and at least every frame that was kept, in every
    sample of every channel.
   */
  lemma TrailDominatesKept(g: Generator, frames: seq<Frame>, luma: seq<int> -> int)
    requires g.trail.Some? && AllValid(frames)
    ensures var r := ProcessAll(g, frames, luma);
            r.failure.None? ==>
              && Dominates(r.state.trail.value.image, g.trail.value.image)
              && forall k :: 0 <= k < |frames| && Accepts(g.limits, g.trail.value.pixelsCutoff, frames[k], luma) ==>
                   Dominates(r.state.trail.value.image, frames[k])
  {
    var r := ProcessAll(g, frames, luma);
    var kept := Kept(g, frames, luma);
    ProcessAllFolds(g, frames, luma);
    if r.failure.None? {
      FoldMaxDominates(g.trail.value.image, kept);
      forall k | 0 <= k < |frames| && Accepts(g.limits, g.trail.value.pixelsCutoff, frames[k], luma)
        ensures Dominates(r.state.trail.value.image, frames[k])
      {
        assert AcceptTest(g.limits, g.trail.value.pixelsCutoff, luma)(frames[k]);
        assert frames[k] in kept;
        var j :| 0 <= j < |kept| && kept[j] == frames[k];
      }
    }
  }

  /**
    Order independence: once the buffer exists, feeding a rearrangement of the
    same frames fails in exactly the same cases and otherwise ends in the same
    state (same buffer, same counts).
   */
  lemma TrailOrderIndependent(g: Generator, frames: seq<Frame>, shuffled: seq<Frame>, luma: seq<int> -> int)
    requires g.trail.Some? && AllValid(frames) && AllValid(shuffled)
    requires multiset(frames) == multiset(shuffled)
    ensures ProcessAll(g, frames, luma).failure.None? <==> ProcessAll(g, shuffled, luma).failure.None?
    ensures ProcessAll(g, frames, luma).failure.None? ==>
              ProcessAll(g, frames, luma).state == ProcessAll(g, shuffled, luma).state
  {
    var p := AcceptTest(g.limits, g.trail.value.pixelsCutoff, luma);
    var b := g.trail.value.image;
    FilterPermutation(p, frames, shuffled);
    ProcessAllFolds(g, frames, luma);
    ProcessAllFolds(g, shuffled, luma);
    assert |frames| == |shuffled| by {
      assert |multiset(frames)| == |multiset(shuffled)|;
    }
    if AllCompatible(b, Kept(g, frames, luma)) {
      FoldMaxPermutation(b, Kept(g, frames, luma), Kept(g, shuffled, luma));
    }
    if AllCompatible(b, Kept(g, shuffled, luma)) {
      FoldMaxPermutation(b, Kept(g, shuffled, luma), Kept(g, frames, luma));
    }
  }

  /**
    Before the buffer exists the order does matter: the first frame fixes the
    buffer's shape and the cutoff. With a 2x2 and a 2x1 frame, feeding the
    wider one first keeps both and then fails on the shape, while feeding the
    narrower one first sets a cutoff of one pixel that excludes the wider.
   */
  lemma FreshOrderMatters(luma: seq<int> -> int)
    ensures var g := Generator(Limits(200.0, 190.0, 50.0), None, 0, 0);
            var wide := Mono([[255, 255], [0, 0]]);
            var narrow := Mono([[0], [0]]);
            && ProcessAll(g, [wide, narrow], luma).failure == Some(ShapeMismatch)
            && ProcessAll(g, [narrow, wide], luma).failure.None?
  {
    WideFirstFails(luma);
    NarrowFirstExcludesWide(luma);
  }

  /** The 2x2 frame first: its cutoff of two pixels keeps both frames, and the 2x1 one does not fit the 2x2 buffer. */
  lemma WideFirstFails(luma: seq<int> -> int)
    ensures ProcessAll(Generator(Limits(200.0, 190.0, 50.0), None, 0, 0),
                       [Mono([[255, 255], [0, 0]]), Mono([[0], [0]])], luma).failure
              == Some(ShapeMismatch)
  {
    var g := Generator(Limits(200.0, 190.0, 50.0), None, 0, 0);
    var wide := Mono([[255, 255], [0, 0]]);
    var narrow := Mono([[0], [0]]);
    var s1 := ProcessImage(g, wide, luma);
    WideFirstKept(luma);
    NarrowMismatch(s1.state, luma);
    assert [wide, narrow][1..] == [narrow];
    assert ProcessAll(g, [wide, narrow], luma) == ProcessAll(s1.state, [narrow], luma);
  }

  /** The 2x2 frame on a fresh generator sets a cutoff of two pixels and becomes a 2x2 buffer. */
  lemma WideFirstKept(luma: seq<int> -> int)
    ensures var s1 := ProcessImage(Generator(Limits(200.0, 190.0, 50.0), None, 0, 0), Mono([[255, 255], [0, 0]]), luma);
            && s1.failure.None?
            && s1.state.limits == Limits(200.0, 190.0, 50.0)
            && s1.state.trail.value.pixelsCutoff == 2.0
            && s1.state.trail.value.image.Mono?
            && |s1.state.trail.value.image.gray| == 2
            && |s1.state.trail.value.image.gray[0]| == 2
  {
    var g := Generator(Limits(200.0, 190.0, 50.0), None, 0, 0);
    var wide := Mono([[255, 255], [0, 0]]);
    assert SumGrid([[255, 255], [0, 0]]) == 510 && CountAbove([[255, 255], [0, 0]], 190.0) == 2;
    assert Mean([[255, 255], [0, 0]]) <= 200.0;
    assert Establish(g, wide).trail.value.pixelsCutoff == 2.0;
    assert Accepts(g.limits, 2.0, wide, luma);
    KeptFrameFolds(g, wide, luma);
  }

  /** The dark 2x1 frame passes both tests under a two-pixel cutoff, so on a 2x2 buffer it raises the shape error. */
  lemma NarrowMismatch(h: Generator, luma: seq<int> -> int)
    requires h.limits == Limits(200.0, 190.0, 50.0) && h.trail.Some? && h.trail.value.pixelsCutoff == 2.0
    requires h.trail.value.image.Mono? && |h.trail.value.image.gray| == 2 && |h.trail.value.image.gray[0]| == 2
    ensures ProcessAll(h, [Mono([[0], [0]])], luma).failure == Some(ShapeMismatch)
  {
    var narrow := Mono([[0], [0]]);
    assert SumGrid([[0], [0]]) == 0 && CountAbove([[0], [0]], 190.0) == 0;
    assert Mean([[0], [0]]) <= 200.0;
    assert Accepts(h.limits, 2.0, narrow, luma);
    KeptFrameFolds(h, narrow, luma);
    assert !Compatible(h.trail.value.image, narrow);
    assert ProcessImage(h, narrow, luma).failure == Some(ShapeMismatch);
  }

  /** The 2x1 frame first: its cutoff of one pixel excludes the 2x2 frame's two bright pixels. */
  lemma NarrowFirstExcludesWide(luma: seq<int> -> int)
    ensures ProcessAll(Generator(Limits(200.0, 190.0, 50.0), None, 0, 0),
                       [Mono([[0], [0]]), Mono([[255, 255], [0, 0]])], luma).failure.None?
  {
    var g := Generator(Limits(200.0, 190.0, 50.0), None, 0, 0);
    var wide := Mono([[255, 255], [0, 0]]);
    var narrow := Mono([[0], [0]]);
    assert SumGrid([[0], [0]]) == 0 && CountAbove([[0], [0]], 190.0) == 0;
    assert CountAbove([[255, 255], [0, 0]], 190.0) == 2;
    assert Mean([[0], [0]]) <= 200.0;
    assert Establish(g, narrow).trail.value.pixelsCutoff == 1.0;
    assert Accepts(g.limits, 1.0, narrow, luma);
    KeptFrameFolds(g, narrow, luma);
    var t1 := ProcessImage(g, narrow, luma);
    assert t1.failure.None? && t1.state.trail.value.pixelsCutoff == 1.0;
    assert !Accepts(g.limits, 1.0, wide, luma);
    ExcludedFrameKeepsBuffer(t1.state, wide, luma);
    assert [narrow, wide][1..] == [wide];
    assert [wide][1..] == [];
    var t2 := ProcessImage(t1.state, wide, luma);
    assert t2.failure.None?;
    assert ProcessAll(t1.state, [wide], luma) == ProcessAll(t2.state, [], luma);
    assert ProcessAll(g, [narrow, wide], luma) == ProcessAll(t1.state, [wide], luma);
  }

  /**
    The brightness test excludes only a mean strictly above the limit: a frame
    whose mean is exactly the limit is kept or excluded by the pixel-count test
    alone.
   */
  lemma MeanAtLimitKept(limits: Limits, cutoff: real, image: Frame, luma: seq<int> -> int)
    requires Valid(image) && Mean(GrayView(image, luma)) == limits.maxBrightness
    ensures Accepts(limits, cutoff, image, luma) <==>
              CountAbove(GrayView(image, luma), limits.maskThreshold) as real <= cutoff
  {
  }

  /**
    A uniform frame at the brightness limit that is no brighter than the mask
    threshold is kept under any non-negative cutoff.
   */
  lemma UniformFrameAtLimitKept(limits: Limits, cutoff: real, image: Frame, luma: seq<int> -> int, v: int)
    requires Valid(image) && Within(GrayView(image, luma), v, v)
    requires limits.maxBrightness == v as real && v as real <= limits.maskThreshold && cutoff >= 0.0
    ensures Accepts(limits, cutoff, image, luma)
  {
    var gray := GrayView(image, luma);
    CountAboveSpec(gray, Width(image), limits.maskThreshold);
  }

  /** A frame whose gray samples all exceed the brightness limit is always excluded. */
  lemma BrightFrameExcluded(limits: Limits, cutoff: real, image: Frame, luma: seq<int> -> int, lo: int, hi: int)
    requires Valid(image) && Within(GrayView(image, luma), lo, hi) && lo as real > limits.maxBrightness
    ensures !Accepts(limits, cutoff, image, luma)
  {
  }

  /** A fresh generator given fewer than twenty frames can never finalize. */
  lemma FewFramesInsufficient(frames: seq<Frame>, luma: seq<int> -> int, outfile: string, fileType: string,
                              compression: map<string, int>)
    requires AllValid(frames) && |frames| < MinTrailFrames
    ensures Finalize(ProcessAll(NewGenerator(), frames, luma).state, outfile, fileType, compression) == Err(InsufficientData)
  {
  }
}
