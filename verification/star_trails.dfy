/**
  The star-trail generator: a state record advanced one frame at a time. The
  first frame fixes the buffer shape and the pixel cutoff; every frame after
  that is either excluded (too bright on average, or too many bright pixels)
  or folded into the buffer by elementwise maximum. Finalizing needs at least
  twenty folded frames and picks the encoder from the configured file type.
 */
module StarTrails {
  import opened Basics
  import opened Grids
  import opened Frames
  import opened Seqs
  import opened FileOrder

  /** Frames required before a trail image is written. */
  const MinTrailFrames: nat := 20

  /** The tunable exclusion thresholds and their defaults. */
  datatype Limits = Limits(maxBrightness: real, maskThreshold: real, pixelCutoffThreshold: real)

  const DefaultLimits := Limits(50.0, 190.0, 1.0)

  /** The running buffer and the allowed number of bright pixels, both fixed by the first frame. */
  datatype Trail = Trail(image: Frame, pixelsCutoff: real)

  datatype Generator = Generator(limits: Limits, trail: Option<Trail>, trailCount: nat, excludedImages: nat)

  datatype TrailError =
    | InsufficientData
    | ShapeMismatch
    | UnknownFileType(fileType: string)
    | MissingCompression(fileType: string)

  /** The state a call leaves behind together with the exception it raised, if any. */
  datatype Step = Step(state: Generator, failure: Option<TrailError>)

  /**
    The parameter list finalize passes to imwrite for the configured file type:
    a JPEG quality, a PNG compression level, or none for TIFF. The encoder
    itself is chosen from the output path's extension.
   */
  datatype Encoding = Jpeg(quality: int) | Png(compression: int) | Tiff

  /** The one file a successful finalize writes. */
  datatype Written = Written(path: string, encoding: Encoding, image: Frame)

  /** A generator as constructed: default thresholds, no buffer, no frames counted. */
  function NewGenerator(): (g: Generator)
    ensures g.limits.maxBrightness == 50.0 && g.limits.maskThreshold == 190.0 && g.limits.pixelCutoffThreshold == 1.0
    ensures g.trail.None? && g.trailCount == 0 && g.excludedImages == 0
    ensures Consistent(g)
  {
    Generator(DefaultLimits, None, 0, 0)
  }

  /** Every reachable state: no frame is counted before the buffer exists. */
  predicate Consistent(g: Generator) {
    g.trail.None? ==> g.trailCount == 0
  }

  /** The buffer set up by the first frame, with the cutoff taken from its size. */
  function FirstTrail(limits: Limits, image: Frame): (t: Trail)
    requires Valid(image)
    ensures IsBlack(t.image)
    ensures Height(t.image) == Height(image) && Width(t.image) == Width(image)
    ensures image.Mono? ==> t.image.Mono? && IsRect(t.image.gray, Height(image), Width(image))
    ensures image.Color? ==> t.image.Color? && IsCube(t.image.pixels, Height(image), Width(image), 3)
    ensures t.pixelsCutoff == (Height(image) * Width(image)) as real * (limits.pixelCutoffThreshold / 100.0)
  {
    Trail(Blank(image), (Height(image) * Width(image)) as real * (limits.pixelCutoffThreshold / 100.0))
  }

  /** The state once the buffer exists: unchanged if it already did. */
  function Establish(g: Generator, image: Frame): (e: Generator)
    requires Valid(image)
    ensures e.trail.Some? && e.limits == g.limits
    ensures e.trailCount == g.trailCount && e.excludedImages == g.excludedImages
    ensures g.trail.Some? ==> e == g
    ensures g.trail.None? ==> e.trail == Some(FirstTrail(g.limits, image))
  {
    if g.trail.None? then g.(trail := Some(FirstTrail(g.limits, image))) else g
  }

  /** The exclusion tests of one frame against fixed thresholds and cutoff. */
  predicate Accepts(limits: Limits, cutoff: real, image: Frame, luma: seq<int> -> int)
    requires Valid(image)
  {
    var gray := GrayView(image, luma);
    && Mean(gray) <= limits.maxBrightness
    && CountAbove(gray, limits.maskThreshold) as real <= cutoff
  }

  /**
    Both tests exclude on a strict excess, so loosening a threshold never
    excludes a frame that was kept: a larger brightness limit, mask threshold
    or cutoff accepts at least the frames the smaller one accepted.
   */
  lemma AcceptsMonotone(limits: Limits, looser: Limits, cutoff: real, looserCutoff: real, image: Frame,
                        luma: seq<int> -> int)
    requires Valid(image)
    requires limits.maxBrightness <= looser.maxBrightness && limits.maskThreshold <= looser.maskThreshold
    requires cutoff <= looserCutoff
    ensures Accepts(limits, cutoff, image, luma) ==> Accepts(looser, looserCutoff, image, luma)
  {
    CountAboveAntitone(GrayView(image, luma), limits.maskThreshold, looser.maskThreshold);
  }

  /** `Accepts` as a test on any frame, for filtering a list of frames. */
  function AcceptTest(limits: Limits, cutoff: real, luma: seq<int> -> int): Frame -> bool {
    f => Valid(f) && Accepts(limits, cutoff, f, luma)
  }

  /** processImage: one frame through the exclusion tests and, if kept, into the buffer. */
  function ProcessImage(g: Generator, image: Frame, luma: seq<int> -> int): (r: Step)
    requires Valid(image)
    ensures r.state.limits == g.limits && r.state.trail.Some?
    ensures Consistent(r.state)
    // the first call sets up the buffer and the cutoff, accepted or not; later calls keep the cutoff
    ensures g.trail.None? ==> r.state.trail.value.pixelsCutoff == (Height(image) * Width(image)) as real * (g.limits.pixelCutoffThreshold / 100.0)
    ensures g.trail.Some? ==> r.state.trail.value.pixelsCutoff == g.trail.value.pixelsCutoff
    // exactly one of the two counters moves, the trail count exactly when the frame passes both tests
    ensures || (r.state.trailCount == g.trailCount + 1 && r.state.excludedImages == g.excludedImages)
            || (r.state.trailCount == g.trailCount && r.state.excludedImages == g.excludedImages + 1)
    ensures r.state.trailCount == g.trailCount + 1 <==> Accepts(g.limits, r.state.trail.value.pixelsCutoff, image, luma)
    ensures r.failure.Some? ==> r.failure == Some(ShapeMismatch)
  {
    var e := Establish(g, image);
    var t := e.trail.value;
    if !Accepts(g.limits, t.pixelsCutoff, image, luma) then
      // too bright on average, or too many pixels above the mask threshold
      Step(e.(excludedImages := e.excludedImages + 1), None)
    else
      var counted := e.(trailCount := e.trailCount + 1);
      if Compatible(t.image, image) then
        Step(counted.(trail := Some(t.(image := MaxFrame(t.image, image)))), None)
      else
        // cv2.max raises after trail_count was already incremented
        Step(counted, Some(ShapeMismatch))
  }

  /** The buffer processImage compares the frame with: the existing one, or the first frame's black one. */
  function BufferBefore(g: Generator, image: Frame): Frame
    requires Valid(image)
  {
    Establish(g, image).trail.value.image
  }

  /** A frame that fails either test is counted as excluded and leaves the buffer untouched. */
  lemma ExcludedFrameKeepsBuffer(g: Generator, image: Frame, luma: seq<int> -> int)
    requires Valid(image) && !Accepts(g.limits, Establish(g, image).trail.value.pixelsCutoff, image, luma)
    ensures var r := ProcessImage(g, image, luma);
            && r.failure.None?
            && r.state.trail == Establish(g, image).trail
            && r.state.excludedImages == g.excludedImages + 1
            && r.state.trailCount == g.trailCount
  {
  }

  /**
    A frame that passes both tests is counted and folded into the buffer by
    elementwise maximum; if its shape differs from the buffer's, cv2.max raises
    and the buffer stays as it was.
   */
  lemma KeptFrameFolds(g: Generator, image: Frame, luma: seq<int> -> int)
    requires Valid(image) && Accepts(g.limits, Establish(g, image).trail.value.pixelsCutoff, image, luma)
    ensures var r := ProcessImage(g, image, luma);
            && r.state.trailCount == g.trailCount + 1
            && (r.failure.None? <==> Compatible(BufferBefore(g, image), image))
            && (r.failure.None? ==> r.state.trail.value.image == MaxFrame(BufferBefore(g, image), image))
            && (r.failure.Some? ==> r.state.trail == Establish(g, image).trail)
  {
  }

  /** processImage never lowers a sample of the buffer and never changes its shape. */
  lemma BufferNeverDecreases(g: Generator, image: Frame, luma: seq<int> -> int)
    requires Valid(image)
    ensures var r := ProcessImage(g, image, luma);
            && Compatible(r.state.trail.value.image, BufferBefore(g, image))
            && Dominates(r.state.trail.value.image, BufferBefore(g, image))
  {
    var b := BufferBefore(g, image);
    DominatesRefl(b);
  }

  predicate AllValid(frames: seq<Frame>) {
    forall k :: 0 <= k < |frames| ==> Valid(frames[k])
  }

  /** Feeds `frames` to processImage in order, stopping at the first exception. */
  function ProcessAll(g: Generator, frames: seq<Frame>, luma: seq<int> -> int): (r: Step)
    requires AllValid(frames)
    ensures r.state.limits == g.limits
    ensures Consistent(g) ==> Consistent(r.state)
    ensures |frames| > 0 || g.trail.Some? ==> r.state.trail.Some?
    ensures g.trail.Some? ==> r.state.trail.value.pixelsCutoff == g.trail.value.pixelsCutoff
    ensures r.state.trailCount + r.state.excludedImages <= g.trailCount + g.excludedImages + |frames|
    ensures r.failure.None? ==> r.state.trailCount + r.state.excludedImages == g.trailCount + g.excludedImages + |frames|
    ensures r.failure.Some? ==> r.failure == Some(ShapeMismatch)
    decreases |frames|
  {
    if |frames| == 0 then Step(g, None)
    else
      var s := ProcessImage(g, frames[0], luma);
      if s.failure.Some? then s else ProcessAll(s.state, frames[1..], luma)
  }

  /** The file types finalize can write with the given compression settings. */
  predicate Writable(fileType: string, compression: map<string, int>) {
    || fileType in {"tif", "tiff"}
    || (fileType in {"jpg", "jpeg", "png"} && fileType in compression)
  }

  /** finalize: refuses short trails, otherwise encodes the buffer in the configured format. */
  function Finalize(g: Generator, outfile: string, fileType: string, compression: map<string, int>): (r: Result<Written, TrailError>)
    requires Consistent(g)
    ensures r == Err(InsufficientData) <==> g.trailCount < MinTrailFrames
    ensures r.Ok? ==> g.trail.Some? && r.value.path == outfile && r.value.image == g.trail.value.image
    ensures r.Ok? ==> match r.value.encoding
                      case Jpeg(q) => fileType in {"jpg", "jpeg"} && fileType in compression && q == compression[fileType]
                      case Png(c) => fileType == "png" && fileType in compression && c == compression[fileType]
                      case Tiff => fileType in {"tif", "tiff"}
    ensures g.trailCount >= MinTrailFrames && fileType !in {"jpg", "jpeg", "png", "tif", "tiff"} ==> r == Err(UnknownFileType(fileType))
    ensures g.trailCount >= MinTrailFrames && fileType in {"jpg", "jpeg", "png"} && fileType !in compression ==> r == Err(MissingCompression(fileType))
    // and the written side: every supported, configured type is written once the trail is long enough
    ensures r.Ok? <==> g.trailCount >= MinTrailFrames && Writable(fileType, compression)
    ensures g.trailCount >= MinTrailFrames && fileType in {"jpg", "jpeg"} && fileType in compression ==>
              r == Ok(Written(outfile, Jpeg(compression[fileType]), g.trail.value.image))
    ensures g.trailCount >= MinTrailFrames && fileType == "png" && fileType in compression ==>
              r == Ok(Written(outfile, Png(compression[fileType]), g.trail.value.image))
    ensures g.trailCount >= MinTrailFrames && fileType in {"tif", "tiff"} ==>
              r == Ok(Written(outfile, Tiff, g.trail.value.image))
  {
    if g.trailCount < MinTrailFrames then Err(InsufficientData)
    else if fileType in {"jpg", "jpeg"} then
      if fileType in compression then Ok(Written(outfile, Jpeg(compression[fileType]), g.trail.value.image))
      else Err(MissingCompression(fileType))
    else if fileType == "png" then
      if fileType in compression then Ok(Written(outfile, Png(compression[fileType]), g.trail.value.image))
      else Err(MissingCompression(fileType))
    else if fileType in {"tif", "tiff"} then Ok(Written(outfile, Tiff, g.trail.value.image))
    else Err(UnknownFileType(fileType))
  }

  /** The outcome of a whole job: the final state, the file written and the escaping exception. */
  datatype Job = Job(state: Generator, written: Option<Written>, failure: Option<TrailError>)

  /** Every decodable candidate file yields a well-formed frame. */
  predicate DecodesValid(files: seq<FileEntry>) {
    forall k :: 0 <= k < |files| && files[k].decoded.Some? ==> Valid(files[k].decoded.value)
  }

  /** The frames a job feeds to the generator, in feeding order. */
  function JobFrames(files: seq<FileEntry>): (frames: seq<Frame>)
    requires DecodesValid(files)
    ensures AllValid(frames)
    ensures |frames| == |Filter(IsUsable, files)|
    ensures |frames| == |ReadOrder(files)|
    ensures forall k :: 0 <= k < |frames| ==> ReadOrder(files)[k].decoded == Some(frames[k])
  {
    var order := ReadOrder(files);
    forall k | 0 <= k < |order| ensures order[k].decoded.Some? && Valid(order[k].decoded.value) {
      assert order[k] in files;
    }
    assert |multiset(order)| == |multiset(Filter(IsUsable, files))|;
    FramesOf(order)
  }

  /**
    generate: reads the non-empty files oldest first, skips the ones that do not
    decode, processes the rest and finalizes. A short trail is reported, not
    raised; every other exception escapes.
   */
  function Generate(g: Generator, outfile: string, files: seq<FileEntry>, fileType: string,
                    compression: map<string, int>, luma: seq<int> -> int): (r: Job)
    requires Consistent(g) && DecodesValid(files)
    ensures r.failure != Some(InsufficientData)
    ensures r.failure.Some? ==> r.failure.value in {ShapeMismatch, UnknownFileType(fileType), MissingCompression(fileType)}
    // a shape error in the frame loop escapes as it is, and then nothing is written
    ensures r.failure == Some(ShapeMismatch) <==> ProcessAll(g, JobFrames(files), luma).failure.Some?
    ensures r.written.Some? ==> r.failure.None? && r.state.trailCount >= MinTrailFrames
    ensures r.failure.None? && r.written.None? ==> r.state.trailCount < MinTrailFrames
    // a file is written exactly when the loop finishes with twenty frames and the type can be written
    ensures r.written.Some? <==>
              && ProcessAll(g, JobFrames(files), luma).failure.None?
              && r.state.trailCount >= MinTrailFrames && Writable(fileType, compression)
    ensures r.written.Some? ==> r.state.trail.Some? && r.written.value.path == outfile && r.written.value.image == r.state.trail.value.image
    ensures r.failure.None? ==>
              r.state.trailCount + r.state.excludedImages == g.trailCount + g.excludedImages + |Filter(IsUsable, files)|
    ensures r.state == ProcessAll(g, JobFrames(files), luma).state
    // what is written, and every error other than a shape error, is finalize's
    ensures Consistent(r.state)
    ensures r.written.Some? ==> Finalize(r.state, outfile, fileType, compression) == Ok(r.written.value)
    ensures r.failure.Some? && r.failure != Some(ShapeMismatch) ==>
              Finalize(r.state, outfile, fileType, compression) == Err(r.failure.value)
  {
    var s := ProcessAll(g, JobFrames(files), luma);
    if s.failure.Some? then Job(s.state, None, s.failure)
    else
      match Finalize(s.state, outfile, fileType, compression)
      case Ok(w) => Job(s.state, Some(w), None)
      case Err(e) => if e == InsufficientData then Job(s.state, None, None) else Job(s.state, None, Some(e))
  }
}
