/**
 Clip-by-clip generation: the schedule of overlapping windows, the chaining of clips through
 spliced frames, and the stitching of the generated clips into one video.
 `infer` and `_infer_staged` contain the same loop; it is modelled once, for any generator.
 Source: runner/idv2v/model.py.
 */
module ClipSchedule {
  import opened Basics
  import opened Options

  /** Frames [start, end) of the video. */
  datatype Window = Window(start: int, end: int)

  /** The schedule of `total` frames in clips of `n`: one window when the video fits a clip, else
      windows of exactly `n` frames from 0 to `total`, each overlapping the next by one frame but
      the last, which is anchored at the end and overlaps by 1 to n - 1 frames. */
  predicate IsSchedule(c: seq<Window>, total: int, n: int) {
    if total <= n then c == [Window(0, total)]
    else
      && |c| >= 2 && c[0].start == 0 && c[|c| - 1].end == total
      && (forall i | 0 <= i < |c| :: c[i].end == c[i].start + n)
      && (forall i | 0 <= i < |c| - 2 :: c[i + 1].start == c[i].start + n - 1)
      && 1 <= c[|c| - 2].end - c[|c| - 1].start <= n - 1
  }

  /** The sizes for which the schedule loop ends. */
  predicate Schedulable(total: int, n: int) {
    n >= 2 || total <= n
  }

  method ComputeClipSchedule(total: nat, n: int) returns (clips: seq<Window>)
    requires Schedulable(total, n)
    ensures IsSchedule(clips, total, n)
  {
    if total <= n {
      return [Window(0, total)];
    }
    clips := [];
    var start := 0;
    var stride := n - 1;
    while start + n < total
      invariant start < total - 1
      invariant clips == [] ==> start == 0
      invariant clips != [] ==> clips[0].start == 0 && clips[|clips| - 1].start + stride == start
      invariant forall i | 0 <= i < |clips| :: clips[i].end == clips[i].start + n && clips[i].end < total
      invariant forall i | 0 <= i < |clips| - 1 :: clips[i + 1].start == clips[i].start + stride
      decreases total - start
    {
      clips := clips + [Window(start, start + n)];
      start := start + stride;
    }
    clips := clips + [Window(total - n, total)];
  }

  /** Where the loop stands after `k` turns. */
  function StartAfter(k: nat, n: int): int {
    k * (n - 1)
  }

  /** The loop ends exactly when clips are at least two frames long or there is nothing to split:
      with shorter clips it would append windows forever. */
  lemma ScheduleTerminatesIff(total: nat, n: int)
    ensures total > n ==> ((exists k: nat :: !(StartAfter(k, n) + n < total)) <==> n >= 2)
  {
    if n >= 2 {
      assert StartAfter(total, n) >= total by {
        assert total * (n - 1) >= total * 1;
      }
      assert !(StartAfter(total, n) + n < total);
    } else {
      forall k: nat ensures StartAfter(k, n) <= 0 {
        assert k * (n - 1) <= 0;
      }
    }
  }

  /** The description leaves no freedom: `total` and `n` have one schedule. */
  lemma ScheduleIsUnique(c: seq<Window>, d: seq<Window>, total: int, n: int)
    requires Schedulable(total, n) && IsSchedule(c, total, n) && IsSchedule(d, total, n)
    ensures c == d
  {
    if total > n {
      if |c| < |d| {
        NoShorterSchedule(c, d, total, n);
      } else if |d| < |c| {
        NoShorterSchedule(d, c, total, n);
      } else {
        forall i | 0 <= i < |c| ensures c[i] == d[i] {
          if i < |c| - 1 {
            SamePrefix(c, d, n, i);
          }
        }
      }
    }
  }

  lemma NoShorterSchedule(c: seq<Window>, d: seq<Window>, total: int, n: int)
    requires n >= 2 && total > n && IsSchedule(c, total, n) && IsSchedule(d, total, n)
    ensures |c| >= |d|
  {
    if |c| < |d| {
      SamePrefix(c, d, n, |c| - 2);
      StartsIncrease(d, total, n, |c| - 1, |d| - 1);
    }
  }

  lemma {:induction false} SamePrefix(c: seq<Window>, d: seq<Window>, n: int, i: nat)
    requires i <= |c| - 2 && i <= |d| - 2 && |c| >= 2 && |d| >= 2
    requires c[0].start == 0 && d[0].start == 0
    requires forall i | 0 <= i < |c| - 2 :: c[i + 1].start == c[i].start + n - 1
    requires forall i | 0 <= i < |d| - 2 :: d[i + 1].start == d[i].start + n - 1
    ensures c[i].start == d[i].start
  {
    if i > 0 {
      SamePrefix(c, d, n, i - 1);
    }
  }

  /** Starts strictly increase, so no window is generated twice. */
  lemma {:induction false} StartsIncrease(c: seq<Window>, total: int, n: int, i: nat, j: nat)
    requires Schedulable(total, n) && IsSchedule(c, total, n) && i < j < |c|
    ensures c[i].start < c[j].start
    decreases j
  {
    if i < j - 1 {
      StartsIncrease(c, total, n, i, j - 1);
    }
  }

  /** The last of the first `i + 1` windows starting at or before frame `p`. */
  function LastStart(c: seq<Window>, i: nat, p: int): (j: nat)
    requires i < |c| && c[0].start <= p
    ensures j <= i && c[j].start <= p
    ensures forall k | j < k <= i :: p < c[k].start
  {
    if c[i].start <= p then i else LastStart(c, i - 1, p)
  }

  /** The last window starting at or before frame `p`. */
  function LastWindow(c: seq<Window>, p: int): (j: nat)
    requires c != [] && c[0].start <= p
    ensures j < |c| && c[j].start <= p && forall k | j < k < |c| :: p < c[k].start
  {
    LastStart(c, |c| - 1, p)
  }

  /** The windows jointly cover the video. */
  lemma EveryFrameIsCovered(c: seq<Window>, total: int, n: int, p: nat)
    requires Schedulable(total, n) && IsSchedule(c, total, n) && p < total
    ensures var j := LastWindow(c, p); c[j].start <= p < c[j].end
  {
    if total > n {
      var j := LastWindow(c, p);
      if j < |c| - 1 {
        assert p < c[j + 1].start;
      }
    }
  }

  /** A clip splices in a frame strictly inside its predecessor: the one that is its own first. */
  lemma SpliceIsInside(c: seq<Window>, total: int, n: int, j: nat)
    requires Schedulable(total, n) && IsSchedule(c, total, n) && 0 < j < |c|
    ensures 1 <= c[j].start - c[j - 1].start <= n - 1
    ensures c[j - 1].start + (c[j].start - c[j - 1].start) == c[j].start < c[j - 1].end
  {
  }

  // ----- slices ----------------------------------------------------------------------

  /** frames[start:end], the last frame being repeated past the end. */
  function SliceFrames<F>(all: seq<F>, start: nat, end: nat): (r: seq<F>)
    requires start <= end && (end > |all| ==> all != [])
    ensures |r| == end - (if start <= |all| then start else |all|)
    ensures forall i | 0 <= i < |r| :: r[i] == all[if start + i < |all| then start + i else |all| - 1]
  {
    if end <= |all| then all[start..end]
    else all[if start <= |all| then start else |all|..] + seq(end - |all|, _ => all[|all| - 1])
  }

  // ----- generation ------------------------------------------------------------------

  /** What one clip is generated from; `video` and `mask` hold one frame list per condition. */
  datatype ClipJob<F> = ClipJob(inputImage: F, reference: F, video: seq<seq<F>>, mask: seq<seq<F>>)

  function Mask<F>(total: nat, keyed: set<nat>, white: F, black: F): seq<F> {
    seq(total, i => if i in keyed then black else white)
  }

  predicate NoneEmpty<F>(videos: seq<seq<F>>) {
    forall k | 0 <= k < |videos| :: |videos[k]| > 0
  }

  function JobOf<F>(image: F, reference: F, conditions: seq<seq<F>>, mask: seq<F>, start: nat, n: nat): ClipJob<F>
    requires mask != [] && start <= |mask|
    requires NoneEmpty(conditions)
  {
    ClipJob(image, reference,
            seq(|conditions|, k requires 0 <= k < |conditions| => SliceFrames(conditions[k], start, start + n)),
            seq(|conditions|, _ => SliceFrames(mask, start, start + n)))
  }

  /** The clip chain: each clip's input image is the frame its predecessor generated for the same
      place in the video, while the reference stays the original input. */
  function Clip<F(!new)>(gen: ClipJob<F> -> seq<F>, input: F, conditions: seq<seq<F>>, mask: seq<F>,
                   c: seq<Window>, n: nat, j: nat): (r: seq<F>)
    requires Schedulable(|mask|, n) && IsSchedule(c, |mask|, n) && j < |c|
    requires mask != [] && NoneEmpty(conditions)
    requires forall job :: |gen(job)| == n
    ensures |r| == n
  {
    StartsInVideo(c, |mask|, n, j);
    if j == 0 then gen(JobOf(input, input, conditions, mask, 0, n))
    else
      SpliceIsInside(c, |mask|, n, j);
      gen(JobOf(Clip(gen, input, conditions, mask, c, n, j - 1)[c[j].start - c[j - 1].start],
                input, conditions, mask, c[j].start, n))
  }

  lemma StartsInVideo(c: seq<Window>, total: int, n: int, j: nat)
    requires Schedulable(total, n) && total >= 1 && IsSchedule(c, total, n) && j < |c|
    ensures 0 <= c[j].start < total
  {
    if j > 0 {
      StartsIncrease(c, total, n, 0, j);
      if j < |c| - 1 {
        StartsIncrease(c, total, n, j, |c| - 1);
      }
    }
  }

  /** Condition and mask frames stay aligned in every clip, repeated tail included: position `i`
      shows one frame of the video, and its mask is black exactly if that frame is a keyframe. */
  lemma MaskFollowsConditions<F>(image: F, conditions: seq<seq<F>>, keyed: set<nat>, white: F, black: F,
                                 total: nat, start: nat, n: nat, k: nat, i: nat)
    requires white != black && start < total && (forall x <- conditions :: |x| == total)
    requires k < |conditions| && i < n
    ensures var job := JobOf(image, image, conditions, Mask(total, keyed, white, black), start, n);
            var p := if start + i < total then start + i else total - 1;
            && |job.video[k]| == |job.mask[k]| == n
            && job.video[k][i] == conditions[k][p]
            && (job.mask[k][i] == black <==> p in keyed)
  {
    var job := JobOf(image, image, conditions, Mask(total, keyed, white, black), start, n);
    assert |conditions[k]| == total;
    assert job.video[k] == SliceFrames(conditions[k], start, start + n);
    assert job.mask[k] == SliceFrames(Mask(total, keyed, white, black), start, start + n);
  }

  /** Frame `p` is the frame for its place in the last of clips 0 to `i` that starts by then. */
  predicate FromLastClip<F(==)>(combined: seq<F>, clips: seq<seq<F>>, c: seq<Window>, i: nat, p: nat)
    requires i < |c| == |clips| && c[0].start <= p < |combined|
  {
    var j := LastStart(c, i, p);
    p - c[j].start < |clips[j]| && combined[p] == clips[j][p - c[j].start]
  }

  predicate AllFromLastClip<F(==)>(combined: seq<F>, clips: seq<seq<F>>, c: seq<Window>, i: nat)
    requires i < |c| == |clips| && c[0].start == 0
  {
    forall p: nat | p < |combined| :: FromLastClip(combined, clips, c, i, p)
  }

  lemma StitchOne<F>(before: seq<F>, clips: seq<seq<F>>, c: seq<Window>, i: nat)
    requires 0 < i < |c| == |clips| && c[0].start == 0 <= c[i].start <= |before|
    requires |clips[i]| == c[i].end - c[i].start
    requires AllFromLastClip(before, clips, c, i - 1)
    ensures var after := before[..c[i].start] + clips[i];
            |after| == c[i].end && AllFromLastClip(after, clips, c, i)
  {
    var after := before[..c[i].start] + clips[i];
    forall p: nat | p < |after| ensures FromLastClip(after, clips, c, i, p) {
      if p < c[i].start {
        assert FromLastClip(before, clips, c, i - 1, p);
      }
    }
  }

  /** Drops the overlap of each clip with the next and joins the rest. */
  method Stitch<F>(clips: seq<seq<F>>, c: seq<Window>, total: nat, n: nat) returns (combined: seq<F>)
    requires Schedulable(total, n) && total >= 1 && IsSchedule(c, total, n)
    requires |clips| == |c| && forall i | 0 <= i < |clips| :: |clips[i]| == n
    ensures |combined| == total
    ensures AllFromLastClip(combined, clips, c, |c| - 1)
  {
    combined := clips[0];
    if |c| == 1 {
      if total < n {
        combined := combined[..total];
      }
      return;
    }
    for i := 1 to |c|
      invariant |combined| == c[i - 1].end
      invariant AllFromLastClip(combined, clips, c, i - 1)
    {
      var overlap := c[i - 1].end - c[i].start;
      SpliceIsInside(c, total, n, i);
      StartsInVideo(c, total, n, i);
      StitchOne(combined, clips, c, i);
      combined := combined[..|combined| - overlap] + clips[i];
    }
  }

  /** The frame an index names: a negative one counts from the end. */
  function Place(index: int, length: nat): int {
    if index < 0 then index + length else index
  }

  predicate Fits(index: int, length: nat) {
    0 <= index + length && index < length
  }

  /** Every keyframe index names a frame of every condition video. */
  predicate AllFit<F>(videos: seq<seq<F>>, keyframes: seq<(int, F)>) {
    forall q, k | 0 <= q < |keyframes| && 0 <= k < |videos| :: Fits(keyframes[q].0, |videos[k]|)
  }

  predicate SameLengths<F>(a: seq<seq<F>>, b: seq<seq<F>>) {
    |a| == |b| && forall k | 0 <= k < |a| :: |a[k]| == |b[k]|
  }

  /** Each keyframe image replaces its frame in every condition video; an index that names no frame of
      one of them makes the whole call fail. */
  method PlaceKeyframes<F>(videos: seq<seq<F>>, keyframes: seq<(int, F)>, resize: F -> F)
      returns (ok: bool, r: seq<seq<F>>)
    ensures ok <==> AllFit(videos, keyframes)
    ensures ok ==> SameLengths(r, videos)
    ensures ok ==> forall k, i: nat | 0 <= k < |r| && i < |r[k]| :: r[k][i] == Keyed(videos[k], keyframes, resize, i)
  {
    r := videos;
    for q := 0 to |keyframes|
      invariant SameLengths(r, videos) && AllFit(videos, keyframes[..q])
      invariant forall k, i: nat | 0 <= k < |r| && i < |r[k]| :: r[k][i] == Keyed(videos[k], keyframes[..q], resize, i)
    {
      var placed;
      ghost var before := r;
      placed, r := PlaceKeyframe(r, keyframes[q].0, resize(keyframes[q].1));
      assert keyframes[..q + 1][..q] == keyframes[..q];
      if !placed {
        ghost var k :| 0 <= k < |videos| && !Fits(keyframes[q].0, |before[k]|);
        assert !Fits(keyframes[q].0, |videos[k]|);
        return false, r;
      }
    }
    assert keyframes[..|keyframes|] == keyframes;
    return true, r;
  }

  method PlaceKeyframe<F>(videos: seq<seq<F>>, index: int, image: F) returns (ok: bool, r: seq<seq<F>>)
    ensures ok <==> forall k | 0 <= k < |videos| :: Fits(index, |videos[k]|)
    ensures ok ==> |r| == |videos| && forall k | 0 <= k < |r| :: r[k] == videos[k][Place(index, |videos[k]|) := image]
  {
    r := videos;
    for k := 0 to |videos|
      invariant |r| == |videos| && forall h | 0 <= h < k :: Fits(index, |videos[h]|)
      invariant forall h | 0 <= h < |r| :: r[h] == if h < k then videos[h][Place(index, |videos[h]|) := image] else videos[h]
    {
      if !Fits(index, |videos[k]|) {
        return false, r;
      }
      r := r[k := r[k][Place(index, |r[k]|) := image]];
    }
    return true, r;
  }

  /** Frame `i` of a condition video once keyframes are placed: the last keyframe given for it wins. */
  function Keyed<F>(video: seq<F>, keyframes: seq<(int, F)>, resize: F -> F, i: nat): F
    requires i < |video|
  {
    if keyframes == [] then video[i]
    else if Place(keyframes[|keyframes| - 1].0, |video|) == i then resize(keyframes[|keyframes| - 1].1)
    else Keyed(video, keyframes[..|keyframes| - 1], resize, i)
  }

  /** The frame a clip starts from: the input, or what its predecessor made of the same place. */
  function StartImage<F>(clips: seq<seq<F>>, input: F, c: seq<Window>, total: nat, n: nat, j: nat): F
    requires Schedulable(total, n) && total >= 1 && IsSchedule(c, total, n) && j < |c| && j <= |clips|
    requires j > 0 ==> |clips[j - 1]| == n
  {
    if j == 0 then input
    else
      SpliceIsInside(c, total, n, j);
      clips[j - 1][c[j].start - c[j - 1].start]
  }

  /** The clips so far are the first of the chain. */
  ghost predicate IsChain<F(!new)>(gen: ClipJob<F> -> seq<F>, input: F, conditions: seq<seq<F>>, mask: seq<F>,
                                   c: seq<Window>, n: nat, clips: seq<seq<F>>)
    requires Schedulable(|mask|, n) && IsSchedule(c, |mask|, n)
    requires mask != [] && NoneEmpty(conditions)
    requires forall job :: |gen(job)| == n
  {
    |clips| <= |c| && forall j: nat | j < |clips| :: clips[j] == Clip(gen, input, conditions, mask, c, n, j)
  }

  lemma ChainExtends<F(!new)>(gen: ClipJob<F> -> seq<F>, input: F, conditions: seq<seq<F>>, mask: seq<F>,
                              c: seq<Window>, n: nat, clips: seq<seq<F>>)
    requires Schedulable(|mask|, n) && IsSchedule(c, |mask|, n)
    requires mask != [] && NoneEmpty(conditions)
    requires forall job :: |gen(job)| == n
    requires IsChain(gen, input, conditions, mask, c, n, clips) && |clips| < |c|
    ensures 0 <= c[|clips|].start < |mask|
    ensures var j := |clips|;
            var clip := gen(JobOf(StartImage(clips, input, c, |mask|, n, j), input, conditions, mask, c[j].start, n));
            IsChain(gen, input, conditions, mask, c, n, clips + [clip])
  {
    var j := |clips|;
    StartsInVideo(c, |mask|, n, j);
    var clip := gen(JobOf(StartImage(clips, input, c, |mask|, n, j), input, conditions, mask, c[j].start, n));
    assert clip == Clip(gen, input, conditions, mask, c, n, j);
  }

  /** The slice holds the frames from `start` on, `n` of them while they last, the last frame being repeated. */
  ghost predicate HoldsFrom<F>(slice: seq<F>, all: seq<F>, start: nat, n: nat) {
    && |all| > 0
    && |slice| == start + n - (if start <= |all| then start else |all|)
    && forall i | 0 <= i < |slice| :: slice[i] == all[if start + i < |all| then start + i else |all| - 1]
  }

  ghost predicate AllHoldFrom<F>(slices: seq<seq<F>>, conditions: seq<seq<F>>, start: nat, n: nat) {
    |slices| == |conditions| && forall k | 0 <= k < |slices| :: HoldsFrom(slices[k], conditions[k], start, n)
  }

  /** What clip `j` is generated from: always the original input as reference; as first image the input, and
      from the second clip on the frame the clip before made for the same place in the video; conditions
      and mask from the clip's own start on. */
  ghost predicate IsFed<F>(job: ClipJob<F>, clips: seq<seq<F>>, input: F, conditions: seq<seq<F>>, mask: seq<F>,
                           c: seq<Window>, n: nat, j: nat)
  {
    && j < |c| == |clips| && 0 <= c[j].start
    && job.reference == input
    && (j == 0 ==> job.inputImage == input)
    && (j > 0 ==>
          && 0 <= c[j].start - c[j - 1].start < |clips[j - 1]|
          && job.inputImage == clips[j - 1][c[j].start - c[j - 1].start])
    && AllHoldFrom(job.video, conditions, c[j].start, n)
    && |job.mask| == |conditions| && forall m <- job.mask :: HoldsFrom(m, mask, c[j].start, n)
  }

  /** Clip `j` is the generator's answer to what it is fed. */
  ghost predicate IsMade<F(!new)>(gen: ClipJob<F> -> seq<F>, clips: seq<seq<F>>, input: F, conditions: seq<seq<F>>,
                                  mask: seq<F>, c: seq<Window>, n: nat, j: nat)
  {
    j < |clips| && |clips[j]| == n
    && exists job :: IsFed(job, clips, input, conditions, mask, c, n, j) && clips[j] == gen(job)
  }

  ghost predicate AllMade<F(!new)>(gen: ClipJob<F> -> seq<F>, clips: seq<seq<F>>, input: F, conditions: seq<seq<F>>,
                                   mask: seq<F>, c: seq<Window>, n: nat)
  {
    |clips| == |c| && forall j: nat | j < |clips| :: IsMade(gen, clips, input, conditions, mask, c, n, j)
  }

  lemma JobHolds<F>(image: F, input: F, conditions: seq<seq<F>>, mask: seq<F>, start: nat, n: nat)
    requires mask != [] && start <= |mask| && NoneEmpty(conditions)
    ensures var job := JobOf(image, input, conditions, mask, start, n);
            && job.reference == input && job.inputImage == image
            && AllHoldFrom(job.video, conditions, start, n)
            && |job.mask| == |conditions| && forall m <- job.mask :: HoldsFrom(m, mask, start, n)
  {
    var job := JobOf(image, input, conditions, mask, start, n);
    forall k | 0 <= k < |conditions| ensures HoldsFrom(job.video[k], conditions[k], start, n) {
      assert job.video[k] == SliceFrames(conditions[k], start, start + n);
    }
    assert HoldsFrom(SliceFrames(mask, start, start + n), mask, start, n);
  }

  lemma ChainIsMade<F(!new)>(gen: ClipJob<F> -> seq<F>, clips: seq<seq<F>>, input: F, conditions: seq<seq<F>>,
                             mask: seq<F>, c: seq<Window>, n: nat, j: nat)
    requires Schedulable(|mask|, n) && IsSchedule(c, |mask|, n)
    requires mask != [] && NoneEmpty(conditions)
    requires forall job :: |gen(job)| == n
    requires |clips| == |c| && j < |c| && IsChain(gen, input, conditions, mask, c, n, clips)
    ensures IsMade(gen, clips, input, conditions, mask, c, n, j)
  {
    StartsInVideo(c, |mask|, n, j);
    var image := input;
    if j > 0 {
      SpliceIsInside(c, |mask|, n, j);
      assert clips[j - 1] == Clip(gen, input, conditions, mask, c, n, j - 1);
      image := clips[j - 1][c[j].start - c[j - 1].start];
    }
    var job := JobOf(image, input, conditions, mask, c[j].start, n);
    assert clips[j] == Clip(gen, input, conditions, mask, c, n, j) == gen(job);
    JobHolds(image, input, conditions, mask, c[j].start, n);
    assert IsFed(job, clips, input, conditions, mask, c, n, j);
  }

  /** Of several keyframes for one place the last given is shown. */
  lemma {:induction false} LastKeyframeWins<F>(video: seq<F>, keyframes: seq<(int, F)>, resize: F -> F, i: nat, q: nat)
    requires i < |video| && q < |keyframes|
    requires keyframes[q].0 == i || keyframes[q].0 == i - |video|
    requires forall h | q < h < |keyframes| :: keyframes[h].0 != i && keyframes[h].0 != i - |video|
    ensures Keyed(video, keyframes, resize, i) == resize(keyframes[q].1)
  {
    if q < |keyframes| - 1 {
      LastKeyframeWins(video, keyframes[..|keyframes| - 1], resize, i, q);
    }
  }

  /** A place without a keyframe keeps its frame. */
  lemma {:induction false} OtherFramesStay<F>(video: seq<F>, keyframes: seq<(int, F)>, resize: F -> F, i: nat)
    requires i < |video|
    requires forall h | 0 <= h < |keyframes| :: keyframes[h].0 != i && keyframes[h].0 != i - |video|
    ensures Keyed(video, keyframes, resize, i) == video[i]
  {
    if keyframes != [] {
      OtherFramesStay(video, keyframes[..|keyframes| - 1], resize, i);
    }
  }

  /** A cap keeps that many frames from the front, a negative one drops that many at the end. */
  lemma CapKeepsFront<F>(video: seq<F>, cap: int)
    ensures Cut(video, None) == video
    ensures 0 <= cap <= |video| ==> Cut(video, Some(cap)) == video[..cap]
    ensures cap > |video| ==> Cut(video, Some(cap)) == video
    ensures -|video| <= cap < 0 ==> Cut(video, Some(cap)) == video[..|video| + cap]
    ensures cap < -|video| ==> Cut(video, Some(cap)) == []
  {
  }

  /** Generates the clips in order, chaining each to its predecessor. */
  method GenerateClips<F(!new)>(gen: ClipJob<F> -> seq<F>, input: F, conditions: seq<seq<F>>, mask: seq<F>,
                                schedule: seq<Window>, n: nat) returns (clips: seq<seq<F>>)
    requires Schedulable(|mask|, n) && IsSchedule(schedule, |mask|, n)
    requires mask != [] && NoneEmpty(conditions)
    requires forall job :: |gen(job)| == n
    ensures AllMade(gen, clips, input, conditions, mask, schedule, n)
    ensures forall j | 0 <= j < |clips| :: |clips[j]| == n
  {
    clips := [];
    for j := 0 to |schedule|
      invariant |clips| == j && IsChain(gen, input, conditions, mask, schedule, n, clips)
    {
      ChainExtends(gen, input, conditions, mask, schedule, n, clips);
      var image := StartImage(clips, input, schedule, |mask|, n, j);
      clips := clips + [gen(JobOf(image, input, conditions, mask, schedule[j].start, n))];
    }
    forall j: nat | j < |clips| ensures IsMade(gen, clips, input, conditions, mask, schedule, n, j) {
      ChainIsMade(gen, clips, input, conditions, mask, schedule, n, j);
    }
  }

  /** The first `maxFrames` frames; a negative cap leaves that many off at the end. */
  function Cut<F>(video: seq<F>, maxFrames: Option<int>): seq<F> {
    if maxFrames.None? then video else video[..Kept(|video|, maxFrames.value)]
  }

  function Kept(length: nat, cap: int): (k: nat)
    ensures k <= length
  {
    if cap >= 0 then Min(cap, length) else Max(0, length + cap)
  }

  function AllCut<F>(videos: seq<seq<F>>, maxFrames: Option<int>): (r: seq<seq<F>>)
    ensures |r| == |videos|
  {
    seq(|videos|, k requires 0 <= k < |videos| => Cut(videos[k], maxFrames))
  }

  /** What the source can work with at all: a first video, no empty one, and keyframes that fit. */
  predicate Acceptable<F>(videos: seq<seq<F>>, keyframes: seq<(int, F)>) {
    videos != [] && NoneEmpty(videos) && AllFit(videos, keyframes)
  }

  /** The mask is black at the indices given for keyframes: a keyframe given by a negative index is
      placed, but the mask stays white there. */
  ghost predicate IsMask<F>(mask: seq<F>, keyframes: seq<(int, F)>, white: F, black: F) {
    forall i: nat | i < |mask| ::
      mask[i] == if exists q :: 0 <= q < |keyframes| && keyframes[q].0 == i then black else white
  }

  /** The mask marks exactly the placed frames exactly when every place given by a negative index is also
      given by its own. */
  lemma MaskMarksPlacedIff<F>(mask: seq<F>, keyframes: seq<(int, F)>, white: F, black: F)
    requires IsMask(mask, keyframes, white, black) && white != black
    requires forall q | 0 <= q < |keyframes| :: Fits(keyframes[q].0, |mask|)
    ensures (forall i: nat | i < |mask| ::
               mask[i] == black <==> exists q :: 0 <= q < |keyframes| && Place(keyframes[q].0, |mask|) == i)
            <==> forall q | 0 <= q < |keyframes| && keyframes[q].0 < 0 ::
                   exists h :: 0 <= h < |keyframes| && keyframes[h].0 == Place(keyframes[q].0, |mask|)
  {
    if forall i: nat | i < |mask| ::
         mask[i] == black <==> exists q :: 0 <= q < |keyframes| && Place(keyframes[q].0, |mask|) == i
    {
      forall q | 0 <= q < |keyframes| && keyframes[q].0 < 0
        ensures exists h :: 0 <= h < |keyframes| && keyframes[h].0 == Place(keyframes[q].0, |mask|)
      {
        var i: nat := Place(keyframes[q].0, |mask|);
        assert mask[i] == black;
      }
    }
    if forall q | 0 <= q < |keyframes| && keyframes[q].0 < 0 ::
         exists h :: 0 <= h < |keyframes| && keyframes[h].0 == Place(keyframes[q].0, |mask|)
    {
      forall i: nat | i < |mask|
        ensures mask[i] == black <==> exists q :: 0 <= q < |keyframes| && Place(keyframes[q].0, |mask|) == i
      {
        if q :| 0 <= q < |keyframes| && keyframes[q].0 == i {
          assert Place(keyframes[q].0, |mask|) == i;
        }
      }
    }
  }

  ghost predicate AreKeyed<F>(conditions: seq<seq<F>>, videos: seq<seq<F>>, keyframes: seq<(int, F)>, resize: F -> F) {
    SameLengths(conditions, videos)
    && forall k, i: nat | 0 <= k < |conditions| && i < |conditions[k]| ::
         conditions[k][i] == Keyed(videos[k], keyframes, resize, i)
  }

  /** The frame count is capped, keyframes are placed, and the mask follows the first video's length. */
  method Prepare<F>(conditionVideos: seq<seq<F>>, keyframes: seq<(int, F)>, resize: F -> F, white: F, black: F,
                          maxFrames: Option<int>) returns (ok: bool, conditions: seq<seq<F>>, mask: seq<F>)
    ensures ok <==> Acceptable(AllCut(conditionVideos, maxFrames), keyframes)
    ensures ok ==> mask != [] && |mask| == |Cut(conditionVideos[0], maxFrames)| && IsMask(mask, keyframes, white, black)
    ensures ok ==> AreKeyed(conditions, AllCut(conditionVideos, maxFrames), keyframes, resize)
    ensures ok ==> NoneEmpty(conditions)
  {
    var videos := AllCut(conditionVideos, maxFrames);
    conditions, mask := videos, [];
    if videos == [] {
      return false, conditions, mask;
    }
    var keyed := set q | 0 <= q < |keyframes| && keyframes[q].0 >= 0 :: keyframes[q].0;
    mask := Mask(|videos[0]|, keyed, white, black);
    ok, conditions := PlaceKeyframes(videos, keyframes, resize);
    if !ok {
      return;
    }
    // slicing an empty video fails for want of a last frame
    for k := 0 to |videos|
      invariant forall h | 0 <= h < k :: |conditions[h]| > 0
    {
      if |conditions[k]| == 0 {
        return false, conditions, mask;
      }
    }
  }

  /** The whole of `infer`: it fails exactly on input it cannot work with; else the output has exactly the
      frames of the first video, and each is the frame for its place in the last clip of the chain that
      starts by then. */
  method Infer<F(!new)>(gen: ClipJob<F> -> seq<F>, input: F, conditionVideos: seq<seq<F>>, keyframes: seq<(int, F)>,
                        resize: F -> F, white: F, black: F, n: nat, maxFrames: Option<int>)
      returns (ok: bool, combined: seq<F>, clips: seq<seq<F>>, conditions: seq<seq<F>>, mask: seq<F>, schedule: seq<Window>)
    requires n >= 1 && forall job :: |gen(job)| == n
    requires conditionVideos != [] ==> Schedulable(|Cut(conditionVideos[0], maxFrames)|, n)
    ensures ok <==> Acceptable(AllCut(conditionVideos, maxFrames), keyframes)
    ensures ok ==> |combined| == |mask| == |Cut(conditionVideos[0], maxFrames)| && IsSchedule(schedule, |mask|, n)
    ensures ok ==> AllMade(gen, clips, input, conditions, mask, schedule, n)
    ensures ok ==> schedule[0].start == 0 && AllFromLastClip(combined, clips, schedule, |schedule| - 1)
    ensures ok ==> IsMask(mask, keyframes, white, black)
    ensures ok ==> AreKeyed(conditions, AllCut(conditionVideos, maxFrames), keyframes, resize)
  {
    combined, clips, schedule := [], [], [];
    ok, conditions, mask := Prepare(conditionVideos, keyframes, resize, white, black, maxFrames);
    if !ok {
      return;
    }
    schedule := ComputeClipSchedule(|mask|, n);
    clips := GenerateClips(gen, input, conditions, mask, schedule, n);
    combined := Stitch(clips, schedule, |mask|, n);
  }
}
