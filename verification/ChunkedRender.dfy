/**
 Long v2v jobs rendered in chunks: the source windows of the chunks and the frames of earlier
 output each chunk is anchored to. Indices only; rendering and frame export are left out.
 Source: runner/idv2v/bernini.py.
 */
module ChunkedRender {
  import opened Basics
  import opened Options

  const NATIVE_FRAMES: nat := 33
  const CHUNK_REF_FRAMES: nat := 1
  const CHUNK_REF_FRAMES_13B: nat := 6

  function ChunkCount(total: nat): nat {
    (total + NATIVE_FRAMES - 1) / NATIVE_FRAMES
  }

  function ChunkStart(k: nat): nat {
    k * NATIVE_FRAMES
  }

  function ChunkEnd(k: nat, total: nat): nat {
    if ChunkStart(k + 1) < total then ChunkStart(k + 1) else total
  }

  /** The windows partition [0, total): every frame has exactly one chunk, every chunk 1 to 33 frames,
      and chunk after chunk they run from 0 to `total`. */
  lemma ChunksPartition(total: nat, f: nat)
    requires f < total
    ensures exists k: nat {:trigger ChunkStart(k)} :: k < ChunkCount(total) && ChunkStart(k) <= f < ChunkEnd(k, total)
    ensures forall k: nat, h: nat | ChunkStart(k) <= f < ChunkEnd(k, total) && ChunkStart(h) <= f < ChunkEnd(h, total) :: k == h
    ensures forall k: nat | k < ChunkCount(total) :: 1 <= ChunkEnd(k, total) - ChunkStart(k) <= NATIVE_FRAMES
    ensures forall k: nat | k + 1 < ChunkCount(total) :: ChunkEnd(k, total) == ChunkStart(k + 1)
    ensures ChunkStart(0) == 0 && ChunkEnd(ChunkCount(total) - 1, total) == total
  {
    var k := f / NATIVE_FRAMES;
    assert ChunkStart(k) <= f < ChunkEnd(k, total);
  }

  /** A frame of chunk `chunk`'s rendered output. */
  datatype Ref = Ref(chunk: nat, frame: nat)

  /** How a chunk's appearance is pinned. */
  datatype Anchor = FromPlan | FromRefs(images: seq<Ref>) | Unanchored

  /** The frames a finished chunk is taken to have: what the worker reported, unless nothing or 0. */
  function FramesOf(reported: Option<int>, length: nat): int {
    if reported.Some? && reported.value != 0 then reported.value else length
  }

  function RefCap(big: bool): nat {
    if big then CHUNK_REF_FRAMES else CHUNK_REF_FRAMES_13B
  }

  /** The outcome of everything outside the loop: frame counts the worker reports and which exports fail. */
  datatype World = World(reported: nat -> Option<int>, anchorFails: nat -> bool, globalFails: nat -> bool)

  function Frames(w: World, total: nat, k: nat): int {
    FramesOf(w.reported(k), if ChunkStart(k) <= ChunkEnd(k, total) then ChunkEnd(k, total) - ChunkStart(k) else 0)
  }

  predicate ExportsPin(w: World, total: nat, k: nat) {
    Frames(w, total, k) > 0 && !w.globalFails(k)
  }

  /** The identity pin in force before chunk `k`: the last frame of the first chunk that gave one. */
  function GlobalRef(w: World, total: nat, k: nat): (r: Option<Ref>)
    ensures r.Some? ==> r.value.chunk < k && Frames(w, total, r.value.chunk) == r.value.frame + 1
  {
    if k == 0 then None
    else if GlobalRef(w, total, k - 1).Some? then GlobalRef(w, total, k - 1)
    else if ExportsPin(w, total, k - 1) then Some(Ref(k - 1, Frames(w, total, k - 1) - 1))
    else None
  }

  /** There is a pin before chunk `k` exactly when an earlier chunk exported one; the first that did gave
      it, and it never changes again. */
  lemma {:induction false} PinIsFirstExport(w: World, total: nat, k: nat, j: nat)
    requires j < k && ExportsPin(w, total, j) && forall i: nat | i < j :: !ExportsPin(w, total, i)
    ensures GlobalRef(w, total, k) == Some(Ref(j, Frames(w, total, j) - 1))
  {
    if j < k - 1 {
      PinIsFirstExport(w, total, k - 1, j);
    } else {
      NoPinWithoutExport(w, total, j);
    }
  }

  lemma {:induction false} NoPinWithoutExport(w: World, total: nat, k: nat)
    ensures GlobalRef(w, total, k) == None <==> forall i: nat | i < k :: !ExportsPin(w, total, i)
  {
    if k > 0 {
      NoPinWithoutExport(w, total, k - 1);
    }
  }

  /** The pin is chunk 0's frame exactly when chunk 0 has frames and its export works. */
  lemma {:induction false} PinIsChunkZeroIff(w: World, total: nat, k: nat)
    requires k >= 1
    ensures GlobalRef(w, total, k).Some? && GlobalRef(w, total, k).value.chunk == 0 <==> ExportsPin(w, total, 0)
  {
    if k > 1 {
      PinIsChunkZeroIff(w, total, k - 1);
    }
  }

  /** What chunk `k` must be anchored to, stated without the loop. `refs` images in all, the smaller
      of the cap and the previous chunk's frames: its last valid frames in order, with the identity
      pin, when there is one and room for it, in place of the oldest. */
  predicate IsAnchor(a: Anchor, w: World, total: nat, big: bool, planned: bool, k: nat) {
    if planned then a.FromPlan?
    else if k == 0 || Frames(w, total, k - 1) <= 0 || w.anchorFails(k) then a.Unanchored?
    else
      var prev := Frames(w, total, k - 1);
      var refs := Min(RefCap(big), prev);
      var pin := GlobalRef(w, total, k);
      && a.FromRefs? && |a.images| == refs
      && (forall i: nat | i < refs && !(i == 0 && pin.Some? && refs > 1) :: a.images[i] == Ref(k - 1, prev - refs + i))
      && (pin.Some? && refs > 1 ==> a.images[0] == pin.value)
  }

  /** The chunk loop, as far as it decides windows and anchors. */
  method GenerateChunked(w: World, total: nat, big: bool, planned: bool)
      returns (windows: seq<(nat, nat)>, anchors: seq<Anchor>)
    ensures |windows| == |anchors| == ChunkCount(total)
    ensures forall k: nat | k < |windows| :: windows[k] == (ChunkStart(k), ChunkEnd(k, total))
    ensures forall k: nat | k < |anchors| :: IsAnchor(anchors[k], w, total, big, planned, k)
  {
    windows, anchors := [], [];
    var prevFrames := 0;
    var globalRef: Option<Ref> := None;
    for k := 0 to ChunkCount(total)
      invariant |windows| == |anchors| == k
      invariant forall i: nat | i < k :: windows[i] == (ChunkStart(i), ChunkEnd(i, total))
      invariant forall i: nat | i < k :: IsAnchor(anchors[i], w, total, big, planned, i)
      invariant k > 0 ==> prevFrames == Frames(w, total, k - 1)
      invariant if planned then globalRef.None? else globalRef == GlobalRef(w, total, k)
    {
      var start := k * NATIVE_FRAMES;
      var end := Min((k + 1) * NATIVE_FRAMES, total);
      var length := end - start;
      var anchor := AnchorChunk(w, total, big, planned, k, prevFrames, globalRef);
      windows, anchors := windows + [(start, end)], anchors + [anchor];
      prevFrames := FramesOf(w.reported(k), length);
      if globalRef.None? && prevFrames > 0 && !planned && !w.globalFails(k) {
        globalRef := Some(Ref(k, prevFrames - 1));
      }
    }
  }

  method AnchorChunk(w: World, total: nat, big: bool, planned: bool, k: nat, prevFrames: int, globalRef: Option<Ref>)
      returns (a: Anchor)
    requires k > 0 ==> prevFrames == Frames(w, total, k - 1)
    requires !planned ==> globalRef == GlobalRef(w, total, k)
    ensures IsAnchor(a, w, total, big, planned, k)
  {
    if planned {
      return FromPlan;
    }
    if k > 0 && prevFrames > 0 {
      var refs := ExportRefs(k, prevFrames, globalRef, RefCap(big));
      if !w.anchorFails(k) {
        return FromRefs(refs);
      }
    }
    return Unanchored;
  }

  /** The reference images exported for an anchored chunk. */
  method ExportRefs(k: nat, prevFrames: int, globalRef: Option<Ref>, cap: nat) returns (refs: seq<Ref>)
    requires k > 0 && prevFrames > 0 && cap > 0
    ensures |refs| == Min(cap, prevFrames)
    ensures forall i: nat | i < |refs| && !(i == 0 && globalRef.Some? && |refs| > 1) ::
              refs[i] == Ref(k - 1, prevFrames - |refs| + i)
    ensures globalRef.Some? && |refs| > 1 ==> refs[0] == globalRef.value
  {
    var nref := Min(cap, prevFrames);
    refs := [];
    var nTail := nref;
    if globalRef.Some? && nref > 1 {
      refs := [globalRef.value];
      nTail := nref - 1;
    }
    ghost var pinned := |refs|;
    var baseIdx := prevFrames - nTail;
    for i := 0 to nTail
      invariant |refs| == pinned + i
      invariant pinned == 1 ==> refs[0] == globalRef.value
      invariant forall j: nat | pinned <= j < |refs| :: refs[j] == Ref(k - 1, baseIdx + j - pinned)
    {
      refs := refs + [Ref(k - 1, baseIdx + i)];
    }
  }

  /** In plain numbers: a chunk after the first is anchored to one frame on the 14B model and to six on the small
      one, or to all the chunk before has if that is fewer: as many as its worker reported, and its
      window's, 33 or what is left, when it reported nothing or 0. */
  lemma AnchorHasOneOrSix(a: Anchor, w: World, total: nat, big: bool, k: nat, reported: Option<int>)
    requires k > 0 && 33 * (k - 1) < total && IsAnchor(a, w, total, big, false, k) && !w.anchorFails(k)
    requires w.reported(k - 1) == reported
    ensures var left := total - 33 * (k - 1);
            var prev := if reported.None? || reported.value == 0 then (if left < 33 then left else 33) else reported.value;
            var cap := if big then 1 else 6;
            if prev <= 0 then a.Unanchored?
            else
              && a.FromRefs? && |a.images| == (if prev < cap then prev else cap)
              && (|a.images| == 1 ==> a.images[0] == Ref(k - 1, prev - 1))
              && (|a.images| > 1 ==> a.images[|a.images| - 1] == Ref(k - 1, prev - 1))
  {
  }

  /** An anchor repeats a frame exactly when the pin was taken from the chunk just before: the pin is
      then also the newest tail frame, so that chunk is anchored to one frame fewer than the cap. */
  lemma AnchorRepeatsIffPinIsPrevious(a: Anchor, w: World, total: nat, big: bool, k: nat)
    requires IsAnchor(a, w, total, big, false, k) && a.FromRefs?
    ensures (exists i: nat, j: nat | i < j < |a.images| :: a.images[i] == a.images[j])
            <==> |a.images| > 1 && GlobalRef(w, total, k).Some? && GlobalRef(w, total, k).value.chunk == k - 1
  {
    var pin := GlobalRef(w, total, k);
    var last := |a.images| - 1;
    if last > 0 && pin.Some? && pin.value.chunk == k - 1 {
      assert a.images[0] == a.images[last];
    }
  }
}
