/**
 Switching the turbo adapter on and off between jobs, in exact arithmetic.
 Source: runner/idv2v/bernini_lora.py, class TurboLora, and the job loop of runner/idv2v/bernini_cli.py.
 Devices and dtypes are left out; loading a checkpoint is a constructor that takes what was loaded.
 */
module TurboToggle {
  import opened Options
  import opened LoraAlgebra

  // ----- What one checkpoint holds for a layer -----

  datatype Slot = Slot(
    loraA: Option<Mat>,
    loraB: Option<Mat>,
    loraFull: Option<Mat>,
    alpha: real,
    diffB: Option<Vec>)

  /** The shapes a slot needs to be attached to a layer with k inputs and n outputs. */
  predicate SlotFits(s: Slot, l: Layer, k: nat, n: nat) {
    Fits(l, k, n)
    && (s.loraA.Some? ==>
        |s.loraA.value| > 0 && IsMat(s.loraA.value, |s.loraA.value|, k)
        && s.loraB.Some? && IsMat(s.loraB.value, n, |s.loraA.value|))
    && (s.loraFull.Some? ==> IsMat(s.loraFull.value, n, k))
    && (s.diffB.Some? ==> |s.diffB.value| == n)
  }

  function Minus(x: Vec, y: Vec): (r: Vec)
    requires |x| == |y|
    ensures |r| == |x| && forall k :: 0 <= k < |x| ==> r[k] == x[k] - y[k]
  {
    seq(|x|, k requires 0 <= k < |x| => x[k] - y[k])
  }

  predicate Detached(l: Layer) {
    l.loraA.None? && l.loraB.None? && l.loraFull.None? && l.loraAlpha == 1.0
  }

  function Attached(l: Layer, s: Slot): Layer
    requires l.bias.Some? && s.diffB.Some? ==> |l.bias.value| == |s.diffB.value|
    requires s.loraA.Some? ==> |s.loraA.value| > 0
  {
    l.(loraA := if s.loraA.Some? then s.loraA else l.loraA,
       loraB := if s.loraB.Some? then s.loraB else l.loraB,
       loraFull := if s.loraFull.Some? then s.loraFull else l.loraFull,
       loraAlpha := if s.loraA.Some? then s.alpha / (|s.loraA.value| as real) else 1.0,
       bias := if s.diffB.Some? && l.bias.Some? then Some(Plus(l.bias.value, s.diffB.value)) else l.bias)
  }

  function Removed(l: Layer, s: Slot): Layer
    requires l.bias.Some? && s.diffB.Some? ==> |l.bias.value| == |s.diffB.value|
  {
    l.(loraA := None, loraB := None, loraFull := None, loraAlpha := 1.0,
       bias := if s.diffB.Some? && l.bias.Some? then Some(Minus(l.bias.value, s.diffB.value)) else l.bias)
  }

  lemma PlusMinus(x: Vec, y: Vec)
    requires |x| == |y|
    ensures Minus(Plus(x, y), y) == x
  {
  }

  lemma RemovingUndoesAttaching(l: Layer, s: Slot, k: nat, n: nat)
    requires SlotFits(s, l, k, n) && Detached(l)
    ensures Removed(Attached(l, s), s) == l
  {
    if s.diffB.Some? && l.bias.Some? {
      PlusMinus(l.bias.value, s.diffB.value);
    }
  }

  /**
   With the adapter on, a layer computes its merged weights on every input exactly when the slot has a
   down matrix, or has no full delta that is not zero: the head's delta alone is never applied.
   */
  lemma TurboComputesMergedIff(l: Layer, s: Slot, k: nat, n: nat)
    requires SlotFits(s, l, k, n) && Detached(l)
    ensures Fits(Attached(l, s), k, n)
    ensures (forall x: Vec :: |x| == k ==> Agrees(Attached(l, s), x, n))
      <==> (s.loraA.Some? || s.loraFull.None?
            || forall i :: 0 <= i < n ==> s.loraFull.value[i] == Zeros(k))
  {
    RuntimeEqualsMergedIff(Attached(l, s), k, n);
  }

  // ----- The objects -----

  class FP8Linear {
    const weight: Mat
    const scale: Vec
    var bias: Option<Vec>
    var loraA: Option<Mat>
    var loraB: Option<Mat>
    var loraAlpha: real
    var loraFull: Option<Mat>

    constructor (weight: Mat, scale: Vec, bias: Option<Vec>)
      ensures View() == Layer(weight, scale, bias, None, None, 1.0, None)
    {
      this.weight, this.scale, this.bias := weight, scale, bias;
      loraA, loraB, loraAlpha, loraFull := None, None, 1.0, None;
    }

    function View(): Layer
      reads this
    {
      Layer(weight, scale, bias, loraA, loraB, loraAlpha, loraFull)
    }

    /** One layer's part of apply: fields the slot does not hold keep what they had. */
    method Attach(slot: Slot)
      requires bias.Some? && slot.diffB.Some? ==> |bias.value| == |slot.diffB.value|
      requires slot.loraA.Some? ==> |slot.loraA.value| > 0
      modifies this
      ensures View() == Attached(old(View()), slot)
      ensures loraA == if slot.loraA.Some? then slot.loraA else old(loraA)
      ensures loraB == if slot.loraB.Some? then slot.loraB else old(loraB)
      ensures loraFull == if slot.loraFull.Some? then slot.loraFull else old(loraFull)
      ensures if slot.loraA.Some? then loraAlpha * |slot.loraA.value| as real == slot.alpha else loraAlpha == 1.0
      ensures if slot.diffB.Some? && old(bias).Some?
              then bias.Some? && |bias.value| == |slot.diffB.value|
                && forall k :: 0 <= k < |bias.value| ==> bias.value[k] == old(bias).value[k] + slot.diffB.value[k]
              else bias == old(bias)
    {
      if slot.loraA.Some? {
        loraA := slot.loraA;
      }
      if slot.loraB.Some? {
        loraB := slot.loraB;
      }
      if slot.loraFull.Some? {
        loraFull := slot.loraFull;
      }
      loraAlpha := if slot.loraA.Some? then slot.alpha / (|slot.loraA.value| as real) else 1.0;
      if slot.diffB.Some? && bias.Some? {
        bias := Some(Plus(bias.value, slot.diffB.value));
      }
    }

    /** One layer's part of restore. */
    method Remove(slot: Slot)
      requires bias.Some? && slot.diffB.Some? ==> |bias.value| == |slot.diffB.value|
      modifies this
      ensures View() == Removed(old(View()), slot)
      ensures loraA == None && loraB == None && loraFull == None && loraAlpha == 1.0
      ensures if slot.diffB.Some? && old(bias).Some?
              then bias.Some? && |bias.value| == |slot.diffB.value|
                && forall k :: 0 <= k < |bias.value| ==> bias.value[k] == old(bias).value[k] - slot.diffB.value[k]
              else bias == old(bias)
    {
      loraA := None;
      loraB := None;
      loraAlpha := 1.0;
      loraFull := None;
      if slot.diffB.Some? && bias.Some? {
        bias := Some(Minus(bias.value, slot.diffB.value));
      }
    }
  }

  class Parameter {
    var data: Vec

    constructor (data: Vec)
      ensures this.data == data
    {
      this.data := data;
    }
  }

  datatype Target = Target(layer: FP8Linear, slot: Slot, inputs: nat, outputs: nat)
  datatype Patch = Patch(p: Parameter, orig: Vec, delta: Vec)

  class TurboLora {
    const linear: seq<Target>
    const patch: seq<Patch>
    var active: bool
    ghost const base: seq<Layer>

    ghost function Objects(): set<object>
      reads this
    {
      (set t <- linear :: t.layer as object) + (set q <- patch :: q.p as object)
    }

    /** What never changes: the slots fit the layers as they were loaded, and no object is listed twice. */
    ghost predicate Wired() {
      |base| == |linear|
      && (forall i, j :: 0 <= i < j < |linear| ==> linear[i].layer != linear[j].layer)
      && (forall i, j :: 0 <= i < j < |patch| ==> patch[i].p != patch[j].p)
      && (forall i :: 0 <= i < |linear| ==>
            Detached(base[i]) && SlotFits(linear[i].slot, base[i], linear[i].inputs, linear[i].outputs))
      && (forall i :: 0 <= i < |patch| ==> |patch[i].orig| == |patch[i].delta|)
    }

    ghost function LayerFor(i: int, on: bool): Layer
      requires Wired() && 0 <= i < |linear|
    {
      if on then Attached(base[i], linear[i].slot) else base[i]
    }

    ghost function DataFor(i: int, on: bool): Vec
      requires Wired() && 0 <= i < |patch|
    {
      if on then Plus(patch[i].orig, patch[i].delta) else patch[i].orig
    }

    /** The layers from lo up to hi are exactly as loaded, with the adapter on or off. */
    ghost predicate LayersAre(on: bool, lo: int, hi: int)
      requires Wired() && 0 <= lo <= hi <= |linear|
      reads this, Objects()
    {
      forall i :: lo <= i < hi ==> linear[i].layer.View() == LayerFor(i, on)
    }

    ghost predicate ParametersAre(on: bool, lo: int, hi: int)
      requires Wired() && 0 <= lo <= hi <= |patch|
      reads this, Objects()
    {
      forall i :: lo <= i < hi ==> patch[i].p.data == DataFor(i, on)
    }

    /** Everything is exactly base, or exactly base plus the adapter. */
    ghost predicate IsExactly(on: bool)
      reads this, Objects()
    {
      Wired() && LayersAre(on, 0, |linear|) && ParametersAre(on, 0, |patch|)
    }

    ghost predicate Valid()
      reads this, Objects()
    {
      IsExactly(active)
    }

    constructor (linear: seq<Target>, patch: seq<Patch>)
      requires forall i, j :: 0 <= i < j < |linear| ==> linear[i].layer != linear[j].layer
      requires forall i, j :: 0 <= i < j < |patch| ==> patch[i].p != patch[j].p
      requires forall t <- linear :: Detached(t.layer.View()) && SlotFits(t.slot, t.layer.View(), t.inputs, t.outputs)
      requires forall q <- patch :: q.orig == q.p.data && |q.orig| == |q.delta|
      ensures Valid() && !active && this.linear == linear && this.patch == patch
      ensures forall i :: 0 <= i < |linear| ==> base[i] == old(linear[i].layer.View())
    {
      this.linear, this.patch, this.active := linear, patch, false;
      ghost var views: seq<Layer> := [];
      for i := 0 to |linear|
        invariant |views| == i && forall k :: 0 <= k < i ==> views[k] == linear[k].layer.View()
      {
        views := views + [linear[i].layer.View()];
      }
      base := views;
    }

    method WriteLayers(on: bool)
      requires Wired() && LayersAre(!on, 0, |linear|)
      modifies set t <- linear :: t.layer
      ensures LayersAre(on, 0, |linear|)
    {
      for i := 0 to |linear|
        invariant LayersAre(on, 0, i) && LayersAre(!on, i, |linear|)
      {
        assert linear[i].layer.View() == LayerFor(i, !on);
        if on {
          linear[i].layer.Attach(linear[i].slot);
        } else {
          RemovingUndoesAttaching(base[i], linear[i].slot, linear[i].inputs, linear[i].outputs);
          linear[i].layer.Remove(linear[i].slot);
        }
      }
    }

    /** Every parameter gets its original copied back, with the delta or without. */
    method WriteParameters(on: bool)
      requires Wired()
      modifies set q <- patch :: q.p
      ensures ParametersAre(on, 0, |patch|)
    {
      for i := 0 to |patch|
        invariant ParametersAre(on, 0, i)
      {
        patch[i].p.data := if on then Plus(patch[i].orig, patch[i].delta) else patch[i].orig;
      }
    }

    method Apply()
      requires Valid()
      modifies this`active, Objects()
      ensures Valid() && active
      ensures old(active) ==> forall o <- Objects() :: unchanged(o)
    {
      if active {
        return;
      }
      WriteLayers(true);
      WriteParameters(true);
      active := true;
    }

    method Restore()
      requires Valid()
      modifies this`active, Objects()
      ensures Valid() && !active
      ensures !old(active) ==> forall o <- Objects() :: unchanged(o)
    {
      if !active {
        return;
      }
      WriteLayers(false);
      WriteParameters(false);
      active := false;
    }
  }

  // ----- The job loop -----

  datatype Job = Job(prompt: bool, output: bool, planOnly: bool, turbo: bool, steps: Option<int>)

  /** Whether the adapter is on, and the step count the shared namespace holds. */
  datatype RunState = RunState(on: bool, steps: int)

  const TURBO_STEPS: int := 4

  predicate IsRender(j: Job) {
    j.prompt && j.output && !j.planOnly
  }

  /** The step count a job leaves in the namespace, if it writes one. */
  function StepsWritten(j: Job): Option<int> {
    if !j.prompt || !j.output then None
    else if j.steps.Some? then j.steps
    else if !j.planOnly && j.turbo then Some(TURBO_STEPS)
    else None
  }

  function After(s: RunState, j: Job, loaded: bool): RunState {
    RunState(
      if IsRender(j) && loaded then j.turbo else s.on,
      if StepsWritten(j).Some? then StepsWritten(j).value else s.steps)
  }

  function Final(s: RunState, js: seq<Job>, loaded: bool): RunState {
    if js == [] then s else After(Final(s, js[..|js| - 1], loaded), js[|js| - 1], loaded)
  }

  class Namespace {
    var numInferenceSteps: int

    constructor ()
      ensures numInferenceSteps == 40
    {
      numInferenceSteps := 40;
    }
  }

  /** One job up to the call of the pipeline; answers whether it gets there. */
  method Handle(ns: Namespace, tl: TurboLora?, j: Job) returns (renders: bool)
    requires tl != null ==> tl.Valid() && ns !in tl.Objects()
    modifies ns
    modifies if tl == null then {} else {tl} + tl.Objects()
    ensures renders == IsRender(j)
    ensures renders <==> j.prompt && j.output && !j.planOnly
    ensures tl != null ==> tl.active == if renders then j.turbo else old(tl.active)
    ensures ns.numInferenceSteps
      == if j.prompt && j.output && j.steps.Some? then j.steps.value
         else if renders && j.turbo then 4
         else old(ns.numInferenceSteps)
    ensures ns.numInferenceSteps
      == After(RunState(false, old(ns.numInferenceSteps)), j, tl != null).steps
    ensures tl != null ==>
      tl.Valid() && tl.active == After(RunState(old(tl.active), 0), j, true).on
  {
    if !j.prompt {
      return false;
    }
    if !j.output {
      return false;
    }
    if j.steps.Some? {
      ns.numInferenceSteps := j.steps.value;
    }
    if j.planOnly {
      return false;
    }
    if tl != null {
      if j.turbo && !tl.active {
        tl.Apply();
      } else if !j.turbo && tl.active {
        tl.Restore();
      }
    }
    if j.turbo && j.steps.None? {
      ns.numInferenceSteps := TURBO_STEPS;
    }
    return true;
  }

  /** The loop over the jobs; answers the state each render starts in. */
  method HandleAll(ns: Namespace, tl: TurboLora?, js: seq<Job>) returns (renders: seq<RunState>)
    requires tl != null ==> tl.Valid() && ns !in tl.Objects()
    modifies ns
    modifies if tl == null then {} else {tl} + tl.Objects()
    ensures var s := RunState(old(tl != null && tl.active), old(ns.numInferenceSteps));
      renders == Renders(s, js, tl != null)
      && RunState(tl != null && tl.active, ns.numInferenceSteps) == Final(s, js, tl != null)
    ensures tl != null ==> tl.Valid()
  {
    ghost var s := RunState(tl != null && tl.active, ns.numInferenceSteps);
    renders := [];
    for i := 0 to |js|
      invariant tl != null ==> tl.Valid() && ns !in tl.Objects()
      invariant RunState(tl != null && tl.active, ns.numInferenceSteps) == Final(s, js[..i], tl != null)
      invariant renders == Renders(s, js[..i], tl != null)
    {
      assert js[..i + 1][..i] == js[..i];
      var ok := Handle(ns, tl, js[i]);
      if ok {
        renders := renders + [RunState(tl != null && tl.active, ns.numInferenceSteps)];
      }
    }
    assert js[..|js|] == js;
  }

  function Renders(s: RunState, js: seq<Job>, loaded: bool): seq<RunState> {
    if js == [] then []
    else
      var n := |js| - 1;
      Renders(s, js[..n], loaded) + if IsRender(js[n]) then [Final(s, js, loaded)] else []
  }

  /** A further job that renders runs with the adapter on exactly if it asks for turbo, where one is loaded, and with
      its own step count, else 4 with turbo, else what the jobs before left; any other job runs nothing. */
  lemma EachRenderRunsAsAsked(s: RunState, js: seq<Job>, j: Job, loaded: bool)
    ensures Renders(s, js + [j], loaded)
      == if j.prompt && j.output && !j.planOnly
         then Renders(s, js, loaded)
           + [RunState(if loaded then j.turbo else Final(s, js, loaded).on,
                       if j.steps.Some? then j.steps.value else if j.turbo then 4 else Final(s, js, loaded).steps)]
         else Renders(s, js, loaded)
    ensures Renders(s, [], loaded) == []
  {
    assert (js + [j])[..|js|] == js;
  }

  predicate LastRender(js: seq<Job>, i: int) {
    0 <= i < |js| && IsRender(js[i]) && forall k :: i < k < |js| ==> !IsRender(js[k])
  }

  /** The adapter is on exactly when the last render, if there was one, asked for turbo. */
  lemma {:induction false} OnIffLastRenderTurbo(s: RunState, js: seq<Job>)
    ensures Final(s, js, true).on
      <==> ((exists i :: LastRender(js, i) && js[i].turbo) || (s.on && forall j <- js :: !IsRender(j)))
  {
    if js != [] {
      var n := |js| - 1;
      var init := js[..n];
      OnIffLastRenderTurbo(s, init);
      if IsRender(js[n]) {
        assert LastRender(js, n);
      } else {
        assert forall i :: LastRender(init, i) <==> LastRender(js, i);
        assert js == init + [js[n]];
      }
    }
  }

  predicate LastWrite(js: seq<Job>, i: int) {
    0 <= i < |js| && StepsWritten(js[i]).Some? && forall k :: i < k < |js| ==> StepsWritten(js[k]).None?
  }

  lemma {:induction false} StepsComeFromLastWrite(s: RunState, js: seq<Job>, i: int, loaded: bool)
    requires LastWrite(js, i)
    ensures Final(s, js, loaded).steps == StepsWritten(js[i]).value
  {
    var n := |js| - 1;
    if i < n {
      assert LastWrite(js[..n], i);
      StepsComeFromLastWrite(s, js[..n], i, loaded);
    }
  }

  /**
   Jobs that name no step count, then a native one that names none either: it keeps the namespace's
   default exactly when no earlier render was turbo. A turbo render's four steps stay behind.
   */
  lemma {:induction false} NativeKeepsDefaultIff(s: RunState, js: seq<Job>, native: Job, loaded: bool)
    requires s.steps != TURBO_STEPS && forall j <- js :: j.steps.None?
    requires IsRender(native) && !native.turbo && native.steps.None?
    ensures Final(s, js, loaded).steps in {s.steps, TURBO_STEPS}
    ensures Final(s, js + [native], loaded).steps == s.steps <==> forall j <- js :: IsRender(j) ==> !j.turbo
  {
    assert (js + [native])[..|js|] == js;
    if js != [] {
      var n := |js| - 1;
      assert js == js[..n] + [js[n]];
      assert forall j <- js[..n] :: j in js;
      NativeKeepsDefaultIff(s, js[..n], native, loaded);
      assert (js[..n] + [native])[..n] == js[..n];
    }
  }
}
