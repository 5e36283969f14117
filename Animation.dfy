/** The animation of a found path in the Graph component: on each frame the
    elapsed time fixes how many nodes of the path are revealed and on which
    segment the moving marker is. Time is in whole milliseconds, and the
    progress fraction `min(elapsed / duration, 1)` is kept scaled by the
    duration, so that every quantity is an integer. */
module PathAnimation {
  import opened Options
  import opened Graphs

  /** `animationDuration`: the whole path is revealed over 2000 ms. */
  const AnimationDuration: nat := 2000

  function Min(a: int, b: int): int
  {
    if a < b then a else b
  }

  function Max(a: int, b: int): int
  {
    if a < b then b else a
  }

  /** `Math.min(elapsedTime / animationDuration, 1)`, times the duration. */
  function ProgressMs(elapsed: nat): (p: nat)
    ensures p <= AnimationDuration
    ensures elapsed <= AnimationDuration ==> p == elapsed
    ensures elapsed >= AnimationDuration ==> p == AnimationDuration
  {
    Min(elapsed, AnimationDuration)
  }

  lemma DivBelow(x: nat, d: nat, n: nat)
    requires 0 < d && x < d * n
    ensures x / d < n
  {
  }

  lemma MulMono(a: nat, b: nat, n: nat)
    requires a <= b
    ensures a * n <= b * n
  {
  }

  lemma MulCancel(d: nat, a: nat, b: nat)
    requires 0 < d && d * a < d * b
    ensures a < b
  {
  }

  lemma DivMonotone(x: nat, y: nat, d: nat)
    requires x <= y && 0 < d
    ensures x / d <= y / d
  {
    var qx, qy := x / d, y / d;
    assert d * qx <= x;
    assert y < d * (qy + 1);
    MulCancel(d, qx, qy + 1);
  }

  /** The quotient of a division is the floor: it times the divisor is at
      most the dividend, and one more is past it. */
  lemma FloorBounds(x: nat, d: nat)
    requires 0 < d
    ensures (x / d) * d <= x < (x / d + 1) * d
  {
  }

  /** `Math.min(Math.floor(progress * totalSteps), totalSteps)` for a
      progress given scaled by the duration. */
  function StepAt(progressMs: nat, totalSteps: nat): (s: nat)
    requires progressMs <= AnimationDuration
    ensures s <= totalSteps
    ensures s == totalSteps <==> progressMs == AnimationDuration || totalSteps == 0
    ensures progressMs == 0 ==> s == 0
    ensures s * AnimationDuration <= progressMs * totalSteps
    ensures s < totalSteps ==> progressMs * totalSteps < (s + 1) * AnimationDuration
  {
    var scaled := progressMs * totalSteps / AnimationDuration;
    FloorBounds(progressMs * totalSteps, AnimationDuration);
    assert progressMs < AnimationDuration && totalSteps > 0 ==> scaled < totalSteps by {
      if progressMs < AnimationDuration && totalSteps > 0 {
        assert progressMs * totalSteps < AnimationDuration * totalSteps;
        DivBelow(progressMs * totalSteps, AnimationDuration, totalSteps);
      }
    }
    Min(scaled, totalSteps)
  }

  /** The step reached at an elapsed time. */
  function CurrentStep(elapsed: nat, totalSteps: nat): (s: nat)
    ensures s <= totalSteps
    ensures elapsed >= AnimationDuration ==> s == totalSteps
    ensures elapsed == 0 ==> s == 0
    ensures s * AnimationDuration <= ProgressMs(elapsed) * totalSteps
    ensures s < totalSteps ==> ProgressMs(elapsed) * totalSteps < (s + 1) * AnimationDuration
  {
    StepAt(ProgressMs(elapsed), totalSteps)
  }

  /** A later frame never computes an earlier step. */
  lemma CurrentStepMonotone(e1: nat, e2: nat, totalSteps: nat)
    requires e1 <= e2
    ensures CurrentStep(e1, totalSteps) <= CurrentStep(e2, totalSteps)
  {
    var p1, p2 := ProgressMs(e1), ProgressMs(e2);
    MulMono(p1, p2, totalSteps);
    DivMonotone(p1 * totalSteps, p2 * totalSteps, AnimationDuration);
  }

  /** `path.slice(0, step + 1)`. */
  function Revealed(path: seq<string>, step: nat): (r: seq<string>)
    ensures r <= path
    ensures |r| == Min(step + 1, |path|)
  {
    path[..Min(step + 1, |path|)]
  }

  /** Revealing more steps only extends the revealed prefix, and the last
      step reveals the whole path. */
  lemma RevealedGrows(path: seq<string>, s1: nat, s2: nat)
    requires s1 <= s2
    ensures Revealed(path, s1) <= Revealed(path, s2)
    ensures s2 >= |path| ==> Revealed(path, s2) == path
  {
  }

  /** The step after frames at the given elapsed times, starting from 0:
      each frame keeps the larger of the old step and its own. */
  function StepAfter(times: seq<nat>, totalSteps: nat): (s: nat)
    ensures s <= totalSteps
    ensures times != [] ==> CurrentStep(times[|times| - 1], totalSteps) <= s
    ensures times != [] && times[|times| - 1] >= AnimationDuration ==> s == totalSteps
  {
    if times == [] then 0
    else Max(StepAfter(times[..|times| - 1], totalSteps), CurrentStep(times[|times| - 1], totalSteps))
  }

  predicate NonDecreasing(times: seq<nat>)
  {
    forall i, j :: 0 <= i < j < |times| ==> times[i] <= times[j]
  }

  /** With frames in time order, the step depends only on the time of the
      last frame, not on how many frames came before it. */
  lemma {:induction false} StepAfterLastFrame(times: seq<nat>, totalSteps: nat)
    requires |times| > 0 && NonDecreasing(times)
    ensures StepAfter(times, totalSteps) == CurrentStep(times[|times| - 1], totalSteps)
  {
    var init := times[..|times| - 1];
    if init != [] {
      assert NonDecreasing(init);
      StepAfterLastFrame(init, totalSteps);
      CurrentStepMonotone(init[|init| - 1], times[|times| - 1], totalSteps);
    }
  }

  /** Whatever the order of the frames, the step is never below that of any
      frame so far, and never beyond the path. */
  lemma {:induction false} StepAfterBounds(times: seq<nat>, totalSteps: nat)
    ensures StepAfter(times, totalSteps) <= totalSteps
    ensures forall i :: 0 <= i < |times| ==> CurrentStep(times[i], totalSteps) <= StepAfter(times, totalSteps)
  {
    if times != [] {
      var init := times[..|times| - 1];
      StepAfterBounds(init, totalSteps);
      assert forall i :: 0 <= i < |init| ==> times[i] == init[i];
    }
  }

  /** `isEdgeInPath`: whether some consecutive pair of the revealed path
      joins source and target, in either order. */
  method IsEdgeInPath(animationPath: seq<string>, source: string, target: string) returns (r: bool)
    ensures r <==> exists i :: 0 <= i < |animationPath| - 1 &&
                     ((animationPath[i] == source && animationPath[i + 1] == target) ||
                      (animationPath[i] == target && animationPath[i + 1] == source))
    ensures |animationPath| < 2 ==> !r
  {
    if |animationPath| < 2 {
      return false;
    }
    for i := 0 to |animationPath| - 1
      invariant forall j :: 0 <= j < i ==>
                  !((animationPath[j] == source && animationPath[j + 1] == target) ||
                    (animationPath[j] == target && animationPath[j + 1] == source))
    {
      if (animationPath[i] == source && animationPath[i + 1] == target) ||
         (animationPath[i] == target && animationPath[i + 1] == source) {
        return true;
      }
    }
    return false;
  }

  /** `isNodeInPath`: `animationPath.includes(nodeId)`. */
  function IsNodeInPath(animationPath: seq<string>, nodeId: string): (r: bool)
    ensures r <==> exists i :: 0 <= i < |animationPath| && animationPath[i] == nodeId
  {
    nodeId in animationPath
  }

  /** The segment the marker is on: its index, and how far along it the
      marker is, scaled by the duration. */
  datatype Segment = Segment(index: nat, fraction: nat)

  /** `currentSegment = min(floor(progress * (n - 1)), n - 2)` and the
      remainder `progress * (n - 1) - currentSegment`, for a path of n >= 2
      nodes: the marker is always on a real segment, between its ends. */
  function SegmentAt(progressMs: nat, n: nat): (s: Segment)
    requires n >= 2 && progressMs <= AnimationDuration
    ensures s.index <= n - 2
    ensures s.fraction <= AnimationDuration
    ensures s.index * AnimationDuration + s.fraction == progressMs * (n - 1)
    ensures progressMs < AnimationDuration ==> s.fraction < AnimationDuration
  {
    var scaled := progressMs * (n - 1);
    WholeSegments(progressMs, n);
    var whole := scaled / AnimationDuration;
    if whole <= n - 2 then Segment(whole, scaled % AnimationDuration)
    else Segment(n - 2, scaled - (n - 2) * AnimationDuration)
  }

  /** The whole part of `progress * (n - 1)` is at most n - 1, and reaches
      it only at full progress. */
  lemma WholeSegments(progressMs: nat, n: nat)
    requires n >= 2 && progressMs <= AnimationDuration
    ensures progressMs * (n - 1) / AnimationDuration <= n - 1
    ensures progressMs < AnimationDuration ==> progressMs * (n - 1) / AnimationDuration <= n - 2
    ensures progressMs * (n - 1) / AnimationDuration == n - 1 ==> progressMs * (n - 1) == AnimationDuration * (n - 1)
  {
    var scaled := progressMs * (n - 1);
    MulMono(progressMs, AnimationDuration, n - 1);
    DivMonotone(scaled, AnimationDuration * (n - 1), AnimationDuration);
    if progressMs < AnimationDuration {
      DivBelow(scaled, AnimationDuration, n - 1);
    }
  }

  /** `nodes.find(n => n.id === id)`. */
  function FindNode(nodes: seq<Node>, id: string): (r: Option<Node>)
    ensures r.Some? ==> r.value in nodes && r.value.id == id
    ensures r.None? <==> forall n :: n in nodes ==> n.id != id
    ensures r.Some? ==> exists k :: 0 <= k < |nodes| && nodes[k] == r.value && forall j :: 0 <= j < k ==> nodes[j].id != id
  {
    if nodes == [] then None
    else if nodes[0].id == id then Some(nodes[0])
    else
      var r := FindNode(nodes[1..], id);
      assert r.Some? ==> exists k :: 0 <= k < |nodes| && nodes[k] == r.value && forall j :: 0 <= j < k ==> nodes[j].id != id by {
        if r.Some? {
          var k :| 0 <= k < |nodes| - 1 && nodes[1..][k] == r.value && forall j :: 0 <= j < k ==> nodes[1..][j].id != id;
          assert forall j :: 0 <= j < k + 1 ==> nodes[j].id != id by {
            forall j | 0 <= j < k + 1 ensures nodes[j].id != id {
              if j > 0 { assert nodes[j] == nodes[1..][j - 1]; }
            }
          }
        }
      }
      r
  }

  /** The state of the running animation: the path captured when it started,
      the closure's `step` counter, and the component state it updates. */
  class Animator {
    const path: seq<string>
    var step: nat
    var animationPath: seq<string>
    var isAnimating: bool
    /** `animationProgress`, times the duration. */
    var progressMs: nat

    ghost predicate Valid()
      reads this
      ensures Valid() ==> animationPath <= path
    {
      && |path| > 0
      && progressMs <= AnimationDuration
      && StepAt(progressMs, |path|) <= step <= |path|
      && animationPath == (if step == 0 then [] else Revealed(path, step))
    }

    /** `startAnimation`: nothing revealed yet, progress 0, step 0. */
    constructor Start(path: seq<string>)
      requires |path| > 0
      ensures Valid()
      ensures this.path == path && step == 0 && animationPath == [] && isAnimating && progressMs == 0
    {
      this.path := path;
      step := 0;
      animationPath := [];
      isAnimating := true;
      progressMs := 0;
    }

    /** One call of `animate`, `elapsed` milliseconds after the start. */
    method Tick(elapsed: nat)
      requires Valid() && isAnimating
      modifies this
      ensures Valid()
      ensures progressMs == ProgressMs(elapsed)
      ensures step == Max(old(step), CurrentStep(elapsed, |path|))
      ensures old(animationPath) <= animationPath
      ensures elapsed >= AnimationDuration ==> animationPath == path && !isAnimating
      ensures elapsed < AnimationDuration ==> isAnimating
    {
      progressMs := ProgressMs(elapsed);
      var currentStep := StepAt(progressMs, |path|);
      if currentStep > step {
        RevealedGrows(path, step, currentStep);
        step := currentStep;
        animationPath := Revealed(path, step);
      }
      // below the full progress the next frame is requested
      if progressMs >= AnimationDuration {
        RevealedGrows(path, step, step);
        animationPath := path;
        isAnimating := false;
      }
    }

    /** `cancelAnimationFrame` and `setIsAnimating(false)` when a new search starts. */
    method Cancel()
      requires Valid()
      modifies this
      ensures Valid() && !isAnimating
      ensures step == old(step) && animationPath == old(animationPath) && progressMs == old(progressMs)
    {
      isAnimating := false;
    }

    /** `getAnimatedPosition` up to the coordinates: no marker unless at
      least two nodes are revealed while animating, otherwise the segment
      of the path the marker is on and the two nodes at its ends, if both
      are found among the nodes. */
    function AnimatedSegment(nodes: seq<Node>): (r: Option<(Segment, Node, Node)>)
      reads this
      requires Valid()
      ensures r.Some? ==> |animationPath| >= 2 && isAnimating
      ensures r.Some? ==> var (s, a, b) := r.value;
                          s.index + 1 < |path| && a.id == path[s.index] && b.id == path[s.index + 1] &&
                          a in nodes && b in nodes
      ensures r.Some? ==> |path| >= 2 && r.value.0 == SegmentAt(progressMs, |path|)
      ensures r.Some? ==> r.value.1 == FindNode(nodes, path[r.value.0.index]).value &&
                          r.value.2 == FindNode(nodes, path[r.value.0.index + 1]).value
      ensures |animationPath| >= 2 && isAnimating && (forall id :: id in path ==> FindNode(nodes, id).Some?) ==> r.Some?
    {
      if |animationPath| < 2 || !isAnimating then None
      else
        var s := SegmentAt(progressMs, |path|);
        var source := FindNode(nodes, path[s.index]);
        var target := FindNode(nodes, path[s.index + 1]);
        if source.None? || target.None? then None
        else Some((s, source.value, target.value))
    }
  }
}
