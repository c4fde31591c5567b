/**
 Keyframe animation: the samplers and channels loadAnimations reads, the
 clock updateAnimation advances, and the linear interpolation it writes into
 the targeted nodes' translation, rotation and scale.

 Times and keyframe values are `real`: the float rounding of the source is
 not modelled. `glm::slerp` and `glm::normalize` on quaternions are
 parameters, so nothing is assumed about them.
 */
module Animations {
  import opened GltfTypes
  import opened Scene

  /** std::numeric_limits<float>::max(), the initial `start` of an animation. */
  const FltMax: real := 340282346638528859811704183484516925440.0
  /** std::numeric_limits<float>::min() = 2^-126, the smallest positive normal float
      and the initial `end` of an animation. */
  const FltMin: real := 1.0 / 85070591730234615865843651857942052864.0

  datatype Sampler = Sampler(interpolation: string, inputs: seq<real>, outputsVec4: seq<Vec4>)

  /** `node` is None where the source holds a null `Node*`. */
  datatype Channel = Channel(path: string, node: Option<nat>, samplerIndex: uint32)

  datatype Animation = Animation(
    name: string,
    samplers: seq<Sampler>,
    channels: seq<Channel>,
    start: real,
    end: real,
    currentTime: real)

  // ---------------------------------------------------------------------------
  // Loading

  /** The keyframe-value accessor of a glTF sampler, by element type. */
  datatype OutputAccessor = Vec3Output(vec3s: seq<Vec3>) | Vec4Output(vec4s: seq<Vec4>) | OtherOutput

  datatype InputSampler = InputSampler(interpolation: string, input: seq<real>, output: OutputAccessor)

  /** A glTF channel: target path, sampler index and target node index (-1 when absent). */
  datatype InputChannel = InputChannel(targetPath: string, sampler: int, targetNode: int)

  datatype InputAnimation = InputAnimation(name: string, samplers: seq<InputSampler>, channels: seq<InputChannel>)

  /** The keyframe values as stored: a VEC3 value widened with w = 0, a VEC4 value as is,
      nothing for any other element type. */
  function OutputsVec4(output: OutputAccessor): (r: seq<Vec4>)
    ensures output.Vec3Output? ==>
              |r| == |output.vec3s| && forall k :: 0 <= k < |r| ==> Truncate(r[k]) == output.vec3s[k] && r[k].w == 0.0
    ensures output.Vec4Output? ==> r == output.vec4s
    ensures output.OtherOutput? ==> r == []
  {
    match output
    case Vec3Output(vs) => seq(|vs|, k requires 0 <= k < |vs| => Extend(vs[k], 0.0))
    case Vec4Output(vs) => vs
    case OtherOutput => []
  }

  /** The push_back loops over the output accessor. */
  method ReadOutputs(output: OutputAccessor) returns (values: seq<Vec4>)
    ensures values == OutputsVec4(output)
  {
    values := [];
    match output {
      case Vec3Output(vs) =>
        for k := 0 to |vs|
          invariant |values| == k
          invariant forall j :: 0 <= j < k ==> values[j] == Extend(vs[j], 0.0)
        {
          values := values + [Extend(vs[k], 0.0)];
        }
      case Vec4Output(vs) =>
        for k := 0 to |vs|
          invariant values == vs[..k]
        {
          values := values + [vs[k]];
        }
      case OtherOutput =>
    }
  }

  /** The running minimum of `if (input < start) start = input;` over `xs`. */
  function Lowest(init: real, xs: seq<real>): (r: real)
    ensures r <= init && forall k :: 0 <= k < |xs| ==> r <= xs[k]
    ensures r == init || exists k :: 0 <= k < |xs| && r == xs[k]
    decreases |xs|
  {
    if xs == [] then init
    else
      var r := Lowest(if xs[0] < init then xs[0] else init, xs[1..]);
      assert forall k :: 1 <= k < |xs| ==> xs[1..][k - 1] == xs[k];
      r
  }

  /** The running maximum of `if (input > end) end = input;` over `xs`. */
  function Highest(init: real, xs: seq<real>): (r: real)
    ensures init <= r && forall k :: 0 <= k < |xs| ==> xs[k] <= r
    ensures r == init || exists k :: 0 <= k < |xs| && r == xs[k]
    decreases |xs|
  {
    if xs == [] then init
    else
      var r := Highest(if xs[0] > init then xs[0] else init, xs[1..]);
      assert forall k :: 1 <= k < |xs| ==> xs[1..][k - 1] == xs[k];
      r
  }

  /** Running over two lists one after the other is running over their concatenation. */
  lemma {:induction false} BoundsAppend(lo: real, hi: real, a: seq<real>, b: seq<real>)
    ensures Lowest(lo, a + b) == Lowest(Lowest(lo, a), b)
    ensures Highest(hi, a + b) == Highest(Highest(hi, a), b)
    decreases |a|
  {
    if a == [] {
      assert a + b == b;
    } else {
      assert (a + b)[0] == a[0];
      assert (a + b)[1..] == a[1..] + b;
      BoundsAppend(if a[0] < lo then a[0] else lo, if a[0] > hi then a[0] else hi, a[1..], b);
    }
  }

  /** The start/end adjustment loop over one sampler's input times. */
  method AdjustBounds(start: real, end: real, inputs: seq<real>) returns (lo: real, hi: real)
    ensures lo == Lowest(start, inputs) && hi == Highest(end, inputs)
  {
    lo, hi := start, end;
    for k := 0 to |inputs|
      invariant Lowest(start, inputs) == Lowest(lo, inputs[k..])
      invariant Highest(end, inputs) == Highest(hi, inputs[k..])
    {
      assert inputs[k..][0] == inputs[k] && inputs[k..][1..] == inputs[k + 1..];
      if inputs[k] < lo {
        lo := inputs[k];
      }
      if inputs[k] > hi {
        hi := inputs[k];
      }
    }
    assert inputs[|inputs|..] == [];
  }

  /** Every input time of the samplers, sampler after sampler. */
  function AllInputs(samplers: seq<InputSampler>): seq<real>
  {
    if samplers == [] then [] else AllInputs(samplers[..|samplers| - 1]) + samplers[|samplers| - 1].input
  }

  /** A glTF sampler as loadAnimations stores it. */
  function LoadedSampler(s: InputSampler): Sampler
  {
    Sampler(s.interpolation, s.input, OutputsVec4(s.output))
  }

  /** One iteration of the sampler loop: the sampler as stored, and the animation's bounds
      widened by its input times. */
  method LoadSampler(s: InputSampler, start: real, end: real) returns (loaded: Sampler, lo: real, hi: real)
    ensures loaded == LoadedSampler(s)
    ensures lo == Lowest(start, s.input) && hi == Highest(end, s.input)
  {
    lo, hi := AdjustBounds(start, end, s.input);
    var outputs := ReadOutputs(s.output);
    loaded := Sampler(s.interpolation, s.input, outputs);
  }

  /** The sampler loop of loadAnimations for one animation: the samplers as stored, and the
      animation's start and end widened from their initial values `start0` and `end0`
      (FLT_MAX and FLT_MIN for a fresh animation). */
  method LoadSamplers(input: seq<InputSampler>, start0: real, end0: real)
    returns (samplers: seq<Sampler>, start: real, end: real)
    ensures |samplers| == |input|
    ensures forall j :: 0 <= j < |input| ==> samplers[j] == LoadedSampler(input[j])
    ensures start == Lowest(start0, AllInputs(input)) && end == Highest(end0, AllInputs(input))
  {
    samplers, start, end := [], start0, end0;
    for j := 0 to |input|
      invariant samplers == seq(j, i requires 0 <= i < j => LoadedSampler(input[i]))
      invariant start == Lowest(start0, AllInputs(input[..j]))
      invariant end == Highest(end0, AllInputs(input[..j]))
    {
      var loaded;
      loaded, start, end := LoadSampler(input[j], start, end);
      BoundsStep(input, j, start0, end0);
      LoadedPrefixStep(input, j);
      samplers := samplers + [loaded];
    }
    assert input[..|input|] == input;
  }

  /** The stored samplers of the first j + 1 input samplers extend those of the first j. */
  lemma LoadedPrefixStep(input: seq<InputSampler>, j: nat)
    requires j < |input|
    ensures seq(j + 1, i requires 0 <= i < j + 1 => LoadedSampler(input[i]))
            == seq(j, i requires 0 <= i < j => LoadedSampler(input[i])) + [LoadedSampler(input[j])]
  {
  }

  /** One more sampler continues the running bounds from where the earlier samplers left them. */
  lemma BoundsStep(input: seq<InputSampler>, j: nat, lo: real, hi: real)
    requires j < |input|
    ensures Lowest(lo, AllInputs(input[..j + 1])) == Lowest(Lowest(lo, AllInputs(input[..j])), input[j].input)
    ensures Highest(hi, AllInputs(input[..j + 1])) == Highest(Highest(hi, AllInputs(input[..j])), input[j].input)
  {
    assert input[..j + 1][..j] == input[..j];
    assert AllInputs(input[..j + 1]) == AllInputs(input[..j]) + input[j].input;
    BoundsAppend(lo, hi, AllInputs(input[..j]), input[j].input);
  }

  /** The animation bounds cover every keyframe time; `end` never drops below FLT_MIN, so a
      clip whose keyframes are all at time 0 or earlier still has a positive end. */
  lemma BoundsCoverKeyframes(input: seq<InputSampler>, j: nat, k: nat)
    requires j < |input| && k < |input[j].input|
    ensures Lowest(FltMax, AllInputs(input)) <= input[j].input[k] <= Highest(FltMin, AllInputs(input))
    ensures FltMin <= Highest(FltMin, AllInputs(input))
  {
    InputsContain(input, j, k);
  }

  lemma {:induction false} InputsContain(input: seq<InputSampler>, j: nat, k: nat)
    requires j < |input| && k < |input[j].input|
    ensures input[j].input[k] in AllInputs(input)
    decreases |input|
  {
    var last := |input| - 1;
    assert AllInputs(input) == AllInputs(input[..last]) + input[last].input;
    if j == last {
      assert AllInputs(input)[|AllInputs(input[..last])| + k] == input[j].input[k];
    } else {
      assert input[..last][j] == input[j];
      InputsContain(input[..last], j, k);
    }
  }

  // ---------------------------------------------------------------------------
  // The clock

  /** `currentTime += deltaTime; if (currentTime > end) currentTime -= end;` */
  function AdvanceClock(current: real, dt: real, end: real): real
  {
    if current + dt > end then current + dt - end else current + dt
  }

  /** A step no longer than the clip keeps the clock inside [0, end]. */
  lemma ClockStaysInClip(current: real, dt: real, end: real)
    requires 0.0 <= current <= end && 0.0 <= dt <= end
    ensures 0.0 <= AdvanceClock(current, dt, end) <= end
  {
  }

  /** The wrap subtracts `end` once, it is not a modulo: a step longer than the rest of the
      clip plus a whole clip leaves the clock past the end. */
  lemma ClockWrapsOnce(current: real, dt: real, end: real)
    requires 0.0 <= end && current + dt > 2.0 * end
    ensures AdvanceClock(current, dt, end) > end
  {
  }

  // ---------------------------------------------------------------------------
  // Interpolation

  predicate StrictlyIncreasing(xs: seq<real>)
  {
    forall i :: 0 <= i && i + 1 < |xs| ==> xs[i] < xs[i + 1]
  }

  lemma {:induction false} IncreasingIsMonotone(xs: seq<real>, i: nat, j: nat)
    requires StrictlyIncreasing(xs) && i < j < |xs|
    ensures xs[i] < xs[j]
    decreases j - i
  {
    if i + 1 < j {
      IncreasingIsMonotone(xs, i + 1, j);
    }
  }

  /** Keyframe interval i holds time t. */
  predicate InBracket(inputs: seq<real>, i: nat, t: real)
    requires i + 1 < |inputs|
  {
    inputs[i] <= t <= inputs[i + 1]
  }

  /** The last interval below `n` holding t: the one whose write survives the loop. */
  function LastBracketBelow(inputs: seq<real>, t: real, n: nat): (r: Option<nat>)
    requires n < |inputs|
    ensures r.Some? ==> r.value < n && InBracket(inputs, r.value, t)
                        && forall j :: r.value < j < n ==> !InBracket(inputs, j, t)
    ensures r.None? ==> forall j :: 0 <= j < n ==> !InBracket(inputs, j, t)
  {
    if n == 0 then None
    else if InBracket(inputs, n - 1, t) then Some(n - 1)
    else LastBracketBelow(inputs, t, n - 1)
  }

  /** The interpolation factor of interval i at time t. */
  function Fraction(inputs: seq<real>, i: nat, t: real): real
    requires i + 1 < |inputs| && inputs[i] < inputs[i + 1]
  {
    (t - inputs[i]) / (inputs[i + 1] - inputs[i])
  }

  /** Inside its interval the factor lies in [0, 1], 0 at the interval's start and 1 at its end. */
  lemma FractionInUnit(inputs: seq<real>, i: nat, t: real)
    requires i + 1 < |inputs| && inputs[i] < inputs[i + 1] && InBracket(inputs, i, t)
    ensures 0.0 <= Fraction(inputs, i, t) <= 1.0
    ensures t == inputs[i] ==> Fraction(inputs, i, t) == 0.0
    ensures t == inputs[i + 1] ==> Fraction(inputs, i, t) == 1.0
  {
    QuotientBounds(t - inputs[i], inputs[i + 1] - inputs[i]);
  }

  /** x / d for a positive d: in [0, 1] when x is in [0, d], 0 at 0 and 1 at d. */
  lemma QuotientBounds(x: real, d: real)
    requires 0.0 < d
    ensures 0.0 <= x ==> 0.0 <= x / d
    ensures x <= d ==> x / d <= 1.0
    ensures x == 0.0 ==> x / d == 0.0
    ensures x == d ==> x / d == 1.0
  {
    var a := x / d;
    assert a * d == x;
    ProductBounds(a, d);
  }

  /** A factor a of a product with a positive d, bounded through the product. */
  lemma ProductBounds(a: real, d: real)
    requires 0.0 < d
    ensures a * d >= 0.0 ==> a >= 0.0
    ensures a * d <= d ==> a <= 1.0
    ensures a * d == 0.0 ==> a == 0.0
    ensures a * d == d ==> a == 1.0
  {
    if a < 0.0 {
      assert (-a) * d > 0.0;
    }
    if a > 0.0 {
      assert a * d > 0.0;
    }
    if a > 1.0 {
      assert (a - 1.0) * d > 0.0;
    }
    if a < 1.0 {
      assert (1.0 - a) * d > 0.0;
    }
  }

  /** What one matching iteration writes into the node: the path's field, from keyframes
      i and i + 1 mixed at a. Any other path writes nothing. */
  function WriteKeyframe(node: Node, path: string, s: Sampler, i: nat, a: real,
                         slerp: (Quat, Quat, real) -> Quat, normalize: Quat -> Quat): Node
    requires i + 1 < |s.outputsVec4|
  {
    var v1, v2 := s.outputsVec4[i], s.outputsVec4[i + 1];
    if path == "translation" then node.(translation := Truncate(Mix4(v1, v2, a)))
    else if path == "rotation" then node.(rotation := normalize(slerp(QuatOf(v1), QuatOf(v2), a)))
    else if path == "scale" then node.(scale := Truncate(Mix4(v1, v2, a)))
    else node
  }

  /** What updateAnimation demands of a sampler a channel uses: at least one keyframe (the
      loop bound `inputs.size() - 1` is unsigned), and for LINEAR sampling increasing times
      (a zero-length interval would divide by zero) and a value for every time. */
  predicate SamplerReady(s: Sampler)
  {
    && |s.inputs| >= 1
    && (s.interpolation == "LINEAR" ==> StrictlyIncreasing(s.inputs) && |s.outputsVec4| >= |s.inputs|)
  }

  /** The node fields animation never touches. */
  predicate SameStructure(a: Node, b: Node)
  {
    a.parent == b.parent && a.children == b.children && a.mesh == b.mesh
    && a.index == b.index && a.matrix == b.matrix
  }

  /** The node after the keyframe loop of one channel at time t: non-LINEAR samplers and
      times outside every interval leave it as it is; otherwise the last interval holding t
      decides the channel's field. */
  function ChannelTarget(node: Node, path: string, s: Sampler, t: real,
                         slerp: (Quat, Quat, real) -> Quat, normalize: Quat -> Quat): (r: Node)
    requires SamplerReady(s)
    ensures s.interpolation != "LINEAR" || |s.inputs| == 1 ==> r == node
    ensures SameStructure(r, node)
    ensures path != "translation" ==> r.translation == node.translation
    ensures path != "rotation" ==> r.rotation == node.rotation
    ensures path != "scale" ==> r.scale == node.scale
  {
    TargetAfter(node, path, s, t, |s.inputs| - 1, slerp, normalize)
  }

  /** The node after the first n iterations of the keyframe loop. */
  function TargetAfter(node: Node, path: string, s: Sampler, t: real, n: nat,
                       slerp: (Quat, Quat, real) -> Quat, normalize: Quat -> Quat): Node
    requires SamplerReady(s) && n < |s.inputs|
  {
    if s.interpolation != "LINEAR" then node
    else match LastBracketBelow(s.inputs, t, n)
      case None => node
      case Some(i) => WriteKeyframe(node, path, s, i, Fraction(s.inputs, i, t), slerp, normalize)
  }

  /** The inner loop of updateAnimation for one channel. */
  method ApplyChannel(node: Node, path: string, s: Sampler, t: real,
                      slerp: (Quat, Quat, real) -> Quat, normalize: Quat -> Quat) returns (n: Node)
    requires SamplerReady(s)
    ensures n == ChannelTarget(node, path, s, t, slerp, normalize)
  {
    n := node;
    for i := 0 to |s.inputs| - 1
      invariant n == TargetAfter(node, path, s, t, i, slerp, normalize)
    {
      if s.interpolation != "LINEAR" {
        continue;
      }
      if s.inputs[i] <= t && t <= s.inputs[i + 1] {
        var a := (t - s.inputs[i]) / (s.inputs[i + 1] - s.inputs[i]);
        n := WriteKeyframe(n, path, s, i, a, slerp, normalize);
      }
    }
  }

  /** At a keyframe's own time a LINEAR translation or scale channel reproduces that
      keyframe's value exactly. */
  lemma {:induction false} KeyframeReproduced(node: Node, path: string, s: Sampler, k: nat,
                                              slerp: (Quat, Quat, real) -> Quat, normalize: Quat -> Quat)
    requires SamplerReady(s) && s.interpolation == "LINEAR" && 2 <= |s.inputs| && k < |s.inputs|
    requires path == "translation" || path == "scale"
    ensures var r := ChannelTarget(node, path, s, s.inputs[k], slerp, normalize);
            (if path == "translation" then r.translation else r.scale) == Truncate(s.outputsVec4[k])
  {
    var t := s.inputs[k];
    var n := |s.inputs| - 1;
    if k < n {
      assert InBracket(s.inputs, k, t);
    } else {
      assert InBracket(s.inputs, k - 1, t);
    }
    var b := LastBracketBelow(s.inputs, t, n);
    var i := b.value;
    // the interval that survives is k (a = 0) or, for the last keyframe, k - 1 (a = 1)
    if k < i {
      IncreasingIsMonotone(s.inputs, k, i);
      assert false;
    }
    FractionInUnit(s.inputs, i, t);
    var v1, v2 := s.outputsVec4[i], s.outputsVec4[i + 1];
    MixBounds(v1.x, v2.x, 0.0); MixBounds(v1.y, v2.y, 0.0); MixBounds(v1.z, v2.z, 0.0);
    MixBounds(v1.x, v2.x, 1.0); MixBounds(v1.y, v2.y, 1.0); MixBounds(v1.z, v2.z, 1.0);
  }

  /** Each coordinate of v lies between the same coordinates of the keyframe values u and w,
      in whichever order they come. */
  predicate BetweenKeyframes(v: Vec3, u: Vec4, w: Vec4)
  {
    && Min(u.x, w.x) <= v.x <= Max(u.x, w.x)
    && Min(u.y, w.y) <= v.y <= Max(u.y, w.y)
    && Min(u.z, w.z) <= v.z <= Max(u.z, w.z)
  }

  /** Strictly between two key times a LINEAR translation or scale channel puts every
      coordinate between the two keyframe values. */
  lemma ValueBetweenKeyframes(node: Node, path: string, s: Sampler, i: nat, t: real,
                              slerp: (Quat, Quat, real) -> Quat, normalize: Quat -> Quat)
    requires SamplerReady(s) && s.interpolation == "LINEAR" && i + 1 < |s.inputs|
    requires s.inputs[i] < t < s.inputs[i + 1]
    requires path == "translation" || path == "scale"
    ensures var r := ChannelTarget(node, path, s, t, slerp, normalize);
            BetweenKeyframes(if path == "translation" then r.translation else r.scale,
                             s.outputsVec4[i], s.outputsVec4[i + 1])
  {
    var n := |s.inputs| - 1;
    assert InBracket(s.inputs, i, t);
    var j := LastBracketBelow(s.inputs, t, n).value;
    if i < j {
      IncreasingIsMonotone(s.inputs, i + 1, j);
      assert false;
    }
    FractionInUnit(s.inputs, i, t);
    var v1, v2, a := s.outputsVec4[i], s.outputsVec4[i + 1], Fraction(s.inputs, i, t);
    MixBounds(v1.x, v2.x, a); MixBounds(v1.y, v2.y, a); MixBounds(v1.z, v2.z, a);
  }

  /** Halfway between two key times a LINEAR translation or scale channel writes exactly the
      midpoint of the two keyframe values; with two keyframes (i = 0) this is the clip's
      half-time value. */
  lemma MidpointRoundTrip(node: Node, path: string, s: Sampler, i: nat,
                          slerp: (Quat, Quat, real) -> Quat, normalize: Quat -> Quat)
    requires SamplerReady(s) && s.interpolation == "LINEAR" && i + 1 < |s.inputs|
    requires path == "translation" || path == "scale"
    ensures var r := ChannelTarget(node, path, s, (s.inputs[i] + s.inputs[i + 1]) / 2.0, slerp, normalize);
            var u, w := s.outputsVec4[i], s.outputsVec4[i + 1];
            (if path == "translation" then r.translation else r.scale)
              == Vec3((u.x + w.x) / 2.0, (u.y + w.y) / 2.0, (u.z + w.z) / 2.0)
  {
    var t := (s.inputs[i] + s.inputs[i + 1]) / 2.0;
    var n := |s.inputs| - 1;
    assert InBracket(s.inputs, i, t);
    var j := LastBracketBelow(s.inputs, t, n).value;
    if i < j {
      IncreasingIsMonotone(s.inputs, i + 1, j);
      assert false;
    }
    var d := s.inputs[i + 1] - s.inputs[i];
    assert t - s.inputs[i] == d / 2.0 && d > 0.0;
    assert (d / 2.0) / d == 0.5;
  }

  // ---------------------------------------------------------------------------
  // All channels of one animation

  /** What the channel loop demands of a channel: its sampler exists and is ready, and a
      LINEAR channel, whose node is written, has a node. */
  predicate ChannelReady(c: Channel, samplers: seq<Sampler>, nodeCount: nat)
  {
    && c.samplerIndex < |samplers|
    && SamplerReady(samplers[c.samplerIndex])
    && (samplers[c.samplerIndex].interpolation == "LINEAR" ==> c.node.Some? && c.node.value < nodeCount)
  }

  /** What updateAnimation demands of the active clip: every channel is ready. */
  predicate AnimationReady(a: Animation, nodeCount: nat)
  {
    forall c :: c in a.channels ==> ChannelReady(c, a.samplers, nodeCount)
  }

  /** One channel applied to the nodes: only a LINEAR channel writes, and only into its target node. */
  function ChannelStep(arena: seq<Node>, samplers: seq<Sampler>, c: Channel, t: real,
                       slerp: (Quat, Quat, real) -> Quat, normalize: Quat -> Quat): (r: seq<Node>)
    requires ChannelReady(c, samplers, |arena|)
    ensures |r| == |arena|
    ensures forall k :: 0 <= k < |r| ==> SameStructure(r[k], arena[k])
    ensures forall k :: 0 <= k < |r| && c.node != Some(k) ==> r[k] == arena[k]
    ensures samplers[c.samplerIndex].interpolation != "LINEAR" ==> r == arena
  {
    var s := samplers[c.samplerIndex];
    if s.interpolation != "LINEAR" then arena
    else arena[c.node.value := ChannelTarget(arena[c.node.value], c.path, s, t, slerp, normalize)]
  }

  /** The arena after the channels, applied in order, at time t. Only the translation,
      rotation and scale of targeted nodes change. */
  function AnimateNodes(arena: seq<Node>, samplers: seq<Sampler>, channels: seq<Channel>, t: real,
                        slerp: (Quat, Quat, real) -> Quat, normalize: Quat -> Quat): (r: seq<Node>)
    requires forall c :: c in channels ==> ChannelReady(c, samplers, |arena|)
    ensures |r| == |arena|
    ensures forall k :: 0 <= k < |r| ==> SameStructure(r[k], arena[k])
    ensures forall k :: 0 <= k < |r| && (forall c :: c in channels ==> c.node != Some(k)) ==> r[k] == arena[k]
    decreases |channels|
  {
    if channels == [] then arena
    else
      assert channels[0] in channels;
      var next := ChannelStep(arena, samplers, channels[0], t, slerp, normalize);
      assert forall c' :: c' in channels[1..] ==> c' in channels;
      AnimateNodes(next, samplers, channels[1..], t, slerp, normalize)
  }

  /** The channel loop of updateAnimation over the arena, channel after channel. */
  method AnimateChannels(arena0: seq<Node>, samplers: seq<Sampler>, channels: seq<Channel>, t: real,
                         slerp: (Quat, Quat, real) -> Quat, normalize: Quat -> Quat)
    returns (arena: seq<Node>)
    requires forall c :: c in channels ==> ChannelReady(c, samplers, |arena0|)
    ensures arena == AnimateNodes(arena0, samplers, channels, t, slerp, normalize)
  {
    arena := arena0;
    for j := 0 to |channels|
      invariant |arena| == |arena0|
      invariant AnimateNodes(arena, samplers, channels[j..], t, slerp, normalize)
                == AnimateNodes(arena0, samplers, channels, t, slerp, normalize)
    {
      var c := channels[j];
      assert c in channels && channels[j..][0] == c && channels[j..][1..] == channels[j + 1..];
      var s := samplers[c.samplerIndex];
      if s.interpolation == "LINEAR" {
        var n := ApplyChannel(arena[c.node.value], c.path, s, t, slerp, normalize);
        arena := arena[c.node.value := n];
      }
    }
    assert channels[|channels|..] == [];
  }

  /** Animation keeps the tree: the arena stays valid, so world matrices stay defined. */
  lemma AnimationKeepsTree(arena: seq<Node>, samplers: seq<Sampler>, channels: seq<Channel>, t: real,
                           slerp: (Quat, Quat, real) -> Quat, normalize: Quat -> Quat)
    requires ValidArena(arena)
    requires forall c :: c in channels ==> ChannelReady(c, samplers, |arena|)
    ensures ValidArena(AnimateNodes(arena, samplers, channels, t, slerp, normalize))
  {
    var r := AnimateNodes(arena, samplers, channels, t, slerp, normalize);
    forall i | 0 <= i < |r|
      ensures NodeLinked(r, i)
    {
      assert NodeLinked(arena, i);
      forall k | 0 <= k < |r[i].children|
        ensures r[r[i].children[k]].parent == Some(i)
      {
        assert SameStructure(r[arena[i].children[k]], arena[arena[i].children[k]]);
      }
    }
  }

  // ---------------------------------------------------------------------------
  // Which animation runs

  /** The guard `activeAnimation > static_cast<uint32_t>(animations.size()) - 1` as written:
      the subtraction is in uint32 arithmetic. True means "no such animation". */
  function GuardAsWritten(active: uint32, count: nat): bool
  {
    active > ToUint32(ToUint32(count) - 1)
  }

  /** The intended guard: the active index is not a position of the list. */
  function GuardCorrected(active: uint32, count: nat): bool
  {
    active >= count
  }

  /** With no animations, `0 - 1` wraps to 4294967295 and the guard lets index 0 through,
      to read `animations[0]` of an empty list; the corrected guard stops it. */
  lemma GuardAsWrittenAdmitsEmpty()
    ensures !GuardAsWritten(0, 0)
    ensures GuardCorrected(0, 0)
  {
  }

  /** For a non-empty list (of fewer than 2^32 animations) the two guards agree. */
  lemma GuardsAgreeWhenNonEmpty(active: uint32, count: nat)
    requires 0 < count < Two32
    ensures GuardAsWritten(active, count) == GuardCorrected(active, count)
  {
  }
}
