/**
 * The graphics pipeline context: which stages are active, how a stage finds
 * its neighbours, the per-stage shader hash, and the user-data merging for
 * the stages the hardware fuses (vertex with tessellation control, and the
 * export stage with geometry). The model assumes a build with GFX9 support,
 * which enables the off-chip override and the merging.
 */
module GraphicsContext {
  import opened Common
  import opened ResourceNodes
  import opened PipelineInfo
  import opened NodeMerge
  import opened HashTokens

  /**
   * The active stages of a pipeline: every graphics stage with module data,
   * and the copy shader exactly when there is a geometry shader.
   */
  function ActiveStages(p: GraphicsPipelineBuildInfo): (mask: set<ShaderStage>)
    ensures forall s :: s in mask ==> IsGraphics(s) || s == CopyShader
  {
    (set s | s in GraphicsStages && HasModule(p, s)) + (if HasModule(p, Geometry) then {CopyShader} else {})
  }

  /**
   * The mask after the loop has visited the first `n` graphics stages: the
   * visited stages with module data, and the copy shader once geometry has
   * been visited with module data.
   */
  ghost function ActiveBelow(p: GraphicsPipelineBuildInfo, n: nat): set<ShaderStage>
    requires n <= ShaderStageGfxCount
  {
    if n == 0 then {}
    else
      var s := GraphicsStage(n - 1);
      ActiveBelow(p, n - 1) + (if HasModule(p, s) then {s} else {})
      + (if s == Geometry && HasModule(p, s) then {CopyShader} else {})
  }

  lemma {:induction false} ActiveBelowMembers(p: GraphicsPipelineBuildInfo, n: nat)
    requires n <= ShaderStageGfxCount
    ensures forall s :: s in ActiveBelow(p, n) <==>
      (IsGraphics(s) && StageIndex(s) < n && HasModule(p, s))
      || (s == CopyShader && StageIndex(Geometry) < n && HasModule(p, Geometry))
  {
    if n > 0 {
      ActiveBelowMembers(p, n - 1);
      forall s ensures s in ActiveBelow(p, n) <==>
        (IsGraphics(s) && StageIndex(s) < n && HasModule(p, s))
        || (s == CopyShader && StageIndex(Geometry) < n && HasModule(p, Geometry))
      {
        if IsGraphics(s) && StageIndex(s) == n - 1 {
          GraphicsStageOfIndex(s);
        }
      }
    }
  }

  /** The stage visited next is not yet in the mask, nor is the copy shader before geometry is visited. */
  lemma ActiveBelowFresh(p: GraphicsPipelineBuildInfo, n: nat)
    requires n < ShaderStageGfxCount
    ensures GraphicsStage(n) !in ActiveBelow(p, n)
    ensures n <= StageIndex(Geometry) ==> CopyShader !in ActiveBelow(p, n)
  {
    ActiveBelowMembers(p, n);
  }

  /** One visit of the loop: the mask grows by the stage, and by the copy shader at geometry, each new. */
  lemma ActiveBelowStep(p: GraphicsPipelineBuildInfo, n: nat)
    requires n < ShaderStageGfxCount
    ensures var s := GraphicsStage(n);
      ActiveBelow(p, n + 1) ==
        ActiveBelow(p, n) + (if HasModule(p, s) then {s} else {})
        + (if s == Geometry && HasModule(p, s) then {CopyShader} else {})
    ensures var s := GraphicsStage(n);
      |ActiveBelow(p, n + 1)| ==
        |ActiveBelow(p, n)| + (if HasModule(p, s) then (if s == Geometry then 2 else 1) else 0)
  {
    var s := GraphicsStage(n);
    ActiveBelowFresh(p, n);
    GrowBy(ActiveBelow(p, n), s, HasModule(p, s), s == Geometry);
  }

  lemma GrowBy(below: set<ShaderStage>, s: ShaderStage, add: bool, geometry: bool)
    requires s !in below && s != CopyShader
    requires geometry ==> CopyShader !in below
    ensures |below + (if add then {s} else {}) + (if geometry && add then {CopyShader} else {})| ==
      |below| + (if add then (if geometry then 2 else 1) else 0)
  {
    if add {
      assert |below + {s}| == |below| + 1;
      if geometry {
        assert CopyShader !in below + {s};
        assert |below + {s} + {CopyShader}| == |below + {s}| + 1;
      } else {
        assert below + {s} + {} == below + {s};
      }
    } else {
      assert below + {} + {} == below;
    }
  }

  lemma ActiveStagesIsActiveBelow(p: GraphicsPipelineBuildInfo)
    ensures ActiveBelow(p, ShaderStageGfxCount) == ActiveStages(p)
    ensures forall s :: s in ActiveStages(p) <==>
      (IsGraphics(s) && HasModule(p, s)) || (s == CopyShader && HasModule(p, Geometry))
  {
    ActiveBelowMembers(p, ShaderStageGfxCount);
    assert forall s :: s in GraphicsStages <==> IsGraphics(s);
  }

  /**
   * The constructor's loop over the five graphics stages: each stage with
   * module data sets its bit and counts once, and geometry also sets and
   * counts the copy-shader bit.
   */
  method ComputeStageMask(p: GraphicsPipelineBuildInfo) returns (mask: set<ShaderStage>, count: nat)
    ensures forall s :: s in mask <==> (IsGraphics(s) && HasModule(p, s)) || (s == CopyShader && HasModule(p, Geometry))
    ensures mask == ActiveStages(p)
    ensures count == |mask|
  {
    mask := {};
    count := 0;
    var stage := 0;
    while stage < ShaderStageGfxCount
      invariant 0 <= stage <= ShaderStageGfxCount
      invariant mask == ActiveBelow(p, stage)
      invariant count == |mask|
    {
      mask, count := VisitStage(p, stage, mask, count);
      stage := stage + 1;
    }
    ActiveStagesIsActiveBelow(p);
  }

  /** One iteration of the constructor's loop: the visited stage's bits are set and counted. */
  method VisitStage(p: GraphicsPipelineBuildInfo, stage: nat, mask: set<ShaderStage>, count: nat)
    returns (mask': set<ShaderStage>, count': nat)
    requires stage < ShaderStageGfxCount && mask == ActiveBelow(p, stage) && count == |mask|
    ensures mask' == ActiveBelow(p, stage + 1) && count' == |mask'|
  {
    var s := GraphicsStage(stage);
    ActiveBelowStep(p, stage);
    mask', count' := mask, count;
    if HasModule(p, s) {
      mask' := mask' + {s};
      count' := count' + 1;
      if s == Geometry {
        mask' := mask' + {CopyShader};
        count' := count' + 1;
      }
    }
  }

  /** The state a graphics context keeps about its pipeline. */
  datatype Context = Context(
    pipeline: GraphicsPipelineBuildInfo,
    stageMask: set<ShaderStage>,
    activeStageCount: nat,
    tessOffchip: bool)

  /**
   * The constructor: the stage mask and count from the loop above, and
   * tessellation off-chip mode from the option, forced on for GFX9 and later.
   */
  method NewContext(p: GraphicsPipelineBuildInfo, gfxMajor: nat, enableTessOffChip: bool) returns (c: Context)
    ensures c.pipeline == p
    ensures c.stageMask == ActiveStages(p) && c.activeStageCount == |c.stageMask|
    ensures c.tessOffchip <==> enableTessOffChip || gfxMajor >= 9
  {
    var mask, count := ComputeStageMask(p);
    c := Context(p, mask, count, enableTessOffChip || gfxMajor >= 9);
  }

  /** The copy shader is treated as part of the geometry stage. */
  function AsGraphicsStage(stage: ShaderStage): ShaderStage
  {
    if stage == CopyShader then Geometry else stage
  }

  /**
   * The slot of the per-stage resource-usage and interface-data records a
   * stage uses: its own, or geometry's for the copy shader; any other
   * non-graphics stage violates the assertion.
   */
  function StageSlot(stage: ShaderStage): (r: Checked<nat>)
    ensures r.Ok? <==> IsGraphics(stage) || stage == CopyShader
    ensures r.Ok? ==> r.value < ShaderStageGfxCount
  {
    var s := AsGraphicsStage(stage);
    if IsGraphics(s) then Ok(StageIndex(s)) else AssertFails("stage is not a graphics stage")
  }

  /**
   * The copy shader shares geometry's records, and otherwise every graphics
   * stage owns a record of its own.
   */
  lemma StageSlotsShared(a: ShaderStage, b: ShaderStage)
    requires StageSlot(a).Ok? && StageSlot(b).Ok?
    ensures StageSlot(a) == StageSlot(b) <==> AsGraphicsStage(a) == AsGraphicsStage(b)
    ensures StageSlot(CopyShader) == StageSlot(Geometry)
  {
  }

  /** Walk down from graphics index `i` (exclusive) to the nearest active graphics stage. */
  function ScanDown(mask: set<ShaderStage>, i: nat): (r: ShaderStage)
    requires i <= ShaderStageGfxCount
    ensures r == Invalid <==> forall j :: 0 <= j < i ==> GraphicsStage(j) !in mask
    ensures r != Invalid ==>
      && IsGraphics(r) && r in mask && StageIndex(r) < i
      && forall j :: StageIndex(r) < j < i ==> GraphicsStage(j) !in mask
  {
    if i == 0 then Invalid
    else if GraphicsStage(i - 1) in mask then GraphicsStage(i - 1)
    else ScanDown(mask, i - 1)
  }

  /** Walk up from graphics index `i` (exclusive) to the nearest active graphics stage. */
  function ScanUp(mask: set<ShaderStage>, i: nat): (r: ShaderStage)
    requires i < ShaderStageGfxCount
    ensures r == Invalid <==> forall j :: i < j < ShaderStageGfxCount ==> GraphicsStage(j) !in mask
    ensures r != Invalid ==>
      && IsGraphics(r) && r in mask && i < StageIndex(r)
      && forall j :: i < j < StageIndex(r) ==> GraphicsStage(j) !in mask
    decreases ShaderStageGfxCount - i
  {
    if i + 1 == ShaderStageGfxCount then Invalid
    else if GraphicsStage(i + 1) in mask then GraphicsStage(i + 1)
    else ScanUp(mask, i + 1)
  }

  /**
   * The previous active stage: the nearest active graphics stage strictly
   * below the given one (the copy shader counting as geometry), or Invalid.
   */
  function GetPrevShaderStage(mask: set<ShaderStage>, stage: ShaderStage): (r: Checked<ShaderStage>)
    ensures r.Ok? <==> IsGraphics(stage) || stage == CopyShader
    ensures r.Ok? ==>
      var at := StageIndex(AsGraphicsStage(stage));
      && (r.value == Invalid <==> forall j :: 0 <= j < at ==> GraphicsStage(j) !in mask)
      && (r.value != Invalid ==>
            && IsGraphics(r.value) && r.value in mask && StageIndex(r.value) < at
            && forall j :: StageIndex(r.value) < j < at ==> GraphicsStage(j) !in mask)
  {
    var s := AsGraphicsStage(stage);
    if IsGraphics(s) then Ok(ScanDown(mask, StageIndex(s))) else AssertFails("stage is not a graphics stage")
  }

  /** The next active stage: the nearest active graphics stage strictly above the given one, or Invalid. */
  function GetNextShaderStage(mask: set<ShaderStage>, stage: ShaderStage): (r: Checked<ShaderStage>)
    ensures r.Ok? <==> IsGraphics(stage) || stage == CopyShader
    ensures r.Ok? ==>
      var at := StageIndex(AsGraphicsStage(stage));
      && (r.value == Invalid <==> forall j :: at < j < ShaderStageGfxCount ==> GraphicsStage(j) !in mask)
      && (r.value != Invalid ==>
            && IsGraphics(r.value) && r.value in mask && at < StageIndex(r.value)
            && forall j :: at < j < StageIndex(r.value) ==> GraphicsStage(j) !in mask)
  {
    var s := AsGraphicsStage(stage);
    if IsGraphics(s) then Ok(ScanUp(mask, StageIndex(s))) else AssertFails("stage is not a graphics stage")
  }

  /**
   * Navigation is symmetric: if `b` is the next active stage after an active
   * stage `a`, then `a` is the previous active stage before `b`.
   */
  lemma NextThenPrev(mask: set<ShaderStage>, a: ShaderStage)
    requires IsGraphics(a) && a in mask
    requires GetNextShaderStage(mask, a).Ok? && GetNextShaderStage(mask, a).value != Invalid
    ensures GetPrevShaderStage(mask, GetNextShaderStage(mask, a).value) == Ok(a)
  {
    var b := GetNextShaderStage(mask, a).value;
    GraphicsStageOfIndex(a);
  }

  /**
   * The tokens of the per-stage shader hash: the stage's own fields (hashed by
   * a function given here as `stagePart`), the device index, and one
   * stage-specific extra: the patch control points for tessellation control,
   * the vertex input for the vertex stage when it has both bindings and
   * attributes, and the per-sample-shading flag for the fragment stage when
   * it is set.
   */
  function ShaderHashTokens(stagePart: (ShaderStage, PipelineShaderInfo) -> seq<Token>,
                            p: GraphicsPipelineBuildInfo, stage: ShaderStage): seq<Token>
    requires IsGraphics(stage)
  {
    stagePart(stage, GetPipelineShaderInfo(p, stage)) + [U32(p.ia.deviceIndex)]
    + (if stage == TessControl then [U32(p.ia.patchControlPoints)]
       else if stage == Vertex && p.vertexInput.Some?
               && |p.vertexInput.value.bindings| > 0 && |p.vertexInput.value.attributes| > 0 then
         var vi := p.vertexInput.value;
         [U32(|vi.bindings|), BindingsTok(vi.bindings), U32(|vi.attributes|), AttributesTok(vi.attributes)]
       else if stage == Fragment && p.rs.perSampleShading then [BoolTok(true)]
       else [])
  }

  /** The 64-bit hash of one stage's shader: zero without module data. */
  function GetShaderHashCode(h: Hasher, stagePart: (ShaderStage, PipelineShaderInfo) -> seq<Token>,
                             p: GraphicsPipelineBuildInfo, stage: ShaderStage): (r: Checked<nat>)
    ensures r.Ok? <==> IsGraphics(stage)
    ensures r.Ok? && !HasModule(p, stage) ==> r.value == 0
  {
    if !IsGraphics(stage) then AssertFails("stage is not a graphics stage")
    else if !HasModule(p, stage) then Ok(0)
    else Ok(h.compact64(h.md5(ShaderHashTokens(stagePart, p, stage))))
  }

  /**
   * What the hash of one stage's shader depends on: the stage's own record,
   * the device index, and the one piece of pipeline state that stage adds.
   */
  predicate SameShaderHashInput(p: GraphicsPipelineBuildInfo, q: GraphicsPipelineBuildInfo, stage: ShaderStage)
    requires IsGraphics(stage)
  {
    && GetPipelineShaderInfo(p, stage) == GetPipelineShaderInfo(q, stage)
    && p.ia.deviceIndex == q.ia.deviceIndex
    && (stage == TessControl ==> p.ia.patchControlPoints == q.ia.patchControlPoints)
    && (stage == Vertex ==> ShaderHashedVertexInput(p.vertexInput) == ShaderHashedVertexInput(q.vertexInput))
    && (stage == Fragment ==> p.rs.perSampleShading == q.rs.perSampleShading)
  }

  /** The vertex input as the vertex shader's hash sees it: present only with bindings and attributes. */
  function ShaderHashedVertexInput(o: Option<VertexInputState>): Option<VertexInputState>
  {
    match o
    case Some(s) => if |s.bindings| > 0 && |s.attributes| > 0 then o else None
    case None => None
  }

  /**
   * A stage's shader hash is local to the stage: pipelines that agree on the
   * stage's record, the device index and the stage's extra field give it the
   * same hash, whatever the other stages and the rest of the state are.
   */
  lemma ShaderHashIsLocal(h: Hasher, stagePart: (ShaderStage, PipelineShaderInfo) -> seq<Token>,
                          p: GraphicsPipelineBuildInfo, q: GraphicsPipelineBuildInfo, stage: ShaderStage)
    requires IsGraphics(stage) && SameShaderHashInput(p, q, stage)
    ensures GetShaderHashCode(h, stagePart, p, stage) == GetShaderHashCode(h, stagePart, q, stage)
  {
    assert ShaderHashTokens(stagePart, p, stage) == ShaderHashTokens(stagePart, q, stage);
  }

  /**
   * Past the stage's own tokens, the shader hash input records exactly the
   * device index and the stage's extra field: with the stage's own part alike,
   * two pipelines feed the hash the same tokens exactly when they agree on
   * those, so a change of patch control points, of a hashed vertex input or of
   * the per-sample-shading flag changes what the stage's hash is taken over.
   */
  lemma ShaderHashTokensTrackStageState(stagePart: (ShaderStage, PipelineShaderInfo) -> seq<Token>,
                                        p: GraphicsPipelineBuildInfo, q: GraphicsPipelineBuildInfo, stage: ShaderStage)
    requires IsGraphics(stage)
    requires stagePart(stage, GetPipelineShaderInfo(p, stage)) == stagePart(stage, GetPipelineShaderInfo(q, stage))
    ensures ShaderHashTokens(stagePart, p, stage) == ShaderHashTokens(stagePart, q, stage) <==>
      && p.ia.deviceIndex == q.ia.deviceIndex
      && (stage == TessControl ==> p.ia.patchControlPoints == q.ia.patchControlPoints)
      && (stage == Vertex ==> ShaderHashedVertexInput(p.vertexInput) == ShaderHashedVertexInput(q.vertexInput))
      && (stage == Fragment ==> p.rs.perSampleShading == q.rs.perSampleShading)
  {
    var own := stagePart(stage, GetPipelineShaderInfo(p, stage));
    var tp, tq := ShaderHashTokens(stagePart, p, stage), ShaderHashTokens(stagePart, q, stage);
    if tp == tq {
      var rp, rq := tp[|own|..], tq[|own|..];
      SplitEqual(own, rp, own, rq);
      assert rp[0] == U32(p.ia.deviceIndex) && rq[0] == U32(q.ia.deviceIndex);
      assert rp[1..] == rq[1..];
      if stage == Fragment {
        assert |rp| == (if p.rs.perSampleShading then 2 else 1);
        assert |rq| == (if q.rs.perSampleShading then 2 else 1);
      }
      if stage == Vertex {
        var hp, hq := ShaderHashedVertexInput(p.vertexInput), ShaderHashedVertexInput(q.vertexInput);
        assert |rp| == (if hp.Some? then 5 else 1) && |rq| == (if hq.Some? then 5 else 1);
        if hp.Some? {
          assert rp[2] == BindingsTok(hp.value.bindings) && rp[4] == AttributesTok(hp.value.attributes);
          assert rq[2] == BindingsTok(hq.value.bindings) && rq[4] == AttributesTok(hq.value.attributes);
        }
      }
      if stage == TessControl {
        assert rp[1] == U32(p.ia.patchControlPoints) && rq[1] == U32(q.ia.patchControlPoints);
      }
    }
  }

  /**
   * The vertex shader's hash ignores a vertex input without attributes, while
   * the pipeline hash includes any vertex input with bindings: the two differ
   * in which inputs they consider.
   */
  lemma VertexHashIgnoresAttributeLessInput(h: Hasher, stagePart: (ShaderStage, PipelineShaderInfo) -> seq<Token>,
                                            p: GraphicsPipelineBuildInfo, vi: VertexInputState)
    requires |vi.bindings| > 0 && |vi.attributes| == 0
    ensures GetShaderHashCode(h, stagePart, p.(vertexInput := Some(vi)), Vertex)
         == GetShaderHashCode(h, stagePart, p.(vertexInput := None), Vertex)
    ensures VertexInputTokens(Some(vi)) != VertexInputTokens(None)
  {
    ShaderHashIsLocal(h, stagePart, p.(vertexInput := Some(vi)), p.(vertexInput := None), Vertex);
  }

  /** The pipeline with one stage's user-data nodes replaced. */
  function WithNodes(p: GraphicsPipelineBuildInfo, stage: ShaderStage, nodes: seq<ResourceNode>): GraphicsPipelineBuildInfo
    requires IsGraphics(stage)
  {
    WithShaderInfo(p, stage, GetPipelineShaderInfo(p, stage).(userDataNodes := nodes))
  }

  /** Merges the nodes of two stages and gives both stages the merged list. */
  function MergePair(v: Variant, p: GraphicsPipelineBuildInfo, s1: ShaderStage, s2: ShaderStage): (r: Checked<GraphicsPipelineBuildInfo>)
    requires IsGraphics(s1) && IsGraphics(s2) && s1 != s2
    ensures var m := MergeUserDataNode(v, GetPipelineShaderInfo(p, s1).userDataNodes, GetPipelineShaderInfo(p, s2).userDataNodes);
      && (r.Ok? <==> m.Ok?)
      && (r.Ok? ==>
            && GetPipelineShaderInfo(r.value, s1).userDataNodes == m.value.nodes
            && GetPipelineShaderInfo(r.value, s2).userDataNodes == m.value.nodes
            && (forall s :: IsGraphics(s) && s != s1 && s != s2 ==> GetPipelineShaderInfo(r.value, s) == GetPipelineShaderInfo(p, s)))
  {
    match MergeUserDataNode(v, GetPipelineShaderInfo(p, s1).userDataNodes, GetPipelineShaderInfo(p, s2).userDataNodes)
    case AssertFails(why) => AssertFails(why)
    case Ok(m) => Ok(WithNodes(WithNodes(p, s1, m.nodes), s2, m.nodes))
  }

  /** Whether the LS-HS pair is merged. */
  predicate MergesLsHs(mask: set<ShaderStage>)
  {
    (TessControl in mask || TessEval in mask || Geometry in mask) && Vertex in mask && TessControl in mask
  }

  /** Whether the ES-GS pair is merged. */
  predicate MergesEsGs(mask: set<ShaderStage>)
  {
    var hasTs := TessControl in mask || TessEval in mask;
    ((hasTs && TessEval in mask) || (!hasTs && Vertex in mask)) && Geometry in mask
  }

  /**
   * The ES-GS pair is the geometry stage and the stage that exports to it: it
   * is merged exactly when both are active, and the export stage is then the
   * active stage right before geometry.
   */
  lemma EsGsPairIsGeometryAndPrevious(mask: set<ShaderStage>)
    ensures MergesEsGs(mask) <==> Geometry in mask && ExportStage(mask) in mask
    ensures MergesEsGs(mask) ==> GetPrevShaderStage(mask, Geometry) == Ok(ExportStage(mask))
  {
    if MergesEsGs(mask) && ExportStage(mask) == Vertex {
      assert ScanDown(mask, 3) == ScanDown(mask, 2) == ScanDown(mask, 1) == Vertex;
    }
  }

  /**
   * The fusion driver: nothing happens without tessellation or geometry;
   * otherwise vertex and tessellation-control nodes are merged when both
   * stages are active, and then the export stage's nodes with geometry's.
   */
  function DoUserDataNodeMerge(v: Variant, mask: set<ShaderStage>, p: GraphicsPipelineBuildInfo): (r: Checked<GraphicsPipelineBuildInfo>)
    ensures !(MergesLsHs(mask) || MergesEsGs(mask)) ==> r == Ok(p)
    ensures r.Ok? ==>
      && r.value.vertexInput == p.vertexInput && r.value.ia == p.ia && r.value.vp == p.vp
      && r.value.rs == p.rs && r.value.cb == p.cb && r.value.outputAlloc == p.outputAlloc
      && r.value.fs == p.fs
      && (forall s :: IsGraphics(s) ==>
            GetPipelineShaderInfo(r.value, s).(userDataNodes := []) == GetPipelineShaderInfo(p, s).(userDataNodes := []))
      && (MergesLsHs(mask) ==> r.value.vs.userDataNodes == r.value.tcs.userDataNodes)
      && (MergesEsGs(mask) ==>
            GetPipelineShaderInfo(r.value, ExportStage(mask)).userDataNodes == r.value.gs.userDataNodes)
      && (!MergesLsHs(mask) && !MergesEsGs(mask) ==> r.value == p)
    ensures var ls := MergeUserDataNode(v, p.vs.userDataNodes, p.tcs.userDataNodes);
      var es := MergeUserDataNode(v, GetPipelineShaderInfo(p, ExportStage(mask)).userDataNodes, p.gs.userDataNodes);
      && (r.Ok? <==> (MergesLsHs(mask) ==> ls.Ok?) && (MergesEsGs(mask) ==> es.Ok?))
      && (r.Ok? && MergesLsHs(mask) ==> r.value.tcs.userDataNodes == ls.value.nodes)
      && (r.Ok? && MergesEsGs(mask) ==> r.value.gs.userDataNodes == es.value.nodes)
    ensures r.Ok? ==>
      && (!MergesLsHs(mask) ==> r.value.tcs == p.tcs)
      && (!MergesEsGs(mask) ==> r.value.gs == p.gs)
      && (!(MergesEsGs(mask) && ExportStage(mask) == TessEval) ==> r.value.tes == p.tes)
      && (!MergesLsHs(mask) && !(MergesEsGs(mask) && ExportStage(mask) == Vertex) ==> r.value.vs == p.vs)
  {
    var hasTs := TessControl in mask || TessEval in mask;
    var hasGs := Geometry in mask;
    if !(hasTs || hasGs) then Ok(p)
    else
      var afterLsHs := if Vertex in mask && TessControl in mask then MergePair(v, p, Vertex, TessControl) else Ok(p);
      match afterLsHs
      case AssertFails(why) => AssertFails(why)
      case Ok(q) =>
        if MergesEsGs(mask) then MergePair(v, q, ExportStage(mask), Geometry) else Ok(q)
  }

  /** Every stage's user-data list is sorted, as the merge assumes. */
  ghost predicate NodesSorted(p: GraphicsPipelineBuildInfo)
  {
    Sorted(p.vs.userDataNodes) && Sorted(p.tcs.userDataNodes) && Sorted(p.tes.userDataNodes)
    && Sorted(p.gs.userDataNodes) && Sorted(p.fs.userDataNodes)
  }

  lemma MergePairUnion(p: GraphicsPipelineBuildInfo, s1: ShaderStage, s2: ShaderStage)
    requires IsGraphics(s1) && IsGraphics(s2) && s1 != s2
    requires Sorted(GetPipelineShaderInfo(p, s1).userDataNodes) && Sorted(GetPipelineShaderInfo(p, s2).userDataNodes)
    requires MergePair(Intended, p, s1, s2).Ok?
    ensures var n := GetPipelineShaderInfo(MergePair(Intended, p, s1, s2).value, s2).userDataNodes;
      && Sorted(n)
      && Offsets(n) == Offsets(GetPipelineShaderInfo(p, s1).userDataNodes) + Offsets(GetPipelineShaderInfo(p, s2).userDataNodes)
  {
    MergeUserDataNodeIntended(GetPipelineShaderInfo(p, s1).userDataNodes, GetPipelineShaderInfo(p, s2).userDataNodes);
  }

  /**
   * With the intended merge and sorted lists, each fused pair ends up with a
   * sorted list covering exactly the offsets of both stages' original lists:
   * vertex with tessellation control, and the export stage (tessellation
   * evaluation, or vertex without tessellation) with geometry.
   */
  lemma DoUserDataNodeMergeCoversBoth(mask: set<ShaderStage>, p: GraphicsPipelineBuildInfo)
    requires NodesSorted(p)
    requires DoUserDataNodeMerge(Intended, mask, p).Ok?
    ensures var q := DoUserDataNodeMerge(Intended, mask, p).value;
      && (MergesLsHs(mask) ==>
            Sorted(q.tcs.userDataNodes)
            && Offsets(q.tcs.userDataNodes) == Offsets(p.vs.userDataNodes) + Offsets(p.tcs.userDataNodes))
      && (MergesEsGs(mask) ==>
            var es := GetPipelineShaderInfo(p, ExportStage(mask)).userDataNodes;
            Sorted(q.gs.userDataNodes)
            && Offsets(q.gs.userDataNodes) == Offsets(es) + Offsets(p.gs.userDataNodes))
  {
    var hasTs := TessControl in mask || TessEval in mask;
    var p1 := if Vertex in mask && TessControl in mask then MergePair(Intended, p, Vertex, TessControl) else Ok(p);
    if Vertex in mask && TessControl in mask {
      MergePairUnion(p, Vertex, TessControl);
    }
    if MergesEsGs(mask) {
      var q1 := p1.value;
      var es := ExportStage(mask);
      assert GetPipelineShaderInfo(q1, es).userDataNodes == GetPipelineShaderInfo(p, es).userDataNodes;
      assert q1.gs == p.gs;
      MergePairUnion(q1, es, Geometry);
    }
  }
}
