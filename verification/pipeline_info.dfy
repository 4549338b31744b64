/**
 * The pipeline build information the compiler receives from the driver: one
 * shader-info record per stage plus the fixed-function state of a graphics
 * pipeline. Pointers that may be null become `Option`s; arrays given as
 * pointer and count become sequences, their count being the length.
 */
module PipelineInfo {
  import opened Common
  import opened ResourceNodes

  /** An MD5 digest (16 bytes). */
  type Digest = seq<byte>

  /** A shader module as the compiler builds it: binary kind, a copy of the code, and the MD5 of the code. */
  datatype ShaderModuleData = ShaderModuleData(binType: BinaryType, code: seq<byte>, hash: Digest)

  /** One entry of a specialization map (hashed as raw bytes). */
  datatype SpecMapEntry = SpecMapEntry(constantId: nat, offset: nat, size: nat)

  datatype SpecializationInfo = SpecializationInfo(mapEntries: seq<SpecMapEntry>, data: seq<byte>)

  /**
   * Immutable descriptor values for a (set, binding) range; `values` holds the
   * `arraySize` descriptors of 16 bytes each.
   */
  datatype DescriptorRangeValue =
    DescriptorRangeValue(nodeType: NodeType, descSet: nat, binding: nat, arraySize: nat, values: seq<byte>)

  /** Everything the driver says about one shader stage of a pipeline. */
  datatype PipelineShaderInfo = PipelineShaderInfo(
    moduleData: Option<ShaderModuleData>,
    entryTarget: Option<string>,
    specInfo: Option<SpecializationInfo>,
    rangeValues: seq<DescriptorRangeValue>,
    userDataNodes: seq<ResourceNode>)

  /** A stage the driver leaves empty. */
  const EmptyShaderInfo: PipelineShaderInfo := PipelineShaderInfo(None, None, None, [], [])

  datatype VertexBinding = VertexBinding(binding: nat, stride: nat, inputRate: nat)

  datatype VertexAttribute = VertexAttribute(location: nat, binding: nat, format: nat, offset: nat)

  datatype VertexInputState = VertexInputState(bindings: seq<VertexBinding>, attributes: seq<VertexAttribute>)

  datatype IaState = IaState(topology: nat, patchControlPoints: nat, deviceIndex: nat, disableVertexReuse: bool)

  datatype VpState = VpState(depthClipEnable: bool)

  datatype RsState = RsState(
    rasterizerDiscardEnable: bool,
    perSampleShading: bool,
    numSamples: nat,
    samplePatternIdx: nat,
    usrClipPlaneMask: nat)

  /** The Vulkan format value meaning "no attachment". */
  const FormatUndefined: nat := 0

  /** Number of color-target slots in the color-blend state. */
  const MaxColorTargets: nat := 8

  datatype ColorTarget = ColorTarget(format: nat, blendEnable: bool, blendSrcAlphaToColor: bool)

  /** The fixed array of color targets. */
  type ColorTargets = s: seq<ColorTarget> | |s| == MaxColorTargets
    witness [ColorTarget(FormatUndefined, false, false), ColorTarget(FormatUndefined, false, false),
             ColorTarget(FormatUndefined, false, false), ColorTarget(FormatUndefined, false, false),
             ColorTarget(FormatUndefined, false, false), ColorTarget(FormatUndefined, false, false),
             ColorTarget(FormatUndefined, false, false), ColorTarget(FormatUndefined, false, false)]

  datatype CbState = CbState(alphaToCoverageEnable: bool, dualSourceBlendEnable: bool, targets: ColorTargets)

  /**
   * The caller's output allocator: absent, or present and either returning a
   * buffer or failing (returning null).
   */
  datatype OutputAllocator = NoAllocator | Allocator(returnsBuffer: bool)

  datatype GraphicsPipelineBuildInfo = GraphicsPipelineBuildInfo(
    vs: PipelineShaderInfo,
    tcs: PipelineShaderInfo,
    tes: PipelineShaderInfo,
    gs: PipelineShaderInfo,
    fs: PipelineShaderInfo,
    vertexInput: Option<VertexInputState>,
    ia: IaState,
    vp: VpState,
    rs: RsState,
    cb: CbState,
    outputAlloc: OutputAllocator)

  datatype ComputePipelineBuildInfo = ComputePipelineBuildInfo(
    cs: PipelineShaderInfo,
    deviceIndex: nat,
    outputAlloc: OutputAllocator)

  /** The shader info of a graphics stage. */
  function GetPipelineShaderInfo(p: GraphicsPipelineBuildInfo, stage: ShaderStage): (info: PipelineShaderInfo)
    requires IsGraphics(stage)
    ensures info == Shaders(p)[StageIndex(stage)]
  {
    match stage
    case Vertex => p.vs
    case TessControl => p.tcs
    case TessEval => p.tes
    case Geometry => p.gs
    case Fragment => p.fs
  }

  /** The five per-stage records of a graphics pipeline, in stage order. */
  function Shaders(p: GraphicsPipelineBuildInfo): (s: seq<PipelineShaderInfo>)
    ensures |s| == ShaderStageGfxCount
  {
    [p.vs, p.tcs, p.tes, p.gs, p.fs]
  }

  /** The pipeline with the shader info of one graphics stage replaced. */
  function WithShaderInfo(p: GraphicsPipelineBuildInfo, stage: ShaderStage, info: PipelineShaderInfo): (q: GraphicsPipelineBuildInfo)
    requires IsGraphics(stage)
    ensures GetPipelineShaderInfo(q, stage) == info
    ensures forall s :: IsGraphics(s) && s != stage ==> GetPipelineShaderInfo(q, s) == GetPipelineShaderInfo(p, s)
    ensures q.vertexInput == p.vertexInput && q.ia == p.ia && q.vp == p.vp && q.rs == p.rs && q.cb == p.cb
    ensures q.outputAlloc == p.outputAlloc
  {
    match stage
    case Vertex => p.(vs := info)
    case TessControl => p.(tcs := info)
    case TessEval => p.(tes := info)
    case Geometry => p.(gs := info)
    case Fragment => p.(fs := info)
  }

  /** Whether a graphics stage has module data. */
  predicate HasModule(p: GraphicsPipelineBuildInfo, stage: ShaderStage)
    requires IsGraphics(stage)
  {
    GetPipelineShaderInfo(p, stage).moduleData.Some?
  }
}
