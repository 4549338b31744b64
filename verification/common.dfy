/**
 * Types shared by every part of the pipeline-compiler model: shader stages in
 * the order the compiler enumerates them, the compiler's result codes, binary
 * types, and the two small wrappers the model uses for optional values and for
 * debug assertions.
 */
module Common {

  /** A byte of a shader binary or of a hashed field. */
  newtype byte = x: int | 0 <= x < 256

  /** 2^32: the modulus of the source's `uint32_t` arithmetic. */
  const Two32: nat := 0x1_0000_0000

  /**
   * Shader stages, in the compiler's numbering: the five graphics stages take
   * indices 0..4, compute is 5, the copy shader is an internal stage placed
   * after them, and Invalid is the all-ones sentinel.
   */
  datatype ShaderStage =
    | Vertex
    | TessControl
    | TessEval
    | Geometry
    | Fragment
    | Compute
    | CopyShader
    | Invalid

  /** Number of graphics stages (vertex through fragment). */
  const ShaderStageGfxCount: nat := 5

  /** The numeric value of a stage; a stage's mask bit is `1 << StageIndex(s)`. */
  function StageIndex(s: ShaderStage): nat
  {
    match s
    case Vertex => 0
    case TessControl => 1
    case TessEval => 2
    case Geometry => 3
    case Fragment => 4
    case Compute => 5
    case CopyShader => 6
    case Invalid => 0xFFFF_FFFF
  }

  /** True for the five stages that own a slot in a graphics pipeline. */
  predicate IsGraphics(s: ShaderStage)
  {
    StageIndex(s) < ShaderStageGfxCount
  }

  /** The graphics stage with numeric value `i`, the inverse of `StageIndex`. */
  function GraphicsStage(i: nat): (s: ShaderStage)
    requires i < ShaderStageGfxCount
    ensures IsGraphics(s) && StageIndex(s) == i
  {
    [Vertex, TessControl, TessEval, Geometry, Fragment][i]
  }

  lemma GraphicsStageOfIndex(s: ShaderStage)
    requires IsGraphics(s)
    ensures GraphicsStage(StageIndex(s)) == s
  {
  }

  /**
   * The stage that exports to the geometry stage, and which the hardware fuses
   * with it: tessellation evaluation when tessellation is present (either
   * tessellation stage in the mask), else vertex.
   */
  function ExportStage(mask: set<ShaderStage>): ShaderStage
  {
    if TessControl in mask || TessEval in mask then TessEval else Vertex
  }

  /** The graphics stages in pipeline order. */
  const GraphicsStages: seq<ShaderStage> := [Vertex, TessControl, TessEval, Geometry, Fragment]

  /** Result codes returned by the compiler's entry points. */
  datatype Status =
    | Success
    | ErrorUnknown
    | ErrorUnavailable
    | ErrorInvalidValue
    | ErrorInvalidPointer
    | ErrorInvalidShader
    | ErrorOutOfMemory
    | Unsupported

  /** Kind of a shader module's binary. */
  datatype BinaryType = Unknown | Spirv | LlvmBc

  datatype Option<+T> = None | Some(value: T)

  /**
   * The value of a computation that contains debug assertions: `AssertFails`
   * records that an assertion of the source is violated, which stops a debug
   * build of the compiler.
   */
  datatype Checked<+T> = Ok(value: T) | AssertFails(why: string)

  /**
   * Which reading of a defective source line a member follows: the code as it
   * is written, or the behaviour its authors evidently intended.
   */
  datatype Variant = AsWritten | Intended
}
