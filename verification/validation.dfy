/**
 * Input checking at the compiler's entry points: building a shader module
 * from a binary the driver hands over, and validating the shader info of one
 * pipeline stage before a pipeline is built.
 */
module Validation {
  import opened Common
  import opened PipelineInfo
  import opened HashTokens

  /**
   * The binary utilities the compiler calls, which are not part of this model:
   * recognising SPIR-V and LLVM bitcode, the stages an entry point of a SPIR-V
   * binary serves, and the check that a binary uses no op code still in
   * development.
   */
  datatype BinaryTools = BinaryTools(
    isSpirv: seq<byte> -> bool,
    isLlvmBitcode: seq<byte> -> bool,
    entryStages: (seq<byte>, string) -> set<ShaderStage>,
    verifies: seq<byte> -> bool)

  /** The binary type a recognised binary gets: SPIR-V takes precedence over LLVM bitcode. */
  function Classify(t: BinaryTools, code: seq<byte>): (r: Option<BinaryType>)
    ensures r.Some? <==> t.isSpirv(code) || t.isLlvmBitcode(code)
    ensures r.Some? ==> r.value != Unknown
    ensures r == Some(LlvmBc) ==> !t.isSpirv(code)
  {
    if t.isSpirv(code) then Some(Spirv)
    else if t.isLlvmBitcode(code) then Some(LlvmBc)
    else None
  }

  /** Result of building a shader module: a status and, on success, the module data handed to the caller. */
  datatype ModuleBuildOut = ModuleBuildOut(status: Status, moduleData: Option<ShaderModuleData>)

  /**
   * `BuildShaderModule`: classifies the binary, asks the caller's allocator
   * for room, and copies the code next to its binary type and the MD5 of the
   * code bytes.
   */
  function BuildShaderModule(t: BinaryTools, h: Hasher, code: seq<byte>, alloc: OutputAllocator): (r: ModuleBuildOut)
    ensures r.status == Success <==> r.moduleData.Some?
    ensures Classify(t, code).None? ==> r.status == ErrorInvalidShader
    ensures Classify(t, code).Some? ==>
      (r.status == ErrorInvalidPointer <==> alloc.NoAllocator?) &&
      (r.status == ErrorOutOfMemory <==> alloc == Allocator(false)) &&
      (r.status == Success <==> alloc == Allocator(true))
    ensures r.moduleData.Some? ==>
      var m := r.moduleData.value;
      Classify(t, code) == Some(m.binType) &&
      |m.code| == |code| && (forall i :: 0 <= i < |code| ==> m.code[i] == code[i]) &&
      m.hash == h.md5([BytesTok(code)])
  {
    match Classify(t, code)
    case None => ModuleBuildOut(ErrorInvalidShader, None)
    case Some(binType) =>
      match alloc
      case NoAllocator => ModuleBuildOut(ErrorInvalidPointer, None)
      case Allocator(returnsBuffer) =>
        if !returnsBuffer then ModuleBuildOut(ErrorOutOfMemory, None)
        else ModuleBuildOut(Success, Some(ShaderModuleData(binType, code, h.md5([BytesTok(code)]))))
  }

  /**
   * `ValidatePipelineShaderInfo`: a stage without a module and an LLVM-bitcode
   * module pass. A SPIR-V module needs an entry-point name whose entry point
   * serves this stage; with development features disabled it must also pass
   * the op-code check, whose failure overrides an entry-point error. Any
   * other binary type is an invalid shader.
   */
  function ValidatePipelineShaderInfo(t: BinaryTools, disableWip: bool, stage: ShaderStage, info: PipelineShaderInfo): (r: Status)
    ensures r == Success || r == ErrorInvalidShader || r == Unsupported
    ensures info.moduleData.None? ==> r == Success
    ensures r == Unsupported <==>
      info.moduleData.Some? && info.moduleData.value.binType == Spirv && disableWip &&
      !t.verifies(info.moduleData.value.code)
    ensures info.moduleData.Some? && info.moduleData.value.binType == LlvmBc ==> r == Success
    ensures info.moduleData.Some? && info.moduleData.value.binType == Unknown ==> r == ErrorInvalidShader
    ensures info.moduleData.Some? && info.moduleData.value.binType == Spirv && r != Unsupported ==>
      (r == Success <==>
         info.entryTarget.Some? && stage in t.entryStages(info.moduleData.value.code, info.entryTarget.value))
  {
    match info.moduleData
    case None => Success
    case Some(m) =>
      match m.binType
      case Spirv =>
        var entryOk := info.entryTarget.Some? && stage in t.entryStages(m.code, info.entryTarget.value);
        if disableWip && !t.verifies(m.code) then Unsupported
        else if entryOk then Success
        else ErrorInvalidShader
      case LlvmBc => Success
      case Unknown => ErrorInvalidShader
  }

  /**
   * A module the compiler built passes validation exactly when it is LLVM
   * bitcode, or SPIR-V with an entry point serving the stage that, with
   * development features disabled, also passes the op-code check. The other
   * outcome of a built module is always one of the two error codes.
   */
  lemma BuiltModuleValidation(t: BinaryTools, h: Hasher, code: seq<byte>, disableWip: bool, stage: ShaderStage,
                              entry: Option<string>, rest: PipelineShaderInfo)
    requires BuildShaderModule(t, h, code, Allocator(true)).status == Success
    ensures var m := BuildShaderModule(t, h, code, Allocator(true)).moduleData;
      var info := rest.(moduleData := m, entryTarget := entry);
      var r := ValidatePipelineShaderInfo(t, disableWip, stage, info);
      (r == Success <==>
         !t.isSpirv(code) ||
         (entry.Some? && stage in t.entryStages(code, entry.value) && (!disableWip || t.verifies(code)))) &&
      (r == Unsupported <==> t.isSpirv(code) && disableWip && !t.verifies(code))
  {
    var m := BuildShaderModule(t, h, code, Allocator(true)).moduleData.value;
    assert m.code == code;
  }
}
