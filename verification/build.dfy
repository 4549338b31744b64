/**
 * The control flow of building a pipeline: validate the stages, hash the
 * pipeline, optionally replace shader modules, look the hash up in the shader
 * cache, compile in a pooled context when the cache has no usable entry, store
 * or reset the cache entry, copy the binary out through the caller's
 * allocator, and restore replaced modules.
 *
 * What lies outside the compiler's own control flow is an input: the shader
 * cache's replies, the replacement modules read from disk, and the outcome of
 * translation, lowering, patching, code generation and ELF finalisation
 * (together: the compile).
 */
module Build {
  import opened Common
  import opened PipelineInfo
  import opened HashTokens
  import opened Validation
  import opened NodeMerge
  import opened GraphicsContext

  /** State of a shader-cache entry as the cache reports it. */
  datatype EntryState = New | Compiling | Ready

  /** The shader-replacement option: off, for every pipeline, or for pipelines whose hash is listed. */
  datatype ReplaceMode = ReplaceDisable | ReplaceByShaderHash | ReplaceByPipelineHash

  /** What the cache's lookup returns: the entry state and whether it handed out an entry handle. */
  datatype FindReply = FindReply(state: EntryState, handle: bool)

  /** What the build does to the shader cache and the context pool, in order. */
  datatype Event = Find | Retrieve | Acquire | Insert | Reset | Release

  /**
   * The world outside the compiler's control flow: the replacement option and
   * hash list, the replacement module found on disk for a module (if any),
   * the shader cache's replies, and the compile of each pipeline kind
   * (status and pipeline ELF). A graphics compile is split where the
   * user-data node merge sits: `compileFront` is the status after
   * translation, lowering, the null fragment shader and the preliminary patch,
   * and `compileGraphics` is the main patch and code generation.
   */
  datatype Env = Env(
    replaceMode: ReplaceMode,
    listed: nat -> bool,
    replaceShader: ShaderModuleData -> Option<ShaderModuleData>,
    find: Digest -> FindReply,
    retrieve: Digest -> (Status, seq<byte>),
    compileFront: GraphicsPipelineBuildInfo -> Status,
    compileGraphics: GraphicsPipelineBuildInfo -> (Status, seq<byte>),
    compileCompute: ComputePipelineBuildInfo -> (Status, seq<byte>))

  /**
   * How a build ends: it returns a status (and on success the binary), a
   * debug assertion stops the compiler, or the process crashes.
   */
  datatype Outcome =
    | Finished(status: Status, binary: Option<seq<byte>>)
    | Stopped(why: string)
    | Crashed(why: string)

  /** The result of the cache lookup: entry state, handle held, status so far, ELF retrieved, events. */
  datatype Lookup = Lookup(state: EntryState, handle: bool, status: Status, elf: seq<byte>, trace: seq<Event>)

  /** What the compile of a pipeline yields: a status and ELF, or a stop or crash inside it. */
  datatype CompileResult =
    | Compiled(status: Status, elf: seq<byte>)
    | CompileStopped(why: string)
    | CompileCrashed(why: string)

  /** The build so far: still going with a status, ELF and events, or halted with an outcome. */
  datatype Progress =
    | Going(status: Status, elf: seq<byte>, trace: seq<Event>)
    | Halted(outcome: Outcome, trace: seq<Event>)

  /**
   * The cache lookup. A failed validation skips it (the entry stays new); a
   * replaced shader bypasses the cache and compiles; otherwise the cache is
   * asked, and a ready entry is retrieved. A retrieval that fails with
   * `ErrorUnknown` drops the handle and compiles instead.
   */
  function CacheLookup(env: Env, hash: Digest, status: Status, replaced: bool): (r: Lookup)
    ensures status != Success ==> r == Lookup(New, false, status, [], [])
    ensures status == Success && replaced ==> r == Lookup(Compiling, false, Success, [], [])
    ensures status == Success && !replaced ==>
      (r.trace == [Find] || r.trace == [Find, Retrieve]) &&
      (r.trace == [Find, Retrieve] <==> env.find(hash).state == Ready)
    ensures r.state == Compiling ==> r.status == Success
    ensures status == Success && !replaced && env.find(hash).state == Ready &&
            env.retrieve(hash).0 == ErrorUnknown ==>
      r.state == Compiling && !r.handle
    ensures status == Success && !replaced && env.find(hash).state != Ready ==>
      r.state == env.find(hash).state && r.handle == env.find(hash).handle
  {
    if status != Success then Lookup(New, false, status, [], [])
    else if replaced then Lookup(Compiling, false, Success, [], [])
    else
      var f := env.find(hash);
      if f.state == Ready then
        var got := env.retrieve(hash);
        if got.0 == ErrorUnknown then Lookup(Compiling, false, Success, [], [Find, Retrieve])
        else Lookup(Ready, f.handle, got.0, got.1, [Find, Retrieve])
      else Lookup(f.state, f.handle, Success, [], [Find])
  }

  /**
   * The compile block, entered only for a compiling entry: acquire a context,
   * compile, store the ELF in the entry (or reset the entry on failure) when
   * the cache handed out a handle and no shader was replaced, and release the
   * context. Storing asserts the ELF is not empty.
   */
  function CompileStep(lk: Lookup, replaced: bool, c: CompileResult): (r: Progress)
    ensures lk.state != Compiling ==> r == Going(lk.status, lk.elf, lk.trace)
    ensures lk.state == Compiling ==>
      |r.trace| > |lk.trace| && r.trace[..|lk.trace|] == lk.trace && r.trace[|lk.trace|] == Acquire
    ensures r.Halted? <==>
      lk.state == Compiling && (!c.Compiled? || (!replaced && lk.handle && c.status == Success && |c.elf| == 0))
    ensures r.Halted? ==>
      r.trace == lk.trace + [Acquire] && !r.outcome.Finished? && (r.outcome.Crashed? <==> c.CompileCrashed?)
    ensures lk.state == Compiling && r.Going? ==>
      && r.status == c.status && r.elf == c.elf && r.trace[|r.trace| - 1] == Release
      && (Insert in r.trace[|lk.trace|..] <==> !replaced && lk.handle && c.status == Success)
      && (Reset in r.trace[|lk.trace|..] <==> !replaced && lk.handle && c.status != Success)
  {
    if lk.state != Compiling then Going(lk.status, lk.elf, lk.trace)
    else
      match c
      case CompileStopped(why) => Halted(Stopped(why), lk.trace + [Acquire])
      case CompileCrashed(why) => Halted(Crashed(why), lk.trace + [Acquire])
      case Compiled(st, elf) =>
        if !replaced && lk.handle then
          if st == Success then
            if |elf| == 0 then Halted(Stopped("empty pipeline ELF stored in the cache"), lk.trace + [Acquire])
            else Going(st, elf, lk.trace + [Acquire, Insert, Release])
          else Going(st, elf, lk.trace + [Acquire, Reset, Release])
        else Going(st, elf, lk.trace + [Acquire, Release])
  }

  /**
   * Copying the pipeline binary out after a successful build. Without an
   * allocator the status becomes `ErrorInvalidPointer`, yet as written the
   * copy still runs into the null buffer, as it does when the allocator
   * returns null; a non-empty copy into null crashes. The intended copy-out
   * reports the missing allocator or the failed allocation and copies nothing.
   */
  function CopyOut(v: Variant, alloc: OutputAllocator, elf: seq<byte>): (r: Outcome)
    ensures r.Finished? && r.status == Success ==> r.binary == Some(elf)
    ensures alloc == Allocator(true) ==> r == Finished(Success, Some(elf))
    ensures v == Intended ==> r.Finished?
    ensures v == Intended && alloc.NoAllocator? ==> r == Finished(ErrorInvalidPointer, None)
    ensures v == Intended && alloc == Allocator(false) ==> r == Finished(ErrorOutOfMemory, None)
    ensures v == AsWritten && alloc != Allocator(true) ==> (r.Crashed? <==> |elf| > 0)
  {
    match alloc
    case Allocator(true) => Finished(Success, Some(elf))
    case NoAllocator =>
      if v == Intended || |elf| == 0 then Finished(ErrorInvalidPointer, None)
      else Crashed("pipeline binary copied to a null buffer")
    case Allocator(false) =>
      if v == Intended then Finished(ErrorOutOfMemory, None)
      else if |elf| == 0 then Finished(Success, Some(elf))
      else Crashed("pipeline binary copied to a null buffer")
  }

  /** The outcome and the cache and pool events of the steps after hashing. */
  datatype Served = Served(outcome: Outcome, trace: seq<Event>)

  /**
   * The steps after hashing: the cache lookup, the compile block, and the
   * copy-out on success (or the status reached, or the halt).
   */
  function Serve(v: Variant, env: Env, hash: Digest, status: Status, replaced: bool, c: CompileResult,
                 alloc: OutputAllocator): (r: Served)
  {
    var pr := CompileStep(CacheLookup(env, hash, status, replaced), replaced, c);
    match pr
    case Halted(o, tr) => Served(o, tr)
    case Going(st, elf, tr) => Served(if st == Success then CopyOut(v, alloc, elf) else Finished(st, None), tr)
  }

  // ---------------------------------------------------------------------------------------------
  // Shader replacement

  /** Replacement applies when enabled for every pipeline, or when this pipeline's hash is listed. */
  function HashMatch(env: Env, h: Hasher, hash: Digest): bool
  {
    env.replaceMode == ReplaceByShaderHash ||
    (env.replaceMode == ReplaceByPipelineHash && env.listed(h.compact64(hash)))
  }

  /** The module that replaces a stage's module, if replacement applies and one is found. */
  function Replacement(env: Env, hashMatch: bool, info: PipelineShaderInfo): Option<ShaderModuleData>
  {
    if hashMatch && info.moduleData.Some? then env.replaceShader(info.moduleData.value) else None
  }

  function ReplaceInfo(env: Env, hashMatch: bool, info: PipelineShaderInfo): (r: PipelineShaderInfo)
    ensures r == info.(moduleData := r.moduleData)
  {
    match Replacement(env, hashMatch, info)
    case Some(m) => info.(moduleData := Some(m))
    case None => info
  }

  /** The pipeline with every stage's module swapped for its replacement. */
  function ReplaceShaders(env: Env, hashMatch: bool, p: GraphicsPipelineBuildInfo): (q: GraphicsPipelineBuildInfo)
    ensures q.vertexInput == p.vertexInput && q.ia == p.ia && q.vp == p.vp && q.rs == p.rs && q.cb == p.cb
    ensures q.outputAlloc == p.outputAlloc
  {
    p.(vs := ReplaceInfo(env, hashMatch, p.vs),
       tcs := ReplaceInfo(env, hashMatch, p.tcs),
       tes := ReplaceInfo(env, hashMatch, p.tes),
       gs := ReplaceInfo(env, hashMatch, p.gs),
       fs := ReplaceInfo(env, hashMatch, p.fs))
  }

  /** The graphics stages whose module was replaced. */
  function ReplacedStages(env: Env, hashMatch: bool, p: GraphicsPipelineBuildInfo): (r: set<ShaderStage>)
    ensures forall s :: s in r <==>
      IsGraphics(s) && Replacement(env, hashMatch, GetPipelineShaderInfo(p, s)).Some?
  {
    set s | s in GraphicsStages && Replacement(env, hashMatch, GetPipelineShaderInfo(p, s)).Some?
  }

  /** Puts the original module back into every replaced stage. */
  function RestoreShaders(q: GraphicsPipelineBuildInfo, p: GraphicsPipelineBuildInfo, replaced: set<ShaderStage>): GraphicsPipelineBuildInfo
  {
    q.(vs := if Vertex in replaced then q.vs.(moduleData := p.vs.moduleData) else q.vs,
       tcs := if TessControl in replaced then q.tcs.(moduleData := p.tcs.moduleData) else q.tcs,
       tes := if TessEval in replaced then q.tes.(moduleData := p.tes.moduleData) else q.tes,
       gs := if Geometry in replaced then q.gs.(moduleData := p.gs.moduleData) else q.gs,
       fs := if Fragment in replaced then q.fs.(moduleData := p.fs.moduleData) else q.fs)
  }

  /** Restoring after replacement gives back the caller's pipeline exactly. */
  lemma RestoreUndoesReplace(env: Env, hashMatch: bool, p: GraphicsPipelineBuildInfo)
    ensures RestoreShaders(ReplaceShaders(env, hashMatch, p), p, ReplacedStages(env, hashMatch, p)) == p
  {
    var replaced := ReplacedStages(env, hashMatch, p);
    assert Vertex in replaced <==> Replacement(env, hashMatch, p.vs).Some?;
    assert TessControl in replaced <==> Replacement(env, hashMatch, p.tcs).Some?;
    assert TessEval in replaced <==> Replacement(env, hashMatch, p.tes).Some?;
    assert Geometry in replaced <==> Replacement(env, hashMatch, p.gs).Some?;
    assert Fragment in replaced <==> Replacement(env, hashMatch, p.fs).Some?;
  }

  /**
   * Replacement swaps exactly the replaced stages' modules for the modules
   * found on disk and leaves every other stage as it was.
   */
  lemma ReplaceShadersSwapsModules(env: Env, hashMatch: bool, p: GraphicsPipelineBuildInfo, s: ShaderStage)
    requires IsGraphics(s)
    ensures var info := GetPipelineShaderInfo(p, s);
      GetPipelineShaderInfo(ReplaceShaders(env, hashMatch, p), s) ==
        if s in ReplacedStages(env, hashMatch, p) then info.(moduleData := Replacement(env, hashMatch, info))
        else info
    ensures s in ReplacedStages(env, hashMatch, p) ==>
      hashMatch && GetPipelineShaderInfo(p, s).moduleData.Some?
  {
  }

  // ---------------------------------------------------------------------------------------------
  // Graphics pipelines

  /** The stage-validation loop: stages in order, stopping at the first failure. */
  function ValidateStages(t: BinaryTools, disableWip: bool, p: GraphicsPipelineBuildInfo, i: nat): (r: Status)
    requires i <= ShaderStageGfxCount
    ensures r == Success <==>
      forall k :: i <= k < ShaderStageGfxCount ==>
        ValidatePipelineShaderInfo(t, disableWip, GraphicsStage(k), Shaders(p)[k]) == Success
    ensures r != Success ==>
      exists k :: i <= k < ShaderStageGfxCount &&
        r == ValidatePipelineShaderInfo(t, disableWip, GraphicsStage(k), Shaders(p)[k]) &&
        forall j :: i <= j < k ==> ValidatePipelineShaderInfo(t, disableWip, GraphicsStage(j), Shaders(p)[j]) == Success
    decreases ShaderStageGfxCount - i
  {
    if i == ShaderStageGfxCount then Success
    else
      var r := ValidatePipelineShaderInfo(t, disableWip, GraphicsStage(i), Shaders(p)[i]);
      if r != Success then r else ValidateStages(t, disableWip, p, i + 1)
  }

  /** The MD5 digest of a graphics pipeline's hash input; the hash asserts that range values are samplers. */
  function GraphicsDigest(h: Hasher, v: Variant, p: GraphicsPipelineBuildInfo): (r: Checked<Digest>)
    ensures r.Ok? <==> GraphicsRangeValuesOk(p)
    ensures r.Ok? ==> GetGraphicsPipelineHash(h, v, p) == Ok(h.compact64(r.value))
  {
    if GraphicsRangeValuesOk(p) then Ok(h.md5(GraphicsTokens(v, p)))
    else AssertFails("descriptor range value is not a sampler")
  }

  /** Two pipelines that differ at most in their stages' user-data node lists. */
  predicate SameButUserData(a: GraphicsPipelineBuildInfo, b: GraphicsPipelineBuildInfo)
  {
    && a.vertexInput == b.vertexInput && a.ia == b.ia && a.vp == b.vp && a.rs == b.rs && a.cb == b.cb
    && a.outputAlloc == b.outputAlloc
    && forall s :: IsGraphics(s) ==>
         GetPipelineShaderInfo(a, s).(userDataNodes := []) == GetPipelineShaderInfo(b, s).(userDataNodes := [])
  }

  /** What the graphics compile yields, and the pipeline it was given as the compile leaves it. */
  datatype GraphicsCompiled = GraphicsCompiled(result: CompileResult, pipeline: GraphicsPipelineBuildInfo)

  /**
   * The graphics compile of `q` in a context built on `q`. After the steps up
   * to the preliminary patch succeed, GFX9 and later merge the user-data nodes
   * of the merged shaders, and the main patch sees the merged lists. As
   * written the context holds the caller's pipeline and the merge writes the
   * merged lists into it; the intended merge works on the context's own copy.
   */
  function GraphicsCompile(v: Variant, gfxMajor: nat, env: Env, q: GraphicsPipelineBuildInfo): (r: GraphicsCompiled)
    ensures env.compileFront(q) != Success ==> r == GraphicsCompiled(Compiled(env.compileFront(q), []), q)
    ensures gfxMajor <= 8 && env.compileFront(q) == Success ==>
      r == GraphicsCompiled(Compiled(env.compileGraphics(q).0, env.compileGraphics(q).1), q)
    ensures var m := DoUserDataNodeMerge(v, ActiveStages(q), q);
      9 <= gfxMajor && env.compileFront(q) == Success ==>
        && (r.result.CompileStopped? <==> m.AssertFails?)
        && (m.Ok? ==> r.result == Compiled(env.compileGraphics(m.value).0, env.compileGraphics(m.value).1))
        && (m.Ok? && v == AsWritten ==> r.pipeline == m.value)
    ensures !r.result.CompileCrashed? && SameButUserData(r.pipeline, q)
    ensures v == Intended || r.result.CompileStopped? ==> r.pipeline == q
  {
    var front := env.compileFront(q);
    if front != Success then GraphicsCompiled(Compiled(front, []), q)
    else if gfxMajor <= 8 then GraphicsCompiled(Compiled(env.compileGraphics(q).0, env.compileGraphics(q).1), q)
    else
      match DoUserDataNodeMerge(v, ActiveStages(q), q)
      case AssertFails(why) => GraphicsCompiled(CompileStopped(why), q)
      case Ok(m) =>
        GraphicsCompiled(Compiled(env.compileGraphics(m).0, env.compileGraphics(m).1), if v == AsWritten then m else q)
  }

  /**
   * A finished or halted build: its outcome, the cache and pool events, the
   * hash the cache was asked with, the stages whose module was replaced, and
   * the caller's pipeline as the build leaves it.
   */
  datatype GraphicsRun = GraphicsRun(
    outcome: Outcome,
    trace: seq<Event>,
    hash: Digest,
    replaced: set<ShaderStage>,
    pipeline: GraphicsPipelineBuildInfo)

  /**
   * `BuildGraphicsPipeline`. A build that returns puts the original modules
   * back into the replaced stages; the user-data lists a GFX9 compile merged
   * into the caller's pipeline stay there as written.
   */
  function BuildGraphicsPipeline(v: Variant, gfxMajor: nat, env: Env, h: Hasher, t: BinaryTools, disableWip: bool,
                                 p: GraphicsPipelineBuildInfo): (run: GraphicsRun)
    ensures !GraphicsRangeValuesOk(p) ==> run.outcome.Stopped? && run.trace == []
    ensures run.outcome.Finished? ==> SameButUserData(run.pipeline, p)
    ensures run.outcome.Finished? && (v == Intended || gfxMajor <= 8 || Acquire !in run.trace) ==> run.pipeline == p
  {
    var valid := ValidateStages(t, disableWip, p, 0);
    match GraphicsDigest(h, v, p)
    case AssertFails(why) => GraphicsRun(Stopped(why), [], [], {}, p)
    case Ok(hash0) =>
      var m := HashMatch(env, h, hash0);
      var q := ReplaceShaders(env, m, p);
      var replaced := ReplacedStages(env, m, p);
      var hash := if replaced != {} then h.md5(GraphicsTokens(v, q)) else hash0;
      var gc := GraphicsCompile(v, gfxMajor, env, q);
      var lk := CacheLookup(env, hash, valid, replaced != {});
      var r := Serve(v, env, hash, valid, replaced != {}, gc.result, q.outputAlloc);
      var left := if lk.state == Compiling then gc.pipeline else q;
      RestoreUndoesReplace(env, m, p);
      RestoreKeepsUserData(left, q, p, env, m);
      GraphicsRun(r.outcome, r.trace, hash, replaced, if r.outcome.Finished? then RestoreShaders(left, p, replaced) else left)
  }

  /**
   * Restoring the modules into a pipeline that differs from the replaced one
   * only in user-data lists gives the caller's pipeline up to those lists.
   */
  lemma RestoreKeepsUserData(left: GraphicsPipelineBuildInfo, q: GraphicsPipelineBuildInfo, p: GraphicsPipelineBuildInfo,
                             env: Env, m: bool)
    requires q == ReplaceShaders(env, m, p) && SameButUserData(left, q)
    ensures SameButUserData(RestoreShaders(left, p, ReplacedStages(env, m, p)), p)
  {
    var replaced := ReplacedStages(env, m, p);
    var r := RestoreShaders(left, p, replaced);
    forall s | IsGraphics(s)
      ensures GetPipelineShaderInfo(r, s).(userDataNodes := []) == GetPipelineShaderInfo(p, s).(userDataNodes := [])
    {
      ReplaceShadersSwapsModules(env, m, p, s);
    }
  }

  // ---------------------------------------------------------------------------------------------
  // Compute pipelines

  function ComputeDigest(h: Hasher, v: Variant, p: ComputePipelineBuildInfo): (r: Checked<Digest>)
    ensures r.Ok? <==> RangeValuesAreSamplers(p.cs)
    ensures r.Ok? ==> GetComputePipelineHash(h, v, p) == Ok(h.compact64(r.value))
  {
    if RangeValuesAreSamplers(p.cs) then Ok(h.md5(ComputeTokens(v, p)))
    else AssertFails("descriptor range value is not a sampler")
  }

  /**
   * The compute compile. As written, the bitcode branch hangs off the
   * null-module test, so a stage without module data is dereferenced (a
   * crash) and a bitcode module reaches "not implemented". The intended code
   * compiles SPIR-V and bitcode alike and stops on the assertion that a
   * module was produced when there is none.
   */
  function ComputeCompile(v: Variant, env: Env, q: ComputePipelineBuildInfo): (r: CompileResult)
    ensures q.cs.moduleData.None? ==> (r.CompileCrashed? <==> v == AsWritten)
    ensures v == Intended ==> !r.CompileCrashed?
    ensures q.cs.moduleData.Some? && q.cs.moduleData.value.binType == Spirv ==>
      r == Compiled(env.compileCompute(q).0, env.compileCompute(q).1)
    ensures v == Intended && q.cs.moduleData.Some? && q.cs.moduleData.value.binType != Unknown ==>
      r == Compiled(env.compileCompute(q).0, env.compileCompute(q).1)
  {
    match q.cs.moduleData
    case None =>
      if v == AsWritten then CompileCrashed("null module data dereferenced")
      else CompileStopped("no LLVM module to compile")
    case Some(m) =>
      match m.binType
      case Spirv => Compiled(env.compileCompute(q).0, env.compileCompute(q).1)
      case LlvmBc =>
        if v == AsWritten then CompileStopped("bitcode compute shader not implemented")
        else Compiled(env.compileCompute(q).0, env.compileCompute(q).1)
      case Unknown => CompileStopped("unknown binary type")
  }

  datatype ComputeRun = ComputeRun(
    outcome: Outcome,
    trace: seq<Event>,
    hash: Digest,
    replaced: bool,
    pipeline: ComputePipelineBuildInfo)

  /** `BuildComputePipeline`: the graphics flow for the single compute stage. */
  function BuildComputePipeline(v: Variant, env: Env, h: Hasher, t: BinaryTools, disableWip: bool,
                                p: ComputePipelineBuildInfo): (run: ComputeRun)
    ensures !RangeValuesAreSamplers(p.cs) ==> run.outcome.Stopped? && run.trace == []
    ensures run.outcome.Finished? ==> run.pipeline == p
  {
    var valid := ValidatePipelineShaderInfo(t, disableWip, Compute, p.cs);
    match ComputeDigest(h, v, p)
    case AssertFails(why) => ComputeRun(Stopped(why), [], [], false, p)
    case Ok(hash0) =>
      var m := HashMatch(env, h, hash0);
      var rep := Replacement(env, m, p.cs);
      var q := if rep.Some? then p.(cs := p.cs.(moduleData := rep)) else p;
      var hash := if rep.Some? then h.md5(ComputeTokens(v, q)) else hash0;
      var r := Serve(v, env, hash, valid, rep.Some?, ComputeCompile(v, env, q), q.outputAlloc);
      ComputeRun(r.outcome, r.trace, hash, rep.Some?, if r.outcome.Finished? then p else q)
  }

  // ---------------------------------------------------------------------------------------------
  // The build protocol

  /** How many times an event occurs in a trace. */
  function Count(t: seq<Event>, e: Event): nat
  {
    multiset(t)[e]
  }

  /**
   * The hash the cache is asked with is the pipeline's own hash unless some
   * stage was replaced, and then the hash of the pipeline with the replaced
   * modules. A stage is replaced exactly when replacement applies to this
   * pipeline, the stage has a module, and a replacement for it is found;
   * with replacement off, nothing is replaced.
   */
  lemma GraphicsHashFollowsReplacement(v: Variant, gfxMajor: nat, env: Env, h: Hasher, t: BinaryTools, disableWip: bool,
                                       p: GraphicsPipelineBuildInfo)
    requires GraphicsRangeValuesOk(p)
    ensures var run := BuildGraphicsPipeline(v, gfxMajor, env, h, t, disableWip, p);
      var hash0 := h.md5(GraphicsTokens(v, p));
      var m := HashMatch(env, h, hash0);
      (forall s :: s in run.replaced <==>
         IsGraphics(s) && m && GetPipelineShaderInfo(p, s).moduleData.Some? &&
         env.replaceShader(GetPipelineShaderInfo(p, s).moduleData.value).Some?) &&
      (env.replaceMode == ReplaceDisable ==> run.replaced == {}) &&
      run.hash == if run.replaced == {} then hash0 else h.md5(GraphicsTokens(v, ReplaceShaders(env, m, p)))
  {
    var hash0 := h.md5(GraphicsTokens(v, p));
    var m := HashMatch(env, h, hash0);
    var run := BuildGraphicsPipeline(v, gfxMajor, env, h, t, disableWip, p);
    var replaced := ReplacedStages(env, m, p);
    assert run.replaced == replaced;
    assert run.hash == if replaced == {} then hash0 else h.md5(GraphicsTokens(v, ReplaceShaders(env, m, p)));
  }

  /**
   * A build that replaced a shader never touches the cache: no lookup, no
   * retrieval, no store and no reset. If it validated and compiled, it did so
   * in a context it then released.
   */
  lemma ReplacementBypassesCache(v: Variant, env: Env, hash: Digest, status: Status, c: CompileResult,
                                 alloc: OutputAllocator)
    ensures var r := Serve(v, env, hash, status, true, c, alloc);
      Find !in r.trace && Retrieve !in r.trace && Insert !in r.trace && Reset !in r.trace &&
      (status == Success && c.Compiled? ==> r.trace == [Acquire, Release])
  {
  }

  /**
   * A validated, unreplaced build whose hash the cache holds ready, and whose
   * retrieval succeeds or fails with anything but `ErrorUnknown`, neither
   * compiles nor acquires a context; it returns the retrieval's status, and
   * on success the cached binary.
   */
  lemma CacheHitSkipsCompile(v: Variant, env: Env, hash: Digest, c: CompileResult, alloc: OutputAllocator)
    requires env.find(hash).state == Ready && env.retrieve(hash).0 != ErrorUnknown
    ensures var r := Serve(v, env, hash, Success, false, c, alloc);
      var got := env.retrieve(hash);
      r.trace == [Find, Retrieve] &&
      r.outcome == if got.0 == Success then CopyOut(v, alloc, got.1) else Finished(got.0, None)
  {
  }

  /**
   * A ready entry whose retrieval fails with `ErrorUnknown` is compiled
   * afresh, but the handle is dropped: the fresh binary is neither stored nor
   * the entry reset, and the build returns the compile's status.
   */
  lemma DemotedEntryNotStored(v: Variant, env: Env, hash: Digest, st: Status, elf: seq<byte>, alloc: OutputAllocator)
    requires env.find(hash).state == Ready && env.retrieve(hash).0 == ErrorUnknown
    ensures var r := Serve(v, env, hash, Success, false, Compiled(st, elf), alloc);
      r.trace == [Find, Retrieve, Acquire, Release] &&
      r.outcome == if st == Success then CopyOut(v, alloc, elf) else Finished(st, None)
  {
  }

  /**
   * An entry the cache hands out for compiling is settled exactly once: the
   * binary is stored when the compile succeeds and the entry is reset when it
   * fails. A successful compile with an empty binary stops on the store's
   * assertion instead.
   */
  lemma CompilingEntrySettledOnce(env: Env, hash: Digest, st: Status, elf: seq<byte>)
    requires env.find(hash) == FindReply(Compiling, true)
    ensures var pr := CompileStep(CacheLookup(env, hash, Success, false), false, Compiled(st, elf));
      (pr.Halted? <==> st == Success && |elf| == 0) &&
      (pr.Halted? ==> pr.outcome.Stopped?) &&
      (pr.Going? ==>
         pr.status == st && Count(pr.trace, Insert) + Count(pr.trace, Reset) == 1 &&
         (Insert in pr.trace <==> st == Success))
  {
    var lk := CacheLookup(env, hash, Success, false);
    assert lk == Lookup(Compiling, true, Success, [], [Find]);
    SettledOnceAfterFind(st, elf);
  }

  lemma SettledOnceAfterFind(st: Status, elf: seq<byte>)
    ensures var pr := CompileStep(Lookup(Compiling, true, Success, [], [Find]), false, Compiled(st, elf));
      (pr.Halted? <==> st == Success && |elf| == 0) &&
      (pr.Halted? ==> pr.outcome.Stopped?) &&
      (pr.Going? ==>
         pr.status == st && Count(pr.trace, Insert) + Count(pr.trace, Reset) == 1 &&
         (Insert in pr.trace <==> st == Success))
  {
    var pr := CompileStep(Lookup(Compiling, true, Success, [], [Find]), false, Compiled(st, elf));
    if st == Success && |elf| > 0 {
      assert pr.trace == [Find] + [Acquire, Insert, Release] == [Find, Acquire, Insert, Release];
      CountsOfSettledTrace(Insert);
    } else if st != Success {
      assert pr.trace == [Find] + [Acquire, Reset, Release] == [Find, Acquire, Reset, Release];
      CountsOfSettledTrace(Reset);
    } else {
      assert pr.Halted?;
    }
  }

  /** The event counts of a trace that settles its cache entry with `x`. */
  lemma CountsOfSettledTrace(x: Event)
    requires x == Insert || x == Reset
    ensures Count([Find, Acquire, x, Release], Insert) + Count([Find, Acquire, x, Release], Reset) == 1
    ensures Insert in [Find, Acquire, x, Release] <==> x == Insert
  {
    assert multiset([Find, Acquire, x, Release]) == multiset{Find, Acquire, x, Release};
  }

  /**
   * A build acquires at most one context, exactly when the cache lookup left
   * the entry compiling, and every build that returns a status releases the
   * context it acquired; only a build halted inside the compile block keeps
   * its context.
   */
  lemma ContextBalanced(v: Variant, env: Env, hash: Digest, status: Status, replaced: bool, c: CompileResult,
                        alloc: OutputAllocator)
    ensures var r := Serve(v, env, hash, status, replaced, c, alloc);
      var lk := CacheLookup(env, hash, status, replaced);
      Count(r.trace, Release) <= Count(r.trace, Acquire) <= 1 &&
      (Acquire in r.trace <==> lk.state == Compiling) &&
      (r.outcome.Finished? ==> Count(r.trace, Acquire) == Count(r.trace, Release)) &&
      (Acquire in r.trace && Release !in r.trace ==> !r.outcome.Finished? && (!c.Compiled? || r.outcome.Stopped?))
  {
    var r := Serve(v, env, hash, status, replaced, c, alloc);
    var lk := CacheLookup(env, hash, status, replaced);
    var pr := CompileStep(lk, replaced, c);
    assert r.trace == pr.trace;
    assert pr.Halted? ==> r.outcome == pr.outcome;
    assert Acquire !in lk.trace && Release !in lk.trace;
    assert multiset(lk.trace)[Acquire] == 0 && multiset(lk.trace)[Release] == 0;
    if lk.state == Compiling {
      var added := CompileStepAdds(lk, replaced, c);
      assert multiset(r.trace) == multiset(lk.trace) + multiset(added);
    } else {
      assert r.trace == lk.trace;
    }
  }

  /**
   * The context balance of whole graphics builds: at most one context is
   * acquired, and a build that returns a status has released it.
   */
  lemma GraphicsBuildContextBalanced(v: Variant, gfxMajor: nat, env: Env, h: Hasher, t: BinaryTools, disableWip: bool,
                                     p: GraphicsPipelineBuildInfo)
    ensures var run := BuildGraphicsPipeline(v, gfxMajor, env, h, t, disableWip, p);
      Count(run.trace, Release) <= Count(run.trace, Acquire) <= 1 &&
      (run.outcome.Finished? ==> Count(run.trace, Acquire) == Count(run.trace, Release))
  {
    var valid := ValidateStages(t, disableWip, p, 0);
    match GraphicsDigest(h, v, p)
    case AssertFails(_) =>
    case Ok(hash0) =>
      var m := HashMatch(env, h, hash0);
      var q := ReplaceShaders(env, m, p);
      var replaced := ReplacedStages(env, m, p);
      var hash := if replaced != {} then h.md5(GraphicsTokens(v, q)) else hash0;
      var c := GraphicsCompile(v, gfxMajor, env, q).result;
      ContextBalanced(v, env, hash, valid, replaced != {}, c, q.outputAlloc);
  }

  /** The same balance for whole compute builds. */
  lemma ComputeBuildContextBalanced(v: Variant, env: Env, h: Hasher, t: BinaryTools, disableWip: bool,
                                    p: ComputePipelineBuildInfo)
    ensures var run := BuildComputePipeline(v, env, h, t, disableWip, p);
      Count(run.trace, Release) <= Count(run.trace, Acquire) <= 1 &&
      (run.outcome.Finished? ==> Count(run.trace, Acquire) == Count(run.trace, Release))
  {
    var valid := ValidatePipelineShaderInfo(t, disableWip, Compute, p.cs);
    match ComputeDigest(h, v, p)
    case AssertFails(_) =>
    case Ok(hash0) =>
      var m := HashMatch(env, h, hash0);
      var rep := Replacement(env, m, p.cs);
      var q := if rep.Some? then p.(cs := p.cs.(moduleData := rep)) else p;
      var hash := if rep.Some? then h.md5(ComputeTokens(v, q)) else hash0;
      ContextBalanced(v, env, hash, valid, rep.Some?, ComputeCompile(v, env, q), q.outputAlloc);
  }

  /** What the compile block appends to the trace of a compiling entry, and how its counts come out. */
  lemma CompileStepAdds(lk: Lookup, replaced: bool, c: CompileResult) returns (added: seq<Event>)
    requires lk.state == Compiling
    ensures CompileStep(lk, replaced, c).trace == lk.trace + added
    ensures multiset(added)[Acquire] == 1 && Acquire in added
    ensures CompileStep(lk, replaced, c).Halted? ==> multiset(added)[Release] == 0 && Release !in added
    ensures CompileStep(lk, replaced, c).Going? ==> multiset(added)[Release] == 1 && Release in added
  {
    var pr := CompileStep(lk, replaced, c);
    added := pr.trace[|lk.trace|..];
    assert pr.trace == lk.trace + added;
    if pr.Halted? {
      assert added == [Acquire];
    } else if !replaced && lk.handle && c.status == Success {
      assert added == [Acquire, Insert, Release];
      assert multiset(added) == multiset{Acquire, Insert, Release};
    } else if !replaced && lk.handle {
      assert added == [Acquire, Reset, Release];
      assert multiset(added) == multiset{Acquire, Reset, Release};
    } else {
      assert added == [Acquire, Release];
      assert multiset(added) == multiset{Acquire, Release};
    }
  }

  /**
   * As written, a build without an output allocator whose binary is not empty
   * (here: a cache hit) copies into a null buffer; the intended build returns
   * `ErrorInvalidPointer`.
   */
  lemma NullAllocatorCopy(v: Variant, gfxMajor: nat, env: Env, h: Hasher, t: BinaryTools, disableWip: bool, p: GraphicsPipelineBuildInfo)
    requires GraphicsRangeValuesOk(p) && ValidateStages(t, disableWip, p, 0) == Success
    requires p.outputAlloc == NoAllocator && env.replaceMode == ReplaceDisable
    requires var hash := h.md5(GraphicsTokens(v, p));
      env.find(hash).state == Ready && env.retrieve(hash).0 == Success && |env.retrieve(hash).1| > 0
    ensures var run := BuildGraphicsPipeline(v, gfxMajor, env, h, t, disableWip, p);
      (v == AsWritten ==> run.outcome.Crashed?) &&
      (v == Intended ==> run.outcome == Finished(ErrorInvalidPointer, None))
  {
    GraphicsHashFollowsReplacement(v, gfxMajor, env, h, t, disableWip, p);
  }

  /**
   * In a pipeline with vertex and geometry stages and no tessellation, the
   * context's merge gives the VS and the GS the merged list of their two lists
   * and changes nothing else.
   */
  lemma VertexGeometryMerge(v: Variant, p: GraphicsPipelineBuildInfo)
    requires HasModule(p, Vertex) && HasModule(p, Geometry) && !HasModule(p, TessControl) && !HasModule(p, TessEval)
    requires MergeUserDataNode(v, p.vs.userDataNodes, p.gs.userDataNodes).Ok?
    ensures var merged := MergeUserDataNode(v, p.vs.userDataNodes, p.gs.userDataNodes).value.nodes;
      DoUserDataNodeMerge(v, ActiveStages(p), p) ==
        Ok(p.(vs := p.vs.(userDataNodes := merged), gs := p.gs.(userDataNodes := merged)))
  {
    var mask := ActiveStages(p);
    assert Vertex in mask && Geometry in mask && TessControl !in mask && TessEval !in mask;
    assert MergesEsGs(mask) && !MergesLsHs(mask) && ExportStage(mask) == Vertex;
    var merged := MergeUserDataNode(v, p.vs.userDataNodes, p.gs.userDataNodes).value.nodes;
    var dm := DoUserDataNodeMerge(v, mask, p);
    assert dm.Ok? && dm.value.vs.userDataNodes == merged && dm.value.gs.userDataNodes == merged;
    assert dm.value.vs == p.vs.(userDataNodes := merged) by {
      assert GetPipelineShaderInfo(dm.value, Vertex).(userDataNodes := []) == p.vs.(userDataNodes := []);
    }
    assert dm.value.gs == p.gs.(userDataNodes := merged) by {
      assert GetPipelineShaderInfo(dm.value, Geometry).(userDataNodes := []) == p.gs.(userDataNodes := []);
    }
  }

  /**
   * As written, a GFX9 build of a vertex and geometry pipeline that misses the
   * cache returns with the caller's VS and GS user-data lists both replaced by
   * the list the context merged (and frees when it is destroyed); the intended
   * build leaves the caller's pipeline as it came.
   */
  lemma MergedListsLeakToCaller(v: Variant, gfxMajor: nat, env: Env, h: Hasher, t: BinaryTools, disableWip: bool,
                                p: GraphicsPipelineBuildInfo)
    requires 9 <= gfxMajor
    requires GraphicsRangeValuesOk(p) && ValidateStages(t, disableWip, p, 0) == Success
    requires env.replaceMode == ReplaceDisable && env.find(h.md5(GraphicsTokens(v, p))).state == Compiling
    requires env.compileFront(p) == Success && p.outputAlloc == Allocator(true)
    requires forall q :: |env.compileGraphics(q).1| > 0
    requires HasModule(p, Vertex) && HasModule(p, Geometry) && !HasModule(p, TessControl) && !HasModule(p, TessEval)
    requires MergeUserDataNode(v, p.vs.userDataNodes, p.gs.userDataNodes).Ok?
    ensures var run := BuildGraphicsPipeline(v, gfxMajor, env, h, t, disableWip, p);
      var merged := MergeUserDataNode(v, p.vs.userDataNodes, p.gs.userDataNodes).value.nodes;
      && run.outcome.Finished?
      && (v == AsWritten ==>
            run.pipeline == p.(vs := p.vs.(userDataNodes := merged), gs := p.gs.(userDataNodes := merged)))
      && (v == AsWritten && p.vs.userDataNodes != p.gs.userDataNodes ==> run.pipeline != p)
      && (v == Intended ==> run.pipeline == p)
  {
    var merged := MergeUserDataNode(v, p.vs.userDataNodes, p.gs.userDataNodes).value.nodes;
    var hash0 := h.md5(GraphicsTokens(v, p));
    assert !HashMatch(env, h, hash0);
    assert ReplaceShaders(env, false, p) == p;
    assert ReplacedStages(env, false, p) == {};
    VertexGeometryMerge(v, p);
    var gc := GraphicsCompile(v, gfxMajor, env, p);
    assert gc.result.Compiled? && |gc.result.elf| > 0;
    MissWithBinaryFinishes(v, env, hash0, gc.result.status, gc.result.elf);
  }

  /** A cache miss whose compile yields a binary returns, with the binary copied out on success. */
  lemma MissWithBinaryFinishes(v: Variant, env: Env, hash: Digest, st: Status, elf: seq<byte>)
    requires env.find(hash).state == Compiling && |elf| > 0
    ensures var r := Serve(v, env, hash, Success, false, Compiled(st, elf), Allocator(true));
      CacheLookup(env, hash, Success, false).state == Compiling &&
      r.outcome == Finished(st, if st == Success then Some(elf) else None)
  {
  }

  /**
   * As written, a compute pipeline whose stage has no module passes
   * validation and, when the cache hands out the entry for compiling, is
   * dereferenced through the null module; the intended code stops on the
   * assertion that a module was produced.
   */
  lemma ComputeWithoutModule(v: Variant, env: Env, h: Hasher, t: BinaryTools, disableWip: bool,
                             p: ComputePipelineBuildInfo)
    requires p.cs.moduleData.None?
    requires env.find(h.md5(ComputeTokens(v, p))).state == Compiling
    ensures var run := BuildComputePipeline(v, env, h, t, disableWip, p);
      (v == AsWritten ==> run.outcome.Crashed?) && (v == Intended ==> run.outcome.Stopped?)
  {
  }
}
