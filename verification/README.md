# LLPC pipeline compiler: a Dafny model

This project models the control logic of LLPC, the pipeline compiler of the
AMD Vulkan driver (xgl). It proves properties of that model. Two source files
hold this logic:

- `llpcGraphicsContext.cpp`, the per-pipeline graphics context. It covers:
  - the active-stage mask and stage navigation;
  - the per-stage shader hash;
  - the merge of user-data resource-node lists for fused hardware stages;
  - the geometry-shader on-chip sizing heuristic.
- `llpcCompiler.cpp`, the compiler object. It covers:
  - shader-module building and stage validation;
  - the pipeline hash input;
  - the pool of compilation contexts;
  - the GPU property table;
  - the cache and replacement protocol of building graphics and compute pipelines.

Debug assertions (`LLPC_ASSERT`, `LLPC_NEVER_CALLED`, `LLPC_NOT_IMPLEMENTED`)
stop the compiler. They appear as the `AssertFails` case of `Checked<T>`, or as
`Stopped` in a build. A null-pointer write or read is `Crashed`.

Several defects are modelled twice through a `Variant` parameter:
- `AsWritten` follows the code;
- `Intended` follows what the code evidently means.

Properties are proved for both readings; see "## Findings".

Modules, one per file:

| file | module | what it holds |
|---|---|---|
| common.dfy | Common | shader stages, result codes, `Option`, `Checked`, `Variant` |
| resource_nodes.dfy | ResourceNodes | resource mapping nodes, offsets, sortedness |
| pipeline_info.dfy | PipelineInfo | shader module data, per-stage shader info, pipeline build info |
| node_merge.dfy | NodeMerge | `MergeUserDataNode` |
| hash_tokens.dfy | HashTokens | the ordered MD5 update sequence of the pipeline hashes |
| graphics_context.dfy | GraphicsContext | stage mask, stage navigation, shader hash code, node-merge driver |
| gs_on_chip.dfy | GsOnChip | `CanGsOnChip` and its uint32 arithmetic |
| gpu_property.dfy | GpuProperty | `InitGpuProperty` |
| validation.dfy | Validation | `BuildShaderModule`, `ValidatePipelineShaderInfo` |
| context_pool.dfy | ContextPool | `AcquireContext`, `ReleaseContext`, pool teardown |
| build.dfy | Build | the cache, compile, copy-out and restore protocol of the two build entry points |

Some parts of the compiler are parameters of the model:
- the MD5 digest and its 64-bit compaction (`Hasher`);
- SPIR-V and bitcode recognition, entry-point lookup and the op-code check (`BinaryTools`);
- the shader cache's replies, the replacement modules read from disk, and the
  outcome of translation through ELF finalisation, split for graphics at the
  user-data node merge (`Build.Env`);
- command-line options.

## Model

| member | source | states |
|---|---|---|
| PipelineInfo.GetPipelineShaderInfo | icd/api/llpc/context/llpcGraphicsContext.cpp:161-193 | the shader info of a graphics stage is that stage's slot in VS, TCS, TES, GS, FS order |
| PipelineInfo.WithShaderInfo | icd/api/llpc/context/llpcGraphicsContext.cpp:484-497 | writing one stage's shader info changes that stage and nothing else of the pipeline |
| GraphicsContext.ActiveStages | icd/api/llpc/context/llpcGraphicsContext.cpp:94-107 | the stage mask only ever holds graphics stages and the copy shader |
| GraphicsContext.ActiveStagesIsActiveBelow | icd/api/llpc/context/llpcGraphicsContext.cpp:94-107 | the mask holds a graphics stage exactly when it has module data, and the copy shader exactly when the geometry stage has module data |
| GraphicsContext.ActiveBelowMembers | icd/api/llpc/context/llpcGraphicsContext.cpp:94-107 | after the loop has visited the first n stages, the mask holds exactly the visited stages with modules, plus the copy shader once geometry is visited with a module |
| GraphicsContext.ComputeStageMask | icd/api/llpc/context/llpcGraphicsContext.cpp:94-107 | the constructor's loop builds exactly that mask, and the active-stage count equals the number of stages in it |
| GraphicsContext.NewContext | icd/api/llpc/context/llpcGraphicsContext.cpp:65-107 | a new context has that mask and count, and tessellation off-chip mode is on iff the option is set or the IP is GFX9 or later |
| GraphicsContext.StageSlot | icd/api/llpc/context/llpcGraphicsContext.cpp:131-157 | resource usage and interface data exist for graphics stages and the copy shader only, in one of the five graphics slots; any other stage fails the assertion |
| GraphicsContext.StageSlotsShared | icd/api/llpc/context/llpcGraphicsContext.cpp:131-157 | two stages share a slot iff they are the same once the copy shader is read as geometry, so the copy shader shares geometry's slot |
| GraphicsContext.ScanDown | icd/api/llpc/context/llpcGraphicsContext.cpp:207-218 | the downward scan finds the nearest active graphics stage below the start, or none when there is none |
| GraphicsContext.ScanUp | icd/api/llpc/context/llpcGraphicsContext.cpp:235-246 | the upward scan finds the nearest active graphics stage above the start, or none when there is none |
| GraphicsContext.GetPrevShaderStage | icd/api/llpc/context/llpcGraphicsContext.cpp:195-221 | the copy shader is read as geometry; the result is the nearest active graphics stage strictly below, or `Invalid`; any other stage fails the assertion |
| GraphicsContext.GetNextShaderStage | icd/api/llpc/context/llpcGraphicsContext.cpp:223-249 | the same upward: the nearest active graphics stage strictly above, or `Invalid` |
| GraphicsContext.NextThenPrev | icd/api/llpc/context/llpcGraphicsContext.cpp:195-249 | the previous stage of an active stage's next stage is that stage again |
| GraphicsContext.GetShaderHashCode | icd/api/llpc/context/llpcGraphicsContext.cpp:281-333 | a hash code exists for graphics stages only, and it is 0 for a stage without module data |
| GraphicsContext.ShaderHashIsLocal | icd/api/llpc/context/llpcGraphicsContext.cpp:290-326 | a stage's hash depends only on its own shader info, the device index, and its stage-specific field: TCS patch control points, VS vertex input when it has bindings and attributes, or FS per-sample shading when set |
| GraphicsContext.ShaderHashTokensTrackStageState | icd/api/llpc/context/llpcGraphicsContext.cpp:296-321 | with the stage's own part alike, a stage's hash input is the same iff the device index agrees, and the TCS patch control points, the VS vertex input with bindings and attributes, or the FS per-sample-shading flag agree too |
| GraphicsContext.VertexHashIgnoresAttributeLessInput | icd/api/llpc/context/llpcGraphicsContext.cpp:304-318 | vertex input with bindings but no attributes leaves the VS hash unchanged, although it changes the pipeline hash input |
| GraphicsContext.DoUserDataNodeMerge | icd/api/llpc/context/llpcGraphicsContext.cpp:466-523 | without tessellation or geometry nothing changes. When VS and TCS are merged, both get the merged list of their two lists; when the export stage (TES with tessellation, else VS) and GS are merged, both get the merged list of those two. The driver fails iff one of these merges fails. A stage outside every merged pair keeps its shader info, and nothing but the user-data lists changes |
| GraphicsContext.EsGsPairIsGeometryAndPrevious | icd/api/llpc/context/llpcGraphicsContext.cpp:498-503 | the ES-GS lists are merged iff geometry and the export stage (TES with tessellation, else VS) are both active, and the export stage is then the active stage right before geometry |
| GraphicsContext.MergePairUnion | icd/api/llpc/context/llpcGraphicsContext.cpp:484-497 | with the intended merge, the shared list of a fused pair is sorted and covers exactly the offsets of both stages' lists |
| GraphicsContext.DoUserDataNodeMergeCoversBoth | icd/api/llpc/context/llpcGraphicsContext.cpp:466-523 | with the intended merge, the TCS list afterwards covers exactly the VS and TCS offsets, and the GS list exactly the export stage's and GS offsets, in ascending order |
| NodeMerge.MergeUserDataNode | icd/api/llpc/context/llpcGraphicsContext.cpp:529-651 | an empty list yields the other list itself with no new array. Two non-empty lists yield a newly allocated merged list |
| NodeMerge.MergeListsLength | icd/api/llpc/context/llpcGraphicsContext.cpp:546-629 | the merged length is n1 + n2 minus the number of offsets the two lists share |
| NodeMerge.MergeListsOffsets | icd/api/llpc/context/llpcGraphicsContext.cpp:546-629 | the intended merge covers exactly the union of both lists' offsets |
| NodeMerge.MergeListsSorted | icd/api/llpc/context/llpcGraphicsContext.cpp:546-629 | the intended merge of sorted lists starting at or after the current offset is sorted |
| NodeMerge.MergeListsPairs | icd/api/llpc/context/llpcGraphicsContext.cpp:575-608 | two nodes at the same offset agree in type and size. Non-table nodes there are identical, and the recursively merged table appears in the result |
| NodeMerge.MergeListsMembers | icd/api/llpc/context/llpcGraphicsContext.cpp:546-629 | every merged node comes from an input, or is a merged table at a shared offset. Every input node is kept, except tables at shared offsets, whose merge replaces them |
| NodeMerge.MergeListsCompatibleSucceeds | icd/api/llpc/context/llpcGraphicsContext.cpp:557-608 | sorted lists that never overlap across the lists, and share offsets only with identical non-table nodes or with equally sized tables whose sorted children are compatible in turn, merge with no assertion failing, recursing into the shared tables |
| NodeMerge.MergeUserDataNodeIntended | icd/api/llpc/context/llpcGraphicsContext.cpp:529-651 | the intended merge of sorted lists is sorted, is a union in offsets and in nodes, and has the expected length |
| NodeMerge.MergeAsWrittenLosesNode | icd/api/llpc/context/llpcGraphicsContext.cpp:566-574 | as written, a second-list node that comes first is replaced by the first list's node |
| HashTokens.GraphicsPipelineHashFollowsHashInput | icd/api/llpc/context/llpcCompiler.cpp:1466-1548 | two graphics pipelines that agree in every hashed field get the same pipeline hash, or fail the same range-value assertion |
| HashTokens.ComputePipelineHashFollowsHashInput | icd/api/llpc/context/llpcCompiler.cpp:1476-1566 | two compute pipelines whose stages agree in every hashed field get the same pipeline hash, or fail the same range-value assertion |
| HashTokens.GraphicsTokensNameModuleStages | icd/api/llpc/context/llpcCompiler.cpp:1495-1499 | the stage tokens of the graphics hash name exactly the stages with module data, in VS, TCS, TES, GS, FS order; a stage without module data contributes nothing |
| HashTokens.ShaderInfoStages | icd/api/llpc/context/llpcCompiler.cpp:1576-1580 | one stage's update sequence names its stage once when it has a module, otherwise not at all |
| HashTokens.StateTokensHashExactly | icd/api/llpc/context/llpcCompiler.cpp:1513-1543 | the fixed-function part of two pipelines hashes the same iff IA, VP, RS and CB agree in every hashed field. Per-sample shading counts only when set, and a color target only when its format is defined |
| HashTokens.ColorTargetTokensAreDefinedTriples | icd/api/llpc/context/llpcCompiler.cpp:1535-1543 | the color-target loop hashes the defined targets, three fields each, in slot order |
| HashTokens.ColorTargetsHashIffSameDefined | icd/api/llpc/context/llpcCompiler.cpp:1535-1543 | two target arrays hash the same iff their defined targets are the same |
| HashTokens.GraphicsTokensDependOnlyOnHashInput | icd/api/llpc/context/llpcCompiler.cpp:1486-1548 | pipelines that agree in every hashed field get the same graphics update sequence. Vertex input counts only with a binding; specialization data only with a map entry |
| HashTokens.GraphicsTokensTrackHashedState | icd/api/llpc/context/llpcCompiler.cpp:1486-1548 | with equal stage and vertex-input parts, the graphics update sequences agree iff the hashed fixed-function state agrees |
| HashTokens.ShaderInfoTokensDependOnHashedFields | icd/api/llpc/context/llpcCompiler.cpp:1576-1627 | a stage's update sequence depends only on module hash, entry name, specialization info, range values and user-data nodes |
| HashTokens.HashedValueBytes | icd/api/llpc/context/llpcCompiler.cpp:1610-1616 | a range value hashes the first arraySize * 16 bytes of its values, the count taken modulo 2^32 |
| HashTokens.RangeValueTailNotHashed | icd/api/llpc/context/llpcCompiler.cpp:1602-1616 | bytes past a range value's arraySize descriptors do not change its update sequence |
| HashTokens.NodeTokensPrefixFree | icd/api/llpc/context/llpcCompiler.cpp:1634-1680 | with the child count hashed, a node's update sequence determines the node and is never a proper prefix of another node's |
| HashTokens.ListTokensInjective | icd/api/llpc/context/llpcCompiler.cpp:1619-1626 | with table child counts hashed, two equally long node lists hash the same iff they are equal |
| HashTokens.TableChildCountCollision | icd/api/llpc/context/llpcCompiler.cpp:1656-1663 | as written, a table holding two nodes and a table holding one, followed by the second node, give the same update sequence |
| HashTokens.TableChildCountCollisionInPipelines | icd/api/llpc/context/llpcCompiler.cpp:1466-1474 | as written, two different graphics pipelines differing only in that nesting get the same pipeline hash |
| GsOnChip.U32 | icd/api/llpc/context/llpcGraphicsContext.cpp:352-445 | uint32 arithmetic wraps modulo 2^32 and leaves in-range values unchanged |
| GsOnChip.RoundUpToMultiple | icd/api/llpc/context/llpcGraphicsContext.cpp:422 | the smallest multiple at or above x, computed in uint32 |
| GsOnChip.RoundDownToMultiple | icd/api/llpc/context/llpcGraphicsContext.cpp:423 | the largest multiple at or below x |
| GsOnChip.Pow2Align | icd/api/llpc/context/llpcGraphicsContext.cpp:404-407 | alignment to a power of two rounds up to the next multiple |
| GsOnChip.EsMinVertsOfShapes | icd/api/llpc/context/llpcGraphicsContext.cpp:361-390 | points, lines, lines with adjacency, triangles and triangles with adjacency take 1, 2, 4, 3 and 6 vertices. The minimum ES vertex count is halved exactly for adjacency |
| GsOnChip.TargetPrims | icd/api/llpc/context/llpcGraphicsContext.cpp:394-397 | primitives per subgroup start at the default and, under adjacency or instancing, become the largest count whose product with the instance count stays within the hardware maximum, unless the default is already smaller |
| GsOnChip.Repartition | icd/api/llpc/context/llpcGraphicsContext.cpp:417-426 | the ES-GS ring is the first multiple of its per-primitive size at or above its proportional share of the budget. When it fits, the GS-VS ring is whole items summing within the budget and leaving less than one item over. As written, the GS-VS ring wraps past 2^32 when the rounded ES-GS ring exceeds the budget; with the intended saturating subtraction it is empty |
| GsOnChip.RingSizes | icd/api/llpc/context/llpcGraphicsContext.cpp:400-426 | a repartition happens iff the aligned initial size exceeds the budget. It then sets the total to the budget and gives the ES-GS ring the first multiple of its per-primitive size at or above its proportional share. When that ring fits, the GS-VS ring gets whole items using all the rest but less than one item; as intended, it is empty when that ring does not fit. Otherwise the ring sizes are the item sizes times the target primitive count, and the total is the aligned initial size, within the budget |
| GsOnChip.Conclude | icd/api/llpc/context/llpcGraphicsContext.cpp:429-453 | primitives and ES vertices per subgroup are the ring sizes divided by the item sizes. Fewer ES vertices than one primitive needs fails the assertion; the count is then reduced by one primitive's vertices beyond the first. The intended decision is on-chip iff primitives times instances reach 64 and ES vertices remain |
| GsOnChip.GsSizingFor | icd/api/llpc/context/llpcGraphicsContext.cpp:337-461 | GFX IP above 8 and unlisted input primitives stop the compiler. A sizing holds enough ES vertices for one primitive, fits its primitives in the GS-VS ring, and targets at most the default primitive count |
| GsOnChip.GsSizingParts | icd/api/llpc/context/llpcGraphicsContext.cpp:394-445 | the cap on target primitives holds. A repartition gives multiples of both per-primitive item sizes and a total equal to the budget, and the ES vertex count is reduced by one primitive's vertices beyond the first |
| GsOnChip.CanGsOnChip | icd/api/llpc/context/llpcGraphicsContext.cpp:337-461 | the decision exists iff the sizing does, and as written it is never `true` |
| GsOnChip.OnChipFitsBudget | icd/api/llpc/context/llpcGraphicsContext.cpp:400-453 | when the intended heuristic keeps the rings on chip, they fit in the LDS budget |
| GsOnChip.AsWrittenRefusesFittingPipeline | icd/api/llpc/context/llpcGraphicsContext.cpp:339 | a triangle pipeline with four output locations on GFX8 defaults is refused on-chip mode as written, and accepted by the intended heuristic |
| GsOnChip.RepartitionUnderflow | icd/api/llpc/context/llpcGraphicsContext.cpp:422-423 | a pipeline with 32 VS output locations rounds the ES-GS ring above the budget. As written, the GS-VS ring then wraps to 4294967040 DWORDs and 1073741760 primitives; the intended subtraction leaves it empty and off chip |
| GpuProperty.ShaderEngines | icd/api/llpc/context/llpcCompiler.cpp:1843-1875 | the shader-engine count by generation and stepping is 1, 2 or 4, and always 4 on GFX9 |
| GpuProperty.InitGpuProperty | icd/api/llpc/context/llpcCompiler.cpp:1821-1882 | GFX6-8, and GFX9 in a GFX9 build, get wave size 64, LDS 64 KiB per CU from GFX7 on (32 KiB on GFX6), and 32 user-data registers on GFX9 (16 before). Only GFX6-8 get on-chip defaults; other generations stop on "not implemented" |
| GpuProperty.DefaultsFeedGsHeuristic | icd/api/llpc/context/llpcCompiler.cpp:1834-1841 | the GFX6-8 defaults are the 64-primitive, 8192-DWORD, 128-DWORD-granularity limits the on-chip heuristic needs, and they are well formed for it |
| Validation.Classify | icd/api/llpc/context/llpcCompiler.cpp:369-383 | a binary is SPIR-V if it looks like SPIR-V, else LLVM bitcode if it looks like bitcode, else unrecognised |
| Validation.BuildShaderModule | icd/api/llpc/context/llpcCompiler.cpp:359-422 | an unrecognised binary gives ErrorInvalidShader, a missing allocator ErrorInvalidPointer, and a failed allocation ErrorOutOfMemory. Success holds an exact copy of the code, its binary type, and the MD5 of the code bytes |
| Validation.ValidatePipelineShaderInfo | icd/api/llpc/context/llpcCompiler.cpp:1684-1734 | no module and bitcode pass; an unrecognised binary is ErrorInvalidShader. SPIR-V passes iff an entry point is named that serves the stage, unless, with development features disabled, it fails the op-code check and is Unsupported |
| Validation.BuiltModuleValidation | icd/api/llpc/context/llpcCompiler.cpp:359-422 | a built module validates iff it is bitcode, or SPIR-V with an entry point for the stage that passes the op-code check when development features are disabled |
| ContextPool.AcquireContext | icd/api/llpc/context/llpcCompiler.cpp:1886-1912 | the returned context is in use; the pool grows by one iff no context was free. Intended: the first free context is taken and nothing else changes. As written: every free context is marked in use and the last is returned |
| ContextPool.AcquireOutcomeUnique | icd/api/llpc/context/llpcCompiler.cpp:1886-1912 | the acquire contract fixes the resulting pool and index completely |
| ContextPool.ReleaseContext | icd/api/llpc/context/llpcCompiler.cpp:1916-1921 | release clears only the given context's flag and keeps the pool size |
| ContextPool.Teardown | icd/api/llpc/context/llpcCompiler.cpp:313-325 | destroying the compiler asserts that no context is in use, then empties the pool |
| ContextPool.AcquireReleaseRestores | icd/api/llpc/context/llpcCompiler.cpp:1886-1921 | with the intended scan, releasing what was acquired restores the pool, plus one free context if none was free |
| ContextPool.BalancedUseTearsDown | icd/api/llpc/context/llpcCompiler.cpp:308-325 | with the intended scan, an acquire and release on an idle pool leave a pool that tears down |
| ContextPool.AsWrittenLeaksContext | icd/api/llpc/context/llpcCompiler.cpp:1893-1900 | as written, with two free contexts an acquire and release leave one context in use forever, and teardown fails its assertion |
| Build.CacheLookup | icd/api/llpc/context/llpcCompiler.cpp:546-567 | a failed validation skips the cache, and a replaced shader goes straight to compiling. Otherwise the cache is asked and a ready entry retrieved; an `ErrorUnknown` retrieval demotes the entry to compiling without a handle |
| Build.CompileStep | icd/api/llpc/context/llpcCompiler.cpp:569-906 | outside compiling nothing happens. Compiling appends a context acquire. It halts right there when the compile stops or crashes, or when an empty ELF would be stored. Otherwise it releases the context last and keeps the compile's status and ELF. It stores the ELF iff nothing was replaced, a handle is held and the compile succeeded; it resets the entry iff nothing was replaced, a handle is held and the compile failed |
| Build.CopyOut | icd/api/llpc/context/llpcCompiler.cpp:909-927 | an allocator that returns a buffer gets the binary. As written, a missing allocator or a null buffer leads to a copy into null, which crashes for a non-empty binary. The intended copy-out reports ErrorInvalidPointer or ErrorOutOfMemory |
| Build.ReplaceShaders | icd/api/llpc/context/llpcCompiler.cpp:474-494 | replacement touches only the stages' module data |
| Build.ReplaceShadersSwapsModules | icd/api/llpc/context/llpcCompiler.cpp:474-494 | exactly the replaced stages get the replacement module. Replacement needs a hash match and a module in the stage |
| Build.RestoreUndoesReplace | icd/api/llpc/context/llpcCompiler.cpp:941-952 | restoring the replaced stages gives back the caller's pipeline exactly |
| Build.ValidateStages | icd/api/llpc/context/llpcCompiler.cpp:445-448 | the validation loop succeeds iff every stage validates, and otherwise returns the status of the first stage that fails |
| Build.GraphicsDigest | icd/api/llpc/context/llpcCompiler.cpp:1486-1548 | the digest exists iff every range value is a sampler, and its compaction is the pipeline hash |
| Build.GraphicsCompile | icd/api/llpc/context/llpcCompiler.cpp:569-716 | a front end that fails gives its status and no merge. On GFX8 and before the back end compiles the pipeline as given. On GFX9 and later the user-data merge runs first: its assertion stops the compile, and otherwise the back end compiles the merged pipeline. As written the merged lists are written into the pipeline given, while the intended merge leaves it alone; nothing but user-data lists ever changes |
| Build.BuildGraphicsPipeline | icd/api/llpc/context/llpcCompiler.cpp:426-958 | a non-sampler range value stops the build before the cache is touched. A build that returns a status leaves the caller's pipeline as it came except for user-data lists. Those change only as written, on GFX9 and later, and when a context was acquired to compile |
| Build.RestoreKeepsUserData | icd/api/llpc/context/llpcCompiler.cpp:941-952 | putting the original modules back into a pipeline that the compile changed only in user-data lists gives the caller's pipeline up to those lists |
| Build.VertexGeometryMerge | icd/api/llpc/context/llpcGraphicsContext.cpp:500-520 | with vertex and geometry stages and no tessellation, the merge gives the VS and GS the merged list of their two lists and changes nothing else |
| Build.MissWithBinaryFinishes | icd/api/llpc/context/llpcCompiler.cpp:554-927 | a cache miss whose compile yields a binary returns the compile's status, with the binary copied out on success |
| Build.MergedListsLeakToCaller | icd/api/llpc/context/llpcCompiler.cpp:713-716 | a GFX9 VS+GS build that misses the cache returns with the caller's VS and GS lists both set to the merged list as written, and so differs from the input when the two lists differed. The intended build returns the caller's pipeline unchanged |
| Build.GraphicsHashFollowsReplacement | icd/api/llpc/context/llpcCompiler.cpp:451-503 | a stage is replaced iff the hash matches, it has a module and a replacement is found, and never with replacement disabled. The cache is asked with the original hash iff nothing was replaced |
| Build.ComputeDigest | icd/api/llpc/context/llpcCompiler.cpp:1552-1566 | the compute digest exists iff the stage's range values are samplers, and its compaction is the pipeline hash |
| Build.ComputeCompile | icd/api/llpc/context/llpcCompiler.cpp:1093-1166 | SPIR-V compiles. As written, a missing module is dereferenced and bitcode stops on "not implemented"; the intended code compiles bitcode too and never crashes |
| Build.BuildComputePipeline | icd/api/llpc/context/llpcCompiler.cpp:964-1300 | a non-sampler range value stops the build before the cache is touched; every build that returns a status leaves the pipeline as it came |
| Build.ReplacementBypassesCache | icd/api/llpc/context/llpcCompiler.cpp:546-551 | with a replaced shader there is no lookup, retrieval, store or reset; a validated compile acquires and releases one context |
| Build.CacheHitSkipsCompile | icd/api/llpc/context/llpcCompiler.cpp:554-557 | a ready entry whose retrieval is not `ErrorUnknown` costs one lookup and one retrieval, no context, and returns the retrieval's status or copies out the cached binary |
| Build.DemotedEntryNotStored | icd/api/llpc/context/llpcCompiler.cpp:557-564 | a ready entry whose retrieval is `ErrorUnknown` is compiled with neither store nor reset |
| Build.CompilingEntrySettledOnce | icd/api/llpc/context/llpcCompiler.cpp:893-904 | an entry handed out for compiling gets exactly one store or reset: the store iff the compile succeeded. An empty successful ELF stops instead |
| Build.ContextBalanced | icd/api/llpc/context/llpcCompiler.cpp:569-906 | at most one context is acquired, iff the lookup leaves the entry compiling. Every build that returns a status releases it; only a build halted inside the compile keeps it |
| Build.GraphicsBuildContextBalanced | icd/api/llpc/context/llpcCompiler.cpp:426-958 | a whole graphics build acquires at most one context, and a build that returns a status releases it |
| Build.ComputeBuildContextBalanced | icd/api/llpc/context/llpcCompiler.cpp:964-1300 | the same for a whole compute build |
| Build.NullAllocatorCopy | icd/api/llpc/context/llpcCompiler.cpp:911-923 | a validated cache hit with a non-empty binary and no allocator crashes as written, and returns ErrorInvalidPointer as intended |
| Build.ComputeWithoutModule | icd/api/llpc/context/llpcCompiler.cpp:1093-1166 | a compute stage without module data that reaches the compile crashes as written, and stops on the module assertion as intended |

## Left out

- MD5 and `Compact64` are not modelled. They are the function fields of `Hasher`. A digest over a byte buffer is the MD5 of that single update.
- The MD5 update sequence is modelled as tokens. Byte-level layout of structs (`sizeof`, padding) is not modelled; a token holds the field values it stands for.
- NodeMerge.MergeListsPairs: two non-table nodes at a shared offset are required to be equal as values. The source compares them with `memcmp` over `sizeof(ResourceMappingNode)` (llpcGraphicsContext.cpp:601), which also compares the union's unused bytes and any padding; those bytes are not modelled.
- `UpdateShaderHashForPipelineShaderInfo` is not part of this model. The stage part of the per-stage hash is a parameter of `GraphicsContext.GetShaderHashCode`.
- SPIR-V translation, lowering, patching, shader merging, code generation, ELF finalisation, the copy shader and the null fragment shader are not modelled. Each compile is an input returning a status and an ELF. A graphics compile is two inputs, split at the GFX9 user-data node merge: the status up to the preliminary patch, and the status and ELF of the rest.
- The `Unsupported` result for tessellation and geometry stages with development features disabled (`llpcCompiler.cpp:591-597`) is part of that compile input. Stage-by-stage ordering of compile failures is not modelled.
- The shader cache is not modelled. Its replies to lookup and retrieval are inputs. Which cache is used (`ShaderCacheMode`) and what it does on store and reset are left out.
- `ReplaceShader` reads files. It is an input that finds a replacement module or not. The listed-hash text search is an input predicate on the 64-bit hash.
- Command-line options (replacement mode, development-feature switch, tessellation off-chip, GFX9 build) are parameters.
- Pipeline dumping, logging, time profiling and `EnableOuts` output are not modelled; they only produce output.
- Mutexes around the context pool are not modelled. The pool and the cache are sequential.
- Build does not thread the context pool. It records `Acquire` and `Release` events where the pool is used, and `ContextPool` models the pool itself.
- `Create`, `Destroy`, `IsVertexFormatSupported`, `CreateShaderCache`, `BuildNullFs`, `BuildCopyShader`, `OptimizeSpirv`, `InitShaderInfoForNullFs` and `GetDummyResourceMapNodes` are not modelled. They are setup, I/O or code generation.
- Freeing merged node arrays and replacement modules is not modelled. As written, the merged arrays the caller's pipeline is left pointing at (`Build.MergedListsLeakToCaller`) are freed when the graphics context is destroyed at the end of the build; the model keeps the lists by value and does not show them dangling.
- GsOnChip.GsSizingFor: requires non-zero item sizes, a non-zero instance count and a non-zero divisor at line 422 on GFX8 and before with a listed input primitive, because the sizing divides by them without a check there; on later generations and for an unlisted primitive the sizing stops before any division, and nothing is required.
- GsOnChip.GsSizingFor: requires all usage counts and limits to fit in uint32 (`WellFormed`), because the source's fields are uint32.
- GsOnChip.OnChipFitsBudget: proved only when the initial ring sizes do not wrap past 2^32 (`NoWrap`), because wrapped products make the budget comparison meaningless.
- GsOnChip.Conclude: the subtraction at line 445 keeps its uint32 wrap as written. It wraps only when the ES-GS ring holds fewer vertices than one primitive needs, which the assertion at line 432 already excludes for non-adjacency primitives.
- NodeMerge.MergeLists: node offsets and ends are unbounded naturals. In the source, `offsetInDwords + sizeInDwords` (llpcGraphicsContext.cpp:558-568 and 610) is a uint32 sum that can wrap and slip past the overlap and ascending-offset assertions; the model does not reproduce that wrap.
- HashTokens.HashedValueBytes: a values buffer shorter than `arraySize * 16` bytes is hashed whole. The source would read past the buffer's end, which has no value to model.
- GraphicsContext.ShaderHashTokensTrackStageState: the converse (a changed stage field changes the hash) is stated for the hash input, not the 64-bit hash code, because MD5 and its compaction are parameters with no collision-freedom to rely on.
- `Pow2Align`, `RoundUpToMultiple` and `RoundDownToMultiple` are not in the sources; only their call sites at llpcGraphicsContext.cpp:407, 422 and 423 are. They are defined here arithmetically in uint32: `RoundUpToMultiple` computes `(x + m - 1) / m * m` with the sum wrapping modulo 2^32, `RoundDownToMultiple` is `x / m * m`, and `Pow2Align` rounds up to a multiple of a power of two.
- `Gfx6::GsOnChipMaxPrimsPerSubgroup` is not in the sources. It is the `maxPrimsPerSubgroup` field of `GsLdsLimits`.
- The `DisableGsOnChip` option and the callers of `CanGsOnChip` are not modelled.
- `LLPC_BUILD_GFX9` is assumed defined in the graphics context and the graphics build, so GFX9 forces tessellation off-chip mode and runs the user-data node merge. In `InitGpuProperty` it is the `gfx9Build` parameter.

## Findings

| source | as written | input that shows it | evidently intended | confidence | as-written member | corrected member |
|---|---|---|---|---|---|---|
| icd/api/llpc/context/llpcGraphicsContext.cpp:570 | when the second list's node has the lower offset, the first list's node is pushed | lists [push constant at offset 4] and [push constant at offset 0] merge to two copies of the offset-4 node | push the second list's node | not executed; high | NodeMerge.MergeAsWrittenLosesNode | NodeMerge.MergeUserDataNodeIntended |
| icd/api/llpc/context/llpcGraphicsContext.cpp:339 | `gsOnChip` starts `false` and is only ever set to `false`, so `CanGsOnChip` never enables on-chip mode | VS+GS+FS triangles, 4 output locations, 3 output vertices, GFX8 defaults: the rings fit, and the answer is still `false` | start `true` and turn it off below the threshold | not executed; high | GsOnChip.AsWrittenRefusesFittingPipeline | GsOnChip.OnChipFitsBudget |
| icd/api/llpc/context/llpcGraphicsContext.cpp:423 | `maxLdsSize - esGsLdsSize` in uint32 after rounding the ES-GS ring up at line 422; the ring can exceed the budget and the difference wraps | VS+GS triangles, 32 VS output locations, one GS output: the ES-GS ring rounds to 8448 > 8192 DWORDs, and the GS-VS ring wraps to 4294967040 DWORDs | a saturating subtraction, leaving no GS-VS ring | not executed; high | GsOnChip.RepartitionUnderflow | GsOnChip.OnChipFitsBudget |
| icd/api/llpc/context/llpcCompiler.cpp:1893-1900 | the scan for a free context never stops, so it marks every free context in use and returns the last one | a pool of two free contexts: after an acquire and its release, the first context stays in use and teardown fails its assertion | stop at the first free context | not executed; high | ContextPool.AsWrittenLeaksContext | ContextPool.BalancedUseTearsDown |
| icd/api/llpc/context/llpcGraphicsContext.cpp:484-520 | the context holds the caller's pipeline info, and the GFX9 user-data merge casts away `const` and writes the merged node count and array into the caller's shader infos; the restore at llpcCompiler.cpp:941-952 puts back only module data, and the context frees the merged arrays when the build ends | a GFX9 VS+GS+FS pipeline that misses the cache, with different non-empty VS and GS user-data lists: the build succeeds and the caller's VS and GS lists are both the merged list | merge into the context's own copy of the shader infos, leaving the caller's pipeline as it came | not executed; high | Build.MergedListsLeakToCaller | Build.BuildGraphicsPipeline |
| icd/api/llpc/context/llpcCompiler.cpp:919-923 | without an allocator, or with an allocator returning null, the binary is still copied into the null buffer | a validated graphics build with no allocator whose cache entry is ready with a non-empty binary | return before the copy with ErrorInvalidPointer or ErrorOutOfMemory | not executed; high | Build.NullAllocatorCopy | Build.CopyOut |
| icd/api/llpc/context/llpcCompiler.cpp:1150 | the bitcode branch is the `else` of the null test on the module data, so a stage without module data is dereferenced, and bitcode reaches "not implemented" | a compute pipeline whose stage has no module data and whose cache entry is handed out for compiling | test the binary type inside the non-null branch | not executed; high | Build.ComputeWithoutModule | Build.ComputeCompile |
| icd/api/llpc/context/llpcCompiler.cpp:1656-1663 | a table pointer's child count is not hashed, so where a table ends is lost | a table holding nodes a and b, versus a table holding a followed by b at the top level, in the same vertex stage | hash the child count before the children | not executed; medium | HashTokens.TableChildCountCollisionInPipelines | HashTokens.ListTokensInjective |
