/**
 * The sequence of values the compiler feeds to its MD5 context when it hashes
 * a pipeline. Each `Md5::Update` call becomes one typed token, so a pipeline's
 * hash input is a `seq<Token>`; the digest and its 64-bit compaction are
 * functions the caller supplies, since neither is given here.
 */
module HashTokens {
  import opened Common
  import opened ResourceNodes
  import opened PipelineInfo

  datatype Token =
    | StageTok(stage: ShaderStage)
    | DigestTok(digest: Digest)
    | CharsTok(chars: string)
    | BytesTok(bytes: seq<byte>)
    | U32(value: nat)
    | BoolTok(flag: bool)
    | NodeTypeTok(nodeType: NodeType)
    | SrdRangeTok(descSet: nat, binding: nat)
    | MapEntriesTok(entries: seq<SpecMapEntry>)
    | BindingsTok(bindings: seq<VertexBinding>)
    | AttributesTok(attributes: seq<VertexAttribute>)

  /** MD5 over a token stream, and the 64-bit compaction of a digest. */
  datatype Hasher = Hasher(md5: seq<Token> -> Digest, compact64: Digest -> nat)

  /**
   * The tokens of one resource mapping node: type, size and offset, then the
   * descriptor's (set, binding), the table's children in order, or the
   * indirect user-data size; nothing more for a push-constant range.
   *
   * As written the child count of a table is not hashed; `Intended` hashes it
   * ahead of the children.
   */
  function NodeTokens(v: Variant, n: ResourceNode): seq<Token>
    decreases NodeSize(n), 1
  {
    [NodeTypeTok(TypeOf(n)), U32(n.sizeInDwords), U32(n.offsetInDwords)] +
    match n.content
    case Descriptor(_, s, b) => [SrdRangeTok(s, b)]
    case TablePtr(next) =>
      (if v == Intended then [U32(|next|)] else []) + ListTokens(v, next)
    case IndirectUserData(size) => [U32(size)]
    case PushConstRange => []
  }

  /** The tokens of a node list: each node's tokens in list order, with no count. */
  function ListTokens(v: Variant, l: seq<ResourceNode>): seq<Token>
    decreases ListSize(l), 2
  {
    if |l| == 0 then []
    else
      ListSizeSplit(l);
      NodeTokens(v, l[0]) + ListTokens(v, l[1..])
  }

  /** Number of bytes a descriptor takes in a range value. */
  const DescriptorSize: nat := 16

  /**
   * The value bytes the hash reads from a range value: `arraySize` descriptors
   * of `DescriptorSize` bytes, the byte count taken modulo 2^32 as the 32-bit
   * product wraps. A buffer shorter than that count is hashed whole.
   */
  function HashedValueBytes(r: DescriptorRangeValue): (b: seq<byte>)
    ensures b <= r.values
    ensures (r.arraySize * DescriptorSize) % Two32 <= |r.values| ==> |b| == (r.arraySize * DescriptorSize) % Two32
    ensures |r.values| < (r.arraySize * DescriptorSize) % Two32 ==> b == r.values
  {
    var n := (r.arraySize * DescriptorSize) % Two32;
    if n <= |r.values| then r.values[..n] else r.values
  }

  /** The tokens of the immutable descriptor range values. */
  function RangeValueTokens(rv: seq<DescriptorRangeValue>): seq<Token>
  {
    if |rv| == 0 then []
    else
      var r := rv[0];
      [NodeTypeTok(r.nodeType), U32(r.descSet), U32(r.binding), U32(r.arraySize), BytesTok(HashedValueBytes(r))]
      + RangeValueTokens(rv[1..])
  }

  /**
   * Bytes past the descriptors a range value declares are not hashed: two range
   * values alike in their header and in their first `arraySize * DescriptorSize`
   * bytes contribute the same tokens.
   */
  lemma RangeValueTailNotHashed(a: DescriptorRangeValue, b: DescriptorRangeValue)
    requires a.nodeType == b.nodeType && a.descSet == b.descSet && a.binding == b.binding
    requires a.arraySize == b.arraySize
    requires a.arraySize * DescriptorSize < Two32
    requires a.arraySize * DescriptorSize <= |a.values| && a.arraySize * DescriptorSize <= |b.values|
    requires a.values[..a.arraySize * DescriptorSize] == b.values[..b.arraySize * DescriptorSize]
    ensures RangeValueTokens([a]) == RangeValueTokens([b])
  {
    assert [a][1..] == [] && [b][1..] == [];
  }

  /**
   * What one stage contributes: nothing without module data; otherwise the
   * stage and module hash, the entry name if given, the specialization map if
   * it has entries, the range values if there are any, and the user-data
   * nodes.
   */
  function ShaderInfoTokens(v: Variant, stage: ShaderStage, info: PipelineShaderInfo): seq<Token>
  {
    if info.moduleData.None? then []
    else ShaderInfoHeader(stage, info) + ListTokens(v, info.userDataNodes)
  }

  /** The tokens of a present stage that come before its user-data nodes. */
  function ShaderInfoHeader(stage: ShaderStage, info: PipelineShaderInfo): seq<Token>
    requires info.moduleData.Some?
  {
      [StageTok(stage), DigestTok(info.moduleData.value.hash)]
      + (match info.entryTarget case Some(name) => [CharsTok(name)] case None => [])
      + (match info.specInfo
         case Some(si) =>
           if |si.mapEntries| > 0 then
             [U32(|si.mapEntries|), MapEntriesTok(si.mapEntries), U32(|si.data|), BytesTok(si.data)]
           else []
         case None => [])
      + (if |info.rangeValues| > 0 then [U32(|info.rangeValues|)] + RangeValueTokens(info.rangeValues) else [])
  }

  /** The range-value assertion of the hashing code: every range value of a present module is a sampler. */
  predicate RangeValuesAreSamplers(info: PipelineShaderInfo)
  {
    info.moduleData.Some? ==>
      forall k :: 0 <= k < |info.rangeValues| ==> info.rangeValues[k].nodeType == DescriptorSampler
  }

  /** The vertex input contributes its bindings and attributes only when it has at least one binding. */
  function VertexInputTokens(vi: Option<VertexInputState>): seq<Token>
  {
    match vi
    case Some(s) =>
      if |s.bindings| > 0 then
        [U32(|s.bindings|), BindingsTok(s.bindings), U32(|s.attributes|), AttributesTok(s.attributes)]
      else []
    case None => []
  }

  /** A color target's own tokens. */
  function TargetTriple(t: ColorTarget): seq<Token>
  {
    [U32(t.format), BoolTok(t.blendEnable), BoolTok(t.blendSrcAlphaToColor)]
  }

  /** The color-target loop: a target takes part only if its format is defined. */
  function ColorTargetTokens(ts: seq<ColorTarget>): seq<Token>
  {
    if |ts| == 0 then []
    else
      (if ts[0].format != FormatUndefined then TargetTriple(ts[0]) else [])
      + ColorTargetTokens(ts[1..])
  }

  /** The color targets with a defined format, in slot order. */
  function DefinedTargets(ts: seq<ColorTarget>): seq<ColorTarget>
  {
    if |ts| == 0 then []
    else (if ts[0].format != FormatUndefined then [ts[0]] else []) + DefinedTargets(ts[1..])
  }

  /** Three tokens per target. */
  function Triples(ts: seq<ColorTarget>): seq<Token>
  {
    if |ts| == 0 then [] else TargetTriple(ts[0]) + Triples(ts[1..])
  }

  /**
   * The fixed-function fields a graphics pipeline's hash covers, in hashing
   * order: input assembly, viewport, rasterizer and color-blend flags. The
   * per-sample-shading flag is hashed only when it is set.
   */
  function FixedStateTokens(p: GraphicsPipelineBuildInfo): seq<Token>
  {
    if p.rs.perSampleShading then
      [U32(p.ia.topology), U32(p.ia.patchControlPoints), U32(p.ia.deviceIndex), BoolTok(p.ia.disableVertexReuse),
       BoolTok(p.vp.depthClipEnable), BoolTok(p.rs.rasterizerDiscardEnable), BoolTok(true),
       U32(p.rs.numSamples), U32(p.rs.samplePatternIdx), U32(p.rs.usrClipPlaneMask),
       BoolTok(p.cb.alphaToCoverageEnable), BoolTok(p.cb.dualSourceBlendEnable)]
    else
      [U32(p.ia.topology), U32(p.ia.patchControlPoints), U32(p.ia.deviceIndex), BoolTok(p.ia.disableVertexReuse),
       BoolTok(p.vp.depthClipEnable), BoolTok(p.rs.rasterizerDiscardEnable),
       U32(p.rs.numSamples), U32(p.rs.samplePatternIdx), U32(p.rs.usrClipPlaneMask),
       BoolTok(p.cb.alphaToCoverageEnable), BoolTok(p.cb.dualSourceBlendEnable)]
  }

  /** The fixed-function part of a graphics pipeline's hash input: the fields, then the defined color targets. */
  function StateTokens(p: GraphicsPipelineBuildInfo): seq<Token>
  {
    FixedStateTokens(p) + ColorTargetTokens(p.cb.targets)
  }

  /** The shader stages' part of a graphics pipeline's hash input, vertex to fragment. */
  function StageTokens(v: Variant, p: GraphicsPipelineBuildInfo): seq<Token>
  {
    ShaderInfoTokens(v, Vertex, p.vs)
    + ShaderInfoTokens(v, TessControl, p.tcs)
    + ShaderInfoTokens(v, TessEval, p.tes)
    + ShaderInfoTokens(v, Geometry, p.gs)
    + ShaderInfoTokens(v, Fragment, p.fs)
  }

  /** The whole hash input of a graphics pipeline. */
  function GraphicsTokens(v: Variant, p: GraphicsPipelineBuildInfo): seq<Token>
  {
    StageTokens(v, p) + VertexInputTokens(p.vertexInput) + StateTokens(p)
  }

  /** The whole hash input of a compute pipeline: its one stage. */
  function ComputeTokens(v: Variant, p: ComputePipelineBuildInfo): seq<Token>
  {
    ShaderInfoTokens(v, Compute, p.cs)
  }

  /** The range-value assertion over every stage of a graphics pipeline. */
  predicate GraphicsRangeValuesOk(p: GraphicsPipelineBuildInfo)
  {
    RangeValuesAreSamplers(p.vs) && RangeValuesAreSamplers(p.tcs) && RangeValuesAreSamplers(p.tes)
    && RangeValuesAreSamplers(p.gs) && RangeValuesAreSamplers(p.fs)
  }

  /**
   * The 64-bit pipeline hash of a graphics pipeline: the compacted digest of
   * its hash input, or an assertion failure for a non-sampler range value.
   */
  function GetGraphicsPipelineHash(h: Hasher, v: Variant, p: GraphicsPipelineBuildInfo): (r: Checked<nat>)
    ensures r.Ok? <==> GraphicsRangeValuesOk(p)
    ensures r.Ok? ==> r.value == h.compact64(h.md5(GraphicsTokens(v, p)))
  {
    if GraphicsRangeValuesOk(p) then Ok(h.compact64(h.md5(GraphicsTokens(v, p))))
    else AssertFails("descriptor range value is not a sampler")
  }

  /**
   * The 64-bit pipeline hash of a compute pipeline: the compacted digest of
   * its hash input, or an assertion failure for a non-sampler range value.
   */
  function GetComputePipelineHash(h: Hasher, v: Variant, p: ComputePipelineBuildInfo): (r: Checked<nat>)
    ensures r.Ok? <==> RangeValuesAreSamplers(p.cs)
    ensures r.Ok? ==> r.value == h.compact64(h.md5(ComputeTokens(v, p)))
  {
    if RangeValuesAreSamplers(p.cs) then Ok(h.compact64(h.md5(ComputeTokens(v, p))))
    else AssertFails("descriptor range value is not a sampler")
  }

  /**
   * Graphics pipelines that agree on everything the hash covers get the same
   * pipeline hash, or the same range-value assertion failure.
   */
  lemma GraphicsPipelineHashFollowsHashInput(h: Hasher, v: Variant, p: GraphicsPipelineBuildInfo, q: GraphicsPipelineBuildInfo)
    requires SameHashInput(p, q)
    ensures GetGraphicsPipelineHash(h, v, p) == GetGraphicsPipelineHash(h, v, q)
  {
    GraphicsTokensDependOnlyOnHashInput(v, p, q);
    SamplersFollowStageInput(p.vs, q.vs);
    SamplersFollowStageInput(p.tcs, q.tcs);
    SamplersFollowStageInput(p.tes, q.tes);
    SamplersFollowStageInput(p.gs, q.gs);
    SamplersFollowStageInput(p.fs, q.fs);
  }

  lemma SamplersFollowStageInput(a: PipelineShaderInfo, b: PipelineShaderInfo)
    requires SameStageInput(a, b)
    ensures RangeValuesAreSamplers(a) == RangeValuesAreSamplers(b)
  {
  }

  /**
   * Compute pipelines whose one stage the hash cannot tell apart get the same
   * pipeline hash, or the same range-value assertion failure.
   */
  lemma ComputePipelineHashFollowsHashInput(h: Hasher, v: Variant, p: ComputePipelineBuildInfo, q: ComputePipelineBuildInfo)
    requires SameStageInput(p.cs, q.cs)
    ensures GetComputePipelineHash(h, v, p) == GetComputePipelineHash(h, v, q)
  {
    ShaderInfoTokensDependOnHashedFields(v, Compute, p.cs, q.cs);
    SamplersFollowStageInput(p.cs, q.cs);
  }

  /** The color-target loop hashes exactly the defined targets, three tokens each, in slot order. */
  lemma {:induction false} ColorTargetTokensAreDefinedTriples(ts: seq<ColorTarget>)
    ensures ColorTargetTokens(ts) == Triples(DefinedTargets(ts))
  {
    if |ts| > 0 {
      ColorTargetTokensAreDefinedTriples(ts[1..]);
      var d := DefinedTargets(ts[1..]);
      if ts[0].format != FormatUndefined {
        assert DefinedTargets(ts) == [ts[0]] + d;
        assert ([ts[0]] + d)[1..] == d;
        assert Triples([ts[0]] + d) == TargetTriple(ts[0]) + Triples(d);
      } else {
        assert DefinedTargets(ts) == d;
        assert ColorTargetTokens(ts) == [] + ColorTargetTokens(ts[1..]);
      }
    }
  }

  /** Distinct target lists give distinct token streams. */
  lemma {:induction false} TriplesInjective(a: seq<ColorTarget>, b: seq<ColorTarget>)
    requires Triples(a) == Triples(b)
    ensures a == b
  {
    if |a| > 0 && |b| > 0 {
      assert Triples(a)[..3] == TargetTriple(a[0]);
      assert Triples(b)[..3] == TargetTriple(b[0]);
      assert Triples(a)[3..] == Triples(a[1..]);
      assert Triples(b)[3..] == Triples(b[1..]);
      TriplesInjective(a[1..], b[1..]);
      assert a == [a[0]] + a[1..];
      assert b == [b[0]] + b[1..];
    }
  }

  /**
   * Two color-blend target arrays give the same hash input exactly when they
   * have the same defined targets in the same order: undefined slots are
   * invisible to the hash and defined ones are never conflated.
   */
  lemma ColorTargetsHashIffSameDefined(t1: seq<ColorTarget>, t2: seq<ColorTarget>)
    ensures ColorTargetTokens(t1) == ColorTargetTokens(t2) <==> DefinedTargets(t1) == DefinedTargets(t2)
  {
    ColorTargetTokensAreDefinedTriples(t1);
    ColorTargetTokensAreDefinedTriples(t2);
    if ColorTargetTokens(t1) == ColorTargetTokens(t2) {
      TriplesInjective(DefinedTargets(t1), DefinedTargets(t2));
    }
  }

  /** The node type names the content's constructor, and the descriptor kind. */
  lemma TypeOfDeterminesShape(a: ResourceNode, b: ResourceNode)
    requires TypeOf(a) == TypeOf(b)
    ensures a.content.Descriptor? <==> b.content.Descriptor?
    ensures a.content.Descriptor? ==> a.content.kind == b.content.kind
    ensures a.content.TablePtr? <==> b.content.TablePtr?
    ensures a.content.IndirectUserData? <==> b.content.IndirectUserData?
    ensures a.content.PushConstRange? <==> b.content.PushConstRange?
  {
  }

  /**
   * With the child count hashed, a node's tokens are a prefix code: if one
   * node's tokens followed by anything equal another node's tokens followed
   * by anything, the nodes and the remainders are equal.
   */
  lemma {:induction false} NodeTokensPrefixFree(a: ResourceNode, b: ResourceNode, r1: seq<Token>, r2: seq<Token>)
    requires NodeTokens(Intended, a) + r1 == NodeTokens(Intended, b) + r2
    ensures a == b && r1 == r2
    decreases NodeSize(a), 1
  {
    var ta, tb := NodeTokens(Intended, a), NodeTokens(Intended, b);
    assert (ta + r1)[0] == (tb + r2)[0];
    assert (ta + r1)[1] == (tb + r2)[1];
    assert (ta + r1)[2] == (tb + r2)[2];
    TypeOfDeterminesShape(a, b);
    var hdr := [NodeTypeTok(TypeOf(a)), U32(a.sizeInDwords), U32(a.offsetInDwords)];
    match a.content
    case Descriptor(_, _, _) =>
      assert (ta + r1)[3] == (tb + r2)[3];
      assert r1 == (ta + r1)[4..] && r2 == (tb + r2)[4..];
    case IndirectUserData(_) =>
      assert (ta + r1)[3] == (tb + r2)[3];
      assert r1 == (ta + r1)[4..] && r2 == (tb + r2)[4..];
    case PushConstRange =>
      assert r1 == (ta + r1)[3..] && r2 == (tb + r2)[3..];
    case TablePtr(na) =>
      var nb := b.content.next;
      assert (ta + r1)[3] == (tb + r2)[3];
      assert |na| == |nb|;
      assert ta == hdr + [U32(|na|)] + ListTokens(Intended, na);
      assert ListTokens(Intended, na) + r1 == (ta + r1)[4..] == (tb + r2)[4..] == ListTokens(Intended, nb) + r2;
      ListTokensPrefixFree(na, nb, r1, r2);
  }

  /** Equal-length node lists: the same prefix-code property. */
  lemma {:induction false} ListTokensPrefixFree(l1: seq<ResourceNode>, l2: seq<ResourceNode>, r1: seq<Token>, r2: seq<Token>)
    requires |l1| == |l2|
    requires ListTokens(Intended, l1) + r1 == ListTokens(Intended, l2) + r2
    ensures l1 == l2 && r1 == r2
    decreases ListSize(l1), 2
  {
    if |l1| > 0 {
      ListSizeSplit(l1);
      var rest1 := ListTokens(Intended, l1[1..]) + r1;
      var rest2 := ListTokens(Intended, l2[1..]) + r2;
      assert NodeTokens(Intended, l1[0]) + rest1 == ListTokens(Intended, l1) + r1;
      assert NodeTokens(Intended, l2[0]) + rest2 == ListTokens(Intended, l2) + r2;
      NodeTokensPrefixFree(l1[0], l2[0], rest1, rest2);
      ListTokensPrefixFree(l1[1..], l2[1..], r1, r2);
      assert l1 == [l1[0]] + l1[1..];
      assert l2 == [l2[0]] + l2[1..];
    } else {
      assert [] + r1 == r1 && [] + r2 == r2;
    }
  }

  /**
   * With the child count hashed, two user-data lists of the same length feed
   * the hash the same tokens only if they are the same list.
   */
  lemma ListTokensInjective(l1: seq<ResourceNode>, l2: seq<ResourceNode>)
    requires |l1| == |l2|
    ensures ListTokens(Intended, l1) == ListTokens(Intended, l2) <==> l1 == l2
  {
    if ListTokens(Intended, l1) == ListTokens(Intended, l2) {
      ListTokensPrefixFree(l1, l2, [], []);
    }
  }

  /**
   * As written, a table holding node A followed by a sibling B hashes like a
   * table holding both A and B: the two layouts below differ, yet every
   * hasher maps them to the same digest. Hashing the child count tells them
   * apart.
   */
  lemma TableChildCountCollision()
    ensures var a := ResourceNode(1, 0, PushConstRange);
            var b := ResourceNode(1, 1, PushConstRange);
            var flat := [ResourceNode(1, 0, TablePtr([a])), b];
            var nested := [ResourceNode(1, 0, TablePtr([a, b]))];
            && Sorted(flat) && Sorted(nested) && flat != nested
            && ListTokens(AsWritten, flat) == ListTokens(AsWritten, nested)
            && ListTokens(Intended, flat) != ListTokens(Intended, nested)
  {
    var a := ResourceNode(1, 0, PushConstRange);
    var b := ResourceNode(1, 1, PushConstRange);
    FlatAndNestedAsWritten(a, b);
    FlatAndNestedIntended(a, b);
  }

  /** Without the child count, a table of [a] followed by b and a table of [a, b] give the same tokens. */
  lemma FlatAndNestedAsWritten(a: ResourceNode, b: ResourceNode)
    ensures ListTokens(AsWritten, [ResourceNode(1, 0, TablePtr([a])), b]) ==
            ListTokens(AsWritten, [ResourceNode(1, 0, TablePtr([a, b]))])
  {
    var ta, tb := NodeTokens(AsWritten, a), NodeTokens(AsWritten, b);
    var f, n := ResourceNode(1, 0, TablePtr([a])), ResourceNode(1, 0, TablePtr([a, b]));
    var hdr := [NodeTypeTok(DescriptorTableVaPtr), U32(1), U32(0)];
    ListTokensSingle(AsWritten, a);
    ListTokensSingle(AsWritten, b);
    ListTokensPair(AsWritten, a, b);
    ListTokensPair(AsWritten, f, b);
    ListTokensSingle(AsWritten, n);
    assert NodeTokens(AsWritten, f) == hdr + ([] + ta);
    assert NodeTokens(AsWritten, n) == hdr + ([] + (ta + tb));
    assert hdr + ([] + ta) + tb == hdr + ([] + (ta + tb));
  }

  /** With the child count, the two layouts differ in the fourth token: one child against two. */
  lemma FlatAndNestedIntended(a: ResourceNode, b: ResourceNode)
    ensures ListTokens(Intended, [ResourceNode(1, 0, TablePtr([a])), b]) !=
            ListTokens(Intended, [ResourceNode(1, 0, TablePtr([a, b]))])
  {
    var f, n := ResourceNode(1, 0, TablePtr([a])), ResourceNode(1, 0, TablePtr([a, b]));
    ListTokensPair(Intended, f, b);
    ListTokensSingle(Intended, n);
    assert NodeTokens(Intended, f)[3] == U32(1);
    assert NodeTokens(Intended, n)[3] == U32(2);
  }

  lemma ListTokensSingle(v: Variant, x: ResourceNode)
    ensures ListTokens(v, [x]) == NodeTokens(v, x)
  {
    assert [x][1..] == [];
  }

  lemma ListTokensPair(v: Variant, x: ResourceNode, y: ResourceNode)
    ensures ListTokens(v, [x, y]) == NodeTokens(v, x) + NodeTokens(v, y)
  {
    assert [x, y][1..] == [y];
    ListTokensSingle(v, y);
  }

  /** The vertex shader's user-data nodes sit between parts of the hash input that do not depend on them. */
  lemma GraphicsTokensAroundVsNodes(v: Variant, p: GraphicsPipelineBuildInfo)
    requires p.vs.moduleData.Some?
    ensures GraphicsTokens(v, p) ==
      ShaderInfoHeader(Vertex, p.vs) + ListTokens(v, p.vs.userDataNodes) + AfterVs(v, p)
  {
    Regroup(ShaderInfoHeader(Vertex, p.vs), ListTokens(v, p.vs.userDataNodes),
            ShaderInfoTokens(v, TessControl, p.tcs), ShaderInfoTokens(v, TessEval, p.tes),
            ShaderInfoTokens(v, Geometry, p.gs), ShaderInfoTokens(v, Fragment, p.fs),
            VertexInputTokens(p.vertexInput), StateTokens(p));
  }

  lemma Regroup(h: seq<Token>, l: seq<Token>, t: seq<Token>, e: seq<Token>, g: seq<Token>, f: seq<Token>,
                vi: seq<Token>, st: seq<Token>)
    ensures (h + l) + t + e + g + f + vi + st == h + l + (t + e + g + f + vi + st)
  {
  }

  /** Everything after the vertex shader in a graphics pipeline's hash input. */
  function AfterVs(v: Variant, p: GraphicsPipelineBuildInfo): seq<Token>
  {
    ShaderInfoTokens(v, TessControl, p.tcs)
    + ShaderInfoTokens(v, TessEval, p.tes)
    + ShaderInfoTokens(v, Geometry, p.gs)
    + ShaderInfoTokens(v, Fragment, p.fs)
    + VertexInputTokens(p.vertexInput) + StateTokens(p)
  }

  /**
   * The collision reaches the pipeline hash: two graphics pipelines that
   * differ only in that vertex-shader layout get the same pipeline hash from
   * every hasher as written, so a cache lookup returns one for the other.
   */
  lemma TableChildCountCollisionInPipelines(p: GraphicsPipelineBuildInfo, h: Hasher)
    requires p.vs.moduleData.Some?
    ensures var a := ResourceNode(1, 0, PushConstRange);
            var b := ResourceNode(1, 1, PushConstRange);
            var p1 := p.(vs := p.vs.(userDataNodes := [ResourceNode(1, 0, TablePtr([a])), b]));
            var p2 := p.(vs := p.vs.(userDataNodes := [ResourceNode(1, 0, TablePtr([a, b]))]));
            && p1 != p2
            && GetGraphicsPipelineHash(h, AsWritten, p1) == GetGraphicsPipelineHash(h, AsWritten, p2)
            && GraphicsTokens(Intended, p1) != GraphicsTokens(Intended, p2)
  {
    var a := ResourceNode(1, 0, PushConstRange);
    var b := ResourceNode(1, 1, PushConstRange);
    var flat := [ResourceNode(1, 0, TablePtr([a])), b];
    var nested := [ResourceNode(1, 0, TablePtr([a, b]))];
    var p1 := p.(vs := p.vs.(userDataNodes := flat));
    var p2 := p.(vs := p.vs.(userDataNodes := nested));
    TableChildCountCollision();
    assert p1.vs.userDataNodes != p2.vs.userDataNodes;
    var pre := ShaderInfoHeader(Vertex, p1.vs);
    assert ShaderInfoHeader(Vertex, p2.vs) == pre;
    var post := AfterVs(Intended, p1);
    assert AfterVs(Intended, p2) == post;
    assert AfterVs(AsWritten, p2) == AfterVs(AsWritten, p1);
    GraphicsTokensAroundVsNodes(Intended, p1);
    GraphicsTokensAroundVsNodes(Intended, p2);
    GraphicsTokensAroundVsNodes(AsWritten, p1);
    GraphicsTokensAroundVsNodes(AsWritten, p2);
    assert GraphicsTokens(AsWritten, p1) == GraphicsTokens(AsWritten, p2);
    assert GraphicsRangeValuesOk(p1) == GraphicsRangeValuesOk(p2);
    SameLengthPrefix(pre, ListTokens(Intended, flat), ListTokens(Intended, nested), post);
  }

  lemma SameLengthPrefix(pre: seq<Token>, x: seq<Token>, y: seq<Token>, post: seq<Token>)
    requires |x| == |y| && x != y
    ensures pre + x + post != pre + y + post
  {
    var k :| 0 <= k < |x| && x[k] != y[k];
    assert (pre + x + post)[|pre| + k] == x[k];
    assert (pre + y + post)[|pre| + k] == y[k];
  }

  /** The stages named by the stage tokens of a stream, in stream order. */
  function StagesIn(ts: seq<Token>): seq<ShaderStage>
  {
    if |ts| == 0 then []
    else (if ts[0].StageTok? then [ts[0].stage] else []) + StagesIn(ts[1..])
  }

  /** The graphics stages of `ss` that have module data in `p`, in the order of `ss`. */
  function StagesWithModules(p: GraphicsPipelineBuildInfo, ss: seq<ShaderStage>): seq<ShaderStage>
  {
    if |ss| == 0 then []
    else (if IsGraphics(ss[0]) && HasModule(p, ss[0]) then [ss[0]] else []) + StagesWithModules(p, ss[1..])
  }

  lemma {:induction false} StagesInAppend(a: seq<Token>, b: seq<Token>)
    ensures StagesIn(a + b) == StagesIn(a) + StagesIn(b)
  {
    if |a| > 0 {
      StagesInAppend(a[1..], b);
      assert (a + b)[1..] == a[1..] + b;
    } else {
      assert a + b == b;
    }
  }

  lemma {:induction false} NoStagesInNodeTokens(v: Variant, n: ResourceNode)
    ensures StagesIn(NodeTokens(v, n)) == []
    decreases NodeSize(n), 1
  {
    var hdr := [NodeTypeTok(TypeOf(n)), U32(n.sizeInDwords), U32(n.offsetInDwords)];
    NoStageTokens(hdr);
    match n.content
    case TablePtr(next) =>
      var cnt: seq<Token> := if v == Intended then [U32(|next|)] else [];
      assert StagesIn(cnt) == [];
      NoStagesInListTokens(v, next);
      StagesInAppend(cnt, ListTokens(v, next));
      StagesInAppend(hdr, cnt + ListTokens(v, next));
    case Descriptor(_, s, b) =>
      StagesInAppend(hdr, [SrdRangeTok(s, b)]);
    case IndirectUserData(size) =>
      StagesInAppend(hdr, [U32(size)]);
    case PushConstRange =>
      assert NodeTokens(v, n) == hdr;
  }

  lemma {:induction false} NoStagesInListTokens(v: Variant, l: seq<ResourceNode>)
    ensures StagesIn(ListTokens(v, l)) == []
    decreases ListSize(l), 2
  {
    if |l| > 0 {
      ListSizeSplit(l);
      NoStagesInNodeTokens(v, l[0]);
      NoStagesInListTokens(v, l[1..]);
      StagesInAppend(NodeTokens(v, l[0]), ListTokens(v, l[1..]));
    }
  }

  lemma {:induction false} NoStagesInRangeValueTokens(rv: seq<DescriptorRangeValue>)
    ensures StagesIn(RangeValueTokens(rv)) == []
  {
    if |rv| > 0 {
      var r := rv[0];
      var head := [NodeTypeTok(r.nodeType), U32(r.descSet), U32(r.binding), U32(r.arraySize), BytesTok(HashedValueBytes(r))];
      NoStageTokens(head);
      NoStagesInRangeValueTokens(rv[1..]);
      StagesInAppend(head, RangeValueTokens(rv[1..]));
    }
  }

  lemma {:induction false} NoStagesInColorTargetTokens(ts: seq<ColorTarget>)
    ensures StagesIn(ColorTargetTokens(ts)) == []
  {
    if |ts| > 0 {
      var head: seq<Token> := if ts[0].format != FormatUndefined then TargetTriple(ts[0]) else [];
      NoStageTokens(head);
      NoStagesInColorTargetTokens(ts[1..]);
      StagesInAppend(head, ColorTargetTokens(ts[1..]));
    }
  }

  /** A stage with module data names itself once; a stage without names nothing. */
  lemma ShaderInfoStages(v: Variant, stage: ShaderStage, info: PipelineShaderInfo)
    ensures StagesIn(ShaderInfoTokens(v, stage, info)) == if info.moduleData.Some? then [stage] else []
  {
    if info.moduleData.Some? {
      var name: seq<Token> := match info.entryTarget case Some(n) => [CharsTok(n)] case None => [];
      var spec: seq<Token> := match info.specInfo
        case Some(si) =>
          if |si.mapEntries| > 0 then
            [U32(|si.mapEntries|), MapEntriesTok(si.mapEntries), U32(|si.data|), BytesTok(si.data)]
          else []
        case None => [];
      var ranges: seq<Token> :=
        if |info.rangeValues| > 0 then [U32(|info.rangeValues|)] + RangeValueTokens(info.rangeValues) else [];
      var first := [StageTok(stage), DigestTok(info.moduleData.value.hash)];
      assert first == [StageTok(stage)] + [DigestTok(info.moduleData.value.hash)];
      assert StagesIn([StageTok(stage)]) == [stage];
      NoStageTokens([DigestTok(info.moduleData.value.hash)]);
      StagesInAppend([StageTok(stage)], [DigestTok(info.moduleData.value.hash)]);
      NoStageTokens(name);
      NoStageTokens(spec);
      NoStagesInRangeValueTokens(info.rangeValues);
      if |info.rangeValues| > 0 {
        StagesInAppend([U32(|info.rangeValues|)], RangeValueTokens(info.rangeValues));
      }
      NoStagesInListTokens(v, info.userDataNodes);
      StagesInAppend(first, name);
      StagesInAppend(first + name, spec);
      StagesInAppend(first + name + spec, ranges);
      StagesInAppend(ShaderInfoHeader(stage, info), ListTokens(v, info.userDataNodes));
    }
  }

  /** The stages with module data, spelled out stage by stage. */
  lemma StagesWithModulesUnrolled(p: GraphicsPipelineBuildInfo)
    ensures StagesWithModules(p, GraphicsStages) ==
      (if p.vs.moduleData.Some? then [Vertex] else [])
      + (if p.tcs.moduleData.Some? then [TessControl] else [])
      + (if p.tes.moduleData.Some? then [TessEval] else [])
      + (if p.gs.moduleData.Some? then [Geometry] else [])
      + (if p.fs.moduleData.Some? then [Fragment] else [])
  {
    var a: seq<ShaderStage> := if p.vs.moduleData.Some? then [Vertex] else [];
    var b: seq<ShaderStage> := if p.tcs.moduleData.Some? then [TessControl] else [];
    var c: seq<ShaderStage> := if p.tes.moduleData.Some? then [TessEval] else [];
    var d: seq<ShaderStage> := if p.gs.moduleData.Some? then [Geometry] else [];
    var e: seq<ShaderStage> := if p.fs.moduleData.Some? then [Fragment] else [];
    var g4: seq<ShaderStage> := [Fragment];
    var g3 := [Geometry] + g4;
    var g2 := [TessEval] + g3;
    var g1 := [TessControl] + g2;
    assert GraphicsStages == [Vertex] + g1;
    assert p.fs == GetPipelineShaderInfo(p, Fragment) && p.gs == GetPipelineShaderInfo(p, Geometry);
    assert p.tes == GetPipelineShaderInfo(p, TessEval) && p.tcs == GetPipelineShaderInfo(p, TessControl);
    assert p.vs == GetPipelineShaderInfo(p, Vertex);
    StagesWithModulesCons(p, Fragment, []);
    assert g4 == [Fragment] + [];
    var s4 := StagesWithModules(p, g4);
    assert s4 == e + [];
    StagesWithModulesCons(p, Geometry, g4);
    var s3 := StagesWithModules(p, g3);
    assert s3 == d + s4;
    StagesWithModulesCons(p, TessEval, g3);
    var s2 := StagesWithModules(p, g2);
    assert s2 == c + s3;
    StagesWithModulesCons(p, TessControl, g2);
    var s1 := StagesWithModules(p, g1);
    assert s1 == b + s2;
    StagesWithModulesCons(p, Vertex, g1);
    assert StagesWithModules(p, GraphicsStages) == a + s1;
    RegroupStages(a, b, c, d, e);
  }

  lemma StagesWithModulesCons(p: GraphicsPipelineBuildInfo, s: ShaderStage, ss: seq<ShaderStage>)
    requires IsGraphics(s)
    ensures StagesWithModules(p, [s] + ss) ==
      (if GetPipelineShaderInfo(p, s).moduleData.Some? then [s] else []) + StagesWithModules(p, ss)
  {
    assert ([s] + ss)[1..] == ss;
  }

  lemma RegroupStages(a: seq<ShaderStage>, b: seq<ShaderStage>, c: seq<ShaderStage>, d: seq<ShaderStage>, e: seq<ShaderStage>)
    ensures a + (b + (c + (d + (e + [])))) == a + b + c + d + e
  {
  }

  lemma StageTokensNameModuleStages(v: Variant, p: GraphicsPipelineBuildInfo)
    ensures StagesIn(StageTokens(v, p)) == StagesWithModules(p, GraphicsStages)
  {
    var a := ShaderInfoTokens(v, Vertex, p.vs);
    var b := ShaderInfoTokens(v, TessControl, p.tcs);
    var c := ShaderInfoTokens(v, TessEval, p.tes);
    var d := ShaderInfoTokens(v, Geometry, p.gs);
    var e := ShaderInfoTokens(v, Fragment, p.fs);
    ShaderInfoStages(v, Vertex, p.vs);
    ShaderInfoStages(v, TessControl, p.tcs);
    ShaderInfoStages(v, TessEval, p.tes);
    ShaderInfoStages(v, Geometry, p.gs);
    ShaderInfoStages(v, Fragment, p.fs);
    StagesInAppend(a, b);
    StagesInAppend(a + b, c);
    StagesInAppend(a + b + c, d);
    StagesInAppend(a + b + c + d, e);
    StagesWithModulesUnrolled(p);
  }

  lemma NoStagesInStateTokens(p: GraphicsPipelineBuildInfo)
    ensures StagesIn(StateTokens(p)) == []
  {
    var f := FixedStateTokens(p);
    forall k | 0 <= k < |f| ensures !f[k].StageTok? {
      if p.rs.perSampleShading {
        assert f[k] in FixedStateTokens(p);
      }
    }
    NoStageTokens(f);
    NoStagesInColorTargetTokens(p.cb.targets);
    StagesInAppend(FixedStateTokens(p), ColorTargetTokens(p.cb.targets));
  }

  /**
   * The stage tokens of a graphics pipeline's hash input name exactly the
   * stages that have module data, each once, in pipeline order: a stage
   * without module data contributes nothing, and nothing else in the stream
   * is a stage token.
   */
  lemma GraphicsTokensNameModuleStages(v: Variant, p: GraphicsPipelineBuildInfo)
    ensures StagesIn(GraphicsTokens(v, p)) == StagesWithModules(p, GraphicsStages)
  {
    StageTokensNameModuleStages(v, p);
    NoStagesInStateTokens(p);
    var vi := VertexInputTokens(p.vertexInput);
    NoStageTokens(vi);
    StagesInAppend(StageTokens(v, p), vi);
    StagesInAppend(StageTokens(v, p) + vi, StateTokens(p));
  }

  lemma {:induction false} NoStageTokens(ts: seq<Token>)
    requires forall k :: 0 <= k < |ts| ==> !ts[k].StageTok?
    ensures StagesIn(ts) == []
  {
    if |ts| > 0 {
      NoStageTokens(ts[1..]);
    }
  }

  /** The specialization info as far as the hash sees it: a map without entries counts as none. */
  function HashedSpec(o: Option<SpecializationInfo>): Option<SpecializationInfo>
  {
    match o
    case Some(si) => if |si.mapEntries| > 0 then o else None
    case None => None
  }

  /** The vertex input as far as the hash sees it: one without bindings counts as none. */
  function HashedVertexInput(o: Option<VertexInputState>): Option<VertexInputState>
  {
    match o
    case Some(s) => if |s.bindings| > 0 then o else None
    case None => None
  }

  /**
   * Two stage records the hash cannot tell apart: both without module data,
   * or both with modules of the same digest and the same entry name,
   * specialization, range values and user-data nodes. The module's code and
   * binary type do not count; only its digest does.
   */
  predicate SameStageInput(a: PipelineShaderInfo, b: PipelineShaderInfo)
  {
    || (a.moduleData.None? && b.moduleData.None?)
    || (&& a.moduleData.Some? && b.moduleData.Some?
        && a.moduleData.value.hash == b.moduleData.value.hash
        && a.entryTarget == b.entryTarget
        && HashedSpec(a.specInfo) == HashedSpec(b.specInfo)
        && a.rangeValues == b.rangeValues
        && a.userDataNodes == b.userDataNodes)
  }

  /** The fixed-function state the hash covers: all of it except the color targets without a format. */
  predicate SameHashedState(p: GraphicsPipelineBuildInfo, q: GraphicsPipelineBuildInfo)
  {
    && p.ia == q.ia && p.vp == q.vp && p.rs == q.rs
    && p.cb.alphaToCoverageEnable == q.cb.alphaToCoverageEnable
    && p.cb.dualSourceBlendEnable == q.cb.dualSourceBlendEnable
    && DefinedTargets(p.cb.targets) == DefinedTargets(q.cb.targets)
  }

  /** Everything a graphics pipeline's hash input is made of. */
  predicate SameHashInput(p: GraphicsPipelineBuildInfo, q: GraphicsPipelineBuildInfo)
  {
    && SameStageInput(p.vs, q.vs) && SameStageInput(p.tcs, q.tcs) && SameStageInput(p.tes, q.tes)
    && SameStageInput(p.gs, q.gs) && SameStageInput(p.fs, q.fs)
    && HashedVertexInput(p.vertexInput) == HashedVertexInput(q.vertexInput)
    && SameHashedState(p, q)
  }

  lemma ShaderInfoTokensDependOnHashedFields(v: Variant, stage: ShaderStage, a: PipelineShaderInfo, b: PipelineShaderInfo)
    requires SameStageInput(a, b)
    ensures ShaderInfoTokens(v, stage, a) == ShaderInfoTokens(v, stage, b)
  {
  }

  /**
   * The fixed-function part of the hash input can be decoded: two pipelines
   * give the same state tokens exactly when they agree on the hashed state.
   * In particular the per-sample-shading flag, hashed only when set, is never
   * confused with the sample count that follows it.
   */
  lemma StateTokensHashExactly(p: GraphicsPipelineBuildInfo, q: GraphicsPipelineBuildInfo)
    ensures StateTokens(p) == StateTokens(q) <==> SameHashedState(p, q)
  {
    ColorTargetsHashIffSameDefined(p.cb.targets, q.cb.targets);
    var fp, fq := FixedStateTokens(p), FixedStateTokens(q);
    var cp, cq := ColorTargetTokens(p.cb.targets), ColorTargetTokens(q.cb.targets);
    FixedStateTokensHashExactly(p, q);
    FixedStateShape(p);
    FixedStateShape(q);
    if fp + cp == fq + cq {
      assert (fp + cp)[6] == fp[6] && (fq + cq)[6] == fq[6];
      assert |fp| == |fq|;
      SplitEqual(fp, cp, fq, cq);
    }
  }

  /** The seventh fixed-function token tells whether the per-sample-shading flag was hashed. */
  lemma FixedStateShape(p: GraphicsPipelineBuildInfo)
    ensures |FixedStateTokens(p)| == if p.rs.perSampleShading then 12 else 11
    ensures FixedStateTokens(p)[6] == if p.rs.perSampleShading then BoolTok(true) else U32(p.rs.numSamples)
  {
  }

  lemma SplitEqual(a: seq<Token>, b: seq<Token>, c: seq<Token>, d: seq<Token>)
    requires |a| == |c| && a + b == c + d
    ensures a == c && b == d
  {
    assert a == (a + b)[..|a|] && c == (c + d)[..|c|];
    assert b == (a + b)[|a|..] && d == (c + d)[|c|..];
  }

  lemma FixedStateTokensHashExactly(p: GraphicsPipelineBuildInfo, q: GraphicsPipelineBuildInfo)
    ensures FixedStateTokens(p) == FixedStateTokens(q) <==>
      && p.ia == q.ia && p.vp == q.vp && p.rs == q.rs
      && p.cb.alphaToCoverageEnable == q.cb.alphaToCoverageEnable
      && p.cb.dualSourceBlendEnable == q.cb.dualSourceBlendEnable
  {
    var fp, fq := FixedStateTokens(p), FixedStateTokens(q);
    if fp == fq {
      assert fp[6] == fq[6];
      var o := if p.rs.perSampleShading then 1 else 0;
      assert fp[0] == fq[0] && fp[1] == fq[1] && fp[2] == fq[2] && fp[3] == fq[3] && fp[4] == fq[4] && fp[5] == fq[5];
      assert fp[6 + o] == fq[6 + o] && fp[7 + o] == fq[7 + o] && fp[8 + o] == fq[8 + o];
      assert fp[9 + o] == fq[9 + o] && fp[10 + o] == fq[10 + o];
    }
  }

  /**
   * Two graphics pipelines that agree on everything the hash covers feed it
   * the same tokens, whatever else differs (module code, output allocator,
   * undefined color targets, attributes of a binding-less vertex input,
   * stages without module data), so they share a pipeline hash.
   */
  lemma GraphicsTokensDependOnlyOnHashInput(v: Variant, p: GraphicsPipelineBuildInfo, q: GraphicsPipelineBuildInfo)
    requires SameHashInput(p, q)
    ensures GraphicsTokens(v, p) == GraphicsTokens(v, q)
  {
    ShaderInfoTokensDependOnHashedFields(v, Vertex, p.vs, q.vs);
    ShaderInfoTokensDependOnHashedFields(v, TessControl, p.tcs, q.tcs);
    ShaderInfoTokensDependOnHashedFields(v, TessEval, p.tes, q.tes);
    ShaderInfoTokensDependOnHashedFields(v, Geometry, p.gs, q.gs);
    ShaderInfoTokensDependOnHashedFields(v, Fragment, p.fs, q.fs);
    StateTokensHashExactly(p, q);
    assert VertexInputTokens(p.vertexInput) == VertexInputTokens(q.vertexInput);
  }

  /**
   * With the shader and vertex-input parts alike, a change of fixed-function
   * state changes the hash input exactly when it changes hashed state.
   */
  lemma GraphicsTokensTrackHashedState(v: Variant, p: GraphicsPipelineBuildInfo, q: GraphicsPipelineBuildInfo)
    requires StageTokens(v, p) == StageTokens(v, q)
    requires VertexInputTokens(p.vertexInput) == VertexInputTokens(q.vertexInput)
    ensures GraphicsTokens(v, p) == GraphicsTokens(v, q) <==> SameHashedState(p, q)
  {
    StateTokensHashExactly(p, q);
    var pre := StageTokens(v, p) + VertexInputTokens(p.vertexInput);
    if GraphicsTokens(v, p) == GraphicsTokens(v, q) {
      assert StateTokens(p) == GraphicsTokens(v, p)[|pre|..];
      assert StateTokens(q) == GraphicsTokens(v, q)[|pre|..];
    }
  }
}
