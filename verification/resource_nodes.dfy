/**
 * Resource mapping nodes: the user-data layout a shader stage expects. A node
 * covers `sizeInDwords` dwords starting at `offsetInDwords`; what it describes
 * depends on its type, and a descriptor-table pointer owns a nested list of
 * child nodes.
 */
module ResourceNodes {

  /** The node types the compiler distinguishes, in the API's numbering. */
  datatype NodeType =
    | DescriptorResource
    | DescriptorSampler
    | DescriptorCombinedTexture
    | DescriptorTexelBuffer
    | DescriptorFmask
    | DescriptorBuffer
    | DescriptorTableVaPtr
    | IndirectUserDataVaPtr
    | PushConst
    | DescriptorBufferCompact

  /** The descriptor node types, which carry a (set, binding) range. */
  datatype DescriptorKind =
    | Resource
    | Sampler
    | CombinedTexture
    | TexelBuffer
    | Fmask
    | Buffer
    | BufferCompact

  /**
   * The type-specific part of a node (a union in the source): a descriptor's
   * (set, binding) pair, a table pointer's child list, an indirect user-data
   * pointer's size, or nothing for a push-constant range.
   */
  datatype NodeContent =
    | Descriptor(kind: DescriptorKind, descSet: nat, binding: nat)
    | TablePtr(next: seq<ResourceNode>)
    | IndirectUserData(userDataSize: nat)
    | PushConstRange

  datatype ResourceNode = ResourceNode(sizeInDwords: nat, offsetInDwords: nat, content: NodeContent)

  /** The type field of a node, determined by its content. */
  function TypeOf(n: ResourceNode): NodeType
  {
    match n.content
    case Descriptor(k, _, _) =>
      (match k
       case Resource => DescriptorResource
       case Sampler => DescriptorSampler
       case CombinedTexture => DescriptorCombinedTexture
       case TexelBuffer => DescriptorTexelBuffer
       case Fmask => DescriptorFmask
       case Buffer => DescriptorBuffer
       case BufferCompact => DescriptorBufferCompact)
    case TablePtr(_) => DescriptorTableVaPtr
    case IndirectUserData(_) => IndirectUserDataVaPtr
    case PushConstRange => PushConst
  }

  predicate IsTable(n: ResourceNode)
  {
    n.content.TablePtr?
  }

  lemma TableTypeIsTablePointer(n: ResourceNode)
    ensures TypeOf(n) == DescriptorTableVaPtr <==> IsTable(n)
  {
  }

  /** First dword after the node's range. */
  function End(n: ResourceNode): nat
  {
    n.offsetInDwords + n.sizeInDwords
  }

  /**
   * A sibling list as the compiler expects it: offsets strictly ascending and
   * no node overlapping a later one.
   */
  ghost predicate Sorted(l: seq<ResourceNode>)
  {
    forall i, j :: 0 <= i < j < |l| ==>
      l[i].offsetInDwords < l[j].offsetInDwords && End(l[i]) <= l[j].offsetInDwords
  }

  /** Every node of the list starts at or after `at`. */
  ghost predicate StartsAtOrAfter(l: seq<ResourceNode>, at: nat)
  {
    forall k :: 0 <= k < |l| ==> at <= l[k].offsetInDwords
  }

  /** The set of offsets a list occupies. */
  function Offsets(l: seq<ResourceNode>): (r: set<nat>)
    ensures forall k :: 0 <= k < |l| ==> l[k].offsetInDwords in r
    ensures forall o :: o in r ==> exists k :: 0 <= k < |l| && l[k].offsetInDwords == o
  {
    set k | 0 <= k < |l| :: l[k].offsetInDwords
  }

  lemma OffsetsCons(n: ResourceNode, l: seq<ResourceNode>)
    ensures Offsets([n] + l) == {n.offsetInDwords} + Offsets(l)
  {
    var c := [n] + l;
    assert c[0] == n;
    forall o | o in Offsets(c) ensures o in {n.offsetInDwords} + Offsets(l) {
      var k :| 0 <= k < |c| && c[k].offsetInDwords == o;
      if k > 0 {
        assert c[k] == l[k - 1];
      }
    }
    forall o | o in Offsets(l) ensures o in Offsets(c) {
      var k :| 0 <= k < |l| && l[k].offsetInDwords == o;
      assert c[k + 1] == l[k];
    }
  }

  lemma OffsetsSplit(l: seq<ResourceNode>)
    requires |l| > 0
    ensures Offsets(l) == {l[0].offsetInDwords} + Offsets(l[1..])
  {
    assert l == [l[0]] + l[1..];
    OffsetsCons(l[0], l[1..]);
  }

  /** Number of nodes in a list, counting every nested child: the termination measure of the merge. */
  function ListSize(l: seq<ResourceNode>): nat
  {
    if |l| == 0 then 0 else NodeSize(l[0]) + ListSize(l[1..])
  }

  function NodeSize(n: ResourceNode): nat
  {
    1 + (if n.content.TablePtr? then ListSize(n.content.next) else 0)
  }

  /** No node of a list is larger than the list. */
  lemma {:induction false} NodeSizeWithinList(l: seq<ResourceNode>, i: nat)
    requires i < |l|
    ensures NodeSize(l[i]) <= ListSize(l)
  {
    if i > 0 {
      NodeSizeWithinList(l[1..], i - 1);
      assert l[1..][i - 1] == l[i];
    }
  }

  /** The measure splits into the head node's size and the tail's. */
  lemma ListSizeSplit(l: seq<ResourceNode>)
    requires |l| > 0
    ensures ListSize(l) == NodeSize(l[0]) + ListSize(l[1..])
    ensures IsTable(l[0]) ==> ListSize(l[0].content.next) < ListSize(l)
  {
  }
}
