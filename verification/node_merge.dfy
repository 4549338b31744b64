/**
 * Merging of two user-data node lists for a fused hardware stage (LS-HS or
 * ES-GS): a two-pointer walk over both lists by ascending dword offset that
 * recurses into descriptor tables found at the same offset in both lists.
 */
module NodeMerge {
  import opened Common
  import opened ResourceNodes

  /**
   * What the merge hands back: the merged list, and whether a new array was
   * allocated for it (false when one input list is returned as it is).
   */
  datatype MergeResult = MergeResult(nodes: seq<ResourceNode>, newArray: bool)

  /**
   * The merge with its special cases for empty inputs: only when both lists
   * are non-empty is a new list built; otherwise the non-empty input (or the
   * empty list and a null pointer) is handed back unchanged.
   */
  function MergeUserDataNode(v: Variant, l1: seq<ResourceNode>, l2: seq<ResourceNode>): (r: Checked<MergeResult>)
    ensures |l1| == 0 ==> r == Ok(MergeResult(l2, false))
    ensures |l2| == 0 ==> r == Ok(MergeResult(l1, false))
    ensures r.Ok? && |l1| > 0 && |l2| > 0 ==> r.value.newArray
    decreases ListSize(l1) + ListSize(l2), 1
  {
    if |l1| > 0 && |l2| > 0 then
      match MergeLists(v, l1, l2, 0)
      case Ok(nodes) => Ok(MergeResult(nodes, true))
      case AssertFails(why) => AssertFails(why)
    else if |l1| > 0 then
      Ok(MergeResult(l1, false))
    else
      Ok(MergeResult(l2, false))
  }

  /** Prepends a node to a checked list, passing an assertion failure through. */
  function Push(n: ResourceNode, rest: Checked<seq<ResourceNode>>): Checked<seq<ResourceNode>>
  {
    match rest
    case Ok(tail) => Ok([n] + tail)
    case AssertFails(why) => AssertFails(why)
  }

  /**
   * The main loop. `nodeOffset` is the end of the last range consumed. While
   * both lists have nodes, the node with the lower offset is emitted (it must
   * start at or after `nodeOffset` and end before the other list's head);
   * two nodes at the same offset must agree in type and size, and are merged
   * into one table node if they are table pointers and must be identical
   * otherwise. Once a list is exhausted, the rest of the other is appended.
   *
   * When the second list's head comes first, the code as written emits the
   * FIRST list's head; `Intended` emits the second list's head.
   */
  function MergeLists(v: Variant, l1: seq<ResourceNode>, l2: seq<ResourceNode>, nodeOffset: nat): Checked<seq<ResourceNode>>
    decreases ListSize(l1) + ListSize(l2), 0
  {
    if |l1| == 0 then Ok(l2)
    else if |l2| == 0 then Ok(l1)
    else
      var n1 := l1[0];
      var n2 := l2[0];
      ListSizeSplit(l1);
      ListSizeSplit(l2);
      if n1.offsetInDwords < n2.offsetInDwords then
        if n1.offsetInDwords < nodeOffset then AssertFails("offset below the previous node's end")
        else if End(n1) > n2.offsetInDwords then AssertFails("overlapping nodes")
        else Push(n1, MergeLists(v, l1[1..], l2, End(n1)))
      else if n2.offsetInDwords < n1.offsetInDwords then
        if n2.offsetInDwords < nodeOffset then AssertFails("offset below the previous node's end")
        else if End(n2) > n1.offsetInDwords then AssertFails("overlapping nodes")
        else Push(if v == AsWritten then n1 else n2, MergeLists(v, l1, l2[1..], End(n2)))
      else if TypeOf(n1) != TypeOf(n2) || n1.sizeInDwords != n2.sizeInDwords then
        AssertFails("nodes at one offset differ in type or size")
      else if n1.offsetInDwords < nodeOffset then
        AssertFails("offset below the previous node's end")
      else if n1.content.TablePtr? then
        match MergeUserDataNode(v, n1.content.next, n2.content.next)
        case AssertFails(why) => AssertFails(why)
        case Ok(children) =>
          Push(ResourceNode(n1.sizeInDwords, n1.offsetInDwords, TablePtr(children.nodes)),
               MergeLists(v, l1[1..], l2[1..], End(n1)))
      else if n1 != n2 then
        AssertFails("non-table nodes at one offset are not identical")
      else
        Push(n1, MergeLists(v, l1[1..], l2[1..], End(n1)))
  }

  /**
   * The node the merge emits for a table-pointer pair at one offset: same
   * size and offset, children the recursive merge of both child lists.
   */
  function MergedTable(v: Variant, n1: ResourceNode, n2: ResourceNode): Checked<ResourceNode>
    requires IsTable(n1) && IsTable(n2)
  {
    match MergeUserDataNode(v, n1.content.next, n2.content.next)
    case AssertFails(why) => AssertFails(why)
    case Ok(children) => Ok(ResourceNode(n1.sizeInDwords, n1.offsetInDwords, TablePtr(children.nodes)))
  }

  /** Every output offset lies at or above the head offset of one of the inputs. */
  ghost predicate AtOrAboveAHead(l1: seq<ResourceNode>, l2: seq<ResourceNode>, o: nat)
  {
    (|l1| > 0 && l1[0].offsetInDwords <= o) || (|l2| > 0 && l2[0].offsetInDwords <= o)
  }

  lemma SortedTail(l: seq<ResourceNode>)
    requires Sorted(l) && |l| > 0
    ensures Sorted(l[1..])
    ensures forall k :: 0 <= k < |l[1..]| ==> l[0].offsetInDwords < l[1..][k].offsetInDwords
    ensures forall k :: 0 <= k < |l[1..]| ==> End(l[0]) <= l[1..][k].offsetInDwords
  {
  }

  lemma SortedDrop(l: seq<ResourceNode>)
    requires Sorted(l) && |l| > 0
    ensures Sorted(l[1..])
  {
  }

  lemma SortedCons(x: ResourceNode, l: seq<ResourceNode>)
    requires Sorted(l)
    requires forall k :: 0 <= k < |l| ==> x.offsetInDwords < l[k].offsetInDwords && End(x) <= l[k].offsetInDwords
    ensures Sorted([x] + l)
  {
    var c := [x] + l;
    forall i, j | 0 <= i < j < |c|
      ensures c[i].offsetInDwords < c[j].offsetInDwords && End(c[i]) <= c[j].offsetInDwords
    {
      assert c[j] == l[j - 1];
      if i > 0 {
        assert c[i] == l[i - 1];
      }
    }
  }

  /** An offset that heads a sorted list occurs nowhere else in it. */
  lemma HeadOffsetUnique(l: seq<ResourceNode>)
    requires Sorted(l) && |l| > 0
    ensures l[0].offsetInDwords !in Offsets(l[1..])
  {
    forall k | 0 <= k < |l[1..]| ensures l[1..][k].offsetInDwords != l[0].offsetInDwords {
      assert l[1..][k] == l[k + 1];
    }
  }

  /** An offset below a sorted list's head is not one of its offsets. */
  lemma BelowHeadNotIn(l: seq<ResourceNode>, o: nat)
    requires Sorted(l) && |l| > 0 && o < l[0].offsetInDwords
    ensures o !in Offsets(l)
  {
    forall k | 0 <= k < |l| ensures l[k].offsetInDwords != o {
    }
  }

  /** The node emitted when the second list's head has the lower offset. */
  function Pick(v: Variant, n1: ResourceNode, n2: ResourceNode): ResourceNode
  {
    if v == AsWritten then n1 else n2
  }

  /**
   * One successful step of the walk, read off the definition: which node is
   * emitted, which recursive call produced the rest, and which of the
   * source's assertions held for the two heads.
   */
  lemma MergeStep(v: Variant, l1: seq<ResourceNode>, l2: seq<ResourceNode>, nodeOffset: nat)
    requires |l1| > 0 && |l2| > 0 && MergeLists(v, l1, l2, nodeOffset).Ok?
    ensures var n1, n2, ns := l1[0], l2[0], MergeLists(v, l1, l2, nodeOffset).value;
      && (n1.offsetInDwords < n2.offsetInDwords ==>
            && nodeOffset <= n1.offsetInDwords && End(n1) <= n2.offsetInDwords
            && MergeLists(v, l1[1..], l2, End(n1)).Ok?
            && ns == [n1] + MergeLists(v, l1[1..], l2, End(n1)).value)
      && (n2.offsetInDwords < n1.offsetInDwords ==>
            && nodeOffset <= n2.offsetInDwords && End(n2) <= n1.offsetInDwords
            && MergeLists(v, l1, l2[1..], End(n2)).Ok?
            && ns == [Pick(v, n1, n2)] + MergeLists(v, l1, l2[1..], End(n2)).value)
      && (n1.offsetInDwords == n2.offsetInDwords ==>
            && nodeOffset <= n1.offsetInDwords
            && TypeOf(n1) == TypeOf(n2) && n1.sizeInDwords == n2.sizeInDwords
            && MergeLists(v, l1[1..], l2[1..], End(n1)).Ok?
            && |ns| > 0 && ns[1..] == MergeLists(v, l1[1..], l2[1..], End(n1)).value
            && (IsTable(n1) ==> IsTable(n2) && MergedTable(v, n1, n2) == Ok(ns[0]))
            && (!IsTable(n1) ==> n1 == n2 && ns[0] == n1))
  {
    ListSizeSplit(l1);
    ListSizeSplit(l2);
    var n1, n2 := l1[0], l2[0];
    if n1.offsetInDwords == n2.offsetInDwords && IsTable(n1) {
      TableTypeIsTablePointer(n1);
      TableTypeIsTablePointer(n2);
    }
  }

  /** A sorted list starting at or after `at` at its head starts there throughout. */
  lemma StartsFromHead(l: seq<ResourceNode>, at: nat)
    requires Sorted(l) && |l| > 0 && at <= l[0].offsetInDwords
    ensures StartsAtOrAfter(l, at)
  {
    forall k | 0 < k < |l| ensures at <= l[k].offsetInDwords {
      assert l[0].offsetInDwords < l[k].offsetInDwords;
    }
  }

  /** The tail of a sorted list is sorted and starts at or after the end of the head. */
  lemma StartsAfterHead(l: seq<ResourceNode>)
    requires Sorted(l) && |l| > 0
    ensures Sorted(l[1..]) && StartsAtOrAfter(l[1..], End(l[0]))
  {
    SortedTail(l);
  }

  /**
   * One successful step of the intended walk on two non-empty lists: the
   * emitted node `x` and the remaining lists `t1`, `t2` (at least one of them
   * shortened by its head) that the walk continues on from `End(x)`.
   */
  lemma IntendedStep(l1: seq<ResourceNode>, l2: seq<ResourceNode>, nodeOffset: nat)
    returns (x: ResourceNode, t1: seq<ResourceNode>, t2: seq<ResourceNode>)
    requires |l1| > 0 && |l2| > 0 && MergeLists(Intended, l1, l2, nodeOffset).Ok?
    ensures MergeLists(Intended, t1, t2, End(x)).Ok?
    ensures MergeLists(Intended, l1, l2, nodeOffset).value == [x] + MergeLists(Intended, t1, t2, End(x)).value
    ensures ListSize(t1) + ListSize(t2) < ListSize(l1) + ListSize(l2)
    ensures (t1 == l1[1..] && t2 == l2) || (t1 == l1 && t2 == l2[1..]) || (t1 == l1[1..] && t2 == l2[1..])
    ensures x.offsetInDwords == if l1[0].offsetInDwords <= l2[0].offsetInDwords then l1[0].offsetInDwords else l2[0].offsetInDwords
    ensures nodeOffset <= x.offsetInDwords
    ensures t1 == l1 ==> x.offsetInDwords < l1[0].offsetInDwords
    ensures t2 == l2 ==> x.offsetInDwords < l2[0].offsetInDwords
    ensures Sorted(l1) && Sorted(l2) ==>
      Sorted(t1) && Sorted(t2) && StartsAtOrAfter(t1, End(x)) && StartsAtOrAfter(t2, End(x))
  {
    ListSizeSplit(l1);
    ListSizeSplit(l2);
    MergeStep(Intended, l1, l2, nodeOffset);
    var ns := MergeLists(Intended, l1, l2, nodeOffset).value;
    var n1, n2 := l1[0], l2[0];
    x := ns[0];
    if n1.offsetInDwords < n2.offsetInDwords {
      t1, t2 := l1[1..], l2;
      if Sorted(l1) && Sorted(l2) {
        StartsAfterHead(l1);
        StartsFromHead(l2, End(n1));
      }
    } else if n2.offsetInDwords < n1.offsetInDwords {
      t1, t2 := l1, l2[1..];
      if Sorted(l1) && Sorted(l2) {
        StartsFromHead(l1, End(n2));
        StartsAfterHead(l2);
      }
    } else {
      t1, t2 := l1[1..], l2[1..];
      if Sorted(l1) && Sorted(l2) {
        StartsAfterHead(l1);
        StartsAfterHead(l2);
      }
    }
  }

  lemma StartsCons(x: ResourceNode, rest: seq<ResourceNode>, at: nat)
    requires at <= x.offsetInDwords && StartsAtOrAfter(rest, End(x))
    ensures StartsAtOrAfter([x] + rest, at)
  {
    forall k | 0 < k < |[x] + rest| ensures at <= ([x] + rest)[k].offsetInDwords {
      assert ([x] + rest)[k] == rest[k - 1];
    }
  }

  lemma CommonWithoutHead(x: nat, a: set<nat>, b: set<nat>)
    requires x !in b
    ensures ({x} + a) * b == a * b
  {
  }

  lemma CommonWithoutHeadRight(x: nat, a: set<nat>, b: set<nat>)
    requires x !in a
    ensures a * ({x} + b) == a * b
  {
  }

  lemma CommonWithHead(x: nat, a: set<nat>, b: set<nat>)
    requires x !in a && x !in b
    ensures |({x} + a) * ({x} + b)| == 1 + |a * b|
  {
    assert ({x} + a) * ({x} + b) == {x} + a * b;
  }

  /**
   * The merged list has one node per input node, except that each pair of
   * nodes sharing an offset becomes one node: its length is |l1| + |l2| minus
   * the number of offsets the two lists have in common. This holds for both
   * readings of the emitting step, since they walk the lists identically.
   */
  lemma {:induction false} MergeListsLength(v: Variant, l1: seq<ResourceNode>, l2: seq<ResourceNode>, nodeOffset: nat)
    requires Sorted(l1) && Sorted(l2)
    requires MergeLists(v, l1, l2, nodeOffset).Ok?
    ensures |MergeLists(v, l1, l2, nodeOffset).value| + |Offsets(l1) * Offsets(l2)| == |l1| + |l2|
    decreases ListSize(l1) + ListSize(l2)
  {
    if |l1| == 0 {
      assert Offsets(l1) == {};
    } else if |l2| == 0 {
      assert Offsets(l2) == {};
    } else {
      ListSizeSplit(l1);
      ListSizeSplit(l2);
      MergeStep(v, l1, l2, nodeOffset);
      OffsetsSplit(l1);
      OffsetsSplit(l2);
      SortedDrop(l1);
      SortedDrop(l2);
      var n1, n2 := l1[0], l2[0];
      if n1.offsetInDwords < n2.offsetInDwords {
        BelowHeadNotIn(l2, n1.offsetInDwords);
        MergeListsLength(v, l1[1..], l2, End(n1));
        CommonWithoutHead(n1.offsetInDwords, Offsets(l1[1..]), Offsets(l2));
      } else if n2.offsetInDwords < n1.offsetInDwords {
        BelowHeadNotIn(l1, n2.offsetInDwords);
        MergeListsLength(v, l1, l2[1..], End(n2));
        CommonWithoutHeadRight(n2.offsetInDwords, Offsets(l1), Offsets(l2[1..]));
      } else {
        HeadOffsetUnique(l1);
        HeadOffsetUnique(l2);
        MergeListsLength(v, l1[1..], l2[1..], End(n1));
        CommonWithHead(n1.offsetInDwords, Offsets(l1[1..]), Offsets(l2[1..]));
      }
    }
  }

  /** With the intended emitting step, the merged list occupies exactly the offsets of both inputs. */
  lemma {:induction false} MergeListsOffsets(l1: seq<ResourceNode>, l2: seq<ResourceNode>, nodeOffset: nat)
    requires MergeLists(Intended, l1, l2, nodeOffset).Ok?
    ensures Offsets(MergeLists(Intended, l1, l2, nodeOffset).value) == Offsets(l1) + Offsets(l2)
    decreases ListSize(l1) + ListSize(l2)
  {
    var ns := MergeLists(Intended, l1, l2, nodeOffset).value;
    if |l1| == 0 {
      assert Offsets(l1) == {};
    } else if |l2| == 0 {
      assert Offsets(l2) == {};
    } else {
      ListSizeSplit(l1);
      ListSizeSplit(l2);
      MergeStep(Intended, l1, l2, nodeOffset);
      var n1, n2 := l1[0], l2[0];
      var t1, t2: seq<ResourceNode>;
      if n1.offsetInDwords < n2.offsetInDwords {
        t1, t2 := l1[1..], l2;
      } else if n2.offsetInDwords < n1.offsetInDwords {
        t1, t2 := l1, l2[1..];
      } else {
        t1, t2 := l1[1..], l2[1..];
      }
      var x := ns[0];
      var rest := MergeLists(Intended, t1, t2, End(x)).value;
      assert End(x) == End(if n1.offsetInDwords <= n2.offsetInDwords then n1 else n2);
      MergeListsOffsets(t1, t2, End(x));
      assert ns == [x] + rest;
      OffsetsCons(x, rest);
      OffsetsSplit(l1);
      OffsetsSplit(l2);
    }
  }

  /** With the intended emitting step, every output offset is at or above one of the input heads. */
  lemma {:induction false} MergeListsAboveHeads(l1: seq<ResourceNode>, l2: seq<ResourceNode>, nodeOffset: nat)
    requires Sorted(l1) && Sorted(l2)
    requires MergeLists(Intended, l1, l2, nodeOffset).Ok?
    ensures var ns := MergeLists(Intended, l1, l2, nodeOffset).value;
            forall k :: 0 <= k < |ns| ==> AtOrAboveAHead(l1, l2, ns[k].offsetInDwords)
    decreases ListSize(l1) + ListSize(l2)
  {
    var ns := MergeLists(Intended, l1, l2, nodeOffset).value;
    if |l1| > 0 && |l2| > 0 {
      ListSizeSplit(l1);
      ListSizeSplit(l2);
      MergeStep(Intended, l1, l2, nodeOffset);
      SortedDrop(l1);
      SortedDrop(l2);
      var n1, n2 := l1[0], l2[0];
      var t1, t2: seq<ResourceNode>;
      if n1.offsetInDwords < n2.offsetInDwords {
        t1, t2 := l1[1..], l2;
      } else if n2.offsetInDwords < n1.offsetInDwords {
        t1, t2 := l1, l2[1..];
      } else {
        t1, t2 := l1[1..], l2[1..];
      }
      var x := ns[0];
      assert End(x) == End(if n1.offsetInDwords <= n2.offsetInDwords then n1 else n2);
      var rest := MergeLists(Intended, t1, t2, End(x)).value;
      MergeListsAboveHeads(t1, t2, End(x));
      forall k | 0 < k < |ns| ensures AtOrAboveAHead(l1, l2, ns[k].offsetInDwords) {
        assert ns[k] == rest[k - 1];
      }
    }
  }

  /** With the intended emitting step, no output node starts before `nodeOffset`. */
  lemma {:induction false} MergeListsStart(l1: seq<ResourceNode>, l2: seq<ResourceNode>, nodeOffset: nat)
    requires Sorted(l1) && Sorted(l2)
    requires StartsAtOrAfter(l1, nodeOffset) && StartsAtOrAfter(l2, nodeOffset)
    requires MergeLists(Intended, l1, l2, nodeOffset).Ok?
    ensures StartsAtOrAfter(MergeLists(Intended, l1, l2, nodeOffset).value, nodeOffset)
    decreases ListSize(l1) + ListSize(l2)
  {
    if |l1| > 0 && |l2| > 0 {
      var x, t1, t2 := IntendedStep(l1, l2, nodeOffset);
      MergeListsStart(t1, t2, End(x));
      StartsCons(x, MergeLists(Intended, t1, t2, End(x)).value, nodeOffset);
    }
  }

  /** With the intended emitting step, the merged list is itself sorted and non-overlapping. */
  lemma {:induction false} MergeListsSorted(l1: seq<ResourceNode>, l2: seq<ResourceNode>, nodeOffset: nat)
    requires Sorted(l1) && Sorted(l2)
    requires StartsAtOrAfter(l1, nodeOffset) && StartsAtOrAfter(l2, nodeOffset)
    requires MergeLists(Intended, l1, l2, nodeOffset).Ok?
    ensures Sorted(MergeLists(Intended, l1, l2, nodeOffset).value)
    decreases ListSize(l1) + ListSize(l2)
  {
    if |l1| > 0 && |l2| > 0 {
      var x, t1, t2 := IntendedStep(l1, l2, nodeOffset);
      var rest := MergeLists(Intended, t1, t2, End(x)).value;
      MergeListsSorted(t1, t2, End(x));
      MergeListsStart(t1, t2, End(x));
      MergeListsAboveHeads(t1, t2, End(x));
      AboveHeadsPastEmitted(l1, l2, x, t1, t2, rest);
      SortedCons(x, rest);
    }
  }

  /**
   * Nodes at or above a head of the remaining lists lie strictly above the
   * emitted node, which sat at the lower of the original heads.
   */
  lemma AboveHeadsPastEmitted(l1: seq<ResourceNode>, l2: seq<ResourceNode>, x: ResourceNode,
                              t1: seq<ResourceNode>, t2: seq<ResourceNode>, rest: seq<ResourceNode>)
    requires Sorted(l1) && Sorted(l2) && |l1| > 0 && |l2| > 0
    requires (t1 == l1[1..] && t2 == l2) || (t1 == l1 && t2 == l2[1..]) || (t1 == l1[1..] && t2 == l2[1..])
    requires x.offsetInDwords == if l1[0].offsetInDwords <= l2[0].offsetInDwords then l1[0].offsetInDwords else l2[0].offsetInDwords
    requires t1 == l1 ==> x.offsetInDwords < l1[0].offsetInDwords
    requires t2 == l2 ==> x.offsetInDwords < l2[0].offsetInDwords
    requires StartsAtOrAfter(rest, End(x))
    requires forall k :: 0 <= k < |rest| ==> AtOrAboveAHead(t1, t2, rest[k].offsetInDwords)
    ensures forall k :: 0 <= k < |rest| ==> x.offsetInDwords < rest[k].offsetInDwords && End(x) <= rest[k].offsetInDwords
  {
    forall k | 0 <= k < |rest| ensures x.offsetInDwords < rest[k].offsetInDwords {
      if |t1| > 0 && t1[0].offsetInDwords <= rest[k].offsetInDwords {
        if t1 != l1 { assert t1[0] == l1[1]; }
      } else {
        if t2 != l2 { assert t2[0] == l2[1]; }
      }
    }
  }

  /**
   * Two nodes that share an offset agree in type and size: the merge only
   * succeeds when they do.
   */
  ghost predicate AgreeAt(n1: ResourceNode, n2: ResourceNode)
  {
    TypeOf(n1) == TypeOf(n2) && n1.sizeInDwords == n2.sizeInDwords && IsTable(n1) == IsTable(n2)
  }

  /**
   * A successful merge (either reading) of sorted lists vouches for every pair
   * of nodes sharing an offset: they agree in type and size, non-table nodes
   * are identical, and table pointers have mergeable child lists whose merged
   * table node is in the output.
   */
  lemma {:induction false} MergeListsPairs(v: Variant, l1: seq<ResourceNode>, l2: seq<ResourceNode>, nodeOffset: nat)
    requires Sorted(l1) && Sorted(l2)
    requires MergeLists(v, l1, l2, nodeOffset).Ok?
    ensures var ns := MergeLists(v, l1, l2, nodeOffset).value;
      forall i, j :: 0 <= i < |l1| && 0 <= j < |l2| && l1[i].offsetInDwords == l2[j].offsetInDwords ==>
        && AgreeAt(l1[i], l2[j])
        && (!IsTable(l1[i]) ==> l1[i] == l2[j])
        && (IsTable(l1[i]) ==> MergedTable(v, l1[i], l2[j]).Ok? && MergedTable(v, l1[i], l2[j]).value in ns)
    decreases ListSize(l1) + ListSize(l2)
  {
    var ns := MergeLists(v, l1, l2, nodeOffset).value;
    if |l1| > 0 && |l2| > 0 {
      ListSizeSplit(l1);
      ListSizeSplit(l2);
      MergeStep(v, l1, l2, nodeOffset);
      SortedDrop(l1);
      SortedDrop(l2);
      var n1, n2 := l1[0], l2[0];
      TableTypeIsTablePointer(n1);
      TableTypeIsTablePointer(n2);
      forall i, j | 0 <= i < |l1| && 0 <= j < |l2| && l1[i].offsetInDwords == l2[j].offsetInDwords
        ensures && AgreeAt(l1[i], l2[j])
                && (!IsTable(l1[i]) ==> l1[i] == l2[j])
                && (IsTable(l1[i]) ==> MergedTable(v, l1[i], l2[j]).Ok? && MergedTable(v, l1[i], l2[j]).value in ns)
      {
        if n1.offsetInDwords < n2.offsetInDwords {
          var rest := MergeLists(v, l1[1..], l2, End(n1)).value;
          MergeListsPairs(v, l1[1..], l2, End(n1));
          assert i > 0 && l1[1..][i - 1] == l1[i];
          assert ns[1..] == rest;
        } else if n2.offsetInDwords < n1.offsetInDwords {
          var rest := MergeLists(v, l1, l2[1..], End(n2)).value;
          MergeListsPairs(v, l1, l2[1..], End(n2));
          assert j > 0 && l2[1..][j - 1] == l2[j];
          assert ns[1..] == rest;
        } else if i == 0 || j == 0 {
          assert i == 0 && j == 0;
        } else {
          MergeListsPairs(v, l1[1..], l2[1..], End(n1));
          assert l1[1..][i - 1] == l1[i] && l2[1..][j - 1] == l2[j];
        }
      }
    }
  }

  /**
   * Every node of `ns` is a node of one of the inputs or a table node at an
   * offset both inputs share.
   */
  ghost predicate FromInputs(ns: seq<ResourceNode>, l1: seq<ResourceNode>, l2: seq<ResourceNode>)
  {
    forall k :: 0 <= k < |ns| ==>
      ns[k] in l1 || ns[k] in l2 || (IsTable(ns[k]) && ns[k].offsetInDwords in Offsets(l1) * Offsets(l2))
  }

  /**
   * Every node of `l` survives into `ns`, unless it is a table pointer whose
   * offset `other` shares.
   */
  ghost predicate Keeps(ns: seq<ResourceNode>, l: seq<ResourceNode>, other: seq<ResourceNode>)
  {
    forall k :: 0 <= k < |l| && (!IsTable(l[k]) || l[k].offsetInDwords !in Offsets(other)) ==> l[k] in ns
  }

  lemma FromInputsCons(x: ResourceNode, rest: seq<ResourceNode>, l1: seq<ResourceNode>, l2: seq<ResourceNode>,
                       t1: seq<ResourceNode>, t2: seq<ResourceNode>)
    requires FromInputs(rest, t1, t2)
    requires |l1| > 0 && (t1 == l1 || t1 == l1[1..])
    requires |l2| > 0 && (t2 == l2 || t2 == l2[1..])
    requires x in l1 || x in l2 || (IsTable(x) && x.offsetInDwords in Offsets(l1) * Offsets(l2))
    ensures FromInputs([x] + rest, l1, l2)
  {
    OffsetsSplit(l1);
    OffsetsSplit(l2);
    forall k | 0 < k < |[x] + rest|
      ensures ([x] + rest)[k] in l1 || ([x] + rest)[k] in l2 ||
              (IsTable(([x] + rest)[k]) && ([x] + rest)[k].offsetInDwords in Offsets(l1) * Offsets(l2))
    {
      var y := rest[k - 1];
      assert ([x] + rest)[k] == y;
      if y in t1 {
        var i :| 0 <= i < |t1| && t1[i] == y;
        assert y == l1[if t1 == l1 then i else i + 1];
      } else if y in t2 {
        var j :| 0 <= j < |t2| && t2[j] == y;
        assert y == l2[if t2 == l2 then j else j + 1];
      }
    }
  }

  lemma KeepsCons(x: ResourceNode, rest: seq<ResourceNode>, l: seq<ResourceNode>, other: seq<ResourceNode>,
                  t: seq<ResourceNode>, u: seq<ResourceNode>)
    requires Keeps(rest, t, u)
    requires |l| > 0 && |other| > 0 && (u == other || u == other[1..])
    requires t == l || (t == l[1..] && (l[0] == x || (IsTable(l[0]) && l[0].offsetInDwords in Offsets(other))))
    ensures Keeps([x] + rest, l, other)
  {
    OffsetsSplit(other);
    forall k | 0 <= k < |l| && (!IsTable(l[k]) || l[k].offsetInDwords !in Offsets(other))
      ensures l[k] in [x] + rest
    {
      if t == l {
        assert l[k] in rest;
      } else if k > 0 {
        assert t[k - 1] == l[k];
        assert l[k] in rest;
      }
    }
  }

  /**
   * With the intended emitting step, every output node is an input node or the
   * merged table for an offset both lists share, and every input node whose
   * offset the other list does not share, or which is not a table, survives.
   */
  lemma {:induction false} MergeListsMembers(l1: seq<ResourceNode>, l2: seq<ResourceNode>, nodeOffset: nat)
    requires MergeLists(Intended, l1, l2, nodeOffset).Ok?
    ensures var ns := MergeLists(Intended, l1, l2, nodeOffset).value;
      FromInputs(ns, l1, l2) && Keeps(ns, l1, l2) && Keeps(ns, l2, l1)
    decreases ListSize(l1) + ListSize(l2)
  {
    var ns := MergeLists(Intended, l1, l2, nodeOffset).value;
    if |l1| > 0 && |l2| > 0 {
      ListSizeSplit(l1);
      ListSizeSplit(l2);
      MergeStep(Intended, l1, l2, nodeOffset);
      var n1, n2 := l1[0], l2[0];
      var t1, t2: seq<ResourceNode>;
      if n1.offsetInDwords < n2.offsetInDwords {
        t1, t2 := l1[1..], l2;
      } else if n2.offsetInDwords < n1.offsetInDwords {
        t1, t2 := l1, l2[1..];
      } else {
        t1, t2 := l1[1..], l2[1..];
        OffsetsSplit(l1);
        OffsetsSplit(l2);
      }
      var x := ns[0];
      assert End(x) == End(if n1.offsetInDwords <= n2.offsetInDwords then n1 else n2);
      var rest := MergeLists(Intended, t1, t2, End(x)).value;
      MergeListsMembers(t1, t2, End(x));
      assert ns == [x] + rest;
      FromInputsCons(x, rest, l1, l2, t1, t2);
      KeepsCons(x, rest, l1, l2, t1, t2);
      KeepsCons(x, rest, l2, l1, t2, t1);
    } else if |l1| == 0 {
      assert Offsets(l1) == {};
    } else {
      assert Offsets(l2) == {};
    }
  }

  /**
   * Two lists whose nodes never overlap across the lists, and which share an
   * offset only with a node it can be merged with.
   */
  ghost predicate Compatible(l1: seq<ResourceNode>, l2: seq<ResourceNode>)
    decreases ListSize(l1) + ListSize(l2), 1
  {
    forall i, j :: 0 <= i < |l1| && 0 <= j < |l2| ==>
      && (l1[i].offsetInDwords < l2[j].offsetInDwords ==> End(l1[i]) <= l2[j].offsetInDwords)
      && (l2[j].offsetInDwords < l1[i].offsetInDwords ==> End(l2[j]) <= l1[i].offsetInDwords)
      && (l1[i].offsetInDwords == l2[j].offsetInDwords ==>
            (NodeSizeWithinList(l1, i); NodeSizeWithinList(l2, j); CompatiblePair(l1[i], l2[j])))
  }

  /**
   * Two nodes at one offset that merge: identical non-table nodes, or two
   * tables of one size whose sorted child lists are compatible in turn.
   */
  ghost predicate CompatiblePair(n1: ResourceNode, n2: ResourceNode)
    decreases NodeSize(n1) + NodeSize(n2), 0
  {
    if IsTable(n1) && IsTable(n2) then
      && n1.sizeInDwords == n2.sizeInDwords
      && Sorted(n1.content.next) && Sorted(n2.content.next)
      && Compatible(n1.content.next, n2.content.next)
    else n1 == n2
  }

  lemma CompatibleDropLeft(l1: seq<ResourceNode>, l2: seq<ResourceNode>)
    requires Compatible(l1, l2) && |l1| > 0
    ensures Compatible(l1[1..], l2)
  {
    forall i | 0 <= i < |l1[1..]|
      ensures l1[1..][i] == l1[i + 1]
    {
    }
  }

  lemma CompatibleDropRight(l1: seq<ResourceNode>, l2: seq<ResourceNode>)
    requires Compatible(l1, l2) && |l2| > 0
    ensures Compatible(l1, l2[1..])
  {
    forall j | 0 <= j < |l2[1..]|
      ensures l2[1..][j] == l2[j + 1]
    {
    }
  }

  /**
   * The converse direction: sorted, compatible lists starting at or after
   * `nodeOffset` always merge without an assertion failure, under either
   * reading, recursing into the tables they share.
   */
  lemma {:induction false} MergeListsCompatibleSucceeds(v: Variant, l1: seq<ResourceNode>, l2: seq<ResourceNode>, nodeOffset: nat)
    requires Sorted(l1) && Sorted(l2) && Compatible(l1, l2)
    requires StartsAtOrAfter(l1, nodeOffset) && StartsAtOrAfter(l2, nodeOffset)
    ensures MergeLists(v, l1, l2, nodeOffset).Ok?
    decreases ListSize(l1) + ListSize(l2)
  {
    if |l1| > 0 && |l2| > 0 {
      ListSizeSplit(l1);
      ListSizeSplit(l2);
      var n1, n2 := l1[0], l2[0];
      assert nodeOffset <= n1.offsetInDwords && nodeOffset <= n2.offsetInDwords;
      if n1.offsetInDwords < n2.offsetInDwords {
        assert End(n1) <= n2.offsetInDwords;
        CompatibleDropLeft(l1, l2);
        StartsAfterHead(l1);
        StartsFromHead(l2, End(n1));
        MergeListsCompatibleSucceeds(v, l1[1..], l2, End(n1));
      } else if n2.offsetInDwords < n1.offsetInDwords {
        assert End(n2) <= n1.offsetInDwords;
        CompatibleDropRight(l1, l2);
        StartsFromHead(l1, End(n2));
        StartsAfterHead(l2);
        MergeListsCompatibleSucceeds(v, l1, l2[1..], End(n2));
      } else {
        assert CompatiblePair(n1, n2);
        TableTypeIsTablePointer(n1);
        TableTypeIsTablePointer(n2);
        CompatibleDropLeft(l1, l2);
        CompatibleDropRight(l1[1..], l2);
        StartsAfterHead(l1);
        StartsAfterHead(l2);
        MergeListsCompatibleSucceeds(v, l1[1..], l2[1..], End(n1));
        if IsTable(n1) && IsTable(n2) {
          var c1, c2 := n1.content.next, n2.content.next;
          if |c1| > 0 && |c2| > 0 {
            MergeListsCompatibleSucceeds(v, c1, c2, 0);
          }
        }
      }
    }
  }

  /**
   * The intended merge of two sorted lists, as the fused stage receives it:
   * a sorted list over the union of both lists' offsets, one node shorter per
   * shared offset, made of input nodes and merged tables; any pair of nodes
   * sharing an offset agrees in type and size; and compatible lists always
   * merge.
   */
  lemma MergeUserDataNodeIntended(l1: seq<ResourceNode>, l2: seq<ResourceNode>)
    requires Sorted(l1) && Sorted(l2)
    ensures Compatible(l1, l2) ==> MergeUserDataNode(Intended, l1, l2).Ok?
    ensures MergeUserDataNode(Intended, l1, l2).Ok? ==>
      IntendedMergeOf(MergeUserDataNode(Intended, l1, l2).value.nodes, l1, l2)
  {
    if |l1| > 0 && |l2| > 0 {
      if Compatible(l1, l2) {
        MergeListsCompatibleSucceeds(Intended, l1, l2, 0);
      }
      if MergeLists(Intended, l1, l2, 0).Ok? {
        MergeListsIntended(l1, l2);
      }
    } else {
      MergeWithEmpty(l1, l2);
    }
  }

  /**
   * What the intended merge hands the fused stage: a sorted list over the
   * union of both lists' offsets, one node shorter per shared offset, made of
   * input nodes and merged tables and keeping every other input node; and any
   * pair of input nodes sharing an offset agrees in type and size.
   */
  ghost predicate IntendedMergeOf(ns: seq<ResourceNode>, l1: seq<ResourceNode>, l2: seq<ResourceNode>)
  {
    && Sorted(ns)
    && Offsets(ns) == Offsets(l1) + Offsets(l2)
    && |ns| + |Offsets(l1) * Offsets(l2)| == |l1| + |l2|
    && FromInputs(ns, l1, l2) && Keeps(ns, l1, l2) && Keeps(ns, l2, l1)
    && AgreeWherePaired(l1, l2)
  }

  lemma MergeListsIntended(l1: seq<ResourceNode>, l2: seq<ResourceNode>)
    requires Sorted(l1) && Sorted(l2) && |l1| > 0 && |l2| > 0
    requires MergeLists(Intended, l1, l2, 0).Ok?
    ensures MergeUserDataNode(Intended, l1, l2) == Ok(MergeResult(MergeLists(Intended, l1, l2, 0).value, true))
    ensures IntendedMergeOf(MergeLists(Intended, l1, l2, 0).value, l1, l2)
  {
    MergeListsSorted(l1, l2, 0);
    MergeListsOffsets(l1, l2, 0);
    MergeListsLength(Intended, l1, l2, 0);
    MergeListsMembers(l1, l2, 0);
    MergeListsPairs(Intended, l1, l2, 0);
  }

  lemma MergeWithEmpty(l1: seq<ResourceNode>, l2: seq<ResourceNode>)
    requires Sorted(l1) && Sorted(l2) && (|l1| == 0 || |l2| == 0)
    ensures IntendedMergeOf(MergeUserDataNode(Intended, l1, l2).value.nodes, l1, l2)
  {
    if |l1| == 0 {
      assert MergeUserDataNode(Intended, l1, l2).value.nodes == l2;
      EmptyOffsets(l1, l2);
      KeepsAll(l2, l1);
    } else {
      assert MergeUserDataNode(Intended, l1, l2).value.nodes == l1;
      EmptyOffsets(l2, l1);
      KeepsAll(l1, l2);
    }
  }

  lemma EmptyOffsets(e: seq<ResourceNode>, l: seq<ResourceNode>)
    requires |e| == 0
    ensures Offsets(e) == {} && Offsets(e) * Offsets(l) == {} && Offsets(l) * Offsets(e) == {}
    ensures Offsets(e) + Offsets(l) == Offsets(l) && Offsets(l) + Offsets(e) == Offsets(l)
    ensures Keeps(l, e, l) && AgreeWherePaired(e, l) && AgreeWherePaired(l, e)
  {
  }

  /** Any pair of nodes sharing an offset agrees in type and size, and is identical unless it is a table pair. */
  ghost predicate AgreeWherePaired(l1: seq<ResourceNode>, l2: seq<ResourceNode>)
  {
    forall i, j :: 0 <= i < |l1| && 0 <= j < |l2| && l1[i].offsetInDwords == l2[j].offsetInDwords ==>
      AgreeAt(l1[i], l2[j]) && (!IsTable(l1[i]) ==> l1[i] == l2[j])
  }

  lemma KeepsAll(l: seq<ResourceNode>, other: seq<ResourceNode>)
    ensures Keeps(l, l, other) && FromInputs(l, l, other) && FromInputs(l, other, l)
  {
  }

  /**
   * The code as written emits the wrong node when the second list's head has
   * the lower offset: merging a push-constant range at dword 4 with one at
   * dword 0 yields the first node twice and loses the second, while the
   * intended step yields both in offset order.
   */
  lemma MergeAsWrittenLosesNode()
    ensures var a := ResourceNode(1, 4, PushConstRange);
            var b := ResourceNode(1, 0, PushConstRange);
            && Sorted([a]) && Sorted([b])
            && MergeUserDataNode(AsWritten, [a], [b]) == Ok(MergeResult([a, a], true))
            && MergeUserDataNode(Intended, [a], [b]) == Ok(MergeResult([b, a], true))
  {
    var a := ResourceNode(1, 4, PushConstRange);
    var b := ResourceNode(1, 0, PushConstRange);
    assert [b][1..] == [];
    ListSizeSplit([a]);
    ListSizeSplit([b]);
    assert MergeLists(AsWritten, [a], [b][1..], End(b)) == Ok([a]);
    assert MergeLists(AsWritten, [a], [b], 0) == Push(a, Ok([a]));
    assert MergeLists(Intended, [a], [b][1..], End(b)) == Ok([a]);
    assert MergeLists(Intended, [a], [b], 0) == Push(b, Ok([a]));
    assert [a] + [a] == [a, a] && [b] + [a] == [b, a];
  }
}
