/**
 * The compiler's pool of compilation contexts, one in-use flag per context in
 * creation order. A build acquires a context, compiles in it and releases it;
 * the pool never shrinks until the compiler is destroyed.
 */
module ContextPool {
  import opened Common

  /** The in-use flags of the pooled contexts, in creation order. */
  type Pool = seq<bool>

  predicate HasFree(pool: Pool)
  {
    exists j :: 0 <= j < |pool| && !pool[j]
  }

  /**
   * What acquiring a context from `pool` yields: the pool afterwards and the
   * position of the returned context. Both readings return a context that was
   * free and is now in use, and append a new in-use context when none was
   * free. The intended reading takes the first free context and changes
   * nothing else; as written the scan never stops, so every free context is
   * marked in use and the last free one is returned.
   */
  ghost predicate AcquireOutcome(v: Variant, pool: Pool, next: Pool, index: nat)
  {
    index < |next| && next[index] &&
    (!HasFree(pool) ==> next == pool + [true] && index == |pool|) &&
    (HasFree(pool) ==>
       |next| == |pool| && index < |pool| && !pool[index] &&
       (v == Intended ==>
          (forall j :: 0 <= j < index ==> pool[j]) && next == pool[index := true]) &&
       (v == AsWritten ==>
          (forall j :: index < j < |pool| ==> pool[j]) && (forall j :: 0 <= j < |next| ==> next[j])))
  }

  /** `AcquireContext`: a scan over the pool for a free context, then a new context when none is free. */
  method AcquireContext(v: Variant, pool: Pool) returns (next: Pool, index: nat)
    ensures AcquireOutcome(v, pool, next, index)
    ensures |next| == |pool| + (if HasFree(pool) then 0 else 1)
  {
    next := pool;
    index := 0;
    var found := false;
    var i := 0;
    while i < |pool| && !(v == Intended && found)
      invariant 0 <= i <= |pool| && |next| == |pool|
      invariant found ==> index < i && !pool[index] && next[index]
      invariant !found ==> forall j :: 0 <= j < i ==> pool[j]
      invariant forall j :: i <= j < |pool| ==> next[j] == pool[j]
      invariant v == AsWritten ==> forall j :: 0 <= j < i ==> next[j]
      invariant v == AsWritten && found ==> forall j :: index < j < i ==> pool[j]
      invariant v == Intended && found ==> next == pool[index := true] && forall j :: 0 <= j < index ==> pool[j]
      invariant v == Intended && !found ==> next == pool
    {
      if !next[i] {
        index := i;
        found := true;
        next := next[i := true];
      }
      i := i + 1;
    }
    if !found {
      assert !HasFree(pool);
      next := pool + [true];
      index := |pool|;
    }
  }

  /** `ReleaseContext`: clears the in-use flag of the given context only. */
  function ReleaseContext(pool: Pool, index: nat): (r: Pool)
    requires index < |pool|
    ensures |r| == |pool| && !r[index]
    ensures forall j :: 0 <= j < |pool| && j != index ==> r[j] == pool[j]
  {
    pool[index := false]
  }

  /** Destroying the compiler frees the pool; it asserts that no context is still in use. */
  function Teardown(pool: Pool): (r: Checked<Pool>)
    ensures r.Ok? <==> forall j :: 0 <= j < |pool| ==> !pool[j]
    ensures r.Ok? ==> r.value == []
  {
    if forall j :: 0 <= j < |pool| ==> !pool[j] then Ok([]) else AssertFails("context still in use at teardown")
  }

  /** The acquire outcome is a function of the pool: the contract leaves no choice. */
  lemma AcquireOutcomeUnique(v: Variant, pool: Pool, n1: Pool, i1: nat, n2: Pool, i2: nat)
    requires AcquireOutcome(v, pool, n1, i1) && AcquireOutcome(v, pool, n2, i2)
    ensures n1 == n2 && i1 == i2
  {
    if HasFree(pool) {
      assert !(i1 < i2) && !(i2 < i1);
      if v == AsWritten {
        assert forall j :: 0 <= j < |n1| ==> n1[j] == n2[j];
      }
    }
  }

  /**
   * With the intended scan, releasing the context just acquired gives back the
   * pool it came from, grown by one free context when none was free.
   */
  lemma AcquireReleaseRestores(pool: Pool, next: Pool, index: nat)
    requires AcquireOutcome(Intended, pool, next, index)
    ensures ReleaseContext(next, index) == if HasFree(pool) then pool else pool + [false]
  {
  }

  /**
   * Hence, with the intended scan, an acquire and release on a pool with no
   * context in use leaves a pool that can be torn down.
   */
  lemma BalancedUseTearsDown(pool: Pool, next: Pool, index: nat)
    requires forall j :: 0 <= j < |pool| ==> !pool[j]
    requires AcquireOutcome(Intended, pool, next, index)
    ensures Teardown(ReleaseContext(next, index)).Ok?
  {
    AcquireReleaseRestores(pool, next, index);
    var after := ReleaseContext(next, index);
    assert forall j :: 0 <= j < |after| ==> !after[j];
  }

  /**
   * As written, the scan marks every free context in use but hands out only
   * one: with two free contexts, an acquire and its release leave the other
   * context in use for good, and tearing the compiler down fails its assertion.
   */
  lemma AsWrittenLeaksContext(next: Pool, index: nat)
    requires AcquireOutcome(AsWritten, [false, false], next, index)
    ensures index == 1 && ReleaseContext(next, index) == [true, false]
    ensures Teardown(ReleaseContext(next, index)).AssertFails?
  {
    assert HasFree([false, false]) by {
      assert ![false, false][0];
    }
    assert index == 1 by {
      assert [false, false][1] == false;
    }
    assert next == [true, true];
    var after := ReleaseContext(next, index);
    assert after[0];
  }
}
