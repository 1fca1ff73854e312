/** The reader's content check: a scan of the received block against the
    pattern that stops at the first offset holding the wrong value. */
module Verification {
  import opened Engine
  import opened Payload

  /** Every entry of `block` holds the pattern value for its offset. */
  predicate Matches(block: seq<int>) {
    forall i :: 0 <= i < |block| ==> block[i] == Expected(i)
  }

  /** `k` is the smallest offset of `block` holding the wrong value. */
  predicate IsFirstMismatch(block: seq<int>, k: nat) {
    && k < |block|
    && block[k] != Expected(k)
    && forall i :: 0 <= i < k ==> block[i] == Expected(i)
  }

  /** The verification loop: None when the whole block matches, otherwise
      the first offset that does not (the one the reader reports before
      leaving the loop). */
  method FindMismatch(block: seq<int>) returns (r: Option<nat>)
    ensures r.None? <==> Matches(block)
    ensures r.Some? ==> IsFirstMismatch(block, r.value)
  {
    var i := 0;
    while i < |block|
      invariant 0 <= i <= |block|
      invariant forall j :: 0 <= j < i ==> block[j] == Expected(j)
    {
      if block[i] != Expected(i) {
        return Some(i);
      }
      i := i + 1;
    }
    return None;
  }

  /** At most one offset can be the first mismatch, so a step reports at
      most one. */
  lemma FirstMismatchUnique(block: seq<int>, j: nat, k: nat)
    requires IsFirstMismatch(block, j) && IsFirstMismatch(block, k)
    ensures j == k
  {
  }

  /** A block delivered unmodified from the writer's buffer passes the
      check: the first block of the payload matches the pattern. */
  lemma UnmodifiedBlockMatches(buf: seq<int>, size: nat, count: nat)
    requires IsPayload(buf, size, count)
    requires count > 0
    ensures size <= |buf|
    ensures Matches(buf[..size])
  {
    FirstBlockIsPattern(buf, size, count);
  }
}
