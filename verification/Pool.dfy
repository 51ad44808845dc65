/**
 * The kernel's non-paged pool, as far as it matters here: which requests it grants, and which blocks are allocated
 * right now.
 */
module PoolModel {

  class Pool {
    const grants: nat -> bool  // whether request number k is granted; any pattern of failures is possible
    var asked: nat             // how many requests have been made
    ghost var live: set<object>

    constructor (grants: nat -> bool)
      ensures this.grants == grants && asked == 0 && live == {}
    {
      this.grants := grants;
      asked, live := 0, {};
    }

    /** The requests from one number up to another are all granted. */
    predicate Grants(from: nat, to: nat) {
      forall k :: from <= k < to ==> grants(k)
    }

    /** How many requests are made by a caller who needs so many and stops at the first refusal. */
    function Tries(from: nat, needed: nat): (tries: nat)
      ensures tries <= needed
      ensures Grants(from, from + needed) ==> tries == needed
      ensures !Grants(from, from + needed) ==>
                tries > 0 && !grants(from + tries - 1) && Grants(from, from + tries - 1)
      decreases needed
    {
      if needed == 0 then 0 else if grants(from) then 1 + Tries(from + 1, needed - 1) else 1
    }

    lemma GrantsJoin(from: nat, mid: nat, to: nat)
      requires from <= mid <= to
      ensures Grants(from, to) <==> Grants(from, mid) && Grants(mid, to)
    {
    }

    /** A series of requests that is refused after the first ones were granted. */
    lemma TriesAfter(from: nat, granted: nat, some: nat, needed: nat)
      requires Grants(from, from + granted) && granted + some <= needed
      requires !Grants(from + granted, from + granted + some)
      ensures !Grants(from, from + needed)
      ensures Tries(from, needed) == granted + Tries(from + granted, some)
    {
      var first, other := from + Tries(from, needed) - 1, from + granted + Tries(from + granted, some) - 1;
      assert !grants(other) && other < from + needed;
      assert !grants(first) && Grants(from, first);
    }

    /** The question ExAllocatePoolWithTag answers. */
    method Ask() returns (granted: bool)
      modifies this`asked
      ensures granted == grants(old(asked)) && asked == old(asked) + 1
    {
      granted := grants(asked);
      asked := asked + 1;
    }

    /** The block handed out after a request was granted. */
    method Track(block: object)
      modifies this`live
      ensures live == old(live) + {block}
    {
      live := live + {block};
    }

    /** ExFreePoolWithTag. Freeing a block that is not allocated is ruled out by the precondition. */
    method Free(block: object)
      requires block in live
      modifies this`live
      ensures live == old(live) - {block}
    {
      live := live - {block};
    }
  }
}
