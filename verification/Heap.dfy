/** malloc, realloc and free, with a schedule that says which requests are granted. */
module Heap {
  /** The block behind a pointer: none for NULL. */
  function Owned(b: nat): (m: multiset<nat>) {
    if b == 0 then multiset{} else multiset{b}
  }

  class Allocator {
    const granted: nat -> bool
    var requests: nat
    var next: nat
    /** The blocks handed out and not yet released. */
    ghost var live: multiset<nat>
    /** How many requests were refused. */
    ghost var refusals: nat

    /** A block is live at most once, so releasing it twice is impossible. */
    ghost predicate Valid()
      reads this
    {
      next > 0 && forall b :: b in live ==> 0 < b < next && live[b] == 1
    }

    constructor (schedule: nat -> bool)
      ensures Valid() && live == multiset{} && refusals == 0 && granted == schedule
    {
      granted := schedule;
      requests, next := 0, 1;
      live, refusals := multiset{}, 0;
    }

    /** A new block, or 0 when the request is refused. */
    method Malloc() returns (b: nat)
      requires Valid()
      modifies this
      ensures Valid() && live == old(live) + Owned(b)
      ensures refusals == old(refusals) + if b == 0 then 1 else 0
    {
      requests := requests + 1;
      if granted(requests - 1) {
        b := next;
        next := next + 1;
        live := live + multiset{b};
      } else {
        b := 0;
        refusals := refusals + 1;
      }
    }

    /** A new block in place of `block`, or 0 with `block` kept when the request is refused; `rest` is what else is
        live. */
    method Realloc(block: nat, ghost rest: multiset<nat>) returns (b: nat)
      requires Valid() && live == rest + Owned(block)
      modifies this
      ensures Valid() && live == rest + Owned(if b == 0 then block else b)
      ensures refusals == old(refusals) + if b == 0 then 1 else 0
    {
      b := Malloc();
      if b != 0 {
        assert live == rest + Owned(b) + Owned(block);
        Free(block, rest + Owned(b));
      }
    }

    /** Only a live block, or NULL, can be released; `rest` is what stays live. */
    method Free(block: nat, ghost rest: multiset<nat>)
      requires Valid() && live == rest + Owned(block)
      modifies this
      ensures Valid() && live == rest && refusals == old(refusals)
    {
      if block != 0 {
        live := live - multiset{block};
      }
    }
  }
}
