/**
 * A bounded stack of reusable search contexts. `Rent` pops one or allocates
 * a fresh one; `Return` pushes one back only while the stack is below its
 * cap. The stack is modelled sequentially, its top being the last element.
 */
module ContextPools {
  import opened PathfindingContexts

  /** The most the stack can hold under cap `max`: a negative cap admits nothing. */
  function Room(max: int): nat
  {
    if max < 0 then 0 else max
  }

  /** The stack after `Return(c)`: pushed below the cap, unchanged at or above it. */
  function AfterReturn<T>(s: seq<T>, c: T, max: int): (r: seq<T>)
  {
    if |s| < max then s + [c] else s
  }

  /** The stack after a successful `TryPop`: its top removed. */
  function AfterPop<T>(s: seq<T>): (r: seq<T>)
    requires |s| > 0
  {
    s[..|s| - 1]
  }

  /** `Return` never lets the stack outgrow its cap, and pushes exactly when below it. */
  lemma ReturnKeepsBound<T>(s: seq<T>, c: T, max: int)
    requires |s| <= Room(max)
    ensures |AfterReturn(s, c, max)| <= Room(max)
    ensures |AfterReturn(s, c, max)| == |s| + 1 <==> |s| < max
    ensures |s| >= max ==> AfterReturn(s, c, max) == s
  {
  }

  /** A pop shrinks the stack by one, keeping the bound. */
  lemma PopKeepsBound<T>(s: seq<T>, max: int)
    requires 0 < |s| <= Room(max)
    ensures |AfterPop(s)| == |s| - 1 < Room(max)
  {
  }

  /** Last in, first out: a context returned below the cap is the next one popped, and the pop restores the stack. */
  lemma ReturnThenPop<T>(s: seq<T>, c: T, max: int)
    requires |s| < max
    ensures |AfterReturn(s, c, max)| > 0
    ensures AfterReturn(s, c, max)[|AfterReturn(s, c, max)| - 1] == c
    ensures AfterPop(AfterReturn(s, c, max)) == s
  {
  }

  class PathfindingContextPool {
    /** `_pool`, bottom first. */
    var pool: seq<PathfindingContext>
    var nodeCount: nat
    var maxContexts: int

    ghost predicate Valid()
      reads this
    {
      |pool| <= Room(maxContexts)
    }

    /** A new pool: empty, `nodeCount` 0, cap 8. */
    constructor ()
      ensures Valid()
      ensures pool == [] && nodeCount == 0 && maxContexts == 8
    {
      pool := [];
      nodeCount := 0;
      maxContexts := 8;
    }

    /**
     * `Init(nodeCount, initCount)`: drops every pooled context, then holds
     * `initCount` distinct new contexts of `nodeCount` slots each, under a
     * cap of `initCount`.
     */
    method Init(nodeCount: nat, initCount: int)
      modifies this
      ensures Valid()
      ensures this.nodeCount == nodeCount && maxContexts == initCount
      ensures |pool| == Room(initCount)
      ensures forall i | 0 <= i < |pool| :: fresh(pool[i]) && pool[i].Valid() && pool[i].Size() == nodeCount
      ensures forall i, j | 0 <= i < j < |pool| :: pool[i] != pool[j]
    {
      this.nodeCount := nodeCount;
      maxContexts := initCount;
      while |pool| > 0
        invariant this.nodeCount == nodeCount && maxContexts == initCount
        decreases |pool|
      {
        pool := AfterPop(pool);
      }
      var i := 0;
      while i < initCount
        invariant 0 <= i == |pool| <= Room(initCount)
        invariant this.nodeCount == nodeCount && maxContexts == initCount
        invariant forall k | 0 <= k < |pool| :: fresh(pool[k]) && pool[k].Valid() && pool[k].Size() == nodeCount
        invariant forall k, j | 0 <= k < j < |pool| :: pool[k] != pool[j]
      {
        var c := new PathfindingContext(nodeCount);
        pool := pool + [c];
        i := i + 1;
      }
    }

    /**
     * `Rent()`: the most recently pushed context, removed from the stack;
     * from an empty stack, a new context of `nodeCount` slots.
     */
    method Rent() returns (ctx: PathfindingContext)
      requires Valid()
      modifies this
      ensures Valid()
      ensures nodeCount == old(nodeCount) && maxContexts == old(maxContexts)
      ensures old(pool) != [] ==> ctx == old(pool)[|old(pool)| - 1] && pool == AfterPop(old(pool))
      ensures old(pool) == [] ==> pool == [] && fresh(ctx) && ctx.Valid() && ctx.Size() == nodeCount
    {
      if |pool| > 0 {
        ctx := pool[|pool| - 1];
        pool := AfterPop(pool);
        return;
      }
      ctx := new PathfindingContext(nodeCount);
    }

    /** `Return(ctx)`: pushed only while the stack is below the cap. */
    method Return(ctx: PathfindingContext)
      requires Valid()
      modifies this
      ensures Valid()
      ensures nodeCount == old(nodeCount) && maxContexts == old(maxContexts)
      ensures pool == AfterReturn(old(pool), ctx, maxContexts)
    {
      ReturnKeepsBound(pool, ctx, maxContexts);
      if |pool| < maxContexts {
        pool := pool + [ctx];
      }
    }
  }
}
