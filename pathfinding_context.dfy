/**
 * The scratch space of one search: six parallel per-node arrays and an epoch
 * counter. A slot is live in the current search exactly when its stamp equals
 * the counter, so a new search starts by moving the counter instead of
 * clearing the arrays.
 *
 * C# `int` is modelled as `int` kept inside its range by `Valid`; `float` as
 * `real`; a `Node` reference as the node id it refers to, `None` for null.
 */
module PathfindingContexts {
  import opened Common

  /** `int.MaxValue`. */
  const IntMaxValue: int := 2147483647
  /** `float.MaxValue`, the largest finite single-precision value. */
  const FloatMaxValue: real := 340282346638528859811704183484516925440.0

  // ---------------------------------------------------------------- the epoch step, on values

  /** The counter after `BeginNewSearch`: one more, or 0 once that reaches `int.MaxValue`. */
  function CounterAfter(current: int): int
  {
    if current + 1 == IntMaxValue then 0 else current + 1
  }

  /** The stamps after `BeginNewSearch`: unchanged, or all 0 on the wraparound step. */
  function StampsAfter(stamps: seq<int>, current: int): seq<int>
  {
    if current + 1 == IntMaxValue then seq(|stamps|, _ => 0) else stamps
  }

  /** Slot `id` is live: its stamp is the counter. */
  predicate Live(stamps: seq<int>, current: int, id: int)
    requires 0 <= id < |stamps|
  {
    stamps[id] == current
  }

  /** The state a context keeps: the counter in range and no stamp ahead of it. */
  predicate EpochInv(stamps: seq<int>, current: int)
  {
    && 0 <= current < IntMaxValue
    && forall i | 0 <= i < |stamps| :: 0 <= stamps[i] <= current
  }

  /** `BeginNewSearch` keeps the state invariant; in particular the counter is never `int.MaxValue`. */
  lemma NewSearchKeepsInv(stamps: seq<int>, current: int)
    requires EpochInv(stamps, current)
    ensures EpochInv(StampsAfter(stamps, current), CounterAfter(current))
    ensures CounterAfter(current) != IntMaxValue
    ensures |StampsAfter(stamps, current)| == |stamps|
  {
  }

  /** Outside the wraparound step a new search retires every slot: none is live afterwards. */
  lemma NewSearchRetiresSlots(stamps: seq<int>, current: int, id: int)
    requires EpochInv(stamps, current) && current + 1 != IntMaxValue
    requires 0 <= id < |stamps|
    ensures CounterAfter(current) == current + 1
    ensures !Live(StampsAfter(stamps, current), CounterAfter(current), id)
  {
  }

  /**
   * On the wraparound step every stamp and the counter become 0, so every
   * slot is live afterwards, with whatever values an earlier search left.
   */
  lemma WraparoundMakesEverySlotLive(stamps: seq<int>, current: int, id: int)
    requires current + 1 == IntMaxValue
    requires 0 <= id < |stamps|
    ensures Live(StampsAfter(stamps, current), CounterAfter(current), id)
  {
  }

  /**
   * A concrete run: a one-slot context whose slot was activated in the last
   * epoch before the wraparound (stamp `int.MaxValue - 1`) is retired by
   * every new search but this one, after which it is live again.
   */
  lemma WraparoundCounterexample()
    ensures EpochInv([IntMaxValue - 1], IntMaxValue - 1)
    ensures Live(StampsAfter([IntMaxValue - 1], IntMaxValue - 1), CounterAfter(IntMaxValue - 1), 0)
  {
    assert StampsAfter([IntMaxValue - 1], IntMaxValue - 1) == [0];
  }

  /** The evidently intended step: on the wraparound, clear the stamps and restart the counter at 1. */
  function CounterAfterIsolated(current: int): int
  {
    if current + 1 == IntMaxValue then 1 else current + 1
  }

  /** With the counter restarted at 1, no slot is live after any new search, and the invariant holds. */
  lemma IsolatedNewSearchRetiresSlots(stamps: seq<int>, current: int, id: int)
    requires EpochInv(stamps, current)
    requires 0 <= id < |stamps|
    ensures EpochInv(StampsAfter(stamps, current), CounterAfterIsolated(current))
    ensures !Live(StampsAfter(stamps, current), CounterAfterIsolated(current), id)
  {
  }

  // ---------------------------------------------------------------- the context

  class PathfindingContext {
    var f: array<real>
    var g: array<real>
    var h: array<real>
    var from: array<Option<nat>>
    var closed: array<bool>
    var stamp: array<int>
    var currentStamp: int

    /** The six arrays have one length, the three `float` arrays are distinct, and `EpochInv` holds. */
    ghost predicate Valid()
      reads this, stamp
    {
      && f.Length == g.Length == h.Length == from.Length == closed.Length == stamp.Length
      && f != g && g != h && f != h
      && EpochInv(stamp[..], currentStamp)
    }

    /** The number of slots, `nodeCount`. */
    function Size(): nat
      reads this
    {
      stamp.Length
    }

    /** `new PathfindingContext(nodeCount)`: zeroed arrays, counter 1, so no slot is live. */
    constructor (nodeCount: nat)
      ensures Valid() && Size() == nodeCount
      ensures fresh(f) && fresh(g) && fresh(h) && fresh(from) && fresh(closed) && fresh(stamp)
      ensures currentStamp == 1
      ensures forall i | 0 <= i < nodeCount :: !IsActive(i)
      ensures forall i | 0 <= i < nodeCount ::
        f[i] == 0.0 && g[i] == 0.0 && h[i] == 0.0 && from[i] == None && !closed[i] && stamp[i] == 0
    {
      f := new real[nodeCount](_ => 0.0);
      g := new real[nodeCount](_ => 0.0);
      h := new real[nodeCount](_ => 0.0);
      from := new Option<nat>[nodeCount](_ => None);
      closed := new bool[nodeCount](_ => false);
      stamp := new int[nodeCount](_ => 0);
      currentStamp := 1;
    }

    /** `BeginNewSearch`, as written: the counter steps on, and on reaching `int.MaxValue` stamps and counter go to 0. */
    method BeginNewSearch()
      requires Valid()
      modifies this, stamp
      ensures Valid()
      ensures f == old(f) && g == old(g) && h == old(h) && from == old(from) && closed == old(closed) && stamp == old(stamp)
      ensures currentStamp == CounterAfter(old(currentStamp))
      ensures stamp[..] == StampsAfter(old(stamp[..]), old(currentStamp))
    {
      NewSearchKeepsInv(stamp[..], currentStamp);
      currentStamp := currentStamp + 1;
      if currentStamp == IntMaxValue {
        forall i | 0 <= i < stamp.Length {
          stamp[i] := 0;
        }
        currentStamp := 0;
      }
    }

    /**
     * The corrected step: as `BeginNewSearch`, but the counter restarts at 1
     * after clearing the stamps, so no slot is ever live after a new search.
     */
    method BeginNewSearchIsolated()
      requires Valid()
      modifies this, stamp
      ensures Valid()
      ensures f == old(f) && g == old(g) && h == old(h) && from == old(from) && closed == old(closed) && stamp == old(stamp)
      ensures currentStamp == CounterAfterIsolated(old(currentStamp))
      ensures stamp[..] == StampsAfter(old(stamp[..]), old(currentStamp))
      ensures forall i | 0 <= i < Size() :: !IsActive(i)
    {
      ghost var stamps0, current0 := stamp[..], currentStamp;
      currentStamp := currentStamp + 1;
      if currentStamp == IntMaxValue {
        forall i | 0 <= i < stamp.Length {
          stamp[i] := 0;
        }
        currentStamp := 1;
      }
      forall i | 0 <= i < Size()
        ensures !IsActive(i)
      {
        IsolatedNewSearchRetiresSlots(stamps0, current0, i);
      }
    }

    /**
     * `IsActive(id)`: slot `id` belongs to the current search, which is what
     * the epoch lemmas call `Live` of the stamps.
     */
    function IsActive(id: int): (r: bool)
      requires 0 <= id < stamp.Length
      reads this, stamp
      ensures r <==> Live(stamp[..], currentStamp, id)
    {
      stamp[id] == currentStamp
    }

    /**
     * `Activate(id)`: slot `id` joins the current search with f = g =
     * `float.MaxValue`, h = 0, not closed and no predecessor; no other slot
     * changes.
     */
    method Activate(id: int)
      requires Valid() && 0 <= id < Size()
      modifies stamp, f, g, h, closed, from
      ensures Valid() && IsActive(id)
      ensures stamp[..] == old(stamp[..])[id := currentStamp]
      ensures f[..] == old(f[..])[id := FloatMaxValue]
      ensures g[..] == old(g[..])[id := FloatMaxValue]
      ensures h[..] == old(h[..])[id := 0.0]
      ensures closed[..] == old(closed[..])[id := false]
      ensures from[..] == old(from[..])[id := None]
    {
      stamp[id] := currentStamp;
      f[id] := FloatMaxValue;
      g[id] := FloatMaxValue;
      h[id] := 0.0;
      closed[id] := false;
      from[id] := None;
    }
  }
}
