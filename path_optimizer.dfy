/**
 * Greedy path simplification: from the current waypoint, look ahead along the
 * path and jump to the farthest waypoint reached before the first blocked
 * line of sight, skipping over waypoints that continue the last direction.
 *
 * The geometry is abstract: `dir(a, b)` stands for the normalised direction
 * between the two cells' centres, `aligned(d0, d1)` for the dot-product test
 * against the threshold, and `blocked(a, b)` for the sphere cast between the
 * centres with the agent's size and obstacle mask.
 */
module PathOptimizers {
  import opened Common

  /** The geometric tests `Simplify` consults, with `zero` the initial direction. */
  datatype Sight<!T, !D> = Sight(dir: (T, T) -> D, aligned: (D, D) -> bool, blocked: (T, T) -> bool, zero: D)

  /** Where the inner look-ahead stops: the farthest visible index and the direction it leaves behind. */
  datatype Reach<D> = Reach(lastVisible: nat, lastDir: D)

  /**
   * The inner `for t` loop from `t` on, standing at `path[n]`: an aligned
   * waypoint beyond `n + 1` is taken without a sight test, a blocked one ends
   * the scan, and a clear one is taken and sets the direction.
   */
  function Scan<T, D>(path: seq<T>, s: Sight<T, D>, n: nat, t: nat, lastVisible: nat, lastDir: D): (r: Reach<D>)
    requires n + 1 <= lastVisible <= t <= |path| && lastVisible < |path|
    ensures lastVisible <= r.lastVisible < |path|
    decreases |path| - t
  {
    if t == |path| then Reach(lastVisible, lastDir)
    else
      var d := s.dir(path[n], path[t]);
      if t > n + 1 && s.aligned(lastDir, d) then Scan(path, s, n, t + 1, t, lastDir)
      else if s.blocked(path[n], path[t]) then Reach(lastVisible, lastDir)
      else Scan(path, s, n, t + 1, t, d)
  }

  /** The indices the outer loop appends after `path[0]`, starting from waypoint `n`. */
  function Kept<T, D>(path: seq<T>, s: Sight<T, D>, n: nat, lastDir: D): seq<nat>
    requires n < |path|
    decreases |path| - n
  {
    if n == |path| - 1 then []
    else
      var r := Scan(path, s, n, n + 1, n + 1, lastDir);
      [r.lastVisible] + Kept(path, s, r.lastVisible, r.lastDir)
  }

  /**
   * The kept indices lie beyond `n` and inside the path, each one greater
   * than the one before, ending at the last waypoint: every outer step
   * advances, so the outer loop ends, after at most `|path| - 1 - n` steps.
   */
  lemma {:induction false} KeptIndices<T, D>(path: seq<T>, s: Sight<T, D>, n: nat, lastDir: D)
    requires n < |path|
    ensures forall i | 0 <= i < |Kept(path, s, n, lastDir)| :: n < Kept(path, s, n, lastDir)[i] < |path|
    ensures forall i | 0 <= i < |Kept(path, s, n, lastDir)| - 1 :: Kept(path, s, n, lastDir)[i] < Kept(path, s, n, lastDir)[i + 1]
    ensures n + 1 < |path| ==> |Kept(path, s, n, lastDir)| > 0 && Kept(path, s, n, lastDir)[|Kept(path, s, n, lastDir)| - 1] == |path| - 1
    ensures |Kept(path, s, n, lastDir)| <= |path| - 1 - n
    decreases |path| - n
  {
    if n < |path| - 1 {
      var r := Scan(path, s, n, n + 1, n + 1, lastDir);
      KeptIndices(path, s, r.lastVisible, r.lastDir);
    }
  }

  /** The waypoints of `path` at `idx`, in order. */
  function At<T>(path: seq<T>, idx: seq<nat>): (r: seq<T>)
    requires forall i | 0 <= i < |idx| :: idx[i] < |path|
    ensures |r| == |idx|
    ensures forall i | 0 <= i < |idx| :: r[i] == path[idx[i]]
  {
    seq(|idx|, i requires 0 <= i < |idx| => path[idx[i]])
  }

  /** What `Simplify` returns: null and paths of fewer than two waypoints as given, otherwise `path[0]` and the kept waypoints. */
  function Simplified<T, D>(path: Option<seq<T>>, s: Sight<T, D>): Option<seq<T>>
  {
    if path.None? || |path.value| < 2 then path
    else
      KeptIndices(path.value, s, 0, s.zero);
      Some([path.value[0]] + At(path.value, Kept(path.value, s, 0, s.zero)))
  }

  /** `idx` picks an ordered subsequence of `path`: its indices are in range and strictly increasing. */
  predicate Increasing(idx: seq<nat>, len: nat)
  {
    && (forall i | 0 <= i < |idx| :: idx[i] < len)
    && (forall i, j | 0 <= i < j < |idx| :: idx[i] < idx[j])
  }

  /** Consecutive increase gives increase between any two positions. */
  lemma {:induction false} StepwiseIncreasing(idx: seq<nat>, len: nat)
    requires forall i | 0 <= i < |idx| :: idx[i] < len
    requires forall i | 0 <= i < |idx| - 1 :: idx[i] < idx[i + 1]
    ensures Increasing(idx, len)
  {
    if |idx| > 1 {
      var rest := idx[1..];
      StepwiseIncreasing(rest, len);
      forall i, j | 0 <= i < j < |idx|
        ensures idx[i] < idx[j]
      {
        if i == 0 {
          if j > 1 {
            assert idx[1] == rest[0] && idx[j] == rest[j - 1];
          }
        } else {
          assert idx[i] == rest[i - 1] && idx[j] == rest[j - 1];
        }
      }
    }
  }

  /** One outer step: the look-ahead from `n` yields the first kept index, and the rest continue from there. */
  lemma KeptStep<T, D>(path: seq<T>, s: Sight<T, D>, n: nat, lastDir: D, r: Reach<D>)
    requires n + 1 < |path|
    requires r == Scan(path, s, n, n + 1, n + 1, lastDir)
    ensures n < r.lastVisible < |path|
    ensures Kept(path, s, n, lastDir) == [r.lastVisible] + Kept(path, s, r.lastVisible, r.lastDir)
  {
  }

  /** The outer loop's invariant: the indices kept so far, followed by those still to come, are all the kept indices. */
  lemma OuterStep<T, D>(path: seq<T>, s: Sight<T, D>, kept: seq<nat>, n: nat, lastDir: D, r: Reach<D>)
    requires n + 1 < |path|
    requires Kept(path, s, 0, s.zero) == kept + Kept(path, s, n, lastDir)
    requires r == Scan(path, s, n, n + 1, n + 1, lastDir)
    ensures n < r.lastVisible < |path|
    ensures Kept(path, s, 0, s.zero) == (kept + [r.lastVisible]) + Kept(path, s, r.lastVisible, r.lastDir)
  {
    KeptStep(path, s, n, lastDir, r);
    assert kept + ([r.lastVisible] + Kept(path, s, r.lastVisible, r.lastDir))
      == (kept + [r.lastVisible]) + Kept(path, s, r.lastVisible, r.lastDir);
  }

  /** Picking one more index appends one more waypoint. */
  lemma AtAppend<T>(path: seq<T>, idx: seq<nat>, i: nat)
    requires forall k | 0 <= k < |idx| :: idx[k] < |path|
    requires i < |path|
    ensures At(path, idx + [i]) == At(path, idx) + [path[i]]
  {
    assert At(path, idx + [i]) == At(path, idx) + [path[i]];
  }

  /**
   * A simplified path is the subsequence of the original at indices `idx`,
   * which start at 0, end at the last waypoint and strictly increase; so it
   * keeps both endpoints and has between 2 and `|path|` waypoints.
   */
  lemma SimplifiedIsSubsequence<T, D>(path: seq<T>, s: Sight<T, D>, idx: seq<nat>)
    requires |path| >= 2
    requires idx == [0] + Kept(path, s, 0, s.zero)
    ensures Increasing(idx, |path|)
    ensures idx[0] == 0 && idx[|idx| - 1] == |path| - 1
    ensures Simplified(Some(path), s) == Some(At(path, idx))
    ensures 2 <= |At(path, idx)| <= |path|
    ensures At(path, idx)[0] == path[0] && At(path, idx)[|idx| - 1] == path[|path| - 1]
  {
    var k := Kept(path, s, 0, s.zero);
    KeptIndices(path, s, 0, s.zero);
    assert forall i | 1 <= i < |idx| :: idx[i] == k[i - 1];
    StepwiseIncreasing(idx, |path|);
    assert At(path, idx) == [path[0]] + At(path, k);
  }

  /** The first look-ahead from any waypoint keeps at least the next one, whatever the sight tests say. */
  lemma NextIsFallback<T, D>(path: seq<T>, s: Sight<T, D>, n: nat, lastDir: D)
    requires n + 1 < |path|
    ensures Kept(path, s, n, lastDir)[0] >= n + 1
    ensures s.blocked(path[n], path[n + 1]) ==> Kept(path, s, n, lastDir)[0] == n + 1
  {
  }

  /**
   * `Simplify(path, size, obstacleMask, dirThreshold)`, with the geometric
   * tests in `s`: the outer loop stands at waypoint `n`, the inner loop looks
   * ahead for the farthest visible one, and that waypoint is appended.
   */
  method Simplify<T, D>(path: Option<seq<T>>, s: Sight<T, D>) returns (r: Option<seq<T>>)
    ensures r == Simplified(path, s)
    ensures path.None? || |path.value| < 2 ==> r == path
  {
    if path.None? || |path.value| < 2 {
      return path;
    }
    var p := path.value;
    var simplified := [p[0]];
    var n := 0;
    var lastDir := s.zero;
    ghost var kept: seq<nat> := [];
    while n < |p| - 1
      invariant 0 <= n < |p|
      invariant Kept(p, s, 0, s.zero) == kept + Kept(p, s, n, lastDir)
      invariant forall i | 0 <= i < |kept| :: kept[i] < |p|
      invariant simplified == [p[0]] + At(p, kept)
      decreases |p| - n
    {
      ghost var dir0 := lastDir;
      var lastVisible := n + 1;
      var from := p[n];
      var t := n + 1;
      while t < |p|
        invariant n + 1 <= lastVisible <= t <= |p| && lastVisible < |p|
        invariant Scan(p, s, n, n + 1, n + 1, dir0) == Scan(p, s, n, t, lastVisible, lastDir)
        decreases |p| - t
      {
        var to := p[t];
        var d := s.dir(from, to);
        if t > n + 1 && s.aligned(lastDir, d) {
          lastVisible := t;
          t := t + 1;
          continue;
        }
        if s.blocked(from, to) {
          break;
        }
        lastDir := d;
        lastVisible := t;
        t := t + 1;
      }
      OuterStep(p, s, kept, n, dir0, Reach(lastVisible, lastDir));
      AtAppend(p, kept, lastVisible);
      kept := kept + [lastVisible];
      simplified := simplified + [p[lastVisible]];
      n := lastVisible;
    }
    assert Kept(p, s, n, lastDir) == [];
    assert kept == Kept(p, s, 0, s.zero);
    r := Some(simplified);
  }
}
