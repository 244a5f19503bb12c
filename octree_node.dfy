/**
 * One cell of the octree: its box, the boxes of its eight octants, the
 * obstacles that touch it and, once divided, its eight children.
 *
 * A cell is a C# object, and the graph and the leaf list refer to it by
 * reference; the model gives each cell a `handle` that stands for that
 * reference. Octant `i` lies on the upper half of the x, y and z axis exactly
 * when bit 1, 2 and 4 of `i` is set.
 */
module OctreeNodes {
  import opened Geometry
  import opened OctreeObjects

  /** Bit `1`, `2` or `4` of an octant index (axis 0, 1 or 2), i.e. `(i & mask) != 0`. */
  predicate UpperHalf(i: nat, axis: nat)
    requires axis < 3
  {
    if axis == 0 then i % 2 == 1
    else if axis == 1 then (i / 2) % 2 == 1
    else (i / 4) % 2 == 1
  }

  /** `c + d * (bit ? 1 : -1)`: a move by `d` up or down one axis. */
  function Shift(c: real, d: real, up: bool): real
  {
    if up then c + d else c - d
  }

  /**
   * The box of octant `i`: half the parent's size, centred a quarter of the
   * parent's size away from the parent centre on each axis.
   */
  function ChildBox(b: Bounds, i: nat): (c: Bounds)
    requires i < 8
    ensures c.Size() == b.Size().Half()
  {
    var newSize := b.Size().Half();
    var centerOffset := b.Size().Quarter();
    var childCenter := Vec3(
      Shift(b.center.x, centerOffset.x, UpperHalf(i, 0)),
      Shift(b.center.y, centerOffset.y, UpperHalf(i, 1)),
      Shift(b.center.z, centerOffset.z, UpperHalf(i, 2)));
    FromCenterSize(childCenter, newSize)
  }

  /**
   * On every axis an octant spans the lower half [min, center] of its parent
   * or the upper half [center, max], as the axis bit says.
   */
  lemma ChildSpan(b: Bounds, i: nat)
    requires i < 8
    ensures var c := ChildBox(b, i);
      && c.Min().x == (if UpperHalf(i, 0) then b.center.x else b.Min().x)
      && c.Max().x == (if UpperHalf(i, 0) then b.Max().x else b.center.x)
      && c.Min().y == (if UpperHalf(i, 1) then b.center.y else b.Min().y)
      && c.Max().y == (if UpperHalf(i, 1) then b.Max().y else b.center.y)
      && c.Min().z == (if UpperHalf(i, 2) then b.center.z else b.Min().z)
      && c.Max().z == (if UpperHalf(i, 2) then b.Max().z else b.center.z)
  {
    var c := ChildBox(b, i);
    assert c.extents == b.extents.Half();
  }

  /** Every octant of a well-formed box is well formed and lies inside it. */
  lemma ChildInsideParent(b: Bounds, i: nat)
    requires b.WellFormed() && i < 8
    ensures ChildBox(b, i).WellFormed()
    ensures forall p :: ChildBox(b, i).Contains(p) ==> b.Contains(p)
  {
    ChildSpan(b, i);
    CornersOrdered(ChildBox(b, i));
  }

  /** The octant a point falls in: upper half on an axis when it is at or above the centre. */
  function OctantOf(b: Bounds, p: Vec3): (i: nat)
    ensures i < 8
  {
    (if p.x >= b.center.x then 1 else 0)
      + (if p.y >= b.center.y then 2 else 0)
      + (if p.z >= b.center.z then 4 else 0)
  }

  /** The eight octants cover their parent: every point of the parent lies in one of them. */
  lemma ChildrenCover(b: Bounds, p: Vec3)
    requires b.Contains(p)
    ensures exists i :: 0 <= i < 8 && ChildBox(b, i).Contains(p)
  {
    var i := OctantOf(b, p);
    assert UpperHalf(i, 0) <==> p.x >= b.center.x;
    assert UpperHalf(i, 1) <==> p.y >= b.center.y;
    assert UpperHalf(i, 2) <==> p.z >= b.center.z;
    ChildSpan(b, i);
    assert ChildBox(b, i).Contains(p);
  }

  /** Two different octant indices differ in at least one axis bit. */
  lemma DistinctIndicesDifferInABit(i: nat, j: nat)
    requires i < 8 && j < 8 && i != j
    ensures exists axis :: 0 <= axis < 3 && UpperHalf(i, axis) != UpperHalf(j, axis)
  {
    if UpperHalf(i, 0) == UpperHalf(j, 0) && UpperHalf(i, 1) == UpperHalf(j, 1) {
      assert i % 4 == j % 4;
      assert UpperHalf(i, 2) != UpperHalf(j, 2);
    }
  }

  /** The interiors of two different octants share no point. */
  lemma ChildInteriorsDisjoint(b: Bounds, i: nat, j: nat)
    requires i < 8 && j < 8 && i != j
    ensures forall p :: !(ChildBox(b, i).InteriorContains(p) && ChildBox(b, j).InteriorContains(p))
  {
    ChildSpan(b, i);
    ChildSpan(b, j);
    DistinctIndicesDifferInABit(i, j);
  }

  /** For a parent of positive size the eight octant boxes are pairwise different. */
  lemma ChildrenDistinct(b: Bounds, i: nat, j: nat)
    requires b.extents.x > 0.0 && b.extents.y > 0.0 && b.extents.z > 0.0
    requires i < 8 && j < 8 && i != j
    ensures ChildBox(b, i) != ChildBox(b, j)
  {
    ChildSpan(b, i);
    ChildSpan(b, j);
    DistinctIndicesDifferInABit(i, j);
  }

  /** The `children` array of a cell: null until the cell is divided. */
  datatype ChildArray = NoChildren | Children(cells: seq<OctreeNode>)

  /**
   * A cell of the tree. `children` is `NoChildren` for a leaf (a null
   * array); `objects` are the obstacles that touch the cell.
   */
  datatype OctreeNode = OctreeNode(
    handle: nat,
    bounds: Bounds,
    minNodeSize: real,
    childBounds: seq<Bounds>,
    objects: seq<OctreeObject>,
    children: ChildArray)
  {
    /** `IsLeaf`: the cell has not been divided, so it holds no child cells. */
    function IsLeaf(): (r: bool)
      ensures r <==> !children.Children?
    {
      children.NoChildren?
    }
  }

  /**
   * The `OctreeNode` constructor: fills the eight-entry `childBounds` array
   * octant by octant; the new cell is an undivided leaf without obstacles.
   */
  method NewOctreeNode(handle: nat, bounds: Bounds, minNodeSize: real) returns (n: OctreeNode)
    ensures n.handle == handle && n.bounds == bounds && n.minNodeSize == minNodeSize
    ensures |n.childBounds| == 8
    ensures forall i | 0 <= i < 8 :: n.childBounds[i] == ChildBox(bounds, i)
    ensures n.IsLeaf() && n.objects == []
  {
    var childBounds := new Bounds[8];
    var newSize := bounds.Size().Half();
    var centerOffset := bounds.Size().Quarter();
    var parentCenter := bounds.center;
    for i := 0 to 8
      invariant forall k | 0 <= k < i :: childBounds[k] == ChildBox(bounds, k)
    {
      var childCenter := Vec3(
        Shift(parentCenter.x, centerOffset.x, UpperHalf(i, 0)),
        Shift(parentCenter.y, centerOffset.y, UpperHalf(i, 1)),
        Shift(parentCenter.z, centerOffset.z, UpperHalf(i, 2)));
      childBounds[i] := FromCenterSize(childCenter, newSize);
    }
    n := OctreeNode(handle, bounds, minNodeSize, childBounds[..], [], NoChildren);
  }
}
