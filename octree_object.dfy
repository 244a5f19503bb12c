/**
 * An obstacle as the octree sees it: one axis-aligned box per triangle of its
 * mesh, in world space, and the test whether any of them touches a cell.
 */
module OctreeObjects {
  import opened Common
  import opened Geometry

  /** A triangle mesh: vertex positions in local space and index triples. */
  datatype Mesh = Mesh(vertices: seq<Vec3>, triangles: seq<int>)

  /** A `MeshFilter`; its shared mesh may be missing (null). */
  datatype MeshFilter = MeshFilter(sharedMesh: Option<Mesh>)

  datatype OctreeObject = OctreeObject(triangleBounds: seq<Bounds>)

  /**
   * What Unity guarantees of a triangle mesh: whole index triples, each index
   * naming a vertex (the `Mesh.triangles` setter refuses anything else).
   */
  predicate WellFormedMesh(m: Mesh)
  {
    && |m.triangles| % 3 == 0
    && forall i | 0 <= i < |m.triangles| :: 0 <= m.triangles[i] < |m.vertices|
  }

  /**
   * The box of one triangle: a zero-size box at the first vertex (center `v0`,
   * extents zero), grown to the other two. Its corners are the componentwise minimum and maximum of the
   * three vertices.
   */
  function TriangleBounds(v0: Vec3, v1: Vec3, v2: Vec3): (b: Bounds)
    ensures b.Min() == MinV(MinV(v0, v1), v2)
    ensures b.Max() == MaxV(MaxV(v0, v1), v2)
  {
    Encapsulate(Encapsulate(Bounds(v0, Zero), v1), v2)
  }

  /** The triangle box holds the three vertices, and every box holding them holds it. */
  lemma TriangleBoundsIsSmallest(v0: Vec3, v1: Vec3, v2: Vec3, box: Bounds)
    ensures TriangleBounds(v0, v1, v2).WellFormed()
    ensures TriangleBounds(v0, v1, v2).Contains(v0)
    ensures TriangleBounds(v0, v1, v2).Contains(v1)
    ensures TriangleBounds(v0, v1, v2).Contains(v2)
    ensures box.Contains(v0) && box.Contains(v1) && box.Contains(v2) ==>
              forall q :: TriangleBounds(v0, v1, v2).Contains(q) ==> box.Contains(q)
  {
    var b := TriangleBounds(v0, v1, v2);
    var lo, hi := MinV(MinV(v0, v1), v2), MaxV(MaxV(v0, v1), v2);
    assert b.Min() == lo && b.Max() == hi;
    assert lo.x <= hi.x && lo.y <= hi.y && lo.z <= hi.z;
    CornersOrdered(b);
  }

  /** The box of the `k`-th index triple, after `transformPoint` maps the vertices to world space. */
  function TriangleAt(m: Mesh, transformPoint: Vec3 -> Vec3, k: nat): Bounds
    requires WellFormedMesh(m) && 3 * k + 2 < |m.triangles|
  {
    TriangleBounds(
      transformPoint(m.vertices[m.triangles[3 * k]]),
      transformPoint(m.vertices[m.triangles[3 * k + 1]]),
      transformPoint(m.vertices[m.triangles[3 * k + 2]]))
  }

  /**
   * The `OctreeObject` constructor: no boxes without a filter or a mesh,
   * otherwise one box per index triple, in order.
   */
  method NewOctreeObject(meshFilter: Option<MeshFilter>, transformPoint: Vec3 -> Vec3) returns (o: OctreeObject)
    requires meshFilter.Some? && meshFilter.value.sharedMesh.Some? ==> WellFormedMesh(meshFilter.value.sharedMesh.value)
    ensures meshFilter.None? || meshFilter.value.sharedMesh.None? ==> o.triangleBounds == []
    ensures meshFilter.Some? && meshFilter.value.sharedMesh.Some? ==>
              var m := meshFilter.value.sharedMesh.value;
              && |o.triangleBounds| == |m.triangles| / 3
              && forall k | 0 <= k < |o.triangleBounds| :: o.triangleBounds[k] == TriangleAt(m, transformPoint, k)
  {
    var triangleBounds: seq<Bounds> := [];
    if meshFilter.None? || meshFilter.value.sharedMesh.None? {
      return OctreeObject(triangleBounds);
    }
    var mesh := meshFilter.value.sharedMesh.value;
    var vertices := mesh.vertices;
    var triangles := mesh.triangles;
    var i := 0;
    while i < |triangles|
      invariant i == 3 * |triangleBounds| && i <= |triangles|
      invariant forall k | 0 <= k < |triangleBounds| :: triangleBounds[k] == TriangleAt(mesh, transformPoint, k)
    {
      var v0 := transformPoint(vertices[triangles[i]]);
      var v1 := transformPoint(vertices[triangles[i + 1]]);
      var v2 := transformPoint(vertices[triangles[i + 2]]);
      var triBounds := Bounds(v0, Zero);
      triBounds := Encapsulate(triBounds, v1);
      triBounds := Encapsulate(triBounds, v2);
      assert triBounds == TriangleBounds(v0, v1, v2);
      triangleBounds := triangleBounds + [triBounds];
      i := i + 3;
    }
    o := OctreeObject(triangleBounds);
  }

  /** `OctreeObject.Intersects`: some triangle box intersects the cell; never for an object without boxes. */
  method Intersects(o: OctreeObject, nodeBounds: Bounds) returns (r: bool)
    ensures r <==> exists i | 0 <= i < |o.triangleBounds| :: o.triangleBounds[i].Intersects(nodeBounds)
  {
    var i := 0;
    while i < |o.triangleBounds|
      invariant 0 <= i <= |o.triangleBounds|
      invariant forall k | 0 <= k < i :: !o.triangleBounds[k].Intersects(nodeBounds)
    {
      if o.triangleBounds[i].Intersects(nodeBounds) {
        return true;
      }
      i := i + 1;
    }
    return false;
  }
}
