/**
 * The parts of Unity's `Vector3` and `Bounds` that the octree relies on, over
 * exact reals. A `Bounds` is stored as Unity stores it, a center and the
 * half-size ("extents"); its size, min and max corners are derived.
 */
module Geometry {

  datatype Vec3 = Vec3(x: real, y: real, z: real)
  {
    function Plus(o: Vec3): Vec3 { Vec3(x + o.x, y + o.y, z + o.z) }
    function Minus(o: Vec3): Vec3 { Vec3(x - o.x, y - o.y, z - o.z) }
    function Half(): Vec3 { Vec3(0.5 * x, 0.5 * y, 0.5 * z) }
    function Quarter(): Vec3 { Vec3(0.25 * x, 0.25 * y, 0.25 * z) }
    function Double(): Vec3 { Vec3(2.0 * x, 2.0 * y, 2.0 * z) }
  }

  const Zero: Vec3 := Vec3(0.0, 0.0, 0.0)

  function Min(a: real, b: real): real { if a <= b then a else b }
  function Max(a: real, b: real): real { if a >= b then a else b }

  /** `Vector3.Min` and `Vector3.Max`: componentwise. */
  function MinV(a: Vec3, b: Vec3): Vec3 { Vec3(Min(a.x, b.x), Min(a.y, b.y), Min(a.z, b.z)) }
  function MaxV(a: Vec3, b: Vec3): Vec3 { Vec3(Max(a.x, b.x), Max(a.y, b.y), Max(a.z, b.z)) }

  datatype Bounds = Bounds(center: Vec3, extents: Vec3)
  {
    function Size(): Vec3 { extents.Double() }
    function Min(): Vec3 { center.Minus(extents) }
    function Max(): Vec3 { center.Plus(extents) }

    /** No axis has a negative extent, so min <= max everywhere. */
    predicate WellFormed() { extents.x >= 0.0 && extents.y >= 0.0 && extents.z >= 0.0 }

    /** `Bounds.Contains`: the closed box holds `p`. */
    predicate Contains(p: Vec3)
    {
      && Min().x <= p.x <= Max().x
      && Min().y <= p.y <= Max().y
      && Min().z <= p.z <= Max().z
    }

    /** The open box (the interior) holds `p`. */
    predicate InteriorContains(p: Vec3)
    {
      && Min().x < p.x < Max().x
      && Min().y < p.y < Max().y
      && Min().z < p.z < Max().z
    }

    /**
     * `Bounds.Intersects`: overlap or touch on every axis. Boxes that do not
     * intersect share no point; two well-formed boxes that do share the point
     * at the larger of their min corners.
     */
    function Intersects(o: Bounds): (r: bool)
      ensures !r ==> forall p :: !(Contains(p) && o.Contains(p))
      ensures r && WellFormed() && o.WellFormed() ==>
                Contains(MaxV(Min(), o.Min())) && o.Contains(MaxV(Min(), o.Min()))
    {
      && Min().x <= o.Max().x && Max().x >= o.Min().x
      && Min().y <= o.Max().y && Max().y >= o.Min().y
      && Min().z <= o.Max().z && Max().z >= o.Min().z
    }
  }

  /** `new Bounds(center, size)`. */
  function FromCenterSize(center: Vec3, size: Vec3): (b: Bounds)
    ensures b.center == center && b.Size() == size
  {
    Bounds(center, size.Half())
  }

  /** `Bounds.SetMinMax(lo, hi)`: the box whose corners are `lo` and `hi`. */
  function FromMinMax(lo: Vec3, hi: Vec3): (b: Bounds)
    ensures b.Min() == lo && b.Max() == hi
  {
    var ext := hi.Minus(lo).Half();
    Bounds(lo.Plus(ext), ext)
  }

  /** `Bounds.Encapsulate(Vector3 point)`. */
  function Encapsulate(b: Bounds, p: Vec3): (r: Bounds)
    ensures r.Min() == MinV(b.Min(), p) && r.Max() == MaxV(b.Max(), p)
  {
    FromMinMax(MinV(b.Min(), p), MaxV(b.Max(), p))
  }

  /**
   * `Bounds.Encapsulate(Bounds other)`: encapsulates both corners of `other`;
   * for a well-formed `other` the result is the smallest box around both.
   */
  function EncapsulateBounds(b: Bounds, other: Bounds): (r: Bounds)
    ensures other.WellFormed() ==> r.Min() == MinV(b.Min(), other.Min()) && r.Max() == MaxV(b.Max(), other.Max())
  {
    Encapsulate(Encapsulate(b, other.center.Minus(other.extents)), other.center.Plus(other.extents))
  }

  /** A box is well formed exactly when its min corner is below its max corner on every axis. */
  lemma CornersOrdered(b: Bounds)
    ensures b.WellFormed() <==> b.Min().x <= b.Max().x && b.Min().y <= b.Max().y && b.Min().z <= b.Max().z
  {
  }

  /** Encapsulating a point yields a box that holds the point and everything the old box held. */
  lemma EncapsulateGrows(b: Bounds, p: Vec3)
    requires b.WellFormed()
    ensures Encapsulate(b, p).WellFormed()
    ensures Encapsulate(b, p).Contains(p)
    ensures forall q :: b.Contains(q) ==> Encapsulate(b, p).Contains(q)
  {
  }

  /** Encapsulating a box yields a box that holds all of it and everything the old box held. */
  lemma EncapsulateBoundsGrows(b: Bounds, other: Bounds)
    requires b.WellFormed() && other.WellFormed()
    ensures EncapsulateBounds(b, other).WellFormed()
    ensures forall q :: b.Contains(q) ==> EncapsulateBounds(b, other).Contains(q)
    ensures forall q :: other.Contains(q) ==> EncapsulateBounds(b, other).Contains(q)
  {
    var b1 := Encapsulate(b, other.Min());
    EncapsulateGrows(b, other.Min());
    EncapsulateGrows(b1, other.Max());
  }

  /** `Intersects` does not depend on the order of its operands. */
  lemma IntersectsSymmetric(a: Bounds, b: Bounds)
    ensures a.Intersects(b) <==> b.Intersects(a)
  {
  }
}
