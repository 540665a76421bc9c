/** The midpoint the program attaches to each face: the average of the first
    and third polygon corners, computed in Java `int` arithmetic. */
module Geometry {
  import opened Faces

  /** Java `int` addition wraps modulo 2^32. */
  function Wrap32(n: int): (r: Int32)
    ensures (n - r) % 0x1_0000_0000 == 0
    ensures INT_MIN <= n <= INT_MAX ==> r == n
  {
    (n - INT_MIN) % 0x1_0000_0000 + INT_MIN
  }

  /** Java `n / 2`: the quotient is truncated toward zero. */
  function Half(n: int): (r: int)
    ensures 0 <= n ==> 0 <= n - 2 * r <= 1
    ensures n < 0 ==> -1 <= n - 2 * r <= 0
  {
    if 0 <= n then n / 2 else -((-n) / 2)
  }

  /** `(br + tl) / 2` as Java evaluates it on two `int`s. */
  function MidCoord(tl: Int32, br: Int32): (r: Int32)
    ensures 0 <= Wrap32(br + tl) ==> 0 <= Wrap32(br + tl) - 2 * r <= 1
    ensures Wrap32(br + tl) < 0 ==> -1 <= Wrap32(br + tl) - 2 * r <= 0
  {
    Half(Wrap32(br + tl))
  }

  /** The "MidPoint" of a polygon: it reads vertex 0 and vertex 2 only. */
  function MidPointOf(vertices: seq<Vertex>): (r: Vertex)
    requires |vertices| >= 3
    ensures INT_MIN <= vertices[0].x + vertices[2].x <= INT_MAX ==>
      Min(vertices[0].x, vertices[2].x) <= r.x <= Max(vertices[0].x, vertices[2].x)
    ensures INT_MIN <= vertices[0].y + vertices[2].y <= INT_MAX ==>
      Min(vertices[0].y, vertices[2].y) <= r.y <= Max(vertices[0].y, vertices[2].y)
  {
    Vertex(MidCoord(vertices[0].x, vertices[2].x), MidCoord(vertices[0].y, vertices[2].y))
  }

  function Min(a: int, b: int): int { if a <= b then a else b }

  function Max(a: int, b: int): int { if a <= b then b else a }

  /** Adds "MidPoint" to a record; every other field is left as it was. */
  function AddMidPoint(p: Person): (r: Person)
    requires |p.vertices| >= 3
    ensures r.sorrow == p.sorrow && r.joy == p.joy && r.vertices == p.vertices
    ensures r.midPoint.Some?
    ensures r.midPoint.value.x == MidCoord(p.vertices[0].x, p.vertices[2].x)
    ensures r.midPoint.value.y == MidCoord(p.vertices[0].y, p.vertices[2].y)
  {
    p.(midPoint := Some(MidPointOf(p.vertices)))
  }

  /** When the sum does not overflow, the midpoint coordinate is the average
      of the two corners rounded toward zero, so it lies between them. */
  lemma MidCoordIsAverage(tl: Int32, br: Int32)
    requires INT_MIN <= tl + br <= INT_MAX
    ensures 0 <= tl + br ==> 0 <= tl + br - 2 * MidCoord(tl, br) <= 1
    ensures tl + br < 0 ==> -1 <= tl + br - 2 * MidCoord(tl, br) <= 0
    ensures tl <= br ==> tl <= MidCoord(tl, br) <= br
    ensures br <= tl ==> br <= MidCoord(tl, br) <= tl
  {
  }

  /** The sum really is a 32-bit sum: corners whose sum exceeds INT_MAX
      give a negative midpoint, as the Java code does. */
  lemma MidCoordWrapsOnOverflow(tl: Int32, br: Int32)
    requires tl + br > INT_MAX
    ensures MidCoord(tl, br) < 0
  {
  }

  /** Symmetrically, corners whose sum is below INT_MIN give a non-negative
      midpoint. */
  lemma MidCoordWrapsOnUnderflow(tl: Int32, br: Int32)
    requires tl + br < INT_MIN
    ensures MidCoord(tl, br) >= 0
  {
  }

  /** Vertices 1 and 3 (and any further ones) have no effect. */
  lemma MidPointUsesCornersOnly(v: seq<Vertex>, w: seq<Vertex>)
    requires |v| >= 3 && |w| >= 3
    requires v[0] == w[0] && v[2] == w[2]
    ensures MidPointOf(v) == MidPointOf(w)
  {
  }

  /** A box from (0,0) to (10,10) has its midpoint at (5,5), whatever the
      other two corners are. */
  lemma MidPointOfSquare(p1: Vertex, p3: Vertex)
    ensures MidPointOf([Vertex(0, 0), p1, Vertex(10, 10), p3]) == Vertex(5, 5)
  {
  }
}
