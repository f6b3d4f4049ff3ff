/**
 * Values shared by the node model, the rules and both search engines:
 * block coordinates, continuous positions, costs with an explicit
 * infinity, the block flags the rules ask the world for, and the
 * per-call settings.
 */
module Basics {

  datatype Option<T> = None | Some(value: T)

  /** An integer block coordinate (a floored position). */
  datatype Cell = Cell(x: int, y: int, z: int)

  /** A position with continuous coordinates (a Vector3). */
  datatype Vec = Vec(x: real, y: real, z: real)

  /** The block a position lies in: every axis floored. */
  function FloorCell(v: Vec): (c: Cell)
    ensures c.x as real <= v.x < c.x as real + 1.0
    ensures c.y as real <= v.y < c.y as real + 1.0
    ensures c.z as real <= v.z < c.z as real + 1.0
  {
    Cell(v.x.Floor, v.y.Floor, v.z.Floor)
  }

  /** Moving a position by a whole number of blocks moves its block by as many. */
  lemma FloorShift(r: real, k: int)
    ensures (r + k as real).Floor == r.Floor + k
  {
  }

  /** The block-centred position of a cell: +0.5 on the horizontal axes. */
  function Center(c: Cell): (v: Vec)
    ensures FloorCell(v) == c
    ensures v.y == c.y as real
  {
    Vec(c.x as real + 0.5, c.y as real, c.z as real + 0.5)
  }

  /** Sum of the absolute coordinate differences of two positions. */
  function Manhattan(a: Vec, b: Vec): (d: real)
    ensures d >= 0.0
    ensures d == 0.0 <==> a == b
    ensures d == Abs(b.x - a.x) + Abs(b.y - a.y) + Abs(b.z - a.z)
  {
    Abs(a.x - b.x) + Abs(a.y - b.y) + Abs(a.z - b.z)
  }

  function Abs(r: real): real
  {
    if r < 0.0 then -r else r
  }

  /**
   * A path cost. The source uses PHP_INT_MAX as "not reached"; the model
   * uses an explicit infinity that absorbs every addition.
   */
  datatype Cost = Fin(v: real) | Inf
  {
    /** this + d, with infinity + d = infinity. */
    function Add(d: real): (r: Cost)
      ensures r.Inf? <==> this.Inf?
      ensures r.Fin? ==> r.v - d == this.v
    {
      if Fin? then Fin(v + d) else Inf
    }

    /** Strict order: every finite cost lies below infinity. */
    predicate Below(other: Cost)
    {
      match (this, other)
      case (Fin(a), Fin(b)) => a < b
      case (Fin(_), Inf) => true
      case (Inf, _) => false
    }

    predicate AtMost(other: Cost)
    {
      !other.Below(this)
    }
  }

  /** The smaller of two costs. */
  function Min(a: Cost, b: Cost): (m: Cost)
    ensures m == a || m == b
    ensures m.AtMost(a) && m.AtMost(b)
  {
    if b.Below(a) then b else a
  }

  /** The three flags of a block that the rules look at. */
  datatype Block = Block(isFullCube: bool, canBeReplaced: bool, isTransparent: bool)

  /** The world as the rules see it: the block at every cell. */
  type World = Cell -> Block

  /** Per-call movement settings. */
  datatype Settings = Settings(maxTravelDistanceDown: int, maxTravelDistanceUp: int, pathSmoothing: bool)
}
