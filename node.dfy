/**
 * A search vertex: a block-centred position, a spatial key computed once
 * from the floored coordinates, and the mutable bookkeeping of the A*
 * engine (cost so far g, heuristic h, parent link).
 */
module Nodes {
  import opened Basics

  /**
   * World::blockHash packs a block coordinate into one integer. The
   * packing itself lies outside this model; the key is the coordinate,
   * which is as injective and as reversible as the packing.
   */
  function BlockHash(x: int, y: int, z: int): Cell
  {
    Cell(x, y, z)
  }

  /** World::getBlockXYZ: the coordinate a key was made from. */
  function GetBlockXYZ(h: Cell): (xyz: (int, int, int))
    ensures BlockHash(xyz.0, xyz.1, xyz.2) == h
    ensures forall x, y, z :: BlockHash(x, y, z) == h ==> xyz == (x, y, z)
  {
    (h.x, h.y, h.z)
  }

  /** The key the Node constructor computes for a position. */
  function HashOf(x: real, y: real, z: real): (h: Cell)
    ensures h == FloorCell(Vec(x, y, z))
  {
    BlockHash(x.Floor, y.Floor, z.Floor)
  }

  class Node {
    const x: real
    /** Rules may move a candidate node vertically; nothing else moves a node. */
    var y: real
    const z: real
    /** Computed once, from the coordinates given to the constructor. */
    const hash: Cell
    var g: Cost
    var h: real
    var parentNode: Node?

    /** A fresh node: g is "infinite", h is 0 and there is no parent. */
    constructor (x: real, y: real, z: real)
      ensures this.x == x && this.y == y && this.z == z
      ensures hash == HashOf(x, y, z)
      ensures g == Inf && h == 0.0 && parentNode == null
    {
      this.x, this.y, this.z := x, y, z;
      hash := HashOf(x, y, z);
      g, h, parentNode := Inf, 0.0, null;
    }

    function Pos(): Vec
      reads this
    {
      Vec(x, y, z)
    }

    /** f = g + h: finite exactly when g is, and then h above g. */
    function GetF(): (f: Cost)
      reads this
      ensures f.Fin? <==> g.Fin?
      ensures f.Fin? ==> f.v - g.v == h
    {
      g.Add(h)
    }

    method SetG(g: Cost)
      modifies this`g
      ensures this.g == g
    {
      this.g := g;
    }

    method SetH(h: real)
      modifies this`h
      ensures this.h == h
    {
      this.h := h;
    }

    method SetParentNode(parentNode: Node?)
      modifies this`parentNode
      ensures this.parentNode == parentNode
    {
      this.parentNode := parentNode;
    }

    /** The block-centred node of the block a position lies in. */
    static method FromVector3(v: Vec) returns (n: Node)
      ensures fresh(n)
      ensures n.Pos() == Center(FloorCell(v))
      ensures n.hash == FloorCell(v)
      ensures n.g == Inf && n.h == 0.0 && n.parentNode == null
    {
      var c := FloorCell(v);
      n := new Node(c.x as real + 0.5, c.y as real, c.z as real + 0.5);
    }

    /** The node of the block a key was made from; its key is that key again. */
    static method FromHash(hash: Cell) returns (n: Node)
      ensures fresh(n)
      ensures n.hash == hash
      ensures n.Pos() == Center(hash)
      ensures n.g == Inf && n.h == 0.0 && n.parentNode == null
    {
      var xyz := GetBlockXYZ(hash);
      n := FromVector3(Vec(xyz.0 as real, xyz.1 as real, xyz.2 as real));
    }
  }
}
