/**
 * The entity-size rule: a box of (2 * halfWidth + 1) x (height + 1) x
 * (2 * halfWidth + 1) blocks must be passable, and some block under its
 * footprint must be a full cube. A move whose target cannot be stood on
 * may be snapped down (up to maxTravelDistanceDown levels) or up (up to
 * maxTravelDistanceUp levels); the snap is reported by moving the target.
 *
 * World::getBlock floors the position it is given, so every check below
 * is a statement about the block a position lies in.
 */
module EntitySize {
  import opened Basics

  /** isSolid: a block that can carry the entity. */
  predicate Solid(b: Block)
  {
    b.isFullCube
  }

  /** isPassable: a block the entity's body may occupy. */
  predicate Passable(b: Block)
  {
    b.canBeReplaced || b.isTransparent
  }

  /** The block at offset (dx, dy, dz) from c. */
  function BlockAt(w: World, c: Cell, dx: int, dy: int, dz: int): Block
  {
    w(Cell(c.x + dx, c.y + dy, c.z + dz))
  }

  /** c moved k levels down. */
  function Down(c: Cell, k: int): Cell
  {
    Cell(c.x, c.y - k, c.z)
  }

  /** c moved k levels up. */
  function Up(c: Cell, k: int): Cell
  {
    Cell(c.x, c.y + k, c.z)
  }

  /** Some block of the layer under the footprint is a full cube. */
  ghost predicate Supported(w: World, halfWidth: int, c: Cell)
  {
    exists dx, dz ::
      -halfWidth <= dx <= halfWidth && -halfWidth <= dz <= halfWidth && Solid(BlockAt(w, c, dx, -1, dz))
  }

  /** Every block of the body's box is passable. */
  ghost predicate Clear(w: World, halfWidth: int, height: int, c: Cell)
  {
    forall dx, dy, dz ::
      -halfWidth <= dx <= halfWidth && -halfWidth <= dz <= halfWidth && 0 <= dy <= height
      ==> Passable(BlockAt(w, c, dx, dy, dz))
  }

  ghost predicate Standable(w: World, halfWidth: int, height: int, c: Cell)
  {
    Supported(w, halfWidth, c) && Clear(w, halfWidth, height, c)
  }

  /** hasBlockBelow: scans the layer under the footprint for a full cube. */
  method HasBlockBelow(w: World, halfWidth: int, center: Vec) returns (found: bool)
    ensures found == Supported(w, halfWidth, FloorCell(center))
  {
    var c := FloorCell(center);
    var xx := -halfWidth;
    while xx <= halfWidth
      invariant -halfWidth <= xx
      invariant forall dx, dz :: -halfWidth <= dx < xx && -halfWidth <= dz <= halfWidth ==> !Solid(BlockAt(w, c, dx, -1, dz))
    {
      var zz := -halfWidth;
      while zz <= halfWidth
        invariant -halfWidth <= zz
        invariant forall dz :: -halfWidth <= dz < zz ==> !Solid(BlockAt(w, c, xx, -1, dz))
      {
        if Solid(BlockAt(w, c, xx, -1, zz)) {
          return true;
        }
        zz := zz + 1;
      }
      xx := xx + 1;
    }
    return false;
  }

  /** isAreaClear: scans the body's box for a block that is not passable. */
  method IsAreaClear(w: World, halfWidth: int, height: int, center: Vec) returns (clear: bool)
    ensures clear == Clear(w, halfWidth, height, FloorCell(center))
  {
    var c := FloorCell(center);
    var xx := -halfWidth;
    while xx <= halfWidth
      invariant -halfWidth <= xx
      invariant forall dx, dy, dz ::
        -halfWidth <= dx < xx && -halfWidth <= dz <= halfWidth && 0 <= dy <= height
        ==> Passable(BlockAt(w, c, dx, dy, dz))
    {
      var zz := -halfWidth;
      while zz <= halfWidth
        invariant -halfWidth <= zz
        invariant forall dy, dz :: -halfWidth <= dz < zz && 0 <= dy <= height ==> Passable(BlockAt(w, c, xx, dy, dz))
      {
        var yy := 0;
        while yy <= height
          invariant 0 <= yy
          invariant forall dy :: 0 <= dy < yy ==> Passable(BlockAt(w, c, xx, dy, zz))
        {
          if !Passable(BlockAt(w, c, xx, yy, zz)) {
            return false;
          }
          yy := yy + 1;
        }
        zz := zz + 1;
      }
      xx := xx + 1;
    }
    return true;
  }

  /** couldStandAt: supported from below and clear around the body. */
  method CouldStandAt(w: World, halfWidth: int, height: int, node: Vec) returns (ok: bool)
    ensures ok == Standable(w, halfWidth, height, FloorCell(node))
  {
    ok := HasBlockBelow(w, halfWidth, node);
    if ok {
      ok := IsAreaClear(w, halfWidth, height, node);
    }
  }

  /** The step-down search of couldWalkTo, from level yy on. */
  ghost function DownFrom(w: World, halfWidth: int, height: int, t: Cell, yy: nat, maxDown: int): Option<nat>
    decreases maxDown - yy
  {
    if yy > maxDown then None
    else if !Clear(w, halfWidth, height, Down(t, yy)) then None
    else if Standable(w, halfWidth, height, Down(t, yy)) then Some(yy)
    else DownFrom(w, halfWidth, height, t, yy + 1, maxDown)
  }

  /** The step-up search of couldWalkTo, from level yy on: the space above the current block must be clear. */
  ghost function UpFrom(w: World, halfWidth: int, height: int, c: Cell, t: Cell, yy: nat, maxUp: int): Option<nat>
    decreases maxUp - yy
  {
    if yy > maxUp then None
    else if !Clear(w, halfWidth, height, Up(c, yy)) then None
    else if Standable(w, halfWidth, height, Up(t, yy)) then Some(yy)
    else UpFrom(w, halfWidth, height, c, t, yy + 1, maxUp)
  }

  /**
   * What couldWalkTo decides for a move from block c to block t: the
   * vertical shift it applies to the target (0 when t can be stood on,
   * negative for a step down, positive for a step up), or None when it
   * refuses the move.
   */
  ghost function WalkAdjustment(w: World, halfWidth: int, height: int, s: Settings, c: Cell, t: Cell): Option<int>
  {
    if Standable(w, halfWidth, height, t) then Some(0)
    else match DownFrom(w, halfWidth, height, t, 0, s.maxTravelDistanceDown)
      case Some(d) => Some(-(d as int))
      case None =>
        match UpFrom(w, halfWidth, height, c, t, 1, s.maxTravelDistanceUp)
        case Some(u) => Some(u)
        case None => None
  }

  /** A step down of d levels: standable there, and every level from the target down to it clear. */
  ghost predicate DownCandidate(w: World, halfWidth: int, height: int, t: Cell, maxDown: int, d: int)
  {
    && 0 <= d <= maxDown
    && Standable(w, halfWidth, height, Down(t, d))
    && forall k :: 0 <= k <= d ==> Clear(w, halfWidth, height, Down(t, k))
  }

  /** A step up of u levels: standable there, and the space above the current block clear up to u. */
  ghost predicate UpCandidate(w: World, halfWidth: int, height: int, c: Cell, t: Cell, maxUp: int, u: int)
  {
    && 1 <= u <= maxUp
    && Standable(w, halfWidth, height, Up(t, u))
    && forall k :: 1 <= k <= u ==> Clear(w, halfWidth, height, Up(c, k))
  }

  lemma {:induction false} DownFromIsLeast(w: World, halfWidth: int, height: int, t: Cell, yy: nat, maxDown: int)
    requires forall k :: 0 <= k < yy ==> Clear(w, halfWidth, height, Down(t, k)) && !Standable(w, halfWidth, height, Down(t, k))
    ensures match DownFrom(w, halfWidth, height, t, yy, maxDown)
      case Some(d) =>
        DownCandidate(w, halfWidth, height, t, maxDown, d)
        && forall k :: 0 <= k < d ==> !DownCandidate(w, halfWidth, height, t, maxDown, k)
      case None => forall k :: !DownCandidate(w, halfWidth, height, t, maxDown, k)
    decreases maxDown - yy
  {
    if yy > maxDown {
    } else if !Clear(w, halfWidth, height, Down(t, yy)) {
      forall k
        ensures !DownCandidate(w, halfWidth, height, t, maxDown, k)
      {
        if yy <= k {
          assert !Clear(w, halfWidth, height, Down(t, yy));
        }
      }
    } else if Standable(w, halfWidth, height, Down(t, yy)) {
    } else {
      DownFromIsLeast(w, halfWidth, height, t, yy + 1, maxDown);
    }
  }

  lemma {:induction false} UpFromIsLeast(w: World, halfWidth: int, height: int, c: Cell, t: Cell, yy: nat, maxUp: int)
    requires 1 <= yy
    requires forall k :: 1 <= k < yy ==> Clear(w, halfWidth, height, Up(c, k)) && !Standable(w, halfWidth, height, Up(t, k))
    ensures match UpFrom(w, halfWidth, height, c, t, yy, maxUp)
      case Some(u) =>
        UpCandidate(w, halfWidth, height, c, t, maxUp, u)
        && forall k :: 1 <= k < u ==> !UpCandidate(w, halfWidth, height, c, t, maxUp, k)
      case None => forall k :: !UpCandidate(w, halfWidth, height, c, t, maxUp, k)
    decreases maxUp - yy
  {
    if yy > maxUp {
    } else if !Clear(w, halfWidth, height, Up(c, yy)) {
      forall k
        ensures !UpCandidate(w, halfWidth, height, c, t, maxUp, k)
      {
        if yy <= k {
          assert !Clear(w, halfWidth, height, Up(c, yy));
        }
      }
    } else if Standable(w, halfWidth, height, Up(t, yy)) {
    } else {
      UpFromIsLeast(w, halfWidth, height, c, t, yy + 1, maxUp);
    }
  }

  /**
   * The three outcomes of couldWalkTo. The target is kept when it can be
   * stood on; otherwise it is lowered by the smallest reachable step down;
   * otherwise, when no step down exists, raised by the smallest reachable
   * step up; otherwise the move is refused.
   */
  lemma WalkAdjustmentCases(w: World, halfWidth: int, height: int, s: Settings, c: Cell, t: Cell)
    ensures var a := WalkAdjustment(w, halfWidth, height, s, c, t);
      && (a == Some(0) <==> Standable(w, halfWidth, height, t))
      && (forall d :: 0 < d ==>
            (a == Some(-d) <==>
              && DownCandidate(w, halfWidth, height, t, s.maxTravelDistanceDown, d)
              && forall k :: 0 <= k < d ==> !DownCandidate(w, halfWidth, height, t, s.maxTravelDistanceDown, k)))
      && (forall u :: 0 < u ==>
            (a == Some(u) <==>
              && !Standable(w, halfWidth, height, t)
              && (forall k :: !DownCandidate(w, halfWidth, height, t, s.maxTravelDistanceDown, k))
              && UpCandidate(w, halfWidth, height, c, t, s.maxTravelDistanceUp, u)
              && forall k :: 1 <= k < u ==> !UpCandidate(w, halfWidth, height, c, t, s.maxTravelDistanceUp, k)))
      && (a == None <==>
            && !Standable(w, halfWidth, height, t)
            && (forall k :: !DownCandidate(w, halfWidth, height, t, s.maxTravelDistanceDown, k))
            && (forall k :: !UpCandidate(w, halfWidth, height, c, t, s.maxTravelDistanceUp, k)))
  {
    DownFromIsLeast(w, halfWidth, height, t, 0, s.maxTravelDistanceDown);
    UpFromIsLeast(w, halfWidth, height, c, t, 1, s.maxTravelDistanceUp);
    if Standable(w, halfWidth, height, t) {
      assert DownCandidate(w, halfWidth, height, t, s.maxTravelDistanceDown, 0) || s.maxTravelDistanceDown < 0;
    } else {
      assert !DownCandidate(w, halfWidth, height, t, s.maxTravelDistanceDown, 0);
    }
  }

  /** A granted move shifts the target by no more than the settings allow. */
  lemma WalkAdjustmentBounds(w: World, halfWidth: int, height: int, s: Settings, c: Cell, t: Cell)
    ensures var a := WalkAdjustment(w, halfWidth, height, s, c, t);
      a.Some? ==> a.value == 0 || -s.maxTravelDistanceDown <= a.value <= -1 || 1 <= a.value <= s.maxTravelDistanceUp
  {
    DownFromIsLeast(w, halfWidth, height, t, 0, s.maxTravelDistanceDown);
    UpFromIsLeast(w, halfWidth, height, c, t, 1, s.maxTravelDistanceUp);
  }

  /**
   * couldWalkTo: true when the target can be stood on, or after snapping
   * the target's y down or up to a level that can; the returned target is
   * the (possibly moved) candidate, unchanged when the move is refused.
   */
  method CouldWalkTo(w: World, halfWidth: int, height: int, s: Settings, currentNode: Vec, targetNode: Vec)
    returns (ok: bool, target: Vec)
    ensures var a := WalkAdjustment(w, halfWidth, height, s, FloorCell(currentNode), FloorCell(targetNode));
      && ok == a.Some?
      && target == if ok then targetNode.(y := targetNode.y + a.value as real) else targetNode
  {
    ghost var c, t := FloorCell(currentNode), FloorCell(targetNode);
    ok := CouldStandAt(w, halfWidth, height, targetNode);
    if ok {
      return ok, targetNode;
    }

    var yy := 0;
    while yy <= s.maxTravelDistanceDown
      invariant 0 <= yy
      invariant DownFrom(w, halfWidth, height, t, 0, s.maxTravelDistanceDown)
             == DownFrom(w, halfWidth, height, t, yy, s.maxTravelDistanceDown)
      decreases s.maxTravelDistanceDown - yy
    {
      var down := targetNode.(y := targetNode.y - yy as real);
      FloorShift(targetNode.y, -yy);
      assert FloorCell(down) == Down(t, yy);
      var clear := IsAreaClear(w, halfWidth, height, down);
      if !clear {
        break;
      }
      ok := CouldStandAt(w, halfWidth, height, down);
      if ok {
        return ok, down;
      }
      yy := yy + 1;
    }

    yy := 1;
    while yy <= s.maxTravelDistanceUp
      invariant 1 <= yy
      invariant UpFrom(w, halfWidth, height, c, t, 1, s.maxTravelDistanceUp)
             == UpFrom(w, halfWidth, height, c, t, yy, s.maxTravelDistanceUp)
      decreases s.maxTravelDistanceUp - yy
    {
      var above := currentNode.(y := currentNode.y + yy as real);
      FloorShift(currentNode.y, yy);
      assert FloorCell(above) == Up(c, yy);
      var clear := IsAreaClear(w, halfWidth, height, above);
      if !clear {
        break;
      }
      var up := targetNode.(y := targetNode.y + yy as real);
      FloorShift(targetNode.y, yy);
      assert FloorCell(up) == Up(t, yy);
      ok := CouldStandAt(w, halfWidth, height, up);
      if ok {
        return ok, up;
      }
      yy := yy + 1;
    }
    return false, targetNode;
  }
}
