/**
 * The A* engine: an open map and a closed map of nodes keyed by their
 * spatial key, minimum-F selection, expansion to the four horizontal
 * neighbours through the rule chain, best-so-far tracking by h, and the
 * reconstruction of the path along the parent links with optional
 * smoothing.
 */
module AStar {
  import opened Basics
  import opened Nodes
  import opened RuleChain

  /** The horizontal offsets (x, z) a node is expanded to, in order. */
  const SIDES: seq<(int, int)> := [(0, 1), (1, 0), (0, -1), (-1, 0)]

  /** The block-centred position one side away from p, at p's height. */
  function SideCell(p: Vec, side: (int, int)): Vec
  {
    Vec((p.x + side.0 as real).Floor as real + 0.5, p.y, (p.z + side.1 as real).Floor as real + 0.5)
  }

  /** Its block is the block next to p's on that side, on p's level. */
  lemma SideCellAdjacent(p: Vec, side: (int, int))
    ensures FloorCell(SideCell(p, side)) == Cell(p.x.Floor + side.0, p.y.Floor, p.z.Floor + side.1)
  {
    FloorShift(p.x, side.0);
    FloorShift(p.z, side.1);
    var q := SideCell(p, side);
    FloorShift(0.5, (p.x + side.0 as real).Floor);
    FloorShift(0.5, (p.z + side.1 as real).Floor);
  }

  /** The key of the candidate on one side of p: the block of its side cell. */
  function SideKey(p: Vec, side: (int, int)): (k: Cell)
    ensures k == FloorCell(SideCell(p, side))
  {
    SideCellAdjacent(p, side);
    Cell(p.x.Floor + side.0, p.y.Floor, p.z.Floor + side.1)
  }

  /** The four sides of a position have four different keys, none of them its own block. */
  lemma SideKeysDistinct(p: Vec)
    ensures forall i, j :: 0 <= i < j < |SIDES| ==> SideKey(p, SIDES[i]) != SideKey(p, SIDES[j])
    ensures forall s :: s in SIDES ==> SideKey(p, s) != FloorCell(p)
  {
  }

  /**
   * isClearBetweenPoints: never clear when smoothing is off or the two
   * points lie on different block levels; otherwise the ray march decides.
   */
  function IsClearBetweenPoints(smoothing: bool, ray: (Vec, Vec) -> bool, a: Vec, b: Vec): (r: bool)
    ensures r ==> smoothing && a.y.Floor == b.y.Floor
    ensures smoothing && a.y.Floor == b.y.Floor ==> (r <==> ray(a, b))
  {
    smoothing && a.y.Floor == b.y.Floor && ray(a, b)
  }

  /* ---------------------------------------------------------------- */
  /* Path reconstruction                                              */
  /* ---------------------------------------------------------------- */

  /**
   * The positions the reconstruction loop adds, walking the parent chain
   * ps (ps[0] the first node, the root last) from the state (node at
   * ps[i], smoothing anchor start, flag clear). A clear stretch from the
   * anchor is skipped; when it ends, the node before the blocked link is
   * added and the walk resumes from it with no anchor.
   */
  function Smooth(smoothing: bool, ray: (Vec, Vec) -> bool, ps: seq<Vec>, i: nat, start: Option<Vec>, clear: bool): seq<Vec>
    requires i < |ps|
    decreases 2 * (|ps| - 1 - i) + (if clear then 1 else 0)
  {
    if i == |ps| - 1 then [ps[i]]
    else
      var s := if start.Some? then start.value else ps[i];
      if IsClearBetweenPoints(smoothing, ray, s, ps[i + 1]) then Smooth(smoothing, ray, ps, i + 1, Some(s), true)
      else if clear then [ps[i]] + Smooth(smoothing, ray, ps, i, None, false)
      else [ps[i + 1]] + Smooth(smoothing, ray, ps, i + 1, None, false)
  }

  /** The reconstruction always ends with the root of the chain, and adds only positions of the chain. */
  lemma {:induction false} SmoothEndsAtRoot(smoothing: bool, ray: (Vec, Vec) -> bool, ps: seq<Vec>, i: nat, start: Option<Vec>, clear: bool)
    requires i < |ps|
    ensures |Smooth(smoothing, ray, ps, i, start, clear)| >= 1
    ensures Smooth(smoothing, ray, ps, i, start, clear)[|Smooth(smoothing, ray, ps, i, start, clear)| - 1] == ps[|ps| - 1]
    ensures forall p :: p in Smooth(smoothing, ray, ps, i, start, clear) ==> p in ps[i..]
    decreases 2 * (|ps| - 1 - i) + (if clear then 1 else 0)
  {
    if i < |ps| - 1 {
      var s := if start.Some? then start.value else ps[i];
      if IsClearBetweenPoints(smoothing, ray, s, ps[i + 1]) {
        SmoothEndsAtRoot(smoothing, ray, ps, i + 1, Some(s), true);
        assert forall p :: p in ps[i + 1..] ==> p in ps[i..];
      } else if clear {
        SmoothEndsAtRoot(smoothing, ray, ps, i, None, false);
      } else {
        SmoothEndsAtRoot(smoothing, ray, ps, i + 1, None, false);
        assert forall p :: p in ps[i + 1..] ==> p in ps[i..];
      }
    }
  }

  /**
   * Without smoothing every link is kept: from ps[i] the loop adds the
   * rest of the chain and then the root a second time.
   */
  lemma {:induction false} SmoothDisabled(ray: (Vec, Vec) -> bool, ps: seq<Vec>, i: nat)
    requires i < |ps|
    ensures [ps[i]] + Smooth(false, ray, ps, i, None, false) == ps[i..] + [ps[|ps| - 1]]
    decreases |ps| - i
  {
    if i < |ps| - 1 {
      SmoothDisabled(ray, ps, i + 1);
      assert ps[i..] == [ps[i]] + ps[i + 1..];
    }
  }

  function Reverse<T>(s: seq<T>): (r: seq<T>)
    ensures |r| == |s|
  {
    if s == [] then [] else Reverse(s[1..]) + [s[0]]
  }

  lemma {:induction false} ReverseAt<T>(s: seq<T>, k: nat)
    requires k < |s|
    ensures Reverse(s)[k] == s[|s| - 1 - k]
  {
    if k < |s| - 1 {
      ReverseAt(s[1..], k);
    }
  }

  lemma {:induction false} ReverseMembers<T>(s: seq<T>)
    ensures forall x :: x in Reverse(s) <==> x in s
  {
    if s != [] {
      ReverseMembers(s[1..]);
      assert s == [s[0]] + s[1..];
    }
  }

  /**
   * The returned path: the added positions reversed. It starts at the
   * root; when the target was reached it ends at the target.
   */
  function PathOf(smoothing: bool, ray: (Vec, Vec) -> bool, target: Option<Vec>, ps: seq<Vec>): seq<Vec>
    requires |ps| >= 1
  {
    Reverse((if target.Some? then [target.value] else []) + ([ps[0]] + Smooth(smoothing, ray, ps, 0, None, false)))
  }

  lemma PathOfEnds(smoothing: bool, ray: (Vec, Vec) -> bool, target: Option<Vec>, ps: seq<Vec>)
    requires |ps| >= 1
    ensures |PathOf(smoothing, ray, target, ps)| >= 2
    ensures PathOf(smoothing, ray, target, ps)[0] == ps[|ps| - 1]
    ensures target.Some? ==> PathOf(smoothing, ray, target, ps)[|PathOf(smoothing, ray, target, ps)| - 1] == target.value
    ensures forall p :: p in PathOf(smoothing, ray, target, ps) ==> p in ps || Some(p) == target
  {
    SmoothEndsAtRoot(smoothing, ray, ps, 0, None, false);
    var t := if target.Some? then [target.value] else [];
    var added := t + ([ps[0]] + Smooth(smoothing, ray, ps, 0, None, false));
    ReverseAt(added, 0);
    ReverseAt(added, |added| - 1);
    ReverseMembers(added);
    forall p | p in added
      ensures p in ps || Some(p) == target
    {
      if p in Smooth(smoothing, ray, ps, 0, None, false) {
        assert ps[0..] == ps;
      }
    }
  }

  /** Without smoothing, the path is the parent chain read from the root, with the root repeated. */
  lemma PathWithoutSmoothing(ray: (Vec, Vec) -> bool, target: Option<Vec>, ps: seq<Vec>)
    requires |ps| >= 1
    ensures PathOf(false, ray, target, ps) == Reverse((if target.Some? then [target.value] else []) + (ps + [ps[|ps| - 1]]))
  {
    SmoothDisabled(ray, ps, 0);
    assert ps[0..] == ps;
  }

  /** So without smoothing the returned path starts with the root twice. */
  lemma RootRepeated(ray: (Vec, Vec) -> bool, target: Option<Vec>, ps: seq<Vec>)
    requires |ps| >= 1
    ensures |PathOf(false, ray, target, ps)| >= 2
    ensures PathOf(false, ray, target, ps)[0] == ps[|ps| - 1] && PathOf(false, ray, target, ps)[1] == ps[|ps| - 1]
  {
    PathWithoutSmoothing(ray, target, ps);
    var all := (if target.Some? then [target.value] else []) + (ps + [ps[|ps| - 1]]);
    ReverseAt(all, 0);
    ReverseAt(all, 1);
    assert all[|all| - 2] == ps[|ps| - 1];
  }

  /* ---------------------------------------------------------------- */
  /* The search state                                                 */
  /* ---------------------------------------------------------------- */

  /** What the search knows of a node: its position, key, g, h and parent. */
  datatype NodeView = NodeView(pos: Vec, hash: Cell, g: Cost, h: real, parent: Node?) {
    /** F = g + h, as getF computes it. */
    function F(): Cost
    {
      g.Add(h)
    }
  }

  function ViewOf(n: Node): (v: NodeView)
    reads n
    ensures v.pos == n.Pos() && v.hash == n.hash && v.g == n.g && v.h == n.h && v.parent == n.parentNode
  {
    NodeView(n.Pos(), n.hash, n.g, n.h, n.parentNode)
  }

  /** The heap agrees with a snapshot of the nodes. */
  ghost predicate Synced(view: map<Node, NodeView>)
    reads view.Keys
  {
    forall n {:trigger ViewOf(n)} :: n in view ==> ViewOf(n) == view[n]
  }

  /** Every parent link leads to a node of lower rank. */
  ghost predicate Ranked(view: map<Node, NodeView>, rank: map<Node, nat>)
  {
    view.Keys <= rank.Keys
    && forall n :: n in view && view[n].parent != null ==> view[n].parent in view && rank[view[n].parent] < rank[n]
  }

  /**
   * The search state between two iterations of findPath's loop, over a
   * snapshot of the nodes: the start and the nodes inserted so far form a
   * forest rooted at the start; every inserted node's parent is closed,
   * its g is the parent's g plus its step cost and its h comes from the
   * heuristic; open and closed are keyed by the nodes' keys and disjoint;
   * best has the smallest h inserted, and there is a best iff anything
   * was inserted.
   */
  ghost predicate SearchState(env: Env, rules: seq<Rule>, view: map<Node, NodeView>, open: map<Cell, Node>, closed: map<Cell, Node>,
                              inserted: set<Node>, rank: map<Node, nat>, start: Node, best: Node?, heuristic: Vec -> real)
  {
    Rooted(view, inserted, rank, start)
    && KeyedLists(view, open, closed)
    && AllInsertedWell(env, rules, view, closed, heuristic, inserted)
    && BestByH(view, inserted, best)
  }

  /** The start and the inserted nodes, ranked, the start the only one without parent. */
  ghost predicate Rooted(view: map<Node, NodeView>, inserted: set<Node>, rank: map<Node, nat>, start: Node)
  {
    view.Keys == inserted + {start} && start !in inserted
    && Ranked(view, rank)
    && view[start].parent == null
  }

  /** Open and closed hold known nodes under their own keys, and share no key. */
  ghost predicate KeyedLists(view: map<Node, NodeView>, open: map<Cell, Node>, closed: map<Cell, Node>)
  {
    (forall h :: h in open ==> open[h] in view && view[open[h]].hash == h)
    && (forall h :: h in closed ==> closed[h] in view && view[closed[h]].hash == h)
    && (forall h :: !(h in open && h in closed))
  }

  ghost predicate AllInsertedWell(env: Env, rules: seq<Rule>, view: map<Node, NodeView>, closed: map<Cell, Node>, heuristic: Vec -> real, inserted: set<Node>)
  {
    forall n :: n in inserted ==> n in view && InsertedWell(env, rules, view, closed, heuristic, n)
  }

  /** best is the inserted node with the smallest h; there is one iff anything was inserted. */
  ghost predicate BestByH(view: map<Node, NodeView>, inserted: set<Node>, best: Node?)
  {
    (best == null <==> inserted == {})
    && (best != null ==> best in inserted && best in view && forall n :: n in inserted && n in view ==> view[best].h <= view[n].h)
  }

  /**
   * An inserted node n is one move of the walk chain from its parent:
   * the parent is closed under its own key, n lies where the walk chain
   * took the candidate on one side of the parent, its g is the parent's
   * g plus the cost the chain charged, and its h comes from the heuristic.
   */
  ghost predicate InsertedWell(env: Env, rules: seq<Rule>, view: map<Node, NodeView>, closed: map<Cell, Node>, heuristic: Vec -> real, n: Node)
    requires n in view
  {
    var p := view[n].parent;
    p != null && p in view
    && view[p].hash in closed && closed[view[p].hash] == p
    && WalkStep(env, rules, view[p].pos, view[p].g, view[n].pos, view[n].g)
    && view[n].h == heuristic(view[n].pos)
  }

  /**
   * On side s of a node at from with g, the walk chain accepts the
   * candidate and takes it to the position to (the side cell, at the
   * height the chain left), and g' is g plus the cost the chain charged.
   */
  ghost predicate Lands(env: Env, rules: seq<Rule>, from: Vec, g: Cost, s: (int, int), to: Vec, g': Cost)
  {
    var w := WalkChain(env, rules, from, SideCell(from, s), 1);
    w.ok && to == Vec(SideCell(from, s).x, w.target.y, SideCell(from, s).z) && g' == g.Add(w.cost as real)
  }

  /** A node at to with g' is one move of the walk chain, on one of the four sides, from a node at from with g. */
  ghost predicate WalkStep(env: Env, rules: seq<Rule>, from: Vec, g: Cost, to: Vec, g': Cost)
  {
    exists s :: s in SIDES && Lands(env, rules, from, g, s, to, g')
  }

  lemma LandsIsStep(env: Env, rules: seq<Rule>, from: Vec, g: Cost, s: (int, int), to: Vec, g': Cost)
    requires s in SIDES && Lands(env, rules, from, g, s, to, g')
    ensures WalkStep(env, rules, from, g, to, g')
  {
  }

  /** The start is the only known node without a parent. */
  lemma ParentlessIsStart(env: Env, rules: seq<Rule>, view: map<Node, NodeView>, open: map<Cell, Node>, closed: map<Cell, Node>,
                          inserted: set<Node>, rank: map<Node, nat>, start: Node, best: Node?, heuristic: Vec -> real, n: Node)
    requires SearchState(env, rules, view, open, closed, inserted, rank, start, best, heuristic)
    requires n in view
    ensures view[n].parent == null <==> n == start
  {
    assert AllInsertedWell(env, rules, view, closed, heuristic, inserted);
    assert n in inserted ==> InsertedWell(env, rules, view, closed, heuristic, n);
  }

  /** Taking the node under key off the open list and closing it keeps the state. */
  lemma PopKeeps(env: Env, rules: seq<Rule>, view: map<Node, NodeView>, open: map<Cell, Node>, closed: map<Cell, Node>,
                 inserted: set<Node>, rank: map<Node, nat>, start: Node, best: Node?, heuristic: Vec -> real, key: Cell, current: Node)
    requires SearchState(env, rules, view, open, closed, inserted, rank, start, best, heuristic)
    requires key in open && open[key] == current
    ensures SearchState(env, rules, view, open - {key}, closed[key := current], inserted, rank, start, best, heuristic)
  {
    var open', closed' := open - {key}, closed[key := current];
    assert KeyedLists(view, open', closed') by {
      assert KeyedLists(view, open, closed);
      assert key !in closed;
    }
    assert AllInsertedWell(env, rules, view, closed', heuristic, inserted) by {
      assert AllInsertedWell(env, rules, view, closed, heuristic, inserted);
      forall n | n in inserted
        ensures n in view && InsertedWell(env, rules, view, closed', heuristic, n)
      {
        assert InsertedWell(env, rules, view, closed, heuristic, n);
      }
    }
  }

  /**
   * Inserting a fresh neighbour node with view v (parent current, g =
   * current g + cost, h from the heuristic, key not closed) under its key
   * keeps the state, with best moved to it when its h is smaller.
   */
  lemma InsertKeeps(env: Env, rules: seq<Rule>, view: map<Node, NodeView>, open: map<Cell, Node>, closed: map<Cell, Node>,
                    inserted: set<Node>, rank: map<Node, nat>, start: Node, best: Node?, heuristic: Vec -> real,
                    current: Node, node: Node, v: NodeView,
                    view': map<Node, NodeView>, open': map<Cell, Node>, inserted': set<Node>,
                    rank': map<Node, nat>, best': Node?)
    requires SearchState(env, rules, view, open, closed, inserted, rank, start, best, heuristic)
    requires current in view && view[current].hash in closed && closed[view[current].hash] == current
    requires node !in view
    requires v.parent == current && v.h == heuristic(v.pos)
    requires WalkStep(env, rules, view[current].pos, view[current].g, v.pos, v.g)
    requires v.hash !in closed
    requires view' == view[node := v] && open' == open[v.hash := node] && inserted' == inserted + {node}
    requires rank' == rank[node := rank[current] + 1]
    requires best' == if best == null || view[best].h > v.h then node else best
    ensures SearchState(env, rules, view', open', closed, inserted', rank', start, best', heuristic)
  {
    RootedByInsert(view, inserted, rank, start, current, node, v);
    KeyedByInsert(view, open, closed, node, v);
    InsertedStayWell(env, rules, view, closed, inserted, heuristic, current, node, v);
    BestByInsert(view, inserted, best, node, v);
  }

  lemma RootedByInsert(view: map<Node, NodeView>, inserted: set<Node>, rank: map<Node, nat>, start: Node, current: Node, node: Node, v: NodeView)
    requires Rooted(view, inserted, rank, start)
    requires current in view && node !in view && v.parent == current
    ensures Rooted(view[node := v], inserted + {node}, rank[node := rank[current] + 1], start)
  {
    assert Ranked(view[node := v], rank[node := rank[current] + 1]);
  }

  lemma KeyedByInsert(view: map<Node, NodeView>, open: map<Cell, Node>, closed: map<Cell, Node>, node: Node, v: NodeView)
    requires KeyedLists(view, open, closed)
    requires node !in view && v.hash !in closed
    ensures KeyedLists(view[node := v], open[v.hash := node], closed)
  {
  }

  lemma BestByInsert(view: map<Node, NodeView>, inserted: set<Node>, best: Node?, node: Node, v: NodeView)
    requires BestByH(view, inserted, best) && inserted <= view.Keys && node !in view
    ensures BestByH(view[node := v], inserted + {node}, if best == null || view[best].h > v.h then node else best)
  {
  }

  lemma InsertedStayWell(env: Env, rules: seq<Rule>, view: map<Node, NodeView>, closed: map<Cell, Node>, inserted: set<Node>,
                         heuristic: Vec -> real,
                         current: Node, node: Node, v: NodeView)
    requires AllInsertedWell(env, rules, view, closed, heuristic, inserted)
    requires current in view && view[current].hash in closed && closed[view[current].hash] == current
    requires node !in view
    requires v.parent == current && v.h == heuristic(v.pos)
    requires WalkStep(env, rules, view[current].pos, view[current].g, v.pos, v.g)
    ensures AllInsertedWell(env, rules, view[node := v], closed, heuristic, inserted + {node})
  {
    var view' := view[node := v];
    forall n | n in inserted + {node}
      ensures n in view' && InsertedWell(env, rules, view', closed, heuristic, n)
    {
      if n != node {
        assert InsertedWell(env, rules, view, closed, heuristic, n);
      }
    }
  }

  /**
   * One snapshot extends another while expanding current: the known
   * nodes keep their views, and every newly inserted node has current as
   * its parent.
   */
  ghost predicate Extends(view: map<Node, NodeView>, view': map<Node, NodeView>,
                          inserted: set<Node>, inserted': set<Node>, current: Node)
  {
    inserted <= inserted'
    && (forall n :: n in view ==> n in view' && view'[n] == view[n])
    && (forall n :: n in inserted' && n !in inserted ==> n in view' && view'[n].parent == current)
  }

  lemma ExtendsTrans(v0: map<Node, NodeView>, v1: map<Node, NodeView>, v2: map<Node, NodeView>,
                     i0: set<Node>, i1: set<Node>, i2: set<Node>, current: Node)
    requires Extends(v0, v1, i0, i1, current) && Extends(v1, v2, i1, i2, current)
    ensures Extends(v0, v2, i0, i2, current)
  {
  }

  lemma ExtendsByInsert(view: map<Node, NodeView>, inserted: set<Node>, node: Node, v: NodeView, current: Node)
    requires node !in view && v.parent == current
    ensures Extends(view, view[node := v], inserted, inserted + {node}, current)
  {
  }

  /* ---------------------------------------------------------------- */
  /* Expansion                                                        */
  /* ---------------------------------------------------------------- */

  /** The walk chain's verdict on the candidate of each side of p, in the order of SIDES. */
  ghost function Verdicts(env: Env, rules: seq<Rule>, p: Vec): (ws: seq<Walk>)
    ensures |ws| == |SIDES|
  {
    seq(|SIDES|, j requires 0 <= j < |SIDES| => WalkChain(env, rules, p, SideCell(p, SIDES[j]), 1))
  }

  /**
   * Whether the foreach admits the candidate on one side of a node at p
   * whose g is g, given the walk chain's verdict w on it: the chain
   * accepts it, its key is not closed, and its key is not open unless g
   * is finite (the candidate is fresh, so its own g is infinite).
   */
  ghost predicate SideAdmitted(p: Vec, g: Cost, side: (int, int), w: Walk, closed: map<Cell, Node>, open: map<Cell, Node>)
  {
    w.ok && SideKey(p, side) !in closed && (SideKey(p, side) !in open || g.Fin?)
  }

  /**
   * What expanding the node parent (at p, with g) did on one side, from
   * open list open and snapshot view to open' and view': an admitted side
   * holds a new node under its key, child of parent, at the side cell with
   * the height and cost the walk chain's verdict w gave; any other side
   * left its key as it was.
   */
  ghost predicate SideOutcome(p: Vec, g: Cost, side: (int, int), w: Walk, closed: map<Cell, Node>,
                              open: map<Cell, Node>, open': map<Cell, Node>,
                              view: map<Node, NodeView>, view': map<Node, NodeView>, parent: Node)
  {
    var k := SideKey(p, side);
    if SideAdmitted(p, g, side, w, closed, open) then
      k in open' && open'[k] !in view && open'[k] in view'
      && view'[open'[k]].parent == parent
      && view'[open'[k]].g == g.Add(w.cost as real)
      && view'[open'[k]].pos == Vec(SideCell(p, side).x, w.target.y, SideCell(p, side).z)
    else
      (k in open' <==> k in open) && (k in open ==> open'[k] == open[k])
  }

  /** TrySide's step on its own side, from its verdict w and the node it added, if any. */
  lemma StepOf(p: Vec, g: Cost, side: (int, int), w: Walk, closed: map<Cell, Node>,
               open: map<Cell, Node>, open': map<Cell, Node>,
               view: map<Node, NodeView>, view': map<Node, NodeView>, parent: Node, added: Node?)
    requires added != null <==> w.ok && SideKey(p, side) !in closed && (SideKey(p, side) !in open || g.Fin?)
    requires added == null ==> open' == open
    requires added != null ==> open' == open[SideKey(p, side) := added] && added !in view && added in view'
    requires added != null ==> view'[added].parent == parent && view'[added].g == g.Add(w.cost as real)
    requires added != null ==> view'[added].pos == Vec(SideCell(p, side).x, w.target.y, SideCell(p, side).z)
    requires forall n :: n in view ==> n in view' && view'[n] == view[n]
    ensures SideStep(p, g, side, w, closed, open, open', view, view', parent)
  {
  }

  /** Every side of p whose verdict in ws is ok has its key open or closed. */
  ghost predicate SidesKnown(p: Vec, ws: seq<Walk>, open: map<Cell, Node>, closed: map<Cell, Node>)
  {
    |ws| == |SIDES|
    && forall j :: 0 <= j < |SIDES| && ws[j].ok ==> SideKey(p, SIDES[j]) in open || SideKey(p, SIDES[j]) in closed
  }

  /**
   * Every closed node but pending has been expanded: each side of it the
   * walk chain accepts has its key open or closed.
   */
  ghost predicate Expanded(env: Env, rules: seq<Rule>, view: map<Node, NodeView>,
                           open: map<Cell, Node>, closed: map<Cell, Node>, pending: Node?)
  {
    forall h :: h in closed && closed[h] in view && closed[h] != pending ==>
      SidesKnown(view[closed[h]].pos, Verdicts(env, rules, view[closed[h]].pos), open, closed)
  }

  /** Keys only ever move from open to closed or join open, so known sides stay known. */
  lemma KnownGrows(p: Vec, ws: seq<Walk>, open: map<Cell, Node>, closed: map<Cell, Node>,
                   open': map<Cell, Node>, closed': map<Cell, Node>)
    requires SidesKnown(p, ws, open, closed)
    requires open.Keys + closed.Keys <= open'.Keys + closed'.Keys
    ensures SidesKnown(p, ws, open', closed')
  {
    forall j | 0 <= j < |SIDES| && ws[j].ok
      ensures SideKey(p, SIDES[j]) in open' || SideKey(p, SIDES[j]) in closed'
    {
      assert SideKey(p, SIDES[j]) in open.Keys + closed.Keys;
    }
  }

  /** Closing the open node current under its key leaves every other closed node expanded. */
  lemma CloseExpanded(env: Env, rules: seq<Rule>, view: map<Node, NodeView>,
                      open: map<Cell, Node>, closed: map<Cell, Node>, key: Cell, current: Node)
    requires Expanded(env, rules, view, open, closed, null)
    requires key in open && open[key] == current && key !in closed
    ensures Expanded(env, rules, view, open - {key}, closed[key := current], current)
  {
    var open', closed' := open - {key}, closed[key := current];
    forall h | h in closed' && closed'[h] in view && closed'[h] != current
      ensures SidesKnown(view[closed'[h]].pos, Verdicts(env, rules, view[closed'[h]].pos), open', closed')
    {
      var q := view[closed[h]].pos;
      KnownGrows(q, Verdicts(env, rules, q), open, closed, open', closed');
    }
  }

  /** Once current is expanded, every closed node is, in the extended snapshot and open list. */
  lemma ExpandExpanded(env: Env, rules: seq<Rule>, view: map<Node, NodeView>, view': map<Node, NodeView>,
                       open: map<Cell, Node>, open': map<Cell, Node>, closed: map<Cell, Node>, current: Node)
    requires Expanded(env, rules, view, open, closed, current)
    requires current in view && SidesKnown(view[current].pos, Verdicts(env, rules, view[current].pos), open', closed)
    requires open.Keys <= open'.Keys
    requires forall n :: n in view ==> n in view' && view'[n] == view[n]
    requires forall h :: h in closed ==> closed[h] in view
    ensures Expanded(env, rules, view', open', closed, null)
  {
    forall h | h in closed && closed[h] in view'
      ensures SidesKnown(view'[closed[h]].pos, Verdicts(env, rules, view'[closed[h]].pos), open', closed)
    {
      if closed[h] != current {
        var q := view[closed[h]].pos;
        KnownGrows(q, Verdicts(env, rules, q), open, closed, open', closed);
      }
    }
  }

  /** open' differs from open at most under the key k. */
  ghost predicate OnlyAt(open: map<Cell, Node>, open': map<Cell, Node>, k: Cell)
  {
    (forall h :: h in open && h != k ==> h in open' && open'[h] == open[h])
    && (forall h :: h in open' && h != k ==> h in open)
  }

  /**
   * One side of the foreach, from open list open and snapshot view to
   * open' and view': the side's outcome, no other key of the open list
   * touched, and the snapshot only extended.
   */
  ghost predicate SideStep(p: Vec, g: Cost, side: (int, int), w: Walk, closed: map<Cell, Node>,
                           open: map<Cell, Node>, open': map<Cell, Node>,
                           view: map<Node, NodeView>, view': map<Node, NodeView>, parent: Node)
  {
    SideOutcome(p, g, side, w, closed, open, open', view, view', parent)
    && OnlyAt(open, open', SideKey(p, side))
    && forall n :: n in view ==> n in view' && view'[n] == view[n]
  }

  /**
   * The first |opens| - 1 sides of the node parent (at p, with g, the
   * walk chain's verdicts on its sides ws), tried one after the other:
   * opens[j] and views[j] are the open list and snapshot before side j.
   */
  ghost predicate Steps(p: Vec, g: Cost, ws: seq<Walk>, closed: map<Cell, Node>,
                        opens: seq<map<Cell, Node>>, views: seq<map<Node, NodeView>>, parent: Node)
  {
    |ws| == |SIDES| && 1 <= |opens| == |views| <= |SIDES| + 1
    && forall j :: 0 <= j < |opens| - 1 ==>
      SideStep(p, g, SIDES[j], ws[j], closed, opens[j], opens[j + 1], views[j], views[j + 1], parent)
  }

  /**
   * The record of the first n sides tried from open list open0 and
   * snapshot view0, ending in open and view.
   */
  ghost predicate Trail(p: Vec, g: Cost, ws: seq<Walk>, closed: map<Cell, Node>,
                        opens: seq<map<Cell, Node>>, views: seq<map<Node, NodeView>>, parent: Node,
                        open0: map<Cell, Node>, view0: map<Node, NodeView>,
                        open: map<Cell, Node>, view: map<Node, NodeView>, n: nat)
  {
    |opens| == |views| == n + 1 && opens[0] == open0 && views[0] == view0 && opens[n] == open && views[n] == view
    && Steps(p, g, ws, closed, opens, views, parent)
  }

  /** Trying side i extends the record by its own step. */
  lemma StepsExtend(p: Vec, g: Cost, ws: seq<Walk>, closed: map<Cell, Node>,
                    opens: seq<map<Cell, Node>>, views: seq<map<Node, NodeView>>, parent: Node,
                    open0: map<Cell, Node>, view0: map<Node, NodeView>,
                    open: map<Cell, Node>, view: map<Node, NodeView>, i: nat,
                    open': map<Cell, Node>, view': map<Node, NodeView>)
    returns (opens': seq<map<Cell, Node>>, views': seq<map<Node, NodeView>>)
    requires Trail(p, g, ws, closed, opens, views, parent, open0, view0, open, view, i) && i < |SIDES|
    requires SideStep(p, g, SIDES[i], ws[i], closed, open, open', view, view', parent)
    ensures Trail(p, g, ws, closed, opens', views', parent, open0, view0, open', view', i + 1)
  {
    opens', views' := opens + [open'], views + [view'];
    forall j | 0 <= j < |opens'| - 1
      ensures SideStep(p, g, SIDES[j], ws[j], closed, opens'[j], opens'[j + 1], views'[j], views'[j + 1], parent)
    {
      assert opens'[j] == opens[j] && views'[j] == views[j];
      if j < |opens| - 1 {
        assert opens'[j + 1] == opens[j + 1] && views'[j + 1] == views[j + 1];
      }
    }
  }

  /** No side removes a key from the open list. */
  lemma StepKeepsKeys(p: Vec, g: Cost, side: (int, int), w: Walk, closed: map<Cell, Node>,
                      open: map<Cell, Node>, open': map<Cell, Node>,
                      view: map<Node, NodeView>, view': map<Node, NodeView>, parent: Node)
    requires SideStep(p, g, side, w, closed, open, open', view, view', parent)
    ensures open.Keys <= open'.Keys
  {
  }

  /** A key open before side a is still open before any later side b. */
  lemma {:induction false} KeysPersist(p: Vec, g: Cost, ws: seq<Walk>, closed: map<Cell, Node>,
                                       opens: seq<map<Cell, Node>>, views: seq<map<Node, NodeView>>, parent: Node,
                                       a: nat, b: nat)
    requires Steps(p, g, ws, closed, opens, views, parent) && a <= b < |opens|
    ensures opens[a].Keys <= opens[b].Keys
    decreases b - a
  {
    if a < b {
      KeysPersist(p, g, ws, closed, opens, views, parent, a + 1, b);
      StepKeepsKeys(p, g, SIDES[a], ws[a], closed, opens[a], opens[a + 1], views[a], views[a + 1], parent);
    }
  }

  /**
   * After every side, each side whose verdict is ok has its key open or
   * closed (it was admitted, or its key was closed, or already open), and
   * no key left the open list.
   */
  lemma StepsKnown(p: Vec, g: Cost, ws: seq<Walk>, closed: map<Cell, Node>,
                   opens: seq<map<Cell, Node>>, views: seq<map<Node, NodeView>>, parent: Node,
                   open0: map<Cell, Node>, view0: map<Node, NodeView>,
                   open: map<Cell, Node>, view: map<Node, NodeView>)
    requires Trail(p, g, ws, closed, opens, views, parent, open0, view0, open, view, |SIDES|)
    ensures SidesKnown(p, ws, open, closed) && open0.Keys <= open.Keys
  {
    forall j | 0 <= j < |SIDES| && ws[j].ok
      ensures SideKey(p, SIDES[j]) in open || SideKey(p, SIDES[j]) in closed
    {
      assert SideStep(p, g, SIDES[j], ws[j], closed, opens[j], opens[j + 1], views[j], views[j + 1], parent);
      KeysPersist(p, g, ws, closed, opens, views, parent, j + 1, |SIDES|);
    }
    KeysPersist(p, g, ws, closed, opens, views, parent, 0, |SIDES|);
  }

  /**
   * When nothing was ever inserted and the open list ran empty with the
   * start closed and every closed node expanded, the walk chain accepted
   * no side of the start.
   */
  lemma LoneStart(env: Env, rules: seq<Rule>, view: map<Node, NodeView>, open: map<Cell, Node>, closed: map<Cell, Node>,
                  inserted: set<Node>, rank: map<Node, nat>, start: Node, best: Node?, heuristic: Vec -> real)
    requires SearchState(env, rules, view, open, closed, inserted, rank, start, best, heuristic)
    requires Expanded(env, rules, view, open, closed, null)
    requires inserted == {}
    requires start.hash in closed && closed[start.hash] == start
    requires view[start].hash == FloorCell(view[start].pos)
    ensures forall s :: s in SIDES ==> !WalkChain(env, rules, view[start].pos, SideCell(view[start].pos, s), 1).ok
  {
    var p, k := view[start].pos, view[start].hash;
    assert KeyedLists(view, open, closed);
    assert forall h :: h in closed ==> h == k;
    assert forall h :: h in open ==> h == k;
    var ws := Verdicts(env, rules, p);
    assert SidesKnown(p, ws, open, closed);
    SideKeysDistinct(p);
    forall s | s in SIDES
      ensures !WalkChain(env, rules, p, SideCell(p, s), 1).ok
    {
      var j :| 0 <= j < |SIDES| && SIDES[j] == s;
      assert !ws[j].ok;
    }
  }

  /** The parent chain from n in a snapshot: finite, ending at a node without parent. */
  ghost function ChainOf(n: Node, view: map<Node, NodeView>, rank: map<Node, nat>): (c: seq<Node>)
    requires n in view && Ranked(view, rank)
    ensures |c| >= 1 && c[0] == n
    ensures forall k :: 0 <= k < |c| ==> c[k] in view
    ensures view[c[|c| - 1]].parent == null
    ensures forall k :: 0 <= k < |c| - 1 ==> view[c[k]].parent == c[k + 1]
    decreases rank[n]
  {
    if view[n].parent == null then [n] else [n] + ChainOf(view[n].parent, view, rank)
  }

  /** c follows the parentNode links from first to last, which has no parent. */
  ghost predicate Linked(c: seq<Node>, first: Node, last: Node)
    reads set k | 0 <= k < |c| :: c[k]
  {
    |c| >= 1 && c[0] == first && c[|c| - 1] == last && last.parentNode == null
    && forall k :: 0 <= k < |c| - 1 ==> c[k].parentNode == c[k + 1]
  }

  /** A chain of the snapshot is a chain of parentNode links while the snapshot is in sync. */
  lemma ChainLinked(view: map<Node, NodeView>, c: seq<Node>)
    requires Synced(view) && |c| >= 1
    requires forall k :: 0 <= k < |c| ==> c[k] in view
    requires view[c[|c| - 1]].parent == null
    requires forall k :: 0 <= k < |c| - 1 ==> view[c[k]].parent == c[k + 1]
    ensures Linked(c, c[0], c[|c| - 1])
  {
    assert ViewOf(c[|c| - 1]) == view[c[|c| - 1]];
    forall k | 0 <= k < |c| - 1
      ensures c[k].parentNode == c[k + 1]
    {
      assert ViewOf(c[k]) == view[c[k]];
    }
  }

  /**
   * Node n is one move of the walk chain away from node m: it lies where
   * the chain takes a candidate on one side of m, and its g is m's g plus
   * the cost the chain charged.
   */
  ghost predicate Moved(env: Env, rules: seq<Rule>, m: Node, n: Node)
    reads m, n
  {
    WalkStep(env, rules, m.Pos(), m.g, n.Pos(), n.g)
  }

  /** The keys of a set of nodes. */
  function KeysOf(ns: set<Node>): set<Cell>
  {
    set n | n in ns :: n.hash
  }

  /** A closed key is not open, and it is the key of the start or of an inserted node. */
  lemma ClosedKnown(env: Env, rules: seq<Rule>, view: map<Node, NodeView>, open: map<Cell, Node>, closed: map<Cell, Node>,
                    inserted: set<Node>, rank: map<Node, nat>, start: Node, best: Node?, heuristic: Vec -> real)
    requires Synced(view) && SearchState(env, rules, view, open, closed, inserted, rank, start, best, heuristic)
    ensures closed.Keys !! open.Keys && closed.Keys <= KeysOf(inserted) + {start.hash}
  {
    assert Rooted(view, inserted, rank, start) && KeyedLists(view, open, closed);
    forall h | h in closed
      ensures h !in open && h in KeysOf(inserted) + {start.hash}
    {
      assert ViewOf(closed[h]) == view[closed[h]];
      if closed[h] != start {
        assert closed[h] in inserted;
      }
    }
  }

  /**
   * Along a parent chain of the snapshot that ends at the start, every
   * node but the start was inserted by the search, as one move of the walk
   * chain from the next node.
   */
  lemma ChainMoves(env: Env, rules: seq<Rule>, view: map<Node, NodeView>, open: map<Cell, Node>, closed: map<Cell, Node>,
                   inserted: set<Node>, rank: map<Node, nat>, start: Node, best: Node?, heuristic: Vec -> real, c: seq<Node>)
    requires Synced(view) && SearchState(env, rules, view, open, closed, inserted, rank, start, best, heuristic)
    requires forall k :: 0 <= k < |c| ==> c[k] in view
    requires forall k :: 0 <= k < |c| - 1 ==> view[c[k]].parent == c[k + 1]
    ensures forall k :: 0 <= k < |c| - 1 ==> c[k] in inserted && Moved(env, rules, c[k + 1], c[k])
  {
    forall k | 0 <= k < |c| - 1
      ensures c[k] in inserted && Moved(env, rules, c[k + 1], c[k])
    {
      ParentlessIsStart(env, rules, view, open, closed, inserted, rank, start, best, heuristic, c[k]);
      assert Rooted(view, inserted, rank, start) && AllInsertedWell(env, rules, view, closed, heuristic, inserted);
      assert view[c[k]].parent == c[k + 1];
      assert c[k] in inserted;
      assert InsertedWell(env, rules, view, closed, heuristic, c[k]);
      assert ViewOf(c[k]) == view[c[k]] && ViewOf(c[k + 1]) == view[c[k + 1]];
    }
  }

  /**
   * The parent chain from a known node: it follows parentNode to the
   * start, and each of its links is a walk-chain move to an inserted node.
   */
  lemma AnchorChain(env: Env, rules: seq<Rule>, view: map<Node, NodeView>, open: map<Cell, Node>, closed: map<Cell, Node>,
                    inserted: set<Node>, rank: map<Node, nat>, start: Node, best: Node?, heuristic: Vec -> real, anchor: Node)
    returns (c: seq<Node>)
    requires Synced(view) && SearchState(env, rules, view, open, closed, inserted, rank, start, best, heuristic)
    requires anchor in view
    ensures Linked(c, anchor, start)
    ensures forall k :: 0 <= k < |c| - 1 ==> c[k] in inserted && Moved(env, rules, c[k + 1], c[k])
  {
    assert Rooted(view, inserted, rank, start);
    c := ChainOf(anchor, view, rank);
    ParentlessIsStart(env, rules, view, open, closed, inserted, rank, start, best, heuristic, c[|c| - 1]);
    ChainLinked(view, c);
    ChainMoves(env, rules, view, open, closed, inserted, rank, start, best, heuristic, c);
  }

  ghost function Positions(c: seq<Node>): (ps: seq<Vec>)
    reads set k | 0 <= k < |c| :: c[k]
    ensures |ps| == |c| && forall k :: 0 <= k < |c| ==> ps[k] == c[k].Pos()
  {
    seq(|c|, k reads set k | 0 <= k < |c| :: c[k] requires 0 <= k < |c| => c[k].Pos())
  }

  /**
   * The start stays closed: the first iteration closes it, as the open
   * list holds nothing else, and later ones close keys of the open list,
   * which the start's key has left.
   */
  lemma StartStaysClosed(start: Node, open: map<Cell, Node>, closed: map<Cell, Node>, closed': map<Cell, Node>,
                         current: Node?, first: bool)
    requires first ==> open == map[start.hash := start] && closed == map[]
    requires !first ==> start.hash in closed && closed[start.hash] == start && start.hash !in open
    requires current == null ==> open == map[] && closed' == closed
    requires current != null ==> current.hash in open && open[current.hash] == current && closed' == closed[current.hash := current]
    ensures start.hash in closed' && closed'[start.hash] == start
  {
    assert first ==> start.hash in open;
  }

  class BasePathfinder {
    const env: Env
    /** The ray march of isClearBetweenPoints, past its two guards. */
    const ray: (Vec, Vec) -> bool
    var rules: seq<Rule>
    var openList: map<Cell, Node>

    constructor (env: Env, ray: (Vec, Vec) -> bool, rules: seq<Rule>)
      ensures this.env == env && this.ray == ray && this.rules == rules && openList == map[]
    {
      this.env, this.ray, this.rules := env, ray, rules;
      openList := map[];
    }

    /** getLowestFCost: none iff the open list is empty, else a key whose node has the smallest F. */
    method GetLowestFCost() returns (key: Option<Cell>)
      ensures key.None? <==> openList == map[]
      ensures key.Some? ==> key.value in openList
      ensures key.Some? ==> forall h :: h in openList ==> openList[key.value].GetF().AtMost(openList[h].GetF())
    {
      key := None;
      var rest := openList.Keys;
      while rest != {}
        invariant rest <= openList.Keys
        invariant key.None? <==> rest == openList.Keys
        invariant key.Some? ==> key.value in openList && key.value !in rest
        invariant key.Some? ==> forall h :: h in openList && h !in rest ==> openList[key.value].GetF().AtMost(openList[h].GetF())
        decreases |rest|
      {
        var h :| h in rest;
        if key.None? || openList[h].GetF().Below(openList[key.value].GetF()) {
          key := Some(h);
        }
        rest := rest - {h};
      }
      assert openList.Keys == {} ==> openList == map[];
    }

    /**
     * The foreach over SIDES: each side is tried in turn, the open list
     * only grows, and every entry it replaces or adds is a fresh node
     * whose parent is the current node.
     */
    method ExpandNeighbours(current: Node, closed: map<Cell, Node>, heuristic: Vec -> real, best: Node?,
                            ghost start: Node, ghost view: map<Node, NodeView>, ghost inserted: set<Node>,
                            ghost rank: map<Node, nat>)
      returns (best': Node?, ghost view': map<Node, NodeView>, ghost inserted': set<Node>,
               ghost rank': map<Node, nat>, ghost opens: seq<map<Cell, Node>>, ghost views: seq<map<Node, NodeView>>)
      requires Synced(view) && SearchState(env, rules, view, openList, closed, inserted, rank, start, best, heuristic)
      requires current in view && current.hash in closed && closed[current.hash] == current
      modifies this`openList
      ensures Synced(view') && SearchState(env, rules, view', openList, closed, inserted', rank', start, best', heuristic)
      ensures Extends(view, view', inserted, inserted', current)
      ensures forall n :: n in view' && n !in view ==> fresh(n)
      ensures Trail(view[current].pos, view[current].g, Verdicts(env, rules, view[current].pos), closed,
                    opens, views, current, old(openList), view, openList, view', |SIDES|)
    {
      best', view', inserted', rank' := best, view, inserted, rank;
      ghost var p, g := view[current].pos, view[current].g;
      ghost var ws := Verdicts(env, rules, p);
      assert p == current.Pos() && g == current.g by {
        assert ViewOf(current) == view[current];
      }
      opens, views := [openList], [view];
      var i := 0;
      while i < |SIDES|
        invariant 0 <= i <= |SIDES|
        invariant Synced(view') && SearchState(env, rules, view', openList, closed, inserted', rank', start, best', heuristic)
        invariant Extends(view, view', inserted, inserted', current)
        invariant forall n :: n in view' && n !in view ==> fresh(n)
        invariant Trail(p, g, ws, closed, opens, views, current, old(openList), view, openList, view', i)
      {
        best', view', inserted', rank', opens, views :=
          TrySide(current, i, closed, heuristic, best', start, view', inserted', rank',
                  p, g, ws, view, inserted, old(openList), opens, views);
        i := i + 1;
      }
    }

    /**
     * The candidate of one side: a fresh block-centred node next to the
     * current one at its height, moved vertically as the walk chain says,
     * with the chain's verdict and cost.
     */
    method Candidate(current: Node, side: (int, int)) returns (node: Node, ok: bool, cost: int)
      ensures fresh(node)
      ensures node.x == SideCell(current.Pos(), side).x && node.z == SideCell(current.Pos(), side).z
      ensures node.hash == Cell(node.x.Floor, current.y.Floor, node.z.Floor)
      ensures node.g == Inf && node.parentNode == null
      ensures var w := WalkChain(env, rules, current.Pos(), SideCell(current.Pos(), side), 1);
        ok == w.ok && cost == w.cost && node.y == w.target.y
    {
      var x := (current.x + side.0 as real).Floor;
      var z := (current.z + side.1 as real).Floor;
      node := new Node(x as real + 0.5, current.y, z as real + 0.5);
      var target;
      ok, target, cost := IsNicePositionToWalk(env, rules, current.Pos(), node.Pos(), 1);
      node.y := target.y;
    }

    /**
     * One side of the foreach: a refused or closed candidate is skipped
     * and any other one, already open or not, is admitted.
     * The comparison with the candidate's g always holds, as a fresh node's
     * g is infinite: an open entry is always replaced.
     */
    method TrySide(current: Node, i: nat, closed: map<Cell, Node>, heuristic: Vec -> real, best: Node?,
                   ghost start: Node, ghost view: map<Node, NodeView>, ghost inserted: set<Node>,
                   ghost rank: map<Node, nat>, ghost p: Vec, ghost g: Cost, ghost ws: seq<Walk>, ghost view0: map<Node, NodeView>, ghost inserted0: set<Node>,
                   ghost open0: map<Cell, Node>, ghost opens: seq<map<Cell, Node>>, ghost views: seq<map<Node, NodeView>>)
      returns (best': Node?, ghost view': map<Node, NodeView>,
               ghost inserted': set<Node>, ghost rank': map<Node, nat>, ghost opens': seq<map<Cell, Node>>, ghost views': seq<map<Node, NodeView>>)
      requires Synced(view) && SearchState(env, rules, view, openList, closed, inserted, rank, start, best, heuristic)
      requires current in view && current.hash in closed && closed[current.hash] == current
      requires Extends(view0, view, inserted0, inserted, current)
      requires i < |SIDES| && p == current.Pos() && g == current.g && ws == Verdicts(env, rules, p)
      requires Trail(p, g, ws, closed, opens, views, current, open0, view0, openList, view, i)
      modifies this`openList
      ensures Synced(view') && SearchState(env, rules, view', openList, closed, inserted', rank', start, best', heuristic)
      ensures Extends(view0, view', inserted0, inserted', current)
      ensures forall n :: n in view' && n !in view ==> fresh(n)
      ensures Trail(p, g, ws, closed, opens', views', current, open0, view0, openList, view', i + 1)
    {
      best', view', inserted', rank' := best, view, inserted, rank;
      var side := SIDES[i];
      ghost var open, w := openList, ws[i];
      var node, ok, cost := Candidate(current, side);
      SideCellAdjacent(p, side);
      assert node.hash == SideKey(p, side);
      assert ok == w.ok && cost == w.cost && node.y == w.target.y;
      assert Extends(view, view, inserted, inserted, current);
      ghost var admit := ok && node.hash !in closed && (node.hash !in openList || current.g.Fin?);
      if ok && node.hash !in closed && (node.hash !in openList || current.g.Add(cost as real).Below(node.g)) {
        assert admit;
        LandsIsStep(env, rules, p, g, side, node.Pos(), g.Add(cost as real));
        best', view', inserted', rank' := Insert(current, node, cost, closed, heuristic, best,
                                                         start, view, inserted, rank);
        StepOf(p, g, side, w, closed, open, openList, view, view', current, node);
      } else {
        StepOf(p, g, side, w, closed, open, openList, view, view', current, null);
      }
      ExtendsTrans(view0, view, view', inserted0, inserted, inserted', current);
      opens', views' := StepsExtend(p, g, ws, closed, opens, views, current, open0, view0, open, view, i, openList, view');
    }

    /**
     * The admitted branch of one side: the fresh candidate on side i of
     * current, where the walk chain's verdict w took it, is admitted and
     * becomes a child of current in the snapshot, which keeps the search
     * state.
     */
    method Insert(current: Node, node: Node, cost: int, closed: map<Cell, Node>, heuristic: Vec -> real, best: Node?,
                  ghost start: Node, ghost view: map<Node, NodeView>, ghost inserted: set<Node>,
                  ghost rank: map<Node, nat>)
      returns (best': Node?, ghost view': map<Node, NodeView>,
               ghost inserted': set<Node>, ghost rank': map<Node, nat>)
      requires Synced(view) && SearchState(env, rules, view, openList, closed, inserted, rank, start, best, heuristic)
      requires current in view && current.hash in closed && closed[current.hash] == current
      requires node !in view && node.hash !in closed
      requires WalkStep(env, rules, current.Pos(), current.g, node.Pos(), current.g.Add(cost as real))
      modifies node`g, node`h, node`parentNode, this`openList
      ensures Synced(view') && SearchState(env, rules, view', openList, closed, inserted', rank', start, best', heuristic)
      ensures Extends(view, view', inserted, inserted', current)
      ensures openList == old(openList)[node.hash := node]
      ensures view'.Keys == view.Keys + {node} && view'[node].parent == current
      ensures view'[node].g == old(current.g).Add(cost as real) && view'[node].pos == old(node.Pos())
    {
      ghost var openAt := openList;
      assert ViewOf(current) == view[current];
      best' := Admit(node, current, cost, heuristic, best, view);
      ghost var v := ViewOf(node);
      view', rank' := view[node := v], rank[node := rank[current] + 1];
      inserted' := inserted + {node};
      InsertKeeps(env, rules, view, openAt, closed, inserted, rank, start, best, heuristic, current, node, v,
                  view', openList, inserted', rank', best');
      ExtendsByInsert(view, inserted, node, v, current);
    }

    /**
     * Admitting a neighbour: g = current g + cost, h from the heuristic,
     * the current node as parent; it replaces the open entry under its
     * key and becomes best when its h is below best's.
     */
    method Admit(node: Node, current: Node, cost: int, heuristic: Vec -> real, best: Node?, ghost view: map<Node, NodeView>)
      returns (best': Node?)
      requires Synced(view) && node !in view && current in view && (best != null ==> best in view)
      modifies node`g, node`h, node`parentNode, this`openList
      ensures Synced(view[node := ViewOf(node)])
      ensures node.g == view[current].g.Add(cost as real) && node.h == heuristic(node.Pos()) && node.parentNode == current
      ensures openList == old(openList)[node.hash := node]
      ensures best' == if best == null || view[best].h > node.h then node else best
    {
      assert ViewOf(current) == view[current] && (best != null ==> ViewOf(best) == view[best]);
      node.g, node.h, node.parentNode := current.g.Add(cost as real), heuristic(node.Pos()), current;
      openList := openList[node.hash := node];
      best' := best;
      if best == null || best.h > node.h {
        best' := node;
      }
      forall n | n in view[node := ViewOf(node)]
        ensures ViewOf(n) == view[node := ViewOf(node)][n]
      {
        if n != node {
          assert n in view && ViewOf(n) == old(ViewOf(n));
        }
      }
    }

    /**
     * The reconstruction loop of findPath, from the first node along the
     * parent chain: the positions it adds are the first node's and then
     * those Smooth yields.
     */
    method Reconstruct(first: Node, ghost chain: seq<Node>) returns (added: seq<Vec>)
      requires |chain| >= 1 && Linked(chain, first, chain[|chain| - 1])
      ensures added == [first.Pos()] + Smooth(env.settings.pathSmoothing, ray, Positions(chain), 0, None, false)
    {
      ghost var ps := Positions(chain);
      var smoothing := env.settings.pathSmoothing;
      added := [first.Pos()];
      var node := first;
      var start: Node? := null;
      var clear := false;
      ghost var i := 0;
      while true
        invariant 0 <= i < |chain| && node == chain[i]
        invariant clear ==> start != null
        invariant added + Smooth(smoothing, ray, ps, i, if start == null then None else Some(start.Pos()), clear)
          == [first.Pos()] + Smooth(smoothing, ray, ps, 0, None, false)
        decreases 2 * (|chain| - 1 - i) + (if clear then 1 else 0)
      {
        var last := node;
        node := node.parentNode;
        if node == null {
          added := added + [last.Pos()];
          break;
        }
        if start == null {
          start := last;
        }
        if IsClearBetweenPoints(smoothing, ray, start.Pos(), node.Pos()) {
          clear := true;
          i := i + 1;
          continue;
        }
        if clear {
          added := added + [last.Pos()];
          clear := false;
          start := null;
          node := last;
        } else {
          added := added + [node.Pos()];
          start := null;
          i := i + 1;
        }
      }
    }

    /**
     * findPath. The wall-clock timeout becomes budget, a bound on the
     * iterations of the search loop; heuristic is the directional
     * heuristic of this start and target.
     */
    method FindPath(startV: Vec, targetV: Vec, budget: nat, heuristic: Vec -> real)
      returns (result: Option<seq<Vec>>, ghost reached: bool, ghost inserted: set<Node>, ghost ps: seq<Vec>,
               ghost chain: seq<Node>, ghost closedKeys: set<Cell>, ghost iterations: nat)
      modifies this`rules, this`openList
      ensures FloorCell(startV) == FloorCell(targetV) ==> result.None? && rules == old(rules) && openList == old(openList)
      ensures FloorCell(startV) != FloorCell(targetV) ==> rules == SortRules(old(rules))
      ensures FloorCell(startV) != FloorCell(targetV) ==> forall h :: h in openList ==> openList[h].hash == h
      ensures reached <==> FloorCell(targetV) in closedKeys
      ensures FloorCell(startV) != FloorCell(targetV) ==>
        iterations <= budget && (!reached ==> openList == map[] || iterations == budget)
      ensures closedKeys !! openList.Keys && closedKeys <= KeysOf(inserted) + {FloorCell(startV)}
      ensures result.None? <==> FloorCell(startV) == FloorCell(targetV) || (!reached && inserted == {})
      ensures forall n :: n in inserted ==> n.parentNode != null
      ensures FloorCell(startV) != FloorCell(targetV) && result.None? && budget > 0 ==>
        var p := Center(FloorCell(startV));
        forall s :: s in SIDES ==> !WalkChain(env, rules, p, SideCell(p, s), 1).ok
      ensures result.Some? ==> |chain| >= 1 && Linked(chain, chain[0], chain[|chain| - 1]) && ps == Positions(chain)
      ensures result.Some? ==> forall k :: 0 <= k < |chain| - 1 ==> chain[k] in inserted && Moved(env, rules, chain[k + 1], chain[k])
      ensures result.Some? && reached ==> chain[0].hash == FloorCell(targetV)
      ensures result.Some? && !reached ==> chain[0] in inserted && forall n :: n in inserted ==> chain[0].h <= n.h
      ensures result.Some? ==> |ps| >= 1 && ps[|ps| - 1] == Center(FloorCell(startV))
      ensures result.Some? ==>
        result.value == PathOf(env.settings.pathSmoothing, ray, if reached then Some(Center(FloorCell(targetV))) else None, ps)
    {
      if FloorCell(startV) == FloorCell(targetV) {
        return None, false, {}, [], [], {}, 0;
      }
      OrderRules();

      var start := Node.FromVector3(startV);
      start.SetG(Fin(0.0));
      var targetNode := Node.FromVector3(targetV);
      result, reached, inserted, ps, chain, closedKeys, iterations := Run(start, targetNode, budget, heuristic);
    }

    /** Keys the rules by class and orders them by descending priority. */
    method OrderRules()
      modifies this`rules
      ensures rules == SortRules(old(rules))
    {
      var table := KeyRules(rules);
      rules := SortByPriority(table);
    }

    /**
     * The body of findPath once the start and target nodes exist: the
     * open list is reset to the start, the search runs, and the path is
     * built from its outcome.
     */
    method Run(start: Node, targetNode: Node, budget: nat, heuristic: Vec -> real)
      returns (result: Option<seq<Vec>>, ghost reached: bool, ghost inserted: set<Node>, ghost ps: seq<Vec>,
               ghost chain: seq<Node>, ghost closedKeys: set<Cell>, ghost iterations: nat)
      requires start != targetNode && start.parentNode == null && targetNode.parentNode == null
      requires start.hash == FloorCell(start.Pos())
      modifies this`openList, targetNode`parentNode
      ensures forall h :: h in openList ==> openList[h].hash == h
      ensures reached <==> targetNode.hash in closedKeys
      ensures iterations <= budget && (!reached ==> openList == map[] || iterations == budget)
      ensures closedKeys !! openList.Keys && closedKeys <= KeysOf(inserted) + {start.hash}
      ensures result.None? <==> !reached && inserted == {}
      ensures forall n :: n in inserted ==> n.parentNode != null
      ensures result.None? && budget > 0 ==>
        forall s :: s in SIDES ==> !WalkChain(env, rules, start.Pos(), SideCell(start.Pos(), s), 1).ok
      ensures result.Some? ==> |chain| >= 1 && Linked(chain, chain[0], start) && ps == Positions(chain)
      ensures result.Some? ==> forall k :: 0 <= k < |chain| - 1 ==> chain[k] in inserted && Moved(env, rules, chain[k + 1], chain[k])
      ensures result.Some? && reached ==> chain[0] == targetNode.parentNode && chain[0].hash == targetNode.hash
      ensures result.Some? && !reached ==> chain[0] in inserted && forall n :: n in inserted ==> chain[0].h <= n.h
      ensures result.Some? ==> |ps| >= 1 && ps[|ps| - 1] == start.Pos()
      ensures result.Some? ==>
        result.value == PathOf(env.settings.pathSmoothing, ray, if reached then Some(targetNode.Pos()) else None, ps)
    {
      openList := map[start.hash := start];
      var found, best, closed;
      ghost var view, rank;
      found, best, closed, view, inserted, rank, iterations := Search(start, targetNode, budget, heuristic);
      closedKeys := closed.Keys;
      assert KeyedLists(view, openList, closed) && AllInsertedWell(env, rules, view, closed, heuristic, inserted);
      forall h | h in openList
        ensures openList[h].hash == h
      {
        assert ViewOf(openList[h]) == view[openList[h]];
      }
      reached := found;
      forall n | n in inserted
        ensures n.parentNode != null && view[best].h <= n.h
      {
        assert InsertedWell(env, rules, view, closed, heuristic, n) && ViewOf(n) == view[n] && ViewOf(best) == view[best];
      }
      if best != null {
        assert ViewOf(best) == view[best];
      }
      if !found && best == null && budget > 0 {
        assert ViewOf(start) == view[start];
        LoneStart(env, rules, view, openList, closed, inserted, rank, start, best, heuristic);
      }
      chain := [];
      ghost var anchor := if found then targetNode.parentNode else best;
      if anchor != null {
        chain := AnchorChain(env, rules, view, openList, closed, inserted, rank, start, best, heuristic, anchor);
      }
      result, ps := Finish(found, best, targetNode, start, chain);
    }

    /**
     * The search loop of findPath, from an open list holding only the
     * start: take the open node with the smallest F, close it, stop when
     * its key is the target's (linking the target to it), else expand it.
     * The loop ends when the open list is empty or the budget is spent.
     */
    method Search(start: Node, targetNode: Node, budget: nat, heuristic: Vec -> real)
      returns (found: bool, best: Node?, closed: map<Cell, Node>, ghost view: map<Node, NodeView>,
               ghost inserted: set<Node>, ghost rank: map<Node, nat>, ghost iterations: nat)
      requires start != targetNode && start.parentNode == null && targetNode.parentNode == null
      requires openList == map[start.hash := start]
      modifies this`openList, targetNode`parentNode
      ensures Synced(view) && SearchState(env, rules, view, openList, closed, inserted, rank, start, best, heuristic)
      ensures targetNode !in view
      ensures found ==> targetNode.parentNode != null && targetNode.parentNode in view
      ensures found ==> targetNode.parentNode.hash == targetNode.hash && targetNode.hash in closed
      ensures !found ==> targetNode.parentNode == null && targetNode.hash !in closed
      ensures closed.Keys !! openList.Keys && closed.Keys <= KeysOf(inserted) + {start.hash}
      ensures iterations <= budget && (!found ==> openList == map[] || iterations == budget)
      ensures iterations == 0 ==> openList == map[start.hash := start] && closed == map[]
      ensures iterations > 0 ==> start.hash in closed && closed[start.hash] == start
      ensures Expanded(env, rules, view, openList, closed, if found then targetNode.parentNode else null)
    {
      closed := map[];
      best := null;
      view := map[start := ViewOf(start)];
      inserted := {};
      rank := map[start := 0];
      found := false;
      iterations := 0;

      var steps := budget;
      while steps > 0
        invariant Synced(view) && SearchState(env, rules, view, openList, closed, inserted, rank, start, best, heuristic)
        invariant targetNode.parentNode == null && targetNode !in view && targetNode.hash !in closed
        invariant !found && iterations + steps == budget
        invariant iterations == 0 ==> openList == map[start.hash := start] && closed == map[]
        invariant iterations > 0 ==> start.hash in closed && closed[start.hash] == start
        invariant Expanded(env, rules, view, openList, closed, null)
        decreases steps
      {
        steps := steps - 1;
        assert iterations > 0 ==> start.hash !in openList by {
          assert KeyedLists(view, openList, closed);
        }
        ghost var open, closed0 := openList, closed;
        var stop, current;
        ghost var opens, views;
        stop, found, current, closed, best, view, inserted, rank, opens, views := Iterate(targetNode, heuristic, closed, best, start, view, inserted, rank);
        StartStaysClosed(start, open, closed0, closed, current, iterations == 0);
        iterations := iterations + 1;
        if stop {
          break;
        }
      }
      ClosedKnown(env, rules, view, openList, closed, inserted, rank, start, best, heuristic);
    }

    /**
     * One iteration of the search loop: stop when the open list is empty;
     * otherwise close the open node with the smallest F, and stop when its
     * key is the target's (linking the target to it), else expand it.
     */
    method Iterate(targetNode: Node, heuristic: Vec -> real, closed: map<Cell, Node>, best: Node?,
                   ghost start: Node, ghost view: map<Node, NodeView>, ghost inserted: set<Node>,
                   ghost rank: map<Node, nat>)
      returns (stop: bool, found: bool, current: Node?, closed': map<Cell, Node>, best': Node?, ghost view': map<Node, NodeView>,
               ghost inserted': set<Node>, ghost rank': map<Node, nat>, ghost opens: seq<map<Cell, Node>>, ghost views: seq<map<Node, NodeView>>)
      requires Synced(view) && SearchState(env, rules, view, openList, closed, inserted, rank, start, best, heuristic)
      requires Expanded(env, rules, view, openList, closed, null)
      requires targetNode.parentNode == null && targetNode !in view
      modifies this`openList, targetNode`parentNode
      ensures Synced(view') && SearchState(env, rules, view', openList, closed', inserted', rank', start, best', heuristic)
      ensures targetNode !in view'
      ensures current == null ==> old(openList) == map[] && openList == map[] && closed' == closed
      ensures current != null ==> current in view && current.hash in old(openList) && old(openList)[current.hash] == current
      ensures current != null ==> closed' == closed[current.hash := current]
      ensures current != null ==> forall h :: h in old(openList) ==> old(openList)[h] in view && view[current].F().AtMost(view[old(openList)[h]].F())
      ensures stop <==> current == null || found
      ensures found <==> current != null && current.hash == targetNode.hash
      ensures found ==> targetNode.parentNode == current && openList == old(openList) - {current.hash} && view' == view
      ensures !found ==> targetNode.parentNode == null
      ensures current != null && !found ==>
        Trail(view[current].pos, view[current].g, Verdicts(env, rules, view[current].pos), closed',
              opens, views, current, old(openList) - {current.hash}, view, openList, view', |SIDES|)
      ensures Expanded(env, rules, view', openList, closed', if found then current else null)
    {
      stop, found, closed', best', view', inserted', rank' := false, false, closed, best, view, inserted, rank;
      opens, views := [], [];
      ghost var open := openList;
      current, closed' := CloseLowest(closed, best, start, view, inserted, rank, heuristic);
      if current == null {
        stop := true;
        return;
      }
      assert KeyedLists(view, open, closed);
      CloseExpanded(env, rules, view, open, closed, current.hash, current);
      if current.hash == targetNode.hash {
        Link(targetNode, current, view);
        stop, found := true, true;
      } else {
        ghost var open1 := openList;
        best', view', inserted', rank', opens, views := ExpandNeighbours(current, closed', heuristic, best, start, view, inserted, rank);
        assert KeyedLists(view, open1, closed');
        StepsKnown(view[current].pos, view[current].g, Verdicts(env, rules, view[current].pos), closed', opens, views, current,
                   open1, view, openList, view');
        ExpandExpanded(env, rules, view, view', open1, openList, closed', current);
      }
    }

    /**
     * Takes the open node with the smallest F off the open list and closes
     * it under its key; null when the open list is empty.
     */
    method CloseLowest(closed: map<Cell, Node>, ghost best: Node?, ghost start: Node, ghost view: map<Node, NodeView>,
                       ghost inserted: set<Node>, ghost rank: map<Node, nat>, ghost heuristic: Vec -> real)
      returns (current: Node?, closed': map<Cell, Node>)
      requires Synced(view) && SearchState(env, rules, view, openList, closed, inserted, rank, start, best, heuristic)
      modifies this`openList
      ensures current == null ==> old(openList) == map[] && openList == map[] && closed' == closed
      ensures current != null ==> current in view && current.hash in old(openList) && old(openList)[current.hash] == current
      ensures current != null ==> openList == old(openList) - {current.hash} && closed' == closed[current.hash := current]
      ensures current != null ==> forall h :: h in old(openList) ==> old(openList)[h] in view && view[current].F().AtMost(view[old(openList)[h]].F())
      ensures SearchState(env, rules, view, openList, closed', inserted, rank, start, best, heuristic)
    {
      var key := GetLowestFCost();
      if key.None? {
        return null, closed;
      }
      current := openList[key.value];
      assert current.hash == key.value && current in view by {
        assert KeyedLists(view, openList, closed);
        assert ViewOf(current) == view[current];
      }
      forall h | h in openList
        ensures openList[h] in view && view[current].F().AtMost(view[openList[h]].F())
      {
        assert ViewOf(openList[h]) == view[openList[h]] && ViewOf(current) == view[current];
      }
      PopKeeps(env, rules, view, openList, closed, inserted, rank, start, best, heuristic, current.hash, current);
      openList := openList - {current.hash};
      closed' := closed[current.hash := current];
    }

    /** Links the target, which is no node of the snapshot, to its parent. */
    static method Link(targetNode: Node, parent: Node, ghost view: map<Node, NodeView>)
      requires Synced(view) && targetNode !in view
      modifies targetNode`parentNode
      ensures Synced(view) && targetNode.parentNode == parent
    {
      targetNode.SetParentNode(parent);
      forall n | n in view
        ensures ViewOf(n) == view[n]
      {
        assert n != targetNode;
      }
    }

    /**
     * The end of findPath: from the target's parent when the target was
     * reached, else from the best node, else no path; the positions along
     * the parent chain, reconstructed and reversed.
     */
    method Finish(found: bool, best: Node?, targetNode: Node, ghost start: Node, ghost chain: seq<Node>)
      returns (result: Option<seq<Vec>>, ghost ps: seq<Vec>)
      requires found ==> targetNode.parentNode != null
      requires !found ==> targetNode.parentNode == null
      requires found || best != null ==> Linked(chain, if found then targetNode.parentNode else best, start)
      ensures result.None? <==> !found && best == null
      ensures result.Some? ==> ps == Positions(chain)
      ensures result.Some? ==> |ps| >= 1 && ps[|ps| - 1] == start.Pos()
      ensures result.Some? ==>
        result.value == PathOf(env.settings.pathSmoothing, ray, if found then Some(targetNode.Pos()) else None, ps)
    {
      var node := targetNode.parentNode;
      if node == null {
        node := best;
        if node == null {
          return None, [];
        }
      }
      ps := Positions(chain);
      var added := Reconstruct(node, chain);
      var nodesAdded := (if found then [targetNode.Pos()] else []) + added;
      result := Some(Reverse(nodesAdded));
    }
  }
}
