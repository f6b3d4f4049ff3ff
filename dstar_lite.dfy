/**
 * The D* Lite engine: cost-to-goal estimates g and one-step lookahead
 * values rhs per vertex, a priority queue of (key, vertex) entries for
 * the vertices whose g and rhs disagree, a backward search from the goal
 * until the start is settled, and a greedy walk down g from the start.
 *
 * Vertices are block cells; a vertex stands at the centre of its cell.
 * Missing g and rhs entries read as infinity.
 */
module DStar {
  import opened Basics
  import opened RuleChain

  /** The offsets getNeighbors tries, in its order: four level moves, four steps up, four steps down. */
  const DIRECTIONS: seq<Cell> := [
    Cell(1, 0, 0), Cell(-1, 0, 0), Cell(0, 0, 1), Cell(0, 0, -1),
    Cell(1, 1, 0), Cell(-1, 1, 0), Cell(0, 1, 1), Cell(0, 1, -1),
    Cell(1, -1, 0), Cell(-1, -1, 0), Cell(0, -1, 1), Cell(0, -1, -1)]

  function Offset(c: Cell, d: Cell): Cell
  {
    Cell(c.x + d.x, c.y + d.y, c.z + d.z)
  }

  /** h(a, b): the Manhattan distance of the two block-centred positions. */
  function H(a: Cell, b: Cell): real
  {
    Manhattan(Center(a), Center(b))
  }

  /** cost(a, b): uniform, equal to h. */
  function StepCost(a: Cell, b: Cell): real
  {
    H(a, b)
  }

  /** The cost is a symmetric, non-negative distance: 1 for a level move, 2 for a step up or down. */
  lemma StepCostProps(a: Cell, b: Cell)
    ensures StepCost(a, b) == StepCost(b, a)
    ensures StepCost(a, b) >= 0.0 && (StepCost(a, b) == 0.0 <==> a == b)
    ensures forall i :: 0 <= i < |DIRECTIONS| ==>
      StepCost(a, Offset(a, DIRECTIONS[i])) == if DIRECTIONS[i].y == 0 then 1.0 else 2.0
  {
    assert Center(a) == Center(b) ==> a == b by {
      if Center(a) == Center(b) {
        assert FloorCell(Center(a)) == a && FloorCell(Center(b)) == b;
      }
    }
  }

  /** A vertex missing from a map reads as infinity. */
  function Get(m: map<Cell, Cost>, c: Cell): Cost
  {
    if c in m then m[c] else Inf
  }

  /** Two maps that read the same at every vertex. */
  ghost predicate SameCosts(m1: map<Cell, Cost>, m2: map<Cell, Cost>)
  {
    forall c :: Get(m1, c) == Get(m2, c)
  }

  /* ---------------------------------------------------------------- */
  /* Neighbours                                                       */
  /* ---------------------------------------------------------------- */

  /** A move from c to n passes the stand chain at n and the walk chain from c to n, both with a zero cost. */
  ghost predicate Accepts(env: Env, rules: seq<Rule>, c: Cell, n: Cell)
  {
    StandChain(env, rules, Center(n), 0).ok && WalkChain(env, rules, Center(c), Center(n), 0).ok
  }

  /** The verdict of the rule chains on each of the twelve offsets from c. */
  ghost function Verdicts(env: Env, rules: seq<Rule>, c: Cell): (v: seq<bool>)
    ensures |v| == |DIRECTIONS|
  {
    seq(|DIRECTIONS|, k requires 0 <= k < |DIRECTIONS| => Accepts(env, rules, c, Offset(c, DIRECTIONS[k])))
  }

  /** The cells at DIRECTIONS[..i] whose verdict is true, in list order. */
  function Filter(c: Cell, verdicts: seq<bool>, i: nat): seq<Cell>
    requires |verdicts| == |DIRECTIONS| && i <= |DIRECTIONS|
  {
    if i == 0 then []
    else Filter(c, verdicts, i - 1) + (if verdicts[i - 1] then [Offset(c, DIRECTIONS[i - 1])] else [])
  }

  /** getNeighbors(c). */
  ghost function Neighbors(env: Env, rules: seq<Rule>, c: Cell): seq<Cell>
  {
    Filter(c, Verdicts(env, rules, c), |DIRECTIONS|)
  }

  /** No offset is listed twice. */
  lemma DirectionsDistinct()
    ensures forall a, b :: 0 <= a < b < |DIRECTIONS| ==> DIRECTIONS[a] != DIRECTIONS[b]
  {
  }

  /** The cells at DIRECTIONS[..i] with a true verdict, each once. */
  lemma {:induction false} FilterSpec(c: Cell, verdicts: seq<bool>, i: nat)
    requires |verdicts| == |DIRECTIONS| && i <= |DIRECTIONS|
    ensures forall n :: n in Filter(c, verdicts, i) <==>
      exists k :: 0 <= k < i && n == Offset(c, DIRECTIONS[k]) && verdicts[k]
    ensures forall j, l :: 0 <= j < l < |Filter(c, verdicts, i)| ==> Filter(c, verdicts, i)[j] != Filter(c, verdicts, i)[l]
  {
    if i > 0 {
      FilterSpec(c, verdicts, i - 1);
      var n := Offset(c, DIRECTIONS[i - 1]);
      if verdicts[i - 1] {
        var front := Filter(c, verdicts, i - 1);
        assert n !in front by {
          DirectionsDistinct();
        }
        assert Filter(c, verdicts, i) == front + [n];
      }
    }
  }

  /**
   * getNeighbors returns exactly the accepted cells at the twelve offsets,
   * each once (in the order of DIRECTIONS, by the definition of Filter).
   */
  lemma NeighborsSpec(env: Env, rules: seq<Rule>, c: Cell)
    ensures forall n :: n in Neighbors(env, rules, c) <==>
      exists k :: 0 <= k < |DIRECTIONS| && n == Offset(c, DIRECTIONS[k]) && Accepts(env, rules, c, n)
    ensures forall j, l :: 0 <= j < l < |Neighbors(env, rules, c)| ==> Neighbors(env, rules, c)[j] != Neighbors(env, rules, c)[l]
  {
    FilterSpec(c, Verdicts(env, rules, c), |DIRECTIONS|);
  }

  /* ---------------------------------------------------------------- */
  /* rhs                                                              */
  /* ---------------------------------------------------------------- */

  /** g(n) + cost(u, n): the cost of reaching the goal from u through n. */
  function Through(gm: map<Cell, Cost>, u: Cell, n: Cell): Cost
  {
    Get(gm, n).Add(StepCost(u, n))
  }

  /** The smallest Through over ns, folded in list order; infinity for none. */
  function MinThrough(gm: map<Cell, Cost>, u: Cell, ns: seq<Cell>): Cost
    decreases |ns|
  {
    if ns == [] then Inf else Min(MinThrough(gm, u, ns[..|ns| - 1]), Through(gm, u, ns[|ns| - 1]))
  }

  /** calculateRHS(u) as a value. */
  ghost function Rhs(env: Env, rules: seq<Rule>, gm: map<Cell, Cost>, u: Cell): Cost
  {
    MinThrough(gm, u, Neighbors(env, rules, u))
  }

  /** The fold is the minimum: a lower bound that some n attains, infinity exactly when every g(n) is. */
  lemma {:induction false} MinThroughIsMin(gm: map<Cell, Cost>, u: Cell, ns: seq<Cell>)
    ensures forall n :: n in ns ==> MinThrough(gm, u, ns).AtMost(Through(gm, u, n))
    ensures MinThrough(gm, u, ns).Inf? <==> forall n :: n in ns ==> Get(gm, n).Inf?
    ensures MinThrough(gm, u, ns).Fin? ==> exists n :: n in ns && MinThrough(gm, u, ns) == Through(gm, u, n)
    decreases |ns|
  {
    if ns != [] {
      var front := ns[..|ns| - 1];
      MinThroughIsMin(gm, u, front);
      assert ns == front + [ns[|ns| - 1]];
    }
  }

  /** The fold reads g only at the members of ns. */
  lemma {:induction false} MinThroughAgrees(g1: map<Cell, Cost>, g2: map<Cell, Cost>, u: Cell, ns: seq<Cell>)
    requires forall n :: n in ns ==> Get(g1, n) == Get(g2, n)
    ensures MinThrough(g1, u, ns) == MinThrough(g2, u, ns)
    decreases |ns|
  {
    if ns != [] {
      MinThroughAgrees(g1, g2, u, ns[..|ns| - 1]);
      assert ns[|ns| - 1] in ns;
    }
  }

  /** Adding infinite g entries changes no rhs. */
  lemma RhsSameCosts(env: Env, rules: seq<Rule>, g1: map<Cell, Cost>, g2: map<Cell, Cost>)
    requires SameCosts(g1, g2)
    ensures forall c :: Rhs(env, rules, g1, c) == Rhs(env, rules, g2, c)
  {
    forall c
      ensures Rhs(env, rules, g1, c) == Rhs(env, rules, g2, c)
    {
      MinThroughAgrees(g1, g2, c, Neighbors(env, rules, c));
    }
  }

  /** With every g infinite, every rhs is infinite. */
  lemma RhsAllInf(env: Env, rules: seq<Rule>, gm: map<Cell, Cost>)
    requires forall c :: Get(gm, c) == Inf
    ensures forall c :: Rhs(env, rules, gm, c) == Inf
  {
    forall c
      ensures Rhs(env, rules, gm, c) == Inf
    {
      MinThroughIsMin(gm, c, Neighbors(env, rules, c));
    }
  }

  /** rhs is the one-step lookahead of g at every vertex but the goal, whose rhs is fixed. */
  ghost predicate LookAhead(env: Env, rules: seq<Rule>, gm: map<Cell, Cost>, rm: map<Cell, Cost>, goal: Cell)
  {
    forall c :: c != goal ==> Get(rm, c) == Rhs(env, rules, gm, c)
  }

  /** Adding infinite g entries keeps the lookahead invariant. */
  lemma LookAheadSameCosts(env: Env, rules: seq<Rule>, g1: map<Cell, Cost>, g2: map<Cell, Cost>, rm: map<Cell, Cost>, goal: Cell)
    requires SameCosts(g1, g2)
    ensures LookAhead(env, rules, g1, rm, goal) ==> LookAhead(env, rules, g2, rm, goal)
  {
    RhsSameCosts(env, rules, g1, g2);
  }

  /** Every move the rule chains accept can be made the other way too. */
  ghost predicate Symmetric(env: Env, rules: seq<Rule>)
  {
    forall a, b :: b in Neighbors(env, rules, a) ==> a in Neighbors(env, rules, b)
  }

  /** No vertex is its own neighbour. */
  lemma NotOwnNeighbor(env: Env, rules: seq<Rule>, u: Cell)
    ensures u !in Neighbors(env, rules, u)
  {
    NeighborsSpec(env, rules, u);
  }

  /**
   * When g changes at u only, and rhs is recomputed at every neighbour of
   * u (and kept elsewhere), the lookahead invariant survives provided the
   * moves are symmetric: a vertex whose rhs reads g(u) has u as a
   * neighbour, hence is a neighbour of u.
   */
  lemma LookAheadKept(env: Env, rules: seq<Rule>, g0: map<Cell, Cost>, r0: map<Cell, Cost>,
                      g1: map<Cell, Cost>, r1: map<Cell, Cost>, u: Cell, goal: Cell, updated: seq<Cell>)
    requires Symmetric(env, rules) && LookAhead(env, rules, g0, r0, goal)
    requires forall c :: c != u ==> Get(g1, c) == Get(g0, c)
    requires forall n :: n in Neighbors(env, rules, u) ==> n in updated
    requires forall n :: n in updated && n != goal ==> Get(r1, n) == Rhs(env, rules, g1, n)
    requires forall c :: c !in updated ==> Get(r1, c) == Get(r0, c)
    ensures LookAhead(env, rules, g1, r1, goal)
  {
    forall c | c != goal && c !in updated
      ensures Get(r1, c) == Rhs(env, rules, g1, c)
    {
      assert c !in Neighbors(env, rules, u);
      assert u !in Neighbors(env, rules, c);
      MinThroughAgrees(g0, g1, c, Neighbors(env, rules, c));
    }
  }

  /* ---------------------------------------------------------------- */
  /* The queue                                                        */
  /* ---------------------------------------------------------------- */

  /** A key [first, second], compared lexicographically. */
  datatype Key = Key(first: Cost, second: Cost)

  predicate KeyBelow(a: Key, b: Key)
  {
    a.first.Below(b.first) || (a.first == b.first && a.second.Below(b.second))
  }

  datatype Entry = Entry(key: Key, cell: Cell)

  /** The entry extract() yields: the first one with the smallest key. */
  function MinIndex(q: seq<Entry>): (i: nat)
    requires |q| > 0
    ensures i < |q|
    ensures forall j :: 0 <= j < |q| ==> !KeyBelow(q[j].key, q[i].key)
    ensures forall j :: 0 <= j < i ==> KeyBelow(q[i].key, q[j].key)
    decreases |q|
  {
    if |q| == 1 then 0
    else
      var k := MinIndex(q[..|q| - 1]);
      if KeyBelow(q[|q| - 1].key, q[k].key) then |q| - 1 else k
  }

  /** The queue without the entries of u, in their order. */
  function Without(q: seq<Entry>, u: Cell): seq<Entry>
    decreases |q|
  {
    if q == [] then []
    else Without(q[..|q| - 1], u) + (if q[|q| - 1].cell != u then [q[|q| - 1]] else [])
  }

  lemma {:induction false} WithoutSpec(q: seq<Entry>, u: Cell)
    ensures forall e :: e in Without(q, u) <==> e in q && e.cell != u
    decreases |q|
  {
    if q != [] {
      WithoutSpec(q[..|q| - 1], u);
      assert q == q[..|q| - 1] + [q[|q| - 1]];
    }
  }

  ghost predicate Queued(q: seq<Entry>, c: Cell)
  {
    exists j :: 0 <= j < |q| && q[j].cell == c
  }

  /** Every vertex outside except whose g and rhs disagree has an entry in q. */
  ghost predicate Covered(gm: map<Cell, Cost>, rm: map<Cell, Cost>, q: seq<Entry>, except: set<Cell>)
  {
    forall c :: c !in except && Get(gm, c) != Get(rm, c) ==> Queued(q, c)
  }

  /**
   * Dropping u's entries and appending at most one entry for u, exactly
   * when u is inconsistent, leaves one entry for u iff it is inconsistent,
   * keeps every other entry, and restores coverage at u.
   */
  lemma {:induction false} RequeueSpec(q: seq<Entry>, u: Cell, tail: seq<Entry>,
                                       g0: map<Cell, Cost>, r0: map<Cell, Cost>,
                                       g1: map<Cell, Cost>, r1: map<Cell, Cost>, except: set<Cell>)
    requires tail == [] || (|tail| == 1 && tail[0].cell == u)
    requires tail != [] <==> Get(g1, u) != Get(r1, u)
    requires forall c :: c != u ==> Get(g1, c) == Get(g0, c) && Get(r1, c) == Get(r0, c)
    requires Covered(g0, r0, q, except)
    ensures var q' := Without(q, u) + tail;
      (Queued(q', u) <==> Get(g1, u) != Get(r1, u))
      && (forall j, l :: 0 <= j < l < |q'| && q'[j].cell == u ==> q'[l].cell != u)
      && (forall e: Entry :: e.cell != u ==> (e in q' <==> e in q))
      && Covered(g1, r1, q', except - {u})
  {
    var q' := Without(q, u) + tail;
    WithoutSpec(q, u);
    forall j | 0 <= j < |Without(q, u)|
      ensures Without(q, u)[j].cell != u
    {
      assert Without(q, u)[j] in Without(q, u);
    }
    forall c | c !in except - {u} && Get(g1, c) != Get(r1, c)
      ensures Queued(q', c)
    {
      if c != u {
        var j :| 0 <= j < |q| && q[j].cell == c;
        assert q[j] in Without(q, u);
        var l :| 0 <= l < |Without(q, u)| && Without(q, u)[l] == q[j];
        assert q'[l] == q[j];
      } else {
        assert q'[|q'| - 1].cell == u;
      }
    }
    if Queued(q', u) {
      var j :| 0 <= j < |q'| && q'[j].cell == u;
      assert j >= |Without(q, u)|;
    }
  }

  /* ---------------------------------------------------------------- */
  /* Greedy extraction                                                */
  /* ---------------------------------------------------------------- */

  /** The first of ns with the smallest finite g, as the scan of findPath picks it. */
  function BestOf(gm: map<Cell, Cost>, ns: seq<Cell>): Option<Cell>
    decreases |ns|
  {
    if ns == [] then None
    else
      var b := BestOf(gm, ns[..|ns| - 1]);
      var n := ns[|ns| - 1];
      if Get(gm, n).Below(if b.Some? then Get(gm, b.value) else Inf) then Some(n) else b
  }

  /** The next vertex of the walk from c. */
  ghost function Step(env: Env, rules: seq<Rule>, gm: map<Cell, Cost>, c: Cell): Option<Cell>
  {
    BestOf(gm, Neighbors(env, rules, c))
  }

  /** The scan finds nothing iff every g is infinite; otherwise a member with finite, smallest g. */
  lemma {:induction false} BestOfIsMin(gm: map<Cell, Cost>, ns: seq<Cell>)
    ensures BestOf(gm, ns).None? <==> forall n :: n in ns ==> Get(gm, n).Inf?
    ensures BestOf(gm, ns).Some? ==>
      var b := BestOf(gm, ns).value;
      b in ns && Get(gm, b).Fin? && forall n :: n in ns ==> Get(gm, b).AtMost(Get(gm, n))
    decreases |ns|
  {
    if ns != [] {
      var front := ns[..|ns| - 1];
      BestOfIsMin(gm, front);
      assert ns == front + [ns[|ns| - 1]];
    }
  }

  lemma {:induction false} BestOfSameCosts(g1: map<Cell, Cost>, g2: map<Cell, Cost>, ns: seq<Cell>)
    requires SameCosts(g1, g2)
    ensures BestOf(g1, ns) == BestOf(g2, ns)
    decreases |ns|
  {
    if ns != [] {
      BestOfSameCosts(g1, g2, ns[..|ns| - 1]);
      var b := BestOf(g1, ns[..|ns| - 1]);
      assert Get(g1, ns[|ns| - 1]) == Get(g2, ns[|ns| - 1]);
      if b.Some? {
        assert Get(g1, b.value) == Get(g2, b.value);
      }
    }
  }

  /** The cells of the walk: it starts at start and each vertex is the step from the one before. */
  ghost predicate Descent(env: Env, rules: seq<Rule>, gm: map<Cell, Cost>, cells: seq<Cell>, start: Cell, goal: Cell)
  {
    |cells| >= 1 && cells[0] == start
    && forall k :: 0 <= k < |cells| - 1 ==> cells[k] != goal && Step(env, rules, gm, cells[k]) == Some(cells[k + 1])
  }

  /** A descent that has not reached the goal grows by the step from its last vertex. */
  lemma DescentGrows(env: Env, rules: seq<Rule>, gm: map<Cell, Cost>, cells: seq<Cell>, start: Cell, goal: Cell, next: Cell)
    requires Descent(env, rules, gm, cells, start, goal) && cells[|cells| - 1] != goal
    requires Step(env, rules, gm, cells[|cells| - 1]) == Some(next)
    ensures Descent(env, rules, gm, cells + [next], start, goal)
  {
    var cs := cells + [next];
    forall k | 0 <= k < |cs| - 1
      ensures cs[k] != goal && Step(env, rules, gm, cs[k]) == Some(cs[k + 1])
    {
      if k < |cells| - 1 {
        assert cs[k] == cells[k] && cs[k + 1] == cells[k + 1];
      }
    }
  }

  function Centers(cells: seq<Cell>): (ps: seq<Vec>)
    ensures |ps| == |cells| && forall k :: 0 <= k < |cells| ==> ps[k] == Center(cells[k])
  {
    seq(|cells|, k requires 0 <= k < |cells| => Center(cells[k]))
  }

  datatype Answer = Found(path: seq<Vec>) | NoPath | OutOfFuel

  class DStarLite {
    const env: Env
    const rules: seq<Rule>
    var g: map<Cell, Cost>
    var rhs: map<Cell, Cost>
    var queue: seq<Entry>
    var km: real

    constructor (env: Env, rules: seq<Rule>)
      ensures this.env == env && this.rules == rules
      ensures g == map[] && rhs == map[] && queue == [] && km == 0.0
    {
      this.env, this.rules := env, rules;
      g, rhs, queue, km := map[], map[], [], 0.0;
    }

    /** calculateKey(u, start): [min(g, rhs) + h(start, u) + km, min(g, rhs)]. */
    function CalculateKey(u: Cell, start: Cell): (k: Key)
      reads this
      ensures k.second == Get(g, u) || k.second == Get(rhs, u)
      ensures k.second.AtMost(Get(g, u)) && k.second.AtMost(Get(rhs, u))
      ensures k.first.Fin? <==> k.second.Fin?
      ensures k.first.Fin? ==> k.first.v - k.second.v == H(start, u) + km
    {
      var m := Min(Get(g, u), Get(rhs, u));
      Key(m.Add(H(start, u) + km), m)
    }

    /** getNeighbors(u). */
    method GetNeighbors(u: Cell) returns (ns: seq<Cell>)
      ensures ns == Neighbors(env, rules, u)
    {
      ghost var verdicts := Verdicts(env, rules, u);
      ns := [];
      var i := 0;
      while i < |DIRECTIONS|
        invariant 0 <= i <= |DIRECTIONS|
        invariant ns == Filter(u, verdicts, i)
      {
        var n := Offset(u, DIRECTIONS[i]);
        assert verdicts[i] == Accepts(env, rules, u, n);
        var accepted := false;
        var standOk, _ := IsNicePositionToStand(env, rules, Center(n), 0);
        if standOk {
          var walkOk, _, _ := IsNicePositionToWalk(env, rules, Center(u), Center(n), 0);
          accepted := walkOk;
        }
        assert accepted == verdicts[i];
        if accepted {
          ns := ns + [n];
        }
        i := i + 1;
      }
    }

    /** calculateRHS(u); neighbours without a g entry get an infinite one. */
    method CalculateRHS(u: Cell) returns (r: Cost)
      modifies this`g
      ensures r == Rhs(env, rules, g, u)
      ensures SameCosts(g, old(g)) && old(g).Keys <= g.Keys
    {
      var ns := GetNeighbors(u);
      r := Inf;
      var i := 0;
      while i < |ns|
        invariant 0 <= i <= |ns|
        invariant r == MinThrough(g, u, ns[..i])
        invariant SameCosts(g, old(g)) && old(g).Keys <= g.Keys
      {
        var n := ns[i];
        if n !in g {
          MinThroughAgrees(g, g[n := Inf], u, ns[..i]);
          g := g[n := Inf];
        }
        var cost := g[n].Add(StepCost(u, n));
        assert ns[..i + 1] == ns[..i] + [n];
        if cost.Below(r) {
          r := cost;
        }
        i := i + 1;
      }
      assert ns[..i] == ns;
    }

    /** The first half of updateVertex: give u g and rhs entries, then recompute rhs(u) unless u is the goal. */
    method RefreshRhs(u: Cell, goal: Cell)
      modifies this`g, this`rhs
      ensures SameCosts(g, old(g)) && old(g).Keys <= g.Keys && u in g
      ensures rhs == old(rhs)[u := if u == goal then Get(old(rhs), u) else Rhs(env, rules, g, u)]
    {
      if u !in g {
        g := g[u := Inf];
      }
      if u !in rhs {
        rhs := rhs[u := Inf];
      }
      if u != goal {
        var r := CalculateRHS(u);
        rhs := rhs[u := r];
      }
    }

    /** The drain loop of updateVertex: take every entry out and put back those of other vertices. */
    method Drain(u: Cell)
      modifies this`queue
      ensures queue == Without(old(queue), u)
    {
      var temp := [];
      var i := 0;
      while i < |queue|
        invariant 0 <= i <= |queue|
        invariant temp == Without(queue[..i], u)
      {
        assert queue[..i + 1] == queue[..i] + [queue[i]];
        if queue[i].cell != u {
          temp := temp + [queue[i]];
        }
        i := i + 1;
      }
      assert queue[..i] == queue;
      queue := temp;
    }

    /**
     * updateVertex(u): recompute rhs(u) unless u is the goal, drop u's
     * entries from the queue, and queue u again iff g(u) != rhs(u).
     */
    method UpdateVertex(u: Cell, start: Cell, goal: Cell, ghost except: set<Cell>)
      requires Covered(g, rhs, queue, except)
      modifies this`g, this`rhs, this`queue
      ensures SameCosts(g, old(g)) && old(g).Keys <= g.Keys && u in g
      ensures rhs == old(rhs)[u := if u == goal then Get(old(rhs), u) else Rhs(env, rules, g, u)]
      ensures queue == Without(old(queue), u) + if Get(g, u) != Get(rhs, u) then [Entry(CalculateKey(u, start), u)] else []
      ensures Queued(queue, u) <==> Get(g, u) != Get(rhs, u)
      ensures forall j, l :: 0 <= j < l < |queue| && queue[j].cell == u ==> queue[l].cell != u
      ensures forall e: Entry :: e.cell != u ==> (e in queue <==> e in old(queue))
      ensures Get(rhs, goal) == Get(old(rhs), goal)
      ensures Covered(g, rhs, queue, except - {u})
    {
      RefreshRhs(u, goal);
      if u in g {
        Drain(u);
      }
      var tail := if g[u] != rhs[u] then [Entry(CalculateKey(u, start), u)] else [];
      forall c | c != u
        ensures Get(g, c) == Get(old(g), c) && Get(rhs, c) == Get(old(rhs), c)
      {
      }
      RequeueSpec(old(queue), u, tail, old(g), old(rhs), g, rhs, except);
      queue := queue + tail;
    }

    /**
     * computeShortestPath: while the queue's smallest key lies below the
     * start's key or the start is inconsistent, settle the vertex with the
     * smallest key and update its neighbours. The source loop has no
     * bound; fuel counts its iterations and finished is false exactly
     * when fuel vertices were settled and the loop would still go on. g
     * changes only at the settled vertices; the lookahead invariant is
     * kept when the moves are symmetric.
     */
    method ComputeShortestPath(start: Cell, goal: Cell, fuel: nat) returns (finished: bool, ghost settled: seq<Cell>)
      requires start in g && start in rhs
      requires Covered(g, rhs, queue, {})
      modifies this`g, this`rhs, this`queue
      ensures start in g && start in rhs
      ensures Covered(g, rhs, queue, {})
      ensures Get(rhs, goal) == Get(old(rhs), goal)
      ensures forall c :: c !in settled ==> Get(g, c) == Get(old(g), c)
      ensures Symmetric(env, rules) && old(LookAhead(env, rules, g, rhs, goal)) ==> LookAhead(env, rules, g, rhs, goal)
      ensures finished ==>
        |settled| <= fuel
        && (|queue| == 0 || (!KeyBelow(queue[MinIndex(queue)].key, CalculateKey(start, start)) && rhs[start] == g[start]))
      ensures !finished ==>
        |settled| == fuel && |queue| > 0
        && (KeyBelow(queue[MinIndex(queue)].key, CalculateKey(start, start)) || rhs[start] != g[start])
    {
      settled := [];
      ghost var kept := Symmetric(env, rules) && LookAhead(env, rules, g, rhs, goal);
      var steps := fuel;
      while |queue| > 0 && (KeyBelow(queue[MinIndex(queue)].key, CalculateKey(start, start)) || rhs[start] != g[start])
        invariant start in g && start in rhs
        invariant Covered(g, rhs, queue, {})
        invariant Get(rhs, goal) == Get(old(rhs), goal)
        invariant forall c :: c !in settled ==> Get(g, c) == Get(old(g), c)
        invariant kept ==> LookAhead(env, rules, g, rhs, goal)
        invariant |settled| + steps == fuel
        decreases steps
      {
        if steps == 0 {
          return false, settled;
        }
        steps := steps - 1;
        var u := PopMin();
        Settle(u, start, goal);
        settled := settled + [u];
      }
      finished := true;
    }

    /**
     * The body of computeShortestPath's loop for the popped vertex u: an
     * overconsistent u takes its rhs as g and its neighbours are updated;
     * otherwise u's g becomes infinite and its neighbours and then u
     * itself are updated.
     */
    method Settle(u: Cell, start: Cell, goal: Cell)
      requires start in g && start in rhs
      requires Covered(g, rhs, queue, {u})
      modifies this`g, this`rhs, this`queue
      ensures start in g && start in rhs
      ensures Covered(g, rhs, queue, {})
      ensures Get(rhs, goal) == Get(old(rhs), goal)
      ensures Get(g, u) == if Get(old(rhs), u).Below(Get(old(g), u)) then Get(old(rhs), u) else Inf
      ensures forall c :: c != u ==> Get(g, c) == Get(old(g), c)
      ensures forall n :: n in Neighbors(env, rules, u) && n != goal ==> Get(rhs, n) == Rhs(env, rules, g, n)
      ensures !Get(old(rhs), u).Below(Get(old(g), u)) && u != goal ==> Get(rhs, u) == Rhs(env, rules, g, u)
      ensures forall c :: c != u && c !in Neighbors(env, rules, u) ==> Get(rhs, c) == Get(old(rhs), c)
      ensures Get(old(rhs), u).Below(Get(old(g), u)) ==> Get(rhs, u) == Get(old(rhs), u)
      ensures Symmetric(env, rules) && old(LookAhead(env, rules, g, rhs, goal)) ==> LookAhead(env, rules, g, rhs, goal)
    {
      ghost var g0, r0 := g, rhs;
      if u !in g {
        g := g[u := Inf];
      }
      if u !in rhs {
        rhs := rhs[u := Inf];
      }
      assert LookAhead(env, rules, g0, r0, goal) ==> LookAhead(env, rules, g, rhs, goal) by {
        RhsSameCosts(env, rules, g0, g);
      }
      ghost var ns := Neighbors(env, rules, u);
      if rhs[u].Below(g[u]) {
        Lower(u, start, goal);
        NotOwnNeighbor(env, rules, u);
        if Symmetric(env, rules) && LookAhead(env, rules, g0, r0, goal) {
          LookAheadKept(env, rules, old(g), old(rhs), g, rhs, u, goal, ns);
        }
      } else {
        Raise(u, start, goal);
        if Symmetric(env, rules) && LookAhead(env, rules, g0, r0, goal) {
          LookAheadKept(env, rules, old(g), old(rhs), g, rhs, u, goal, ns + [u]);
        }
      }
    }

    /** An overconsistent u: g(u) := rhs(u), then every neighbour is updated. */
    method Lower(u: Cell, start: Cell, goal: Cell)
      requires start in g && start in rhs && u in g && u in rhs
      requires rhs[u].Below(g[u])
      requires Covered(g, rhs, queue, {u})
      modifies this`g, this`rhs, this`queue
      ensures start in g && start in rhs
      ensures Covered(g, rhs, queue, {})
      ensures Get(rhs, goal) == Get(old(rhs), goal)
      ensures Get(g, u) == old(rhs[u])
      ensures forall c :: c != u ==> Get(g, c) == Get(old(g), c)
      ensures forall n :: n in Neighbors(env, rules, u) && n != goal ==> Get(rhs, n) == Rhs(env, rules, g, n)
      ensures forall c :: c !in Neighbors(env, rules, u) ==> Get(rhs, c) == Get(old(rhs), c)
    {
      g := g[u := rhs[u]];
      assert Covered(g, rhs, queue, {}) by {
        assert Get(g, u) == Get(rhs, u);
      }
      var ns := GetNeighbors(u);
      UpdateAll(ns, start, goal, {});
    }

    /** Any other u: g(u) := infinity, then every neighbour and u itself are updated. */
    method Raise(u: Cell, start: Cell, goal: Cell)
      requires start in g && start in rhs
      requires Covered(g, rhs, queue, {u})
      modifies this`g, this`rhs, this`queue
      ensures start in g && start in rhs
      ensures Covered(g, rhs, queue, {})
      ensures Get(rhs, goal) == Get(old(rhs), goal)
      ensures Get(g, u) == Inf
      ensures forall c :: c != u ==> Get(g, c) == Get(old(g), c)
      ensures forall n :: (n in Neighbors(env, rules, u) || n == u) && n != goal ==> Get(rhs, n) == Rhs(env, rules, g, n)
      ensures forall c :: c != u && c !in Neighbors(env, rules, u) ==> Get(rhs, c) == Get(old(rhs), c)
    {
      g := g[u := Inf];
      var ns := GetNeighbors(u);
      UpdateAll(ns, start, goal, {u});
      ghost var g1 := g;
      UpdateVertex(u, start, goal, {u});
      RhsSameCosts(env, rules, g1, g);
    }

    /** Takes the entry with the smallest key off the queue; its vertex is the one left uncovered. */
    method PopMin() returns (u: Cell)
      requires |queue| > 0 && Covered(g, rhs, queue, {})
      modifies this`queue
      ensures u == old(queue)[MinIndex(old(queue))].cell
      ensures queue == old(queue)[..MinIndex(old(queue))] + old(queue)[MinIndex(old(queue)) + 1..]
      ensures Covered(g, rhs, queue, {u})
    {
      var i := MinIndex(queue);
      u := queue[i].cell;
      ghost var q0 := queue;
      queue := queue[..i] + queue[i + 1..];
      forall c | c != u && Get(g, c) != Get(rhs, c)
        ensures Queued(queue, c)
      {
        var j :| 0 <= j < |q0| && q0[j].cell == c;
        assert q0[j] in queue by {
          if j < i {
            assert queue[j] == q0[j];
          } else {
            assert queue[j - 1] == q0[j];
          }
        }
      }
    }

    /**
     * The foreach that calls updateVertex on every vertex of ns, in order:
     * each of them but the goal ends with rhs recomputed from the final g,
     * every other rhs is kept, and g only gains infinite entries.
     */
    method UpdateAll(ns: seq<Cell>, start: Cell, goal: Cell, ghost except: set<Cell>)
      requires start in g && start in rhs
      requires Covered(g, rhs, queue, except)
      modifies this`g, this`rhs, this`queue
      ensures start in g && start in rhs
      ensures Covered(g, rhs, queue, except)
      ensures Get(rhs, goal) == Get(old(rhs), goal)
      ensures SameCosts(g, old(g))
      ensures forall n :: n in ns && n != goal ==> Get(rhs, n) == Rhs(env, rules, g, n)
      ensures forall c :: c !in ns ==> Get(rhs, c) == Get(old(rhs), c)
    {
      var i := 0;
      while i < |ns|
        invariant 0 <= i <= |ns|
        invariant start in g && start in rhs
        invariant Covered(g, rhs, queue, except)
        invariant Get(rhs, goal) == Get(old(rhs), goal)
        invariant SameCosts(g, old(g))
        invariant forall n :: n in ns[..i] && n != goal ==> Get(rhs, n) == Rhs(env, rules, g, n)
        invariant forall c :: c !in ns[..i] ==> Get(rhs, c) == Get(old(rhs), c)
      {
        ghost var g0 := g;
        UpdateVertex(ns[i], start, goal, except);
        RhsSameCosts(env, rules, g0, g);
        assert ns[..i + 1] == ns[..i] + [ns[i]];
        i := i + 1;
      }
      assert ns[..i] == ns;
    }

    /** The scan of findPath's walk: the first neighbour with the smallest finite g. */
    method NextStep(current: Cell) returns (next: Option<Cell>)
      modifies this`g
      ensures next == Step(env, rules, g, current)
      ensures SameCosts(g, old(g))
    {
      var ns := GetNeighbors(current);
      var minCost := Inf;
      next := None;
      var i := 0;
      while i < |ns|
        invariant 0 <= i <= |ns|
        invariant next == BestOf(g, ns[..i])
        invariant minCost == if next.Some? then Get(g, next.value) else Inf
        invariant SameCosts(g, old(g))
      {
        var n := ns[i];
        if n !in g {
          BestOfSameCosts(g, g[n := Inf], ns[..i]);
          g := g[n := Inf];
        }
        assert ns[..i + 1] == ns[..i] + [n];
        var cost := g[n];
        if cost.Below(minCost) {
          minCost := cost;
          next := Some(n);
        }
        i := i + 1;
      }
      assert ns[..i] == ns;
    }

    /**
     * The set-up of findPath: clear g, rhs, the queue and km, give the goal
     * g = infinity and rhs = 0, give the start g = infinity and its computed
     * rhs, and queue both.
     */
    method Initialize(start: Cell, goal: Cell)
      modifies this`g, this`rhs, this`queue, this`km
      ensures km == 0.0
      ensures forall c :: Get(g, c) == Inf
      ensures start in g && goal in g
      ensures rhs == map[goal := Fin(0.0)][start := Rhs(env, rules, g, start)]
      ensures |queue| == 2 && queue[0].cell == goal && queue[1].cell == start
      ensures queue[1].key == CalculateKey(start, start)
      ensures Covered(g, rhs, queue, {})
      ensures LookAhead(env, rules, g, rhs, goal)
    {
      g, rhs, queue, km := map[], map[], [], 0.0;

      g := g[goal := Inf];
      rhs := rhs[goal := Fin(0.0)];
      queue := queue + [Entry(CalculateKey(goal, start), goal)];

      g := g[start := Inf];
      var r := CalculateRHS(start);
      rhs := rhs[start := r];
      queue := queue + [Entry(CalculateKey(start, start), start)];
      assert Covered(g, rhs, queue, {}) by {
        forall c | Get(g, c) != Get(rhs, c)
          ensures Queued(queue, c)
        {
          if c == start {
            assert queue[1].cell == start;
          } else {
            assert queue[0].cell == goal;
          }
        }
      }
      RhsAllInf(env, rules, g);
    }

    /**
     * The walk of findPath: from the start, record the vertex and move to
     * its first neighbour of smallest finite g, until the goal is reached;
     * no such neighbour means no path. fuel bounds the walk, which has no
     * bound in the source: it runs out only after fuel steps of the
     * descent, short of the goal.
     */
    method WalkDown(start: Cell, goal: Cell, fuel: nat) returns (answer: Answer, ghost cells: seq<Cell>)
      modifies this`g
      ensures SameCosts(g, old(g))
      ensures answer.Found? ==>
        Descent(env, rules, g, cells, start, goal) && cells[|cells| - 1] == goal && answer.path == Centers(cells)
      ensures answer.NoPath? ==>
        Descent(env, rules, g, cells, start, goal) && cells[|cells| - 1] != goal
        && Step(env, rules, g, cells[|cells| - 1]).None?
      ensures answer.OutOfFuel? ==>
        Descent(env, rules, g, cells, start, goal) && |cells| == fuel + 1 && cells[|cells| - 1] != goal
      ensures Get(g, start) == Get(old(g), start)
    {
      ghost var g0 := g;
      var current := start;
      var path: seq<Vec> := [];
      cells := [start];
      var steps := fuel;
      while current != goal
        invariant Descent(env, rules, g0, cells, start, goal) && cells[|cells| - 1] == current
        invariant path == Centers(cells[..|cells| - 1])
        invariant SameCosts(g, g0)
        invariant |cells| + steps == fuel + 1
        decreases steps
      {
        if steps == 0 {
          DescentSameCosts(g0, g, cells, start, goal);
          return OutOfFuel, cells;
        }
        steps := steps - 1;
        path := path + [Center(current)];
        var next := NextStep(current);
        BestOfSameCosts(g, g0, Neighbors(env, rules, current));
        if next.None? {
          answer := NoPath;
          DescentSameCosts(g0, g, cells, start, goal);
          return;
        }
        DescentGrows(env, rules, g0, cells, start, goal, next.value);
        assert (cells + [next.value])[..|cells|] == cells;
        current := next.value;
        cells := cells + [current];
      }
      path := path + [Center(goal)];
      answer := Found(path);
      DescentSameCosts(g0, g, cells, start, goal);
    }

    /**
     * findPath: set up, run computeShortestPath, answer no path when the
     * start's g stays infinite, else walk down g from the start. Fuel runs
     * out either in computeShortestPath, after fuel settled vertices, or
     * in the walk, after fuel steps.
     */
    method FindPath(startV: Vec, targetV: Vec, fuel: nat)
      returns (answer: Answer, ghost cells: seq<Cell>, ghost settled: seq<Cell>, ghost finished: bool)
      modifies this`g, this`rhs, this`queue, this`km
      ensures km == 0.0
      ensures FloorCell(startV) != FloorCell(targetV) ==> Get(rhs, FloorCell(targetV)) == Fin(0.0)
      ensures answer.Found? ==>
        Get(g, FloorCell(startV)).Fin?
        && Descent(env, rules, g, cells, FloorCell(startV), FloorCell(targetV))
        && cells[|cells| - 1] == FloorCell(targetV)
        && answer.path == Centers(cells)
      ensures answer.NoPath? ==>
        Get(g, FloorCell(startV)).Inf?
        || (Descent(env, rules, g, cells, FloorCell(startV), FloorCell(targetV))
            && cells[|cells| - 1] != FloorCell(targetV)
            && Step(env, rules, g, cells[|cells| - 1]).None?)
      ensures finished ==>
        |settled| <= fuel
        && (|queue| == 0
            || (!KeyBelow(queue[MinIndex(queue)].key, CalculateKey(FloorCell(startV), FloorCell(startV)))
                && Get(rhs, FloorCell(startV)) == Get(g, FloorCell(startV))))
      ensures !finished ==> answer.OutOfFuel? && |settled| == fuel && |queue| > 0
      ensures finished && Get(g, FloorCell(startV)).Inf? ==> answer.NoPath?
      ensures finished && answer.OutOfFuel? ==>
        Descent(env, rules, g, cells, FloorCell(startV), FloorCell(targetV))
        && |cells| == fuel + 1 && cells[|cells| - 1] != FloorCell(targetV)
      ensures Symmetric(env, rules) ==> LookAhead(env, rules, g, rhs, FloorCell(targetV))
    {
      ghost var searched;
      answer, cells, settled, finished, searched := Plan(FloorCell(startV), FloorCell(targetV), fuel);
      LookAheadSameCosts(env, rules, searched, g, rhs, FloorCell(targetV));
    }

    /** The body of findPath between the start's and the goal's cells. */
    method Plan(start: Cell, goal: Cell, fuel: nat)
      returns (answer: Answer, ghost cells: seq<Cell>, ghost settled: seq<Cell>, ghost finished: bool,
               ghost searched: map<Cell, Cost>)
      modifies this`g, this`rhs, this`queue, this`km
      ensures km == 0.0
      ensures start != goal ==> Get(rhs, goal) == Fin(0.0)
      ensures answer.Found? ==>
        Get(g, start).Fin? && Descent(env, rules, g, cells, start, goal) && cells[|cells| - 1] == goal
        && answer.path == Centers(cells)
      ensures answer.NoPath? ==>
        Get(g, start).Inf?
        || (Descent(env, rules, g, cells, start, goal) && cells[|cells| - 1] != goal && Step(env, rules, g, cells[|cells| - 1]).None?)
      ensures finished ==>
        |settled| <= fuel
        && (|queue| == 0 || (!KeyBelow(queue[MinIndex(queue)].key, CalculateKey(start, start)) && Get(rhs, start) == Get(g, start)))
      ensures !finished ==> answer.OutOfFuel? && |settled| == fuel && |queue| > 0
      ensures finished && Get(g, start).Inf? ==> answer.NoPath?
      ensures finished && answer.OutOfFuel? ==>
        Descent(env, rules, g, cells, start, goal) && |cells| == fuel + 1 && cells[|cells| - 1] != goal
      ensures SameCosts(searched, g)
      ensures Symmetric(env, rules) ==> LookAhead(env, rules, searched, rhs, goal)
    {
      var done;
      done, settled := Search(start, goal, fuel);
      finished, cells, searched := done, [start], g;
      if !done {
        answer := OutOfFuel;
      } else if g[start] == Inf {
        answer := NoPath;
      } else {
        answer, cells := WalkDown(start, goal, fuel);
      }
    }

    /** Initialise the search and run it until the start is settled or the fuel runs out. */
    method Search(start: Cell, goal: Cell, fuel: nat) returns (finished: bool, ghost settled: seq<Cell>)
      modifies this`g, this`rhs, this`queue, this`km
      ensures km == 0.0
      ensures start in g && start in rhs
      ensures start != goal ==> Get(rhs, goal) == Fin(0.0)
      ensures Symmetric(env, rules) ==> LookAhead(env, rules, g, rhs, goal)
      ensures finished ==>
        |settled| <= fuel
        && (|queue| == 0 || (!KeyBelow(queue[MinIndex(queue)].key, CalculateKey(start, start)) && rhs[start] == g[start]))
      ensures !finished ==> |settled| == fuel && |queue| > 0
    {
      Initialize(start, goal);
      assert start != goal ==> Get(rhs, goal) == Fin(0.0);
      finished, settled := ComputeShortestPath(start, goal, fuel);
    }

    lemma DescentSameCosts(g1: map<Cell, Cost>, g2: map<Cell, Cost>, cells: seq<Cell>, start: Cell, goal: Cell)
      requires SameCosts(g1, g2)
      requires Descent(env, rules, g1, cells, start, goal)
      ensures Descent(env, rules, g2, cells, start, goal)
    {
      forall k | 0 <= k < |cells| - 1
        ensures Step(env, rules, g2, cells[k]) == Some(cells[k + 1])
      {
        BestOfSameCosts(g1, g2, Neighbors(env, rules, cells[k]));
      }
    }
  }
}
