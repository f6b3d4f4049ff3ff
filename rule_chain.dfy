/**
 * Movement rules and the rule chains both search engines run: a move (or
 * a place to stand) is accepted only when every rule accepts it, the
 * rules are asked in list order and the first refusal ends the query. A
 * rule may move the candidate target vertically and may change the cost
 * accumulator; both changes are threaded from one rule to the next.
 *
 * The A* engine also re-orders its rules once per search: one rule per
 * (priority, class), the last one supplied winning, highest priority first.
 */
module RuleChain {
  import opened Basics
  import EntitySize

  const ENTITY_SIZE_RULE_CLASS: string := "matze\\pathfinder\\rule\\default\\EntitySizeRule"

  /**
   * A movement rule. The entity-size rule is modelled in full; rules of
   * other classes carry their class name and an identifier under which
   * the host answers their queries.
   */
  datatype Rule =
    | EntitySizeRule(priority: int, halfWidth: int, height: int)
    | OtherRule(priority: int, className: string, id: nat)

  function ClassName(r: Rule): string
  {
    match r
    case EntitySizeRule(_, _, _) => ENTITY_SIZE_RULE_CLASS
    case OtherRule(_, name, _) => name
  }

  /** The answers of the host for rules of other classes: (accepted, new target y, new cost) and (accepted, new cost). */
  datatype ExternalRules = ExternalRules(
    walk: (nat, Vec, Vec, int) -> (bool, real, int),
    stand: (nat, Vec, int) -> (bool, int))

  /** What a rule may consult: the world, the settings, and the host for foreign rules. */
  datatype Env = Env(world: World, settings: Settings, external: ExternalRules)

  /** The state of a walk query after a rule: accepted?, the candidate target, the cost accumulator. */
  datatype Walk = Walk(ok: bool, target: Vec, cost: int)

  /** The state of a stand query after a rule: accepted?, the cost accumulator. */
  datatype Stand = Stand(ok: bool, cost: int)

  /** couldWalkTo of one rule. */
  ghost function RuleWalk(env: Env, r: Rule, current: Vec, target: Vec, cost: int): (v: Walk)
    ensures v.target.x == target.x && v.target.z == target.z
    ensures r.EntitySizeRule? ==> v.cost == cost
    ensures r.EntitySizeRule? && !v.ok ==> v.target == target
  {
    match r
    case EntitySizeRule(_, halfWidth, height) =>
      var a := EntitySize.WalkAdjustment(env.world, halfWidth, height, env.settings, FloorCell(current), FloorCell(target));
      if a.Some? then Walk(true, target.(y := target.y + a.value as real), cost) else Walk(false, target, cost)
    case OtherRule(_, _, id) =>
      var answer := env.external.walk(id, current, target, cost);
      Walk(answer.0, target.(y := answer.1), answer.2)
  }

  /** couldStandAt of one rule. */
  ghost function RuleStand(env: Env, r: Rule, target: Vec, cost: int): (v: Stand)
    ensures r.EntitySizeRule? ==> v.cost == cost
  {
    match r
    case EntitySizeRule(_, halfWidth, height) =>
      Stand(EntitySize.Standable(env.world, halfWidth, height, FloorCell(target)), cost)
    case OtherRule(_, _, id) =>
      var answer := env.external.stand(id, target, cost);
      Stand(answer.0, answer.1)
  }

  /** The walk chain: rules in list order, stopping at the first refusal. */
  ghost function WalkChain(env: Env, rules: seq<Rule>, current: Vec, target: Vec, cost: int): Walk
    decreases |rules|
  {
    if rules == [] then Walk(true, target, cost)
    else
      var v := RuleWalk(env, rules[0], current, target, cost);
      if !v.ok then v else WalkChain(env, rules[1..], current, v.target, v.cost)
  }

  /** The stand chain: rules in list order, stopping at the first refusal. */
  ghost function StandChain(env: Env, rules: seq<Rule>, target: Vec, cost: int): Stand
    decreases |rules|
  {
    if rules == [] then Stand(true, cost)
    else
      var v := RuleStand(env, rules[0], target, cost);
      if !v.ok then v else StandChain(env, rules[1..], target, v.cost)
  }

  /** $rule->couldWalkTo(...), dispatched on the rule's class. */
  method CouldWalkTo(env: Env, r: Rule, current: Vec, target: Vec, cost: int) returns (ok: bool, target': Vec, cost': int)
    ensures Walk(ok, target', cost') == RuleWalk(env, r, current, target, cost)
  {
    match r
    case EntitySizeRule(_, halfWidth, height) =>
      ok, target' := EntitySize.CouldWalkTo(env.world, halfWidth, height, env.settings, current, target);
      cost' := cost;
    case OtherRule(_, _, id) =>
      var answer := env.external.walk(id, current, target, cost);
      ok, target', cost' := answer.0, target.(y := answer.1), answer.2;
  }

  /** $rule->couldStandAt(...), dispatched on the rule's class. */
  method CouldStandAt(env: Env, r: Rule, target: Vec, cost: int) returns (ok: bool, cost': int)
    ensures Stand(ok, cost') == RuleStand(env, r, target, cost)
  {
    match r
    case EntitySizeRule(_, halfWidth, height) =>
      ok := EntitySize.CouldStandAt(env.world, halfWidth, height, target);
      cost' := cost;
    case OtherRule(_, _, id) =>
      var answer := env.external.stand(id, target, cost);
      ok, cost' := answer.0, answer.1;
  }

  /** isNicePositionToWalk: true iff every rule accepts; the target and the cost come back as the rules left them. */
  method IsNicePositionToWalk(env: Env, rules: seq<Rule>, current: Vec, target: Vec, cost: int)
    returns (ok: bool, target': Vec, cost': int)
    ensures Walk(ok, target', cost') == WalkChain(env, rules, current, target, cost)
  {
    target', cost' := target, cost;
    var i := 0;
    while i < |rules|
      invariant 0 <= i <= |rules|
      invariant WalkChain(env, rules, current, target, cost) == WalkChain(env, rules[i..], current, target', cost')
    {
      ok, target', cost' := CouldWalkTo(env, rules[i], current, target', cost');
      if !ok {
        return;
      }
      i := i + 1;
    }
    ok := true;
  }

  /** isNicePositionToStand: true iff every rule accepts; the cost comes back as the rules left it. */
  method IsNicePositionToStand(env: Env, rules: seq<Rule>, target: Vec, cost: int) returns (ok: bool, cost': int)
    ensures Stand(ok, cost') == StandChain(env, rules, target, cost)
  {
    cost' := cost;
    var i := 0;
    while i < |rules|
      invariant 0 <= i <= |rules|
      invariant StandChain(env, rules, target, cost) == StandChain(env, rules[i..], target, cost')
    {
      ok, cost' := CouldStandAt(env, rules[i], target, cost');
      if !ok {
        return;
      }
      i := i + 1;
    }
    ok := true;
  }

  /**
   * Running a + b is running a, then, only if a accepted, running b on
   * what a left. In particular a refusal inside a is final: the rules of
   * b are never consulted.
   */
  lemma {:induction false} WalkChainAppend(env: Env, a: seq<Rule>, b: seq<Rule>, current: Vec, target: Vec, cost: int)
    ensures var va := WalkChain(env, a, current, target, cost);
      WalkChain(env, a + b, current, target, cost)
      == if va.ok then WalkChain(env, b, current, va.target, va.cost) else va
    decreases |a|
  {
    if a != [] {
      assert (a + b)[1..] == a[1..] + b;
      var v := RuleWalk(env, a[0], current, target, cost);
      if v.ok {
        WalkChainAppend(env, a[1..], b, current, v.target, v.cost);
      }
    } else {
      assert a + b == b;
    }
  }

  /** The stand chain composes the same way. */
  lemma {:induction false} StandChainAppend(env: Env, a: seq<Rule>, b: seq<Rule>, target: Vec, cost: int)
    ensures var va := StandChain(env, a, target, cost);
      StandChain(env, a + b, target, cost)
      == if va.ok then StandChain(env, b, target, va.cost) else va
    decreases |a|
  {
    if a != [] {
      assert (a + b)[1..] == a[1..] + b;
      var v := RuleStand(env, a[0], target, cost);
      if v.ok {
        StandChainAppend(env, a[1..], b, target, v.cost);
      }
    } else {
      assert a + b == b;
    }
  }

  /** The walk chain accepts iff each rule accepts the candidate as the rules before it left it. */
  lemma {:induction false} WalkChainAllAccept(env: Env, rules: seq<Rule>, current: Vec, target: Vec, cost: int)
    ensures WalkChain(env, rules, current, target, cost).ok <==>
      forall i :: 0 <= i < |rules| ==>
        WalkChain(env, rules[..i], current, target, cost).ok
        && RuleWalk(env, rules[i], current, WalkChain(env, rules[..i], current, target, cost).target,
                    WalkChain(env, rules[..i], current, target, cost).cost).ok
    decreases |rules|
  {
    if rules != [] {
      var n := |rules|;
      WalkChainAllAccept(env, rules[..n - 1], current, target, cost);
      WalkChainAppend(env, rules[..n - 1], [rules[n - 1]], current, target, cost);
      assert rules[..n - 1] + [rules[n - 1]] == rules;
      forall i | 0 <= i < n - 1
        ensures rules[..n - 1][..i] == rules[..i] && rules[..n - 1][i] == rules[i]
      {
      }
      assert rules[..n] == rules;
    }
  }

  /**
   * A refusing walk chain answers exactly what its first refusing rule
   * answered, given the candidate as the accepting rules before it left it.
   */
  lemma {:induction false} WalkChainRefusal(env: Env, rules: seq<Rule>, current: Vec, target: Vec, cost: int)
    returns (k: nat)
    requires !WalkChain(env, rules, current, target, cost).ok
    ensures k < |rules|
    ensures WalkChain(env, rules[..k], current, target, cost).ok
    ensures WalkChain(env, rules, current, target, cost)
      == RuleWalk(env, rules[k], current, WalkChain(env, rules[..k], current, target, cost).target,
                  WalkChain(env, rules[..k], current, target, cost).cost)
    decreases |rules|
  {
    var n := |rules|;
    var front := rules[..n - 1];
    WalkChainAppend(env, front, [rules[n - 1]], current, target, cost);
    assert front + [rules[n - 1]] == rules;
    if WalkChain(env, front, current, target, cost).ok {
      k := n - 1;
    } else {
      k := WalkChainRefusal(env, front, current, target, cost);
      assert front[..k] == rules[..k];
    }
  }
  /** The stand chain accepts iff each rule accepts, with the cost as the rules before it left it. */
  lemma {:induction false} StandChainAllAccept(env: Env, rules: seq<Rule>, target: Vec, cost: int)
    ensures StandChain(env, rules, target, cost).ok <==>
      forall i :: 0 <= i < |rules| ==>
        RuleStand(env, rules[i], target, StandChain(env, rules[..i], target, cost).cost).ok
        && StandChain(env, rules[..i], target, cost).ok
    decreases |rules|
  {
    if rules != [] {
      var n := |rules|;
      StandChainAllAccept(env, rules[..n - 1], target, cost);
      StandChainAppend(env, rules[..n - 1], [rules[n - 1]], target, cost);
      assert rules[..n - 1] + [rules[n - 1]] == rules;
      forall i | 0 <= i < n - 1
        ensures rules[..n - 1][..i] == rules[..i] && rules[..n - 1][i] == rules[i]
      {
      }
      assert rules[..n] == rules;
    }
  }

  /* ---------------------------------------------------------------- */
  /* Re-ordering of the rules by findPath of the A* engine.           */
  /* ---------------------------------------------------------------- */

  /** The array key a rule is stored under: "<priority>_<class>". */
  datatype RuleKey = RuleKey(priority: int, className: string)

  function KeyOf(r: Rule): RuleKey
  {
    RuleKey(r.priority, ClassName(r))
  }

  /** The position of key k in a keyed table, or -1. */
  function IndexOfKey(table: seq<Rule>, k: RuleKey): (i: int)
    ensures -1 <= i < |table|
    ensures i >= 0 ==> KeyOf(table[i]) == k
    ensures i == -1 <==> forall j :: 0 <= j < |table| ==> KeyOf(table[j]) != k
    decreases |table|
  {
    if table == [] then -1
    else if KeyOf(table[|table| - 1]) == k then |table| - 1
    else IndexOfKey(table[..|table| - 1], k)
  }

  /** $rules[key] = $rule on an ordered PHP array: an existing key keeps its place and gets the new rule. */
  function Assign(table: seq<Rule>, r: Rule): seq<Rule>
  {
    var i := IndexOfKey(table, KeyOf(r));
    if i >= 0 then table[i := r] else table + [r]
  }

  /** The keyed table the foreach of findPath builds. */
  function Keyed(rules: seq<Rule>): seq<Rule>
    decreases |rules|
  {
    if rules == [] then [] else Assign(Keyed(rules[..|rules| - 1]), rules[|rules| - 1])
  }

  /** The foreach of findPath that stores every rule under its key. */
  method KeyRules(rules: seq<Rule>) returns (table: seq<Rule>)
    ensures table == Keyed(rules)
  {
    table := [];
    var i := 0;
    while i < |rules|
      invariant 0 <= i <= |rules|
      invariant table == Keyed(rules[..i])
    {
      assert rules[..i + 1][..i] == rules[..i];
      table := Assign(table, rules[i]);
      i := i + 1;
    }
    assert rules[..i] == rules;
  }

  /** Inserts r into a priority-descending list after every rule of at least its priority. */
  function InsertByPriority(sorted: seq<Rule>, r: Rule): seq<Rule>
    decreases |sorted|
  {
    if sorted == [] then [r]
    else if sorted[|sorted| - 1].priority >= r.priority then sorted + [r]
    else InsertByPriority(sorted[..|sorted| - 1], r) + [sorted[|sorted| - 1]]
  }

  /** krsort(SORT_NUMERIC) of the keyed table: the numeric value of "<priority>_<class>" is the priority; PHP's sort is stable. */
  function SortByPriority(table: seq<Rule>): seq<Rule>
    decreases |table|
  {
    if table == [] then [] else InsertByPriority(SortByPriority(table[..|table| - 1]), table[|table| - 1])
  }

  /** The rule list findPath stores back: keyed, then sorted by priority. */
  function SortRules(rules: seq<Rule>): seq<Rule>
  {
    SortByPriority(Keyed(rules))
  }

  /** The last rule supplied under key k, if any. */
  function LastWithKey(rules: seq<Rule>, k: RuleKey): Option<Rule>
    decreases |rules|
  {
    if rules == [] then None
    else if KeyOf(rules[|rules| - 1]) == k then Some(rules[|rules| - 1])
    else LastWithKey(rules[..|rules| - 1], k)
  }

  ghost predicate DistinctKeys(s: seq<Rule>)
  {
    forall i, j :: 0 <= i < j < |s| ==> KeyOf(s[i]) != KeyOf(s[j])
  }

  ghost predicate PriorityDescending(s: seq<Rule>)
  {
    forall i, j :: 0 <= i < j < |s| ==> s[i].priority >= s[j].priority
  }

  /** The keyed table holds one rule per key: the last one supplied under it. */
  lemma {:induction false} KeyedCollapses(rules: seq<Rule>)
    ensures DistinctKeys(Keyed(rules))
    ensures forall x :: x in Keyed(rules) <==> LastWithKey(rules, KeyOf(x)) == Some(x)
    decreases |rules|
  {
    if rules != [] {
      var front, r := rules[..|rules| - 1], rules[|rules| - 1];
      KeyedCollapses(front);
      var t := Keyed(front);
      var i := IndexOfKey(t, KeyOf(r));
      if i >= 0 {
        var t' := t[i := r];
        assert Keyed(rules) == t';
        forall x
          ensures x in t' <==> LastWithKey(rules, KeyOf(x)) == Some(x)
        {
          if KeyOf(x) == KeyOf(r) {
            assert t'[i] == r;
            if x in t' {
              var j :| 0 <= j < |t'| && t'[j] == x;
            }
          } else {
            if x in t' {
              var j :| 0 <= j < |t'| && t'[j] == x;
              assert t[j] == x;
            }
            if x in t {
              var j :| 0 <= j < |t| && t[j] == x;
              assert t'[j] == x;
            }
          }
        }
      } else {
        assert Keyed(rules) == t + [r];
        forall x
          ensures x in t + [r] <==> LastWithKey(rules, KeyOf(x)) == Some(x)
        {
          if x in t {
            var j :| 0 <= j < |t| && t[j] == x;
          }
        }
      }
    }
  }

  /** Inserting keeps every rule and adds r. */
  lemma {:induction false} InsertByPriorityMultiset(sorted: seq<Rule>, r: Rule)
    ensures multiset(InsertByPriority(sorted, r)) == multiset(sorted) + multiset{r}
    decreases |sorted|
  {
    if sorted != [] && sorted[|sorted| - 1].priority < r.priority {
      InsertByPriorityMultiset(sorted[..|sorted| - 1], r);
      assert sorted == sorted[..|sorted| - 1] + [sorted[|sorted| - 1]];
    }
  }

  /** Every rule of InsertByPriority(sorted, r) is r or a rule of sorted. */
  lemma InsertByPriorityMembers(sorted: seq<Rule>, r: Rule, i: nat)
    requires i < |InsertByPriority(sorted, r)|
    ensures InsertByPriority(sorted, r)[i] == r || InsertByPriority(sorted, r)[i] in sorted
  {
    var ins := InsertByPriority(sorted, r);
    InsertByPriorityMultiset(sorted, r);
    assert ins[i] in multiset(ins);
  }

  /** Inserting into a priority-descending list keeps it priority-descending. */
  lemma {:induction false} InsertByPrioritySorted(sorted: seq<Rule>, r: Rule)
    requires PriorityDescending(sorted)
    ensures PriorityDescending(InsertByPriority(sorted, r))
    decreases |sorted|
  {
    if sorted != [] && sorted[|sorted| - 1].priority < r.priority {
      var front, last := sorted[..|sorted| - 1], sorted[|sorted| - 1];
      InsertByPrioritySorted(front, r);
      var ins := InsertByPriority(front, r);
      forall i | 0 <= i < |ins|
        ensures ins[i].priority >= last.priority
      {
        InsertByPriorityMembers(front, r, i);
        if ins[i] != r {
          var j :| 0 <= j < |front| && front[j] == ins[i];
          assert sorted[j] == front[j];
        }
      }
    }
  }

  /** Inserting a rule whose key is new into a list of distinct keys keeps the keys distinct. */
  lemma {:induction false} InsertByPriorityDistinct(sorted: seq<Rule>, r: Rule)
    requires DistinctKeys(sorted)
    requires forall x :: x in sorted ==> KeyOf(x) != KeyOf(r)
    ensures DistinctKeys(InsertByPriority(sorted, r))
    decreases |sorted|
  {
    if sorted != [] && sorted[|sorted| - 1].priority < r.priority {
      var front, last := sorted[..|sorted| - 1], sorted[|sorted| - 1];
      assert forall x :: x in front ==> x in sorted;
      InsertByPriorityDistinct(front, r);
      var ins := InsertByPriority(front, r);
      forall i | 0 <= i < |ins|
        ensures KeyOf(ins[i]) != KeyOf(last)
      {
        InsertByPriorityMembers(front, r, i);
        if ins[i] != r {
          var j :| 0 <= j < |front| && front[j] == ins[i];
          assert sorted[j] == front[j] && sorted[|sorted| - 1] == last;
        }
      }
    }
  }

  /** The sort only re-orders: it keeps every rule, yields priority-descending order and keeps keys distinct. */
  lemma {:induction false} SortByPriorityProps(table: seq<Rule>)
    ensures multiset(SortByPriority(table)) == multiset(table)
    ensures PriorityDescending(SortByPriority(table))
    ensures DistinctKeys(table) ==> DistinctKeys(SortByPriority(table))
    decreases |table|
  {
    if table != [] {
      var front, last := table[..|table| - 1], table[|table| - 1];
      SortByPriorityProps(front);
      var s := SortByPriority(front);
      InsertByPriorityMultiset(s, last);
      InsertByPrioritySorted(s, last);
      if DistinctKeys(table) {
        forall x | x in s
          ensures KeyOf(x) != KeyOf(last)
        {
          assert x in multiset(front);
          var j :| 0 <= j < |front| && front[j] == x;
          assert table[j] == x;
        }
        InsertByPriorityDistinct(s, last);
      }
      assert table == front + [last];
    }
  }

  /**
   * findPath's rule re-ordering: the result is in non-increasing priority
   * order, holds exactly one rule per (priority, class) key — the last
   * one supplied under that key — and nothing else.
   */
  lemma SortRulesSpec(rules: seq<Rule>)
    ensures PriorityDescending(SortRules(rules))
    ensures DistinctKeys(SortRules(rules))
    ensures forall x :: x in SortRules(rules) <==> LastWithKey(rules, KeyOf(x)) == Some(x)
    ensures forall i :: 0 <= i < |rules| ==> exists x :: x in SortRules(rules) && KeyOf(x) == KeyOf(rules[i])
  {
    KeyedCollapses(rules);
    SortByPriorityProps(Keyed(rules));
    forall x
      ensures x in SortRules(rules) <==> x in Keyed(rules)
    {
      assert x in SortRules(rules) <==> x in multiset(SortRules(rules));
    }
    forall i | 0 <= i < |rules|
      ensures exists x :: x in SortRules(rules) && KeyOf(x) == KeyOf(rules[i])
    {
      var x := LastWithKeyExists(rules, i);
    }
  }
  /** Every key that is supplied has a last rule. */
  lemma {:induction false} LastWithKeyExists(rules: seq<Rule>, i: nat) returns (x: Rule)
    requires i < |rules|
    ensures LastWithKey(rules, KeyOf(rules[i])) == Some(x) && KeyOf(x) == KeyOf(rules[i])
    decreases |rules|
  {
    var n := |rules|;
    if KeyOf(rules[n - 1]) == KeyOf(rules[i]) {
      x := rules[n - 1];
    } else {
      assert i < n - 1;
      x := LastWithKeyExists(rules[..n - 1], i);
    }
  }
}
