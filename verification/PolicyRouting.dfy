/** The iproute2 policy router: plans applied command by command to kernel tables, while a state
    file per policy records what was installed. */
module PolicyRouting {
  import opened Collections
  import opened NetIP
  import opened Plans
  import opened Policies

  // --- commands on one table ----------------------------------------------------

  /** ip route del / ip route add */
  datatype Command = Del(p: Prefix) | Add(p: Prefix)

  /** The kernel refuses to delete a missing route and to add an existing one. */
  predicate Applicable(table: set<Prefix>, c: Command) {
    match c
    case Del(p) => p in table
    case Add(p) => p !in table
  }

  function Exec(table: set<Prefix>, c: Command): set<Prefix> {
    match c
    case Del(p) => table - {p}
    case Add(p) => table + {p}
  }

  /** applyFamily's commands: all removals, then all additions. */
  function Commands(plan: Plan): (cs: seq<Command>)
    ensures |cs| == |plan.remove| + |plan.add|
  {
    seq(|plan.remove|, i requires 0 <= i < |plan.remove| => Del(plan.remove[i]))
    + seq(|plan.add|, i requires 0 <= i < |plan.add| => Add(plan.add[i]))
  }

  /** The table after the first k commands. */
  function After(table: set<Prefix>, cs: seq<Command>, k: nat): set<Prefix>
    requires k <= |cs|
  {
    if k == 0 then table else Exec(After(table, cs, k - 1), cs[k - 1])
  }

  /** Command i goes through after its predecessors. */
  predicate GoesThrough(table: set<Prefix>, cs: seq<Command>, i: nat)
    requires i < |cs|
  {
    Applicable(After(table, cs, i), cs[i])
  }

  /** The first k commands all go through. */
  predicate RunsTo(table: set<Prefix>, cs: seq<Command>, k: nat)
    requires k <= |cs|
  {
    k == 0 || (RunsTo(table, cs, k - 1) && GoesThrough(table, cs, k - 1))
  }

  lemma {:induction false} RunsToMeaning(table: set<Prefix>, cs: seq<Command>, k: nat)
    requires k <= |cs|
    ensures RunsTo(table, cs, k) <==> forall i: nat | i < k :: GoesThrough(table, cs, i)
    decreases k
  {
    if k > 0 {
      RunsToMeaning(table, cs, k - 1);
    }
  }

  lemma {:induction false} AfterMeaning(table: set<Prefix>, plan: Plan, k: nat)
    requires k <= |Commands(plan)|
    ensures After(table, Commands(plan), k) ==
            var r := if k <= |plan.remove| then k else |plan.remove|;
            table - Elems(plan.remove[..r]) + Elems(plan.add[..k - r])
    decreases k
  {
    if k > 0 {
      AfterMeaning(table, plan, k - 1);
      if k <= |plan.remove| {
        assert plan.remove[..k] == plan.remove[..k - 1] + [plan.remove[k - 1]];
      } else {
        var j := k - |plan.remove|;
        assert plan.add[..j] == plan.add[..j - 1] + [plan.add[j - 1]];
      }
    }
  }

  /** A family's own routes, next to routes of the table that neither side of the plan mentions. */
  ghost predicate Aside(rest: set<Prefix>, current: seq<Prefix>, desired: seq<Prefix>) {
    rest !! Elems(current) && rest !! Elems(desired)
  }

  /** Wherever applyFamily stops, the table keeps what old and new state share, and holds
      nothing outside the two; once all commands ran it is the desired set. */
  lemma TableStaysBetween(current: seq<Prefix>, desired: seq<Prefix>, family: Family, rest: set<Prefix>, k: nat)
    requires Aside(rest, current, desired)
    requires k <= |Commands(Diff(current, desired, family))|
    ensures var t := After(Elems(current) + rest, Commands(Diff(current, desired, family)), k);
            && Elems(current) * Elems(desired) + rest <= t <= Elems(current) + Elems(desired) + rest
            && (k == |Commands(Diff(current, desired, family))| ==> t == Elems(desired) + rest)
  {
    var plan := Diff(current, desired, family);
    AfterMeaning(Elems(current) + rest, plan, k);
    WithoutElems(desired, Elems(current));
    WithoutElems(current, Elems(desired));
    var r := if k <= |plan.remove| then k else |plan.remove|;
    assert Elems(plan.remove[..r]) <= Elems(plan.remove) && Elems(plan.add[..k - r]) <= Elems(plan.add);
    if k == |Commands(plan)| {
      assert plan.remove[..r] == plan.remove && plan.add[..k - r] == plan.add;
    }
  }

  /** A command of a plan goes through, after its predecessors, unless it repeats one of them. */
  lemma CommandGoesThrough(current: seq<Prefix>, desired: seq<Prefix>, family: Family, rest: set<Prefix>, i: nat)
    requires Aside(rest, current, desired)
    requires i < |Commands(Diff(current, desired, family))|
    ensures var plan, table := Diff(current, desired, family), Elems(current) + rest;
            GoesThrough(table, Commands(plan), i) <==>
              if i < |plan.remove| then plan.remove[i] !in plan.remove[..i]
              else plan.add[i - |plan.remove|] !in plan.add[..i - |plan.remove|]
  {
    var plan := Diff(current, desired, family);
    AfterMeaning(Elems(current) + rest, plan, i);
    WithoutElems(desired, Elems(current));
    WithoutElems(current, Elems(desired));
    if i < |plan.remove| {
      assert plan.remove[i] in Elems(plan.remove);
    } else {
      assert plan.add[i - |plan.remove|] in Elems(plan.add);
    }
  }

  predicate Runnable(plan: Plan) {
    NoDup(plan.remove) && NoDup(plan.add)
  }

  /** On a table that matches the state, a plan runs through exactly if it repeats no entry. */
  lemma PlanRunsIff(current: seq<Prefix>, desired: seq<Prefix>, family: Family, rest: set<Prefix>)
    requires Aside(rest, current, desired)
    ensures var plan := Diff(current, desired, family);
            RunsTo(Elems(current) + rest, Commands(plan), |Commands(plan)|) <==> Runnable(plan)
  {
    var plan, table := Diff(current, desired, family), Elems(current) + rest;
    forall i: nat | i < |Commands(plan)|
      ensures GoesThrough(table, Commands(plan), i) <==>
              if i < |plan.remove| then plan.remove[i] !in plan.remove[..i]
              else plan.add[i - |plan.remove|] !in plan.add[..i - |plan.remove|]
    {
      CommandGoesThrough(current, desired, family, rest, i);
    }
    RunsToMeaning(table, Commands(plan), |Commands(plan)|);
    FreshEntries(plan.remove);
    FreshEntries(plan.add);
    if RunsTo(table, Commands(plan), |Commands(plan)|) {
      forall i: nat | i < |plan.add|
        ensures plan.add[i] !in plan.add[..i]
      {
        assert GoesThrough(table, Commands(plan), i + |plan.remove|);
      }
    }
  }

  lemma FreshEntries(xs: seq<Prefix>)
    ensures NoDup(xs) <==> forall i: nat | i < |xs| :: xs[i] !in xs[..i]
  {
    if NoDup(xs) {
    } else {
      var i, j :| 0 <= i < j < |xs| && xs[i] == xs[j];
      assert xs[..j][i] == xs[j];
    }
  }

  /** A plan that stopped partway, with the state file left as it was, cannot be resumed: the same
      call fails at its first command, which already went through. Only a plan that stopped before
      its first command, and repeats no entry, runs through the next time. */
  lemma RetryRunsIff(current: seq<Prefix>, desired: seq<Prefix>, family: Family, rest: set<Prefix>, k: nat)
    requires Aside(rest, current, desired)
    requires k <= |Commands(Diff(current, desired, family))|
    ensures var plan, table := Diff(current, desired, family), Elems(current) + rest;
            var cs := Commands(plan);
            && (RunsTo(After(table, cs, k), cs, |cs|) <==> k == 0 && Runnable(plan))
            && (k > 0 ==> !Applicable(After(table, cs, k), cs[0]))
  {
    var plan, table := Diff(current, desired, family), Elems(current) + rest;
    var cs := Commands(plan);
    if k == 0 {
      PlanRunsIff(current, desired, family, rest);
    } else {
      AfterMeaning(table, plan, k);
      WithoutElems(desired, Elems(current));
      WithoutElems(current, Elems(desired));
      var r := if k <= |plan.remove| then k else |plan.remove|;
      if r > 0 {
        assert plan.remove[0] in Elems(plan.remove) && plan.remove[0] in Elems(plan.remove[..r]);
        assert Elems(plan.add[..k - r]) <= Elems(plan.add);
      } else {
        assert plan.add[0] in Elems(plan.add[..k - r]);
      }
      RunsToMeaning(After(table, cs, k), cs, |cs|);
      assert After(After(table, cs, k), cs, 0) == After(table, cs, k);
      assert !GoesThrough(After(table, cs, k), cs, 0);
    }
  }

  /** Two domains with the same address, and no aggregation: the route is desired twice. The first add goes
      through, the second fails, and so does every later call with the same lists. */
  lemma RepeatedRouteExample(p: Prefix, family: Family)
    ensures var cs := Commands(Diff([], [p, p], family));
            && cs == [Add(p), Add(p)]
            && RunsTo({}, cs, 1) && !RunsTo({}, cs, 2)
            && After({}, cs, 1) == {p} && !RunsTo({p}, cs, 1)
  {
    var plan := Diff([], [p, p], family);
    assert [p, p][..1] == [p] && [p][..0] == [];
    assert Without([p], Elems([])) == [p] && Without([p, p], Elems([])) == [p, p];
    assert plan.add == [p, p] && plan.remove == [];
    var cs := Commands(plan);
    assert cs == [Add(p), Add(p)];
    assert After({}, cs, 0) == {} && After({}, cs, 1) == {p};
    assert RunsTo({}, cs, 0) && GoesThrough({}, cs, 0) && !GoesThrough({}, cs, 1);
    assert After({p}, cs, 0) == {p} && !GoesThrough({p}, cs, 0);
  }

  // --- the kernel and the state files ------------------------------------------

  class Kernel {
    var tables: map<int, set<Prefix>>
    var issued: nat
    /** Command number n fails for a reason outside this model. */
    const external: nat -> bool

    constructor (external: nat -> bool)
      ensures tables == map[] && issued == 0 && this.external == external
    {
      tables, issued := map[], 0;
      this.external := external;
    }

    function Table(id: int): set<Prefix>
      reads `tables
    {
      if id in tables then tables[id] else {}
    }

    /** One run of the ip command. */
    method Issue(id: int, c: Command) returns (ok: bool)
      modifies this
      ensures issued == old(issued) + 1
      ensures ok <==> !external(old(issued)) && Applicable(old(Table(id)), c)
      ensures Table(id) == if ok then Exec(old(Table(id)), c) else old(Table(id))
      ensures forall other | other != id :: Table(other) == old(Table(other))
    {
      ok := !external(issued) && Applicable(Table(id), c);
      issued := issued + 1;
      if ok {
        tables := tables[id := Exec(Table(id), c)];
      }
    }
  }

  datatype RouterState = RouterState(v4: seq<Prefix>, v6: seq<Prefix>) {
    function Routes(): set<Prefix> {
      Elems(v4) + Elems(v6)
    }

    /** Each list holds prefixes of its own family. */
    predicate Split() {
      (forall p | p in v4 :: p.addr.V4?) && (forall p | p in v6 :: !p.addr.V4?)
    }
  }

  /** Different state files, different tables. */
  predicate Apart(p: Policy, q: Policy) {
    p.name != q.name && p.tableID != q.tableID
  }

  predicate Separate(ps: seq<Policy>) {
    forall i, j | 0 <= i < j < |ps| :: Apart(ps[i], ps[j])
  }

  /** The enabled iproute2 policies of an accepted configuration, in any order, do not meet. */
  lemma AcceptedPoliciesAreSeparate(config: seq<Policy>, chosen: seq<Policy>)
    requires Accepted(config) && NoDup(chosen)
    requires forall p | p in chosen :: p in config && p.Routes()
    ensures Separate(chosen)
  {
    forall i, j | 0 <= i < j < |chosen|
      ensures Apart(chosen[i], chosen[j])
    {
      assert chosen[i] in chosen && chosen[j] in chosen;
      var k :| 0 <= k < |config| && config[k] == chosen[i];
      var l :| 0 <= l < |config| && config[l] == chosen[j];
      if k < l {
        assert Independent(config[k], config[l]);
      } else {
        assert Independent(config[l], config[k]);
      }
    }
  }

  class PolicyRouter {
    const kernel: Kernel
    /** The state files, by policy name. */
    var states: map<string, RouterState>

    constructor (kernel: Kernel)
      ensures this.kernel == kernel && states == map[]
    {
      this.kernel := kernel;
      states := map[];
    }

    /** loadPolicyState: a missing file is an empty state. */
    function StateOf(name: string): RouterState
      reads `states
    {
      if name in states then states[name] else RouterState([], [])
    }

    /** The policy's table holds exactly what its state file says. */
    predicate Matches(policy: Policy)
      reads this, kernel
    {
      kernel.Table(policy.tableID) == StateOf(policy.name).Routes() && StateOf(policy.name).Split()
    }

    method ApplyFamily(policy: Policy, plan: Plan) returns (ok: bool, ghost done: nat)
      modifies kernel
      ensures done <= |Commands(plan)| && RunsTo(old(kernel.Table(policy.tableID)), Commands(plan), done)
      ensures kernel.Table(policy.tableID) == After(old(kernel.Table(policy.tableID)), Commands(plan), done)
      ensures ok <==> done == |Commands(plan)|
      ensures ok || kernel.external(old(kernel.issued) + done)
              || !Applicable(kernel.Table(policy.tableID), Commands(plan)[done])
      ensures forall other | other != policy.tableID :: kernel.Table(other) == old(kernel.Table(other))
    {
      ghost var table, cs := kernel.Table(policy.tableID), Commands(plan);
      done := 0;
      for i := 0 to |plan.remove|
        invariant done == i && kernel.issued == old(kernel.issued) + done
        invariant kernel.Table(policy.tableID) == After(table, cs, done) && RunsTo(table, cs, done)
        invariant forall other | other != policy.tableID :: kernel.Table(other) == old(kernel.Table(other))
      {
        assert cs[i] == Del(plan.remove[i]);
        var r := kernel.Issue(policy.tableID, Del(plan.remove[i]));
        if !r {
          return false, done;
        }
        done := done + 1;
      }
      for i := 0 to |plan.add|
        invariant done == |plan.remove| + i && kernel.issued == old(kernel.issued) + done
        invariant kernel.Table(policy.tableID) == After(table, cs, done) && RunsTo(table, cs, done)
        invariant forall other | other != policy.tableID :: kernel.Table(other) == old(kernel.Table(other))
      {
        assert cs[|plan.remove| + i] == Add(plan.add[i]);
        var r := kernel.Issue(policy.tableID, Add(plan.add[i]));
        if !r {
          return false, done;
        }
        done := done + 1;
      }
      ok := true;
    }

    /** ApplyPolicy; saveOk tells whether writing the state file succeeds. */
    method ApplyPolicy(policy: Policy, v4: seq<Prefix>, v6: seq<Prefix>, saveOk: bool) returns (ok: bool)
      modifies this, kernel
      ensures forall other | other != policy.tableID :: kernel.Table(other) == old(kernel.Table(other))
      ensures states == if ok then old(states)[policy.name := RouterState(v4, v6)] else old(states)
      ensures old(Matches(policy)) && RouterState(v4, v6).Split() ==>
                BetweenStates(policy, old(StateOf(policy.name)), RouterState(v4, v6))
      ensures old(Matches(policy)) && RouterState(v4, v6).Split() && ok ==> Matches(policy)
      ensures old(Matches(policy)) && RouterState(v4, v6).Split() && (forall n :: !kernel.external(n)) ==>
                (ok <==> saveOk && CanApply(old(StateOf(policy.name)), RouterState(v4, v6)))
    {
      var state := StateOf(policy.name);
      ghost var regular := Matches(policy) && RouterState(v4, v6).Split();
      var planV4 := BuildPlan(state.v4, v4, FamilyV4);
      var planV6 := BuildPlan(state.v6, v6, FamilyV6);

      ghost var done4, done6;
      var r;
      r, done4 := ApplyFamily(policy, planV4);
      if regular {
        FamilyApplied(state.v4, v4, FamilyV4, Elems(state.v6), done4);
      }
      if !r {
        return false;
      }
      if regular {
        assert kernel.Table(policy.tableID) == Elems(state.v6) + Elems(v4);
      }
      r, done6 := ApplyFamily(policy, planV6);
      if regular {
        FamilyApplied(state.v6, v6, FamilyV6, Elems(v4), done6);
      }
      if !r {
        return false;
      }
      if !saveOk {
        return false;
      }
      states := states[policy.name := RouterState(v4, v6)];
      ok := true;
    }

    /** What one policy of a list gets from ApplyAll, whatever happens to the others. */
    twostate predicate Served(policy: Policy, desired: RouterState, ok: bool, saveOk: bool)
      reads this, kernel
    {
      && StateOf(policy.name) == (if ok then desired else old(StateOf(policy.name)))
      && (old(Matches(policy)) && desired.Split() ==>
          && BetweenStates(policy, old(StateOf(policy.name)), desired)
          && (ok ==> Matches(policy))
          && ((forall n :: !kernel.external(n)) ==>
              (ok <==> saveOk && CanApply(old(StateOf(policy.name)), desired))))
    }

    /** The orchestrator's loop: each policy in turn, going on after a failure. */
    method ApplyAll(policies: seq<Policy>, desired: map<string, RouterState>, saveOk: nat -> bool)
      returns (oks: seq<bool>)
      requires Separate(policies) && forall p | p in policies :: p.name in desired
      modifies this, kernel
      ensures |oks| == |policies|
      ensures forall i: nat | i < |policies| ::
                Served(policies[i], desired[policies[i].name], oks[i], saveOk(i))
      ensures forall id | (forall p | p in policies :: p.tableID != id) :: kernel.Table(id) == old(kernel.Table(id))
    {
      oks := [];
      for i := 0 to |policies|
        invariant |oks| == i
        invariant forall j: nat | j < i :: Served(policies[j], desired[policies[j].name], oks[j], saveOk(j))
        invariant forall j | i <= j < |policies| ::
                    && kernel.Table(policies[j].tableID) == old(kernel.Table(policies[j].tableID))
                    && StateOf(policies[j].name) == old(StateOf(policies[j].name))
        invariant forall id | (forall p | p in policies :: p.tableID != id) ::
                    kernel.Table(id) == old(kernel.Table(id))
      {
        var p := policies[i];
        label Before:
        var ok := ApplyPolicy(p, desired[p.name].v4, desired[p.name].v6, saveOk(i));
        forall j | 0 <= j < |policies| && j != i
          ensures kernel.Table(policies[j].tableID) == old@Before(kernel.Table(policies[j].tableID))
          ensures StateOf(policies[j].name) == old@Before(StateOf(policies[j].name))
        {
          assert if j < i then Apart(policies[j], p) else Apart(p, policies[j]);
        }
        assert Served(p, desired[p.name], ok, saveOk(i));
        oks := oks + [ok];
      }
    }

    /** The table lies between an old and a new state. */
    ghost predicate BetweenStates(policy: Policy, before: RouterState, after: RouterState)
      reads kernel
    {
      before.Routes() * after.Routes() <= kernel.Table(policy.tableID) <= before.Routes() + after.Routes()
    }
  }

  /** Neither family's plan repeats an entry. */
  predicate CanApply(before: RouterState, after: RouterState) {
    Runnable(Diff(before.v4, after.v4, FamilyV4)) && Runnable(Diff(before.v6, after.v6, FamilyV6))
  }

  /** Lists without repetitions can always be applied. */
  lemma NoDupCanApply(before: RouterState, after: RouterState)
    requires NoDup(before.v4) && NoDup(before.v6) && NoDup(after.v4) && NoDup(after.v6)
    ensures CanApply(before, after)
  {
    WithoutNoDup(after.v4, Elems(before.v4));
    WithoutNoDup(before.v4, Elems(after.v4));
    WithoutNoDup(after.v6, Elems(before.v6));
    WithoutNoDup(before.v6, Elems(after.v6));
  }

  /** One family's commands, next to the routes of the other family. */
  lemma FamilyApplied(current: seq<Prefix>, desired: seq<Prefix>, family: Family, rest: set<Prefix>, done: nat)
    requires Aside(rest, current, desired)
    requires var cs := Commands(Diff(current, desired, family));
             done <= |cs| && RunsTo(Elems(current) + rest, cs, done)
    ensures var cs, t := Commands(Diff(current, desired, family)), Elems(current) + rest;
            && Elems(current) * Elems(desired) + rest <= After(t, cs, done) <= Elems(current) + Elems(desired) + rest
            && (done == |cs| ==>
                After(t, cs, done) == Elems(desired) + rest && Runnable(Diff(current, desired, family)))
            && (done < |cs| && !Applicable(After(t, cs, done), cs[done]) ==>
                !Runnable(Diff(current, desired, family)))
  {
    var cs, t := Commands(Diff(current, desired, family)), Elems(current) + rest;
    TableStaysBetween(current, desired, family, rest, done);
    PlanRunsIff(current, desired, family, rest);
    RunsToMeaning(t, cs, |cs|);
    if done < |cs| && !Applicable(After(t, cs, done), cs[done]) {
      assert !GoesThrough(t, cs, done);
    }
  }
}
