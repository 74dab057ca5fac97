/** The legacy routers: plans are computed against the kernel, and a persisted state records which
    kernel entries d2ip owns. Others may add entries between operations; what an addition between the
    Plan and the Apply of one operation does is StalePlanAccountedIff. */
module OwnedRouting {
  import opened Collections
  import opened NetIP
  import opened Plans

  // --- one family: the sets involved ------------------------------------------

  /** owned: the persisted state; kernel: the set in the kernel; foreign: entries others added
      that are still there. */
  datatype Side = Side(owned: set<Prefix>, kernel: set<Prefix>, foreign: set<Prefix>) {
    /** The kernel set is the disjoint union of what d2ip owns and what others added. */
    ghost predicate Accounted() {
      owned !! foreign && kernel == owned + foreign
    }
  }

  datatype Event =
    | PlanApply(family: Family, desired: set<Prefix>)
    | Rollback
    | AddForeign(family: Family, p: Prefix)

  datatype World = World(v4: Side, v6: Side) {
    function On(f: Family): Side {
      if f == FamilyV4 then v4 else v6
    }

    function With(f: Family, s: Side): World {
      if f == FamilyV4 then World(s, v6) else World(v4, s)
    }

    ghost predicate Accounted() {
      v4.Accounted() && v6.Accounted()
    }
  }

  /** Plan against the kernel, apply, and update the record of ownership (refreshState). */
  function Applied(s: Side, desired: set<Prefix>): Side {
    var remove, add := s.kernel - desired, desired - s.kernel;
    Side(s.owned - remove + add, s.kernel - remove + add, s.foreign - remove)
  }

  function RolledBack(s: Side): Side {
    Side({}, s.kernel - s.owned, s.foreign)
  }

  function Joined(s: Side, p: Prefix): Side {
    s.(kernel := s.kernel + {p}, foreign := if p in s.kernel then s.foreign else s.foreign + {p})
  }

  function Next(w: World, e: Event): World {
    match e
    case PlanApply(f, desired) => w.With(f, Applied(w.On(f), desired))
    case Rollback => World(RolledBack(w.v4), RolledBack(w.v6))
    case AddForeign(f, p) => w.With(f, Joined(w.On(f), p))
  }

  function After(w: World, es: seq<Event>): World
    decreases |es|
  {
    if es == [] then w else After(Next(w, es[0]), es[1..])
  }

  lemma AppliedAccounted(s: Side, desired: set<Prefix>)
    requires s.Accounted()
    ensures Applied(s, desired).Accounted()
    ensures Applied(s, desired).kernel == desired
    ensures Applied(s, desired).foreign == s.foreign * desired
  {
  }

  lemma NextAccounted(w: World, e: Event)
    requires w.Accounted()
    ensures Next(w, e).Accounted()
  {
    if e.PlanApply? {
      AppliedAccounted(w.On(e.family), e.desired);
    }
  }

  /** Over any history the kernel stays the disjoint union of the owned and the foreign entries. */
  lemma {:induction false} HistoryAccounted(w: World, es: seq<Event>)
    requires w.Accounted()
    ensures After(w, es).Accounted()
    decreases |es|
  {
    if es != [] {
      NextAccounted(w, es[0]);
      HistoryAccounted(Next(w, es[0]), es[1..]);
    }
  }

  /** Hence a rollback removes exactly what d2ip added and leaves exactly the foreign entries. */
  lemma RollbackIsExact(w: World, es: seq<Event>, f: Family)
    requires w.Accounted()
    ensures var before, after := After(w, es), Next(After(w, es), Rollback);
            && before.On(f).kernel - after.On(f).kernel == before.On(f).owned
            && after.On(f).kernel == after.On(f).foreign == before.On(f).foreign
  {
    HistoryAccounted(w, es);
  }

  /** A later plan of this family asks to keep p. */
  predicate KeptBy(e: Event, f: Family, p: Prefix) {
    e.PlanApply? && e.family == f ==> p in e.desired
  }

  /** A foreign entry is not safe from Apply: it survives a history exactly if every plan applied
      to its family asked for it. */
  lemma {:induction false} ForeignSurvivesIff(w: World, es: seq<Event>, f: Family, p: Prefix)
    requires w.Accounted() && p in w.On(f).foreign
    requires forall i | 0 <= i < |es| :: es[i] != AddForeign(f, p)
    ensures p in After(w, es).On(f).foreign <==> forall i | 0 <= i < |es| :: KeptBy(es[i], f, p)
    decreases |es|
  {
    if es != [] {
      var next := Next(w, es[0]);
      NextAccounted(w, es[0]);
      if KeptBy(es[0], f, p) {
        assert p in next.On(f).foreign;
        ForeignSurvivesIff(next, es[1..], f, p);
        assert forall i | 0 < i < |es| :: es[i] == es[1..][i - 1];
        assert forall i | 0 <= i < |es[1..]| :: es[1..][i] == es[i + 1];
      } else {
        assert p !in next.On(f).foreign;
        NeverForeign(next, es[1..], f, p);
      }
    }
  }

  lemma {:induction false} NeverForeign(w: World, es: seq<Event>, f: Family, p: Prefix)
    requires p !in w.On(f).foreign
    requires forall i | 0 <= i < |es| :: es[i] != AddForeign(f, p)
    ensures p !in After(w, es).On(f).foreign
    decreases |es|
  {
    if es != [] {
      NeverForeign(Next(w, es[0]), es[1..], f, p);
    }
  }

  /** An entry somebody else added is gone after one plan that does not ask for it. */
  lemma ForeignRemovedExample(p: Prefix)
    ensures var before := After(World(Side({}, {}, {}), Side({}, {}, {})), [AddForeign(FamilyV4, p)]);
            var after := Next(before, PlanApply(FamilyV4, {}));
            && p in before.v4.foreign && p in before.v4.kernel
            && p !in after.v4.foreign && p !in after.v4.kernel
  {
    var w := World(Side({}, {}, {}), Side({}, {}, {}));
    var es := [AddForeign(FamilyV4, p)];
    assert es[1..] == [];
    var before := After(w, es);
    assert before == After(Next(w, es[0]), es[1..]) == Next(w, es[0]);
    assert before.v4 == Side({}, {p}, {p});
  }

  // --- the nftables router --------------------------------------------------------

  datatype Lists = Lists(v4: seq<Prefix>, v6: seq<Prefix>) {
    function On(f: Family): seq<Prefix> {
      if f == FamilyV4 then v4 else v6
    }

    function With(f: Family, xs: seq<Prefix>): Lists {
      if f == FamilyV4 then Lists(xs, v6) else Lists(v4, xs)
    }
  }

  predicate OfFamily(p: Prefix, f: Family) {
    p.addr.V4? <==> f == FamilyV4
  }

  /** The prefixes of the other family. */
  function OtherFamily(xs: seq<Prefix>, f: Family): set<Prefix> {
    set p | p in xs && !OfFamily(p, f)
  }

  /** filterByFamily keeps the family's prefixes, in order and with repetitions. */
  method FilterByFamily(xs: seq<Prefix>, f: Family) returns (out: seq<Prefix>)
    ensures out == Without(xs, OtherFamily(xs, f))
    ensures Elems(out) == set p | p in xs && OfFamily(p, f)
  {
    out := [];
    for i := 0 to |xs|
      invariant out == Without(xs[..i], OtherFamily(xs, f))
    {
      assert xs[..i + 1][..i] == xs[..i];
      if f == FamilyV4 && xs[i].addr.V4? {
        out := out + [xs[i]];
      } else if f == FamilyV6 && !xs[i].addr.V4? {
        out := out + [xs[i]];
      }
    }
    assert xs[..|xs|] == xs;
    WithoutElems(xs, OtherFamily(xs, f));
  }

  /** Which of an operation's outside steps succeed: creating table and sets, the script, the save. */
  datatype Faults = Faults(ensureOk: bool, scriptOk: bool, saveOk: bool)

  class NFTRouter {
    /** In memory and on disk. */
    var state: Lists
    var disk: Lists
    /** The two kernel sets, in the order `nft list set` prints them. */
    var kernel: Lists
    ghost var foreign: World

    ghost function View(): World
      reads this
    {
      World(Side(Elems(disk.v4), Elems(kernel.v4), foreign.v4.foreign),
            Side(Elems(disk.v6), Elems(kernel.v6), foreign.v6.foreign))
    }

    ghost predicate Valid()
      reads this
    {
      state == disk && View().Accounted()
    }

    constructor ()
      ensures Valid() && View() == World(Side({}, {}, {}), Side({}, {}, {}))
    {
      state, disk, kernel := Lists([], []), Lists([], []), Lists([], []);
      foreign := World(Side({}, {}, {}), Side({}, {}, {}));
    }

    /** Plan: the difference between what the kernel lists and what is desired. */
    method Plan(desired: seq<Prefix>, f: Family) returns (plan: Plan)
      ensures plan.family == f
      ensures Canonical(plan.add) && Canonical(plan.remove)
      ensures var d := set p | p in desired && OfFamily(p, f);
              Elems(plan.add) == d - Elems(kernel.On(f)) && Elems(plan.remove) == Elems(kernel.On(f)) - d
    {
      var wanted := FilterByFamily(desired, f);
      plan := ComputePlan(kernel.On(f), wanted, f);
    }

    /** `nft -f -`: all or nothing. Deleting an element that is not there fails the script. */
    method RunScript(f: Family, remove: seq<Prefix>, add: seq<Prefix>, scriptOk: bool) returns (ok: bool)
      modifies `kernel
      ensures ok <==> scriptOk && Elems(remove) <= old(Elems(kernel.On(f)))
      ensures !ok ==> kernel == old(kernel)
      ensures ok ==> kernel == old(kernel).With(f, kernel.On(f))
      ensures ok ==> Elems(kernel.On(f)) == old(Elems(kernel.On(f))) - Elems(remove) + Elems(add)
    {
      ok := scriptOk && Elems(remove) <= Elems(kernel.On(f));
      if ok {
        var kept := Without(kernel.On(f), Elems(remove));
        WithoutElems(kernel.On(f), Elems(remove));
        kernel := kernel.With(f, kept + add);
        assert Elems(kept + add) == Elems(kept) + Elems(add);
      }
    }

    /** refreshState: the plan's effect on the record of ownership, saved before it is believed. */
    method RefreshState(plan: Plan, saveOk: bool) returns (ok: bool)
      requires state == disk
      modifies `state, `disk
      ensures ok == saveOk && state == disk
      ensures !ok ==> disk == old(disk)
      ensures ok ==> disk == old(disk).With(plan.family, disk.On(plan.family))
      ensures ok ==> Canonical(disk.On(plan.family))
      ensures ok ==> Elems(disk.On(plan.family)) ==
                     old(Elems(disk.On(plan.family))) - Elems(plan.remove) + Elems(plan.add)
    {
      var cur := Dedup(state.On(plan.family));
      var curSet := Elems(cur) - Elems(plan.remove) + Elems(plan.add);
      // Go ranges over a map in no particular order.
      var out, rest := [], curSet;
      while rest != {}
        invariant state == old(state) && disk == old(disk)
        invariant rest <= curSet && NoDup(out)
        invariant Elems(out) == curSet - rest
      {
        var x :| x in rest;
        ElemsAppend(out, x);
        assert x !in Elems(out);
        out := out + [x];
        rest := rest - {x};
      }
      out := SortPrefixes(out);
      var s := state.With(plan.family, out);
      if !saveOk {
        return false;
      }
      disk := s;
      state := s;
      ok := true;
    }

    /** Apply. The plan may be stale: the script fails if an element it deletes is gone. */
    method Apply(plan: Plan, faults: Faults) returns (ok: bool)
      requires Valid()
      modifies this
      ensures ok <==> faults.ensureOk && faults.saveOk
                      && (plan.Empty() || (faults.scriptOk && Elems(plan.remove) <= old(Elems(kernel.On(plan.family)))))
      ensures ok ==> state == disk
      ensures ok ==> View() == old(View()).With(plan.family, Executed(old(View()).On(plan.family), plan))
      ensures !ok && faults.saveOk ==> state == disk && View() == old(View())
      ensures !ok && faults.ensureOk && faults.scriptOk && Elems(plan.remove) <= old(Elems(kernel.On(plan.family))) ==>
                View() == old(View()).With(plan.family, Unrecorded(old(View()).On(plan.family), plan))
    {
      if !faults.ensureOk {
        return false;
      }
      if plan.Empty() {
        ok := RefreshState(plan, faults.saveOk);
        return;
      }
      var ran := RunScript(plan.family, plan.remove, plan.add, faults.scriptOk);
      if !ran {
        return false;
      }
      ghost var side := foreign.On(plan.family);
      foreign := foreign.With(plan.family, side.(foreign := side.foreign - Elems(plan.remove)));
      ok := RefreshState(plan, faults.saveOk);
    }

    /** Plan followed by Apply. */
    method PlanAndApply(desired: seq<Prefix>, f: Family, faults: Faults) returns (ok: bool)
      requires Valid()
      modifies this
      ensures faults == Faults(true, true, true) ==> ok
      ensures ok ==> Valid() && View() == Next(old(View()), PlanApply(f, set p | p in desired && OfFamily(p, f)))
      ensures !ok && faults.saveOk ==> Valid() && View() == old(View())
    {
      var plan := Plan(desired, f);
      ok := Apply(plan, faults);
      if ok {
        NextAccounted(old(View()), PlanApply(f, set p | p in desired && OfFamily(p, f)));
      }
    }

    /** Rollback: delete everything the state lists, in one script over both sets. */
    method Rollback(faults: Faults) returns (ok: bool)
      requires Valid()
      modifies this
      ensures faults == Faults(true, true, true) ==> ok
      ensures ok ==> Valid() && View() == Next(old(View()), Event.Rollback)
      ensures !ok && !(faults.ensureOk && faults.scriptOk) ==> Valid() && View() == old(View())
      ensures !ok && faults.ensureOk && faults.scriptOk ==>
                && !faults.saveOk && state == Lists([], []) && disk == old(disk)
                && View() == World(Forgotten(old(View()).v4), Forgotten(old(View()).v6))
    {
      if |state.v4| == 0 && |state.v6| == 0 {
        return true;
      }
      if !faults.ensureOk || !faults.scriptOk {
        return false;
      }
      WithoutElems(kernel.v4, Elems(state.v4));
      WithoutElems(kernel.v6, Elems(state.v6));
      kernel := Lists(Without(kernel.v4, Elems(state.v4)), Without(kernel.v6, Elems(state.v6)));
      state := Lists([], []);
      if !faults.saveOk {
        return false;
      }
      disk := state;
      ok := true;
    }

    /** Somebody else adds an element. */
    method AddForeign(f: Family, p: Prefix)
      requires Valid()
      modifies this
      ensures Valid() && View() == Next(old(View()), Event.AddForeign(f, p))
    {
      if p !in kernel.On(f) {
        kernel := kernel.With(f, kernel.On(f) + [p]);
        var side := foreign.On(f);
        foreign := foreign.With(f, side.(foreign := side.foreign + {p}));
        assert Elems(kernel.On(f)) == old(Elems(kernel.On(f))) + {p};
      }
    }
  }

  function Executed(s: Side, plan: Plan): Side {
    Side(s.owned - Elems(plan.remove) + Elems(plan.add), s.kernel - Elems(plan.remove) + Elems(plan.add),
         s.foreign - Elems(plan.remove))
  }

  /** The kernel changed, but the save failed. */
  function Unrecorded(s: Side, plan: Plan): Side {
    Executed(s, plan).(owned := s.owned)
  }

  /** Rolled back in the kernel, but the save failed: memory owns nothing, the disk everything. */
  function Forgotten(s: Side): Side {
    RolledBack(s).(owned := s.owned)
  }

  lemma ForgottenAccountedIff(s: Side)
    requires s.Accounted()
    ensures Forgotten(s).Accounted() <==> s.owned == {}
  {
    assert Forgotten(s).kernel == s.foreign;
  }

  /** Entries may have been added between Plan and Apply. The books balance after Apply exactly if none of
      those the plan adds is among them: d2ip would claim an entry that is somebody else's. */
  lemma StalePlanAccountedIff(s: Side, plan: Plan)
    requires s.Accounted()
    requires Elems(plan.remove) <= s.kernel && Elems(plan.add) !! Elems(plan.remove)
    ensures Executed(s, plan).Accounted() <==> Elems(plan.add) !! s.foreign
  {
    var t := Executed(s, plan);
    assert Elems(plan.add) <= t.owned;
    assert t.foreign == s.foreign - Elems(plan.remove);
    assert Elems(plan.add) * t.foreign == Elems(plan.add) * s.foreign;
    if Elems(plan.add) !! s.foreign {
      assert t.owned !! t.foreign;
    }
  }

  /** After an unrecorded apply the books still balance only if the plan added nothing and removed
      no owned entry. */
  lemma UnrecordedAccountedIff(s: Side, plan: Plan)
    requires s.Accounted()
    requires Elems(plan.remove) <= s.kernel && Elems(plan.add) !! s.kernel
    ensures Unrecorded(s, plan).Accounted() <==> Elems(plan.add) == {} && Elems(plan.remove) !! s.owned
  {
    var t := Unrecorded(s, plan);
    assert Elems(plan.add) <= t.kernel;
    assert t.owned + t.foreign <= s.kernel;
    assert Elems(plan.remove) * s.owned <= t.owned;
  }
}
