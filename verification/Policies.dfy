/** Policy configuration and validatePolicies of internal/config/validate.go. */
module Policies {

  datatype Backend = BackendNone | IProute2 | NFTables | OtherBackend(name: string)

  datatype Policy = Policy(
    name: string,
    enabled: bool,
    categories: seq<string>,
    backend: Backend,
    iface: string,
    tableID: int,
    nftTable: string,
    nftSetV4: string,
    nftSetV6: string,
    exportFormat: string)
  {
    function V4Key(): string {
      nftTable + "." + nftSetV4
    }

    function V6Key(): string {
      nftTable + "." + nftSetV6
    }

    predicate Routes() {
      enabled && backend == IProute2
    }

    predicate Filters() {
      enabled && backend == NFTables
    }
  }

  datatype Problem =
    | NameRequired | NameMalformed | NameDuplicate
    | CategoriesMissing | CategoryMalformed(category: nat)
    | BackendIsNone | BackendInvalid
    | IfaceRequired | TableIDRange | TableIDDuplicate
    | NFTFieldsRequired | SetV4Duplicate | SetV6Duplicate
    | ExportFormatInvalid

  datatype PolicyError = PolicyError(index: nat, problem: Problem)

  /** The pattern [a-z0-9_-]+ */
  predicate NameMatches(s: string) {
    |s| > 0 && forall i | 0 <= i < |s| ::
      'a' <= s[i] <= 'z' || '0' <= s[i] <= '9' || s[i] == '_' || s[i] == '-'
  }

  /** prefix:name, split at the first colon, both parts non-empty */
  predicate CategoryMatches(s: string) {
    exists i | 0 < i < |s| - 1 :: s[i] == ':' && ':' !in s[..i]
  }

  const FORMATS: set<string> := {"plain", "ipset", "json", "nft", "iptables", "bgp", "yaml"}

  /** What is demanded of one policy on its own. */
  predicate PolicyOk(p: Policy) {
    && NameMatches(p.name)
    && (p.enabled ==>
        && |p.categories| > 0
        && (forall j | 0 <= j < |p.categories| :: CategoryMatches(p.categories[j]))
        && (p.backend == IProute2 || p.backend == NFTables)
        && (p.backend == IProute2 ==> p.iface != "" && 1 <= p.tableID <= 252)
        && (p.backend == NFTables ==> p.nftTable != "" && p.nftSetV4 != "" && p.nftSetV6 != "")
        && (p.exportFormat == "" || p.exportFormat in FORMATS))
  }

  /** Two policies that do not share a name, a routing table or an nft set. */
  predicate Independent(p: Policy, q: Policy) {
    && p.name != q.name
    && (p.Routes() && q.Routes() ==> p.tableID != q.tableID)
    && (p.Filters() && q.Filters() ==> {p.V4Key(), p.V6Key()} !! {q.V4Key(), q.V6Key()})
  }

  predicate Accepted(ps: seq<Policy>) {
    && (forall i | 0 <= i < |ps| :: PolicyOk(ps[i]))
    && (forall i, j | 0 <= i < j < |ps| :: Independent(ps[i], ps[j]))
  }

  function Names(ps: seq<Policy>): set<string> {
    set p | p in ps && p.name != "" :: p.name
  }

  function TableIDs(ps: seq<Policy>): set<int> {
    set p | p in ps && p.name != "" && p.Routes() :: p.tableID
  }

  function NFTSets(ps: seq<Policy>): set<string> {
    (set p | p in ps && p.name != "" && p.Filters() :: p.V4Key())
    + (set p | p in ps && p.name != "" && p.Filters() :: p.V6Key())
  }

  method CheckCategories(index: nat, categories: seq<string>) returns (errs: seq<PolicyError>)
    ensures errs == [] <==> |categories| > 0 && forall j | 0 <= j < |categories| :: CategoryMatches(categories[j])
    ensures forall e | e in errs :: e.index == index
  {
    errs := [];
    if |categories| == 0 {
      errs := errs + [PolicyError(index, CategoriesMissing)];
    }
    for j := 0 to |categories|
      invariant errs == [] <==> |categories| > 0 && forall k | 0 <= k < j :: CategoryMatches(categories[k])
      invariant forall e | e in errs :: e.index == index
    {
      var matches := SplitsInTwo(categories[j]);
      if !matches {
        errs := errs + [PolicyError(index, CategoryMalformed(j))];
      }
    }
  }

  /** strings.SplitN(cat, ":", 2) gives two non-empty parts. */
  method SplitsInTwo(cat: string) returns (ok: bool)
    ensures ok <==> CategoryMatches(cat)
  {
    var i := 0;
    while i < |cat| && cat[i] != ':'
      invariant i <= |cat| && ':' !in cat[..i]
    {
      i := i + 1;
    }
    ok := 0 < i < |cat| - 1;
    forall k | 0 <= k < |cat| && cat[k] == ':' && ':' !in cat[..k]
      ensures k == i
    {
      assert forall j | 0 <= j < k :: cat[j] in cat[..k];
      assert forall j | 0 <= j < i && j < |cat| :: cat[j] in cat[..i];
    }
  }

  /** The checks of one policy against the names, tables and sets seen so far. */
  method CheckPolicy(index: nat, p: Policy, names: set<string>, tableIDs: set<int>, nftSets: set<string>)
    returns (errs: seq<PolicyError>)
    ensures errs == [] <==>
            && PolicyOk(p) && p.name !in names
            && (p.Routes() ==> p.tableID !in tableIDs)
            && (p.Filters() ==> p.V4Key() !in nftSets && p.V6Key() !in nftSets)
    ensures forall e | e in errs :: e.index == index
  {
    errs := [];
    if p.name == "" {
      return [PolicyError(index, NameRequired)];
    }
    if !NameMatches(p.name) {
      errs := errs + [PolicyError(index, NameMalformed)];
    }
    if p.name in names {
      errs := errs + [PolicyError(index, NameDuplicate)];
    }
    if !p.enabled {
      return;
    }
    var catErrs := CheckCategories(index, p.categories);
    errs := errs + catErrs;
    if p.backend == BackendNone {
      errs := errs + [PolicyError(index, BackendIsNone)];
    }
    if p.backend != IProute2 && p.backend != NFTables && p.backend != BackendNone {
      errs := errs + [PolicyError(index, BackendInvalid)];
    }
    if p.backend == IProute2 {
      if p.iface == "" {
        errs := errs + [PolicyError(index, IfaceRequired)];
      }
      if p.tableID < 1 || p.tableID > 252 {
        errs := errs + [PolicyError(index, TableIDRange)];
      }
      if p.tableID in tableIDs {
        errs := errs + [PolicyError(index, TableIDDuplicate)];
      }
    }
    if p.backend == NFTables {
      if p.nftTable == "" || p.nftSetV4 == "" || p.nftSetV6 == "" {
        errs := errs + [PolicyError(index, NFTFieldsRequired)];
      }
      if p.V4Key() in nftSets {
        errs := errs + [PolicyError(index, SetV4Duplicate)];
      }
      if p.V6Key() in nftSets {
        errs := errs + [PolicyError(index, SetV6Duplicate)];
      }
    }
    if p.exportFormat != "" {
      if p.exportFormat !in FORMATS {
        errs := errs + [PolicyError(index, ExportFormatInvalid)];
      }
    }
  }

  /** Policy i is in order and shares nothing with an earlier policy that has a name. */
  predicate Clean(ps: seq<Policy>, i: nat)
    requires i < |ps|
  {
    PolicyOk(ps[i]) && forall j | 0 <= j < i && ps[j].name != "" :: Independent(ps[j], ps[i])
  }

  predicate Blamed(errs: seq<PolicyError>, i: nat) {
    exists e | e in errs :: e.index == i
  }

  lemma CleanBySets(ps: seq<Policy>, i: nat)
    requires i < |ps|
    ensures var p, seen := ps[i], ps[..i];
            Clean(ps, i) <==>
              && PolicyOk(p) && p.name !in Names(seen)
              && (p.Routes() ==> p.tableID !in TableIDs(seen))
              && (p.Filters() ==> p.V4Key() !in NFTSets(seen) && p.V6Key() !in NFTSets(seen))
  {
    var p, seen := ps[i], ps[..i];
    assert forall q | q in seen :: exists j | 0 <= j < i :: ps[j] == q;
    assert forall j | 0 <= j < i :: ps[j] in seen;
  }

  lemma AcceptedIsAllClean(ps: seq<Policy>)
    ensures Accepted(ps) <==> forall i: nat | i < |ps| :: Clean(ps, i)
  {
    if forall i: nat | i < |ps| :: Clean(ps, i) {
      forall i | 0 <= i < |ps|
        ensures PolicyOk(ps[i])
      {
        assert Clean(ps, i);
      }
      forall i, j | 0 <= i < j < |ps|
        ensures Independent(ps[i], ps[j])
      {
        assert Clean(ps, j);
      }
    }
  }

  /** validatePolicies blames exactly the policies that are out of order or clash with an earlier one; so
      it finds nothing exactly when each policy is in order and any two are independent. */
  method ValidatePolicies(policies: seq<Policy>) returns (errs: seq<PolicyError>)
    ensures forall i: nat | i < |policies| :: Blamed(errs, i) <==> !Clean(policies, i)
    ensures forall e | e in errs :: e.index < |policies|
    ensures errs == [] <==> Accepted(policies)
  {
    errs := [];
    var names: set<string>, tableIDs: set<int>, nftSets: set<string> := {}, {}, {};
    for i := 0 to |policies|
      invariant names == Names(policies[..i])
      invariant tableIDs == TableIDs(policies[..i])
      invariant nftSets == NFTSets(policies[..i])
      invariant forall e | e in errs :: e.index < i
      invariant forall k: nat | k < i :: Blamed(errs, k) <==> !Clean(policies, k)
    {
      var p := policies[i];
      var found := CheckPolicy(i, p, names, tableIDs, nftSets);
      CleanBySets(policies, i);
      assert policies[..i + 1] == policies[..i] + [p];
      SeenStep(policies[..i], p);
      BlameStep(errs, found, i);
      errs := errs + found;
      if p.name != "" {
        names := names + {p.name};
        if p.Routes() {
          tableIDs := tableIDs + {p.tableID};
        }
        if p.Filters() {
          nftSets := nftSets + {p.V4Key(), p.V6Key()};
        }
      }
    }
    assert policies[..|policies|] == policies;
    AcceptedIsAllClean(policies);
    assert errs != [] ==> errs[0] in errs && Blamed(errs, errs[0].index);
  }

  lemma BlameStep(errs: seq<PolicyError>, found: seq<PolicyError>, i: nat)
    requires forall e | e in errs :: e.index < i
    requires forall e | e in found :: e.index == i
    ensures forall k: nat | k < i :: Blamed(errs + found, k) <==> Blamed(errs, k)
    ensures Blamed(errs + found, i) <==> found != []
    ensures forall e | e in errs + found :: e.index < i + 1
  {
    assert forall e :: e in errs + found <==> e in errs || e in found;
    assert found != [] ==> found[0] in errs + found;
  }

  lemma SeenStep(ps: seq<Policy>, p: Policy)
    ensures Names(ps + [p]) == Names(ps) + if p.name != "" then {p.name} else {}
    ensures TableIDs(ps + [p]) == TableIDs(ps) + if p.name != "" && p.Routes() then {p.tableID} else {}
    ensures NFTSets(ps + [p]) == NFTSets(ps) + if p.name != "" && p.Filters() then {p.V4Key(), p.V6Key()} else {}
  {
    assert forall q :: q in ps + [p] <==> q in ps || q == p;
  }
}
