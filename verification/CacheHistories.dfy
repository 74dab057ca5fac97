/** The cache over time: upserts, batches that stop partway, vacuums and the passing clock, and what they
    leave of the promise that a fresh valid domain is served. */
module CacheHistories {
  import opened Collections
  import opened NetIP
  import opened CacheDb
  import opened CacheFreshness

  /** written counts the record rows a stopped batch has committed, as UpsertBatch reports it. */
  datatype Event =
    | UpsertBatch(results: seq<ResolveResult>)
    | StoppedBatch(results: seq<ResolveResult>, written: nat)
    | Vacuum(olderThan: int)
    | Tick(elapsed: nat)

  datatype World = World(db: Db, now: int)

  function RowsDone(e: Event): (n: nat)
    requires e.StoppedBatch?
    ensures n <= |Expand(e.results)|
  {
    if e.written <= |Expand(e.results)| then e.written else |Expand(e.results)|
  }

  function Next(w: World, e: Event): World
    requires WellFormed(w.db)
  {
    match e
    case UpsertBatch(rs) => World(Upsert(w.db, rs), w.now)
    case StoppedBatch(rs, _) => World(Written(w.db, rs, RowsDone(e)), w.now)
    case Vacuum(olderThan) => World(Vacuumed(w.db, Unix(w.now - olderThan)), w.now)
    case Tick(elapsed) => World(w.db, w.now + elapsed)
  }

  lemma NextWellFormed(w: World, e: Event)
    requires WellFormed(w.db)
    ensures WellFormed(Next(w, e).db)
  {
    match e
    case UpsertBatch(rs) => UpsertWellFormed(w.db, rs);
    case StoppedBatch(rs, _) => WrittenWellFormed(w.db, rs, RowsDone(e));
    case _ =>
  }

  function After(w: World, es: seq<Event>): World
    requires WellFormed(w.db)
    decreases |es|
  {
    NextWellFormed(w, if es == [] then Tick(0) else es[0]);
    if es == [] then w else After(Next(w, es[0]), es[1..])
  }

  // --- what is kept -------------------------------------------------------------------

  ghost predicate HasRecordLike(db: Db, d: string, row: RecordRow)
    requires d in db.domains
  {
    exists key :: key in db.records && key.domainId == db.domains[d].id && db.records[key] == row
  }

  /** The row of d is backed by a valid record of its own age. */
  ghost predicate HasCurrentRecord(db: Db, d: string)
    requires d in db.domains
  {
    HasRecordLike(db, d, RecordRow(db.domains[d].lastResolvedAt, true))
  }

  /** Every valid domain is backed, or past its TTL. */
  ghost predicate Backed(w: World, ttl: int) {
    forall d | d in w.db.domains && w.db.domains[d].status == Valid ::
      HasCurrentRecord(w.db, d) || w.db.domains[d].lastResolvedAt < Unix(w.now) - Seconds(ttl)
  }

  lemma BackedIsServed(w: World, d: string, ttl: int, failedTTL: int)
    requires Backed(w, ttl) && !Stale(w.db, d, w.now, ttl, failedTTL) && w.db.domains[d].status == Valid
    ensures exists key :: Serves(w.db, d, key)
  {
    var key :| key in w.db.records && key.domainId == w.db.domains[d].id
            && w.db.records[key] == RecordRow(w.db.domains[d].lastResolvedAt, true);
    assert Serves(w.db, d, key);
  }

  // --- batches --------------------------------------------------------------------------

  /** A valid result carries an address: the resolver's promise, Resolver.ResolveDomain. */
  predicate Addressed(rs: seq<ResolveResult>) {
    forall r | r in rs && r.status == Valid :: |r.ipv4| + |r.ipv6| > 0
  }

  lemma UpsertKeepsBacked(w: World, rs: seq<ResolveResult>, ttl: int)
    requires WellFormed(w.db) && Backed(w, ttl) && Addressed(rs)
    ensures Backed(Next(w, UpsertBatch(rs)), ttl)
  {
    var db2 := Upsert(w.db, rs);
    forall d | d in db2.domains && db2.domains[d].status == Valid
      ensures HasCurrentRecord(db2, d) || db2.domains[d].lastResolvedAt < Unix(w.now) - Seconds(ttl)
    {
      DomainsAfter(w.db, rs, d);
      if LastResult(rs, d).Some? {
        var r := LastResult(rs, d).value;
        LastResultMeaning(rs, d);
        var key := if |r.ipv4| > 0 then RecordKey(db2.domains[d].id, r.ipv4[0], A)
                   else RecordKey(db2.domains[d].id, r.ipv6[0], AAAA);
        RecordsOfDomain(w.db, rs, d, key);
        LastListingMeaning(rs, d, key.ip, key.typ);
        assert key in db2.records;
      } else if HasCurrentRecord(w.db, d) {
        var key :| key in w.db.records && key.domainId == w.db.domains[d].id
                && w.db.records[key] == RecordRow(w.db.domains[d].lastResolvedAt, true);
        RecordsOfDomain(w.db, rs, d, key);
        NoListingForOthers(rs, d, key.ip, key.typ);
        assert key in db2.records;
      }
    }
  }

  /** rs holds one result for d, and that is r. */
  ghost predicate OnlyResult(rs: seq<ResolveResult>, d: string, r: ResolveResult) {
    r in rs && r.domain == d && forall q | q in rs && q.domain == d :: q == r
  }

  /** Some row of d is among the first n of the batch. */
  predicate RowAmong(rs: seq<ResolveResult>, n: nat, d: string)
    requires n <= |Expand(rs)|
  {
    exists row | row in Expand(rs)[..n] :: row.domain == d
  }

  lemma RowsOfOnlyResult(rs: seq<ResolveResult>, d: string, r: ResolveResult, row: Row)
    requires OnlyResult(rs, d, r) && row in Expand(rs) && row.domain == d
    ensures row.updatedAt == Unix(r.resolvedAt) && row.valid == (r.status == Valid)
  {
    ExpandRows(rs, row);
    var q :| q in rs && row in ResultRows(q) && q.domain == row.domain;
    ResultRowsMeaning(q, row);
  }

  /** A record of d after n rows of a batch with one valid result for d: one of those rows, or as it was. */
  lemma WrittenRecord(db: Db, rs: seq<ResolveResult>, n: nat, d: string, r: ResolveResult, key: RecordKey)
    requires WellFormed(db) && n <= |Expand(rs)| && OnlyResult(rs, d, r) && r.status == Valid
    ensures d in Written(db, rs, n).domains
    ensures d in db.domains ==> Written(db, rs, n).domains[d].id == db.domains[d].id
    ensures Written(db, rs, n).domains[d].status == Valid
    ensures Written(db, rs, n).domains[d].lastResolvedAt == Unix(r.resolvedAt)
    ensures key.domainId == Written(db, rs, n).domains[d].id && key in Written(db, rs, n).records ==>
              || (RowAmong(rs, n, d) && Written(db, rs, n).records[key] == RecordRow(Unix(r.resolvedAt), true))
              || (d in db.domains && key in db.records && Written(db, rs, n).records[key] == db.records[key])
    ensures d in db.domains && key.domainId == db.domains[d].id && key in db.records && !RowAmong(rs, n, d) ==>
              key in Written(db, rs, n).records && Written(db, rs, n).records[key] == db.records[key]
  {
    var names, rows := UniqueNames(rs), Expand(rs)[..n];
    var db1 := WithDomains(db, names, rs);
    var ids := IdMap(db1, names);
    DomainsAfter(db, rs, d);
    RowsKnown(db, rs);
    IdMapInjective(db1, names);
    LastResultMeaning(rs, d);
    UniqueNamesMeaning(rs, d);
    RecordsAfter(ids, db1.records, rows, key);
    LastRowMeaning(ids, rows, key);
    if LastRow(ids, rows, key).Some? && key.domainId == db1.domains[d].id {
      RowsOfOnlyResult(rs, d, r, LastRow(ids, rows, key).value);
    }
  }

  lemma WrittenRow(db: Db, rs: seq<ResolveResult>, n: nat, d: string, r: ResolveResult) returns (key: RecordKey)
    requires WellFormed(db) && n <= |Expand(rs)| && OnlyResult(rs, d, r) && r.status == Valid && RowAmong(rs, n, d)
    ensures d in Written(db, rs, n).domains && key.domainId == Written(db, rs, n).domains[d].id
    ensures key in Written(db, rs, n).records
    ensures Written(db, rs, n).records[key] == RecordRow(Unix(r.resolvedAt), true)
  {
    var names, rows := UniqueNames(rs), Expand(rs)[..n];
    var db1 := WithDomains(db, names, rs);
    var ids := IdMap(db1, names);
    DomainsAfter(db, rs, d);
    RowsKnown(db, rs);
    IdMapInjective(db1, names);
    UniqueNamesMeaning(rs, d);
    LastResultMeaning(rs, d);
    var row :| row in rows && row.domain == d;
    key := KeyOf(ids, row);
    RecordsAfter(ids, db1.records, rows, key);
    LastRowMeaning(ids, rows, key);
    RowsOfOnlyResult(rs, d, r, LastRow(ids, rows, key).value);
  }

  /** A batch that stops after n record rows still backs its valid domain d exactly if a row of d is among
      them, or the table already held a valid record of d with the same time. */
  lemma StoppedBatchBackedIff(db: Db, rs: seq<ResolveResult>, n: nat, d: string, r: ResolveResult)
    requires WellFormed(db) && n <= |Expand(rs)| && OnlyResult(rs, d, r) && r.status == Valid
    ensures d in Written(db, rs, n).domains
    ensures HasCurrentRecord(Written(db, rs, n), d) <==>
              RowAmong(rs, n, d) || (d in db.domains && HasRecordLike(db, d, RecordRow(Unix(r.resolvedAt), true)))
  {
    var after, current := Written(db, rs, n), RecordRow(Unix(r.resolvedAt), true);
    WrittenRecord(db, rs, n, d, r, RecordKey(0, Invalid, A));
    if HasCurrentRecord(after, d) {
      var key :| key in after.records && key.domainId == after.domains[d].id && after.records[key] == current;
      WrittenRecord(db, rs, n, d, r, key);
    }
    if RowAmong(rs, n, d) {
      var key := WrittenRow(db, rs, n, d, r);
    } else if d in db.domains && HasRecordLike(db, d, current) {
      var key :| key in db.records && key.domainId == db.domains[d].id && db.records[key] == current;
      WrittenRecord(db, rs, n, d, r, key);
      assert key in after.records;
    }
  }

  /** It still serves d exactly if a row of d is among them, or d was served before. */
  lemma StoppedBatchServesIff(db: Db, rs: seq<ResolveResult>, n: nat, d: string, r: ResolveResult)
    requires WellFormed(db) && n <= |Expand(rs)| && OnlyResult(rs, d, r) && r.status == Valid
    ensures (exists key :: Serves(Written(db, rs, n), d, key)) <==>
              RowAmong(rs, n, d) || exists key :: Serves(db, d, key)
  {
    var after := Written(db, rs, n);
    if key :| Serves(after, d, key) {
      WrittenRecord(db, rs, n, d, r, key);
      assert !RowAmong(rs, n, d) ==> Serves(db, d, key);
    }
    if RowAmong(rs, n, d) {
      var key := WrittenRow(db, rs, n, d, r);
      assert Serves(after, d, key);
    } else if key :| Serves(db, d, key) {
      WrittenRecord(db, rs, n, d, r, key);
      assert Serves(after, d, key);
    }
  }

  /** One result with an address, stopped before its first record row: the domain counts as fresh and valid,
      and nothing is served for it. */
  lemma StoppedBatchExample(r: ResolveResult, now: int, ttl: int, failedTTL: int, key: RecordKey)
    requires r.status == Valid && Unix(r.resolvedAt) >= Unix(now) - Seconds(ttl)
    ensures var db := Written(EMPTY, [r], 0);
            && !Stale(db, r.domain, now, ttl, failedTTL) && db.domains[r.domain].status == Valid
            && !HasCurrentRecord(db, r.domain) && !Serves(db, r.domain, key)
  {
    DomainsAfter(EMPTY, [r], r.domain);
    StoppedBatchBackedIff(EMPTY, [r], 0, r.domain, r);
  }

  // --- vacuums -----------------------------------------------------------------------------

  /** The vacuum spares every valid domain that is within its TTL. */
  ghost predicate VacuumSpares(w: World, olderThan: int, ttl: int) {
    forall d | d in w.db.domains && w.db.domains[d].status == Valid
               && w.db.domains[d].lastResolvedAt >= Unix(w.now) - Seconds(ttl) ::
      w.db.domains[d].lastResolvedAt >= Unix(w.now - olderThan)
  }

  lemma CurrentAfterVacuum(db: Db, d: string, threshold: int)
    requires d in db.domains
    ensures HasCurrentRecord(Vacuumed(db, threshold), d) <==>
              HasCurrentRecord(db, d) && db.domains[d].lastResolvedAt >= threshold
  {
    var db2, current := Vacuumed(db, threshold), RecordRow(db.domains[d].lastResolvedAt, true);
    if HasCurrentRecord(db, d) && db.domains[d].lastResolvedAt >= threshold {
      var key :| key in db.records && key.domainId == db.domains[d].id && db.records[key] == current;
      assert key in db2.records;
    }
    if HasCurrentRecord(db2, d) {
      var key :| key in db2.records && key.domainId == db2.domains[d].id && db2.records[key] == current;
      assert key in db.records;
    }
  }

  /** A vacuum keeps the tables backed exactly if it spares every valid domain within its TTL. */
  lemma VacuumKeepsBackedIff(w: World, olderThan: int, ttl: int)
    requires WellFormed(w.db) && Backed(w, ttl)
    ensures Backed(Next(w, Vacuum(olderThan)), ttl) <==> VacuumSpares(w, olderThan, ttl)
  {
    forall d | d in w.db.domains
      ensures HasCurrentRecord(Next(w, Vacuum(olderThan)).db, d) <==>
                HasCurrentRecord(w.db, d) && w.db.domains[d].lastResolvedAt >= Unix(w.now - olderThan)
    {
      CurrentAfterVacuum(w.db, d, Unix(w.now - olderThan));
    }
  }

  /** A valid domain last resolved at that second, backed by one record. */
  function OneDomain(at: int): Db {
    Db(map["d" := DomainRow(1, Valid, at)], map[RecordKey(1, V4([0, 0, 0, 0]), A) := RecordRow(at, true)], 2)
  }

  lemma OneDomainIsBacked(at: int, now: int, ttl: int)
    ensures WellFormed(OneDomain(at)) && Backed(World(OneDomain(at), now), ttl)
  {
    assert RecordKey(1, V4([0, 0, 0, 0]), A) in OneDomain(at).records;
  }

  /** Whatever is in the tables, a vacuum at this time keeps them backed exactly if its threshold is not
      past that of the TTL. */
  lemma SafeVacuumIff(now: int, olderThan: int, ttl: int)
    ensures (forall w: World | w.now == now && WellFormed(w.db) && Backed(w, ttl) ::
               Backed(Next(w, Vacuum(olderThan)), ttl))
       <==> Unix(now - olderThan) <= Unix(now) - Seconds(ttl)
  {
    forall w: World | w.now == now && WellFormed(w.db) && Backed(w, ttl)
               && Unix(now - olderThan) <= Unix(now) - Seconds(ttl)
      ensures Backed(Next(w, Vacuum(olderThan)), ttl)
    {
      VacuumKeepsBackedIff(w, olderThan, ttl);
    }
    if Unix(now - olderThan) > Unix(now) - Seconds(ttl) {
      var w := World(OneDomain(Unix(now - olderThan) - 1), now);
      OneDomainIsBacked(Unix(now - olderThan) - 1, now, ttl);
      VacuumKeepsBackedIff(w, olderThan, ttl);
      assert w.db.domains["d"].lastResolvedAt < Unix(now - olderThan);
      assert !Backed(Next(w, Vacuum(olderThan)), ttl);
    }
  }

  /** The vacuum handler passes 0: that is safe only for a TTL below one second. */
  lemma HandlerVacuumSafeIff(now: int, ttl: int)
    ensures (forall w: World | w.now == now && WellFormed(w.db) && Backed(w, ttl) :: Backed(Next(w, Vacuum(0)), ttl))
       <==> ttl < SECOND
  {
    SafeVacuumIff(now, 0, ttl);
  }

  /** olderThan at least the TTL is enough. */
  lemma TimeBound(now: int, olderThan: int, ttl: int)
    requires olderThan >= ttl >= 0
    ensures Unix(now - olderThan) <= Unix(now) - Seconds(ttl)
  {
  }

  lemma VacuumKeepsBacked(w: World, olderThan: int, ttl: int)
    requires WellFormed(w.db) && Backed(w, ttl) && olderThan >= ttl >= 0
    ensures Backed(Next(w, Vacuum(olderThan)), ttl)
  {
    TimeBound(w.now, olderThan, ttl);
    VacuumKeepsBackedIff(w, olderThan, ttl);
  }

  /** After a vacuum d is served exactly if the vacuum spares a valid record of d. */
  lemma VacuumServesIff(db: Db, d: string, threshold: int)
    ensures (exists key :: Serves(Vacuumed(db, threshold), d, key)) <==>
              exists key :: Serves(db, d, key) && db.records[key].updatedAt >= threshold
  {
    if key :| Serves(Vacuumed(db, threshold), d, key) {
      assert Serves(db, d, key) && db.records[key].updatedAt >= threshold;
    }
    if key :| Serves(db, d, key) && db.records[key].updatedAt >= threshold {
      assert Serves(Vacuumed(db, threshold), d, key);
    }
  }

  lemma AfterThree(w: World, e: Event, f: Event, g: Event)
    requires WellFormed(w.db)
    ensures WellFormed(Next(w, e).db) && WellFormed(Next(Next(w, e), f).db)
    ensures After(w, [e, f, g]) == Next(Next(Next(w, e), f), g)
  {
    NextWellFormed(w, e);
    NextWellFormed(Next(w, e), f);
    NextWellFormed(Next(Next(w, e), f), g);
    assert [e, f, g][1..] == [f, g] && [f, g][1..] == [g] && [g][1..] == [];
    assert After(Next(Next(w, e), f), [g]) == Next(Next(Next(w, e), f), g);
    assert After(Next(w, e), [f, g]) == After(Next(Next(w, e), f), [g]);
  }

  /** The records of a one-result batch are all of its second. */
  lemma OneSecondOld(r: ResolveResult, key: RecordKey)
    requires Serves(Upsert(EMPTY, [r]), r.domain, key)
    ensures Upsert(EMPTY, [r]).records[key].updatedAt == Unix(r.resolvedAt)
  {
    RecordsOfDomain(EMPTY, [r], r.domain, key);
    LastListingMeaning([r], r.domain, key.ip, key.typ);
  }

  /** A valid result, one second, and the handler's vacuum: the domain is fresh and valid, and nothing is
      served for it. */
  lemma HandlerVacuumExample(r: ResolveResult, ttl: int, failedTTL: int)
    requires r.status == Valid && r.ipv4 != [] && ttl >= SECOND
    ensures var w := After(World(EMPTY, r.resolvedAt), [UpsertBatch([r]), Tick(SECOND), Vacuum(0)]);
            && !Stale(w.db, r.domain, w.now, ttl, failedTTL) && w.db.domains[r.domain].status == Valid
            && !exists key :: Serves(w.db, r.domain, key)
  {
    var db, later := Upsert(EMPTY, [r]), r.resolvedAt + SECOND;
    AfterThree(World(EMPTY, r.resolvedAt), UpsertBatch([r]), Tick(SECOND), Vacuum(0));
    assert LastResult([r], r.domain) == Some(r);
    DomainsAfter(EMPTY, [r], r.domain);
    StaleAfterUpsert(EMPTY, [r], r.domain, later, ttl, failedTTL);
    VacuumServesIff(db, r.domain, Unix(later));
    forall key | Serves(db, r.domain, key)
      ensures db.records[key].updatedAt < Unix(later)
    {
      OneSecondOld(r, key);
    }
  }

  // --- histories ------------------------------------------------------------------------------

  /** What the callers of UpsertBatch see to: addresses with valid results, and, where a batch may stop,
      one result per domain. */
  ghost predicate Proper(e: Event) {
    match e
    case UpsertBatch(rs) => Addressed(rs)
    case StoppedBatch(rs, _) => forall r | r in rs :: OnlyResult(rs, r.domain, r)
    case Vacuum(_) => true
    case Tick(_) => true
  }

  /** The stopped batch has a row for every valid result within its TTL, or the table already held a valid
      record of that time. */
  ghost predicate StopSpares(w: World, rs: seq<ResolveResult>, n: nat, ttl: int)
    requires n <= |Expand(rs)|
  {
    forall r | r in rs && r.status == Valid && Unix(r.resolvedAt) >= Unix(w.now) - Seconds(ttl) ::
      || RowAmong(rs, n, r.domain)
      || (r.domain in w.db.domains && HasRecordLike(w.db, r.domain, RecordRow(Unix(r.resolvedAt), true)))
  }

  /** The event does no harm here. */
  ghost predicate Spares(w: World, e: Event, ttl: int) {
    match e
    case UpsertBatch(_) => true
    case StoppedBatch(rs, _) => StopSpares(w, rs, RowsDone(e), ttl)
    case Vacuum(olderThan) => VacuumSpares(w, olderThan, ttl)
    case Tick(_) => true
  }

  /** Records of a domain that is not in the batch stay. */
  lemma WrittenOther(db: Db, rs: seq<ResolveResult>, n: nat, d: string)
    requires WellFormed(db) && n <= |Expand(rs)| && LastResult(rs, d).None?
    ensures d in Written(db, rs, n).domains <==> d in db.domains
    ensures d in db.domains ==> Written(db, rs, n).domains[d] == db.domains[d]
    ensures d in db.domains ==> (HasCurrentRecord(Written(db, rs, n), d) <==> HasCurrentRecord(db, d))
  {
    var names, rows := UniqueNames(rs), Expand(rs)[..n];
    var db1 := WithDomains(db, names, rs);
    var ids := IdMap(db1, names);
    DomainsAfter(db, rs, d);
    RowsKnown(db, rs);
    UniqueNamesMeaning(rs, d);
    if d in db.domains {
      forall key: RecordKey | key.domainId == db.domains[d].id
        ensures key in Written(db, rs, n).records <==> key in db.records
        ensures key in db.records ==> Written(db, rs, n).records[key] == db.records[key]
      {
        NoRowsForOthers(db1, names, rows, d, key);
        RecordsAfter(ids, db1.records, rows, key);
      }
    }
  }

  lemma StopKeepsBackedIff(w: World, e: Event, ttl: int)
    requires WellFormed(w.db) && Backed(w, ttl) && e.StoppedBatch? && Proper(e)
    ensures Backed(Next(w, e), ttl) <==> StopSpares(w, e.results, RowsDone(e), ttl)
  {
    var rs, n, w2 := e.results, RowsDone(e), Next(w, e);
    forall r | r in rs && r.status == Valid
      ensures r.domain in w2.db.domains && w2.db.domains[r.domain].status == Valid
      ensures w2.db.domains[r.domain].lastResolvedAt == Unix(r.resolvedAt)
      ensures HasCurrentRecord(w2.db, r.domain) <==>
                || RowAmong(rs, n, r.domain)
                || (r.domain in w.db.domains
                    && HasRecordLike(w.db, r.domain, RecordRow(Unix(r.resolvedAt), true)))
    {
      StoppedBatchBackedIff(w.db, rs, n, r.domain, r);
      WrittenRecord(w.db, rs, n, r.domain, r, RecordKey(0, Invalid, A));
    }
    if StopSpares(w, rs, n, ttl) {
      forall d | d in w2.db.domains && w2.db.domains[d].status == Valid
        ensures HasCurrentRecord(w2.db, d) || w2.db.domains[d].lastResolvedAt < Unix(w2.now) - Seconds(ttl)
      {
        DomainsAfter(w.db, rs, d);
        LastResultMeaning(rs, d);
        if LastResult(rs, d).None? {
          WrittenOther(w.db, rs, n, d);
        }
      }
    }
  }

  /** An event keeps the tables backed exactly if it does no harm. */
  lemma KeepsBackedIff(w: World, e: Event, ttl: int)
    requires WellFormed(w.db) && Backed(w, ttl) && Proper(e)
    ensures Backed(Next(w, e), ttl) <==> Spares(w, e, ttl)
  {
    match e
    case UpsertBatch(rs) => UpsertKeepsBacked(w, rs, ttl);
    case StoppedBatch(_, _) => StopKeepsBackedIff(w, e, ttl);
    case Vacuum(olderThan) => VacuumKeepsBackedIff(w, olderThan, ttl);
    case Tick(_) =>
  }

  ghost predicate BackedThroughout(w: World, es: seq<Event>, ttl: int)
    requires WellFormed(w.db)
    decreases |es|
  {
    NextWellFormed(w, if es == [] then Tick(0) else es[0]);
    Backed(w, ttl) && (es == [] || BackedThroughout(Next(w, es[0]), es[1..], ttl))
  }

  ghost predicate SparesThroughout(w: World, es: seq<Event>, ttl: int)
    requires WellFormed(w.db)
    decreases |es|
  {
    NextWellFormed(w, if es == [] then Tick(0) else es[0]);
    es == [] || (Spares(w, es[0], ttl) && SparesThroughout(Next(w, es[0]), es[1..], ttl))
  }

  /** Over any history the tables stay backed exactly if each stopped batch and each vacuum does no harm
      where it happens. */
  lemma {:induction false} HistoryKeepsBackedIff(w: World, es: seq<Event>, ttl: int)
    requires WellFormed(w.db) && Backed(w, ttl)
    requires forall i | 0 <= i < |es| :: Proper(es[i])
    ensures BackedThroughout(w, es, ttl) <==> SparesThroughout(w, es, ttl)
    decreases |es|
  {
    if es != [] {
      NextWellFormed(w, es[0]);
      KeepsBackedIff(w, es[0], ttl);
      if Spares(w, es[0], ttl) {
        HistoryKeepsBackedIff(Next(w, es[0]), es[1..], ttl);
      } else {
        assert !BackedThroughout(Next(w, es[0]), es[1..], ttl);
      }
    }
  }

  lemma {:induction false} BackedAtTheEnd(w: World, es: seq<Event>, ttl: int)
    requires WellFormed(w.db) && BackedThroughout(w, es, ttl)
    ensures Backed(After(w, es), ttl)
    decreases |es|
  {
    if es != [] {
      NextWellFormed(w, es[0]);
      BackedAtTheEnd(Next(w, es[0]), es[1..], ttl);
    }
  }

  /** From an empty cache, over any history in which no stopped batch and no vacuum does harm: a domain that
      NeedsRefresh calls fresh and whose status is valid has a valid record in SnapshotForDomains. */
  lemma FreshValidIsServed(start: int, es: seq<Event>, d: string, ttl: int, failedTTL: int)
    requires forall i | 0 <= i < |es| :: Proper(es[i])
    requires SparesThroughout(World(EMPTY, start), es, ttl)
    ensures var w := After(World(EMPTY, start), es);
            !Stale(w.db, d, w.now, ttl, failedTTL) && w.db.domains[d].status == Valid ==>
              exists key :: Serves(w.db, d, key)
  {
    var w := After(World(EMPTY, start), es);
    HistoryKeepsBackedIff(World(EMPTY, start), es, ttl);
    BackedAtTheEnd(World(EMPTY, start), es, ttl);
    if !Stale(w.db, d, w.now, ttl, failedTTL) && w.db.domains[d].status == Valid {
      BackedIsServed(w, d, ttl, failedTTL);
    }
  }

  /** No batch stops, and no vacuum reaches into the TTL. */
  predicate Careful(e: Event, ttl: int) {
    match e
    case UpsertBatch(rs) => Addressed(rs)
    case StoppedBatch(_, _) => false
    case Vacuum(olderThan) => olderThan >= ttl
    case Tick(_) => true
  }

  /** Such a history does no harm, so it keeps the promise. */
  lemma {:induction false} CarefulSpares(w: World, es: seq<Event>, ttl: int)
    requires WellFormed(w.db) && Backed(w, ttl) && ttl >= 0
    requires forall i | 0 <= i < |es| :: Careful(es[i], ttl)
    ensures forall i | 0 <= i < |es| :: Proper(es[i])
    ensures SparesThroughout(w, es, ttl)
    decreases |es|
  {
    if es != [] {
      NextWellFormed(w, es[0]);
      if es[0].Vacuum? {
        VacuumKeepsBacked(w, es[0].olderThan, ttl);
      }
      KeepsBackedIff(w, es[0], ttl);
      assert Spares(w, es[0], ttl);
      CarefulSpares(Next(w, es[0]), es[1..], ttl);
      assert forall i | 1 <= i < |es| :: es[i] == es[1..][i - 1];
    }
  }
}
