/** What NeedsRefresh means over whole histories of upserts, vacuums and passing time. */
module CacheFreshness {
  import opened Collections
  import opened NetIP
  import opened CacheDb

  const EMPTY: Db := Db(map[], map[], 1)

  /** The TTL policy of checkStaleBatch. */
  predicate Stale(db: Db, d: string, now: int, ttl: int, failedTTL: int) {
    || d !in db.domains
    || db.domains[d].status == Unknown
    || db.domains[d].lastResolvedAt < Unix(now) - Seconds(TTLFor(db.domains[d].status, ttl, failedTTL))
  }

  function TTLFor(status: Status, ttl: int, failedTTL: int): int {
    if status == Failed || status == NXDomain then failedTTL else ttl
  }

  /** DELETE FROM records WHERE updated_at < threshold */
  function Vacuumed(db: Db, threshold: int): Db {
    db.(records := map k | k in db.records && db.records[k].updatedAt >= threshold :: db.records[k])
  }

  /** SnapshotForDomains returns this record for d. */
  predicate Serves(db: Db, d: string, key: RecordKey) {
    d in db.domains && key in db.records && key.domainId == db.domains[d].id && db.records[key].valid
  }

  // --- the rows of one domain in a batch ------------------------------------------

  lemma {:induction false} LastRowConcat(ids: map<string, nat>, xs: seq<Row>, ys: seq<Row>, key: RecordKey)
    requires Known(ids, xs) && Known(ids, ys)
    ensures Known(ids, xs + ys)
    ensures LastRow(ids, xs + ys, key) ==
            if LastRow(ids, ys, key).Some? then LastRow(ids, ys, key) else LastRow(ids, xs, key)
    decreases |ys|
  {
    assert forall r :: r in xs + ys <==> r in xs || r in ys;
    if ys == [] {
      assert xs + ys == xs;
    } else {
      assert (xs + ys)[..|xs + ys| - 1] == xs + ys[..|ys| - 1];
      LastRowConcat(ids, xs, ys[..|ys| - 1], key);
    }
  }

  ghost predicate Injective(ids: map<string, nat>) {
    forall d, e | d in ids && e in ids && ids[d] == ids[e] :: d == e
  }

  lemma ResultRowsMeaning(r: ResolveResult, row: Row)
    requires row in ResultRows(r)
    ensures row.domain == r.domain && row.updatedAt == Unix(r.resolvedAt) && row.valid == (r.status == Valid)
  {
  }

  /** The result lists the address as a record of that type. */
  predicate Lists(r: ResolveResult, ip: Addr, typ: RecordType) {
    if typ == A then ip in r.ipv4 else ip in r.ipv6
  }

  /** The last result for d that lists the address. */
  function LastListing(rs: seq<ResolveResult>, d: string, ip: Addr, typ: RecordType): Option<ResolveResult> {
    if rs == [] then None
    else if rs[|rs| - 1].domain == d && Lists(rs[|rs| - 1], ip, typ) then Some(rs[|rs| - 1])
    else LastListing(rs[..|rs| - 1], d, ip, typ)
  }

  lemma {:induction false} LastListingMeaning(rs: seq<ResolveResult>, d: string, ip: Addr, typ: RecordType)
    ensures LastListing(rs, d, ip, typ).Some? <==> exists r | r in rs :: r.domain == d && Lists(r, ip, typ)
    ensures LastResult(rs, d).Some? && Lists(LastResult(rs, d).value, ip, typ) ==>
              LastListing(rs, d, ip, typ) == LastResult(rs, d)
  {
    if rs != [] {
      LastListingMeaning(rs[..|rs| - 1], d, ip, typ);
      assert rs == rs[..|rs| - 1] + [rs[|rs| - 1]];
    }
  }

  /** A result has a row for the key exactly if it is one of the domain and lists the address. */
  lemma RowsOfResult(ids: map<string, nat>, r: ResolveResult, d: string, key: RecordKey)
    requires Known(ids, ResultRows(r)) && Injective(ids) && d in ids && key.domainId == ids[d]
    ensures LastRow(ids, ResultRows(r), key).Some? <==> r.domain == d && Lists(r, key.ip, key.typ)
    ensures LastRow(ids, ResultRows(r), key).Some? ==>
              var row := LastRow(ids, ResultRows(r), key).value;
              row.updatedAt == Unix(r.resolvedAt) && row.valid == (r.status == Valid)
  {
    LastRowMeaning(ids, ResultRows(r), key);
    forall row | row in ResultRows(r)
      ensures row.domain == r.domain && row.updatedAt == Unix(r.resolvedAt) && row.valid == (r.status == Valid)
      ensures Lists(r, row.ip, row.typ)
    {
      ResultRowsMeaning(r, row);
    }
    if r.domain == d && Lists(r, key.ip, key.typ) {
      RowForAddress(r, key.ip, key.typ);
    }
  }

  /** The last row written for a record of d comes from the last result for d that lists its address. */
  lemma {:induction false} LastRowIsLastListing(ids: map<string, nat>, rs: seq<ResolveResult>, d: string,
                                                key: RecordKey)
    requires Known(ids, Expand(rs)) && Injective(ids) && d in ids && key.domainId == ids[d]
    ensures match LastListing(rs, d, key.ip, key.typ)
            case None => LastRow(ids, Expand(rs), key).None?
            case Some(r) =>
              && LastRow(ids, Expand(rs), key).Some?
              && LastRow(ids, Expand(rs), key).value.updatedAt == Unix(r.resolvedAt)
              && LastRow(ids, Expand(rs), key).value.valid == (r.status == Valid)
    decreases |rs|
  {
    if rs != [] {
      var init, last := rs[..|rs| - 1], rs[|rs| - 1];
      var xs, ys := Expand(init), ResultRows(last);
      assert forall r :: r in xs + ys <==> r in xs || r in ys;
      LastRowConcat(ids, xs, ys, key);
      LastRowIsLastListing(ids, init, d, key);
      RowsOfResult(ids, last, d, key);
    }
  }

  lemma IdMapInjective(db: Db, names: seq<string>)
    requires WellFormed(db)
    ensures Injective(IdMap(db, names))
  {
  }

  /** UpsertBatch as a last-write-wins update: each record of d has the time and validity of the last
      result for d that lists its address, and is as it was if there is none. */
  lemma RecordsOfDomain(db: Db, rs: seq<ResolveResult>, d: string, key: RecordKey)
    requires WellFormed(db) && d in Upsert(db, rs).domains && key.domainId == Upsert(db, rs).domains[d].id
    ensures match LastListing(rs, d, key.ip, key.typ)
            case Some(r) =>
              && key in Upsert(db, rs).records
              && Upsert(db, rs).records[key] == RecordRow(Unix(r.resolvedAt), r.status == Valid)
            case None =>
              && (key in Upsert(db, rs).records <==> key in db.records)
              && (key in db.records ==> Upsert(db, rs).records[key] == db.records[key])
  {
    var names := UniqueNames(rs);
    var db1 := WithDomains(db, names, rs);
    var ids, rows := IdMap(db1, names), Expand(rs);
    DomainsAfter(db, rs, d);
    RowsKnown(db, rs);
    IdMapInjective(db1, names);
    RecordsAfter(ids, db1.records, rows, key);
    UniqueNamesMeaning(rs, d);
    if LastResult(rs, d).None? {
      NoRowsForOthers(db1, names, rows, d, key);
      NoListingForOthers(rs, d, key.ip, key.typ);
    } else {
      LastRowIsLastListing(ids, rs, d, key);
    }
  }

  lemma NoListingForOthers(rs: seq<ResolveResult>, d: string, ip: Addr, typ: RecordType)
    requires LastResult(rs, d).None?
    ensures LastListing(rs, d, ip, typ).None?
  {
    LastResultMeaning(rs, d);
    LastListingMeaning(rs, d, ip, typ);
  }

  lemma RowForAddress(r: ResolveResult, ip: Addr, typ: RecordType)
    requires if typ == A then ip in r.ipv4 else ip in r.ipv6
    ensures Row(r.domain, ip, typ, Unix(r.resolvedAt), r.status == Valid) in ResultRows(r)
  {
    var ips := if typ == A then r.ipv4 else r.ipv6;
    var i :| 0 <= i < |ips| && ips[i] == ip;
    assert AddressRows(r, ips, typ)[i] == Row(r.domain, ip, typ, Unix(r.resolvedAt), r.status == Valid);
    assert AddressRows(r, ips, typ)[i] in AddressRows(r, ips, typ);
  }

  /** A domain outside the batch gets no rows. */
  lemma NoRowsForOthers(db1: Db, names: seq<string>, rows: seq<Row>, d: string, key: RecordKey)
    requires WellFormed(db1) && Known(IdMap(db1, names), rows)
    requires d in db1.domains && d !in names && key.domainId == db1.domains[d].id
    ensures LastRow(IdMap(db1, names), rows, key).None?
  {
    LastRowMeaning(IdMap(db1, names), rows, key);
  }

  lemma UpsertWellFormed(db: Db, rs: seq<ResolveResult>)
    requires WellFormed(db)
    ensures WellFormed(Upsert(db, rs))
  {
    DomainsAfter(db, rs, "");
    RowsKnown(db, rs);
    var db1 := WithDomains(db, UniqueNames(rs), rs);
    UpsertRowsIds(IdMap(db1, UniqueNames(rs)), db1.records, Expand(rs), db1.nextId);
  }

  // --- upsert, then ask ---------------------------------------------------------------

  /** After a batch, a domain in it is stale exactly by the status and age of its last result;
      any other domain is as stale as it was. */
  lemma StaleAfterUpsert(db: Db, rs: seq<ResolveResult>, d: string, now: int, ttl: int, failedTTL: int)
    requires WellFormed(db)
    ensures LastResult(rs, d).Some? ==>
              var r := LastResult(rs, d).value;
              Stale(Upsert(db, rs), d, now, ttl, failedTTL) <==>
                || r.status == Unknown
                || Unix(r.resolvedAt) < Unix(now) - Seconds(TTLFor(r.status, ttl, failedTTL))
    ensures LastResult(rs, d).None? ==>
              (Stale(Upsert(db, rs), d, now, ttl, failedTTL) <==> Stale(db, d, now, ttl, failedTTL))
  {
    DomainsAfter(db, rs, d);
  }

  lemma {:induction false} InsertKnownNames(db: Db, names: seq<string>)
    requires forall n | n in names :: n in db.domains
    ensures InsertNames(db, names) == db
  {
    if names != [] {
      InsertKnownNames(db, names[..|names| - 1]);
    }
  }

  // --- a domain without records --------------------------------------------------------

  ghost predicate HasRecord(db: Db, d: string) {
    d in db.domains && exists key :: key in db.records && key.domainId == db.domains[d].id
  }

  /** Some result of the batch gives d an address. */
  predicate GivesAddress(rs: seq<ResolveResult>, d: string) {
    exists r | r in rs :: r.domain == d && (|r.ipv4| > 0 || |r.ipv6| > 0)
  }

  /** A batch gives d a record exactly if it gives d an address; it takes none away. */
  lemma RecordedAfterUpsert(db: Db, rs: seq<ResolveResult>, d: string)
    requires WellFormed(db)
    ensures HasRecord(Upsert(db, rs), d) <==> HasRecord(db, d) || GivesAddress(rs, d)
  {
    var db2 := Upsert(db, rs);
    DomainsAfter(db, rs, d);
    LastResultMeaning(rs, d);
    if HasRecord(db2, d) {
      var key :| key in db2.records && key.domainId == db2.domains[d].id;
      RecordsOfDomain(db, rs, d, key);
      LastListingMeaning(rs, d, key.ip, key.typ);
    }
    if HasRecord(db, d) {
      var key :| key in db.records && key.domainId == db.domains[d].id;
      RecordsOfDomain(db, rs, d, key);
      assert key in db2.records;
    }
    if GivesAddress(rs, d) {
      var r :| r in rs && r.domain == d && (|r.ipv4| > 0 || |r.ipv6| > 0);
      var key := if |r.ipv4| > 0 then RecordKey(db2.domains[d].id, r.ipv4[0], A)
                 else RecordKey(db2.domains[d].id, r.ipv6[0], AAAA);
      assert Lists(r, key.ip, key.typ);
      LastListingMeaning(rs, d, key.ip, key.typ);
      RecordsOfDomain(db, rs, d, key);
      assert key in db2.records;
    }
  }

  /** "A domain without records is stale" holds of d after a batch exactly if d then has a record, or its
      last result is unknown or past its TTL. */
  lemma NoRecordsMeansStaleIff(db: Db, rs: seq<ResolveResult>, d: string, now: int, ttl: int, failedTTL: int)
    requires WellFormed(db) && LastResult(rs, d).Some?
    ensures var db2, r := Upsert(db, rs), LastResult(rs, d).value;
            (!HasRecord(db2, d) ==> Stale(db2, d, now, ttl, failedTTL)) <==>
              || HasRecord(db, d) || GivesAddress(rs, d)
              || r.status == Unknown
              || Unix(r.resolvedAt) < Unix(now) - Seconds(TTLFor(r.status, ttl, failedTTL))
  {
    RecordedAfterUpsert(db, rs, d);
    StaleAfterUpsert(db, rs, d, now, ttl, failedTTL);
  }

  /** d has a record that a vacuum at this threshold spares. */
  ghost predicate HasRecentRecord(db: Db, d: string, threshold: int) {
    && d in db.domains
    && exists key :: key in db.records && key.domainId == db.domains[d].id && db.records[key].updatedAt >= threshold
  }

  lemma RecordedAfterVacuum(db: Db, d: string, threshold: int)
    ensures HasRecord(Vacuumed(db, threshold), d) <==> HasRecentRecord(db, d, threshold)
  {
    var db2 := Vacuumed(db, threshold);
    if HasRecentRecord(db, d, threshold) {
      var key :| key in db.records && key.domainId == db.domains[d].id && db.records[key].updatedAt >= threshold;
      assert key in db2.records;
    }
    if HasRecord(db2, d) {
      var key :| key in db2.records && key.domainId == db2.domains[d].id;
      assert key in db.records;
    }
  }

  /** After a vacuum the rule holds of d exactly if d is stale, or has a record that the vacuum spares. */
  lemma NoRecordsMeansStaleAfterVacuumIff(db: Db, d: string, threshold: int, now: int, ttl: int, failedTTL: int)
    ensures var db2 := Vacuumed(db, threshold);
            (!HasRecord(db2, d) ==> Stale(db2, d, now, ttl, failedTTL)) <==>
              Stale(db, d, now, ttl, failedTTL) || HasRecentRecord(db, d, threshold)
  {
    RecordedAfterVacuum(db, d, threshold);
  }

  /** The batch's last result for d with this address is that recent. */
  predicate ListedSince(rs: seq<ResolveResult>, d: string, ip: Addr, typ: RecordType, threshold: int) {
    match LastListing(rs, d, ip, typ)
    case None => false
    case Some(r) => Unix(r.resolvedAt) >= threshold
  }

  /** A record of d that the batch leaves alone is that recent. */
  ghost predicate KeptSince(db: Db, rs: seq<ResolveResult>, d: string, key: RecordKey, threshold: int) {
    && d in db.domains && key in db.records && key.domainId == db.domains[d].id
    && LastListing(rs, d, key.ip, key.typ).None? && db.records[key].updatedAt >= threshold
  }

  /** What a batch leaves to a vacuum: the addresses listed recently, and recent records it did not touch. */
  lemma RecentAfterUpsert(db: Db, rs: seq<ResolveResult>, d: string, threshold: int)
    requires WellFormed(db)
    ensures HasRecentRecord(Upsert(db, rs), d, threshold) <==>
              || (exists ip, typ :: ListedSince(rs, d, ip, typ, threshold))
              || (exists key :: KeptSince(db, rs, d, key, threshold))
  {
    var db2 := Upsert(db, rs);
    DomainsAfter(db, rs, d);
    LastResultMeaning(rs, d);
    if HasRecentRecord(db2, d, threshold) {
      var key :| key in db2.records && key.domainId == db2.domains[d].id && db2.records[key].updatedAt >= threshold;
      RecordsOfDomain(db, rs, d, key);
      if LastListing(rs, d, key.ip, key.typ).Some? {
        assert ListedSince(rs, d, key.ip, key.typ, threshold);
      } else {
        assert KeptSince(db, rs, d, key, threshold);
      }
    }
    if ip, typ :| ListedSince(rs, d, ip, typ, threshold) {
      LastListingMeaning(rs, d, ip, typ);
      var key := RecordKey(db2.domains[d].id, ip, typ);
      RecordsOfDomain(db, rs, d, key);
      assert key in db2.records;
    }
    if key :| KeptSince(db, rs, d, key, threshold) {
      RecordsOfDomain(db, rs, d, key);
      assert key in db2.records;
    }
  }

  /** So after a batch into an empty cache and then a vacuum, the rule holds of a domain of the batch exactly
      if its last result is unknown or past its TTL, or an address was last listed recently enough. */
  lemma RuleAfterBatchAndVacuumIff(rs: seq<ResolveResult>, d: string, threshold: int, now: int,
                                   ttl: int, failedTTL: int)
    requires LastResult(rs, d).Some?
    ensures var db2, r := Vacuumed(Upsert(EMPTY, rs), threshold), LastResult(rs, d).value;
            (!HasRecord(db2, d) ==> Stale(db2, d, now, ttl, failedTTL)) <==>
              || (exists ip, typ :: ListedSince(rs, d, ip, typ, threshold))
              || r.status == Unknown
              || Unix(r.resolvedAt) < Unix(now) - Seconds(TTLFor(r.status, ttl, failedTTL))
  {
    NoRecordsMeansStaleAfterVacuumIff(Upsert(EMPTY, rs), d, threshold, now, ttl, failedTTL);
    RecentAfterUpsert(EMPTY, rs, d, threshold);
    StaleAfterUpsert(EMPTY, rs, d, now, ttl, failedTTL);
  }

  /** A name that does not exist, just resolved: no records, and fresh. */
  lemma FreshWithoutRecordsExample(d: string, now: int, ttl: int, failedTTL: int)
    requires failedTTL >= 0
    ensures var db := Upsert(EMPTY, [ResolveResult(d, [], [], NXDomain, now)]);
            !HasRecord(db, d) && d in db.domains && !Stale(db, d, now, ttl, failedTTL)
  {
    var rs := [ResolveResult(d, [], [], NXDomain, now)];
    assert LastResult(rs, d) == Some(rs[0]);
    NoRecordsMeansStaleIff(EMPTY, rs, d, now, ttl, failedTTL);
    DomainsAfter(EMPTY, rs, d);
  }

  // --- refreshing ------------------------------------------------------------------------

  /** After a batch with a settled result for every name that was stale, such a name is not stale while
      the clock stays within the TTL of that result. */
  lemma RefreshedNamesStayFresh(db: Db, rs: seq<ResolveResult>, names: seq<string>, now: int, later: int,
                                ttl: int, failedTTL: int)
    requires WellFormed(db)
    requires forall d | d in names && Stale(db, d, now, ttl, failedTTL) ::
               && LastResult(rs, d).Some? && LastResult(rs, d).value.status != Unknown
               && Unix(later) - Seconds(TTLFor(LastResult(rs, d).value.status, ttl, failedTTL))
                  <= Unix(LastResult(rs, d).value.resolvedAt)
    ensures forall d | d in names && Stale(db, d, now, ttl, failedTTL) ::
              !Stale(Upsert(db, rs), d, later, ttl, failedTTL)
  {
    forall d | d in names && Stale(db, d, now, ttl, failedTTL)
      ensures !Stale(Upsert(db, rs), d, later, ttl, failedTTL)
    {
      StaleAfterUpsert(db, rs, d, later, ttl, failedTTL);
    }
  }
}
