/** The loops of internal/cache around its SQL statements: chunks, transactions, maps and sorts. */
module SQLiteCache {
  import opened Collections
  import opened NetIP
  import opened CacheDb
  import opened CacheFreshness
  import opened Sorting

  /** maxParamsPerStmt */
  const MAX_PARAMS := 900

  /** maxRowsPerTx */
  const MAX_ROWS := 1000

  function ChunkEnd(i: nat, step: nat, length: nat): nat {
    if i + step > length then length else i + step
  }

  // --- the order of sort.Strings ------------------------------------------------------

  predicate StringLess(a: string, b: string) {
    if a == [] || b == [] then a == [] && b != []
    else a[0] < b[0] || (a[0] == b[0] && StringLess(a[1..], b[1..]))
  }

  lemma {:induction false} StringLessTransitive(a: string, b: string, c: string)
    ensures StringLess(a, b) && StringLess(b, c) ==> StringLess(a, c)
  {
    if a != [] && b != [] && c != [] {
      StringLessTransitive(a[1..], b[1..], c[1..]);
    }
  }

  lemma {:induction false} StringLessTotal(a: string, b: string)
    ensures !StringLess(a, a)
    ensures StringLess(a, b) || StringLess(b, a) || a == b
  {
    if a != [] && b != [] {
      StringLessTotal(a[1..], b[1..]);
      if a[0] == b[0] && a[1..] == b[1..] {
        assert a == [a[0]] + a[1..] && b == [b[0]] + b[1..];
      }
    } else if a != [] {
      StringLessTotal(a[1..], a[1..]);
    }
  }

  lemma StringLessIsOrder()
    ensures StrictWeakOrder(StringLess)
  {
    forall a, b, c
      ensures !StringLess(a, a)
      ensures StringLess(a, b) && StringLess(b, c) ==> StringLess(a, c)
      ensures StringLess(a, c) ==> StringLess(a, b) || StringLess(b, c)
    {
      StringLessTotal(a, b);
      StringLessTransitive(a, b, c);
      StringLessTransitive(b, a, c);
    }
  }

  /** Sorting names that are all different puts them in strict order. */
  lemma SortNames(xs: seq<string>)
    requires NoDup(xs)
    ensures StrictlySorted(StringLess, Sort(StringLess, xs))
    ensures forall d :: d in Sort(StringLess, xs) <==> d in xs
  {
    var ys := Sort(StringLess, xs);
    StringLessIsOrder();
    SortSorts(StringLess, xs);
    SortIsPermutation(StringLess, xs);
    SameElements(ys, xs);
    PermutedNoDup(xs, ys);
    forall i, j | 0 <= i < j < |ys|
      ensures StringLess(ys[i], ys[j])
    {
      StringLessTotal(ys[i], ys[j]);
    }
  }

  // --- what a query selects ----------------------------------------------------------------

  /** The row's verdict in checkStaleBatch. */
  predicate RowIsStale(row: DomainRow, validThreshold: int, failedThreshold: int) {
    || row.status == Unknown
    || row.lastResolvedAt <
         (if row.status == Failed || row.status == NXDomain then failedThreshold else validThreshold)
  }

  /** The verdicts on those of the names that have a row. */
  function Verdicts(db: Db, names: seq<string>, validThreshold: int, failedThreshold: int): map<string, bool> {
    map d | d in names && d in db.domains :: RowIsStale(db.domains[d], validThreshold, failedThreshold)
  }

  /** The join of SnapshotForDomains: valid records of the named domains. */
  function Matching(db: Db, names: seq<string>): set<RecordKey> {
    set k | k in db.records && db.records[k].valid
         && exists d | d in names :: d in db.domains && db.domains[d].id == k.domainId
  }

  predicate ReadAsIPv4(k: RecordKey) {
    k.typ == A || k.ip.V4?
  }

  ghost function Holding(keys: set<RecordKey>, ip: Addr, v4: bool): set<RecordKey> {
    set k | k in keys && k.ip == ip && ReadAsIPv4(k) == v4
  }

  /** Each selected record puts its address once into the list of its family. */
  ghost predicate ListsEachOnce(keys: set<RecordKey>, ipv4: seq<Addr>, ipv6: seq<Addr>) {
    forall ip :: multiset(ipv4)[ip] == |Holding(keys, ip, true)| && multiset(ipv6)[ip] == |Holding(keys, ip, false)|
  }

  lemma HoldingAdd(keys: set<RecordKey>, k: RecordKey, ip: Addr, v4: bool)
    requires k !in keys
    ensures |Holding(keys + {k}, ip, v4)|
            == |Holding(keys, ip, v4)| + (if k.ip == ip && ReadAsIPv4(k) == v4 then 1 else 0)
  {
    var before := Holding(keys, ip, v4);
    if k.ip == ip && ReadAsIPv4(k) == v4 {
      assert Holding(keys + {k}, ip, v4) == before + {k};
    } else {
      assert Holding(keys + {k}, ip, v4) == before;
    }
  }

  lemma ListsOneMore(keys: set<RecordKey>, k: RecordKey, ipv4: seq<Addr>, ipv6: seq<Addr>)
    requires ListsEachOnce(keys, ipv4, ipv6) && k !in keys
    ensures ReadAsIPv4(k) ==> ListsEachOnce(keys + {k}, ipv4 + [k.ip], ipv6)
    ensures !ReadAsIPv4(k) ==> ListsEachOnce(keys + {k}, ipv4, ipv6 + [k.ip])
  {
    forall ip
      ensures ReadAsIPv4(k) ==>
                && multiset(ipv4 + [k.ip])[ip] == |Holding(keys + {k}, ip, true)|
                && multiset(ipv6)[ip] == |Holding(keys + {k}, ip, false)|
      ensures !ReadAsIPv4(k) ==>
                && multiset(ipv4)[ip] == |Holding(keys + {k}, ip, true)|
                && multiset(ipv6 + [k.ip])[ip] == |Holding(keys + {k}, ip, false)|
    {
      HoldingAdd(keys, k, ip, true);
      HoldingAdd(keys, k, ip, false);
    }
  }

  /** A record that serves a named domain is in the lists. */
  lemma ServedIsListed(db: Db, names: seq<string>, d: string, k: RecordKey, ipv4: seq<Addr>, ipv6: seq<Addr>)
    requires d in names && Serves(db, d, k) && ListsEachOnce(Matching(db, names), ipv4, ipv6)
    ensures if ReadAsIPv4(k) then k.ip in ipv4 else k.ip in ipv6
  {
    assert k in Matching(db, names);
    var held := Holding(Matching(db, names), k.ip, ReadAsIPv4(k));
    assert k in held;
    assert |held| > 0;
  }

  // --- running a stopped batch again ----------------------------------------------------------

  /** Rewriting all rows after a prefix of them is writing them once. */
  lemma RowsAfterPrefix(ids: map<string, nat>, records: map<RecordKey, RecordRow>, rows: seq<Row>, n: nat)
    requires n <= |rows| && Known(ids, rows) && Known(ids, rows[..n])
    ensures UpsertRows(ids, UpsertRows(ids, records, rows[..n]), rows) == UpsertRows(ids, records, rows)
  {
    var part := UpsertRows(ids, records, rows[..n]);
    var redone, once := UpsertRows(ids, part, rows), UpsertRows(ids, records, rows);
    forall key: RecordKey
      ensures key in redone <==> key in once
      ensures key in once ==> redone[key] == once[key]
    {
      RecordsAfter(ids, records, rows, key);
      RecordsAfter(ids, part, rows, key);
      RecordsAfter(ids, records, rows[..n], key);
      LastRowMeaning(ids, rows, key);
      LastRowMeaning(ids, rows[..n], key);
      assert forall r | r in rows[..n] :: r in rows;
    }
  }

  /** Running a batch again after it stopped partway ends where an undisturbed run would have. */
  lemma RetryCompletes(db: Db, rs: seq<ResolveResult>, n: nat)
    requires WellFormed(db) && n <= |Expand(rs)|
    ensures WellFormed(Written(db, rs, n))
    ensures Upsert(Written(db, rs, n), rs) == Upsert(db, rs)
  {
    WrittenWellFormed(db, rs, n);
    var part, names := Written(db, rs, n), UniqueNames(rs);
    var db1, db2 := WithDomains(db, names, rs), WithDomains(part, names, rs);
    forall d
      ensures d in db2.domains <==> d in db1.domains
      ensures d in db1.domains ==> db2.domains[d] == db1.domains[d]
      ensures d in names ==> d in part.domains
    {
      DomainsAfter(db, rs, d);
      DomainsAfter(part, rs, d);
      UniqueNamesMeaning(rs, d);
    }
    InsertKnownNames(part, names);
    SetStatusesEffect(InsertNames(part, names), Statuses(rs));
    assert db2.domains == db1.domains;
    DomainsAfter(part, rs, "");
    RowsKnown(db, rs);
    RowsKnown(part, rs);
    assert IdMap(db2, names) == IdMap(db1, names);
    RowsAfterPrefix(IdMap(db1, names), db1.records, Expand(rs), n);
  }

  /** Writing a batch twice is writing it once. */
  lemma UpsertIdempotent(db: Db, rs: seq<ResolveResult>)
    requires WellFormed(db)
    ensures WellFormed(Upsert(db, rs))
    ensures Upsert(Upsert(db, rs), rs) == Upsert(db, rs)
  {
    WrittenAll(db, rs);
    RetryCompletes(db, rs, |Expand(rs)|);
  }

  lemma IdMapConcat(tx: Db, xs: seq<string>, ys: seq<string>)
    ensures IdMap(tx, xs + ys) == IdMap(tx, xs) + IdMap(tx, ys)
  {
    MergedMap(IdMap(tx, xs), IdMap(tx, ys), IdMap(tx, xs + ys));
  }

  lemma VerdictsConcat(db: Db, xs: seq<string>, ys: seq<string>, valid: int, failed: int)
    ensures Verdicts(db, xs + ys, valid, failed) == Verdicts(db, xs, valid, failed) + Verdicts(db, ys, valid, failed)
  {
    MergedMap(Verdicts(db, xs, valid, failed), Verdicts(db, ys, valid, failed), Verdicts(db, xs + ys, valid, failed));
  }

  // --- maps read in parts ---------------------------------------------------------------------

  /** right has been written over left for the keys in done. */
  ghost predicate Overwritten<V>(left: map<string, V>, right: map<string, V>, done: set<string>,
                                       merged: map<string, V>)
  {
    && done <= right.Keys && merged.Keys == left.Keys + done
    && forall d | d in merged :: merged[d] == if d in done then right[d] else left[d]
  }

  lemma OverwriteOne<V>(left: map<string, V>, right: map<string, V>, done: set<string>, merged: map<string, V>,
                        d: string)
    requires Overwritten(left, right, done, merged) && d in right
    ensures Overwritten(left, right, done + {d}, merged[d := right[d]])
  {
  }

  lemma OverwrittenAll<V>(left: map<string, V>, right: map<string, V>, done: set<string>, merged: map<string, V>)
    requires Overwritten(left, right, done, merged) && done == right.Keys
    ensures merged == left + right
  {
  }

  lemma MergedMap<V>(left: map<string, V>, right: map<string, V>, merged: map<string, V>)
    requires forall d :: d in merged <==> d in left || d in right
    requires forall d | d in right :: merged[d] == right[d]
    requires forall d | d in left && d !in right :: merged[d] == left[d]
    ensures merged == left + right
  {
  }

  /** Where UpsertBatch stands after n record rows. */
  lemma WrittenFromParts(db: Db, rs: seq<ResolveResult>, n: nat, db1: Db, ids: map<string, nat>, after: Db)
    requires WellFormed(db) && n <= |Expand(rs)|
    requires db1 == WithDomains(db, UniqueNames(rs), rs) && ids == IdMap(db1, UniqueNames(rs))
    requires Known(ids, Expand(rs)[..n])
    requires after == db1.(records := UpsertRows(ids, db1.records, Expand(rs)[..n]))
    ensures WellFormed(after) && after == Written(db, rs, n)
    ensures n == |Expand(rs)| ==> after == Upsert(db, rs)
  {
    WrittenAll(db, rs);
    WrittenWellFormed(db, rs, n);
  }

  // --- the cache -------------------------------------------------------------------------------

  class Cache {
    var db: Db

    constructor ()
      ensures db == EMPTY && WellFormed(db)
    {
      db := EMPTY;
    }

    /** ensureAllDomainsWithStatus. A failing statement or commit (commits is false) rolls back. */
    method EnsureAllDomainsWithStatus(names: seq<string>, statuses: seq<DomainStatus>, commits: bool)
      returns (ok: bool, idMap: map<string, nat>)
      requires names == [] ==> statuses == []
      modifies this
      ensures ok == (commits || names == [])
      ensures ok ==> db == SetStatuses(InsertNames(old(db), names), statuses) && idMap == IdMap(db, names)
      ensures !ok ==> db == old(db)
    {
      if |names| == 0 {
        return true, map[];
      }
      var tx := InsertAll(db, names);
      tx := SetAll(tx, statuses);
      idMap := ReadAllIds(tx, names);
      if !commits {
        return false, map[];
      }
      db := tx;
      return true, idMap;
    }

    static method InsertAll(db: Db, names: seq<string>) returns (tx: Db)
      ensures tx == InsertNames(db, names)
    {
      tx := db;
      var i := 0;
      while i < |names|
        invariant 0 <= i <= |names|
        invariant tx == InsertNames(db, names[..i])
      {
        var end := ChunkEnd(i, MAX_PARAMS, |names|);
        InsertNamesConcat(db, names[..i], names[i..end]);
        assert names[..end] == names[..i] + names[i..end];
        tx := InsertNames(tx, names[i..end]);
        i := end;
      }
      assert names[..|names|] == names;
    }

    static method SetAll(db: Db, statuses: seq<DomainStatus>) returns (tx: Db)
      ensures tx == SetStatuses(db, statuses)
    {
      tx := db;
      for j := 0 to |statuses|
        invariant tx == SetStatuses(db, statuses[..j])
      {
        assert statuses[..j + 1][..j] == statuses[..j];
        tx := SetStatus(tx, statuses[j]);
      }
      assert statuses[..|statuses|] == statuses;
    }

    static method ReadAllIds(tx: Db, names: seq<string>) returns (idMap: map<string, nat>)
      ensures idMap == IdMap(tx, names)
    {
      idMap := map[];
      var i := 0;
      while i < |names|
        invariant 0 <= i <= |names|
        invariant idMap == IdMap(tx, names[..i])
      {
        var end := ChunkEnd(i, MAX_PARAMS, |names|);
        idMap := ReadIds(tx, names[i..end], idMap);
        IdMapConcat(tx, names[..i], names[i..end]);
        assert names[..end] == names[..i] + names[i..end];
        i := end;
      }
      assert names[..|names|] == names;
    }

    /** SELECT id, name FROM domains WHERE name IN (...), its rows in any order. */
    static method ReadIds(tx: Db, batch: seq<string>, idMap: map<string, nat>) returns (ids: map<string, nat>)
      ensures ids == idMap + IdMap(tx, batch)
    {
      ids := idMap;
      var selected := set d | d in batch && d in tx.domains;
      var pending := selected;
      while pending != {}
        invariant pending <= selected
        invariant forall d :: d in ids <==> d in idMap || d in selected - pending
        invariant forall d | d in selected - pending :: ids[d] == tx.domains[d].id
        invariant forall d | d in idMap && d !in selected - pending :: ids[d] == idMap[d]
        decreases |pending|
      {
        var d :| d in pending;
        ids := ids[d := tx.domains[d].id];
        pending := pending - {d};
      }
      assert selected - pending == selected;
      MergedMap(idMap, IdMap(tx, batch), ids);
    }

    /** The domains of the batch, each once: the loop over seen. */
    static method CollectDomains(statuses: seq<DomainStatus>, ghost rs: seq<ResolveResult>)
      returns (allDomains: seq<string>)
      requires statuses == Statuses(rs)
      ensures allDomains == UniqueNames(rs)
    {
      allDomains := [];
      var seen: set<string> := {};
      for i := 0 to |statuses|
        invariant allDomains == UniqueNames(rs[..i])
        invariant forall d :: d in seen <==> d in allDomains
      {
        assert rs[..i + 1][..i] == rs[..i];
        if statuses[i].name !in seen {
          seen := seen + {statuses[i].name};
          allDomains := allDomains + [statuses[i].name];
        }
      }
      assert rs[..|rs|] == rs;
    }

    /** UpsertBatch. failing holds the transactions that do not commit: 0 is the domain transaction,
        k > 0 the k-th record transaction. written counts the record rows committed. */
    method UpsertBatch(results: seq<ResolveResult>, failing: set<nat>) returns (ok: bool, written: nat)
      requires WellFormed(db)
      modifies this
      ensures WellFormed(db)
      ensures ok ==> db == Upsert(old(db), results)
      ensures !ok ==> written < |Expand(results)| || 0 in failing
      ensures !ok && 0 !in failing ==>
                && db == Written(old(db), results, written)
                && written % MAX_ROWS == 0 && 1 + written / MAX_ROWS in failing
      ensures !ok && 0 in failing ==> db == old(db)
      ensures failing == {} ==> ok
    {
      if |results| == 0 {
        return true, 0;
      }
      written := 0;
      var rows, statuses := Expand(results), Statuses(results);
      var allDomains := CollectDomains(statuses, results);
      NamesOfSome(results);
      var idMap;
      ok, idMap := EnsureAllDomainsWithStatus(allDomains, statuses, 0 !in failing);
      if !ok {
        return;
      }
      RowsKnown(old(db), results);
      ghost var db1 := db;
      ok, written := WriteRows(rows, idMap, failing);
      WrittenFromParts(old(db), results, written, db1, idMap, db);
    }

    /** The record transactions of UpsertBatch, MAX_ROWS rows each. */
    method WriteRows(rows: seq<Row>, idMap: map<string, nat>, failing: set<nat>) returns (ok: bool, written: nat)
      requires Known(idMap, rows)
      modifies this
      ensures written <= |rows| && Known(idMap, rows[..written])
      ensures db == old(db).(records := UpsertRows(idMap, old(db).records, rows[..written]))
      ensures ok ==> written == |rows|
      ensures !ok ==> written < |rows| && written % MAX_ROWS == 0 && 1 + written / MAX_ROWS in failing
    {
      written := 0;
      while written < |rows|
        invariant 0 <= written <= |rows| && (written % MAX_ROWS == 0 || written == |rows|)
        invariant Known(idMap, rows[..written])
        invariant db == old(db).(records := UpsertRows(idMap, old(db).records, rows[..written]))
      {
        var end := ChunkEnd(written, MAX_ROWS, |rows|);
        var batch := rows[written..end];
        assert Known(idMap, batch);  // so no row is "missing from idMap"
        if 1 + written / MAX_ROWS in failing {
          return false, written;
        }
        assert rows[..end] == rows[..written] + batch;
        assert Known(idMap, rows[..end]);
        UpsertRowsConcat(idMap, old(db).records, rows[..written], batch);
        db := db.(records := UpsertRows(idMap, db.records, batch));
        written := end;
      }
      ok := true;
    }

    /** NeedsRefresh at the given clock reading: exactly the stale names, each once, in order,
        whatever the chunk boundaries and repeats in the request. */
    method NeedsRefresh(names: seq<string>, now: int, ttl: int, failedTTL: int) returns (stale: seq<string>)
      ensures StrictlySorted(StringLess, stale)
      ensures forall d :: d in stale <==> d in names && Stale(db, d, now, ttl, failedTTL)
    {
      if |names| == 0 {
        return [];
      }
      var validThreshold := Unix(now) - Seconds(ttl);
      var failedThreshold := Unix(now) - Seconds(failedTTL);
      var staleSet: map<string, bool> := map[];
      var i := 0;
      while i < |names|
        invariant 0 <= i <= |names|
        invariant staleSet == Verdicts(db, names[..i], validThreshold, failedThreshold)
      {
        var end := ChunkEnd(i, MAX_PARAMS, |names|);
        staleSet := CheckStaleBatch(names[i..end], validThreshold, failedThreshold, staleSet);
        VerdictsConcat(db, names[..i], names[i..end], validThreshold, failedThreshold);
        assert names[..end] == names[..i] + names[i..end];
        i := end;
      }
      assert names[..|names|] == names;
      for j := 0 to |names|
        invariant forall d :: d in staleSet <==> (d in names && d in db.domains) || d in names[..j]
        invariant forall d | d in staleSet :: staleSet[d] == Stale(db, d, now, ttl, failedTTL)
      {
        assert names[..j + 1] == names[..j] + [names[j]];
        if names[j] !in staleSet {
          staleSet := staleSet[names[j] := true];
        }
      }
      assert names[..|names|] == names;
      stale := StaleNames(staleSet);
      SortNames(stale);
      stale := Sort(StringLess, stale);
    }

    /** checkStaleBatch, the rows of its query in any order. */
    method CheckStaleBatch(batch: seq<string>, validThreshold: int, failedThreshold: int, staleSet: map<string, bool>)
      returns (result: map<string, bool>)
      ensures result == staleSet + Verdicts(db, batch, validThreshold, failedThreshold)
    {
      result := staleSet;
      ghost var verdicts := Verdicts(db, batch, validThreshold, failedThreshold);
      var rows := db.domains;
      var selected := set d | d in batch && d in rows;
      var pending := selected;
      while pending != {}
        invariant pending <= selected == verdicts.Keys
        invariant Overwritten(staleSet, verdicts, selected - pending, result)
        decreases |pending|
      {
        var d :| d in pending;
        OverwriteOne(staleSet, verdicts, selected - pending, result, d);
        var row := rows[d];
        if row.status == Unknown {
          result := result[d := true];
        } else {
          var threshold := validThreshold;
          if row.status == Failed || row.status == NXDomain {
            threshold := failedThreshold;
          }
          result := result[d := !(row.lastResolvedAt >= threshold)];
        }
        assert selected - (pending - {d}) == selected - pending + {d};
        pending := pending - {d};
      }
      OverwrittenAll(staleSet, verdicts, selected - pending, result);
    }

    /** The names marked true, in the map's own order. */
    static method StaleNames(staleSet: map<string, bool>) returns (stale: seq<string>)
      ensures NoDup(stale)
      ensures forall d :: d in stale <==> d in staleSet && staleSet[d]
    {
      stale := [];
      var pending := staleSet.Keys;
      while pending != {}
        invariant pending <= staleSet.Keys && NoDup(stale)
        invariant forall d :: d in stale <==> d in staleSet && d !in pending && staleSet[d]
        decreases |pending|
      {
        var d :| d in pending;
        pending := pending - {d};
        if staleSet[d] {
          stale := stale + [d];
        }
      }
    }

    /** SnapshotForDomains: the address of every valid record of the named domains, once a record. */
    method SnapshotForDomains(names: seq<string>) returns (ipv4: seq<Addr>, ipv6: seq<Addr>)
      ensures ListsEachOnce(Matching(db, names), ipv4, ipv6)
      ensures forall d, k | d in names && Serves(db, d, k) :: if ReadAsIPv4(k) then k.ip in ipv4 else k.ip in ipv6
    {
      ipv4, ipv6 := [], [];
      if |names| == 0 {
        return;
      }
      var matching := Matching(db, names);
      var pending := matching;
      while pending != {}
        invariant pending <= matching && ListsEachOnce(matching - pending, ipv4, ipv6)
        decreases |pending|
      {
        var k :| k in pending;
        ListsOneMore(matching - pending, k, ipv4, ipv6);
        assert matching - (pending - {k}) == matching - pending + {k};
        if k.typ == A || k.ip.V4? {
          ipv4 := ipv4 + [k.ip];
        } else {
          ipv6 := ipv6 + [k.ip];
        }
        pending := pending - {k};
      }
      assert matching - pending == matching;
      forall d, k | d in names && Serves(db, d, k)
        ensures if ReadAsIPv4(k) then k.ip in ipv4 else k.ip in ipv6
      {
        ServedIsListed(db, names, d, k, ipv4, ipv6);
      }
    }

    /** Vacuum's DELETE: old records go, whatever their status; domain rows stay. */
    method Vacuum(now: int, olderThan: int) returns (deleted: nat)
      requires WellFormed(db)
      modifies this
      ensures WellFormed(db)
      ensures db == Vacuumed(old(db), Unix(now - olderThan))
      ensures deleted == |old(db).records| - |db.records|
    {
      var threshold := Unix(now - olderThan);
      var doomed := set k | k in db.records && db.records[k].updatedAt < threshold;
      deleted := |doomed|;
      var left := db.records - doomed;
      assert left.Keys == db.records.Keys - doomed;
      db := db.(records := left);
      assert left == Vacuumed(old(db), threshold).records;
      assert |left| == |left.Keys| && |old(db).records| == |old(db).records.Keys|;
    }
  }

  lemma NamesOfSome(rs: seq<ResolveResult>)
    requires rs != []
    ensures UniqueNames(rs) != []
  {
    UniqueNamesMeaning(rs, rs[|rs| - 1].domain);
  }
}
