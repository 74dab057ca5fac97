/** The two tables of internal/cache and what its statements do to them, as values. */
module CacheDb {
  import opened Collections
  import opened NetIP

  datatype Status = Valid | Failed | NXDomain | Unknown

  datatype RecordType = A | AAAA

  /** lastResolvedAt and updatedAt are in Unix seconds. */
  datatype DomainRow = DomainRow(id: nat, status: Status, lastResolvedAt: int)
  datatype RecordKey = RecordKey(domainId: nat, ip: Addr, typ: RecordType)
  datatype RecordRow = RecordRow(updatedAt: int, valid: bool)

  /** domains: name is UNIQUE; records: (domain_id, ip, type) is UNIQUE. */
  datatype Db = Db(domains: map<string, DomainRow>, records: map<RecordKey, RecordRow>, nextId: nat)

  /** What the resolver hands over; resolvedAt is in nanoseconds. */
  datatype ResolveResult =
    ResolveResult(domain: string, ipv4: seq<Addr>, ipv6: seq<Addr>, status: Status, resolvedAt: int)

  datatype DomainStatus = DomainStatus(name: string, status: Status, lastResolvedAt: int)
  datatype Row = Row(domain: string, ip: Addr, typ: RecordType, updatedAt: int, valid: bool)

  const SECOND := 1_000_000_000

  /** time.Time.Unix rounds down. */
  function Unix(t: int): int {
    t / SECOND
  }

  /** int64(d.Seconds()) truncates towards zero. */
  function Seconds(d: int): int {
    if d >= 0 then d / SECOND else -(-d / SECOND)
  }

  /** Ids are unique and below the next one, and records refer to ids that were given out. */
  ghost predicate WellFormed(db: Db) {
    && (forall d | d in db.domains :: db.domains[d].id < db.nextId)
    && (forall k | k in db.records :: k.domainId < db.nextId)
    && (forall d, e | d in db.domains && e in db.domains && db.domains[d].id == db.domains[e].id :: d == e)
  }

  // --- statements -------------------------------------------------------------

  /** INSERT INTO domains(name) ... ON CONFLICT(name) DO NOTHING */
  function InsertName(db: Db, name: string): Db {
    if name in db.domains then db
    else db.(domains := db.domains[name := DomainRow(db.nextId, Unknown, 0)], nextId := db.nextId + 1)
  }

  function InsertNames(db: Db, names: seq<string>): Db {
    if names == [] then db else InsertName(InsertNames(db, names[..|names| - 1]), names[|names| - 1])
  }

  /** UPDATE domains SET resolve_status, last_resolved_at WHERE name */
  function SetStatus(db: Db, s: DomainStatus): Db {
    if s.name !in db.domains then db
    else db.(domains := db.domains[s.name := DomainRow(db.domains[s.name].id, s.status, s.lastResolvedAt)])
  }

  function SetStatuses(db: Db, ss: seq<DomainStatus>): Db {
    if ss == [] then db else SetStatus(SetStatuses(db, ss[..|ss| - 1]), ss[|ss| - 1])
  }

  function KeyOf(ids: map<string, nat>, row: Row): RecordKey
    requires row.domain in ids
  {
    RecordKey(ids[row.domain], row.ip, row.typ)
  }

  ghost predicate Known(ids: map<string, nat>, rows: seq<Row>) {
    forall r | r in rows :: r.domain in ids
  }

  /** INSERT INTO records ... ON CONFLICT(domain_id, ip, type) DO UPDATE, row by row */
  function UpsertRows(ids: map<string, nat>, records: map<RecordKey, RecordRow>, rows: seq<Row>)
    : map<RecordKey, RecordRow>
    requires Known(ids, rows)
  {
    if rows == [] then records
    else
      var last := rows[|rows| - 1];
      UpsertRows(ids, records, rows[..|rows| - 1])[KeyOf(ids, last) := RecordRow(last.updatedAt, last.valid)]
  }

  // --- what a batch becomes -----------------------------------------------------

  function AddressRows(r: ResolveResult, ips: seq<Addr>, typ: RecordType): (rows: seq<Row>)
    ensures |rows| == |ips|
  {
    seq(|ips|, i requires 0 <= i < |ips| => Row(r.domain, ips[i], typ, Unix(r.resolvedAt), r.status == Valid))
  }

  function ResultRows(r: ResolveResult): seq<Row> {
    AddressRows(r, r.ipv4, A) + AddressRows(r, r.ipv6, AAAA)
  }

  /** expandResultsWithDomain */
  function Expand(rs: seq<ResolveResult>): seq<Row> {
    if rs == [] then [] else Expand(rs[..|rs| - 1]) + ResultRows(rs[|rs| - 1])
  }

  function StatusOf(r: ResolveResult): DomainStatus {
    DomainStatus(r.domain, r.status, Unix(r.resolvedAt))
  }

  /** buildDomainStatuses */
  function Statuses(rs: seq<ResolveResult>): (ss: seq<DomainStatus>)
    ensures |ss| == |rs|
  {
    seq(|rs|, i requires 0 <= i < |rs| => StatusOf(rs[i]))
  }

  /** The domain part of UpsertBatch. */
  function WithDomains(db: Db, names: seq<string>, rs: seq<ResolveResult>): Db {
    SetStatuses(InsertNames(db, names), Statuses(rs))
  }

  /** The domains of a batch, each once, by first appearance. */
  function UniqueNames(rs: seq<ResolveResult>): seq<string> {
    if rs == [] then []
    else
      var init, d := UniqueNames(rs[..|rs| - 1]), rs[|rs| - 1].domain;
      if d in init then init else init + [d]
  }

  lemma {:induction false} UniqueNamesMeaning(rs: seq<ResolveResult>, d: string)
    ensures d in UniqueNames(rs) <==> LastResult(rs, d).Some?
  {
    if rs != [] {
      UniqueNamesMeaning(rs[..|rs| - 1], d);
    }
  }

  /** The ids that ensureAllDomainsWithStatus returns. */
  function IdMap(db: Db, names: seq<string>): map<string, nat> {
    map d | d in names && d in db.domains :: db.domains[d].id
  }

  /** UpsertBatch: the whole batch, statement by statement and row by row. */
  function Upsert(db: Db, rs: seq<ResolveResult>): Db
    requires WellFormed(db)
  {
    var names := UniqueNames(rs);
    var db1 := WithDomains(db, names, rs);
    RowsKnown(db, rs);
    db1.(records := UpsertRows(IdMap(db1, names), db1.records, Expand(rs)))
  }

  lemma {:induction false} ExpandRows(rs: seq<ResolveResult>, row: Row)
    requires row in Expand(rs)
    ensures exists r | r in rs :: row in ResultRows(r) && r.domain == row.domain
  {
    var init, last := rs[..|rs| - 1], rs[|rs| - 1];
    assert rs == init + [last];
    if row in Expand(init) {
      ExpandRows(init, row);
    } else {
      assert row in ResultRows(last);
    }
  }

  /** No row misses its id: the "missing from idMap" branch cannot be taken. */
  lemma RowsKnown(db: Db, rs: seq<ResolveResult>)
    requires WellFormed(db)
    ensures Known(IdMap(WithDomains(db, UniqueNames(rs), rs), UniqueNames(rs)), Expand(rs))
  {
    forall row | row in Expand(rs)
      ensures row.domain in IdMap(WithDomains(db, UniqueNames(rs), rs), UniqueNames(rs))
    {
      ExpandRows(rs, row);
      LastResultMeaning(rs, row.domain);
      UniqueNamesMeaning(rs, row.domain);
      DomainsAfter(db, rs, row.domain);
    }
  }

  // --- lookups after a batch: last write wins ---------------------------------------

  function LastStatus(ss: seq<DomainStatus>, d: string): Option<DomainStatus> {
    if ss == [] then None
    else if ss[|ss| - 1].name == d then Some(ss[|ss| - 1])
    else LastStatus(ss[..|ss| - 1], d)
  }

  function LastResult(rs: seq<ResolveResult>, d: string): Option<ResolveResult> {
    if rs == [] then None
    else if rs[|rs| - 1].domain == d then Some(rs[|rs| - 1])
    else LastResult(rs[..|rs| - 1], d)
  }

  function LastRow(ids: map<string, nat>, rows: seq<Row>, key: RecordKey): Option<Row>
    requires Known(ids, rows)
  {
    if rows == [] then None
    else if KeyOf(ids, rows[|rows| - 1]) == key then Some(rows[|rows| - 1])
    else LastRow(ids, rows[..|rows| - 1], key)
  }

  /** Rows are only added, unresolved and with new ids. */
  ghost predicate Extends(before: Db, after: Db, names: set<string>) {
    && after.records == before.records && after.nextId >= before.nextId
    && after.domains.Keys == before.domains.Keys + names
    && (forall d | d in before.domains :: after.domains[d] == before.domains[d])
    && (forall d | d in names && d !in before.domains ::
          after.domains[d].status == Unknown && after.domains[d].id >= before.nextId)
  }

  lemma ExtendsTransitive(a: Db, b: Db, c: Db, m: set<string>, n: set<string>)
    requires Extends(a, b, m) && Extends(b, c, n)
    ensures Extends(a, c, m + n)
  {
  }

  lemma {:induction false} InsertNamesEffect(db: Db, names: seq<string>)
    requires WellFormed(db)
    ensures WellFormed(InsertNames(db, names))
    ensures Extends(db, InsertNames(db, names), Elems(names))
  {
    if names != [] {
      var init, last := names[..|names| - 1], names[|names| - 1];
      var mid := InsertNames(db, init);
      InsertNamesEffect(db, init);
      InsertNameEffect(mid, last);
      ExtendsTransitive(db, mid, InsertName(mid, last), Elems(init), {last});
      ElemsAppend(init, last);
      assert names == init + [last];
    }
  }

  lemma InsertNameEffect(db: Db, name: string)
    requires WellFormed(db)
    ensures WellFormed(InsertName(db, name))
    ensures Extends(db, InsertName(db, name), {name})
  {
  }

  lemma {:induction false} SetStatusesEffect(db: Db, ss: seq<DomainStatus>)
    ensures SetStatuses(db, ss).records == db.records && SetStatuses(db, ss).nextId == db.nextId
    ensures SetStatuses(db, ss).domains.Keys == db.domains.Keys
    ensures forall d | d in db.domains :: SetStatuses(db, ss).domains[d] ==
              match LastStatus(ss, d)
              case None => db.domains[d]
              case Some(s) => DomainRow(db.domains[d].id, s.status, s.lastResolvedAt)
  {
    if ss != [] {
      SetStatusesEffect(db, ss[..|ss| - 1]);
    }
  }

  lemma {:induction false} LastStatusIsLastResult(rs: seq<ResolveResult>, d: string)
    ensures LastStatus(Statuses(rs), d) ==
            match LastResult(rs, d) case None => None case Some(r) => Some(StatusOf(r))
  {
    if rs != [] {
      assert Statuses(rs)[..|rs| - 1] == Statuses(rs[..|rs| - 1]);
      LastStatusIsLastResult(rs[..|rs| - 1], d);
    }
  }

  lemma {:induction false} LastResultMeaning(rs: seq<ResolveResult>, d: string)
    ensures LastResult(rs, d).Some? <==> exists r | r in rs :: r.domain == d
    ensures LastResult(rs, d).Some? ==> LastResult(rs, d).value in rs && LastResult(rs, d).value.domain == d
  {
    if rs != [] {
      LastResultMeaning(rs[..|rs| - 1], d);
      assert rs == rs[..|rs| - 1] + [rs[|rs| - 1]];
    }
  }

  /** After the domain part every domain of the batch has a row with its last result's status and
      time; the other rows, and all ids, are as they were. */
  lemma DomainsAfter(db: Db, rs: seq<ResolveResult>, d: string)
    requires WellFormed(db)
    ensures WellFormed(WithDomains(db, UniqueNames(rs), rs))
    ensures WithDomains(db, UniqueNames(rs), rs).records == db.records
    ensures d in WithDomains(db, UniqueNames(rs), rs).domains <==> d in db.domains || LastResult(rs, d).Some?
    ensures d in db.domains ==> WithDomains(db, UniqueNames(rs), rs).domains[d].id == db.domains[d].id
    ensures d in db.domains && LastResult(rs, d).None? ==>
              WithDomains(db, UniqueNames(rs), rs).domains[d] == db.domains[d]
    ensures LastResult(rs, d).Some? ==>
              var row, r := WithDomains(db, UniqueNames(rs), rs).domains[d], LastResult(rs, d).value;
              row.status == r.status && row.lastResolvedAt == Unix(r.resolvedAt)
    ensures d !in db.domains && LastResult(rs, d).Some? ==>
              WithDomains(db, UniqueNames(rs), rs).domains[d].id >= db.nextId
  {
    var names := UniqueNames(rs);
    InsertNamesEffect(db, names);
    SetStatusesEffect(InsertNames(db, names), Statuses(rs));
    LastStatusIsLastResult(rs, d);
    UniqueNamesMeaning(rs, d);
  }

  lemma {:induction false} RecordsAfter(ids: map<string, nat>, records: map<RecordKey, RecordRow>, rows: seq<Row>,
                                        key: RecordKey)
    requires Known(ids, rows)
    ensures key in UpsertRows(ids, records, rows) <==> key in records || LastRow(ids, rows, key).Some?
    ensures LastRow(ids, rows, key).Some? ==>
              UpsertRows(ids, records, rows)[key]
              == RecordRow(LastRow(ids, rows, key).value.updatedAt, LastRow(ids, rows, key).value.valid)
    ensures key in records && LastRow(ids, rows, key).None? ==> UpsertRows(ids, records, rows)[key] == records[key]
  {
    if rows != [] {
      RecordsAfter(ids, records, rows[..|rows| - 1], key);
    }
  }

  lemma {:induction false} LastRowMeaning(ids: map<string, nat>, rows: seq<Row>, key: RecordKey)
    requires Known(ids, rows)
    ensures LastRow(ids, rows, key).Some? <==> exists r | r in rows :: KeyOf(ids, r) == key
    ensures LastRow(ids, rows, key).Some? ==>
              LastRow(ids, rows, key).value in rows && KeyOf(ids, LastRow(ids, rows, key).value) == key
  {
    if rows != [] {
      LastRowMeaning(ids, rows[..|rows| - 1], key);
      assert rows == rows[..|rows| - 1] + [rows[|rows| - 1]];
    }
  }

  lemma {:induction false} UpsertRowsIds(ids: map<string, nat>, records: map<RecordKey, RecordRow>, rows: seq<Row>,
                                         bound: nat)
    requires Known(ids, rows)
    requires (forall d | d in ids :: ids[d] < bound) && (forall k | k in records :: k.domainId < bound)
    ensures forall k | k in UpsertRows(ids, records, rows) :: k.domainId < bound
  {
    if rows != [] {
      UpsertRowsIds(ids, records, rows[..|rows| - 1], bound);
    }
  }

  // --- chunking -----------------------------------------------------------------

  lemma {:induction false} InsertNamesConcat(db: Db, xs: seq<string>, ys: seq<string>)
    ensures InsertNames(db, xs + ys) == InsertNames(InsertNames(db, xs), ys)
  {
    if ys == [] {
      assert xs + ys == xs;
    } else {
      assert (xs + ys)[..|xs + ys| - 1] == xs + ys[..|ys| - 1];
      InsertNamesConcat(db, xs, ys[..|ys| - 1]);
    }
  }

  lemma {:induction false} UpsertRowsConcat(ids: map<string, nat>, records: map<RecordKey, RecordRow>,
                                            xs: seq<Row>, ys: seq<Row>)
    requires Known(ids, xs + ys)
    ensures Known(ids, xs) && Known(ids, ys)
    ensures UpsertRows(ids, records, xs + ys) == UpsertRows(ids, UpsertRows(ids, records, xs), ys)
    decreases |ys|
  {
    assert forall r :: r in xs + ys <==> r in xs || r in ys;
    if ys == [] {
      assert xs + ys == xs;
    } else {
      assert (xs + ys)[..|xs + ys| - 1] == xs + ys[..|ys| - 1];
      UpsertRowsConcat(ids, records, xs, ys[..|ys| - 1]);
    }
  }

  // --- a batch that stops partway -------------------------------------------------

  /** The tables after the domain transaction and the first n record rows of a batch. */
  function Written(db: Db, rs: seq<ResolveResult>, n: nat): Db
    requires WellFormed(db) && n <= |Expand(rs)|
  {
    var names := UniqueNames(rs);
    var db1 := WithDomains(db, names, rs);
    RowsKnown(db, rs);
    db1.(records := UpsertRows(IdMap(db1, names), db1.records, Expand(rs)[..n]))
  }

  lemma WrittenAll(db: Db, rs: seq<ResolveResult>)
    requires WellFormed(db)
    ensures Written(db, rs, |Expand(rs)|) == Upsert(db, rs)
  {
    RowsKnown(db, rs);
    assert Expand(rs)[..|Expand(rs)|] == Expand(rs);
  }

  lemma WrittenWellFormed(db: Db, rs: seq<ResolveResult>, n: nat)
    requires WellFormed(db) && n <= |Expand(rs)|
    ensures WellFormed(Written(db, rs, n))
  {
    DomainsAfter(db, rs, "");
    RowsKnown(db, rs);
    var db1 := WithDomains(db, UniqueNames(rs), rs);
    UpsertRowsIds(IdMap(db1, UniqueNames(rs)), db1.records, Expand(rs)[..n], db1.nextId);
  }
}
