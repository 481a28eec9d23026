/** What both repositories share: the cache-key scheme, typed cache reads
    (an absent entry, or one that does not decode as the requested type, is a
    miss), the recent-list refresh rule, the lookup a cache-aside read
    performs, and the coherence invariant between per-code cache entries and
    the table. */
module CacheAside {
  import opened Basics
  import opened DiscountCodeModel
  import opened Store

  const KeyPrefix: string := "discountcode"
  const RecentKey: string := "recent_discount_codes"
  const AllCodesKey: string := "all_discount_codes"
  /** Size of the recent-codes projection. */
  const RecentCodesCount: int := 1000
  /** TTLs written with each entry, in minutes. */
  const RecordTtl: int := 5
  const ProjectionTtl: int := 10

  /** A cached payload: one record, a list of records, or a list of codes. */
  datatype CacheValue =
    | Single(record: CodeRecord)
    | Records(records: seq<CodeRecord>)
    | CodeList(codes: seq<string>)

  datatype CacheEntry = CacheEntry(value: CacheValue, ttlMinutes: int)

  type CacheMap = map<string, CacheEntry>

  /** The exceptions a repository operation can raise. */
  datatype RepoError =
    | NotFound         // KeyNotFoundException
    | Persistence      // SaveChanges rejected the write
    | InvalidArgument  // ArgumentException

  /** `discountcode:<code>`, the primary-key spelling. */
  function CodeKey(code: string): string {
    KeyPrefix + ":" + code
  }

  /** `discountcode:code:<code>`, the lookup spelling. */
  function LookupKey(code: string): string {
    KeyPrefix + ":code:" + code
  }

  /** `GetAsync<DiscountCode>(key)`. */
  function GetRecord(cache: CacheMap, key: string): Option<CodeRecord> {
    if key in cache && cache[key].value.Single? then Some(cache[key].value.record) else None
  }

  /** `GetAsync<List<DiscountCode>>(key)`. */
  function GetRecords(cache: CacheMap, key: string): Option<seq<CodeRecord>> {
    if key in cache && cache[key].value.Records? then Some(cache[key].value.records) else None
  }

  /** `GetAsync<List<string>>(key)`. */
  function GetCodes(cache: CacheMap, key: string): Option<seq<string>> {
    if key in cache && cache[key].value.CodeList? then Some(cache[key].value.codes) else None
  }

  /** No per-code key is one of the two projection keys. */
  lemma KeysAreDistinct(code: string)
    ensures LookupKey(code) != RecentKey && LookupKey(code) != AllCodesKey
    ensures CodeKey(code) != RecentKey && CodeKey(code) != AllCodesKey
  {
    assert LookupKey(code)[0] == 'd' && CodeKey(code)[0] == 'd';
    assert RecentKey[0] == 'r' && AllCodesKey[0] == 'a';
  }

  /** Distinct codes have distinct lookup keys. */
  lemma LookupKeyInjective(a: string, b: string)
    ensures LookupKey(a) == LookupKey(b) <==> a == b
  {
    var p := KeyPrefix + ":code:";
    assert LookupKey(a) == p + a && LookupKey(b) == p + b;
    if LookupKey(a) == LookupKey(b) {
      assert a == (p + a)[|p|..] && b == (p + b)[|p|..];
    }
  }

  /** `recentCodes.Insert(0, x)`, then `RemoveAt(Count - 1)` once if the list
      has grown past the projection size. */
  function InsertAtHead(list: seq<CodeRecord>, x: CodeRecord): seq<CodeRecord> {
    var l := [x] + list;
    if |l| > RecentCodesCount then l[..|l| - 1] else l
  }

  /** The new record comes first, the old list follows in order with at most
      its last element dropped, and a list within the bound stays within it. */
  lemma InsertAtHeadProperties(list: seq<CodeRecord>, x: CodeRecord)
    ensures var r := InsertAtHead(list, x);
      && |r| >= 1 && r[0] == x && r[1..] <= list
      && |r| == (if |list| < RecentCodesCount then |list| + 1 else |list|)
      && (|list| <= RecentCodesCount ==> |r| <= RecentCodesCount)
  {
    var r := InsertAtHead(list, x);
    assert r[1..] == if |list| < RecentCodesCount then list else list[..|list| - 1];
  }

  /** The recent list `UpdateRecentDiscountCodeCacheAsync` writes: with a cached
      list and a record, the head insertion; otherwise the top 1000 of the table. */
  function RefreshedRecent(cached: Option<seq<CodeRecord>>, newCode: Option<CodeRecord>, rows: seq<CodeRecord>): seq<CodeRecord> {
    if cached.Some? && newCode.Some? then InsertAtHead(cached.value, newCode.value)
    else TopRecent(rows, RecentCodesCount)
  }

  /** A refresh never takes a list of at most 1000 records past 1000; a rebuild
      is sorted most recent first. */
  lemma RefreshedRecentBounded(cached: Option<seq<CodeRecord>>, newCode: Option<CodeRecord>, rows: seq<CodeRecord>)
    ensures var r := RefreshedRecent(cached, newCode, rows);
      && ((cached.Some? ==> |cached.value| <= RecentCodesCount) ==> |r| <= RecentCodesCount)
      && (cached.None? || newCode.None? ==> SortedDesc(r) && multiset(r) <= multiset(rows))
      && (cached.Some? && newCode.Some? ==> r[0] == newCode.value && r[1..] <= cached.value)
  {
    if cached.Some? && newCode.Some? {
      InsertAtHeadProperties(cached.value, newCode.value);
    } else {
      TopRecentProperties(rows, RecentCodesCount);
    }
  }

  /** Largest list the caching repository's all-codes projection holds. */
  const AllCodesMax: int := 1000

  /** The caching repository's all-codes projection:
      `OrderByDescending(c => c.CreatedAt).Select(dc => dc.Code).Take(1000)`. */
  function BoundedAllCodes(rows: seq<CodeRecord>): seq<string> {
    Take(Codes(SortByCreatedDesc(rows)), AllCodesMax)
  }

  /** The bounded projection lists at most 1000 codes, each of a row in the
      table, and every code of the table while it has at most 1000 rows. */
  lemma BoundedAllCodesProperties(rows: seq<CodeRecord>)
    ensures var r := BoundedAllCodes(rows);
      && |r| == (if |rows| < AllCodesMax then |rows| else AllCodesMax)
      && (forall c :: c in r ==> HasCode(rows, c))
      && (|rows| <= AllCodesMax ==> forall c :: HasCode(rows, c) ==> c in r)
  {
    var t := TopRecent(rows, AllCodesMax);
    CodesOfTake(SortByCreatedDesc(rows), AllCodesMax);
    TopRecentProperties(rows, AllCodesMax);
    TopRecentMembers(rows, AllCodesMax);
    CodesMembers(t);
    forall c ensures HasCode(t, c) ==> HasCode(rows, c) {
      HasCodeOfSubset(t, rows, c);
    }
    if |rows| <= AllCodesMax {
      forall c ensures HasCode(rows, c) ==> HasCode(t, c) {
        HasCodeOfSubset(rows, t, c);
      }
    }
  }

  /** The all-codes projection of the other repository lists exactly the
      table's codes. */
  lemma AllCodesProperties(rows: seq<CodeRecord>)
    ensures |Codes(rows)| == |rows|
    ensures forall c :: c in Codes(rows) <==> HasCode(rows, c)
  {
    CodesMembers(rows);
  }

  /** `OrderByDescending(c => c.CreatedAt).Take(count).Select(c => c.Code)` over a list. */
  function MostRecentCodes(list: seq<CodeRecord>, count: int): seq<string> {
    Codes(TopRecent(list, count))
  }

  /** What the caching repository answers from a freshly loaded projection:
      the codes of the `count` most recent live rows (at most 1000 of them),
      each of which is live when looked up in the table. */
  lemma MostRecentLiveCodes(rows: seq<CodeRecord>, now: int, count: int)
    requires UniqueCodes(rows) && 0 < count
    ensures var live := FilterLive(rows, now);
      var r := MostRecentCodes(TopRecent(live, RecentCodesCount), count);
      && |r| <= count && |r| <= RecentCodesCount && |r| <= |live|
      && (forall c :: c in r ==> FindByCode(rows, c).Some? && Live(FindByCode(rows, c).value, now))
      && (count <= RecentCodesCount ==> r == Codes(TopRecent(live, count)))
  {
    var live := FilterLive(rows, now);
    var t := TopRecent(live, RecentCodesCount);
    var u := TopRecent(t, count);
    TopRecentLength(live, RecentCodesCount);
    TopRecentLength(t, count);
    TopRecentMembers(live, RecentCodesCount);
    TopRecentMembers(t, count);
    assert forall x :: x in u ==> x in rows && Live(x, now) by {
      forall x | x in u ensures x in rows && Live(x, now) {
        assert x in t && x in live;
        assert x in multiset(live);
      }
    }
    LiveCodesFound(rows, u, now);
    if count <= RecentCodesCount {
      TopRecentOfTopRecent(live, RecentCodesCount, count);
    }
  }

  /** The codes of live rows of the table look up to live rows. */
  lemma LiveCodesFound(rows: seq<CodeRecord>, u: seq<CodeRecord>, now: int)
    requires UniqueCodes(rows)
    requires forall x :: x in u ==> x in rows && Live(x, now)
    ensures forall c :: c in Codes(u) ==> FindByCode(rows, c).Some? && Live(FindByCode(rows, c).value, now)
  {
    forall c | c in Codes(u) ensures FindByCode(rows, c).Some? && Live(FindByCode(rows, c).value, now) {
      var i :| 0 <= i < |u| && Codes(u)[i] == c;
      assert u[i] in rows;
      var j :| 0 <= j < |rows| && rows[j] == u[i];
      assert HasCode(rows, c);
    }
  }

  /** What the other repository answers from a freshly loaded projection:
      the codes of the `count` most recent rows, used or not. */
  lemma MostRecentCodesOfTable(rows: seq<CodeRecord>, count: int)
    requires count <= RecentCodesCount
    ensures MostRecentCodes(TopRecent(rows, RecentCodesCount), count) == Codes(TopRecent(rows, count))
    ensures |MostRecentCodes(TopRecent(rows, RecentCodesCount), count)| ==
      (if count <= 0 then 0 else if count < |rows| then count else |rows|)
  {
    TopRecentOfTopRecent(rows, RecentCodesCount, count);
    TopRecentProperties(rows, count);
  }

  /** `GetDiscountCodeByCodeAsync`'s answer: the cached record on a hit, else
      the table's row, else not-found. */
  function Lookup(cache: CacheMap, rows: seq<CodeRecord>, code: string): Result<CodeRecord, RepoError> {
    match GetRecord(cache, LookupKey(code))
    case Some(r) => Success(r)
    case None =>
      match FindByCode(rows, code)
      case Some(r) => Success(r)
      case None => Failure(NotFound)
  }

  /** Every record cached under a lookup key is the table's current row for that code. */
  ghost predicate Coherent(cache: CacheMap, rows: seq<CodeRecord>) {
    forall c :: GetRecord(cache, LookupKey(c)).Some? ==> FindByCode(rows, c) == GetRecord(cache, LookupKey(c))
  }

  /** Under coherence a lookup answers exactly what the table holds. */
  lemma CoherentLookup(cache: CacheMap, rows: seq<CodeRecord>, code: string)
    requires Coherent(cache, rows)
    ensures Lookup(cache, rows, code) ==
      if HasCode(rows, code) then Success(FindByCode(rows, code).value) else Failure(NotFound)
  {
  }

  lemma CoherentAfterProjectionWrite(cache: CacheMap, rows: seq<CodeRecord>, key: string, e: CacheEntry)
    requires Coherent(cache, rows) && (key == RecentKey || key == AllCodesKey)
    ensures Coherent(cache[key := e], rows)
  {
    forall c | GetRecord(cache[key := e], LookupKey(c)).Some?
      ensures FindByCode(rows, c) == GetRecord(cache[key := e], LookupKey(c))
    {
      KeysAreDistinct(c);
      assert GetRecord(cache[key := e], LookupKey(c)) == GetRecord(cache, LookupKey(c));
    }
  }

  lemma CoherentAfterRemoveKeys(cache: CacheMap, rows: seq<CodeRecord>, keys: set<string>)
    requires Coherent(cache, rows)
    ensures Coherent(cache - keys, rows)
  {
    forall c | GetRecord(cache - keys, LookupKey(c)).Some?
      ensures FindByCode(rows, c) == GetRecord(cache - keys, LookupKey(c))
    {
      assert GetRecord(cache - keys, LookupKey(c)) == GetRecord(cache, LookupKey(c));
    }
  }

  lemma CoherentAfterReadThrough(cache: CacheMap, rows: seq<CodeRecord>, code: string)
    requires Coherent(cache, rows) && HasCode(rows, code)
    ensures Coherent(cache[LookupKey(code) := CacheEntry(Single(FindByCode(rows, code).value), RecordTtl)], rows)
  {
    var c' := cache[LookupKey(code) := CacheEntry(Single(FindByCode(rows, code).value), RecordTtl)];
    forall c | GetRecord(c', LookupKey(c)).Some? ensures FindByCode(rows, c) == GetRecord(c', LookupKey(c)) {
      LookupKeyInjective(c, code);
      if c != code {
        assert GetRecord(c', LookupKey(c)) == GetRecord(cache, LookupKey(c));
      }
    }
  }

  lemma CoherentAfterReplace(cache: CacheMap, rows: seq<CodeRecord>, rec: CodeRecord)
    requires Coherent(cache, rows) && HasCode(rows, rec.code) && LookupKey(rec.code) !in cache
    ensures Coherent(cache, ReplaceRow(rows, rec))
  {
    forall c | GetRecord(cache, LookupKey(c)).Some?
      ensures FindByCode(ReplaceRow(rows, rec), c) == GetRecord(cache, LookupKey(c))
    {
      FindAfterReplace(rows, rec, c);
    }
  }

  lemma CoherentAfterRemoveRow(cache: CacheMap, rows: seq<CodeRecord>, code: string)
    requires Coherent(cache, rows) && LookupKey(code) !in cache
    ensures Coherent(cache, RemoveRow(rows, code))
  {
    forall c | GetRecord(cache, LookupKey(c)).Some?
      ensures FindByCode(RemoveRow(rows, code), c) == GetRecord(cache, LookupKey(c))
    {
      FindAfterRemove(rows, code, c);
    }
  }

  lemma CoherentAfterAppend(cache: CacheMap, rows: seq<CodeRecord>, batch: seq<CodeRecord>)
    requires Coherent(cache, rows)
    ensures Coherent(cache, rows + batch)
  {
    forall c | GetRecord(cache, LookupKey(c)).Some?
      ensures FindByCode(rows + batch, c) == GetRecord(cache, LookupKey(c))
    {
      FindAfterAppend(rows, batch, c);
    }
  }

  /** The recent projection, when cached as a record list, holds at most 1000 records. */
  predicate RecentBounded(cache: CacheMap) {
    GetRecords(cache, RecentKey).Some? ==> |GetRecords(cache, RecentKey).value| <= RecentCodesCount
  }

  /** With both states coherent, an update changes the lookup of the updated
      code to the new values and of no other code. */
  lemma LookupAfterReplace(cache0: CacheMap, rows0: seq<CodeRecord>, cache1: CacheMap, rec: CodeRecord)
    requires Coherent(cache0, rows0) && Coherent(cache1, ReplaceRow(rows0, rec)) && HasCode(rows0, rec.code)
    ensures forall c ::
              Lookup(cache1, ReplaceRow(rows0, rec), c) ==
              if c == rec.code then Success(rec) else Lookup(cache0, rows0, c)
  {
    forall c ensures Lookup(cache1, ReplaceRow(rows0, rec), c) ==
      if c == rec.code then Success(rec) else Lookup(cache0, rows0, c)
    {
      CoherentLookup(cache0, rows0, c);
      CoherentLookup(cache1, ReplaceRow(rows0, rec), c);
      FindAfterReplace(rows0, rec, c);
    }
  }

  /** With both states coherent, a delete makes the deleted code not found
      and changes no other lookup. */
  lemma LookupAfterRemove(cache0: CacheMap, rows0: seq<CodeRecord>, cache1: CacheMap, code: string)
    requires Coherent(cache0, rows0) && Coherent(cache1, RemoveRow(rows0, code))
    ensures forall c ::
              Lookup(cache1, RemoveRow(rows0, code), c) ==
              if c == code then Failure(NotFound) else Lookup(cache0, rows0, c)
  {
    forall c ensures Lookup(cache1, RemoveRow(rows0, code), c) ==
      if c == code then Failure(NotFound) else Lookup(cache0, rows0, c)
    {
      CoherentLookup(cache0, rows0, c);
      CoherentLookup(cache1, RemoveRow(rows0, code), c);
      FindAfterRemove(rows0, code, c);
    }
  }

  /** With both states coherent, an insert keeps every lookup that succeeded
      and makes the new codes found with their stored values. */
  lemma LookupAfterAppend(cache0: CacheMap, rows0: seq<CodeRecord>, cache1: CacheMap, batch: seq<CodeRecord>)
    requires Coherent(cache0, rows0) && Coherent(cache1, rows0 + batch)
    ensures forall c ::
              Lookup(cache1, rows0 + batch, c) ==
              if HasCode(rows0, c) then Lookup(cache0, rows0, c)
              else if HasCode(batch, c) then Success(FindByCode(batch, c).value)
              else Failure(NotFound)
  {
    forall c ensures Lookup(cache1, rows0 + batch, c) ==
      if HasCode(rows0, c) then Lookup(cache0, rows0, c)
      else if HasCode(batch, c) then Success(FindByCode(batch, c).value)
      else Failure(NotFound)
    {
      CoherentLookup(cache0, rows0, c);
      CoherentLookup(cache1, rows0 + batch, c);
      FindAfterAppend(rows0, batch, c);
    }
  }

  /** Pushing an updated record onto a cached list keeps its stale copy: the
      list can name one code twice and stop being most recent first. */
  lemma IncrementalRefreshKeepsStaleCopy()
    ensures var a := CodeRecord("A", DefaultAmount, 100, true, false, 1, None, None);
      var b := a.(code := "B", createdAt := 2);
      var r := RefreshedRecent(Some([b, a]), Some(a.(isUsed := true)), [b, a.(isUsed := true)]);
      && r == [a.(isUsed := true), b, a]
      && Codes(r) == ["A", "B", "A"]
      && !SortedDesc(r)
  {
    var a := CodeRecord("A", DefaultAmount, 100, true, false, 1, None, None);
    var b := a.(code := "B", createdAt := 2);
    var r := RefreshedRecent(Some([b, a]), Some(a.(isUsed := true)), [b, a.(isUsed := true)]);
    assert r[0].createdAt < r[1].createdAt;
  }
}
