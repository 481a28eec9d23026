/** `DiscountCodeRepository`, the repository the application registers: the
    same cache-aside repository as `CachingDiscountCodeRepository` except that
    its all-codes projection lists every code and its most-recent query
    neither validates the count nor filters out spent codes. The table is `rows` (in table order, codes unique);
    the distributed cache is `cache`. Each operation is atomic here: the
    table write, the cache invalidation and the projection refresh happen in
    one step. */
module Repository {
  import opened Basics
  import opened DiscountCodeModel
  import opened Store
  import opened CacheAside

  class DiscountCodeRepository {
    var rows: seq<CodeRecord>
    var cache: CacheMap

    /** Codes are the primary key; every record cached under a lookup key is
        the current row; the recent projection stays within its size. */
    ghost predicate Valid()
      reads this
    {
      UniqueCodes(rows) && Coherent(cache, rows) && RecentBounded(cache)
    }

    /** A repository over an existing table with an empty cache. */
    constructor (initialRows: seq<CodeRecord>)
      requires UniqueCodes(initialRows)
      ensures Valid()
      ensures rows == initialRows && cache == map[]
    {
      rows := initialRows;
      cache := map[];
    }

    /** `GetDiscountCodeByCodeAsync`: a cache hit answers from the cache;
        a miss reads the first row with that code and caches it for five
        minutes; no row is `KeyNotFoundException`. Under `Valid` the answer
        is always the table's current row. */
    method GetDiscountCodeByCode(code: string) returns (r: Result<CodeRecord, RepoError>)
      requires Valid()
      modifies this
      ensures Valid()
      ensures r == old(Lookup(cache, rows, code))
      ensures r == if HasCode(rows, code) then Success(FindByCode(rows, code).value) else Failure(NotFound)
      ensures rows == old(rows)
      ensures cache ==
        if old(GetRecord(cache, LookupKey(code))).None? && r.Success?
        then old(cache)[LookupKey(code) := CacheEntry(Single(r.value), RecordTtl)]
        else old(cache)
    {
      CoherentLookup(cache, rows, code);
      var cached := GetRecord(cache, LookupKey(code));
      if cached.Some? {
        return Success(cached.value);
      }
      var row := FindByCode(rows, code);
      if row.None? {
        return Failure(NotFound);
      }
      CoherentAfterReadThrough(cache, rows, code);
      KeysAreDistinct(code);
      cache := cache[LookupKey(code) := CacheEntry(Single(row.value), RecordTtl)];
      assert GetRecords(cache, RecentKey) == old(GetRecords(cache, RecentKey));
      return Success(row.value);
    }

    /** `AddRangeDiscountCodeAsync`: stamps every record with `now`, inserts
        the batch, and rebuilds the recent projection from the table. A batch
        the store rejects (a code repeated in the batch or already present)
        is `Persistence` and changes nothing. */
    method AddRangeDiscountCodes(batch: seq<CodeRecord>, now: int) returns (error: Option<RepoError>)
      requires Valid()
      modifies this
      ensures Valid()
      ensures error.None? <==> old(BatchAcceptable(rows, batch))
      ensures error.Some? ==> error == Some(Persistence) && rows == old(rows) && cache == old(cache)
      ensures error.None? ==> rows == old(rows) + Stamp(batch, now)
      ensures error.None? ==>
                cache == old(cache)[RecentKey := CacheEntry(Records(TopRecent(rows, RecentCodesCount)), ProjectionTtl)]
      ensures error.None? ==> forall c ::
                Lookup(cache, rows, c) ==
                if old(HasCode(rows, c)) then old(Lookup(cache, rows, c))
                else if HasCode(Stamp(batch, now), c) then Success(FindByCode(Stamp(batch, now), c).value)
                else Failure(NotFound)
    {
      var stamped: seq<CodeRecord> := [];
      var i := 0;
      while i < |batch|
        invariant 0 <= i <= |batch|
        invariant |stamped| == i
        invariant forall k :: 0 <= k < i ==> stamped[k] == batch[k].(createdAt := now)
      {
        stamped := stamped + [batch[i].(createdAt := now)];
        i := i + 1;
      }
      assert stamped == Stamp(batch, now);
      if !BatchAcceptable(rows, batch) {
        return Some(Persistence);
      }
      ghost var rows0, cache0 := rows, cache;
      AppendKeepsUnique(rows, batch, now);
      CoherentAfterAppend(cache, rows, stamped);
      rows := rows + stamped;
      UpdateRecentDiscountCodeCache(None);
      StampKeepsCodes(batch, now);
      LookupAfterAppend(cache0, rows0, cache, stamped);
      return None;
    }

    /** `UpdateDiscountCodeAsync`: the row with the record's code takes all
        the record's values, both per-code cache keys are removed, and the
        record is pushed onto the cached recent list (or the list is rebuilt
        when none is cached). No such row is `Persistence` and changes
        nothing. Afterwards the code looks up to the new values and every
        other code as before. */
    method UpdateDiscountCode(rec: CodeRecord) returns (error: Option<RepoError>)
      requires Valid()
      modifies this
      ensures Valid()
      ensures error.None? <==> old(HasCode(rows, rec.code))
      ensures error.Some? ==> error == Some(Persistence) && rows == old(rows) && cache == old(cache)
      ensures error.None? ==> rows == ReplaceRow(old(rows), rec)
      ensures error.None? ==>
        var removed := old(cache) - {CodeKey(rec.code), LookupKey(rec.code)};
        cache == removed[RecentKey := CacheEntry(
          Records(RefreshedRecent(GetRecords(removed, RecentKey), Some(rec), rows)), ProjectionTtl)]
      ensures error.None? ==> forall c ::
                Lookup(cache, rows, c) == if c == rec.code then Success(rec) else old(Lookup(cache, rows, c))
    {
      if !HasCode(rows, rec.code) {
        return Some(Persistence);
      }
      ghost var rows0, cache0 := rows, cache;
      FindAfterReplace(rows, rec, rec.code);
      rows := ReplaceRow(rows, rec);
      KeysAreDistinct(rec.code);
      CoherentAfterRemoveKeys(cache, rows0, {CodeKey(rec.code), LookupKey(rec.code)});
      cache := cache - {CodeKey(rec.code), LookupKey(rec.code)};
      CoherentAfterReplace(cache, rows0, rec);
      assert GetRecords(cache, RecentKey) == GetRecords(cache0, RecentKey);
      UpdateRecentDiscountCodeCache(Some(rec));
      LookupAfterReplace(cache0, rows0, cache, rec);
      return None;
    }

    /** `GetRecentDiscountCodesAsync`: the cached recent list, or on a miss
        the 1000 most recent rows, which are then cached for ten minutes. */
    method GetRecentDiscountCodes() returns (list: seq<CodeRecord>)
      requires Valid()
      modifies this
      ensures Valid()
      ensures rows == old(rows)
      ensures |list| <= RecentCodesCount
      ensures old(GetRecords(cache, RecentKey)).Some? ==>
        list == old(GetRecords(cache, RecentKey)).value && cache == old(cache)
      ensures old(GetRecords(cache, RecentKey)).None? ==>
        list == TopRecent(rows, RecentCodesCount)
        && cache == old(cache)[RecentKey := CacheEntry(Records(list), ProjectionTtl)]
    {
      var cached := GetRecords(cache, RecentKey);
      if cached.Some? {
        return cached.value;
      }
      list := TopRecent(rows, RecentCodesCount);
      TopRecentLength(rows, RecentCodesCount);
      CoherentAfterProjectionWrite(cache, rows, RecentKey, CacheEntry(Records(list), ProjectionTtl));
      cache := cache[RecentKey := CacheEntry(Records(list), ProjectionTtl)];
    }

    /** `DeleteDiscountCodeAsync`: removes the row with the record's code,
        both per-code cache keys, and rebuilds the recent projection. No such
        row is `Persistence` and changes nothing. Afterwards the code is not
        found and every other code looks up as before. */
    method DeleteDiscountCode(rec: CodeRecord) returns (error: Option<RepoError>)
      requires Valid()
      modifies this
      ensures Valid()
      ensures error.None? <==> old(HasCode(rows, rec.code))
      ensures error.Some? ==> error == Some(Persistence) && rows == old(rows) && cache == old(cache)
      ensures error.None? ==> rows == RemoveRow(old(rows), rec.code)
      ensures error.None? ==>
        cache == (old(cache) - {CodeKey(rec.code), LookupKey(rec.code)})[RecentKey :=
          CacheEntry(Records(TopRecent(rows, RecentCodesCount)), ProjectionTtl)]
      ensures error.None? ==> forall c ::
                Lookup(cache, rows, c) == if c == rec.code then Failure(NotFound) else old(Lookup(cache, rows, c))
    {
      if !HasCode(rows, rec.code) {
        return Some(Persistence);
      }
      ghost var rows0, cache0 := rows, cache;
      RemoveKeepsUnique(rows, rec.code);
      rows := RemoveRow(rows, rec.code);
      KeysAreDistinct(rec.code);
      CoherentAfterRemoveKeys(cache, rows0, {CodeKey(rec.code), LookupKey(rec.code)});
      cache := cache - {CodeKey(rec.code), LookupKey(rec.code)};
      CoherentAfterRemoveRow(cache, rows0, rec.code);
      assert GetRecords(cache, RecentKey) == GetRecords(cache0, RecentKey);
      UpdateRecentDiscountCodeCache(None);
      LookupAfterRemove(cache0, rows0, cache, rec.code);
      return None;
    }

    /** `UpdateRecentDiscountCodeCacheAsync`: with a cached recent list and a
        record, the record goes to the head and the list loses its last
        element if it has grown past 1000; otherwise the list is rebuilt from
        the table. The result is cached for ten minutes. */
    method UpdateRecentDiscountCodeCache(newCode: Option<CodeRecord>)
      requires Valid()
      modifies this
      ensures Valid()
      ensures rows == old(rows)
      ensures cache == old(cache)[RecentKey := CacheEntry(
        Records(RefreshedRecent(old(GetRecords(cache, RecentKey)), newCode, rows)), ProjectionTtl)]
    {
      var recentCodes := GetRecords(cache, RecentKey);
      var list: seq<CodeRecord>;
      if recentCodes.None? {
        list := TopRecent(rows, RecentCodesCount);
      } else if newCode.Some? {
        list := [newCode.value] + recentCodes.value;
        if |list| > RecentCodesCount {
          list := list[..|list| - 1];
        }
      } else {
        list := TopRecent(rows, RecentCodesCount);
      }
      assert list == RefreshedRecent(recentCodes, newCode, rows);
      RefreshedRecentBounded(recentCodes, newCode, rows);
      CoherentAfterProjectionWrite(cache, rows, RecentKey, CacheEntry(Records(list), ProjectionTtl));
      cache := cache[RecentKey := CacheEntry(Records(list), ProjectionTtl)];
    }

    /** `GetAllCodesAsync`: the cached code list, or on a miss the codes of
        every row, which are then cached for ten minutes. */
    method GetAllCodes() returns (codes: seq<string>)
      requires Valid()
      modifies this
      ensures Valid()
      ensures rows == old(rows)
      ensures old(GetCodes(cache, AllCodesKey)).Some? ==>
        codes == old(GetCodes(cache, AllCodesKey)).value && cache == old(cache)
      ensures old(GetCodes(cache, AllCodesKey)).None? ==>
        codes == Codes(rows)
        && cache == old(cache)[AllCodesKey := CacheEntry(CodeList(codes), ProjectionTtl)]
    {
      var cached := GetCodes(cache, AllCodesKey);
      if cached.Some? {
        return cached.value;
      }
      codes := Codes(rows);
      CoherentAfterProjectionWrite(cache, rows, AllCodesKey, CacheEntry(CodeList(codes), ProjectionTtl));
      cache := cache[AllCodesKey := CacheEntry(CodeList(codes), ProjectionTtl)];
      assert GetRecords(cache, RecentKey) == old(GetRecords(cache, RecentKey));
    }

    /** `GetMostRecentCodesAsync`: the recent list comes from the cache, or
        on a miss from the 1000 most recent rows (cached for ten minutes), and
        the codes of its `count` most recent records are returned; a count of
        zero or less returns nothing. */
    method GetMostRecentCodes(count: int) returns (codes: seq<string>)
      requires Valid()
      modifies this
      ensures Valid()
      ensures rows == old(rows)
      ensures count <= 0 ==> codes == []
      ensures |codes| <= if count <= 0 then 0 else count
      ensures old(GetRecords(cache, RecentKey)).Some? ==>
        codes == MostRecentCodes(old(GetRecords(cache, RecentKey)).value, count) && cache == old(cache)
      ensures old(GetRecords(cache, RecentKey)).None? ==>
        var list := TopRecent(rows, RecentCodesCount);
        && codes == MostRecentCodes(list, count)
        && cache == old(cache)[RecentKey := CacheEntry(Records(list), ProjectionTtl)]
    {
      var recentCodes := GetRecords(cache, RecentKey);
      if recentCodes.None? {
        var list := TopRecent(rows, RecentCodesCount);
        TopRecentLength(rows, RecentCodesCount);
        CoherentAfterProjectionWrite(cache, rows, RecentKey, CacheEntry(Records(list), ProjectionTtl));
        cache := cache[RecentKey := CacheEntry(Records(list), ProjectionTtl)];
        recentCodes := Some(list);
      }
      TopRecentLength(recentCodes.value, count);
      codes := MostRecentCodes(recentCodes.value, count);
    }

    /** `PreloadDiscountCodeCachesAsync`: caches the 1000 most recent rows
        and the codes of every row, each for ten minutes. */
    method PreloadDiscountCodeCaches()
      requires Valid()
      modifies this
      ensures Valid()
      ensures rows == old(rows)
      ensures cache == old(cache)
        [RecentKey := CacheEntry(Records(TopRecent(rows, RecentCodesCount)), ProjectionTtl)]
        [AllCodesKey := CacheEntry(CodeList(Codes(rows)), ProjectionTtl)]
    {
      var recentCodes := TopRecent(rows, RecentCodesCount);
      TopRecentLength(rows, RecentCodesCount);
      CoherentAfterProjectionWrite(cache, rows, RecentKey, CacheEntry(Records(recentCodes), ProjectionTtl));
      cache := cache[RecentKey := CacheEntry(Records(recentCodes), ProjectionTtl)];
      var allCodes := Codes(rows);
      CoherentAfterProjectionWrite(cache, rows, AllCodesKey, CacheEntry(CodeList(allCodes), ProjectionTtl));
      cache := cache[AllCodesKey := CacheEntry(CodeList(allCodes), ProjectionTtl)];
      assert GetRecords(cache, RecentKey) == Some(recentCodes);
    }
  }
}
