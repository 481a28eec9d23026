/** `DiscountCodeService`: generation of a batch of new codes and
    redemption of one code, over the registered repository. Redemption is
    decided by `Classify`; the semaphores are modelled as held flags that
    every operation releases before it returns. */
module Service {
  import opened Basics
  import opened DiscountCodeModel
  import opened Store
  import opened CacheAside
  import Repository
  import CodeGenerator

  /** `UseCodeResultEnum`. */
  datatype UseCodeResult = Success | Failure | AlreadyUsed | Expired | Inactive | Deleted | Exception

  /** The byte each outcome is sent as. */
  function ToByte(o: UseCodeResult): (b: Byte)
    ensures o == UseCodeResult.Success <==> b == 0
  {
    match o
    case Success => 0
    case Failure => 1
    case AlreadyUsed => 2
    case Expired => 3
    case Inactive => 4
    case Deleted => 5
    case Exception => 6
  }

  /** Distinct outcomes are sent as distinct bytes. */
  lemma ToByteInjective(a: UseCodeResult, b: UseCodeResult)
    ensures ToByte(a) == ToByte(b) <==> a == b
  {
  }

  /** A record the service accepts for redemption at `now`: not deleted,
      active, unused, and expiring no earlier than `now`. */
  predicate Redeemable(r: CodeRecord, now: int) {
    !r.IsDeleted() && r.isActive && !r.isUsed && !(r.expirationDate < now)
  }

  /** The checks `UseCodeAsync` makes on the fetched record, in order: missing,
      deleted, inactive, already used, expired. */
  function Classify(fetched: Option<CodeRecord>, now: int): (o: UseCodeResult)
    ensures o == UseCodeResult.Success <==> fetched.Some? && Redeemable(fetched.value, now)
    ensures o == UseCodeResult.Failure <==> fetched.None?
    ensures o != Exception
    ensures fetched.Some? ==> (o == Deleted <==> fetched.value.IsDeleted())
    ensures o == Inactive ==> !fetched.value.IsDeleted() && !fetched.value.isActive
    ensures o == AlreadyUsed ==> !fetched.value.IsDeleted() && fetched.value.isActive && fetched.value.isUsed
    ensures o == Expired ==>
      !fetched.value.IsDeleted() && fetched.value.isActive && !fetched.value.isUsed && fetched.value.expirationDate < now
  {
    match fetched
    case None => UseCodeResult.Failure
    case Some(c) =>
      if c.IsDeleted() then Deleted
      else if !c.isActive then Inactive
      else if c.isUsed then AlreadyUsed
      else if c.expirationDate < now then Expired
      else UseCodeResult.Success
  }

  /** A code the caching repository lists as live is redeemable; a redeemable
      code is listed as live unless it expires exactly at `now`, which the
      listing already excludes while redemption still accepts it. */
  lemma LiveAndRedeemable(r: CodeRecord, now: int)
    ensures Live(r, now) ==> Classify(Some(r), now) == UseCodeResult.Success
    ensures Classify(Some(r), now) == UseCodeResult.Success ==> Live(r, now) || r.expirationDate == now
    ensures Classify(Some(r), now) == UseCodeResult.Success && r.expirationDate == now ==> !Live(r, now)
  {
  }

  /** A soft-deleted record is refused as deleted whatever its other fields. */
  lemma DeletedIsRefused(r: CodeRecord, t: int, now: int)
    ensures Classify(Some(r.MarkedDeleted(t)), now) == Deleted
  {
  }

  /** A redeemed record is refused as already used. */
  lemma RedeemedIsRefused(r: CodeRecord, now: int, later: int)
    requires Classify(Some(r), now) == UseCodeResult.Success
    ensures Classify(Some(r.(isUsed := true)), later) == AlreadyUsed
  {
  }

  /** `new DiscountCode { Code = code }` for each generated code. */
  function NewBatch(codes: seq<string>, now: int): seq<CodeRecord> {
    seq(|codes|, i requires 0 <= i < |codes| => Initial(now).(code := codes[i]))
  }

  /** A batch of distinct codes, none of them in a list that covers the
      table's codes, is one the store accepts. */
  lemma FreshBatchAccepted(rows: seq<CodeRecord>, codes: seq<string>, existing: seq<string>, now: int)
    requires forall i, j :: 0 <= i < j < |codes| ==> codes[i] != codes[j]
    requires forall c :: c in codes ==> c !in existing
    requires forall c :: HasCode(rows, c) ==> c in existing
    ensures BatchAcceptable(rows, NewBatch(codes, now))
  {
    var b := NewBatch(codes, now);
    forall i | 0 <= i < |b| ensures !HasCode(rows, b[i].code) {
      assert b[i].code == codes[i] && codes[i] in codes;
    }
  }

  /** The loop of `GenerateAndAddCodesAsync` that builds one fresh entity per
      generated code and collects them in order. */
  method BuildEntities(codes: seq<string>, now: int) returns (batch: seq<CodeRecord>)
    ensures batch == NewBatch(codes, now)
  {
    batch := [];
    var i := 0;
    while i < |codes|
      invariant 0 <= i <= |codes|
      invariant |batch| == i
      invariant forall k :: 0 <= k < i ==> batch[k] == Initial(now).(code := codes[k])
    {
      var entity := new DiscountCode(now);
      entity.code := codes[i];
      batch := batch + [entity.Snapshot()];
      i := i + 1;
    }
  }

  /** A new batch carries the generated codes in order. */
  lemma NewBatchCodes(codes: seq<string>, now: int)
    ensures Codes(NewBatch(codes, now)) == codes
  {
  }

  /** `UnitOfWork`: `CompleteAsync` saves the context; everything the
      repository wrote is already saved, so only the call is recorded. */
  class UnitOfWork {
    var completed: nat

    constructor ()
      ensures completed == 0
    {
      completed := 0;
    }

    method Complete()
      modifies this
      ensures completed == old(completed) + 1
    {
      completed := completed + 1;
    }
  }

  class DiscountCodeService {
    const repo: Repository.DiscountCodeRepository
    const unitOfWork: UnitOfWork
    /** `_generateLock` is taken. */
    var generateLockHeld: bool
    /** The codes whose `_codeLocks` entry is taken. */
    var codeLocks: set<string>

    /** The repository keeps its invariant; between calls no lock is held. */
    ghost predicate Valid()
      reads this, repo
    {
      repo.Valid() && !generateLockHeld && codeLocks == {}
    }

    constructor (repo: Repository.DiscountCodeRepository, unitOfWork: UnitOfWork)
      requires repo.Valid()
      ensures Valid()
      ensures this.repo == repo && this.unitOfWork == unitOfWork
    {
      this.repo := repo;
      this.unitOfWork := unitOfWork;
      generateLockHeld := false;
      codeLocks := {};
    }

    /** `UseCodeAsync`: under the code's lock, fetch the record, classify
        it, and on success store it as used and complete the unit of work.
        A lookup that raises is `Exception`. The outcome depends only on the
        table's row, whatever the cache holds; only a success changes the
        table, and then the code looks up as used. */
    method UseCode(code: string, now: int) returns (result: UseCodeResult)
      requires Valid()
      modifies this, repo, unitOfWork
      ensures Valid()
      ensures result ==
        if old(HasCode(repo.rows, code)) then Classify(old(FindByCode(repo.rows, code)), now) else Exception
      ensures result == UseCodeResult.Success ==>
        var used := old(FindByCode(repo.rows, code)).value.(isUsed := true);
        && repo.rows == ReplaceRow(old(repo.rows), used)
        && Lookup(repo.cache, repo.rows, code) == Result.Success(used)
        && unitOfWork.completed == old(unitOfWork.completed) + 1
      ensures result != UseCodeResult.Success ==> repo.rows == old(repo.rows) && unitOfWork.completed == old(unitOfWork.completed)
      ensures result == UseCodeResult.Success ==>
        var used := old(FindByCode(repo.rows, code)).value.(isUsed := true);
        repo.cache == (old(repo.cache) - {CodeKey(code), LookupKey(code)})[RecentKey := CacheEntry(
          Records(RefreshedRecent(old(GetRecords(repo.cache, RecentKey)), Some(used), repo.rows)), ProjectionTtl)]
      ensures result != UseCodeResult.Success ==> repo.cache == old(ReadThrough(repo.cache, repo.rows, code))
    {
      codeLocks := codeLocks + {code};
      ghost var cache0 := repo.cache;
      var discountCode := repo.GetDiscountCodeByCode(code);
      ghost var cache1 := repo.cache;
      KeysAreDistinct(code);
      if discountCode.Failure? {
        result := Exception;
      } else {
        result := Classify(Some(discountCode.value), now);
        if result == UseCodeResult.Success {
          assert cache1 - {CodeKey(code), LookupKey(code)} == cache0 - {CodeKey(code), LookupKey(code)};
          var error := repo.UpdateDiscountCode(discountCode.value.(isUsed := true));
          if error.Some? {
            result := Exception;
          } else {
            unitOfWork.Complete();
          }
        }
      }
      codeLocks := codeLocks - {code};
    }

    /** `GenerateAndAddCodesAsync`: under the generation lock, read the
        existing codes, generate new ones from the random draws `rng`, build
        fresh records at `now`, insert them and complete the unit of work.
        Any failure is `false` and leaves the table as it was. When the
        existing-code list covers the table (as a freshly loaded one does),
        the insert succeeds exactly when generation does. */
    method GenerateAndAddCodes(count: UInt16, length: Byte, rng: seq<seq<int>>, now: int) returns (ok: bool)
      requires Valid()
      requires CodeGenerator.ValidOracle(rng, length)
      requires CodeGenerator.CheckArguments(count, length) == None ==> count * CodeGenerator.AttemptsPerCode <= |rng|
      modifies this, repo, unitOfWork
      ensures Valid()
      ensures var existing := ExistingCodes(old(repo.cache), old(repo.rows));
        var generated := CodeGenerator.Expected(count, length, existing, rng);
        && (ok <==> generated.Success? && BatchAcceptable(old(repo.rows), NewBatch(generated.value, now)))
        && (ok ==> repo.rows == old(repo.rows) + Stamp(NewBatch(generated.value, now), now))
        && ((forall c :: HasCode(old(repo.rows), c) ==> c in existing) ==> (ok <==> generated.Success?))
      ensures ok ==> unitOfWork.completed == old(unitOfWork.completed) + 1
      ensures !ok ==> repo.rows == old(repo.rows) && unitOfWork.completed == old(unitOfWork.completed)
      ensures ok ==> repo.cache == old(AllCodesRead(repo.cache, repo.rows))[RecentKey :=
        CacheEntry(Records(TopRecent(repo.rows, RecentCodesCount)), ProjectionTtl)]
      ensures !ok ==> repo.cache == old(AllCodesRead(repo.cache, repo.rows))
    {
      generateLockHeld := true;
      ghost var rows0, cache0 := repo.rows, repo.cache;
      var existingCodes := repo.GetAllCodes();
      assert existingCodes == ExistingCodes(cache0, rows0);
      assert repo.cache == AllCodesRead(cache0, rows0);
      var codes := CodeGenerator.GenerateCodes(count, length, existingCodes, rng);
      if codes.Failure? {
        ok := false;
      } else {
        CodeGenerator.GeneratedCodesAreValid(count, length, existingCodes, rng);
        var discountCodes := BuildEntities(codes.value, now);
        if forall c :: HasCode(rows0, c) ==> c in existingCodes {
          FreshBatchAccepted(rows0, codes.value, existingCodes, now);
        }
        var error := repo.AddRangeDiscountCodes(discountCodes, now);
        if error.Some? {
          ok := false;
        } else {
          unitOfWork.Complete();
          ok := true;
        }
      }
      generateLockHeld := false;
    }

    /** `GetAllCodesAsync`: the repository's all-codes projection. */
    method GetAllCodes() returns (codes: seq<string>)
      requires Valid()
      modifies repo
      ensures Valid()
      ensures repo.rows == old(repo.rows)
      ensures codes == ExistingCodes(old(repo.cache), repo.rows)
      ensures repo.cache == old(AllCodesRead(repo.cache, repo.rows))
    {
      codes := repo.GetAllCodes();
    }

    /** `GetMostRecentCodesAsync`: the repository's most-recent query. */
    method GetMostRecentCodes(count: int) returns (codes: seq<string>)
      requires Valid()
      modifies repo
      ensures Valid()
      ensures repo.rows == old(repo.rows)
      ensures count <= 0 ==> codes == []
      ensures codes == MostRecentCodes(
        if old(GetRecords(repo.cache, RecentKey)).Some? then old(GetRecords(repo.cache, RecentKey)).value
        else TopRecent(repo.rows, RecentCodesCount), count)
      ensures repo.cache == if old(GetRecords(repo.cache, RecentKey)).Some? then old(repo.cache)
        else old(repo.cache)[RecentKey := CacheEntry(Records(TopRecent(repo.rows, RecentCodesCount)), ProjectionTtl)]
    {
      codes := repo.GetMostRecentCodes(count);
    }
  }

  /** The list `GetAllCodesAsync` answers with on the registered
      repository: the cached list, else every code of the table. */
  function ExistingCodes(cache: CacheMap, rows: seq<CodeRecord>): seq<string> {
    if GetCodes(cache, AllCodesKey).Some? then GetCodes(cache, AllCodesKey).value else Codes(rows)
  }

  /** The cache after `GetAllCodesAsync` on the registered repository: a
      miss stores every code of the table for ten minutes. */
  function AllCodesRead(cache: CacheMap, rows: seq<CodeRecord>): CacheMap {
    if GetCodes(cache, AllCodesKey).Some? then cache
    else cache[AllCodesKey := CacheEntry(CodeList(Codes(rows)), ProjectionTtl)]
  }

  /** The cache after `GetDiscountCodeByCodeAsync`: a miss that finds a row
      stores it under the code's lookup key for five minutes. */
  function ReadThrough(cache: CacheMap, rows: seq<CodeRecord>, code: string): CacheMap {
    if GetRecord(cache, LookupKey(code)).None? && HasCode(rows, code)
    then cache[LookupKey(code) := CacheEntry(Single(FindByCode(rows, code).value), RecordTtl)]
    else cache
  }

  /** A freshly loaded existing-code list covers the table. */
  lemma FreshListCoversTable(cache: CacheMap, rows: seq<CodeRecord>)
    requires GetCodes(cache, AllCodesKey).None?
    ensures forall c :: HasCode(rows, c) ==> c in ExistingCodes(cache, rows)
  {
    AllCodesProperties(rows);
  }

  /** Redeeming a code twice never succeeds twice: once the first attempt
      succeeds, the second, at any moment, is refused as already used; and
      when the second comes no earlier than the first, it cannot succeed
      where the first failed either. */
  method RedeemTwice(s: DiscountCodeService, code: string, now: int, now2: int)
    returns (first: UseCodeResult, second: UseCodeResult)
    requires s.Valid()
    modifies s, s.repo, s.unitOfWork
    ensures s.Valid()
    ensures first == UseCodeResult.Success ==> second == AlreadyUsed
    ensures now <= now2 ==> second != UseCodeResult.Success
  {
    ghost var rows0 := s.repo.rows;
    first := s.UseCode(code, now);
    if first == UseCodeResult.Success {
      ghost var used := FindByCode(rows0, code).value.(isUsed := true);
      FindAfterReplace(rows0, used, code);
      RedeemedIsRefused(FindByCode(rows0, code).value, now, now2);
    }
    second := s.UseCode(code, now2);
  }
}
