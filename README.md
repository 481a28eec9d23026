# Discount-code lifecycle, modelled in Dafny

This project models the core of DiscountCodeGenerator, a service that
generates batches of unique discount codes and redeems them one at a time.
The discount-code table sits behind a cache-aside repository, with Redis
as the cache. The model covers:

- **The entity.** The record, its defaults, the derived `IsDeleted` and the
  in-place `MarkAsDeleted`. This is modelled for the application's entity
  and for the stub service project's entity. The stub's entity has no
  amount or expiration defaults, so a fresh stub record is already expired.
- **The generator.** It checks its arguments, then makes draws from a
  36-character alphabet. It keeps each draw not seen before and stops after
  `count * 50` attempts.
- **The transport's two input validators.**
- **Both repositories.** `CachingDiscountCodeRepository` and the registered
  `DiscountCodeRepository`. Each is a class with two fields:
  - `rows`: the table in table order, with codes as the primary key;
  - `cache`: a map from key to entry. An entry is one record, a list of
    records or a list of codes, together with the TTL it was written with.

  The modelled behaviour:
  - read-through on a miss;
  - invalidation of both per-code key spellings on update and delete;
  - the recent-list refresh: push onto the head and trim, or rebuild;
  - the two all-codes and most-recent policies, one per repository.
- **The service.** Redemption (`UseCode`) and batch generation
  (`GenerateAndAddCodes`).

Modelling choices:

- **Time.** An integer `now` in seconds, with `DateTime.MinValue` as 0.
- **Random draws.** An oracle `rng`. Entry `rng[k]` lists the `length`
  results of `Random.Shared.Next(36)` that attempt `k` (counting from 0)
  consumes.
- **Amounts.** Whole cents: the default 10.0 is 1000.
- **Store errors.** Each is a `Persistence` error that changes nothing:
  - updating a code that has no row;
  - deleting a code that has no row;
  - inserting a batch that repeats a code, or reuses a code already in the table.

Each repository keeps the class invariant `Valid()`:

- codes are unique;
- every record cached under `discountcode:code:<c>` is the table's current
  row for `c` (`CacheAside.Coherent`);
- the cached recent list holds at most 1000 records.

The repositories compare codes ordinally: a lookup of `c` matches only a
row whose code is exactly `c`. Under that comparison the invariant gives
that a lookup always answers with the table's current row, whatever the
cache holds, and `UseCode`'s outcome depends only on the table. The
registered store is SQL Server, whose `=` ignores trailing spaces (and,
under the default collation, letter case). For an input spelled
differently from the stored code that guarantee fails, as the `Collation`
module and the finding below show. For the codes the generator makes
(A-Z and 0-9 only) the two comparisons agree
(`Collation.CanonicalCodesCompareOrdinally`).

In these places the code's behaviour is easy to misread; the model follows
the code:

- **Expiry.** A code whose expiration equals `now` is still redeemed, because
  the check is `ExpirationDate < now`.
- **Unknown code.** It gives `Exception`, not `Failure`. The repository raises
  not-found, and the service turns every exception into `Exception`. `Failure`
  (a null record) cannot happen with either repository.
- **Recent list order.** The cached recent list is not always most recent
  first. An update pushes the new copy of a record onto the head and leaves
  its old copy in place. The list can then name one code twice and lose its
  order: `CacheAside.IncrementalRefreshKeepsStaleCopy` shows this. Only the
  bound of 1000 is an invariant.

Other observed behaviour:

- **Stale all-codes list.** `AddRangeDiscountCodes` refreshes the recent list
  but never the all-codes list (`GetAllCodes` writes it, and only on a miss).
  A second generation within that list's TTL therefore excludes only the
  codes the list already held. If the generator then draws a code of the
  first batch, the store rejects the batch, and `GenerateAndAddCodes` returns
  false. Its contract states this outright: success needs generation to
  succeed AND the batch to be acceptable. When the list covers the table,
  which a freshly loaded one does (`Service.FreshListCoversTable`), success
  needs only the first.
- **Bounded all-codes list.** When the caching variant's `GetAllCodes` fills
  the list on a miss, the list holds only the codes of the 1000 most recent
  rows (`CacheAside.BoundedAllCodesProperties`).
  `PreloadDiscountCodeCaches` writes every code of the table to the same key,
  so a preloaded list is not bounded.
- **Live filter.** The caching variant lists a code as live only while
  `ExpirationDate > now`. Redemption still accepts a code at equality
  (`Service.LiveAndRedeemable`).
- **Key collision.** The code `code:X` has the primary-key spelling
  `discountcode:code:X`, which is also the lookup spelling of `X`.
  Invalidating one therefore also drops the other. This only ever removes
  more, and coherence survives it.

## Model

| member | source | states |
|---|---|---|
| DiscountCodeModel.CodeRecord.MarkedDeleted | DiscountCodeApplication/Models/DiscountCode.cs:34-38 | soft delete stamps `DeletedAt` with the time and clears `IsActive`, so the record is deleted and deleted implies inactive; every other field is unchanged |
| DiscountCodeModel.InitialIsLive | DiscountCodeApplication/Models/DiscountCode.cs:16-29 | a fresh record is active, unused, not deleted, never updated, created at construction time, expires 30 days later and has amount 10.00 |
| DiscountCodeModel.DiscountCode.constructor | DiscountCodeApplication/Models/DiscountCode.cs:13-29 | the field initialisers evaluated at `now` give the fresh record |
| DiscountCodeModel.DiscountCode.IsDeleted | DiscountCodeApplication/Models/DiscountCode.cs:31-32 | true exactly when `DeletedAt` has a value |
| DiscountCodeModel.DiscountCode.MarkAsDeleted | DiscountCodeApplication/Models/DiscountCode.cs:34-38 | in place: `DeletedAt = now`, `IsActive = false`, hence `IsDeleted`; code, used flag, expiration, creation, update stamp and amount unchanged |
| StubDiscountCodeModel.DiscountCode.constructor | DiscountCodeService/Models/DiscountCode.cs:13-29 | without initialisers the amount is zero and the expiration is `DateTime.MinValue`; the record is active, unused, not deleted, created at `now` |
| StubDiscountCodeModel.DiscountCode.IsDeleted | DiscountCodeService/Models/DiscountCode.cs:31-32 | true exactly when `DeletedAt` has a value |
| StubDiscountCodeModel.DiscountCode.MarkAsDeleted | DiscountCodeService/Models/DiscountCode.cs:34-38 | in place: `DeletedAt = now`, `IsActive = false`, nothing else changes |
| CodeGenerator.AlphabetIsCodeChars | DiscountCodeApplication/Services/DiscountCodeGenerator.cs:7 | the alphabet has 36 characters, A-Z then 0-9, and contains every such character |
| CodeGenerator.GenerateRandomCode | DiscountCodeApplication/Services/DiscountCodeGenerator.cs:45-53 | the array filled from `length` draws spells those draws through the alphabet: `length` characters, all from A-Z0-9 |
| CodeGenerator.CheckArguments | DiscountCodeApplication/Services/DiscountCodeGenerator.cs:11-19 | no error exactly when 1 <= count <= 2000 and 7 <= length <= 8; a bad count is reported whatever the length |
| CodeGenerator.Draws | DiscountCodeApplication/Services/DiscountCodeGenerator.cs:26-34 | `n` attempts draw `n` codes in order, each well formed |
| CodeGenerator.DrawsPrefix | DiscountCodeApplication/Services/DiscountCodeGenerator.cs:26-34 | the first `k` attempts draw a prefix of what `n >= k` attempts draw |
| CodeGenerator.FreshProperties | DiscountCodeApplication/Services/DiscountCodeGenerator.cs:21-39 | the kept codes are exactly the drawn codes outside the existing set, each kept once |
| CodeGenerator.FreshPrefix | DiscountCodeApplication/Services/DiscountCodeGenerator.cs:36-39 | more draws never change the codes already kept, so results are in draw order |
| CodeGenerator.GenerateCodes | DiscountCodeApplication/Services/DiscountCodeGenerator.cs:9-43 | the loop returns an argument error, exhaustion once more than `count * 50` attempts are needed, or the first `count` new codes in draw order |
| CodeGenerator.GeneratedCodesAreValid | DiscountCodeApplication/Services/DiscountCodeGenerator.cs:21-42 | on success: exactly `count` codes, pairwise distinct, none in `existingCodes`, each `length` characters from A-Z0-9 |
| CodeGenerator.ArgumentErrors | DiscountCodeApplication/Services/DiscountCodeGenerator.cs:11-19 | a bad count, then a bad length, fail before any draw |
| Validation.ValidateGenerateCodeInput | DiscountCodeApplication/Hubs/DiscountCodeValidation.cs:6-13 | no message exactly when 1 <= count <= 2000 and 7 <= length <= 8; a bad count gets the count message whatever the length |
| Validation.ValidateUseCodeInput | DiscountCodeApplication/Hubs/DiscountCodeValidation.cs:15-22 | no message exactly when the code is present, has a non-white-space character and is at most 8 UTF-16 units long (`string.Length`); otherwise the code message |
| Validation.Utf16LengthBounds | DiscountCodeApplication/Hubs/DiscountCodeValidation.cs:17 | `Length` counts at least one unit per character, at most two, and exactly one when every character is in the Basic Multilingual Plane |
| Validation.AstralCharactersCountTwice | DiscountCodeApplication/Hubs/DiscountCodeValidation.cs:17 | five characters outside the Basic Multilingual Plane are ten units long and are refused |
| Validation.ValidatorAgreesWithGenerator | DiscountCodeApplication/Hubs/DiscountCodeValidation.cs:6-13 | the validator accepts exactly the arguments the generator accepts, and its two messages match the generator's two argument errors |
| Validation.GeneratedCodesPass | DiscountCodeApplication/Hubs/DiscountCodeValidation.cs:15-22 | every code the generator produces passes the use-code validator |
| Store.FindByCode | DiscountCodeApplication/Repository/CachingDiscountCodeRepository.cs:61 | `FirstOrDefault` finds a row with that code exactly when one exists; with unique codes it is the only one |
| Store.SortByCreatedDesc | DiscountCodeApplication/Repository/CachingDiscountCodeRepository.cs:147-150 | `OrderByDescending(CreatedAt)` is most recent first and a permutation of its input |
| Store.SortKeepsSorted | DiscountCodeApplication/Repository/CachingDiscountCodeRepository.cs:300-304 | the sort is stable: a list already most recent first comes back unchanged |
| Store.TopRecentProperties | DiscountCodeApplication/Repository/CachingDiscountCodeRepository.cs:147-150 | the top-n projection is sorted, has min(n, rows) rows of the table, and no row left out is newer than a row kept |
| Store.TopRecentOfTopRecent | DiscountCodeApplication/Repository/CachingDiscountCodeRepository.cs:300-304 | re-sorting the top 1000 and taking `m <= 1000` gives the top `m` of the table |
| Store.FilterLive | DiscountCodeApplication/Repository/CachingDiscountCodeRepository.cs:280 | keeps exactly the rows that are unused, active, strictly unexpired and not deleted |
| Store.FilterLiveAppend | DiscountCodeApplication/Repository/CachingDiscountCodeRepository.cs:280 | the filter keeps table order: filtering a concatenation concatenates the filtered parts |
| Store.FilterLiveSingle | DiscountCodeApplication/Repository/CachingDiscountCodeRepository.cs:280 | a single row is kept exactly when it is live |
| Store.StampKeepsCodes | DiscountCodeApplication/Repository/CachingDiscountCodeRepository.cs:91-94 | stamping `CreatedAt` changes no code |
| Store.AppendKeepsUnique | DiscountCodeApplication/Repository/CachingDiscountCodeRepository.cs:95-96 | an insert the store accepts keeps codes unique and appends the batch's codes in order |
| Store.FindAfterAppend | DiscountCodeApplication/Repository/CachingDiscountCodeRepository.cs:95-96 | after an insert a code is found as before, or else in the batch |
| Store.FindAfterReplace | DiscountCodeApplication/Repository/CachingDiscountCodeRepository.cs:117-118 | after an update the code is found with its new values and every other code as before; codes stay unique |
| Store.RemoveRow | DiscountCodeApplication/Repository/CachingDiscountCodeRepository.cs:173-174 | a delete keeps exactly the rows with other codes |
| Store.FindAfterRemove | DiscountCodeApplication/Repository/CachingDiscountCodeRepository.cs:173-174 | after a delete the code is not found and every other code is found as before |
| Store.RemoveKeepsUnique | DiscountCodeApplication/Repository/CachingDiscountCodeRepository.cs:173-174 | a delete keeps codes unique |
| CacheAside.KeysAreDistinct | DiscountCodeApplication/Repository/CachingDiscountCodeRepository.cs:11-13 | no per-code key is the recent-list or all-codes key |
| CacheAside.LookupKeyInjective | DiscountCodeApplication/Repository/CachingDiscountCodeRepository.cs:53 | distinct codes have distinct lookup keys |
| CacheAside.InsertAtHeadProperties | DiscountCodeApplication/Repository/CachingDiscountCodeRepository.cs:209-216 | the pushed record comes first, the old list follows with at most its last element dropped, and a list of at most 1000 stays at most 1000 |
| CacheAside.RefreshedRecentBounded | DiscountCodeApplication/Repository/CachingDiscountCodeRepository.cs:194-227 | a refresh keeps the bound of 1000; a rebuild is most recent first and drawn from the table; a push puts the record at the head |
| CacheAside.IncrementalRefreshKeepsStaleCopy | DiscountCodeApplication/Repository/CachingDiscountCodeRepository.cs:209-216 | pushing an updated record keeps its stale copy, so the list can name a code twice and lose its order |
| CacheAside.BoundedAllCodesProperties | DiscountCodeApplication/Repository/CachingDiscountCodeRepository.cs:254-258 | the bounded projection has min(rows, 1000) codes, each of a row, and every code of a table of at most 1000 rows |
| CacheAside.AllCodesProperties | DiscountCodeApplication/Repository/DiscountCodeRepository.cs:248-250 | the unbounded projection has one code per row and lists exactly the table's codes |
| CacheAside.MostRecentLiveCodes | DiscountCodeApplication/Repository/CachingDiscountCodeRepository.cs:279-304 | from a freshly loaded list: at most `count` codes, each of a live row, and for `count <= 1000` exactly the `count` most recent live codes |
| CacheAside.MostRecentCodesOfTable | DiscountCodeApplication/Repository/DiscountCodeRepository.cs:274-297 | from a freshly loaded list: the codes of the `count` most recent rows, used or not, `max(count, 0)` of them at most |
| CacheAside.CoherentLookup | DiscountCodeApplication/Repository/CachingDiscountCodeRepository.cs:51-85 | under coherence a cache-aside lookup answers the table's row, or not-found when there is none |
| CacheAside.CoherentAfterReadThrough | DiscountCodeApplication/Repository/CachingDiscountCodeRepository.cs:61-64 | caching the row just read keeps coherence |
| CacheAside.CoherentAfterRemoveKeys | DiscountCodeApplication/Repository/CachingDiscountCodeRepository.cs:122-125 | removing cache keys keeps coherence |
| CacheAside.CoherentAfterProjectionWrite | DiscountCodeApplication/Repository/CachingDiscountCodeRepository.cs:227 | writing the recent-list or all-codes key keeps coherence |
| CacheAside.CoherentAfterReplace | DiscountCodeApplication/Repository/CachingDiscountCodeRepository.cs:117-125 | an update keeps coherence once its lookup key is removed |
| CacheAside.CoherentAfterRemoveRow | DiscountCodeApplication/Repository/CachingDiscountCodeRepository.cs:173-181 | a delete keeps coherence once its lookup key is removed |
| CacheAside.CoherentAfterAppend | DiscountCodeApplication/Repository/CachingDiscountCodeRepository.cs:95-96 | an insert keeps coherence |
| CacheAside.LookupAfterReplace | DiscountCodeApplication/Repository/CachingDiscountCodeRepository.cs:113-136 | after an update the code looks up to its new values and every other code as before |
| CacheAside.LookupAfterRemove | DiscountCodeApplication/Repository/CachingDiscountCodeRepository.cs:169-192 | after a delete the code is not found and every other code looks up as before |
| CacheAside.LookupAfterAppend | DiscountCodeApplication/Repository/CachingDiscountCodeRepository.cs:87-111 | after an insert every code found before is found the same, new codes are found with their stored values |
| CachingRepository.CachingDiscountCodeRepository.GetDiscountCodeByCode | DiscountCodeApplication/Repository/CachingDiscountCodeRepository.cs:51-85 | a hit answers from the cache and writes nothing; a miss on an existing code caches the row for 5 minutes; a miss in both is not-found and writes nothing; the answer is always the table's row |
| CachingRepository.CachingDiscountCodeRepository.AddRangeDiscountCodes | DiscountCodeApplication/Repository/CachingDiscountCodeRepository.cs:87-111 | stamps every record with `now`; an acceptable batch is appended and the recent list rebuilt; otherwise a persistence error with nothing changed; lookups of new codes find them |
| CachingRepository.CachingDiscountCodeRepository.UpdateDiscountCode | DiscountCodeApplication/Repository/CachingDiscountCodeRepository.cs:113-136 | the row takes all new values, both per-code keys are removed, the record is pushed onto the recent list; the next lookup returns the new values; no row is a persistence error with nothing changed |
| CachingRepository.CachingDiscountCodeRepository.GetRecentDiscountCodes | DiscountCodeApplication/Repository/CachingDiscountCodeRepository.cs:138-167 | a hit returns the cached list; a miss returns and caches the 1000 most recent rows for 10 minutes; never more than 1000 |
| CachingRepository.CachingDiscountCodeRepository.DeleteDiscountCode | DiscountCodeApplication/Repository/CachingDiscountCodeRepository.cs:169-192 | removes the row and both per-code keys, rebuilds the recent list; the code is then not found; no row is a persistence error with nothing changed |
| CachingRepository.CachingDiscountCodeRepository.UpdateRecentDiscountCodeCache | DiscountCodeApplication/Repository/CachingDiscountCodeRepository.cs:194-235 | writes the recent key once with the pushed-and-trimmed list when one is cached and a record is given, otherwise with the rebuilt top 1000 |
| CachingRepository.CachingDiscountCodeRepository.GetAllCodes | DiscountCodeApplication/Repository/CachingDiscountCodeRepository.cs:237-269 | a hit returns the cached list; a miss returns and caches for 10 minutes the codes of the 1000 most recent rows |
| CachingRepository.CachingDiscountCodeRepository.GetMostRecentCodes | DiscountCodeApplication/Repository/CachingDiscountCodeRepository.cs:271-312 | a count of zero or less is an argument error touching nothing; otherwise at most `count` codes, most recent first, from the cached list or from the freshly cached top 1000 live rows |
| CachingRepository.CachingDiscountCodeRepository.PreloadDiscountCodeCaches | DiscountCodeApplication/Repository/CachingDiscountCodeRepository.cs:316-330 | writes the top 1000 rows and every code without reading the cache |
| Repository.DiscountCodeRepository.GetDiscountCodeByCode | DiscountCodeApplication/Repository/DiscountCodeRepository.cs:51-85 | hit, read-through on a miss for 5 minutes, or not-found; the answer is always the table's row |
| Repository.DiscountCodeRepository.AddRangeDiscountCodes | DiscountCodeApplication/Repository/DiscountCodeRepository.cs:87-111 | stamps `now`, appends an acceptable batch and rebuilds the recent list; otherwise a persistence error with nothing changed |
| Repository.DiscountCodeRepository.UpdateDiscountCode | DiscountCodeApplication/Repository/DiscountCodeRepository.cs:113-136 | replaces the row, removes both per-code keys, pushes onto the recent list; the next lookup returns the new values |
| Repository.DiscountCodeRepository.GetRecentDiscountCodes | DiscountCodeApplication/Repository/DiscountCodeRepository.cs:138-167 | cached list, or the freshly cached 1000 most recent rows; never more than 1000 |
| Repository.DiscountCodeRepository.DeleteDiscountCode | DiscountCodeApplication/Repository/DiscountCodeRepository.cs:169-192 | removes the row and both per-code keys and rebuilds the recent list; a later lookup is not-found |
| Repository.DiscountCodeRepository.UpdateRecentDiscountCodeCache | DiscountCodeApplication/Repository/DiscountCodeRepository.cs:194-235 | push and trim onto a cached list when a record is given, otherwise the rebuilt top 1000 |
| Repository.DiscountCodeRepository.GetAllCodes | DiscountCodeApplication/Repository/DiscountCodeRepository.cs:237-267 | a hit returns the cached list; a miss returns and caches every code of the table in table order |
| Repository.DiscountCodeRepository.GetMostRecentCodes | DiscountCodeApplication/Repository/DiscountCodeRepository.cs:269-304 | no validation: at most `max(count, 0)` codes, most recent first, from the cached list or the freshly cached unfiltered top 1000 |
| Repository.DiscountCodeRepository.PreloadDiscountCodeCaches | DiscountCodeApplication/Repository/DiscountCodeRepository.cs:306-320 | writes the top 1000 rows and every code without reading the cache |
| Service.ToByte | DiscountCodeApplication/Services/UseCodeResultEnum.cs:3-12 | the outcomes' byte values, 0 only for success |
| Service.ToByteInjective | DiscountCodeApplication/Services/UseCodeResultEnum.cs:3-12 | distinct outcomes have distinct bytes |
| Service.Classify | DiscountCodeApplication/Services/DiscountCodeService.cs:73-107 | missing, deleted, inactive, used, expired in that priority; success exactly for a present, redeemable record; never `Exception` |
| Service.LiveAndRedeemable | DiscountCodeApplication/Services/DiscountCodeService.cs:97-101 | a live code is redeemable; a code expiring exactly at `now` is redeemable but not listed as live |
| Service.DeletedIsRefused | DiscountCodeApplication/Services/DiscountCodeService.cs:79-83 | a soft-deleted record is refused as deleted |
| Service.RedeemedIsRefused | DiscountCodeApplication/Services/DiscountCodeService.cs:91-95 | once redeemed, a record is refused as already used at any later time |
| Service.FreshBatchAccepted | DiscountCodeApplication/Services/DiscountCodeService.cs:25-34 | distinct codes outside a list covering the table form a batch the store accepts |
| Service.BuildEntities | DiscountCodeApplication/Services/DiscountCodeService.cs:29-32 | the loop builds one fresh entity (defaults at `now`) per generated code, in generation order |
| Service.NewBatchCodes | DiscountCodeApplication/Services/DiscountCodeService.cs:29-32 | the batch carries the generated codes in order |
| Service.FreshListCoversTable | DiscountCodeApplication/Repository/DiscountCodeRepository.cs:245-253 | a freshly loaded all-codes list contains every code of the table |
| Service.UnitOfWork.Complete | DiscountCodeApplication/UnitOfWork/UnitOfWork.cs:8-21 | records one completion |
| Service.DiscountCodeService.UseCode | DiscountCodeApplication/Services/DiscountCodeService.cs:64-120 | the outcome is the classification of the table's row, or `Exception` for an unknown code; only success marks the row used, updates once and completes once, after which the code looks up as used; on success the code's two per-code keys are gone and the recent list is refreshed with the used record, otherwise the cache is the lookup's read-through; the code's lock is released |
| Service.DiscountCodeService.GenerateAndAddCodes | DiscountCodeApplication/Services/DiscountCodeService.cs:18-49 | true exactly when generation against the all-codes list succeeds and the store accepts the fresh records; then they are appended in generation order, the recent list is rebuilt and the unit of work completes once; false leaves the table unchanged; the cache keeps the all-codes read either way; the lock is released |
| Service.DiscountCodeService.GetAllCodes | DiscountCodeApplication/Services/DiscountCodeService.cs:51-56 | the repository's all-codes answer; the cache afterwards holds that list under the all-codes key (written on a miss, untouched on a hit) |
| Service.DiscountCodeService.GetMostRecentCodes | DiscountCodeApplication/Services/DiscountCodeService.cs:58-62 | the repository's most-recent answer; on a miss the recent key now holds the rebuilt top 1000, on a hit the cache is unchanged |
| Service.RedeemTwice | DiscountCodeApplication/Services/DiscountCodeService.cs:64-120 | after a successful redemption a second one at any moment is already-used; a second attempt no earlier than the first never succeeds |
| Collation.CanonicalCodesCompareOrdinally | DiscountCodeApplication/Services/DiscountCodeGenerator.cs:7 | generated codes are their own canonical form, so between them the store's comparison is ordinal equality |
| Collation.SqlFind | DiscountCodeApplication/Repository/DiscountCodeRepository.cs:61 | the row found matches the input under the store's comparison; none found means no row matches |
| Collation.SqlFindByKey | DiscountCodeApplication/Repository/DiscountCodeRepository.cs:61 | spellings the store treats as equal find the same row |
| Collation.SqlFindAfterReplace | DiscountCodeApplication/Repository/DiscountCodeRepository.cs:115-116 | after the save the record's code finds the record, other codes find what they found before |
| Collation.Get | DiscountCodeApplication/Repository/DiscountCodeRepository.cs:51-85 | a hit answers from the cache; a miss answers the store's match and caches a row under the lookup key |
| Collation.Update | DiscountCodeApplication/Repository/DiscountCodeRepository.cs:113-136 | no matching row fails; otherwise the matched row takes the record, both keys of the record's code go and the recent list is refreshed |
| Collation.Redeem | DiscountCodeApplication/Services/DiscountCodeService.cs:64-120 | an unknown code is `Exception`; otherwise the classification of the fetched record, and a success stores the record as used; a redeemable record ends in `Exception` only when the store no longer matches it and the update fails |
| Collation.PaddedCodeRedeemsTwice | DiscountCodeApplication/Repository/DiscountCodeRepository.cs:53-64 | with the repository's keys, "VALIDCD " passes validation, redeems the row "VALIDCD", and redeems it a second time |
| Collation.CanonicalGetIsCoherent | DiscountCodeApplication/Repository/DiscountCodeRepository.cs:51-85 | with canonical keys a fetch answers the table's match and keeps the cache coherent |
| Collation.CanonicalUpdateIsCoherent | DiscountCodeApplication/Repository/DiscountCodeRepository.cs:113-136 | with canonical keys an update keeps the cache coherent |
| Collation.CanonicalKeysStayCoherent | DiscountCodeApplication/Services/DiscountCodeService.cs:64-120 | with canonical keys a redemption keeps the cache coherent |
| Collation.CanonicalKeysRedeemOnce | DiscountCodeApplication/Services/DiscountCodeService.cs:64-120 | with canonical keys, after a success every spelling the store matches to the code is refused as already used |

## Findings

| source | as written | input that shows it | evidently intended | confidence | as-written member | corrected member |
|---|---|---|---|---|---|---|
| DiscountCodeApplication/Repository/DiscountCodeRepository.cs:53-64, 120-125 | the per-code cache key is built from the caller's spelling, the table is matched with SQL Server's `=`, and an update removes only the key built from the stored code | a live row "VALIDCD"; `UseCode("VALIDCD ")` twice: both attempts succeed, the second from the stale unused copy under `discountcode:code:VALIDCD ` | a code redeems once, whatever spelling reaches the store; keying the cache by the comparison's canonical form gives that | not executed; rests on SQL Server ignoring trailing spaces in `=` | Collation.PaddedCodeRedeemsTwice | Collation.CanonicalKeysRedeemOnce |

The corrected design keys every lookup by the canonical form
(`Collation.KeyFor(true, …)`), keeps the cache coherent
(`Collation.CanonicalKeysStayCoherent`) and redeems a code once. The
repositories and the service in the rest of the model compare codes
ordinally. There each spelling is its own canonical form, so the two key
choices coincide, and `Service.RedeemTwice` is the corrected property in
that setting.

## Left out

- Concurrency: the generation semaphore and the per-code semaphores are held
  flags, set on entry and cleared on every exit. Waiting, interleaving and
  the check-then-remove race on the per-code lock dictionary are not
  modelled. Each repository operation is one atomic step.
- Randomness: `Random.Shared.Next(36)` is a sequence of draws the caller supplies.
- The clock: `DateTime.UtcNow` is the `now` parameter. One call reads one
  instant, so the record defaults, the `CreatedAt` stamp and the expiry
  comparison share it.
- TTL eviction: the TTL of each entry is recorded, but entries never expire.
- Redis and JSON: the cache is a map. An entry of another shape reads as a
  miss, which models an undecodable value. Connection failures are not
  modelled. Neither is the fact that an empty JSON list decodes under either
  list type.
- Entity Framework and SQL Server: the table is a sequence. Two things
  follow:
  - SQL `ORDER BY` breaks ties in an unspecified order, and the model breaks
    ties in table order.
  - The `DatabaseGenerated` marking of `CreatedAt` is not modelled: the
    stamped value is stored.
- Object identity: records are values. Tracking and aliasing of entity
  instances by the context, and the caller-visible in-place `CreatedAt`
  stamp on a rejected batch, are not captured.
- `GetByIdAsync`: it is not part of the repository interface, and it looks up
  an integer against a string key.
- The SignalR hubs, `Program.cs`, CORS, logging, the preload hosted service,
  and the stub project's hub, program and interfaces are not part of this
  model. Only the two validators are modelled.
- `DiscountAmount`: a decimal, modelled as whole cents.
- The stub project's cache service, which throws on a miss, is not wired
  anywhere and is not part of this model.
- `UnitOfWork.Complete`: it never fails, because every repository write is
  already saved by then.
- CoherentLookup: coherence is stated for the model's ordinal comparison of
  codes. Under SQL Server's comparison (trailing spaces, and under the default
  collation letter case, ignored) a padded or case-differing input can read a
  stale copy. The `Collation` module models that comparison for the
  redemption path.
- GetDiscountCodeByCode: in both repositories, "the answer is the table's
  row" holds for the ordinal comparison only. Under the store's comparison
  the answer for another spelling can be stale (`Collation.Get`,
  `Collation.PaddedCodeRedeemsTwice`).
- FindByCode: matches ordinally. SQL Server's `=` also matches spellings that
  differ in trailing spaces or letter case (`Collation.SqlFind`).
- BatchAcceptable: checks uniqueness ordinally. The store's unique key also
  rejects a code that differs from an existing one only in trailing spaces or
  case. Generated codes never differ that way
  (`Collation.CanonicalCodesCompareOrdinally`).
- Coherent: the class invariant holds for the ordinal comparison. It is not an
  invariant of the source under the store's comparison.
- UseCode: its outcome is "the classification of the table's row" only under
  the ordinal comparison. With the store's comparison a second spelling can be
  redeemed again (see Findings).
- RedeemTwice: proved for one spelling under the ordinal comparison. For two
  spellings the store matches to one row, it fails as written
  (`Collation.PaddedCodeRedeemsTwice`). It holds with canonical keys
  (`Collation.CanonicalKeysRedeemOnce`).
- GetMostRecentCodes: the caching variant's miss queries with a filter on
  `IsDeleted`. That is a computed property with no column, which the query
  translator most likely cannot turn into SQL, so the call would throw at
  that point. The model returns the filtered list that the query states.
- Default arguments and null input: the `count = 10` defaults are not
  modelled (every call passes a count). A null code makes `UseCodeAsync`
  throw at the lock dictionary, before its `try`; the model's code is never
  null.
- Per-code locks are keyed by the caller's spelling, so two spellings of one
  code do not exclude each other; this is part of the concurrency left out
  above.
