/** How the registered store compares codes. SQL Server's `=` on a
    character column ignores trailing spaces, and under the default
    case-insensitive collation it ignores letter case as well. The lookup
    `c.Code == code` therefore finds the row "VALIDCD" for the input
    "VALIDCD " or "validcd". The cache, however, is keyed by the caller's
    spelling, and an update invalidates only the key built from the stored
    code. This module models the redemption path over that comparison, once
    with the per-spelling lookup key the repository uses and once with a key
    built from the comparison's canonical form. */
module Collation {
  import opened Basics
  import opened DiscountCodeModel
  import opened CacheAside
  import Service
  import Validation
  import CodeGenerator

  /** The string without its trailing spaces. */
  function TrimEnd(s: string): (r: string)
    ensures r <= s
    ensures forall i :: |r| <= i < |s| ==> s[i] == ' '
    ensures r == [] || r[|r| - 1] != ' '
  {
    if s != [] && s[|s| - 1] == ' ' then TrimEnd(s[..|s| - 1]) else s
  }

  /** Letter case is ignored; only the ASCII letters are folded here. */
  function UpperAscii(c: char): (u: char)
    ensures 'a' <= c <= 'z' ==> 'A' <= u <= 'Z' && u as int == c as int - 32
    ensures !('a' <= c <= 'z') ==> u == c
  {
    if 'a' <= c <= 'z' then (c as int - 32) as char else c
  }

  /** The form two strings share exactly when the store's `=` holds
      between them. */
  function SqlKey(s: string): (k: string)
    ensures |k| == |TrimEnd(s)|
    ensures forall i :: 0 <= i < |k| ==> k[i] == UpperAscii(s[i])
  {
    var t := TrimEnd(s);
    seq(|t|, i requires 0 <= i < |t| => UpperAscii(t[i]))
  }

  /** Generated codes are their own canonical form, so between two of them
      the store's comparison is ordinal equality. */
  lemma CanonicalCodesCompareOrdinally(a: string, b: string, la: int, lb: int)
    requires CodeGenerator.WellFormed(a, la) && CodeGenerator.WellFormed(b, lb)
    ensures SqlKey(a) == a && SqlKey(b) == b
    ensures SqlKey(a) == SqlKey(b) <==> a == b
  {
    GeneratedIsCanonical(a, la);
    GeneratedIsCanonical(b, lb);
  }

  lemma GeneratedIsCanonical(a: string, la: int)
    requires CodeGenerator.WellFormed(a, la)
    ensures SqlKey(a) == a
  {
    if a != [] {
      assert CodeGenerator.IsCodeChar(a[|a| - 1]);
    }
    assert TrimEnd(a) == a;
    assert forall i :: 0 <= i < |a| ==> CodeGenerator.IsCodeChar(a[i]);
  }

  /** `FirstOrDefaultAsync(c => c.Code == code)` as the store evaluates it. */
  function SqlFind(rows: seq<CodeRecord>, code: string): (r: Option<CodeRecord>)
    ensures r.Some? ==> r.value in rows && SqlKey(r.value.code) == SqlKey(code)
    ensures r.None? ==> forall x :: x in rows ==> SqlKey(x.code) != SqlKey(code)
  {
    if rows == [] then None
    else if SqlKey(rows[0].code) == SqlKey(code) then Some(rows[0])
    else
      assert forall x :: x in rows ==> x == rows[0] || x in rows[1..];
      SqlFind(rows[1..], code)
  }

  /** The answer depends on the input only through its canonical form. */
  lemma {:induction false} SqlFindByKey(rows: seq<CodeRecord>, a: string, b: string)
    requires SqlKey(a) == SqlKey(b)
    ensures SqlFind(rows, a) == SqlFind(rows, b)
  {
    if rows != [] {
      SqlFindByKey(rows[1..], a, b);
    }
  }

  /** Saving the modified record: the row the store matches takes its values. */
  function SqlReplace(rows: seq<CodeRecord>, rec: CodeRecord): seq<CodeRecord> {
    seq(|rows|, i requires 0 <= i < |rows| => if SqlKey(rows[i].code) == SqlKey(rec.code) then rec else rows[i])
  }

  /** After the save, the record's code finds the record, and a code the
      store tells apart from it finds what it found before. */
  lemma {:induction false} SqlFindAfterReplace(rows: seq<CodeRecord>, rec: CodeRecord, c: string)
    ensures SqlKey(c) == SqlKey(rec.code) && SqlFind(rows, c).Some? ==> SqlFind(SqlReplace(rows, rec), c) == Some(rec)
    ensures SqlKey(c) != SqlKey(rec.code) ==> SqlFind(SqlReplace(rows, rec), c) == SqlFind(rows, c)
  {
    if rows != [] {
      assert SqlReplace(rows, rec)[1..] == SqlReplace(rows[1..], rec);
      SqlFindAfterReplace(rows[1..], rec, c);
    }
  }

  /** The table and the cache. */
  datatype State = State(rows: seq<CodeRecord>, cache: CacheMap)

  /** What a fetch returns and the state it leaves. */
  datatype Fetch = Fetch(found: Option<CodeRecord>, state: State)

  /** What a redemption answers and the state it leaves. */
  datatype Step = Step(outcome: Service.UseCodeResult, state: State)

  /** The per-code lookup key: the caller's spelling as the repository
      builds it, or the canonical form when `canonical` holds. */
  function KeyFor(canonical: bool, code: string): string {
    LookupKey(if canonical then SqlKey(code) else code)
  }

  /** `GetDiscountCodeByCodeAsync` over the store's comparison: a cache hit
      answers; a miss queries the table and caches a row it finds. */
  function Get(canonical: bool, s: State, code: string): (f: Fetch)
    ensures f.state.rows == s.rows
    ensures GetRecord(s.cache, KeyFor(canonical, code)).Some? ==>
      f == Fetch(GetRecord(s.cache, KeyFor(canonical, code)), s)
    ensures GetRecord(s.cache, KeyFor(canonical, code)).None? ==>
      f.found == SqlFind(s.rows, code)
      && f.state.cache == if f.found.None? then s.cache
                          else s.cache[KeyFor(canonical, code) := CacheEntry(Single(f.found.value), RecordTtl)]
  {
    var key := KeyFor(canonical, code);
    var cached := GetRecord(s.cache, key);
    if cached.Some? then Fetch(cached, s)
    else
      match SqlFind(s.rows, code)
      case None => Fetch(None, s)
      case Some(r) => Fetch(Some(r), s.(cache := s.cache[key := CacheEntry(Single(r), RecordTtl)]))
  }

  /** `UpdateDiscountCodeAsync` over the store's comparison: the matched row
      takes the record, the two per-code keys of the record's code go, and the
      recent list is refreshed. No matching row fails. */
  function Update(canonical: bool, s: State, rec: CodeRecord): (r: Option<State>)
    ensures r.None? <==> SqlFind(s.rows, rec.code).None?
    ensures r.Some? ==>
      var removed := s.cache - {CodeKey(rec.code), KeyFor(canonical, rec.code)};
      && r.value.rows == SqlReplace(s.rows, rec)
      && r.value.cache == removed[RecentKey := CacheEntry(
           Records(RefreshedRecent(GetRecords(removed, RecentKey), Some(rec), r.value.rows)), ProjectionTtl)]
  {
    if SqlFind(s.rows, rec.code).None? then None
    else
      var rows := SqlReplace(s.rows, rec);
      var removed := s.cache - {CodeKey(rec.code), KeyFor(canonical, rec.code)};
      Some(State(rows, removed[RecentKey := CacheEntry(
        Records(RefreshedRecent(GetRecords(removed, RecentKey), Some(rec), rows)), ProjectionTtl)]))
  }

  /** `UseCodeAsync` over the store's comparison. */
  function Redeem(canonical: bool, s: State, code: string, now: int): (r: Step)
    ensures Get(canonical, s, code).found.None? ==> r.outcome == Service.Exception
    ensures var f := Get(canonical, s, code);
      f.found.Some? ==>
        || r.outcome == Service.Classify(f.found, now)
        || (r.outcome == Service.Exception && Service.Classify(f.found, now) == Service.UseCodeResult.Success)
    ensures var f := Get(canonical, s, code);
      f.found.Some? && r.outcome == Service.Exception ==>
        Update(canonical, f.state, f.found.value.(isUsed := true)).None?
    ensures r.outcome == Service.UseCodeResult.Success ==>
      var f := Get(canonical, s, code);
      && f.found.Some? && Service.Redeemable(f.found.value, now)
      && Update(canonical, f.state, f.found.value.(isUsed := true)) == Some(r.state)
    ensures r.outcome != Service.UseCodeResult.Success ==> r.state == Get(canonical, s, code).state
  {
    var f := Get(canonical, s, code);
    if f.found.None? then Step(Service.Exception, f.state)
    else
      var o := Service.Classify(f.found, now);
      if o != Service.UseCodeResult.Success then Step(o, f.state)
      else
        match Update(canonical, f.state, f.found.value.(isUsed := true))
        case None => Step(Service.Exception, f.state)
        case Some(s2) => Step(Service.UseCodeResult.Success, s2)
  }

  /** The validator accepts the padded spelling, and the store matches it to
      the stored code. */
  lemma PaddedSpellingMatches()
    ensures Validation.ValidateUseCodeInput(Some("VALIDCD ")) == None
    ensures SqlKey("VALIDCD ") == SqlKey("VALIDCD")
  {
    var padded, stored := "VALIDCD ", "VALIDCD";
    Validation.Utf16LengthBounds(padded);
    assert !Validation.IsWhiteSpace(padded[0]);
    assert TrimEnd(padded) == stored by { assert padded[..|padded| - 1] == stored; }
    assert TrimEnd(stored) == stored;
  }

  /** As written, a code redeemed through a padded spelling can be redeemed
      again through that spelling: the validator accepts "VALIDCD ", the store
      matches it to the row "VALIDCD", the row is cached under the padded key,
      and the update removes only the key of "VALIDCD", so the second attempt
      reads the stale unused copy and succeeds too. */
  lemma PaddedCodeRedeemsTwice()
    ensures var row := Initial(0).(code := "VALIDCD");
      var first := Redeem(false, State([row], map[]), "VALIDCD ", 0);
      var second := Redeem(false, first.state, "VALIDCD ", 0);
      && Validation.ValidateUseCodeInput(Some("VALIDCD ")) == None
      && first.outcome == Service.UseCodeResult.Success
      && second.outcome == Service.UseCodeResult.Success
      && first.state.rows == [row.(isUsed := true)]
  {
    var padded, stored := "VALIDCD ", "VALIDCD";
    var row := Initial(0).(code := stored);
    PaddedSpellingMatches();
    var s0 := State([row], map[]);
    var first := Redeem(false, s0, padded, 0);
    PaddedFirstAttempt(row, padded);
    assert |LookupKey(padded)| != |LookupKey(stored)| && |LookupKey(padded)| != |CodeKey(stored)|;
    KeysAreDistinct(padded);
    assert GetRecord(first.state.cache, LookupKey(padded)) == Some(row);
    assert Get(false, first.state, padded).found == Some(row);
    assert SqlFind(first.state.rows, row.code) == Some(row.(isUsed := true));
  }

  /** The first attempt finds the row through the store's comparison and
      redeems it. */
  lemma PaddedFirstAttempt(row: CodeRecord, padded: string)
    requires Service.Redeemable(row, 0)
    requires SqlKey(padded) == SqlKey(row.code)
    ensures var first := Redeem(false, State([row], map[]), padded, 0);
      && Get(false, State([row], map[]), padded).found == Some(row)
      && first.outcome == Service.UseCodeResult.Success
      && first.state.rows == [row.(isUsed := true)]
  {
    var f := Get(false, State([row], map[]), padded);
    assert f.found == Some(row);
    assert SqlReplace([row], row.(isUsed := true)) == [row.(isUsed := true)];
  }

  /** With canonical keys: every record cached under a code's canonical key
      is what the store's comparison finds for that code. */
  ghost predicate KeyedCoherent(s: State) {
    forall c :: GetRecord(s.cache, LookupKey(SqlKey(c))).Some? ==>
      GetRecord(s.cache, LookupKey(SqlKey(c))) == SqlFind(s.rows, c)
  }

  /** An empty cache is coherent with any table. */
  lemma FreshCacheIsKeyedCoherent(rows: seq<CodeRecord>)
    ensures KeyedCoherent(State(rows, map[]))
  {
  }

  /** With canonical keys a fetch answers what the table holds and keeps the
      cache coherent. */
  lemma CanonicalGetIsCoherent(s: State, code: string)
    requires KeyedCoherent(s)
    ensures Get(true, s, code).found == SqlFind(s.rows, code)
    ensures KeyedCoherent(Get(true, s, code).state)
  {
    var f := Get(true, s, code);
    forall c | GetRecord(f.state.cache, LookupKey(SqlKey(c))).Some?
      ensures GetRecord(f.state.cache, LookupKey(SqlKey(c))) == SqlFind(f.state.rows, c)
    {
      if LookupKey(SqlKey(c)) == KeyFor(true, code) {
        LookupKeyInjective(SqlKey(c), SqlKey(code));
        SqlFindByKey(s.rows, c, code);
      }
    }
  }

  /** With canonical keys an update keeps the cache coherent. */
  lemma CanonicalUpdateIsCoherent(s: State, rec: CodeRecord)
    requires KeyedCoherent(s)
    ensures Update(true, s, rec).Some? ==> KeyedCoherent(Update(true, s, rec).value)
  {
    var r := Update(true, s, rec);
    if r.Some? {
      var removed := s.cache - {CodeKey(rec.code), KeyFor(true, rec.code)};
      forall c | GetRecord(r.value.cache, LookupKey(SqlKey(c))).Some?
        ensures GetRecord(r.value.cache, LookupKey(SqlKey(c))) == SqlFind(r.value.rows, c)
      {
        KeysAreDistinct(SqlKey(c));
        assert LookupKey(SqlKey(c)) in removed;
        assert SqlKey(c) != SqlKey(rec.code);
        SqlFindAfterReplace(s.rows, rec, c);
      }
    }
  }

  /** With canonical keys a redemption keeps the cache coherent. */
  lemma CanonicalKeysStayCoherent(s: State, code: string, now: int)
    requires KeyedCoherent(s)
    ensures KeyedCoherent(Redeem(true, s, code, now).state)
  {
    CanonicalGetIsCoherent(s, code);
    var f := Get(true, s, code);
    if f.found.Some? {
      CanonicalUpdateIsCoherent(f.state, f.found.value.(isUsed := true));
    }
  }

  /** With canonical keys a code redeems once: after a success, the next
      attempt through any spelling the store matches to it, at any moment, is
      refused as already used. */
  lemma CanonicalKeysRedeemOnce(s: State, code: string, code2: string, now: int, now2: int)
    requires KeyedCoherent(s)
    requires SqlKey(code2) == SqlKey(code)
    ensures var first := Redeem(true, s, code, now);
      first.outcome == Service.UseCodeResult.Success ==>
        Redeem(true, first.state, code2, now2).outcome == Service.AlreadyUsed
  {
    var first := Redeem(true, s, code, now);
    if first.outcome == Service.UseCodeResult.Success {
      CanonicalGetIsCoherent(s, code);
      var f := Get(true, s, code);
      var used := f.found.value.(isUsed := true);
      assert SqlKey(used.code) == SqlKey(code);
      KeysAreDistinct(SqlKey(code2));
      assert GetRecord(first.state.cache, KeyFor(true, code2)).None?;
      SqlFindByKey(f.state.rows, code, code2);
      SqlFindAfterReplace(f.state.rows, used, code2);
      assert Get(true, first.state, code2).found == Some(used);
    }
  }
}
