/** The persistent store: the DiscountCodes table as a sequence of rows in
    enumeration order, with the queries the repositories run against it
    (first match by code, `Select(Code)`, `OrderByDescending(CreatedAt)`,
    `Take(n)`, the "live codes" filter) and the row edits that SaveChanges
    applies (append, replace by key, remove by key). */
module Store {
  import opened Basics
  import opened DiscountCodeModel

  /** The table's unique index on `Code`. */
  predicate UniqueCodes(rows: seq<CodeRecord>) {
    forall i, j :: 0 <= i < j < |rows| ==> rows[i].code != rows[j].code
  }

  predicate HasCode(rows: seq<CodeRecord>, code: string) {
    exists i :: 0 <= i < |rows| && rows[i].code == code
  }

  /** `FirstOrDefaultAsync(c => c.Code == code)`: the first row with that code. */
  function FindByCode(rows: seq<CodeRecord>, code: string): (r: Option<CodeRecord>)
    ensures r.None? <==> !HasCode(rows, code)
    ensures r.Some? ==> r.value in rows && r.value.code == code
    ensures r.Some? && UniqueCodes(rows) ==> forall x :: x in rows && x.code == code ==> x == r.value
  {
    if rows == [] then None
    else if rows[0].code == code then Some(rows[0])
    else
      var r := FindByCode(rows[1..], code);
      assert HasCode(rows, code) ==> HasCode(rows[1..], code) by {
        if HasCode(rows, code) {
          var i :| 0 <= i < |rows| && rows[i].code == code;
          assert rows[1..][i - 1] == rows[i];
        }
      }
      assert HasCode(rows[1..], code) ==> HasCode(rows, code) by {
        if HasCode(rows[1..], code) {
          var i :| 0 <= i < |rows[1..]| && rows[1..][i].code == code;
          assert rows[i + 1] == rows[1..][i];
        }
      }
      r
  }

  /** `Select(dc => dc.Code)`. */
  function Codes(rows: seq<CodeRecord>): seq<string> {
    seq(|rows|, i requires 0 <= i < |rows| => rows[i].code)
  }

  /** Most recent first. */
  predicate SortedDesc(s: seq<CodeRecord>) {
    forall i, j :: 0 <= i < j < |s| ==> s[i].createdAt >= s[j].createdAt
  }

  /** Every element of `s` is at most as recent as `t`. */
  predicate NotNewerThan(s: seq<CodeRecord>, t: int) {
    forall x :: x in s ==> x.createdAt <= t
  }

  lemma ConsSorted(h: CodeRecord, rest: seq<CodeRecord>)
    requires SortedDesc(rest) && NotNewerThan(rest, h.createdAt)
    ensures SortedDesc([h] + rest)
  {
    var s := [h] + rest;
    forall i, j | 0 <= i < j < |s| ensures s[i].createdAt >= s[j].createdAt {
      if i == 0 {
        assert s[j] == rest[j - 1] && s[j] in rest;
      } else {
        assert s[i] == rest[i - 1] && s[j] == rest[j - 1];
      }
    }
  }

  /** Places `r` before the first element that is not newer than it. */
  function Insert(r: CodeRecord, sorted: seq<CodeRecord>): (s: seq<CodeRecord>)
    requires SortedDesc(sorted)
    ensures SortedDesc(s)
    ensures multiset(s) == multiset(sorted) + multiset{r}
  {
    if sorted == [] || r.createdAt >= sorted[0].createdAt then
      ConsSorted(r, sorted);
      [r] + sorted
    else
      var h, tail := sorted[0], sorted[1..];
      assert sorted == [h] + tail;
      HeadBound(sorted);
      var rest := Insert(r, tail);
      InsertBound(r, h.createdAt, tail, rest);
      ConsSorted(h, rest);
      [h] + rest
  }

  /** The tail of a list sorted most recent first is sorted and not newer
      than its head. */
  lemma HeadBound(s: seq<CodeRecord>)
    requires SortedDesc(s) && s != []
    ensures SortedDesc(s[1..]) && NotNewerThan(s[1..], s[0].createdAt)
  {
    forall x | x in s[1..] ensures x.createdAt <= s[0].createdAt {
      var k :| 0 <= k < |s[1..]| && s[1..][k] == x;
      assert s[k + 1] == x;
    }
    forall i, j | 0 <= i < j < |s[1..]| ensures s[1..][i].createdAt >= s[1..][j].createdAt {
      assert s[1..][i] == s[i + 1] && s[1..][j] == s[j + 1];
    }
  }

  /** Adding a record no newer than `t` to a list no newer than `t` keeps it so. */
  lemma InsertBound(r: CodeRecord, t: int, tail: seq<CodeRecord>, rest: seq<CodeRecord>)
    requires NotNewerThan(tail, t) && r.createdAt <= t
    requires multiset(rest) == multiset(tail) + multiset{r}
    ensures NotNewerThan(rest, t)
  {
    forall x | x in rest ensures x.createdAt <= t {
      assert x in multiset(rest);
      if x != r {
        assert x in multiset(tail);
      }
    }
  }

  /** `OrderByDescending(c => c.CreatedAt)`: a stable sort, so rows with the
      same timestamp keep their table order. */
  function SortByCreatedDesc(rows: seq<CodeRecord>): (s: seq<CodeRecord>)
    ensures SortedDesc(s)
    ensures multiset(s) == multiset(rows)
    ensures |s| == |rows|
  {
    if rows == [] then []
    else
      var s := Insert(rows[0], SortByCreatedDesc(rows[1..]));
      assert rows == [rows[0]] + rows[1..];
      assert |s| == |multiset(s)|;
      s
  }

  /** `Take(n)`: a negative or zero `n` yields nothing. */
  function Take<T>(s: seq<T>, n: int): seq<T> {
    if n <= 0 then [] else if n >= |s| then s else s[..n]
  }

  /** `OrderByDescending(c => c.CreatedAt).Take(n)`. */
  function TopRecent(rows: seq<CodeRecord>, n: int): seq<CodeRecord> {
    Take(SortByCreatedDesc(rows), n)
  }

  lemma PrefixSorted(s: seq<CodeRecord>, k: nat)
    requires SortedDesc(s) && k <= |s|
    ensures SortedDesc(s[..k])
  {
    forall i, j | 0 <= i < j < k ensures s[..k][i].createdAt >= s[..k][j].createdAt {
      assert s[..k][i] == s[i] && s[..k][j] == s[j];
    }
  }

  /** The top-n projection is sorted, has min(n, |rows|) rows taken from the
      table, and no row left out is newer than any row kept. */
  lemma TopRecentProperties(rows: seq<CodeRecord>, n: int)
    ensures var r := TopRecent(rows, n);
      && SortedDesc(r)
      && |r| == (if n <= 0 then 0 else if n < |rows| then n else |rows|)
      && multiset(r) <= multiset(rows)
      && forall x, y :: x in multiset(rows) - multiset(r) && y in r ==> x.createdAt <= y.createdAt
  {
    var s := SortByCreatedDesc(rows);
    var r := TopRecent(rows, n);
    var k := |r|;
    assert r == s[..k];
    PrefixSorted(s, k);
    assert s == r + s[k..];
    assert multiset(s) == multiset(r) + multiset(s[k..]);
    PrefixDominates(s, k);
    forall x, y | x in multiset(rows) - multiset(r) && y in r ensures x.createdAt <= y.createdAt {
      assert x in multiset(s[k..]);
      assert x in s[k..];
    }
  }

  /** In a list sorted most recent first, nothing after position `k` is newer
      than anything before it. */
  lemma PrefixDominates(s: seq<CodeRecord>, k: nat)
    requires SortedDesc(s) && k <= |s|
    ensures forall x, y :: x in s[k..] && y in s[..k] ==> x.createdAt <= y.createdAt
  {
    forall x, y | x in s[k..] && y in s[..k] ensures x.createdAt <= y.createdAt {
      var j :| 0 <= j < |s| - k && s[k..][j] == x;
      var i :| 0 <= i < k && s[..k][i] == y;
      assert s[i] == y && s[k + j] == x;
    }
  }

  /** Sorting a list that is already most recent first leaves it as it is,
      ties included. */
  lemma {:induction false} SortKeepsSorted(s: seq<CodeRecord>)
    requires SortedDesc(s)
    ensures SortByCreatedDesc(s) == s
  {
    if s != [] {
      assert SortedDesc(s[1..]) by {
        forall i, j | 0 <= i < j < |s[1..]| ensures s[1..][i].createdAt >= s[1..][j].createdAt {
          assert s[1..][i] == s[i + 1] && s[1..][j] == s[j + 1];
        }
      }
      SortKeepsSorted(s[1..]);
      assert s == [s[0]] + s[1..];
    }
  }

  /** Taking the top `m` of the top `n` is taking the top `m` when `m <= n`. */
  lemma TopRecentOfTopRecent(rows: seq<CodeRecord>, n: int, m: int)
    requires m <= n
    ensures TopRecent(TopRecent(rows, n), m) == TopRecent(rows, m)
  {
    var s := SortByCreatedDesc(rows);
    var t := Take(s, n);
    TopRecentProperties(rows, n);
    SortKeepsSorted(t);
    assert TopRecent(t, m) == Take(t, m);
    TakeOfTake(s, n, m);
  }

  lemma TakeOfTake<T>(s: seq<T>, n: int, m: int)
    requires m <= n
    ensures Take(Take(s, n), m) == Take(s, m)
  {
    if 0 < m && n < |s| && m < n {
      assert s[..n][..m] == s[..m];
    }
  }

  /** Projecting the codes commutes with taking a prefix. */
  lemma CodesOfTake(s: seq<CodeRecord>, n: int)
    ensures Codes(Take(s, n)) == Take(Codes(s), n)
  {
  }

  lemma TopRecentLength(rows: seq<CodeRecord>, n: int)
    ensures |TopRecent(rows, n)| == (if n <= 0 then 0 else if n < |rows| then n else |rows|)
  {
  }

  /** The top-n projection holds only rows of the table, and all of them
      once `n` covers the table. */
  lemma TopRecentMembers(rows: seq<CodeRecord>, n: int)
    ensures forall x :: x in TopRecent(rows, n) ==> x in rows
    ensures n >= |rows| ==> forall x :: x in rows ==> x in TopRecent(rows, n)
  {
    TopRecentProperties(rows, n);
    forall x | x in TopRecent(rows, n) ensures x in rows {
      assert x in multiset(TopRecent(rows, n));
    }
    if n >= |rows| {
      forall x | x in rows ensures x in TopRecent(rows, n) {
        assert x in multiset(SortByCreatedDesc(rows));
      }
    }
  }

  /** A code occurs in `Codes(rows)` exactly when some row has it. */
  lemma CodesMembers(rows: seq<CodeRecord>)
    ensures |Codes(rows)| == |rows|
    ensures forall c :: c in Codes(rows) <==> HasCode(rows, c)
  {
    forall c | HasCode(rows, c) ensures c in Codes(rows) {
      var j :| 0 <= j < |rows| && rows[j].code == c;
      assert Codes(rows)[j] == c;
    }
  }

  lemma HasCodeOfSubset(a: seq<CodeRecord>, b: seq<CodeRecord>, c: string)
    requires forall x :: x in a ==> x in b
    ensures HasCode(a, c) ==> HasCode(b, c)
  {
    if HasCode(a, c) {
      var i :| 0 <= i < |a| && a[i].code == c;
      assert a[i] in b;
    }
  }

  /** The row may still be redeemed at `now` (the caching repository's filter:
      unused, active, strictly unexpired, not deleted). */
  predicate Live(c: CodeRecord, now: int) {
    !c.isUsed && c.isActive && c.expirationDate > now && !c.IsDeleted()
  }

  /** `Where(c => Live(c, now))`, in table order. */
  function FilterLive(rows: seq<CodeRecord>, now: int): (r: seq<CodeRecord>)
    ensures forall x :: x in r ==> Live(x, now)
    ensures forall x :: x in rows && Live(x, now) ==> x in r
    ensures multiset(r) <= multiset(rows)
  {
    if rows == [] then []
    else
      var rest := FilterLive(rows[1..], now);
      assert rows == [rows[0]] + rows[1..];
      if Live(rows[0], now) then [rows[0]] + rest else rest
  }

  /** The filter keeps table order: filtering a concatenation filters each
      part and concatenates the results. */
  lemma {:induction false} FilterLiveAppend(a: seq<CodeRecord>, b: seq<CodeRecord>, now: int)
    ensures FilterLive(a + b, now) == FilterLive(a, now) + FilterLive(b, now)
  {
    if a == [] {
      assert a + b == b;
    } else {
      assert (a + b)[0] == a[0];
      assert (a + b)[1..] == a[1..] + b;
      FilterLiveAppend(a[1..], b, now);
    }
  }

  /** A single record is kept exactly when it is live; together with
      `FilterLiveAppend` this determines the filter on every table. */
  lemma FilterLiveSingle(x: CodeRecord, now: int)
    ensures FilterLive([x], now) == if Live(x, now) then [x] else []
  {
    assert [x][1..] == [];
  }

  /** Every record of the batch gets `CreatedAt = now`. */
  function Stamp(batch: seq<CodeRecord>, now: int): seq<CodeRecord> {
    seq(|batch|, i requires 0 <= i < |batch| => batch[i].(createdAt := now))
  }

  /** Stamping changes no code. */
  lemma StampKeepsCodes(batch: seq<CodeRecord>, now: int)
    ensures Codes(Stamp(batch, now)) == Codes(batch)
    ensures forall c :: HasCode(Stamp(batch, now), c) <==> HasCode(batch, c)
  {
    var s := Stamp(batch, now);
    forall c ensures HasCode(s, c) <==> HasCode(batch, c) {
      if HasCode(s, c) {
        var i :| 0 <= i < |s| && s[i].code == c;
        assert batch[i].code == c;
      }
      if HasCode(batch, c) {
        var i :| 0 <= i < |batch| && batch[i].code == c;
        assert s[i].code == c;
      }
    }
  }

  /** What SaveChanges accepts for an insert: no two new rows share a code and
      none reuses a code already in the table. */
  predicate BatchAcceptable(rows: seq<CodeRecord>, batch: seq<CodeRecord>) {
    UniqueCodes(batch) && forall i :: 0 <= i < |batch| ==> !HasCode(rows, batch[i].code)
  }

  /** `Entry(code).State = Modified`: the row with that key takes all the new values. */
  function ReplaceRow(rows: seq<CodeRecord>, rec: CodeRecord): seq<CodeRecord> {
    seq(|rows|, i requires 0 <= i < |rows| => if rows[i].code == rec.code then rec else rows[i])
  }

  /** `DiscountCodes.Remove(code)`: the row with that key goes. */
  function RemoveRow(rows: seq<CodeRecord>, code: string): (r: seq<CodeRecord>)
    ensures forall x :: x in r <==> x in rows && x.code != code
    ensures multiset(r) <= multiset(rows)
  {
    if rows == [] then []
    else
      var rest := RemoveRow(rows[1..], code);
      assert rows == [rows[0]] + rows[1..];
      if rows[0].code == code then rest else [rows[0]] + rest
  }

  /** An insert that SaveChanges accepts keeps the codes unique. */
  lemma AppendKeepsUnique(rows: seq<CodeRecord>, batch: seq<CodeRecord>, now: int)
    requires UniqueCodes(rows) && BatchAcceptable(rows, batch)
    ensures UniqueCodes(rows + Stamp(batch, now))
    ensures Codes(rows + Stamp(batch, now)) == Codes(rows) + Codes(batch)
  {
    var all := rows + Stamp(batch, now);
    forall i, j | 0 <= i < j < |all| ensures all[i].code != all[j].code {
      if i >= |rows| {
        assert all[i].code == batch[i - |rows|].code && all[j].code == batch[j - |rows|].code;
      } else if j >= |rows| {
        assert all[j].code == batch[j - |rows|].code;
        assert !HasCode(rows, batch[j - |rows|].code);
      }
    }
  }

  /** A lookup after an insert finds what it found before, else the new row. */
  lemma FindAfterAppend(rows: seq<CodeRecord>, batch: seq<CodeRecord>, code: string)
    ensures FindByCode(rows + batch, code) ==
      if FindByCode(rows, code).Some? then FindByCode(rows, code) else FindByCode(batch, code)
    decreases |rows|
  {
    if rows != [] {
      assert (rows + batch)[1..] == rows[1..] + batch;
      FindAfterAppend(rows[1..], batch, code);
    } else {
      assert rows + batch == batch;
    }
  }

  /** A replace leaves every other code's lookup as it was. */
  lemma FindOtherAfterReplace(rows: seq<CodeRecord>, rec: CodeRecord, code: string)
    requires code != rec.code
    ensures FindByCode(ReplaceRow(rows, rec), code) == FindByCode(rows, code)
    decreases |rows|
  {
    if rows != [] {
      assert ReplaceRow(rows, rec)[1..] == ReplaceRow(rows[1..], rec);
      FindOtherAfterReplace(rows[1..], rec, code);
    }
  }

  /** After a replace, the replaced code is found with its new values and
      every other code is found as before; codes stay unique. */
  lemma FindAfterReplace(rows: seq<CodeRecord>, rec: CodeRecord, code: string)
    requires HasCode(rows, rec.code)
    ensures FindByCode(ReplaceRow(rows, rec), code) ==
      if code == rec.code then Some(rec) else FindByCode(rows, code)
    ensures UniqueCodes(rows) ==> UniqueCodes(ReplaceRow(rows, rec))
    decreases |rows|
  {
    var r := ReplaceRow(rows, rec);
    assert forall i :: 0 <= i < |r| ==> r[i].code == rows[i].code;
    if code != rec.code {
      FindOtherAfterReplace(rows, rec, code);
    } else if rows[0].code != rec.code {
      assert HasCode(rows[1..], rec.code) by {
        var i :| 0 <= i < |rows| && rows[i].code == rec.code;
        assert rows[1..][i - 1] == rows[i];
      }
      assert r[1..] == ReplaceRow(rows[1..], rec);
      FindAfterReplace(rows[1..], rec, code);
    }
  }

  /** After a remove, the removed code is gone and every other code is found as before. */
  lemma FindAfterRemove(rows: seq<CodeRecord>, removed: string, code: string)
    ensures FindByCode(RemoveRow(rows, removed), code) ==
      if code == removed then None else FindByCode(rows, code)
    decreases |rows|
  {
    if rows != [] {
      FindAfterRemove(rows[1..], removed, code);
    }
  }

  lemma TailUnique(rows: seq<CodeRecord>)
    requires UniqueCodes(rows) && rows != []
    ensures UniqueCodes(rows[1..])
    ensures forall x :: x in rows[1..] ==> x.code != rows[0].code
  {
    var tail := rows[1..];
    forall i, j | 0 <= i < j < |tail| ensures tail[i].code != tail[j].code {
      assert tail[i] == rows[i + 1] && tail[j] == rows[j + 1];
    }
    forall x | x in tail ensures x.code != rows[0].code {
      var k :| 0 <= k < |tail| && tail[k] == x;
      assert rows[k + 1] == x;
    }
  }

  lemma ConsUnique(h: CodeRecord, rest: seq<CodeRecord>)
    requires UniqueCodes(rest) && forall x :: x in rest ==> x.code != h.code
    ensures UniqueCodes([h] + rest)
  {
    var r := [h] + rest;
    forall i, j | 0 <= i < j < |r| ensures r[i].code != r[j].code {
      assert r[j] == rest[j - 1] && r[j] in rest;
      if i > 0 {
        assert r[i] == rest[i - 1];
      }
    }
  }

  /** A remove keeps the codes unique. */
  lemma RemoveKeepsUnique(rows: seq<CodeRecord>, removed: string)
    requires UniqueCodes(rows)
    ensures UniqueCodes(RemoveRow(rows, removed))
    decreases |rows|
  {
    if rows != [] {
      TailUnique(rows);
      RemoveKeepsUnique(rows[1..], removed);
      if rows[0].code != removed {
        ConsUnique(rows[0], RemoveRow(rows[1..], removed));
      }
    }
  }
}
