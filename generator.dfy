/** The code generator: `count` distinct random codes of `length` characters
    from a 36-character alphabet, none of them in an exclusion list, drawn
    within a budget of `count * 50` attempts.

    The random source is an oracle: `rng[k]` lists, in order, the `length`
    values that the calls of `Random.Shared.Next(36)` return during attempt
    number k (counting from 0), so the draws of the whole run are the
    attempts' lists one after the other. */
module CodeGenerator {
  import opened Basics

  const Characters: string := "ABCDEFGHIJKLMNOPQRSTUVWXYZ0123456789"
  const MaxCount: int := 2000
  const MinLength: int := 7
  const MaxLength: int := 8
  const AttemptsPerCode: int := 50

  datatype GenError =
    | CountOutOfRange   // ArgumentException on `count`
    | LengthOutOfRange  // ArgumentException on `length`
    | Exhausted         // the attempt budget ran out

  predicate IsCodeChar(c: char) {
    'A' <= c <= 'Z' || '0' <= c <= '9'
  }

  /** A code of exactly `length` characters, each from A-Z or 0-9. */
  predicate WellFormed(code: string, length: int) {
    |code| == length && forall i :: 0 <= i < |code| ==> IsCodeChar(code[i])
  }

  /** Every attempt of the random source makes exactly `length` draws, each
      an index into the alphabet. */
  predicate ValidOracle(rng: seq<seq<int>>, length: int) {
    forall k :: 0 <= k < |rng| ==> |rng[k]| == length && ValidDraws(rng[k])
  }

  predicate ValidDraws(s: seq<int>) {
    forall i :: 0 <= i < |s| ==> 0 <= s[i] < |Characters|
  }

  /** An independent description of the alphabet: A-Z, then 0-9. */
  function AlphabetAt(i: int): char
    requires 0 <= i < 36
  {
    if i < 26 then ('A' as int + i) as char else ('0' as int + i - 26) as char
  }

  /** The alphabet is exactly the characters A-Z and 0-9, 26 letters first. */
  lemma AlphabetIsCodeChars()
    ensures |Characters| == 36
    ensures forall k :: 0 <= k < 36 ==> Characters[k] == AlphabetAt(k) && IsCodeChar(Characters[k])
    ensures forall c :: IsCodeChar(c) ==> c in Characters
  {
    forall c | IsCodeChar(c) ensures c in Characters {
      var k := if 'A' <= c <= 'Z' then c as int - 'A' as int else c as int - '0' as int + 26;
      assert Characters[k] == AlphabetAt(k) == c;
    }
  }

  /** The word a sequence of alphabet indexes spells. */
  function Spell(s: seq<int>): (w: string)
    requires ValidDraws(s)
    ensures WellFormed(w, |s|)
  {
    var w := seq(|s|, i requires 0 <= i < |s| => Characters[s[i]]);
    assert forall i :: 0 <= i < |w| ==> IsCodeChar(w[i]) by {
      forall i | 0 <= i < |w| ensures IsCodeChar(w[i]) {
        AlphabetIsCodeChars();
      }
    }
    w
  }

  /** `GenerateRandomCode`: fills a new `char[length]` from the `length`
      draws of one attempt. */
  method GenerateRandomCode(length: Byte, draws: seq<int>) returns (code: string)
    requires |draws| == length && ValidDraws(draws)
    ensures code == Spell(draws)
    ensures WellFormed(code, length)
  {
    var chars := new char[length];
    for i := 0 to length
      invariant forall j :: 0 <= j < i ==> chars[j] == Characters[draws[j]]
    {
      chars[i] := Characters[draws[i]];
    }
    code := chars[..];
  }

  /** The argument checks, in the order the generator makes them. */
  function CheckArguments(count: UInt16, length: Byte): (e: Option<GenError>)
    ensures e == None <==> 1 <= count <= MaxCount && MinLength <= length <= MaxLength
    ensures e == Some(CountOutOfRange) <==> !(1 <= count <= MaxCount)
    ensures e != Some(Exhausted)
  {
    if count == 0 || count > MaxCount then Some(CountOutOfRange)
    else if length < MinLength || length > MaxLength then Some(LengthOutOfRange)
    else None
  }

  /** The code that attempt `k` draws. */
  function DrawAt(rng: seq<seq<int>>, length: nat, k: nat): (w: string)
    requires ValidOracle(rng, length) && k < |rng|
    ensures WellFormed(w, length)
  {
    Spell(rng[k])
  }

  /** The codes that the first `n` attempts draw, in draw order. */
  function Draws(rng: seq<seq<int>>, length: nat, n: nat): (d: seq<string>)
    requires ValidOracle(rng, length) && n <= |rng|
    ensures |d| == n
    ensures forall i :: 0 <= i < n ==> WellFormed(d[i], length)
  {
    if n == 0 then [] else Draws(rng, length, n - 1) + [DrawAt(rng, length, n - 1)]
  }

  lemma {:induction false} DrawsPrefix(rng: seq<seq<int>>, length: nat, k: nat, n: nat)
    requires ValidOracle(rng, length) && k <= n <= |rng|
    ensures Draws(rng, length, k) <= Draws(rng, length, n)
  {
    if k < n {
      DrawsPrefix(rng, length, k, n - 1);
    }
  }

  function Elems(s: seq<string>): set<string> {
    set x | x in s
  }

  /** The draws that are new, in draw order: each kept only if it is neither in
      `seen` nor drawn before. This is what the loop's HashSet filter keeps. */
  function Fresh(draws: seq<string>, seen: set<string>): seq<string>
    decreases |draws|
  {
    if draws == [] then []
    else
      var init, x := draws[..|draws| - 1], draws[|draws| - 1];
      Fresh(init, seen) + (if x in seen || x in init then [] else [x])
  }

  lemma ElemsAppend(a: seq<string>, b: seq<string>)
    ensures Elems(a + b) == Elems(a) + Elems(b)
  {
    assert forall x :: x in a + b <==> x in a || x in b;
  }

  /** The new draws are exactly the draws outside `seen`, each once. */
  lemma {:induction false} FreshProperties(draws: seq<string>, seen: set<string>)
    ensures Elems(Fresh(draws, seen)) == Elems(draws) - seen
    ensures |Fresh(draws, seen)| <= |draws|
    ensures forall i, j :: 0 <= i < j < |Fresh(draws, seen)| ==> Fresh(draws, seen)[i] != Fresh(draws, seen)[j]
  {
    if draws != [] {
      var init, x := draws[..|draws| - 1], draws[|draws| - 1];
      assert draws == init + [x];
      FreshProperties(init, seen);
      var prev := Fresh(init, seen);
      var tail := if x in seen || x in init then [] else [x];
      assert Fresh(draws, seen) == prev + tail;
      ElemsAppend(init, [x]);
      ElemsAppend(prev, tail);
      assert Elems([x]) == {x};
      if tail == [x] {
        assert x !in Elems(prev);
        var r := prev + tail;
        forall i, j | 0 <= i < j < |r| ensures r[i] != r[j] {
          if j == |r| - 1 {
            assert r[i] == prev[i] && prev[i] in Elems(prev);
          } else {
            assert r[i] == prev[i] && r[j] == prev[j];
          }
        }
      } else {
        assert Elems(tail) == {};
      }
    }
  }

  /** Drawing more never changes the codes already kept. */
  lemma {:induction false} FreshPrefix(a: seq<string>, b: seq<string>, seen: set<string>)
    ensures Fresh(a, seen) <= Fresh(a + b, seen)
    decreases |b|
  {
    if b == [] {
      assert a + b == a;
    } else {
      var b' := b[..|b| - 1];
      assert (a + b)[..|a + b| - 1] == a + b';
      FreshPrefix(a, b', seen);
      var t := if b[|b| - 1] in seen || b[|b| - 1] in a + b' then [] else [b[|b| - 1]];
      assert (a + b)[|a + b| - 1] == b[|b| - 1];
      assert Fresh(a + b, seen) == Fresh(a + b', seen) + t;
    }
  }

  /** What `GenerateCodes` returns: an argument error, or the first `count`
      new codes of the whole attempt budget, or exhaustion when the budget
      yields fewer than `count` new codes. */
  function Expected(count: UInt16, length: Byte, existingCodes: seq<string>, rng: seq<seq<int>>): Result<seq<string>, GenError>
    requires ValidOracle(rng, length)
    requires CheckArguments(count, length) == None ==> count * AttemptsPerCode <= |rng|
  {
    match CheckArguments(count, length)
    case Some(e) => Failure(e)
    case None =>
      var kept := Fresh(Draws(rng, length, count * AttemptsPerCode), Elems(existingCodes));
      if |kept| < count then Failure(Exhausted) else Success(kept[..count])
  }

  /** One more attempt extends the draws by one code, kept when it is new. */
  lemma FreshStep(d: seq<string>, x: string, seen: set<string>)
    ensures Fresh(d + [x], seen) == Fresh(d, seen) + (if x in seen || x in d then [] else [x])
    ensures Elems(d + [x]) == Elems(d) + {x}
  {
    assert (d + [x])[..|d + [x]| - 1] == d;
    ElemsAppend(d, [x]);
    assert Elems([x]) == {x};
  }

  /** Attempt `k` of a budget that the random source covers reads inside the
      source and extends the draws by its code. */
  /** One attempt of the loop: the code that attempt `k` draws is kept exactly
      when it is not yet in the set of codes seen so far, and joins that set. */
  lemma AttemptStep(rng: seq<seq<int>>, length: nat, k: nat, seen: set<string>,
                    kept: seq<string>, unique: set<string>)
    requires ValidOracle(rng, length) && k < |rng|
    requires kept == Fresh(Draws(rng, length, k), seen)
    requires unique == seen + Elems(Draws(rng, length, k))
    ensures var x := DrawAt(rng, length, k);
      && Fresh(Draws(rng, length, k + 1), seen) == (if x in unique then kept else kept + [x])
      && seen + Elems(Draws(rng, length, k + 1)) == unique + {x}
  {
    var prev, x := Draws(rng, length, k), DrawAt(rng, length, k);
    assert Draws(rng, length, k + 1) == prev + [x];
    FreshStep(prev, x, seen);
    assert x in unique <==> x in seen || x in prev;
  }

  /** Once the first `attempts` draws hold `count` new codes, those are the
      first `count` new codes of the whole budget. */
  lemma StopEarly(rng: seq<seq<int>>, length: nat, attempts: nat, budget: nat, seen: set<string>, count: nat)
    requires ValidOracle(rng, length) && attempts <= budget <= |rng|
    requires |Fresh(Draws(rng, length, attempts), seen)| == count
    ensures |Fresh(Draws(rng, length, budget), seen)| >= count
    ensures Fresh(Draws(rng, length, budget), seen)[..count] == Fresh(Draws(rng, length, attempts), seen)
  {
    DrawsPrefix(rng, length, attempts, budget);
    var all, done := Draws(rng, length, budget), Draws(rng, length, attempts);
    assert all == done + all[|done|..];
    FreshPrefix(done, all[|done|..], seen);
  }

  /** `GenerateCodes`. */
  method GenerateCodes(count: UInt16, length: Byte, existingCodes: seq<string>, rng: seq<seq<int>>)
    returns (r: Result<seq<string>, GenError>)
    requires ValidOracle(rng, length)
    requires CheckArguments(count, length) == None ==> count * AttemptsPerCode <= |rng|
    ensures r == Expected(count, length, existingCodes, rng)
  {
    var err := CheckArguments(count, length);
    if err.Some? {
      return Failure(err.value);
    }
    ghost var seen := Elems(existingCodes);
    var uniqueCodes := Elems(existingCodes);
    var newCodes: seq<string> := [];
    var attempts := 0;
    var maxAttempts := count * AttemptsPerCode;
    while |newCodes| < count
      invariant 0 <= attempts <= maxAttempts
      invariant newCodes == Fresh(Draws(rng, length, attempts), seen)
      invariant uniqueCodes == seen + Elems(Draws(rng, length, attempts))
      invariant |newCodes| <= count
      decreases maxAttempts - attempts
    {
      attempts := attempts + 1;
      if attempts > maxAttempts {
        return Failure(Exhausted);
      }
      AttemptStep(rng, length, attempts - 1, seen, newCodes, uniqueCodes);
      var code := GenerateRandomCode(length, rng[attempts - 1]);
      if code !in uniqueCodes {
        uniqueCodes := uniqueCodes + {code};
        newCodes := newCodes + [code];
      }
    }
    StopEarly(rng, length, attempts, maxAttempts, seen, count);
    return Success(newCodes);
  }

  /** On success the result has `count` pairwise distinct codes, none of them
      in `existingCodes`, each of `length` characters from A-Z and 0-9. */
  lemma GeneratedCodesAreValid(count: UInt16, length: Byte, existingCodes: seq<string>, rng: seq<seq<int>>)
    requires ValidOracle(rng, length)
    requires CheckArguments(count, length) == None ==> count * AttemptsPerCode <= |rng|
    ensures var r := Expected(count, length, existingCodes, rng);
      r.Success? ==>
        && |r.value| == count
        && (forall i, j :: 0 <= i < j < |r.value| ==> r.value[i] != r.value[j])
        && (forall c :: c in r.value ==> c !in existingCodes && WellFormed(c, length))
  {
    if CheckArguments(count, length) == None {
      var draws := Draws(rng, length, count * AttemptsPerCode);
      var kept := Fresh(draws, Elems(existingCodes));
      FreshProperties(draws, Elems(existingCodes));
      if |kept| >= count {
        var r := kept[..count];
        forall c | c in r ensures c !in existingCodes && WellFormed(c, length) {
          assert c in Elems(kept);
        }
      }
    }
  }

  /** Argument errors come before any draw: a count outside 1..2000 is reported
      as such whatever the length, a length outside 7..8 otherwise. */
  lemma ArgumentErrors(count: UInt16, length: Byte, existingCodes: seq<string>, rng: seq<seq<int>>)
    requires ValidOracle(rng, length)
    requires CheckArguments(count, length) == None ==> count * AttemptsPerCode <= |rng|
    ensures !(1 <= count <= MaxCount) ==> Expected(count, length, existingCodes, rng) == Failure(CountOutOfRange)
    ensures 1 <= count <= MaxCount && !(MinLength <= length <= MaxLength) ==>
      Expected(count, length, existingCodes, rng) == Failure(LengthOutOfRange)
  {
  }
}
