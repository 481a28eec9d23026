/** The input validators the transport applies before calling the service:
    each returns `None` (C# `null`) when the input is acceptable and an error
    message otherwise. */
module Validation {
  import opened Basics
  import CodeGenerator

  const CountMessage: string := "Count must be between 1 and 2000."
  const LengthMessage: string := "Length must be 7 or 8."
  const CodeMessage: string := "Code must be 8 characters or fewer."
  const MaxUseCodeLength: int := 8

  /** `ValidateGenerateCodeInput`: the count is checked before the length. */
  function ValidateGenerateCodeInput(count: UInt16, length: Byte): (msg: Option<string>)
    ensures msg == None <==> 1 <= count <= 2000 && 7 <= length <= 8
    ensures !(1 <= count <= 2000) ==> msg == Some(CountMessage)
    ensures 1 <= count <= 2000 && !(7 <= length <= 8) ==> msg == Some(LengthMessage)
  {
    if count < 1 || count > 2000 then Some(CountMessage)
    else if length < 7 || length > 8 then Some(LengthMessage)
    else None
  }

  /** `char.IsWhiteSpace`: the Unicode space, line and paragraph separators,
      and the controls U+0009 to U+000D and U+0085. */
  predicate IsWhiteSpace(c: char) {
    || c == ' ' || '\t' <= c <= '\r' || c == '\U{0085}' || c == '\U{00A0}' || c == '\U{1680}'
    || '\U{2000}' <= c <= '\U{200A}' || c == '\U{2028}' || c == '\U{2029}' || c == '\U{202F}'
    || c == '\U{205F}' || c == '\U{3000}'
  }

  /** `string.IsNullOrWhiteSpace`. */
  predicate IsNullOrWhiteSpace(s: Option<string>) {
    s.None? || forall i :: 0 <= i < |s.value| ==> IsWhiteSpace(s.value[i])
  }

  /** `string.Length`: the number of UTF-16 code units, two for each
      character outside the Basic Multilingual Plane. */
  function Utf16Length(s: string): nat {
    if s == [] then 0
    else Utf16Length(s[..|s| - 1]) + (if s[|s| - 1] as int < 0x1_0000 then 1 else 2)
  }

  /** A string counts at least one unit per character, and exactly one per
      character when none lies outside the Basic Multilingual Plane. */
  lemma {:induction false} Utf16LengthBounds(s: string)
    ensures |s| <= Utf16Length(s) <= 2 * |s|
    ensures (forall i :: 0 <= i < |s| ==> s[i] as int < 0x1_0000) ==> Utf16Length(s) == |s|
  {
    if s != [] {
      Utf16LengthBounds(s[..|s| - 1]);
    }
  }

  /** `ValidateUseCodeInput`: a code is accepted when it is present, has a
      character that is not white space, and is at most 8 UTF-16 units long. */
  function ValidateUseCodeInput(code: Option<string>): (msg: Option<string>)
    ensures msg == None <==>
      code.Some? && Utf16Length(code.value) <= MaxUseCodeLength
      && exists i :: 0 <= i < |code.value| && !IsWhiteSpace(code.value[i])
    ensures msg != None ==> msg == Some(CodeMessage)
  {
    if IsNullOrWhiteSpace(code) || Utf16Length(code.value) > MaxUseCodeLength then Some(CodeMessage) else None
  }

  /** Five characters outside the Basic Multilingual Plane are ten units
      long, so they are refused although they are only five characters. */
  lemma AstralCharactersCountTwice()
    ensures Utf16Length("\U{1F600}\U{1F600}\U{1F600}\U{1F600}\U{1F600}") == 10
    ensures ValidateUseCodeInput(Some("\U{1F600}\U{1F600}\U{1F600}\U{1F600}\U{1F600}")) == Some(CodeMessage)
  {
    var s := "\U{1F600}\U{1F600}\U{1F600}\U{1F600}\U{1F600}";
    assert |s| == 5 && forall i :: 0 <= i < 5 ==> s[i] as int == 0x1F600;
    assert Utf16Length(s[..1]) == 2 by { assert s[..1][..0] == []; }
    assert Utf16Length(s[..2]) == 4 by { assert s[..2][..1] == s[..1]; }
    assert Utf16Length(s[..3]) == 6 by { assert s[..3][..2] == s[..2]; }
    assert Utf16Length(s[..4]) == 8 by { assert s[..4][..3] == s[..3]; }
    assert Utf16Length(s) == 10 by { assert s[..4] == s[..|s| - 1]; }
  }

  /** The validator accepts exactly the arguments the generator accepts, and
      reports a bad count exactly when the generator does. */
  lemma ValidatorAgreesWithGenerator(count: UInt16, length: Byte)
    ensures ValidateGenerateCodeInput(count, length) == None <==> CodeGenerator.CheckArguments(count, length) == None
    ensures ValidateGenerateCodeInput(count, length) == Some(CountMessage) <==>
      CodeGenerator.CheckArguments(count, length) == Some(CodeGenerator.CountOutOfRange)
    ensures ValidateGenerateCodeInput(count, length) == Some(LengthMessage) <==>
      CodeGenerator.CheckArguments(count, length) == Some(CodeGenerator.LengthOutOfRange)
  {
  }

  /** A code of 7 or 8 characters from A-Z and 0-9 passes `ValidateUseCodeInput`. */
  lemma WellFormedCodePasses(code: string, length: int)
    requires CodeGenerator.WellFormed(code, length) && 7 <= length <= 8
    ensures ValidateUseCodeInput(Some(code)) == None
  {
    assert CodeGenerator.IsCodeChar(code[0]);
    assert !IsWhiteSpace(code[0]);
    assert forall i :: 0 <= i < |code| ==> CodeGenerator.IsCodeChar(code[i]);
    Utf16LengthBounds(code);
  }

  /** Every code the generator produces can be redeemed through the transport. */
  lemma GeneratedCodesPass(count: UInt16, length: Byte, existingCodes: seq<string>, rng: seq<seq<int>>)
    requires CodeGenerator.ValidOracle(rng, length)
    requires CodeGenerator.CheckArguments(count, length) == None ==> count * CodeGenerator.AttemptsPerCode <= |rng|
    ensures var r := CodeGenerator.Expected(count, length, existingCodes, rng);
      r.Success? ==> forall c :: c in r.value ==> ValidateUseCodeInput(Some(c)) == None
  {
    var r := CodeGenerator.Expected(count, length, existingCodes, rng);
    if r.Success? {
      CodeGenerator.GeneratedCodesAreValid(count, length, existingCodes, rng);
      forall c | c in r.value ensures ValidateUseCodeInput(Some(c)) == None {
        WellFormedCodePasses(c, length);
      }
    }
  }
}
