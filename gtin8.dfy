/**
  GTIN-8 codes: the GS1 modulo-10 check digit over seven data digits weighted
  3, 1, 3, 1, 3, 1, 3 from the left (section 7.9.1 of the GS1 General
  Specifications), the generator that appends it, the classifier that checks
  it, and the inventory lookup by code.
*/
module Gtin8 {
  import opened CStrings

  // ---------------------------------------------------------------------------
  // The check-digit rule

  /** `isdigit` in the C locale. */
  predicate IsDigit(c: char) { '0' <= c <= '9' }

  predicate AllDigits(s: string) { forall i | 0 <= i < |s| :: IsDigit(s[i]) }

  /** `c - '0'`. */
  function DigitValue(c: char): int { c as int - '0' as int }

  function DigitChar(d: int): char
    requires 0 <= d <= 9
  {
    (d + '0' as int) as char
  }

  /** Even positions, counting from 0 at the left, weigh 3; odd ones 1. */
  function Weight(i: nat): int { if i % 2 == 0 then 3 else 1 }

  /** The sum of the first n digits of `s`, each times its weight. */
  function WeightedSum(s: string, n: nat): int
    requires n <= |s|
  {
    if n == 0 then 0 else WeightedSum(s, n - 1) + Weight(n - 1) * DigitValue(s[n - 1])
  }

  /** What brings `sum` up to the next multiple of ten: the distance to
      `sum + (10 - sum % 10)`, or 0 when `sum` is already a multiple. */
  function CheckDigit(sum: int): (d: int)
    ensures 0 <= d <= 9 && (sum + d) % 10 == 0
  {
    var next := if sum % 10 == 0 then sum else sum + (10 - sum % 10);
    next - sum
  }

  /** Only one digit completes a sum to a multiple of ten. */
  lemma CheckDigitUnique(sum: int, d: int)
    requires 0 <= d <= 9 && (sum + d) % 10 == 0
    ensures d == CheckDigit(sum)
  {
    var c := CheckDigit(sum);
    assert (sum + d) - (sum + c) == d - c;
  }

  /** The check digit of the seven data digits at the start of `data`. */
  function CheckDigitOf(data: string): (d: int)
    requires |data| >= 7
    ensures 0 <= d <= 9
  {
    CheckDigit(WeightedSum(data, 7))
  }

  /** The code `GTIN8FromFirst7Digits` writes for seven data digits. */
  function WithCheckDigit(data: string): (code: string)
    requires |data| == 7 && AllDigits(data)
    ensures |code| == 8 && code[..7] == data && AllDigits(code)
    ensures DigitValue(code[7]) == CheckDigitOf(data)
  {
    data + [DigitChar(CheckDigitOf(data))]
  }

  datatype VerifyResult = InvalidInputString | Failure | Success

  /** The classification of the C string `code`: anything but eight
      characters led by seven digits is not a code at all; otherwise the
      eighth character must stand for the check digit of the first seven. */
  function Classify(code: string): VerifyResult {
    if |code| != 8 || !AllDigits(code[..7]) then InvalidInputString
    else if DigitValue(code[7]) != CheckDigitOf(code) then Failure
    else Success
  }

  // ---------------------------------------------------------------------------
  // Properties of the rule

  lemma {:induction false} WeightedSumPrefix(s: string, t: string, n: nat)
    requires n <= |s| && n <= |t| && s[..n] == t[..n]
    ensures WeightedSum(s, n) == WeightedSum(t, n)
  {
    if n > 0 {
      assert s[..n - 1] == s[..n][..n - 1] && t[..n - 1] == t[..n][..n - 1];
      assert s[n - 1] == s[..n][n - 1] && t[n - 1] == t[..n][n - 1];
      WeightedSumPrefix(s, t, n - 1);
    }
  }

  /** A code built from seven digits classifies as valid. */
  lemma GeneratedCodeIsValid(data: string)
    requires |data| == 7 && AllDigits(data)
    ensures Classify(WithCheckDigit(data)) == Success
  {
    WeightedSumPrefix(WithCheckDigit(data), data, 7);
  }

  /** A valid code is the generated code of its first seven digits. */
  lemma ValidCodeIsGenerated(code: string)
    requires Classify(code) == Success
    ensures AllDigits(code[..7]) && WithCheckDigit(code[..7]) == code
  {
    var data := code[..7];
    WeightedSumPrefix(code, data, 7);
    assert DigitChar(CheckDigitOf(data)) == code[7];
    assert data + [code[7]] == code;
  }

  /** The GS1 form of the rule: a code is valid exactly when it is eight
      digits whose weighted sum, the check digit weighing 1, is a multiple
      of ten. */
  lemma ValidIffWeightedSumIsMultipleOfTen(code: string)
    ensures Classify(code) == Success <==>
      |code| == 8 && AllDigits(code) && WeightedSum(code, 8) % 10 == 0
  {
    if |code| == 8 && AllDigits(code[..7]) {
      assert forall i | 0 <= i < 7 :: code[i] == code[..7][i];
      if IsDigit(code[7]) && WeightedSum(code, 8) % 10 == 0 {
        CheckDigitUnique(WeightedSum(code, 7), DigitValue(code[7]));
      }
    }
  }

  lemma {:induction false} WeightedSumUpdate(s: string, n: nat, i: nat, c: char)
    requires i < n <= |s|
    ensures WeightedSum(s[i := c], n) == WeightedSum(s, n) + Weight(i) * (DigitValue(c) - DigitValue(s[i]))
  {
    if n - 1 == i {
      WeightedSumPrefix(s[i := c], s, i);
    } else {
      WeightedSumUpdate(s, n - 1, i, c);
    }
  }

  /** Any single mistyped digit of a valid code makes it invalid. */
  lemma SingleDigitErrorDetected(code: string, i: nat, c: char)
    requires Classify(code) == Success
    requires i < 8 && IsDigit(c) && c != code[i]
    ensures Classify(code[i := c]) != Success
  {
    ValidIffWeightedSumIsMultipleOfTen(code);
    var e := DigitValue(c) - DigitValue(code[i]);
    WeightedSumUpdate(code, 8, i, c);
    WeightedErrorShows(WeightedSum(code, 8), Weight(i), e);
    ValidIffWeightedSumIsMultipleOfTen(code[i := c]);
  }

  /** A weight of 1 or 3 times a non-zero digit difference moves a multiple
      of ten off it. */
  lemma WeightedErrorShows(sum: int, w: int, e: int)
    requires sum % 10 == 0 && (w == 1 || w == 3) && -9 <= e <= 9 && e != 0
    ensures (sum + w * e) % 10 != 0
  {
    assert w * e == if w == 1 then e else e + e + e;
  }

  // ---------------------------------------------------------------------------
  // The operations

  /** The text `strncpy(result, "error", 7)` leaves in the first seven places. */
  function ErrorText(): (r: string)
    ensures |r| == 7 && CStr(r) == "error"
  {
    var r := "error" + [NUL, NUL];
    CStrEndsAtFirstNul(r, 5);
    r
  }

  /** `GTIN8FromFirst7Digits(result, input)`: with a seven-character C string
      of digits in `input`, `result` receives those digits, their check digit
      and a terminator.  Anything else puts "error" into the first seven
      places; the eighth then holds the terminator copied from `input` if
      `input` had seven characters, and is left alone otherwise. */
  method GTIN8FromFirst7Digits(result: array<char>, input: seq<char>)
    requires result.Length == 9 && NUL in input
    modifies result
    ensures var data := CStr(input);
      if |data| == 7 && AllDigits(data)
      then result[..] == WithCheckDigit(data) + [NUL]
      else result[..7] == ErrorText() &&
           result[7] == (if |data| == 7 then NUL else old(result[7])) &&
           result[8] == old(result[8])
    ensures CStr(result[..]) ==
      if |CStr(input)| == 7 && AllDigits(CStr(input)) then WithCheckDigit(CStr(input)) else "error"
  {
    ghost var data := CStr(input);
    if CStrLen(input) == 7 {
      forall k | 0 <= k < 8 {
        result[k] := input[k];
      }
      assert result[..8] == data + [NUL];
      var sum := 0;
      var isError := false;
      var i := 0;
      while i < 7 && !isError
        invariant 0 <= i <= 7
        invariant !isError ==> result[..8] == data + [NUL] && AllDigits(data[..i]) &&
                               sum == WeightedSum(data, i)
        invariant isError ==> result[..7] == ErrorText() && result[7] == NUL && !AllDigits(data)
        invariant result[8] == old(result[8])
      {
        assert result[i] == data[i];
        if IsDigit(result[i]) {
          var digit := result[i] as int - '0' as int;
          if i % 2 == 0 {
            digit := digit * 3;
          }
          sum := sum + digit;
          assert data[..i + 1] == data[..i] + [data[i]];
        } else {
          StrNCopyInto(result, "error", 7);
          isError := true;
        }
        i := i + 1;
      }
      if !isError {
        assert data[..7] == data;
        var next := sum + (10 - sum % 10);
        if sum % 10 == 0 {
          next := sum;
        }
        var check := next - sum;
        result[7] := (check + '0' as int) as char;
        result[8] := NUL;
        assert result[..] == WithCheckDigit(data) + [NUL];
        CStrEndsAtFirstNul(result[..], 8);
      } else {
        CStrEndsAtFirstNul(result[..], 5);
      }
    } else {
      StrNCopyInto(result, "error", 7);
      CStrEndsAtFirstNul(result[..], 5);
    }
  }

  /** `GTIN8Verify(input)`: the classification of the C string in `input`. */
  method GTIN8Verify(input: seq<char>) returns (result: VerifyResult)
    requires NUL in input
    ensures result == Classify(CStr(input))
  {
    ghost var code := CStr(input);
    result := Success;
    if CStrLen(input) == 8 {
      var sum := 0;
      var i := 0;
      while i < 7 && result == Success
        invariant 0 <= i <= 7
        invariant result == Success ==> AllDigits(code[..i]) && sum == WeightedSum(code, i)
        invariant result != Success ==> result == InvalidInputString && !AllDigits(code[..7])
      {
        assert input[i] == code[i];
        if IsDigit(input[i]) {
          var digit := input[i] as int - '0' as int;
          if i % 2 == 0 {
            digit := digit * 3;
          }
          sum := sum + digit;
          assert code[..i + 1] == code[..i] + [code[i]];
        } else {
          assert code[..7][i] == code[i];
          result := InvalidInputString;
        }
        i := i + 1;
      }
      if result == Success {
        var next := sum + (10 - sum % 10);
        if sum % 10 == 0 {
          next := sum;
        }
        var check := next - sum;
        if input[7] as int - '0' as int != check {
          result := Failure;
        }
      }
    } else {
      result := InvalidInputString;
    }
  }

  /** Places 0 and 1 of the inventory are the dummy items the lookup answers
      with when no item has the code and when the code is not valid. */
  const ITEM_NOT_FOUND: nat := 0
  const INVALID_CODE: nat := 1

  /** `ReceiptItemFromGTIN8Code` over the inventory's codes: the place of the
      first item whose code agrees with `code` on eight characters, scanning
      from place 0. */
  method ReceiptItemFromGTIN8Code(codes: seq<seq<char>>, code: seq<char>) returns (r: nat)
    requires NUL in code
    ensures Classify(CStr(code)) != Success ==> r == INVALID_CODE
    ensures Classify(CStr(code)) == Success ==>
      if exists i | 0 <= i < |codes| :: StrNEqual(codes[i], code, 8)
      then r < |codes| && StrNEqual(codes[r], code, 8) &&
           forall j | 0 <= j < r :: !StrNEqual(codes[j], code, 8)
      else r == ITEM_NOT_FOUND
  {
    r := ITEM_NOT_FOUND;
    var verdict := GTIN8Verify(code);
    if verdict == Success {
      var i := 0;
      while i < |codes|
        invariant 0 <= i <= |codes|
        invariant forall j | 0 <= j < i :: !StrNEqual(codes[j], code, 8)
      {
        if StrNEqual(codes[i], code, 8) {
          r := i;
          return;
        }
        i := i + 1;
      }
    } else {
      r := INVALID_CODE;
    }
  }
}
