/** The NHS-number Modulus-11 scheme: the ETL validator
    (scripts/etl_pipeline.py) and the generator's check-digit computation and
    retry loop (scripts/generate_pas_data.py), with the round trip between them. */
module NhsNumber {
  import opened Common
  import opened Decimal

  /** The first `n` characters of `s` exist and are ASCII digits. */
  predicate DigitsUpTo(s: string, n: nat)
  {
    n <= |s| && forall i :: 0 <= i < n ==> IsDigit(s[i])
  }

  /** Σ_{i<n} digit(s[i]) · (10 - i): the weights run 10, 9, …, 2 for n = 9. */
  function WeightedSum(s: string, n: nat): int
    requires DigitsUpTo(s, n)
  {
    if n == 0 then 0 else WeightedSum(s, n - 1) + DigitValue(s[n - 1]) * (10 - (n - 1))
  }

  /** The loop `for i in range(n): total += int(s[i]) * (10 - i)` shared by
      both source functions: indexing past the end raises IndexError and
      `int()` of a non-digit raises ValueError. */
  function TryWeightedSum(s: string, n: nat): (r: Result<int>)
    ensures r.Ok? <==> DigitsUpTo(s, n)
    ensures r.Ok? ==> r.value == WeightedSum(s, n)
    ensures r == Raised(ValueError) <==> exists i :: 0 <= i < n && i < |s| && !IsDigit(s[i])
    ensures r == Raised(IndexError) <==> |s| < n && AllDigits(s)
  {
    if n == 0 then Ok(0)
    else
      match TryWeightedSum(s, n - 1)
      case Raised(e) => Raised(e)
      case Ok(total) =>
        if n - 1 >= |s| then Raised(IndexError)
        else if !IsDigit(s[n - 1]) then Raised(ValueError)
        else Ok(total + DigitValue(s[n - 1]) * (10 - (n - 1)))
  }

  /** The raw check value `11 - total % 11`, always in 1..11. */
  function RawCheck(total: int): (c: int)
    ensures 1 <= c <= 11
  {
    11 - total % 11
  }

  /** The declarative Modulus-11 rule: ten ASCII digits whose raw check over
      the first nine is not 10 and whose tenth digit equals it, 11 read as 0. */
  predicate IsValidNhsNumber(s: string)
  {
    && |s| == 10
    && AllDigits(s)
    && var c := RawCheck(WeightedSum(s, 9));
       c != 10 && DigitValue(s[9]) == (if c == 11 then 0 else c)
  }

  /** `validate_nhs_number` applied to the string form of its argument: every
      exception is swallowed into `false`. */
  function ValidateNhsNumber(nhs: string): (valid: bool)
    ensures valid <==> IsValidNhsNumber(nhs)
    ensures |nhs| != 10 ==> !valid
    ensures !AllDigits(nhs) ==> !valid
  {
    if |nhs| != 10 then false
    else
      match TryWeightedSum(nhs, 9)
      case Raised(_) => false
      case Ok(total) =>
        var check := RawCheck(total);
        if check == 10 then false
        else
          var expected := if check == 11 then 0 else check;
          if !IsDigit(nhs[9]) then false
          else DigitValue(nhs[9]) == expected
  }

  /** A raw check of 10 rejects the number whatever its tenth character. */
  lemma CheckTenAlwaysRejected(nhs: string)
    requires DigitsUpTo(nhs, 9)
    requires RawCheck(WeightedSum(nhs, 9)) == 10
    ensures !ValidateNhsNumber(nhs)
  {
  }

  /** `calculate_nhs_check_digit`: `None` when the raw check is 10, otherwise
      `str()` of the check digit; a short or non-numeric prefix raises. */
  function CalculateCheckDigit(firstNine: string): (r: Result<Option<string>>)
    ensures r.Ok? <==> DigitsUpTo(firstNine, 9)
    ensures r.Ok? ==> (r.value.None? <==> WeightedSum(firstNine, 9) % 11 == 1)
    ensures r.Ok? && r.value.Some? ==> |r.value.value| == 1 && IsDigit(r.value.value[0])
    ensures r.Ok? && r.value.Some? ==>
              DigitValue(r.value.value[0]) == (if WeightedSum(firstNine, 9) % 11 == 0 then 0 else 11 - WeightedSum(firstNine, 9) % 11)
  {
    match TryWeightedSum(firstNine, 9)
    case Raised(e) => Raised(e)
    case Ok(total) =>
      var check := RawCheck(total);
      if check == 11 then Ok(Some(DecimalString(0)))
      else if check == 10 then Ok(None)
      else Ok(Some(DecimalString(check)))
  }

  /** The weighted sum only looks at the first `n` characters. */
  lemma {:induction false} WeightedSumPrefix(s: string, t: string, n: nat)
    requires DigitsUpTo(s, n) && n <= |t| && s[..n] == t[..n]
    ensures DigitsUpTo(t, n) && WeightedSum(s, n) == WeightedSum(t, n)
  {
    assert forall i :: 0 <= i < n ==> s[i] == s[..n][i] == t[..n][i] == t[i];
    if n > 0 {
      assert s[..n - 1] == s[..n][..n - 1] == t[..n][..n - 1] == t[..n - 1];
      WeightedSumPrefix(s, t, n - 1);
    }
  }

  /** The validator accepts a string exactly when it is nine digits followed
      by the check digit the generator computes for them. */
  lemma ValidIffCheckDigit(nhs: string)
    ensures ValidateNhsNumber(nhs) <==>
      |nhs| == 10 && CalculateCheckDigit(nhs[..9]) == Ok(Some(nhs[9..]))
  {
    if |nhs| == 10 && DigitsUpTo(nhs, 9) {
      WeightedSumPrefix(nhs, nhs[..9], 9);
      var c := RawCheck(WeightedSum(nhs, 9));
      if c != 10 {
        var e := if c == 11 then 0 else c;
        assert CalculateCheckDigit(nhs[..9]) == Ok(Some([DigitChar(e)]));
        assert nhs[9..] == [nhs[9]];
        assert ValidateNhsNumber(nhs) <==> nhs[9] == DigitChar(e) by {
          if IsDigit(nhs[9]) && DigitValue(nhs[9]) == e {
            assert nhs[9] == DigitChar(e);
          }
        }
        assert ValidateNhsNumber(nhs) ==> AllDigits(nhs);
      }
    } else if |nhs| == 10 {
      assert !DigitsUpTo(nhs[..9], 9);
    }
  }

  /** Round trip: a computed check digit completes a valid NHS number. */
  lemma CheckDigitRoundTrip(firstNine: string, digit: string)
    requires |firstNine| == 9
    requires CalculateCheckDigit(firstNine) == Ok(Some(digit))
    ensures ValidateNhsNumber(firstNine + digit)
  {
    var nhs := firstNine + digit;
    assert nhs[..9] == firstNine && nhs[9..] == digit;
    ValidIffCheckDigit(nhs);
  }

  /** When no check digit exists, no suffix makes the prefix valid. */
  lemma NoCheckDigitNoValidNumber(firstNine: string, suffix: string)
    requires |firstNine| == 9
    requires CalculateCheckDigit(firstNine) == Ok(None)
    ensures !ValidateNhsNumber(firstNine + suffix)
  {
    var nhs := firstNine + suffix;
    assert |nhs| == 10 ==> nhs[..9] == firstNine;
    ValidIffCheckDigit(nhs);
  }

  /** The worked example: weighted sum 299, 299 mod 11 = 2, check 9. */
  lemma ExampleValidNumber()
    ensures WeightedSum("9434765919", 9) == 299
    ensures ValidateNhsNumber("9434765919")
  {
    var s := "9434765919";
    assert DigitsUpTo(s, 9);
    assert WeightedSum(s, 9) == 299;
  }

  /** A prefix with weighted sum 12 (raw check 10) has no valid completion. */
  lemma ExampleCheckTen(x: char)
    ensures CalculateCheckDigit("000000006") == Ok(None)
    ensures !ValidateNhsNumber("000000006" + [x])
  {
    var p := "000000006";
    assert DigitsUpTo(p, 9);
    assert WeightedSum(p, 9) == 12;
    NoCheckDigitNoValidNumber(p, [x]);
  }

  predicate IsNineDigits(s: string)
  {
    |s| == 9 && AllDigits(s)
  }

  /** One draw of the retry loop: nine `random.randint(0, 9)` digits joined. */
  type NineDigits = s: string | IsNineDigits(s) witness "000000000"

  /** `generate_nhs_number`: draws nine random digits until a check digit
      exists. The random draws are the parameter; running out of draws stands
      for a loop that has not yet returned. */
  method GenerateNhsNumber(draws: seq<NineDigits>) returns (nhs: Option<string>)
    ensures nhs.Some? ==> |nhs.value| == 10 && AllDigits(nhs.value) && ValidateNhsNumber(nhs.value)
    ensures nhs.None? <==> forall k :: 0 <= k < |draws| ==> CalculateCheckDigit(draws[k]) == Ok(None)
    ensures nhs.Some? ==>
              exists k :: 0 <= k < |draws| && nhs.value[..9] == draws[k] &&
                          forall j :: 0 <= j < k ==> CalculateCheckDigit(draws[j]) == Ok(None)
  {
    var i := 0;
    while i < |draws|
      invariant 0 <= i <= |draws|
      invariant forall j :: 0 <= j < i ==> CalculateCheckDigit(draws[j]) == Ok(None)
    {
      var firstNine := draws[i];
      var check := CalculateCheckDigit(firstNine);
      if check.value.Some? {
        var result := firstNine + check.value.value;
        CheckDigitRoundTrip(firstNine, check.value.value);
        assert result[..9] == firstNine;
        return Some(result);
      }
      i := i + 1;
    }
    return None;
  }
}
