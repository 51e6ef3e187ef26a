/**
 The checksums that confirm a candidate: Luhn for cards and provider numbers, mod 97 for
 IBANs (control_plane/classification/detectors.py). Characters are ASCII.
 */
module Checksums {
  import opened Strings

  // --- Luhn ----------------------------------------------------------------------

  function DigitsOf(value: string): (r: string)
    ensures forall i | 0 <= i < |r| :: IsDigit(r[i])
  {
    if value == "" then ""
    else (if IsDigit(value[0]) then [value[0]] else "") + DigitsOf(value[1..])
  }

  function Doubled(d: int): int {
    if 2 * d > 9 then 2 * d - 9 else 2 * d
  }

  /** What a digit adds, by whether its index from the right is odd. */
  function Weight(c: char, odd: bool): int {
    var d := c as int - '0' as int;
    if odd then Doubled(d) else d
  }

  function LuhnSum(digits: string): int {
    if digits == "" then 0
    else Weight(digits[0], (|digits| - 1) % 2 == 1) + LuhnSum(digits[1..])
  }

  predicate LuhnValid(digits: string) {
    |digits| >= 12 && LuhnSum(digits) % 10 == 0
  }

  method Luhn(value: string) returns (valid: bool)
    ensures valid <==> LuhnValid(DigitsOf(value))
  {
    var digits := DigitsOf(value);
    if |digits| < 12 {
      return false;
    }
    var total := 0;
    for index := 0 to |digits|
      invariant total == LuhnSum(digits[|digits| - index..])
    {
      var at := |digits| - 1 - index;
      var digit := digits[at] as int - '0' as int;
      if index % 2 == 1 {
        digit := digit * 2;
        if digit > 9 {
          digit := digit - 9;
        }
      }
      assert digits[at..][1..] == digits[at + 1..];
      total := total + digit;
    }
    assert digits[0..] == digits;
    valid := total % 10 == 0;
  }

  ghost predicate AllDigits(s: string) {
    forall i | 0 <= i < |s| :: IsDigit(s[i])
  }

  /** Changing one digit changes the sum by the difference of the two weights. */
  lemma {:induction false} LuhnSumUpdate(s: string, k: nat, c: char)
    requires k < |s|
    ensures var odd := (|s| - 1 - k) % 2 == 1;
      LuhnSum(s[k := c]) == LuhnSum(s) - Weight(s[k], odd) + Weight(c, odd)
  {
    if k == 0 {
      assert s[0 := c][1..] == s[1..];
    } else {
      LuhnSumUpdate(s[1..], k - 1, c);
      assert s[k := c][1..] == s[1..][k - 1 := c];
    }
  }

  lemma WeightsDiffer(a: char, b: char, odd: bool)
    requires IsDigit(a) && IsDigit(b) && a != b
    ensures (Weight(a, odd) - Weight(b, odd)) % 10 != 0
  {}

  /** Every single wrong digit is caught. */
  lemma LuhnCatchesOneWrongDigit(s: string, k: nat, c: char)
    requires AllDigits(s) && k < |s| && IsDigit(c) && c != s[k]
    ensures !(LuhnValid(s) && LuhnValid(s[k := c]))
  {
    LuhnSumUpdate(s, k, c);
    var odd := (|s| - 1 - k) % 2 == 1;
    WeightsDiffer(s[k], c, odd);
    BothMultiplesOfTen(LuhnSum(s), Weight(s[k], odd) - Weight(c, odd));
  }

  lemma BothMultiplesOfTen(x: int, d: int)
    requires d % 10 != 0
    ensures !(x % 10 == 0 && (x - d) % 10 == 0)
  {}

  /** A swap of two neighbours is missed only for 0 and 9. */
  lemma LuhnMissesOnlyZeroNineSwap(s: string, k: nat)
    requires AllDigits(s) && LuhnValid(s) && k + 1 < |s| && s[k] != s[k + 1]
    ensures LuhnValid(s[k := s[k + 1]][k + 1 := s[k]]) <==>
              (s[k] == '0' && s[k + 1] == '9') || (s[k] == '9' && s[k + 1] == '0')
  {
    hide LuhnSum, Weight;
    var a, b, t := s[k], s[k + 1], s[k := s[k + 1]];
    LuhnSumUpdate(s, k, b);
    LuhnSumUpdate(t, k + 1, a);
    var odd := (|s| - 1 - k) % 2 == 1;
    var shift := Weight(b, odd) - Weight(a, odd) + Weight(a, !odd) - Weight(b, !odd);
    assert ((|s| - 1 - (k + 1)) % 2 == 1) == !odd;
    assert LuhnSum(t[k + 1 := a]) == LuhnSum(s) + shift;
    SwapShift(a, b, odd);
    ShiftByTens(LuhnSum(s), shift);
  }

  lemma ShiftByTens(x: int, shift: int)
    requires x % 10 == 0
    ensures (x + shift) % 10 == 0 <==> shift % 10 == 0
  {}

  lemma SwapShift(a: char, b: char, odd: bool)
    requires IsDigit(a) && IsDigit(b) && a != b
    ensures (Weight(b, odd) - Weight(a, odd) + Weight(a, !odd) - Weight(b, !odd)) % 10 == 0 <==>
              (a == '0' && b == '9') || (a == '9' && b == '0')
  {}

  /** A provider number: ten digits that pass Luhn after the issuer prefix. */
  predicate NpiValid(value: string) {
    var digits := DigitsOf(value);
    |digits| == 10 && LuhnValid("80840" + digits)
  }

  lemma {:induction false} DigitsOfDigits(s: string)
    requires AllDigits(s)
    ensures DigitsOf(s) == s
  {
    if s != "" {
      DigitsOfDigits(s[1..]);
    }
  }

  lemma NpiCatchesOneWrongDigit(s: string, k: nat, c: char)
    requires AllDigits(s) && k < |s| && IsDigit(c) && c != s[k]
    ensures !(NpiValid(s) && NpiValid(s[k := c]))
  {
    DigitsOfDigits(s);
    DigitsOfDigits(s[k := c]);
    assert "80840" + s[k := c] == ("80840" + s)[5 + k := c];
    LuhnCatchesOneWrongDigit("80840" + s, 5 + k, c);
  }

  // --- mod 97 ----------------------------------------------------------------------

  predicate IsUpper(c: char) {
    'A' <= c <= 'Z'
  }

  predicate IsSpace(c: char) {
    c == ' ' || ('\t' <= c <= '\r') || 28 <= c as int <= 31
  }

  function Upper(c: char): char {
    if 'a' <= c <= 'z' then (c as int - 32) as char else c
  }

  function Compact(value: string): string {
    if value == "" then ""
    else (if IsSpace(value[0]) then "" else [Upper(value[0])]) + Compact(value[1..])
  }

  /** A letter stands for two digits, 10 to 35. */
  function CharValue(c: char): int {
    if IsUpper(c) then c as int - 55 else c as int - '0' as int
  }

  function CharScale(c: char): int {
    if IsUpper(c) then 100 else 10
  }

  /** The number a string of digits and letters reads as. */
  function Number(s: string): int {
    if s == "" then 0
    else Number(s[..|s| - 1]) * CharScale(s[|s| - 1]) + CharValue(s[|s| - 1])
  }

  predicate Alphanumeric(s: string) {
    forall i | 0 <= i < |s| :: IsUpper(s[i]) || IsDigit(s[i])
  }

  function Rearranged(compact: string): string
    requires |compact| >= 4
  {
    compact[4..] + compact[..4]
  }

  predicate IbanShape(compact: string) {
    && 15 <= |compact| <= 34
    && IsUpper(compact[0]) && IsUpper(compact[1]) && IsDigit(compact[2]) && IsDigit(compact[3])
    && Alphanumeric(compact)
  }

  predicate IbanValid(compact: string) {
    IbanShape(compact) && Number(Rearranged(compact)) % 97 == 1
  }

  predicate ValidIban(value: string) {
    IbanValid(Compact(value))
  }

  function Scale(s: string): int {
    if s == "" then 1 else Scale(s[..|s| - 1]) * CharScale(s[|s| - 1])
  }

  lemma NumberSnoc(s: string, c: char)
    ensures Number(s + [c]) == Number(s) * CharScale(c) + CharValue(c)
    ensures Scale(s + [c]) == Scale(s) * CharScale(c)
  {
    assert (s + [c])[..|s|] == s;
  }

  lemma Distributes(n: int, scale: int, m: int, c: int, v: int)
    ensures (n * scale + m) * c + v == n * (scale * c) + (m * c + v)
  {
    assert (n * scale) * c == n * (scale * c);
  }

  lemma {:induction false} NumberConcat(a: string, b: string)
    ensures Number(a + b) == Number(a) * Scale(b) + Number(b)
  {
    if b == "" {
      assert a + b == a;
    } else {
      hide Number, Scale, CharScale, CharValue;
      var init, c := b[..|b| - 1], b[|b| - 1];
      assert b == init + [c] && a + b == (a + init) + [c];
      NumberConcat(a, init);
      NumberSnoc(a + init, c);
      NumberSnoc(init, c);
      Distributes(Number(a), Scale(init), Number(init), CharScale(c), CharValue(c));
    }
  }

  /** 97 and 10 share no factor: ten times 68 is one more than seven times 97. */
  lemma TenCancels(x: int)
    requires (10 * x) % 97 == 0
    ensures x % 97 == 0
  {
    var m := (10 * x) / 97;
    assert 10 * x == 97 * m;
    assert x == 97 * (68 * m - 7 * x);
  }

  lemma {:induction false} ScaleCancels(x: int, s: string)
    requires (x * Scale(s)) % 97 == 0
    ensures x % 97 == 0
    decreases |s|
  {
    if s != "" {
      var init, last := s[..|s| - 1], s[|s| - 1];
      var y := x * Scale(init);
      assert x * Scale(s) == y * CharScale(last) by {
        assert x * (Scale(init) * CharScale(last)) == (x * Scale(init)) * CharScale(last);
      }
      if CharScale(last) == 100 {
        assert 10 * (10 * y) == x * Scale(s);
        TenCancels(10 * y);
      }
      TenCancels(y);
      ScaleCancels(x, init);
    }
  }

  predicate SameClass(a: char, b: char) {
    (IsDigit(a) && IsDigit(b)) || (IsUpper(a) && IsUpper(b))
  }

  /** Changing one character for another of its class moves the number by less than 97
      times a power of ten, so never by a multiple of 97. */
  lemma OneCharMovesNumber(before: string, a: char, b: char, after: string)
    requires SameClass(a, b) && a != b
    ensures (Number(before + [a] + after) - Number(before + [b] + after)) % 97 != 0
  {
    hide Number, Scale;
    var x, y := Number(before + [a]), Number(before + [b]);
    NumberConcat(before + [a], after);
    NumberConcat(before + [b], after);
    NumberSnoc(before, a);
    NumberSnoc(before, b);
    assert Number(before + [a] + after) - Number(before + [b] + after) == (x - y) * Scale(after) by {
      assert x * Scale(after) - y * Scale(after) == (x - y) * Scale(after);
    }
    assert -97 < x - y < 97 && x != y;
    if ((x - y) * Scale(after)) % 97 == 0 {
      ScaleCancels(x - y, after);
      SmallMultiple(x - y);
    }
  }

  lemma SmallMultiple(d: int)
    requires -97 < d < 97 && d % 97 == 0
    ensures d == 0
  {}

  lemma RearrangedUpdate(s: string, k: nat, c: char) returns (before: string, after: string)
    requires k < |s| && |s| >= 4
    ensures Rearranged(s) == before + [s[k]] + after && Rearranged(s[k := c]) == before + [c] + after
  {
    if k < 4 {
      before, after := s[4..] + s[..k], s[k + 1..4];
    } else {
      before, after := s[4..k], s[k + 1..] + s[..4];
    }
  }

  lemma CompactCatchesOneWrongCharacter(s: string, k: nat, c: char)
    requires k < |s| && SameClass(s[k], c) && c != s[k]
    ensures !(IbanValid(s) && IbanValid(s[k := c]))
  {
    hide Number, Rearranged, IbanShape;
    if |s| >= 4 {
      var before, after := RearrangedUpdate(s, k, c);
      OneCharMovesNumber(before, s[k], c, after);
      NotBothOne(Number(Rearranged(s)), Number(Rearranged(s[k := c])));
    } else {
      TooShort(s);
    }
  }

  lemma {:induction false} CompactConcat(a: string, b: string)
    ensures Compact(a + b) == Compact(a) + Compact(b)
  {
    if a == "" {
      assert a + b == b;
    } else {
      assert (a + b)[0] == a[0] && (a + b)[1..] == a[1..] + b;
      CompactConcat(a[1..], b);
    }
  }

  /** A value with the character at k apart. */
  lemma CompactAround(value: string, k: nat)
    requires k < |value| && !IsSpace(value[k])
    ensures Compact(value) == Compact(value[..k]) + [Upper(value[k])] + Compact(value[k + 1..])
  {
    hide Compact, Upper, IsSpace;
    assert value == value[..k] + [value[k]] + value[k + 1..];
    CompactConcat(value[..k] + [value[k]], value[k + 1..]);
    CompactConcat(value[..k], [value[k]]);
    CompactOne(value[k]);
  }

  lemma CompactOne(c: char)
    requires !IsSpace(c)
    ensures Compact([c]) == [Upper(c)]
  {}

  /** Two IBANs, spaced and cased as they may be, that differ in one digit, or in one letter
      for a letter that is not the same in the other case, are never both valid. */
  lemma IbanCatchesOneWrongCharacter(value: string, k: nat, c: char)
    requires k < |value| && SameClass(Upper(value[k]), Upper(c)) && Upper(c) != Upper(value[k])
    ensures !(ValidIban(value) && ValidIban(value[k := c]))
  {
    hide Compact;
    var other := value[k := c];
    CompactAround(value, k);
    CompactAround(other, k);
    var before, after := Compact(value[..k]), Compact(value[k + 1..]);
    assert other[..k] == value[..k] && other[k + 1..] == value[k + 1..];
    var s := before + [Upper(value[k])] + after;
    assert s[|before| := Upper(c)] == before + [Upper(c)] + after;
    CompactCatchesOneWrongCharacter(s, |before|, Upper(c));
  }

  /** In the other case, or spaced otherwise, it is the same IBAN. */
  lemma CaseDoesNotMatter(value: string, k: nat, c: char)
    requires k < |value| && !IsSpace(value[k]) && Upper(c) == Upper(value[k]) && !IsSpace(c)
    ensures ValidIban(value[k := c]) == ValidIban(value)
  {
    hide Compact;
    CompactAround(value, k);
    CompactAround(value[k := c], k);
    assert value[k := c][..k] == value[..k] && value[k := c][k + 1..] == value[k + 1..];
  }

  lemma NotBothOne(x: int, y: int)
    requires (x - y) % 97 != 0
    ensures !(x % 97 == 1 && y % 97 == 1)
  {}

  lemma TooShort(s: string)
    requires |s| < 4
    ensures !IbanShape(s)
  {}

  /** Two digits. */
  function Pair(n: nat): string
    requires n < 100
  {
    [('0' as int + n / 10) as char, ('0' as int + n % 10) as char]
  }

  lemma PairNumber(body: string, n: nat)
    requires n < 100
    ensures Number(body + Pair(n)) == 100 * Number(body) + n
  {
    hide Number;
    var tens, units := Pair(n)[0], Pair(n)[1];
    NumberSnoc(body, tens);
    NumberSnoc(body + [tens], units);
    assert body + Pair(n) == body + [tens] + [units];
  }

  /** For every country and account there is exactly one check pair from 02 to 98. */
  lemma ExactlyOneCheckPair(country: string, account: string) returns (n: nat)
    requires |country| == 2 && IsUpper(country[0]) && IsUpper(country[1])
    requires 11 <= |account| <= 30 && Alphanumeric(account)
    ensures 2 <= n <= 98
    ensures forall m: nat | 2 <= m <= 98 :: IbanValid(country + Pair(m) + account) <==> m == n
  {
    var base := Number(account + country);
    n := (1 - 100 * base - 2) % 97 + 2;
    forall m: nat | 2 <= m <= 98
      ensures IbanValid(country + Pair(m) + account) <==> m == n
    {
      CheckPairValid(country, account, m);
      CheckPairUnique(base, m);
    }
  }

  lemma CheckPairValid(country: string, account: string, m: nat)
    requires |country| == 2 && IsUpper(country[0]) && IsUpper(country[1])
    requires 11 <= |account| <= 30 && Alphanumeric(account) && m < 100
    ensures IbanValid(country + Pair(m) + account) <==> (100 * Number(account + country) + m) % 97 == 1
  {
    hide Number;
    var s := country + Pair(m) + account;
    assert Rearranged(s) == account + country + Pair(m);
    PairNumber(account + country, m);
    assert forall i | 4 <= i < |s| :: s[i] == account[i - 4];
  }

  lemma CheckPairUnique(base: int, m: nat)
    requires 2 <= m <= 98
    ensures (100 * base + m) % 97 == 1 <==> m == (1 - 100 * base - 2) % 97 + 2
  {
    var q := (1 - 100 * base - 2) / 97;
    var n := (1 - 100 * base - 2) % 97 + 2;
    assert 100 * base + n == 1 - 97 * q;
    assert (100 * base + n) % 97 == 1;
    var x, y := 100 * base + m, 100 * base + n;
    assert x % 97 == y % 97 ==> (x - y) % 97 == 0;
  }

  // --- what the sums are ------------------------------------------------------------------

  /** Every second digit from the right is doubled and its own digits are added. */
  lemma WeightSays(c: char)
    requires IsDigit(c)
    ensures var d := c as int - '0' as int;
      Weight(c, false) == d && Weight(c, true) == (2 * d) / 10 + (2 * d) % 10
  {}

  /** For every body there is exactly one check digit. */
  lemma ExactlyOneCheckDigit(body: string) returns (check: char)
    requires AllDigits(body)
    ensures |body| >= 11 ==> IsDigit(check) && forall c | IsDigit(c) :: LuhnValid(body + [c]) <==> c == check
    ensures |body| < 11 ==> forall c :: !LuhnValid(body + [c])
  {
    check := '0';
    if |body| >= 11 {
      var zero := body + ['0'];
      var n := (-LuhnSum(zero)) % 10;
      check := ('0' as int + n) as char;
      forall c | IsDigit(c) ensures LuhnValid(body + [c]) <==> c == check {
        LuhnSumUpdate(zero, |body|, c);
        assert zero[|body| := c] == body + [c];
        TensDigit(LuhnSum(zero), c as int - '0' as int);
      }
    }
  }

  lemma TensDigit(x: int, d: int)
    requires 0 <= d < 10
    ensures (x + d) % 10 == 0 <==> d == (-x) % 10
  {}

  lemma {:induction false} LuhnSumConcat(a: string, b: string)
    requires |b| % 2 == 0
    ensures LuhnSum(a + b) == LuhnSum(a) + LuhnSum(b)
  {
    if a == "" {
      assert a + b == b;
    } else {
      assert (a + b)[0] == a[0] && (a + b)[1..] == a[1..] + b;
      LuhnSumConcat(a[1..], b);
    }
  }

  lemma PrefixedSum(digits: string)
    requires |digits| == 10
    ensures LuhnSum("80840" + digits) == 24 + LuhnSum(digits)
  {
    hide LuhnSum;
    LuhnSumConcat("80840", digits);
    PrefixSum();
  }

  /** A provider number passes exactly when its own sum and twenty-four make tens: what the
      issuer's prefix adds. */
  lemma NpiAddsTwentyFour(value: string)
    requires AllDigits(value)
    ensures NpiValid(value) <==> |value| == 10 && (24 + LuhnSum(value)) % 10 == 0
  {
    hide LuhnSum, DigitsOf, AllDigits;
    DigitsOfDigits(value);
    if |value| == 10 {
      PrefixedSum(value);
    }
  }

  lemma PrefixSum()
    ensures LuhnSum("80840") == 24
  {
    var s := "80840";
    assert s[1..] == "0840" && s[1..][1..] == "840" && s[1..][1..][1..] == "40" && s[1..][1..][1..][1..] == "0";
    assert LuhnSum("0") == 0 && LuhnSum("40") == 8 && LuhnSum("840") == 16 && LuhnSum("0840") == 16;
  }

  /** A letter spelled as two digits, A as 10 and Z as 35. */
  function Spelled(s: string): (r: string)
    requires Alphanumeric(s)
    ensures forall c | c in r :: IsDigit(c)
  {
    if s == "" then ""
    else
      var last := s[|s| - 1];
      Spelled(s[..|s| - 1]) + (if IsUpper(last) then Decimal(10 + (last as int - 'A' as int)) else [last])
  }

  lemma ValueSnoc(s: string, c: char)
    requires (forall x | x in s :: IsDigit(x)) && IsDigit(c)
    ensures Value(s + [c]) == 10 * Value(s) + (c as int - '0' as int)
  {
    assert (s + [c])[..|s|] == s;
  }

  lemma TwoDigits(n: nat)
    requires 10 <= n < 100
    ensures Decimal(n) == [('0' as int + n / 10) as char] + [('0' as int + n % 10) as char]
  {
    assert Decimal(n / 10) == [('0' as int + n / 10) as char];
  }

  /** The number an IBAN is reduced to is the one its spelling in digits denotes (ISO 13616). */
  lemma {:induction false} NumberIsSpelled(s: string)
    requires Alphanumeric(s)
    ensures Number(s) == Value(Spelled(s))
  {
    hide Value, Decimal;
    if s == "" {
      NoDigits();
    } else {
      var before, last := s[..|s| - 1], s[|s| - 1];
      NumberIsSpelled(before);
      if IsUpper(last) {
        var n := 10 + (last as int - 'A' as int);
        TwoDigits(n);
        var tens, units := ('0' as int + n / 10) as char, ('0' as int + n % 10) as char;
        ValueSnoc(Spelled(before), tens);
        ValueSnoc(Spelled(before) + [tens], units);
        assert Spelled(s) == Spelled(before) + [tens] + [units];
      } else {
        ValueSnoc(Spelled(before), last);
      }
    }
  }

  lemma NoDigits()
    ensures Value("") == 0
  {}

  // --- IBANs as they are written -------------------------------------------------------------

  /** Spaces do not matter, wherever they stand. */
  lemma SpacesDoNotMatter(a: string, space: char, b: string)
    requires space in {' ', '\t', '\n', '\r'} || space as int in {11, 12, 28, 29, 30, 31}
    ensures ValidIban(a + [space] + b) == ValidIban(a + b)
  {
    hide IbanValid;
    CompactConcat(a + [space], b);
    CompactConcat(a, [space]);
    CompactConcat(a, b);
    assert Compact([space]) == "";
    assert Compact(a) + "" == Compact(a);
  }

  /** A small letter is as good as its capital. */
  lemma SmallIsCapital(value: string, k: nat, n: nat)
    requires k < |value| && n < 26
    ensures ValidIban(value[k := ('a' as int + n) as char]) == ValidIban(value[k := ('A' as int + n) as char])
  {
    hide ValidIban;
    var small := value[k := ('a' as int + n) as char];
    CaseDoesNotMatter(small, k, ('A' as int + n) as char);
    assert small[k := ('A' as int + n) as char] == value[k := ('A' as int + n) as char];
  }

  /** Without spaces and in capitals: two letters, two digits and eleven to thirty more letters
      or digits, which with the first four moved to the end denote a number that leaves one
      when divided by 97; and nothing else. */
  lemma IbanSays(s: string)
    requires forall c | c in s :: 'A' <= c <= 'Z' || '0' <= c <= '9'
    ensures ValidIban(s) <==>
      && 15 <= |s| <= 34 && 'A' <= s[0] <= 'Z' && 'A' <= s[1] <= 'Z' && '0' <= s[2] <= '9' && '0' <= s[3] <= '9'
      && (assert forall i | 0 <= i < |s| :: s[i] in s; Alphanumeric(s[4..] + s[..4]))
      && Value(Spelled(s[4..] + s[..4])) % 97 == 1
  {
    hide Number, Value, Spelled;
    assert forall i | 0 <= i < |s| :: s[i] in s;
    CapitalsStay(s);
    if |s| >= 4 {
      var r := s[4..] + s[..4];
      assert Alphanumeric(r);
      NumberIsSpelled(r);
    }
  }

  lemma {:induction false} CapitalsStay(s: string)
    requires forall c | c in s :: IsUpper(c) || IsDigit(c)
    ensures Compact(s) == s
  {
    if s != "" {
      assert s[0] in s;
      CapitalsStay(s[1..]);
    }
  }

  /** Any other character makes it none. */
  lemma NothingElseIsIban(a: string, c: char, b: string)
    requires !('A' <= c <= 'Z' || 'a' <= c <= 'z' || '0' <= c <= '9' || c == ' ' || 9 <= c as int <= 13 || 28 <= c as int <= 31)
    ensures !ValidIban(a + [c] + b)
  {
    hide Number;
    CompactConcat(a + [c], b);
    CompactConcat(a, [c]);
    CompactOne(c);
    var s := Compact(a) + [c] + Compact(b);
    assert s[|Compact(a)|] == c;
  }
}
