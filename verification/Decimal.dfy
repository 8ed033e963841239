/** The decimal printer and parser of the kernel's console output. */
module Decimal {
  import opened Machine

  predicate IsNum(c: char) {
    '0' <= c <= '9'
  }

  function Digit(c: char): nat
    requires IsNum(c)
  {
    c as int - '0' as int
  }

  function CharOf(d: nat): (c: char)
    requires d < 10
    ensures IsNum(c) && Digit(c) == d
  {
    (d + '0' as int) as char
  }

  ghost predicate AllDigits(s: seq<char>) {
    forall i :: 0 <= i < |s| ==> IsNum(s[i])
  }

  /** The number a string of digits writes. */
  ghost function Value(s: seq<char>): nat
    requires AllDigits(s)
  {
    if s == [] then 0 else 10 * Value(s[..|s| - 1]) + Digit(s[|s| - 1])
  }

  /** The shortest string of digits that writes n. */
  ghost function Digits(n: nat): (s: seq<char>)
    ensures AllDigits(s) && s != []
  {
    if n < 10 then [CharOf(n)] else Digits(n / 10) + [CharOf(n % 10)]
  }

  function Pow10(k: nat): (p: nat)
    ensures p > 0
  {
    if k == 0 then 1 else 10 * Pow10(k - 1)
  }

  lemma {:induction false} ValueOfDigits(n: nat)
    ensures Value(Digits(n)) == n
  {
    if n >= 10 {
      ValueOfDigits(n / 10);
      assert Digits(n)[..|Digits(n)| - 1] == Digits(n / 10);
    }
  }

  /** n has k digits or fewer exactly when it is below 10^k: nothing shorter writes it. */
  lemma {:induction false} DigitCount(n: nat, k: nat)
    requires k > 0
    ensures |Digits(n)| <= k <==> n < Pow10(k)
  {
    if k == 1 {
      assert Pow10(1) == 10 * Pow10(0);
    } else if n >= 10 {
      DigitCount(n / 10, k - 1);
    } else {
      assert Pow10(k) == 10 * Pow10(k - 1);
    }
  }

  lemma TenDigits(n: nat)
    requires n < WORD
    ensures |Digits(n)| <= 10
  {
    TenToTheTen();
    DigitCount(n, 10);
  }

  /** places */
  method Places(num: nat) returns (places: nat)
    requires num < WORD
    ensures places == |Digits(num)| <= 10
  {
    places := 1;
    var n := num;
    while n >= 10
      invariant places + |Digits(n)| == |Digits(num)| + 1
    {
      places := places + 1;
      n := n / 10;
    }
    TenDigits(num);
  }

  lemma LastDigit(n: nat)
    ensures var s := Digits(n);
      && s[|s| - 1] == CharOf(n % 10)
      && (|s| > 1 ==> Digits(n / 10) == s[..|s| - 1])
  {
  }

  /** pru32: the characters it writes. */
  method Pru32(num: nat) returns (out: seq<char>)
    requires num < WORD
    ensures out == Digits(num) && |out| <= 10
  {
    var len := Places(num);
    var buf := new char[len];
    var n := num;
    ghost var digits := Digits(num);
    for i := 0 to len
      invariant i < len ==> Digits(n) == digits[..len - i]
      invariant forall j :: len - i <= j < len ==> buf[j] == digits[j]
    {
      LastDigit(n);
      buf[len - i - 1] := CharOf(n % 10);
      n := n / 10;
    }
    out := buf[..];
  }

  /** What a call of try_get_num comes to. */
  datatype Outcome =
    | NoDigits
    | Parsed(count: nat, value: nat)
    | AssertionFails
    | OutOfBounds

  const PLACES := 11

  /** The digits str starts with. */
  function Leading(str: seq<char>): (n: nat)
    ensures n <= |str| && (n < |str| ==> !IsNum(str[n]))
    ensures forall i :: 0 <= i < n ==> IsNum(str[i])
  {
    if str == [] || !IsNum(str[0]) then 0 else 1 + Leading(str[1..])
  }

  lemma LeadingIs(str: seq<char>, n: nat)
    requires n <= |str| && AllDigits(str[..n]) && (n < |str| ==> !IsNum(str[n]))
    ensures Leading(str) == n
  {
    assert forall i :: 0 <= i < n ==> str[..n][i] == str[i];
  }

  /** What digit i of s is worth. */
  ghost function Worth(s: seq<char>, i: nat): nat
    requires AllDigits(s) && i < |s|
  {
    Digit(s[i]) * Pow10(|s| - 1 - i)
  }

  /** The first k digits together. */
  ghost function WorthSum(s: seq<char>, k: nat): nat
    requires AllDigits(s) && k <= |s|
  {
    if k == 0 then 0 else WorthSum(s, k - 1) + Worth(s, k - 1)
  }

  /** The first k places together, each cut to 32 bits on its own. */
  ghost function PlaceSum(s: seq<char>, k: nat): nat
    requires AllDigits(s) && k <= |s|
  {
    if k == 0 then 0 else PlaceSum(s, k - 1) + Worth(s, k - 1) % WORD
  }

  lemma WorthGrows(s: seq<char>, c: char, i: nat)
    requires AllDigits(s) && IsNum(c) && i < |s|
    ensures Worth(s + [c], i) == 10 * Worth(s, i)
  {
    var d, p := Digit(s[i]), Pow10(|s| - 1 - i);
    assert (s + [c])[i] == s[i] && Pow10(|s| - i) == 10 * p;
    assert d * (10 * p) == 10 * (d * p);
  }

  lemma {:induction false} WorthSumGrows(s: seq<char>, c: char, k: nat)
    requires AllDigits(s) && IsNum(c) && k <= |s|
    ensures WorthSum(s + [c], k) == 10 * WorthSum(s, k)
  {
    if k > 0 {
      WorthSumGrows(s, c, k - 1);
      WorthGrows(s, c, k - 1);
    }
  }

  lemma {:induction false} WorthSumIsValue(s: seq<char>)
    requires AllDigits(s)
    ensures WorthSum(s, |s|) == Value(s)
  {
    if s != [] {
      var m := |s| - 1;
      assert s == s[..m] + [s[m]];
      WorthSumIsValue(s[..m]);
      WorthSumGrows(s[..m], s[m], m);
      assert Worth(s, m) == Digit(s[m]) * Pow10(0);
    }
  }

  /** Cutting the places takes away only whole multiples of 2^32. */
  lemma {:induction false} PlaceSumMod(s: seq<char>, k: nat)
    requires AllDigits(s) && k <= |s|
    ensures PlaceSum(s, k) % WORD == WorthSum(s, k) % WORD
  {
    if k > 0 {
      PlaceSumMod(s, k - 1);
      AddMod(PlaceSum(s, k - 1), WorthSum(s, k - 1), Worth(s, k - 1));
    }
  }

  /** Below 2^32 it takes away nothing. */
  lemma {:induction false} PlaceSumExact(s: seq<char>, k: nat)
    requires AllDigits(s) && k <= |s| && WorthSum(s, k) < WORD
    ensures PlaceSum(s, k) == WorthSum(s, k)
  {
    if k > 0 {
      PlaceSumExact(s, k - 1);
      SmallMod(Worth(s, k - 1));
    }
  }

  lemma SmallMod(x: nat)
    requires x < WORD
    ensures x % WORD == x
  {
  }

  lemma AddMod(x: nat, y: nat, z: nat)
    requires x % WORD == y % WORD
    ensures (x + z % WORD) % WORD == (y + z) % WORD
  {
  }

  /** The test of the assertion: a 32-bit sum is below its first term exactly when it wrapped. */
  lemma WrappingAdd(x: nat, y: nat)
    requires x < WORD && y < WORD
    ensures if x + y < WORD then (x + y) % WORD == x + y else (x + y) % WORD < x
  {
    if x + y >= WORD {
      assert (x + y) % WORD == x + y - WORD;
    }
  }

  lemma TimesTenMod(x: nat)
    ensures x % WORD * 10 % WORD == x * 10 % WORD
  {
  }

  /** try_get_num as a function of the digits it finds. */
  ghost function Parse(s: seq<char>): Outcome
    requires AllDigits(s)
  {
    if s == [] then NoDigits
    else if |s| > PLACES then OutOfBounds
    else if PlaceSum(s, |s|) < WORD then Parsed(|s|, PlaceSum(s, |s|))
    else AssertionFails
  }

  /** The value is right exactly for one to eleven digits that write a 32-bit number. */
  lemma ParseRightIff(s: seq<char>)
    requires AllDigits(s)
    ensures Parse(s) == Parsed(|s|, Value(s)) <==> 0 < |s| <= PLACES && Value(s) < WORD
    ensures 0 < |s| <= PLACES ==> Parse(s) == AssertionFails || Parse(s) == Parsed(|s|, Value(s) % WORD)
  {
    WorthSumIsValue(s);
    PlaceSumMod(s, |s|);
    if Value(s) < WORD {
      PlaceSumExact(s, |s|);
    }
  }

  /** Reading back what pru32 wrote, whatever follows that is not a digit. */
  lemma RoundTrip(n: nat, rest: seq<char>)
    requires n < WORD && (rest == [] || !IsNum(rest[0]))
    ensures Leading(Digits(n) + rest) == |Digits(n)|
    ensures Parse(Digits(n)) == Parsed(|Digits(n)|, n)
  {
    var s := Digits(n);
    assert (s + rest)[..|s|] == s;
    LeadingIs(s + rest, |s|);
    TenDigits(n);
    ValueOfDigits(n);
    ParseRightIff(s);
  }

  lemma TenToTheTen()
    ensures Pow10(10) == 10000000000
  {
    assert Pow10(3) == 1000;
    assert Pow10(6) == 10 * (10 * (10 * Pow10(3)));
    assert Pow10(9) == 10 * (10 * (10 * Pow10(6)));
  }

  lemma OneAndZeros(s: seq<char>)
    requires |s| == 11 && AllDigits(s) && s[0] == '1' && forall i :: 0 < i < |s| ==> s[i] == '0'
    ensures Value(s) == 10000000000 && Parse(s) == Parsed(11, 1410065408)
  {
    WorthSumIsValue(s);
    ZerosWorthNothing(s, 11);
    TenToTheTen();
  }

  /** The assertion does not catch every overflow: ten thousand million is read as 1410065408. */
  lemma SilentWrap()
    ensures AllDigits("10000000000") && Value("10000000000") == 10000000000
    ensures Parse("10000000000") == Parsed(11, 1410065408)
  {
    OneAndZeros("10000000000");
  }

  lemma {:induction false} ZerosWorthNothing(s: seq<char>, k: nat)
    requires AllDigits(s) && 0 < k <= |s| && s[0] == '1'
    requires forall i :: 0 < i < |s| ==> s[i] == '0'
    ensures WorthSum(s, k) == Pow10(|s| - 1) && PlaceSum(s, k) == Pow10(|s| - 1) % WORD
  {
    if k > 1 {
      ZerosWorthNothing(s, k - 1);
    } else {
      assert WorthSum(s, 0) == 0 && PlaceSum(s, 0) == 0;
    }
  }

  /** One more digit: every place times ten, in 32 bits. */
  method Shift(places: array<nat>, ghost s: seq<char>, c: char)
    requires AllDigits(s) && |s| <= places.Length && IsNum(c)
    requires forall i :: 0 <= i < |s| ==> places[i] == Worth(s, i) % WORD
    modifies places
    ensures forall i :: 0 <= i < |s| ==> places[i] == Worth(s + [c], i) % WORD
  {
    for i := 0 to places.Length
      invariant forall j :: i <= j < |s| ==> places[j] == Worth(s, j) % WORD
      invariant forall j :: 0 <= j < i && j < |s| ==> places[j] == Worth(s + [c], j) % WORD
    {
      if i < |s| {
        TimesTenMod(Worth(s, i));
        WorthGrows(s, c, i);
      }
      places[i] := places[i] * 10 % WORD;
    }
  }

  /** try_get_num; initial is whatever the stack holds where places lies. */
  method TryGetNum(str: seq<char>, initial: seq<nat>) returns (out: Outcome)
    requires |initial| == PLACES
    requires exists k :: 0 <= k < |str| && !IsNum(str[k])
    ensures out == Parse(str[..Leading(str)])
  {
    var places := new nat[PLACES](i requires 0 <= i < |initial| => initial[i]);
    var idx := 0;
    ghost var n := Leading(str);
    ghost var s := str[..n];
    while IsNum(str[idx])
      invariant idx <= n < |str| && idx <= PLACES
      invariant forall i :: 0 <= i < idx ==> places[i] == Worth(s[..idx], i) % WORD
      decreases n - idx
    {
      assert s[..idx] + [str[idx]] == s[..idx + 1];
      Shift(places, s[..idx], str[idx]);
      if idx >= places.Length {
        return OutOfBounds;
      }
      places[idx] := Digit(str[idx]);
      assert Worth(s[..idx + 1], idx) == Digit(str[idx]) * Pow10(0);
      idx := idx + 1;
    }
    assert s[..idx] == s;
    if idx == 0 {
      return NoDigits;
    }
    var sum, ok := SumPlaces(places, idx, s);
    out := if ok then Parsed(idx, sum) else AssertionFails;
  }

  /** The second loop of try_get_num, with its assertion. */
  method SumPlaces(places: array<nat>, n: nat, ghost s: seq<char>) returns (sum: nat, ok: bool)
    requires AllDigits(s) && |s| == n <= places.Length
    requires forall i :: 0 <= i < n ==> places[i] == Worth(s, i) % WORD
    ensures ok <==> PlaceSum(s, n) < WORD
    ensures ok ==> sum == PlaceSum(s, n)
  {
    sum := 0;
    for i := 0 to n
      invariant sum == PlaceSum(s, i) < WORD
    {
      var prev := sum;
      WrappingAdd(sum, places[i]);
      sum := (sum + places[i]) % WORD;
      if sum < prev {
        PlaceSumMonotone(s, i + 1, n);
        return sum, false;
      }
    }
    ok := true;
  }

  lemma {:induction false} PlaceSumMonotone(s: seq<char>, j: nat, k: nat)
    requires AllDigits(s) && j <= k <= |s|
    ensures PlaceSum(s, j) <= PlaceSum(s, k)
  {
    if j < k {
      PlaceSumMonotone(s, j, k - 1);
    }
  }
}
