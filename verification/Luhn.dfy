/** The Luhn check (Annex B of ISO/IEC 7812-1), written three times in the repository. */
module Luhn {
  import opened Wrappers

  function Doubled(d: int): int { if 2 * d > 9 then 2 * d - 9 else 2 * d }

  /** A digit at position `i` from the right. */
  function Weighted(i: nat, d: int): int { if i % 2 == 1 then Doubled(d) else d }

  /** The weighted sum, the last digit standing at position `i` from the right. */
  function Sum(ds: seq<int>, i: nat): int {
    if ds == [] then 0 else Weighted(i, ds[|ds|-1]) + Sum(ds[..|ds|-1], i + 1)
  }

  predicate IsLuhn(ds: seq<int>) { Sum(ds, 0) % 10 == 0 }

  /** The weighted sum without the last `i` digits. */
  ghost function Rest(ds: seq<int>, i: nat): int
    requires i <= |ds|
  {
    Sum(ds[..|ds| - i], i)
  }

  lemma RestStep(ds: seq<int>, i: nat)
    requires i < |ds|
    ensures Rest(ds, i) == Weighted(i, ds[|ds| - 1 - i]) + Rest(ds, i + 1)
  {
    var k := |ds| - 1 - i;
    assert ds[..k+1][..k] == ds[..k];
  }

  lemma RestEnds(ds: seq<int>)
    ensures Rest(ds, 0) == Sum(ds, 0) && Rest(ds, |ds|) == 0
  {
    assert ds[..|ds|] == ds;
  }

  /** The Python form: over the reversed digits. */
  method LuhnCheck(digits: seq<int>) returns (ok: bool)
    requires AllDigits(digits)
    ensures ok <==> IsLuhn(digits)
  {
    var reversed := seq(|digits|, i requires 0 <= i < |digits| => digits[|digits| - 1 - i]);
    var checksum := 0;
    RestEnds(digits);
    for i := 0 to |reversed|
      invariant checksum + Rest(digits, i) == Sum(digits, 0)
    {
      RestStep(digits, i);
      var d := reversed[i];
      if i % 2 == 1 {
        d := d * 2;
        if d > 9 { d := d - 9; }
      }
      checksum := checksum + d;
    }
    ok := checksum % 10 == 0;
  }

  /** `replace(/\D/g, "")`, as digit values. */
  function DigitsOf(s: string): (ds: seq<int>)
    ensures AllDigits(ds)
  {
    if s == "" then []
    else (if '0' <= s[0] <= '9' then [s[0] as int - '0' as int] else []) + DigitsOf(s[1..])
  }

  /** The JavaScript form: indices counted from the end, and only 13 to 19 digits. */
  method LuhnFromEnd(numStr: string) returns (ok: bool)
    ensures ok <==> 13 <= |DigitsOf(numStr)| <= 19 && IsLuhn(DigitsOf(numStr))
  {
    var digits := DigitsOf(numStr);
    if |digits| < 13 || |digits| > 19 { return false; }
    var sum, i := 0, 0;
    RestEnds(digits);
    while i < |digits|
      invariant 0 <= i <= |digits|
      invariant sum + Rest(digits, i) == Sum(digits, 0)
    {
      RestStep(digits, i);
      var d := digits[|digits| - 1 - i];
      if i % 2 == 1 {
        d := d * 2;
        if d > 9 { d := d - 9; }
      }
      sum := sum + d;
      i := i + 1;
    }
    ok := sum % 10 == 0;
  }

  /** Both forms answer the same on every digit string of 13 to 19 digits. */
  method FormsAgree(digits: string) returns (python: bool, javascript: bool)
    requires 13 <= |digits| <= 19 && forall i :: 0 <= i < |digits| ==> '0' <= digits[i] <= '9'
    ensures python == javascript
    ensures python <==> IsLuhn(DigitsOf(digits))
  {
    DigitStringLength(digits);
    python := LuhnCheck(DigitsOf(digits));
    javascript := LuhnFromEnd(digits);
  }

  lemma {:induction false} DigitStringLength(s: string)
    requires forall i :: 0 <= i < |s| ==> '0' <= s[i] <= '9'
    ensures |DigitsOf(s)| == |s|
  {
    if s == "" {
    } else {
      DigitStringLength(s[1..]);
    }
  }

  // ----- what the sum is -----

  /** The doubled digit, cast out: the sum of the digits of its double. */
  lemma DoubledIsDigitSum(d: int)
    requires 0 <= d <= 9
    ensures Doubled(d) == (2 * d) / 10 + (2 * d) % 10
  {
  }

  /** Every second digit from the right is doubled, the last one is not. */
  lemma LastTwo(front: seq<int>, tens: int, ones: int, i: nat)
    requires 0 <= tens <= 9
    ensures Sum(front + [tens] + [ones], 0) == ones + (2 * tens) / 10 + (2 * tens) % 10 + Sum(front, 2)
    ensures i % 2 == 0 ==> Sum(front, i) == Sum(front, 0)
  {
    var all := front + [tens] + [ones];
    assert all[..|all|-1] == front + [tens] && (front + [tens])[..|front|] == front;
    DoubledIsDigitSum(tens);
    SumByParity(front, i, 0);
  }

  lemma {:induction false} SumByParity(ds: seq<int>, i: nat, j: nat)
    ensures i % 2 == j % 2 ==> Sum(ds, i) == Sum(ds, j)
  {
    if ds == [] {
    } else if i % 2 == j % 2 {
      SumByParity(ds[..|ds|-1], i + 1, j + 1);
    }
  }

  lemma {:induction false} SumOnes(n: nat, i: nat)
    ensures Sum(Ones(n), i) == n + (if i % 2 == 0 then n / 2 else (n + 1) / 2)
  {
    if n == 0 {
    } else {
      assert Ones(n)[..n-1] == Ones(n - 1);
      SumOnes(n - 1, i + 1);
    }
  }

  function Ones(n: nat): seq<int> { seq(n, _ => 1) }

  /** A published test number: 4 and fifteen times 1. */
  lemma TestCardIsLuhn()
    ensures IsLuhn([4] + Ones(15))
  {
    SumFirst(4, Ones(15), 0);
    SumOnes(15, 0);
  }

  lemma {:induction false} SumFirst(d: int, ds: seq<int>, i: nat)
    ensures Sum([d] + ds, i) == Weighted(i + |ds|, d) + Sum(ds, i)
  {
    if ds == [] {
      assert [d] + ds == [d] && [d][..0] == [];
    } else {
      assert ([d] + ds)[..|ds|] == [d] + ds[..|ds|-1];
      SumFirst(d, ds[..|ds|-1], i + 1);
    }
  }

  /** Digits are read one by one, everything else is skipped. */
  lemma {:induction false} DigitsRead(a: string, c: char, b: string)
    ensures DigitsOf(a + [c] + b) == DigitsOf(a) + (if '0' <= c <= '9' then [c as int - 48] else []) + DigitsOf(b)
    ensures DigitsOf("") == []
  {
    if a == "" {
      assert ([] + [c] + b)[1..] == b;
    } else {
      assert (a + [c] + b)[1..] == a[1..] + [c] + b;
      DigitsRead(a[1..], c, b);
    }
  }

  // ----- what the check detects -----

  /** One replaced digit moves the sum by the difference of its weights. */
  lemma {:induction false} SumUpdate(ds: seq<int>, i: nat, j: nat, d: int)
    requires j < |ds|
    ensures Sum(ds[j := d], i) - Sum(ds, i)
         == Weighted(i + |ds| - 1 - j, d) - Weighted(i + |ds| - 1 - j, ds[j])
  {
    var n := |ds| - 1;
    if j == n {
      assert ds[j := d][..n] == ds[..n];
    } else {
      assert ds[j := d][..n] == ds[..n][j := d];
      SumUpdate(ds[..n], i + 1, j, d);
    }
  }

  /** Every change of a single digit is detected. */
  lemma SingleChangeDetected(ds: seq<int>, j: nat, d: int)
    requires AllDigits(ds) && IsLuhn(ds) && j < |ds| && 0 <= d <= 9 && d != ds[j]
    ensures !IsLuhn(ds[j := d])
  {
    SumUpdate(ds, 0, j, d);
    var i := |ds| - 1 - j;
    ShiftModulo(Sum(ds, 0), Weighted(i, d) - Weighted(i, ds[j]));
    assert -9 <= Weighted(i, d) - Weighted(i, ds[j]) <= 9 && Weighted(i, d) != Weighted(i, ds[j]);
  }

  /** Swapping neighbours is detected unless they are equal, or a 0 and a 9. */
  lemma SwapDetected(ds: seq<int>, j: nat)
    requires AllDigits(ds) && j + 1 < |ds| && IsLuhn(ds)
    ensures IsLuhn(ds[j := ds[j+1]][j+1 := ds[j]]) <==>
            ds[j] == ds[j+1] || (ds[j] == 0 && ds[j+1] == 9) || (ds[j] == 9 && ds[j+1] == 0)
  {
    var a, b, i := ds[j], ds[j+1], |ds| - 2 - j;
    var half := ds[j := b];
    SumUpdate(ds, 0, j, b);
    SumUpdate(half, 0, j + 1, a);
    var moved := Weighted(i + 1, b) - Weighted(i + 1, a) + Weighted(i, a) - Weighted(i, b);
    assert Sum(half[j+1 := a], 0) == Sum(ds, 0) + moved;
    ShiftModulo(Sum(ds, 0), moved);
    Moved(a, b, i);
  }

  lemma ShiftModulo(sum: int, moved: int)
    requires sum % 10 == 0
    ensures (sum + moved) % 10 == moved % 10
  {
    var q := sum / 10;
    assert sum == 10 * q;
  }

  lemma Moved(a: int, b: int, i: nat)
    requires 0 <= a <= 9 && 0 <= b <= 9
    ensures var moved := Weighted(i + 1, b) - Weighted(i + 1, a) + Weighted(i, a) - Weighted(i, b);
            moved % 10 == 0 <==> a == b || (a == 0 && b == 9) || (a == 9 && b == 0)
  {
    var gain := (d: int) => Doubled(d) - d;
    assert gain(0) == 0 && gain(1) == 1 && gain(2) == 2 && gain(3) == 3 && gain(4) == 4;
    assert gain(5) == -4 && gain(6) == -3 && gain(7) == -2 && gain(8) == -1 && gain(9) == 0;
    var moved := Weighted(i + 1, b) - Weighted(i + 1, a) + Weighted(i, a) - Weighted(i, b);
    assert moved == if i % 2 == 0 then gain(b) - gain(a) else gain(a) - gain(b);
  }

  lemma SumWithLast(prefix: seq<int>, d: int)
    ensures Sum(prefix + [d], 0) == d + Sum(prefix, 1)
  {
    assert (prefix + [d])[..|prefix|] == prefix;
  }

  predicate Completes(x: int, d: int) { (d + x) % 10 == 0 }

  lemma CompletingDigit(x: int) returns (d: int)
    ensures 0 <= d <= 9 && Completes(x, d)
    ensures forall e :: 0 <= e <= 9 && Completes(x, e) ==> e == d
  {
    d := (-x) % 10;
    var q := (-x) / 10;
    assert d + x == 10 * (-q);
    forall e | 0 <= e <= 9 && Completes(x, e) ensures e == d {
      assert e - d == 10 * ((e + x) / 10 + q);
    }
  }

  /** Exactly one last digit completes any prefix. */
  lemma CheckDigitUnique(prefix: seq<int>) returns (d: int)
    requires AllDigits(prefix)
    ensures 0 <= d <= 9 && IsLuhn(prefix + [d])
    ensures forall e :: 0 <= e <= 9 && IsLuhn(prefix + [e]) ==> e == d
  {
    d := CompletingDigit(Sum(prefix, 1));
    SumWithLast(prefix, d);
    forall e | 0 <= e <= 9 && IsLuhn(prefix + [e]) ensures e == d {
      SumWithLast(prefix, e);
      assert Completes(Sum(prefix, 1), e);
    }
  }
}
