/** `_iban_mod97_check`: ISO 13616-1 with the MOD 97-10 system of ISO/IEC 7064. */
module Iban {
  import opened Wrappers

  predicate IsDigit(c: char) { '0' <= c <= '9' }

  predicate IsLetter(c: char) { 'A' <= c <= 'Z' }

  predicate AlphaNumeric(s: string) { forall i :: 0 <= i < |s| ==> IsDigit(s[i]) || IsLetter(s[i]) }

  /** A=10 .. Z=35 */
  function Value(c: char): int
    requires IsDigit(c) || IsLetter(c)
  {
    if IsDigit(c) then c as int - '0' as int else c as int - 'A' as int + 10
  }

  predicate SameKind(c: char, d: char) { (IsDigit(c) && IsDigit(d)) || (IsLetter(c) && IsLetter(d)) }

  // ----- decimal strings, as digit sequences -----

  /** `int(s)` */
  function Number(ds: seq<int>): int {
    if ds == [] then 0 else 10 * Number(ds[..|ds|-1]) + ds[|ds|-1]
  }

  /** `str(n)` */
  function Decimal(n: nat): seq<int> {
    if n < 10 then [n] else Decimal(n / 10) + [n % 10]
  }

  lemma NumberAppend(front: seq<int>, d: int)
    ensures Number(front + [d]) == 10 * Number(front) + d
  {
    assert (front + [d])[..|front|] == front;
  }

  /** `int(str(n)) == n` */
  lemma {:induction false} NumberOfDecimal(n: nat)
    ensures AllDigits(Decimal(n)) && Number(Decimal(n)) == n
  {
    if n < 10 {
      NumberAppend([], n);
      assert [] + [n] == [n];
    } else {
      NumberOfDecimal(n / 10);
      NumberAppend(Decimal(n / 10), n % 10);
    }
  }

  /** The converted text: a digit stays, a letter becomes its two-digit value. */
  function Converted(s: string): (ds: seq<int>)
    requires AlphaNumeric(s)
    ensures AllDigits(ds)
  {
    if s == "" then []
    else
      var v := Value(s[|s|-1]);
      Converted(s[..|s|-1]) + if IsDigit(s[|s|-1]) then [v] else [v / 10, v % 10]
  }

  function Rearranged(iban: string): string
    requires |iban| >= 4
  {
    iban[4..] + iban[..4]
  }

  predicate LeavesOne(n: int) { n % 97 == 1 }

  /** The standard's test, on the whole number. */
  predicate Accepted(iban: string) {
    && 15 <= |iban| <= 34
    && AlphaNumeric(Rearranged(iban))
    && LeavesOne(Number(Converted(Rearranged(iban))))
  }

  // ----- the code -----

  /** Python's `str.upper` and `str.isdigit`, character by character, and the value that
      `int` gives a digit: None for one that is not decimal, such as a superscript. */
  datatype Unicode = Unicode(upper: char -> string, isDigit: char -> bool, decimal: char -> Option<int>)

  /** All the model assumes of them: what they do to ASCII, and that decimals are digits 0 to 9. */
  ghost predicate IsUnicode(u: Unicode) {
    && (forall c: char :: c as int < 128 ==> u.upper(c) == [Upper(c)] && (u.isDigit(c) <==> IsDigit(c)))
    && (forall c: char :: IsDigit(c) ==> u.decimal(c) == Some(Value(c)))
    && (forall c: char :: u.decimal(c).Some? ==> 0 <= u.decimal(c).value <= 9)
  }

  predicate Ascii(s: string) { forall i :: 0 <= i < |s| ==> s[i] as int < 128 }

  function Upper(c: char): char
    requires c as int < 128
  {
    if 'a' <= c <= 'z' then (c as int - 32) as char else c
  }

  /** `replace(" ", "").upper()` */
  function Normalized(u: Unicode, s: string): string {
    if s == "" then "" else (if s[0] == ' ' then "" else u.upper(s[0])) + Normalized(u, s[1..])
  }

  lemma {:induction false} NormalizedAppend(u: Unicode, a: string, b: string)
    ensures Normalized(u, a + b) == Normalized(u, a) + Normalized(u, b)
  {
    if a == "" {
      assert a + b == b;
    } else {
      assert (a + b)[1..] == a[1..] + b;
      NormalizedAppend(u, a[1..], b);
    }
  }

  lemma NormalizedMiddle(u: Unicode, a: string, m: string, b: string)
    ensures Normalized(u, a + m + b) == Normalized(u, a) + Normalized(u, m) + Normalized(u, b)
  {
    NormalizedAppend(u, a, m);
    NormalizedAppend(u, a + m, b);
  }

  lemma NormalizedOne(u: Unicode, c: char)
    ensures Normalized(u, [c]) == if c == ' ' then "" else u.upper(c)
  {
    assert [c][1..] == "";
  }

  lemma SameInContext(u: Unicode, a: string, c: char, d: char, b: string)
    requires Normalized(u, [c]) == Normalized(u, [d])
    ensures Normalized(u, a + [c] + b) == Normalized(u, a + [d] + b)
  {
    NormalizedMiddle(u, a, [c], b);
    NormalizedMiddle(u, a, [d], b);
  }

  lemma BlankInContext(u: Unicode, a: string, b: string)
    ensures Normalized(u, a + [' '] + b) == Normalized(u, a + b)
  {
    NormalizedOne(u, ' ');
    NormalizedMiddle(u, a, [' '], b);
    NormalizedAppend(u, a, b);
  }

  /** Blanks and the case of ASCII letters make no difference to the check. */
  lemma BlanksAndCase(u: Unicode, a: string, c: char, b: string)
    requires IsUnicode(u) && c as int < 128
    ensures Normalized(u, a + [' '] + b) == Normalized(u, a + b)
    ensures Normalized(u, a + [c] + b) == Normalized(u, a + [Upper(c)] + b)
  {
    BlankInContext(u, a, b);
    NormalizedOne(u, c);
    NormalizedOne(u, Upper(c));
    SameInContext(u, a, c, Upper(c), b);
  }

  /** The characters that the letter loop takes. */
  predicate Convertible(u: Unicode, s: string) {
    forall i :: 0 <= i < |s| ==> u.isDigit(s[i]) || IsLetter(s[i])
  }

  /** What the letter loop appends for one character, as digits; None is one that `int` rejects. */
  function CharDigits(u: Unicode, c: char): seq<Option<int>>
    requires u.isDigit(c) || IsLetter(c)
  {
    if u.isDigit(c) then [u.decimal(c)] else [Some(Value(c) / 10), Some(Value(c) % 10)]
  }

  function TextDigits(u: Unicode, s: string): seq<Option<int>>
    requires Convertible(u, s)
  {
    if s == "" then [] else TextDigits(u, s[..|s|-1]) + CharDigits(u, s[|s|-1])
  }

  predicate AllRead(ds: seq<Option<int>>) { forall i :: 0 <= i < |ds| ==> ds[i].Some? }

  function Values(ds: seq<Option<int>>): (vs: seq<int>)
    requires AllRead(ds)
    ensures |vs| == |ds| && forall i :: 0 <= i < |ds| ==> vs[i] == ds[i].value
  {
    seq(|ds|, i requires 0 <= i < |ds| => ds[i].value)
  }

  /** The check on a normalized text: None is the ValueError of `int`. */
  function Checked(u: Unicode, iban: string): Option<bool> {
    if |iban| < 15 || |iban| > 34 || !Convertible(u, Rearranged(iban)) then Some(false)
    else
      var ds := TextDigits(u, Rearranged(iban));
      if AllRead(ds) then Some(LeavesOne(Number(Values(ds)))) else None
  }

  /** Every digit is one that `int` takes. */
  predicate DecimalDigits(u: Unicode, s: string) {
    forall i :: 0 <= i < |s| && u.isDigit(s[i]) ==> u.decimal(s[i]).Some?
  }

  lemma {:induction false} ReadIffDecimal(u: Unicode, s: string)
    requires Convertible(u, s)
    ensures AllRead(TextDigits(u, s)) <==> DecimalDigits(u, s)
  {
    if s == "" {
    } else {
      var n := |s| - 1;
      var front, last := TextDigits(u, s[..n]), CharDigits(u, s[n]);
      ReadIffDecimal(u, s[..n]);
      AllReadAppend(front, last);
      assert s == s[..n] + [s[n]];
      assert u.isDigit(s[n]) ==> last[0] == u.decimal(s[n]);
    }
  }

  lemma AllReadAppend(a: seq<Option<int>>, b: seq<Option<int>>)
    ensures AllRead(a + b) <==> AllRead(a) && AllRead(b)
  {
    assert AllRead(a + b) ==> forall i :: 0 <= i < |a| ==> a[i] == (a + b)[i];
    assert AllRead(a + b) ==> forall i :: 0 <= i < |b| ==> b[i] == (a + b)[|a| + i];
  }

  lemma RearrangedChars(iban: string)
    requires |iban| >= 4
    ensures forall c :: c in iban <==> c in Rearranged(iban)
  {
    assert iban == iban[..4] + iban[4..];
  }

  /** The check raises exactly on texts of legal length and characters with a digit that is not
      decimal; its caller hands it matches of a pattern whose digits are decimal. */
  lemma RaisesIff(u: Unicode, iban: string)
    ensures Checked(u, iban).None? <==>
            15 <= |iban| <= 34 && Convertible(u, iban) && !DecimalDigits(u, iban)
  {
    if 15 <= |iban| <= 34 {
      var r := Rearranged(iban);
      RearrangedChars(iban);
      SameKinds(u, iban, r);
      SameKinds(u, r, iban);
      if Convertible(u, r) { ReadIffDecimal(u, r); }
    }
  }

  lemma SameKinds(u: Unicode, s: string, r: string)
    requires forall c :: c in s ==> c in r
    ensures Convertible(u, r) ==> Convertible(u, s)
    ensures DecimalDigits(u, r) ==> DecimalDigits(u, s)
  {
    assert forall i :: 0 <= i < |s| ==> s[i] in r;
  }

  /** A superscript two is such a digit. */
  lemma SuperscriptRaises(u: Unicode, c: char)
    requires IsUnicode(u) && u.isDigit(c) && u.decimal(c).None?
    ensures Checked(u, "DE0000000000000" + [c]).None?
  {
    var iban := "DE0000000000000" + [c];
    assert iban[15] == c;
    RaisesIff(u, iban);
  }

  lemma {:induction false} TextDigitsOfAscii(u: Unicode, s: string)
    requires IsUnicode(u) && AlphaNumeric(s)
    ensures Convertible(u, s) && AllRead(TextDigits(u, s)) && Values(TextDigits(u, s)) == Converted(s)
  {
    if s == "" {
    } else {
      TextDigitsOfAscii(u, s[..|s|-1]);
    }
  }

  /** On ASCII the check never raises, and accepts what the standard accepts. */
  lemma CheckedIsAccepted(u: Unicode, iban: string)
    requires IsUnicode(u) && Ascii(iban)
    ensures Checked(u, iban) == Some(Accepted(iban))
  {
    if 15 <= |iban| <= 34 {
      var r := Rearranged(iban);
      assert Ascii(r);
      if AlphaNumeric(r) {
        TextDigitsOfAscii(u, r);
      }
    }
  }

  lemma {:induction false} NormalizedAscii(u: Unicode, s: string)
    requires IsUnicode(u) && Ascii(s)
    ensures Ascii(Normalized(u, s))
  {
    if s == "" {
    } else {
      NormalizedAscii(u, s[1..]);
    }
  }

  /** Replacing the front of a number by its remainder changes nothing modulo 97. */
  lemma {:induction false} FrontModulo(front: seq<int>, other: seq<int>, chunk: seq<int>)
    requires Number(front) % 97 == Number(other) % 97
    ensures Number(front + chunk) % 97 == Number(other + chunk) % 97
  {
    if chunk == [] {
      assert front + chunk == front && other + chunk == other;
    } else {
      var n := |chunk| - 1;
      assert (front + chunk)[..|front| + n] == front + chunk[..n];
      assert (other + chunk)[..|other| + n] == other + chunk[..n];
      FrontModulo(front, other, chunk[..n]);
      NextDigitModulo(Number(front + chunk[..n]), Number(other + chunk[..n]), chunk[n]);
    }
  }

  lemma NextDigitModulo(x: int, y: int, d: int)
    requires x % 97 == y % 97
    ensures (10 * x + d) % 97 == (10 * y + d) % 97
  {
    var q := x / 97 - y / 97;
    assert x == y + 97 * q;
    assert 10 * x + d == 10 * y + d + 97 * (10 * q);
  }

  /** The letter loop; `ok` is false when another character stopped it. */
  method Convert(u: Unicode, rearranged: string) returns (ok: bool, converted: seq<Option<int>>)
    ensures ok <==> Convertible(u, rearranged)
    ensures ok ==> converted == TextDigits(u, rearranged)
  {
    converted := [];
    for i := 0 to |rearranged|
      invariant Convertible(u, rearranged[..i])
      invariant converted == TextDigits(u, rearranged[..i])
    {
      var ch := rearranged[i];
      assert rearranged[..i+1][..i] == rearranged[..i] && rearranged[..i+1][i] == ch;
      if u.isDigit(ch) {
        converted := converted + [u.decimal(ch)];
      } else if IsLetter(ch) {
        converted := converted + [Some(Value(ch) / 10), Some(Value(ch) % 10)];
      } else {
        return false, converted;
      }
    }
    assert rearranged[..|rearranged|] == rearranged;
    ok := true;
  }

  lemma NextChunk(ds: seq<Option<int>>, start: nat, end: nat, remainder: nat)
    requires start <= end <= |ds| && AllRead(ds[..start]) && AllRead(ds[start..end])
    requires remainder == Number(Values(ds[..start])) % 97
    ensures AllRead(ds[..end])
    ensures Number(Decimal(remainder) + Values(ds[start..end])) % 97 == Number(Values(ds[..end])) % 97
  {
    NumberOfDecimal(remainder);
    FrontModulo(Decimal(remainder), Values(ds[..start]), Values(ds[start..end]));
    assert ds[..end] == ds[..start] + ds[start..end];
    ValuesAppend(ds[..start], ds[start..end]);
  }

  lemma ValuesAppend(a: seq<Option<int>>, b: seq<Option<int>>)
    requires AllRead(a) && AllRead(b)
    ensures AllRead(a + b) && Values(a + b) == Values(a) + Values(b)
  {
  }

  /** The chunk loop: the remainder of the whole number, nine digits at a time, or None when
      `int` meets a digit that is not decimal. */
  method Remainder(converted: seq<Option<int>>) returns (remainder: Option<nat>)
    ensures remainder == if AllRead(converted) then Some(Number(Values(converted)) % 97) else None
  {
    var start, rest := 0, 0;
    while start < |converted|
      invariant 0 <= start && 0 <= rest < 97
      invariant AllRead(converted[..if start < |converted| then start else |converted|])
      invariant rest == Number(Values(converted[..if start < |converted| then start else |converted|])) % 97
    {
      var end := if start + 9 < |converted| then start + 9 else |converted|;
      var chunk := converted[start..end];
      if !AllRead(chunk) {
        assert forall i :: 0 <= i < |chunk| ==> chunk[i] == converted[start + i];
        return None;
      }
      NextChunk(converted, start, end, rest);
      rest := Number(Decimal(rest) + Values(chunk)) % 97;
      start := start + 9;
    }
    assert converted[..|converted|] == converted;
    remainder := Some(rest);
  }

  method Mod97Check(u: Unicode, ibanAlnum: string) returns (ok: Option<bool>)
    ensures ok == Checked(u, Normalized(u, ibanAlnum))
    ensures IsUnicode(u) && Ascii(ibanAlnum) ==> ok == Some(Accepted(Normalized(u, ibanAlnum)))
  {
    var iban := Normalized(u, ibanAlnum);
    ghost var ascii := IsUnicode(u) && Ascii(ibanAlnum);
    if ascii {
      NormalizedAscii(u, ibanAlnum);
      CheckedIsAccepted(u, iban);
    }
    if |iban| < 15 || |iban| > 34 { return Some(false); }
    var letters, converted := Convert(u, iban[4..] + iban[..4]);
    if !letters { return Some(false); }
    var remainder := Remainder(converted);
    if remainder.None? { return None; }
    ok := Some(remainder.value == 1);
  }

  lemma SameCharacters(iban: string)
    requires |iban| >= 4
    ensures AlphaNumeric(iban) <==> AlphaNumeric(Rearranged(iban))
  {
    var r := Rearranged(iban);
    assert forall i :: 0 <= i < 4 ==> iban[i] == r[|iban| - 4 + i];
    assert forall i :: 4 <= i < |iban| ==> iban[i] == r[i - 4];
    assert forall i :: 0 <= i < |iban| - 4 ==> r[i] == iban[i + 4];
    assert forall i :: |iban| - 4 <= i < |iban| ==> r[i] == iban[i + 4 - |iban|];
  }

  // ----- what the check detects -----

  function Base(c: char): int { if IsDigit(c) then 10 else 100 }

  /** The converted number, character by character. */
  function Weight(s: string): int
    requires AlphaNumeric(s)
  {
    if s == "" then 0 else Base(s[|s|-1]) * Weight(s[..|s|-1]) + Value(s[|s|-1])
  }

  lemma {:induction false} WeightIsNumber(s: string)
    requires AlphaNumeric(s)
    ensures Weight(s) == Number(Converted(s))
  {
    if s == "" {
    } else {
      var front, v := Converted(s[..|s|-1]), Value(s[|s|-1]);
      WeightIsNumber(s[..|s|-1]);
      if IsDigit(s[|s|-1]) {
        assert (front + [v])[..|front|] == front;
      } else {
        var tens := front + [v / 10];
        assert tens[..|front|] == front;
        assert (front + [v / 10, v % 10])[..|front| + 1] == tens;
      }
    }
  }

  /** 97 divides no multiple of 10 or 100 that it does not divide without the factor. */
  lemma TenIsInvertible(x: int)
    requires x % 97 != 0
    ensures (10 * x) % 97 != 0 && (100 * x) % 97 != 0
  {
    TenOnce(x);
    TenOnce(10 * x);
  }

  lemma TenOnce(x: int)
    requires x % 97 != 0
    ensures (10 * x) % 97 != 0
  {
    if (10 * x) % 97 == 0 {
      var q := (10 * x) / 97;
      assert x == 97 * (68 * q - 7 * x);
      MultipleOf97(68 * q - 7 * x);
    }
  }

  lemma MultipleOf97(k: int)
    ensures (97 * k) % 97 == 0
  {
  }

  /** A difference survives a common last character. */
  lemma SameLast(s: string, t: string)
    requires |s| == |t| > 0 && AlphaNumeric(s) && AlphaNumeric(t) && s[|s|-1] == t[|t|-1]
    requires (Weight(t[..|t|-1]) - Weight(s[..|s|-1])) % 97 != 0
    ensures (Weight(t) - Weight(s)) % 97 != 0
  {
    var x, y := Weight(s[..|s|-1]), Weight(t[..|t|-1]);
    TenIsInvertible(y - x);
    assert Weight(t) - Weight(s) == if IsDigit(s[|s|-1]) then 10 * (y - x) else 100 * (y - x);
  }

  lemma {:induction false} ChangeMoves(s: string, j: nat, c: char)
    requires AlphaNumeric(s) && j < |s| && SameKind(s[j], c) && c != s[j]
    ensures AlphaNumeric(s[j := c]) && (Weight(s[j := c]) - Weight(s)) % 97 != 0
  {
    var n, t := |s| - 1, s[j := c];
    if j == n {
      assert t[..n] == s[..n];
    } else {
      assert t[..n] == s[..n][j := c];
      ChangeMoves(s[..n], j, c);
      SameLast(s, t);
    }
  }

  /** The two characters at `j` and `j + 1` exchanged. */
  function Swapped(s: string, j: nat): string
    requires j + 1 < |s|
  {
    s[j := s[j+1]][j+1 := s[j]]
  }

  lemma {:induction false} SwapMoves(s: string, j: nat)
    requires AlphaNumeric(s) && j + 1 < |s| && SameKind(s[j], s[j+1]) && s[j] != s[j+1]
    ensures AlphaNumeric(Swapped(s, j)) && (Weight(Swapped(s, j)) - Weight(s)) % 97 != 0
  {
    var n, t := |s| - 1, Swapped(s, j);
    if j + 1 == n {
      SwapAtEnd(s[..j], s[j], s[j+1]);
      assert s == s[..j] + [s[j], s[j+1]] && t == s[..j] + [s[j+1], s[j]];
    } else {
      assert t[..n] == Swapped(s[..n], j);
      SwapMoves(s[..n], j);
      SameLast(s, t);
    }
  }

  lemma SwapAtEnd(front: string, c: char, d: char)
    requires AlphaNumeric(front) && SameKind(c, d) && c != d
    ensures AlphaNumeric(front + [c, d]) && AlphaNumeric(front + [d, c])
    ensures (Weight(front + [d, c]) - Weight(front + [c, d])) % 97 != 0
  {
    TwoAtEnd(front, c, d);
    TwoAtEnd(front, d, c);
    var delta := Value(d) - Value(c);
    assert Weight(front + [d, c]) - Weight(front + [c, d]) == if IsDigit(c) then 9 * delta else 99 * delta;
    SwapDelta(delta);
  }

  lemma SwapDelta(delta: int)
    requires delta != 0
    ensures -9 <= delta <= 9 ==> (9 * delta) % 97 != 0
    ensures -25 <= delta <= 25 ==> (99 * delta) % 97 != 0
  {
    var twice := 2 * delta;
    assert 99 * delta == 97 * delta + twice;
    assert (99 * delta) % 97 == twice % 97;
  }

  lemma TwoAtEnd(front: string, c: char, d: char)
    requires AlphaNumeric(front) && (IsDigit(c) || IsLetter(c)) && (IsDigit(d) || IsLetter(d))
    ensures AlphaNumeric(front + [c, d])
    ensures Weight(front + [c, d]) == Base(d) * (Base(c) * Weight(front) + Value(c)) + Value(d)
  {
    var s := front + [c, d];
    assert s[..|s|-1] == front + [c] && (front + [c])[..|front|] == front;
  }

  lemma RearrangedUpdate(iban: string, j: nat, c: char) returns (k: nat)
    requires 4 <= |iban| && j < |iban|
    ensures k < |iban| && Rearranged(iban)[k] == iban[j]
    ensures Rearranged(iban[j := c]) == Rearranged(iban)[k := c]
  {
    k := if j < 4 then |iban| - 4 + j else j - 4;
  }

  /** Two accepted numbers differ by a multiple of 97. */
  lemma BothAccepted(x: int, y: int)
    requires x % 97 == 1 && y % 97 == 1
    ensures (y - x) % 97 == 0
  {
    assert y - x == 97 * (y / 97 - x / 97);
    MultipleOf97(y / 97 - x / 97);
  }

  /** Replacing one character of an accepted IBAN by another of the same kind is detected. */
  lemma SingleChangeDetected(iban: string, j: nat, c: char)
    requires Accepted(iban) && j < |iban| && SameKind(iban[j], c) && c != iban[j]
    ensures !Accepted(iban[j := c])
  {
    var r := Rearranged(iban);
    var k := RearrangedUpdate(iban, j, c);
    ChangeMoves(r, k, c);
    WeightIsNumber(r);
    WeightIsNumber(r[k := c]);
    if Accepted(iban[j := c]) {
      BothAccepted(Weight(r), Weight(r[k := c]));
    }
  }

  /** Swapping two different neighbours of one kind in the rearranged text is detected. */
  lemma SwapDetected(iban: string, other: string, j: nat)
    requires Accepted(iban) && |other| == |iban| && j + 1 < |iban|
    requires var r := Rearranged(iban);
             SameKind(r[j], r[j+1]) && r[j] != r[j+1] && Rearranged(other) == Swapped(r, j)
    ensures !Accepted(other)
  {
    var r := Rearranged(iban);
    SwapMoves(r, j);
    WeightIsNumber(r);
    WeightIsNumber(Swapped(r, j));
    if Accepted(other) {
      BothAccepted(Weight(r), Weight(Swapped(r, j)));
    }
  }

  // ----- the values of the letters, and published examples -----

  /** A=10, and each next letter one more, up to Z=35. */
  lemma LetterValues(c: char)
    requires IsLetter(c)
    ensures Value('A') == 10 && Value('Z') == 35
    ensures c != 'Z' ==> Value((c as int + 1) as char) == Value(c) + 1
    ensures forall d :: IsDigit(d) ==> d == ['0', '1', '2', '3', '4', '5', '6', '7', '8', '9'][Value(d)]
  {
  }

  /** The converted number of a text. */
  ghost predicate WeighsAs(s: string, w: int) { AlphaNumeric(s) && Weight(s) == w }

  lemma NextWeight(front: string, c: char, w: int) returns (s: string)
    requires WeighsAs(front, w) && (IsDigit(c) || IsLetter(c))
    ensures s == front + [c] && WeighsAs(s, if IsDigit(c) then 10 * w + Value(c) else 100 * w + Value(c))
  {
    s := front + [c];
    assert s[..|front|] == front;
  }

  lemma NothingWeighs()
    ensures WeighsAs("", 0)
  {
  }

  lemma BritishWeight1()
    ensures WeighsAs("WEST12", 3_214_282_912)
  {
    NothingWeighs();
    var s := "";
    s := NextWeight(s, 'W', 0);
    s := NextWeight(s, 'E', 32);
    s := NextWeight(s, 'S', 3_214);
    s := NextWeight(s, 'T', 321_428);
    s := NextWeight(s, '1', 32_142_829);
    s := NextWeight(s, '2', 321_428_291);
    assert s == "WEST12";
  }

  lemma BritishWeight2()
    ensures WeighsAs("WEST12345698", 3_214_282_912_345_698)
  {
    BritishWeight1();
    var s := "WEST12";
    s := NextWeight(s, '3', 3_214_282_912);
    s := NextWeight(s, '4', 32_142_829_123);
    s := NextWeight(s, '5', 321_428_291_234);
    s := NextWeight(s, '6', 3_214_282_912_345);
    s := NextWeight(s, '9', 32_142_829_123_456);
    s := NextWeight(s, '8', 321_428_291_234_569);
    assert s == "WEST12345698";
  }

  lemma BritishWeight3()
    ensures WeighsAs("WEST12345698765432", 3_214_282_912_345_698_765_432)
  {
    BritishWeight2();
    var s := "WEST12345698";
    s := NextWeight(s, '7', 3_214_282_912_345_698);
    s := NextWeight(s, '6', 32_142_829_123_456_987);
    s := NextWeight(s, '5', 321_428_291_234_569_876);
    s := NextWeight(s, '4', 3_214_282_912_345_698_765);
    s := NextWeight(s, '3', 32_142_829_123_456_987_654);
    s := NextWeight(s, '2', 321_428_291_234_569_876_543);
    assert s == "WEST12345698765432";
  }

  lemma BritishWeight4()
    ensures WeighsAs("WEST12345698765432GB82", 3_214_282_912_345_698_765_432_161_182)
  {
    BritishWeight3();
    var s := "WEST12345698765432";
    s := NextWeight(s, 'G', 3_214_282_912_345_698_765_432);
    s := NextWeight(s, 'B', 321_428_291_234_569_876_543_216);
    s := NextWeight(s, '8', 32_142_829_123_456_987_654_321_611);
    s := NextWeight(s, '2', 321_428_291_234_569_876_543_216_118);
    assert s == "WEST12345698765432GB82";
  }

  lemma NorwegianWeight1()
    ensures WeighsAs("86011", 86_011)
  {
    NothingWeighs();
    var s := "";
    s := NextWeight(s, '8', 0);
    s := NextWeight(s, '6', 8);
    s := NextWeight(s, '0', 86);
    s := NextWeight(s, '1', 860);
    s := NextWeight(s, '1', 8_601);
    assert s == "86011";
  }

  lemma NorwegianWeight2()
    ensures WeighsAs("8601111794", 8_601_111_794)
  {
    NorwegianWeight1();
    var s := "86011";
    s := NextWeight(s, '1', 86_011);
    s := NextWeight(s, '1', 860_111);
    s := NextWeight(s, '7', 8_601_111);
    s := NextWeight(s, '9', 86_011_117);
    s := NextWeight(s, '4', 860_111_179);
    assert s == "8601111794";
  }

  lemma NorwegianWeight3()
    ensures WeighsAs("86011117947NO93", 86_011_117_947_232_493)
  {
    NorwegianWeight2();
    var s := "8601111794";
    s := NextWeight(s, '7', 8_601_111_794);
    s := NextWeight(s, 'N', 86_011_117_947);
    s := NextWeight(s, 'O', 8_601_111_794_723);
    s := NextWeight(s, '9', 860_111_179_472_324);
    s := NextWeight(s, '3', 8_601_111_794_723_249);
    assert s == "86011117947NO93";
  }

  /** The British example of the IBAN registry. */
  lemma BritishIsAccepted(u: Unicode)
    requires IsUnicode(u)
    ensures Checked(u, "GB82WEST12345698765432") == Some(true)
  {
    var iban := "GB82WEST12345698765432";
    BritishWeight4();
    assert Rearranged(iban) == "WEST12345698765432GB82";
    WeightIsNumber(Rearranged(iban));
    CheckedIsAccepted(u, iban);
  }

  lemma NormalizedNext(u: Unicode, front: string, c: char)
    requires IsUnicode(u) && c as int < 128 && c != ' '
    ensures Normalized(u, front + [c]) == Normalized(u, front) + [Upper(c)]
  {
    NormalizedAppend(u, front, [c]);
    NormalizedOne(u, c);
  }

  /** A group of four, or of three. */
  lemma NormalizedGroup(u: Unicode, a: char, b: char, c: char, d: char)
    requires IsUnicode(u) && a as int < 128 && b as int < 128 && c as int < 128 && d as int < 128
    requires a != ' ' && b != ' ' && c != ' ' && d != ' '
    ensures Normalized(u, [a, b, c, d]) == [Upper(a), Upper(b), Upper(c), Upper(d)]
    ensures Normalized(u, [a, b, c]) == [Upper(a), Upper(b), Upper(c)]
  {
    NormalizedOne(u, a);
    NormalizedNext(u, [a], b);
    NormalizedNext(u, [a] + [b], c);
    NormalizedNext(u, [a] + [b] + [c], d);
    assert [a] + [b] + [c] == [a, b, c] && [a] + [b] + [c] + [d] == [a, b, c, d];
  }

  /** Two groups with a blank in between. */
  lemma NormalizedSpaced(u: Unicode, x: string, y: string)
    ensures Normalized(u, x + " " + y) == Normalized(u, x) + Normalized(u, y)
  {
    BlankInContext(u, x, y);
    NormalizedAppend(u, x, y);
  }

  lemma NorwegianFront(u: Unicode)
    requires IsUnicode(u)
    ensures Normalized(u, "no93 8601") == "NO938601"
  {
    NormalizedGroup(u, 'n', 'o', '9', '3');
    NormalizedGroup(u, '8', '6', '0', '1');
    NormalizedSpaced(u, "no93", "8601");
    assert "no93" + " " + "8601" == "no93 8601";
  }

  lemma NorwegianBack(u: Unicode)
    requires IsUnicode(u)
    ensures Normalized(u, "1117 947") == "1117947"
  {
    NormalizedGroup(u, '1', '1', '1', '7');
    NormalizedGroup(u, '9', '4', '7', '9');
    NormalizedSpaced(u, "1117", "947");
    assert "1117" + " " + "947" == "1117 947";
  }

  lemma NorwegianNormalized(u: Unicode)
    requires IsUnicode(u)
    ensures Normalized(u, "no93 8601 1117 947") == "NO9386011117947"
  {
    NorwegianFront(u);
    NorwegianBack(u);
    NormalizedSpaced(u, "no93 8601", "1117 947");
    assert "no93 8601" + " " + "1117 947" == "no93 8601 1117 947";
  }

  /** The Norwegian one, in lower case and in groups. */
  lemma NorwegianIsAccepted(u: Unicode)
    requires IsUnicode(u)
    ensures Checked(u, Normalized(u, "no93 8601 1117 947")) == Some(true)
  {
    var iban := "NO9386011117947";
    NorwegianNormalized(u);
    NorwegianWeight3();
    assert Rearranged(iban) == "86011117947NO93";
    WeightIsNumber(Rearranged(iban));
    CheckedIsAccepted(u, iban);
  }

  // ----- check digits -----

  function TwoDigits(k: int): string
    requires 0 <= k <= 99
  {
    [(k / 10 + '0' as int) as char, (k % 10 + '0' as int) as char]
  }

  lemma PairDigits(k: int)
    requires 0 <= k <= 99
    ensures |TwoDigits(k)| == 2 && IsDigit(TwoDigits(k)[0]) && IsDigit(TwoDigits(k)[1])
    ensures 10 * Value(TwoDigits(k)[0]) + Value(TwoDigits(k)[1]) == k
  {
  }

  /** The check pair ends up at the very end. */
  lemma Layout(country: string, pair: string, bban: string)
    requires |country| == 2 && |pair| == 2
    ensures |country + pair + bban| == 4 + |bban|
    ensures Rearranged(country + pair + bban) == bban + country + [pair[0], pair[1]]
  {
    var iban := country + pair + bban;
    assert iban[4..] == bban && iban[..4] == country + pair;
    assert pair == [pair[0], pair[1]];
  }

  predicate Completes(x: int, k: int) { LeavesOne(x + k) }

  lemma PairWeight(country: string, bban: string, k: int)
    requires |country| == 2 && 11 <= |bban| <= 30 && AlphaNumeric(bban + country) && 0 <= k <= 99
    ensures Accepted(country + TwoDigits(k) + bban) <==> Completes(100 * Weight(bban + country), k)
  {
    var pair := TwoDigits(k);
    PairDigits(k);
    Layout(country, pair, bban);
    TwoAtEnd(bban + country, pair[0], pair[1]);
    WeightIsNumber(bban + country + [pair[0], pair[1]]);
    SameCharacters(country + pair + bban);
  }

  /** The pair that makes `x + k` leave 1. */
  lemma CheckPair(x: int) returns (k: int)
    ensures 2 <= k <= 98 && Completes(x, k)
    ensures forall i :: 2 <= i <= 98 && Completes(x, i) ==> i == k
  {
    k := 2 + (-1 - x) % 97;
    var q := (-1 - x) / 97;
    assert x + k == 1 + 97 * (-q);
    forall i | 2 <= i <= 98 && Completes(x, i) ensures i == k {
      BothAccepted(x + i, x + k);
    }
  }

  /** For every country and account part exactly one check pair from 02 to 98 is accepted. */
  lemma CheckPairUnique(country: string, bban: string) returns (k: int)
    requires |country| == 2 && IsLetter(country[0]) && IsLetter(country[1])
    requires 11 <= |bban| <= 30 && AlphaNumeric(bban)
    ensures 2 <= k <= 98 && Accepted(country + TwoDigits(k) + bban)
    ensures forall i :: 2 <= i <= 98 && Accepted(country + TwoDigits(i) + bban) ==> i == k
  {
    assert AlphaNumeric(bban + country);
    var x := 100 * Weight(bban + country);
    k := CheckPair(x);
    PairWeight(country, bban, k);
    forall i | 2 <= i <= 98 && Accepted(country + TwoDigits(i) + bban) ensures i == k {
      PairWeight(country, bban, i);
    }
  }
}
