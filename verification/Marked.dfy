/** A text with some of its SSN-shaped spans marked as hidden. Two readings: the
    source (what the provider wrote) and the rendering (what the client gets). */
module Marked {
  import opened CharClass
  import opened Splice
  import opened Ssn
  import opened Texts

  predicate IsSsnText(t: string) { |t| == 11 && ShapeAt(t, 0) }

  type SsnText = t: string | IsSsnText(t) witness "000-00-0000"

  datatype Item = Shown(c: char) | Hidden(text: SsnText)

  datatype Marks = End | Mark(head: Item, tail: Marks)

  function SourceOf(it: Item): string {
    if it.Shown? then [it.c] else it.text
  }

  function RenderOf(it: Item): string {
    if it.Shown? then [it.c] else SSN_PLACEHOLDER
  }

  function Source(m: Marks): string {
    match m
    case End => ""
    case Mark(it, rest) => SourceOf(it) + Source(rest)
  }

  function Render(m: Marks): string {
    match m
    case End => ""
    case Mark(it, rest) => RenderOf(it) + Render(rest)
  }

  /** Some hidden item starts at source position `i`. */
  predicate HiddenAt(m: Marks, i: nat) {
    m.Mark? &&
    if i == 0 then m.head.Hidden?
    else |SourceOf(m.head)| <= i && HiddenAt(m.tail, i - |SourceOf(m.head)|)
  }

  /** The spans of the source that are hidden, `base` being where `m` starts. */
  function HiddenSpans(m: Marks, base: nat): seq<Span> {
    match m
    case End => []
    case Mark(Shown(_), rest) => HiddenSpans(rest, base + 1)
    case Mark(Hidden(_), rest) => [Span(base, base + 11)] + HiddenSpans(rest, base + 11)
  }

  function ShowAll(t: string): Marks {
    if t == "" then End else Mark(Shown(t[0]), ShowAll(t[1..]))
  }

  function Plus(a: Marks, b: Marks): Marks {
    match a
    case End => b
    case Mark(it, rest) => Mark(it, Plus(rest, b))
  }

  function Drop(m: Marks, n: nat): (rest: Marks)
    ensures rest == m || rest < m
  {
    if n == 0 || m.End? then m else Drop(m.tail, n - 1)
  }

  // ----- the readings and concatenation -----

  lemma {:induction false} AppendSource(a: Marks, b: Marks)
    ensures Source(Plus(a, b)) == Source(a) + Source(b)
  {
    if a.End? {
    } else {
      AppendSource(a.tail, b);
      Assoc(SourceOf(a.head), Source(a.tail), Source(b));
    }
  }

  lemma {:induction false} AppendRender(a: Marks, b: Marks)
    ensures Render(Plus(a, b)) == Render(a) + Render(b)
  {
    if a.End? {
    } else {
      AppendRender(a.tail, b);
      Assoc(RenderOf(a.head), Render(a.tail), Render(b));
    }
  }

  lemma {:induction false} PlusAssoc(a: Marks, b: Marks, c: Marks)
    ensures Plus(Plus(a, b), c) == Plus(a, Plus(b, c))
  {
    if a.End? {
    } else {
      PlusAssoc(a.tail, b, c);
    }
  }

  lemma {:induction false} Shows(t: string)
    ensures Source(ShowAll(t)) == t && Render(ShowAll(t)) == t
  {
    if t == "" {
    } else {
      Shows(t[1..]);
    }
  }

  lemma {:induction false} DropShown(t: string, m: Marks)
    ensures Drop(Plus(ShowAll(t), m), |t|) == m
  {
    if t == "" {
    } else {
      DropShown(t[1..], m);
    }
  }

  lemma {:induction false} HiddenAppend(a: Marks, b: Marks, i: nat)
    ensures HiddenAt(Plus(a, b), i) <==> HiddenAt(a, i) || (|Source(a)| <= i && HiddenAt(b, i - |Source(a)|))
  {
    if a.Mark? && |SourceOf(a.head)| <= i {
      HiddenAppend(a.tail, b, i - |SourceOf(a.head)|);
    }
  }

  lemma {:induction false} ShownHidesNothing(t: string, i: nat)
    ensures !HiddenAt(ShowAll(t), i)
  {
    if t != "" && i != 0 {
      ShownHidesNothing(t[1..], i - 1);
    }
  }

  lemma ShapeShift(h: string, t: string, i: nat)
    ensures ShapeAt(h + t, |h| + i) <==> ShapeAt(t, i)
  {
    assert forall k :: 0 <= k < |t| ==> (h + t)[|h| + k] == t[k];
  }

  /** A hidden item is an SSN-shaped span of the source. */
  lemma {:induction false} HiddenIsShape(m: Marks, i: nat)
    requires HiddenAt(m, i)
    ensures ShapeAt(Source(m), i)
  {
    var h, t := SourceOf(m.head), Source(m.tail);
    if i == 0 {
      assert forall k :: 0 <= k < 11 ==> (h + t)[k] == h[k];
    } else {
      HiddenIsShape(m.tail, i - |h|);
      ShapeShift(h, t, i - |h|);
    }
  }

  /** Nothing but digits and hyphens. */
  predicate SsnChars(t: string) {
    forall j :: 0 <= j < |t| ==> IsDigit(t[j]) || t[j] == '-'
  }

  lemma HeadShown(m: Marks, c: char)
    requires Render(m) != "" && Render(m)[0] == c && (IsDigit(c) || c == '-')
    ensures m.Mark? && m.head.Shown?
  {
  }

  /** Digits and hyphens in front of a rendering come from shown items: a placeholder has none. */
  lemma LeadingShown(m: Marks, t: string, rest: string)
    requires Render(m) == t + rest && SsnChars(t)
    ensures m == Plus(ShowAll(t), Drop(m, |t|))
    ensures Source(m) == t + Source(Drop(m, |t|))
    ensures Render(Drop(m, |t|)) == rest
  {
    LeadingItems(m, t, rest);
    AppendSource(ShowAll(t), Drop(m, |t|));
    Shows(t);
  }

  lemma {:induction false} LeadingItems(m: Marks, t: string, rest: string)
    requires Render(m) == t + rest && SsnChars(t)
    ensures m == Plus(ShowAll(t), Drop(m, |t|))
    ensures Render(Drop(m, |t|)) == rest
  {
    if t == "" {
    } else {
      HeadShown(m, t[0]);
      SameFront(m.head.c, Render(m.tail), t, rest);
      LeadingItems(m.tail, t[1..], rest);
    }
  }

  // ----- hidden spans -----

  /** Filling the hidden spans of the source gives the rendering. */
  lemma {:induction false} RenderIsFill(text: string, m: Marks, base: nat)
    requires base <= |text| && text[base..] == Source(m)
    ensures Ordered(|text|, HiddenSpans(m, base), base)
    ensures Fill(text, HiddenSpans(m, base), SSN_PLACEHOLDER, base) == Render(m)
  {
    if m.End? {
    } else {
      var next := base + |SourceOf(m.head)|;
      SplitAgain(text, base, next);
      assert text[base..next] == SourceOf(m.head);
      RenderIsFill(text, m.tail, next);
      if m.head.Hidden? {
        FillNow(text, HiddenSpans(m.tail, next), base);
      } else {
        FillFrom(text, HiddenSpans(m.tail, next), SSN_PLACEHOLDER, base, next);
      }
    }
  }

  /** `HiddenSpans` and `HiddenAt` say the same. */
  lemma {:induction false} SpansAreHidden(m: Marks, base: nat, s: Span)
    ensures s in HiddenSpans(m, base) <==>
            base <= s.start && s.end == s.start + 11 && HiddenAt(m, s.start - base)
  {
    if m.End? {
    } else {
      SpansAreHidden(m.tail, base + |SourceOf(m.head)|, s);
    }
  }

  // ----- where the items of an occurrence are -----

  /** Source positions that are inside no hidden span begin an item. */
  lemma {:induction false} Boundary(m: Marks, j: nat) returns (a: Marks, b: Marks)
    requires j <= |Source(m)| && forall k: nat :: k < j < k + 11 ==> !HiddenAt(m, k)
    ensures m == Plus(a, b) && |Source(a)| == j
  {
    if j == 0 {
      a, b := End, m;
    } else {
      var w := |SourceOf(m.head)|;
      assert j < 0 + 11 ==> !HiddenAt(m, 0);
      forall k: nat | k < j - w < k + 11 ensures !HiddenAt(m.tail, k) {
        assert HiddenAt(m.tail, k) ==> HiddenAt(m, k + w);
      }
      a, b := Boundary(m.tail, j - w);
      a := Mark(m.head, a);
    }
  }

  /** An item boundary is not inside a hidden span. */
  /** An occurrence that no hidden item starting at or after it can touch begins at
      an item boundary, and everything from there on is shown. */
  lemma Locate(m: Marks, i: nat) returns (a: Marks, b: Marks)
    requires ShapeAt(Source(m), i) && (i == 0 || !IsWord(Source(m)[i-1]))
    requires forall k: nat :: HiddenAt(m, k) ==> k < i
    ensures m == Plus(a, b) && |Source(a)| == i && b == ShowAll(Source(m)[i..])
  {
    forall k: nat | k < i < k + 11 ensures !HiddenAt(m, k) {
      if HiddenAt(m, k) {
        HiddenIsShape(m, k);
        WordInShape(Source(m), k, i);
      }
    }
    a, b := Boundary(m, i);
    ShownFrom(m, a, b);
  }

  lemma WordInShape(s: string, k: nat, i: nat)
    ensures ShapeAt(s, k) && ShapeAt(s, i) && k < i < k + 11 ==> IsWord(s[i-1])
  {
    if ShapeAt(s, k) && ShapeAt(s, i) && k < i < k + 11 {
      ShapesOverlap(s, k, i);
    }
  }

  lemma ShownFrom(m: Marks, a: Marks, b: Marks)
    requires m == Plus(a, b) && |Source(a)| <= |Source(m)|
    requires forall k: nat :: HiddenAt(m, k) ==> k < |Source(a)|
    ensures b == ShowAll(Source(m)[|Source(a)|..])
  {
    AppendSource(a, b);
    forall k: nat ensures !HiddenAt(b, k) {
      HiddenAppend(a, b, |Source(a)| + k);
    }
    AllShown(b);
  }

  lemma {:induction false} AllShown(m: Marks)
    requires forall k: nat :: !HiddenAt(m, k)
    ensures m == ShowAll(Source(m))
  {
    if m.End? {
    } else {
      assert !HiddenAt(m, 0);
      forall k: nat ensures !HiddenAt(m.tail, k) {
        assert !HiddenAt(m, k + 1);
      }
      AllShown(m.tail);
      assert Source(m)[1..] == Source(m.tail);
    }
  }

  /** The last character is the same in both readings, or a placeholder's bracket. */
  lemma {:induction false} LastChars(m: Marks)
    requires m.Mark?
    ensures Source(m) != "" && Render(m) != ""
    ensures || Last(Render(m)) == Last(Source(m))
            || (Last(Render(m)) == ']' && |Source(m)| >= 11 && HiddenAt(m, |Source(m)| - 11))
  {
    if m.tail.Mark? {
      LastChars(m.tail);
      LastAppend(SourceOf(m.head), Source(m.tail));
      LastAppend(RenderOf(m.head), Render(m.tail));
    } else {
      LastAppend("", RenderOf(m.head));
      assert Source(m) == SourceOf(m.head) && Render(m) == RenderOf(m.head);
    }
  }
}
