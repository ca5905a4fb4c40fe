/** When a delivered text holds an SSN: the exact condition on the provider's text. */
module SsnDelivered {
  import opened CharClass
  import opened Ssn
  import opened Marked
  import opened OutputGuard
  import opened SsnStream
  import opened SsnPass
  import opened SsnCuts
  import opened Texts

  // ----- the condition -----

  predicate FreeShape(x: string) { ShapeAt(x, 0) && FreeRight(x, 0) }

  /** Some cutting makes the text `x` render to `k` characters: a shape behind a word character
      is shown; any other is replaced if no word character follows, else it may be. `open`
      says that no word character stands in front of `x`. */
  predicate CanRender(x: string, open: bool, k: int)
    decreases |x|
  {
    if x == "" then k == 0
    else
      || (open && ShapeAt(x, 0) && CanRender(x[11..], true, k - |SSN_PLACEHOLDER|))
      || (!(open && FreeShape(x)) && CanRender(x[1..], !IsWord(x[0]), k - 1))
  }

  predicate Fills(s: string, k: nat, n: nat)
    requires k <= n <= |s|
  {
    CanRender(s[k..n], false, CARRY_SIZE)
  }

  /** A shape that can be at the front of a whole carry, and then looks like an SSN. */
  predicate Late(s: string, k: nat) {
    exists n: nat :: k <= n <= |s| && Fills(s, k, n) && ShapeAt(s, k) && FreeRight(s, k)
  }

  /** No word character need be left in front of `j`: there is none, or it belongs to a shape
      that can be replaced before. */
  predicate Loose(s: string, j: nat)
    requires j <= |s|
  {
    FreeLeft(s, j) || (j >= 11 && ShapeAt(s, j - 11) && Loose(s, j - 11))
  }

  /** Two shapes side by side, of which a stream can replace the second and leave the first. */
  predicate Exposes(s: string, j: nat) { ShapeAt(s, j) && Loose(s, j) && Late(s, j + 11) }

  ghost predicate Exposed(s: string) { exists j: nat :: Exposes(s, j) }

  // ----- what a stream leaves -----

  /** Nothing is hidden right behind a word character that is shown. */
  predicate Opened(m: Marks, open: bool) {
    match m
    case End => true
    case Mark(Hidden(_), rest) => open && Opened(rest, true)
    case Mark(Shown(c), rest) => Opened(rest, !IsWord(c))
  }

  /** Every shape that nothing keeps from being hidden is. */
  predicate Settled(m: Marks, open: bool) {
    match m
    case End => true
    case Mark(Hidden(_), rest) => Settled(rest, true)
    case Mark(Shown(c), rest) => !(open && FreeShape(Source(m))) && Settled(rest, !IsWord(c))
  }

  /** What is hidden behind a word character that is shown was once at the front of a carry. */
  predicate Explained(full: string, m: Marks, cut: nat, k: nat, p: nat, open: bool) {
    match m
    case End => true
    case Mark(Hidden(_), rest) =>
      (open || (p <= cut && Late(full, k))) && Explained(full, rest, cut, k + 11, p + |SSN_PLACEHOLDER|, true)
    case Mark(Shown(c), rest) => Explained(full, rest, cut, k + 1, p + 1, !IsWord(c))
  }

  lemma {:induction false} ExplainedBeyond(full: string, m: Marks, cut: nat, k: nat, p: nat, open: bool)
    requires Explained(full, m, cut, k, p, open) && cut < p
    ensures Opened(m, open)
  {
    match m
    case End =>
    case Mark(Hidden(_), rest) => ExplainedBeyond(full, rest, cut, k + 11, p + |SSN_PLACEHOLDER|, true);
    case Mark(Shown(c), rest) => ExplainedBeyond(full, rest, cut, k + 1, p + 1, !IsWord(c));
  }

  lemma {:induction false} OpenedExplained(full: string, m: Marks, cut: nat, k: nat, p: nat, open: bool)
    requires Opened(m, open)
    ensures Explained(full, m, cut, k, p, open)
  {
    match m
    case End =>
    case Mark(Hidden(_), rest) => OpenedExplained(full, rest, cut, k + 11, p + |SSN_PLACEHOLDER|, true);
    case Mark(Shown(c), rest) => OpenedExplained(full, rest, cut, k + 1, p + 1, !IsWord(c));
  }

  lemma {:induction false} ExplainedLonger(full: string, m: Marks, x: string, cut: nat, k: nat, p: nat, open: bool)
    requires Explained(full, m, cut, k, p, open)
    ensures Explained(full, Plus(m, ShowAll(x)), cut, k, p, open)
    decreases m, x
  {
    match m
    case End => ShownOpened(x, open); OpenedExplained(full, ShowAll(x), cut, k, p, open);
    case Mark(Hidden(_), rest) => ExplainedLonger(full, rest, x, cut, k + 11, p + |SSN_PLACEHOLDER|, true);
    case Mark(Shown(c), rest) => ExplainedLonger(full, rest, x, cut, k + 1, p + 1, !IsWord(c));
  }

  lemma {:induction false} ShownOpened(x: string, open: bool)
    ensures Opened(ShowAll(x), open)
  {
    if x == "" {
    } else {
      ShownOpened(x[1..], !IsWord(x[0]));
    }
  }

  lemma {:induction false} ExplainedAtLaterCut(full: string, m: Marks, cut: nat, later: nat, k: nat, p: nat, open: bool)
    requires Explained(full, m, cut, k, p, open) && cut <= later
    ensures Explained(full, m, later, k, p, open)
  {
    match m
    case End =>
    case Mark(Hidden(_), rest) => ExplainedAtLaterCut(full, rest, cut, later, k + 11, p + |SSN_PLACEHOLDER|, true);
    case Mark(Shown(c), rest) => ExplainedAtLaterCut(full, rest, cut, later, k + 1, p + 1, !IsWord(c));
  }

  /** Marks that are opened and settled are one way to render their source. */
  lemma {:induction false} MarksRender(m: Marks, open: bool)
    requires Opened(m, open) && Settled(m, open)
    ensures CanRender(Source(m), open, |Render(m)|)
  {
    match m
    case End =>
    case Mark(Hidden(t), rest) =>
      MarksRender(rest, true);
      RenderHidden(t, Source(rest), |Render(rest)|);
    case Mark(Shown(c), rest) =>
      MarksRender(rest, !IsWord(c));
      RenderShown(c, Source(rest), open, |Render(rest)|);
  }

  lemma RenderHidden(t: SsnText, x: string, k: int)
    requires CanRender(x, true, k)
    ensures CanRender(t + x, true, k + |SSN_PLACEHOLDER|)
  {
    ShapeFirst(t, x);
    SliceAppend(t, x, 11);
  }

  lemma RenderShown(c: char, x: string, open: bool, k: int)
    requires CanRender(x, !IsWord(c), k) && !(open && FreeShape([c] + x))
    ensures CanRender([c] + x, open, k + 1)
  {
    SliceAppend([c], x, 1);
  }

  /** And every way to render a text comes from such marks. */
  lemma {:induction false} RenderMarks(x: string, open: bool, k: int) returns (m: Marks)
    requires CanRender(x, open, k)
    ensures Source(m) == x && |Render(m)| == k
    ensures Opened(m, open) && Settled(m, open)
    decreases |x|
  {
    if x == "" {
      m := End;
    } else if open && ShapeAt(x, 0) && CanRender(x[11..], true, k - |SSN_PLACEHOLDER|) {
      m := RenderMarks(x[11..], true, k - |SSN_PLACEHOLDER|);
      m := Mark(Hidden(FrontShape(x, x, 0, "", x)), m);
      Rejoin(x, 11);
    } else {
      m := RenderMarks(x[1..], !IsWord(x[0]), k - 1);
      m := Mark(Shown(x[0]), m);
      Rejoin(x, 1);
    }
  }

  // ----- one window keeps what is known -----

  predicate OpenAt(r: string, p: nat)
    requires p <= |r|
  {
    p == 0 || !IsWord(r[p-1])
  }

  lemma {:induction false} OpenedLeft(m: Marks, open: bool, i: nat)
    requires Opened(m, open) && HiddenAt(m, i) && 0 < i < 11
    ensures i <= |Source(m)| && !IsWord(Source(m)[i-1])
    decreases m
  {
    if i > 1 {
      OpenedLeft(m.tail, !IsWord(m.head.c), i - 1);
    }
  }

  /** A shape that begins with a shown item is shown. */
  lemma ShapeUnhidden(m: Marks, open: bool) returns (t: SsnText, rest: Marks)
    requires Opened(m, open) && m.Mark? && m.head.Shown? && ShapeAt(Source(m), 0)
    ensures m == Plus(ShowAll(t), rest) && Source(m) == t + Source(rest)
  {
    forall i: nat | i < 11 ensures !HiddenAt(m, i) {
      if HiddenAt(m, i) && 0 < i {
        OpenedLeft(m, open, i);
        HiddenIsShape(m, i);
        ShapesOverlap(Source(m), 0, i);
      }
    }
    ShownFront(m, 11);
    t, rest := FrontShape(Source(m), Source(m), 0, "", Source(m)), Drop(m, 11);
    Rejoin(Source(m), 11);
  }

  /** A shown shape that nothing keeps from being hidden is matched. */
  lemma FreeIsMatched(m: Marks, r: string, cut: nat, p: nat, t: SsnText, rest: Marks)
    requires Aligned(m, r, p) && m == Plus(ShowAll(t), rest) && Source(m) == t + Source(rest)
    requires FreeShape(Source(m)) && OpenAt(r, p) && cut <= p
    ensures MatchAt(r, cut, p)
  {
    AppendRender(ShowAll(t), rest);
    Shows(t);
    Rejoin(r, p);
    if rest.Mark? {
      FirstChars(rest);
      assert Source(m)[11] == Source(rest)[0];
    }
    ShapeInFront(r[..p], t, Render(rest), r);
  }

  /** So a shown item that is not matched does not begin a free shape. */
  lemma NotFree(m: Marks, r: string, cut: nat, p: nat, open: bool)
    requires Aligned(m, r, p) && Opened(m, open) && m.Mark? && m.head.Shown? && cut <= p
    ensures OpenAt(r, p) && FreeShape(Source(m)) ==> MatchAt(r, cut, p)
  {
    if OpenAt(r, p) && FreeShape(Source(m)) {
      var t, rest := ShapeUnhidden(m, open);
      FreeIsMatched(m, r, cut, p, t, rest);
    }
  }

  lemma {:induction false} OpenedBehind(t: string, rest: Marks, open: bool)
    requires Opened(Plus(ShowAll(t), rest), open) && t != "" && IsWord(Last(t))
    ensures Opened(rest, false)
  {
    if |t| == 1 {
      assert ShowAll(t[1..]) == End;
      assert Plus(ShowAll(t), rest) == Mark(Shown(t[0]), rest);
    } else {
      OpenedBehind(t[1..], rest, !IsWord(t[0]));
    }
  }

  /** What stands behind a match. */
  lemma BehindTheMatch(m: Marks, r: string, cut: nat, p: nat, open: bool)
    requires Aligned(m, r, p) && Opened(m, open)
    ensures MatchAt(r, cut, p) ==>
              && m.Mark? && m.head.Shown? && Aligned(Drop(m.tail, 10), r, p + 11) && Opened(Drop(m.tail, 10), false)
              && !OpenAt(r, p + 11) && (p + 11 < |r| ==> !IsWord(r[p + 11]))
              && (cut < p ==> OpenAt(r, p))
  {
    if MatchAt(r, cut, p) {
      var t := Matched(r, cut, p);
      ShownUnderMatch(m, r, cut, p);
      EndsInDigit(t);
      OpenedBehind(t, Drop(m.tail, 10), open);
    }
  }

  /** What stands behind an item that is not matched. */
  lemma BehindTheItem(m: Marks, r: string, cut: nat, p: nat)
    requires m.Mark? && Aligned(m, r, p)
    ensures !MatchAt(r, cut, p) ==>
              var next := p + |RenderOf(m.head)|;
              && Aligned(m.tail, r, next)
              && OpenAt(r, next) == (m.head.Hidden? || !IsWord(m.head.c))
              && r[p] == RenderOf(m.head)[0]
  {
    if !MatchAt(r, cut, p) {
      PassOver(m, r, cut, p);
      var w := |RenderOf(m.head)|;
      assert r[p..] == RenderOf(m.head) + Render(m.tail);
      assert r[p..][w-1] == r[p + w - 1] == RenderOf(m.head)[w-1];
      assert r[p..][0] == r[p] == RenderOf(m.head)[0];
    }
  }

  lemma ItemSettled(m: Marks, r: string, cut: nat, p: nat, open: bool)
    requires Aligned(m, r, p) && Opened(m, open) && m.Mark? && cut <= p
    ensures m.head.Shown? && !MatchAt(r, cut, p) && OpenAt(r, p) ==> !FreeShape(Source(Hide(m, r, cut, p)))
    ensures m.head.Shown? && FreeShape(Source(Hide(m, r, cut, p))) ==> IsWord(r[p])
  {
    HideIsRedact(m, r, cut, p);
    if m.head.Shown? {
      NotFree(m, r, cut, p, open);
      assert r[p] == r[p..][0] == m.head.c;
    }
  }

  /** A window beyond its front: what it leaves is opened and settled, if it was opened before. */
  lemma {:induction false} PassBeyond(m: Marks, r: string, cut: nat, p: nat, open: bool)
    requires Aligned(m, r, p) && cut < p && Opened(m, OpenAt(r, p))
    requires OpenAt(r, p) ==> open
    requires open && !OpenAt(r, p) && p < |r| ==> !IsWord(r[p])
    ensures Opened(Hide(m, r, cut, p), open) && Settled(Hide(m, r, cut, p), open)
    decreases m
  {
    if m.End? {
    } else if MatchAt(r, cut, p) {
      BehindTheMatch(m, r, cut, p, OpenAt(r, p));
      PassBeyond(Drop(m.tail, 10), r, cut, p + 11, true);
    } else {
      BehindTheItem(m, r, cut, p);
      PassBeyond(m.tail, r, cut, p + |RenderOf(m.head)|, m.head.Hidden? || !IsWord(m.head.c));
      ItemSettled(m, r, cut, p, OpenAt(r, p));
    }
  }

  /** Eleven shown items in front of marks that reach from the cut to the end of the consumed text. */
  lemma ItemsAtCut(m: Marks, x: string, r: string, cut: nat) returns (t: SsnText, c: Marks)
    requires Aligned(Plus(m, ShowAll(x)), r, cut) && |Render(m)| == CARRY_SIZE
    requires MatchAt(r, cut, cut)
    ensures m == Plus(ShowAll(t), c) && |Render(c)| == CARRY_SIZE - 11
    ensures Source(m) == t + Source(c) && r[cut..] == t + (Render(c) + x)
  {
    t := Matched(r, cut, cut);
    ShownUnderMatch(Plus(m, ShowAll(x)), r, cut, cut);
    c := CutItems(m, ShowAll(x), End, t, Drop(Plus(m, ShowAll(x)).tail, 10));
    Shows(x);
    AppendRender(m, ShowAll(x));
    AppendSource(ShowAll(t), c);
    AppendRender(ShowAll(t), c);
    Shows(t);
    Assoc(t, Render(c), x);
  }

  /** The shape of such items in the whole text. */
  lemma LateShapeOf(full: string, part: string, k: nat, t: SsnText, c: Marks)
    requires part <= full && k <= |part| && part[k..] == t + Source(c)
    requires Opened(Plus(ShowAll(t), c), false) && c.Mark? && !IsWord(Render(c)[0])
    ensures ShapeAt(full, k) && FreeRight(full, k)
  {
    EndsInDigit(t);
    OpenedBehind(t, c, false);
    Rejoin(part, k);
    ShapeInFront(part[..k], t, Source(c), full);
  }

  lemma FillsHere(full: string, part: string, k: nat, m: Marks)
    requires part <= full && k <= |part| && part[k..] == Source(m) && |Render(m)| == CARRY_SIZE
    requires Opened(m, false) && Settled(m, false)
    ensures Fills(full, k, |part|)
  {
    MarksRender(m, false);
    assert full[k..|part|] == part[k..];
  }

  /** A window whose front is a match behind a word character. */
  lemma LateHere(full: string, part: string, m: Marks, x: string, r: string, cut: nat, k: nat)
    requires Aligned(Plus(m, ShowAll(x)), r, cut) && |Render(m)| == CARRY_SIZE
    requires Explained(full, m, cut, k, cut, false) && Settled(m, false)
    requires part <= full && k <= |part| && part[k..] == Source(m)
    ensures MatchAt(r, cut, cut) ==> Late(full, k)
  {
    if MatchAt(r, cut, cut) {
      var t, c := ItemsAtCut(m, x, r, cut);
      ExplainedBeyond(full, m.tail, cut, k + 1, cut + 1, !IsWord(m.head.c));
      FillsHere(full, part, k, m);
      assert r[cut..][11] == r[cut + 11];
      LateShapeOf(full, part, k, t, c);
    }
  }

  /** A window from its front on. */
  lemma PassFromCut(full: string, part: string, m: Marks, x: string, r: string, cut: nat, k: nat, open: bool)
    requires Aligned(Plus(m, ShowAll(x)), r, cut) && open == OpenAt(r, cut)
    requires Explained(full, m, cut, k, cut, open) && Settled(m, open)
    requires part <= full && k <= |part| && part[k..] == Source(m)
    requires cut > 0 ==> |Render(m)| == CARRY_SIZE
    ensures Explained(full, Hide(Plus(m, ShowAll(x)), r, cut, cut), cut, k, cut, open)
    ensures Settled(Hide(Plus(m, ShowAll(x)), r, cut, cut), open)
  {
    var all := Plus(m, ShowAll(x));
    ExplainedLonger(full, m, x, cut, k, cut, open);
    if all.End? {
    } else if MatchAt(r, cut, cut) {
      MatchFromCut(full, part, m, x, r, cut, k, open);
    } else {
      ItemFromCut(full, all, r, cut, k, open);
    }
  }

  lemma MatchFromCut(full: string, part: string, m: Marks, x: string, r: string, cut: nat, k: nat, open: bool)
    requires Aligned(Plus(m, ShowAll(x)), r, cut) && open == OpenAt(r, cut) && MatchAt(r, cut, cut)
    requires Explained(full, m, cut, k, cut, open) && Settled(m, open)
    requires Explained(full, Plus(m, ShowAll(x)), cut, k, cut, open)
    requires part <= full && k <= |part| && part[k..] == Source(m)
    requires cut > 0 ==> |Render(m)| == CARRY_SIZE
    ensures Explained(full, Hide(Plus(m, ShowAll(x)), r, cut, cut), cut, k, cut, open)
    ensures Settled(Hide(Plus(m, ShowAll(x)), r, cut, cut), open)
  {
    var all := Plus(m, ShowAll(x));
    if !open { LateHere(full, part, m, x, r, cut, k); }
    ShownUnderMatch(all, r, cut, cut);
    ExplainedBeyond(full, all.tail, cut, k + 1, cut + 1, !IsWord(all.head.c));
    BehindTheMatch(all, r, cut, cut, open);
    RestFromCut(full, Drop(all.tail, 10), r, cut, k + 11);
  }

  lemma RestFromCut(full: string, rest: Marks, r: string, cut: nat, k: nat)
    requires Aligned(rest, r, cut + 11) && Opened(rest, false) && !OpenAt(r, cut + 11)
    requires cut + 11 < |r| ==> !IsWord(r[cut + 11])
    ensures Explained(full, Hide(rest, r, cut, cut + 11), cut, k, cut + |SSN_PLACEHOLDER|, true)
    ensures Settled(Hide(rest, r, cut, cut + 11), true)
  {
    PassBeyond(rest, r, cut, cut + 11, true);
    OpenedExplained(full, Hide(rest, r, cut, cut + 11), cut, k, cut + |SSN_PLACEHOLDER|, true);
  }

  lemma ItemFromCut(full: string, all: Marks, r: string, cut: nat, k: nat, open: bool)
    requires Aligned(all, r, cut) && open == OpenAt(r, cut) && !MatchAt(r, cut, cut) && all.Mark?
    requires Explained(full, all, cut, k, cut, open)
    ensures Explained(full, Hide(all, r, cut, cut), cut, k, cut, open)
    ensures Settled(Hide(all, r, cut, cut), open)
  {
    var next := cut + |RenderOf(all.head)|;
    var open' := all.head.Hidden? || !IsWord(all.head.c);
    ExplainedBeyond(full, all.tail, cut, k + |SourceOf(all.head)|, next, open');
    BehindTheItem(all, r, cut, cut);
    PassBeyond(all.tail, r, cut, next, open');
    OpenedExplained(full, Hide(all.tail, r, cut, next), cut, k + |SourceOf(all.head)|, next, open');
    if all.head.Shown? { ItemSettled(all, r, cut, cut, open); }
  }

  lemma {:induction false} ShortIsShown(m: Marks)
    requires |Source(m)| < 11
    ensures |Render(m)| == |Source(m)|
  {
    if m.End? {
    } else {
      ShortIsShown(m.tail);
    }
  }

  /** A free shape of the longer text is one of the marks, if these are long enough. */
  lemma FreeBefore(m: Marks, x: string)
    requires |Render(m)| >= 11 && FreeShape(Source(m) + x)
    ensures FreeShape(Source(m))
  {
    if |Source(m)| < 11 { ShortIsShown(m); }
    var s, u := Source(m), Source(m) + x;
    assert forall i :: 0 <= i < |s| ==> u[i] == s[i];
  }

  lemma TextBehind(part: string, k: nat, h: string, rest: string)
    requires k <= |part| && part[k..] == h + rest
    ensures k + |h| <= |part| && part[k + |h|..] == rest
  {
    SliceAppend(h, rest, |h|);
    assert part[k..][|h|..] == part[k + |h|..];
  }

  /** A whole window: what is in front of the cut stays as it is. */
  lemma {:induction false} PassUpToCut(full: string, part: string, m: Marks, x: string, r: string, cut: nat,
                                       k: nat, p: nat, open: bool)
    requires p <= cut && Aligned(Plus(m, ShowAll(x)), r, p) && open == OpenAt(r, p)
    requires Explained(full, m, cut, k, p, open) && Settled(m, open)
    requires part <= full && k <= |part| && part[k..] == Source(m)
    requires cut > 0 ==> p + |Render(m)| == cut + CARRY_SIZE
    ensures Explained(full, Hide(Plus(m, ShowAll(x)), r, cut, p), cut, k, p, open)
    ensures Settled(Hide(Plus(m, ShowAll(x)), r, cut, p), open)
    decreases m, 1
  {
    if p == cut {
      PassFromCut(full, part, m, x, r, cut, k, open);
    } else {
      BehindTheItem(Plus(m, ShowAll(x)), r, cut, p);
      TextBehind(part, k, SourceOf(m.head), Source(m.tail));
      PassItem(full, part, m, x, r, cut, k, p, open);
    }
  }

  lemma {:induction false} PassItem(full: string, part: string, m: Marks, x: string, r: string, cut: nat,
                                    k: nat, p: nat, open: bool)
    requires p < cut && Aligned(Plus(m, ShowAll(x)), r, p) && m.Mark?
    requires Explained(full, m, cut, k, p, open) && Settled(m, open)
    requires var next := p + |RenderOf(m.head)|;
             Aligned(Plus(m.tail, ShowAll(x)), r, next) && OpenAt(r, next) == (m.head.Hidden? || !IsWord(m.head.c))
    requires part <= full && k + |SourceOf(m.head)| <= |part| && part[k + |SourceOf(m.head)|..] == Source(m.tail)
    requires p + |Render(m)| == cut + CARRY_SIZE
    ensures Explained(full, Hide(Plus(m, ShowAll(x)), r, cut, p), cut, k, p, open)
    ensures Settled(Hide(Plus(m, ShowAll(x)), r, cut, p), open)
    decreases m, 0
  {
    var next, open' := p + |RenderOf(m.head)|, m.head.Hidden? || !IsWord(m.head.c);
    if next <= cut {
      PassUpToCut(full, part, m.tail, x, r, cut, k + |SourceOf(m.head)|, next, open');
    } else {
      OverCut(full, m.tail, x, r, cut, k + |SourceOf(m.head)|, next, open');
    }
    if m.head.Shown? { StillSettled(m, x, r, cut, p, open); }
  }

  /** The cut inside a placeholder. */
  lemma OverCut(full: string, m: Marks, x: string, r: string, cut: nat, k: nat, p: nat, open: bool)
    requires cut < p && Aligned(Plus(m, ShowAll(x)), r, p) && open == OpenAt(r, p)
    requires Explained(full, m, cut, k, p, open)
    ensures Explained(full, Hide(Plus(m, ShowAll(x)), r, cut, p), cut, k, p, open)
    ensures Settled(Hide(Plus(m, ShowAll(x)), r, cut, p), open)
  {
    var all := Plus(m, ShowAll(x));
    ExplainedLonger(full, m, x, cut, k, p, open);
    ExplainedBeyond(full, all, cut, k, p, open);
    PassBeyond(all, r, cut, p, open);
    OpenedExplained(full, Hide(all, r, cut, p), cut, k, p, open);
  }

  lemma StillSettled(m: Marks, x: string, r: string, cut: nat, p: nat, open: bool)
    requires Aligned(Plus(m, ShowAll(x)), r, p) && m.Mark? && m.head.Shown? && Settled(m, open) && |Render(m)| >= 11
    ensures !(open && FreeShape(Source(Hide(Plus(m, ShowAll(x)), r, cut, p))))
  {
    HideIsRedact(Plus(m, ShowAll(x)), r, cut, p);
    AppendSource(m, ShowAll(x));
    Shows(x);
    if FreeShape(Source(m) + x) { FreeBefore(m, x); }
  }

  // ----- the whole stream -----

  /** What is known of a stream that has consumed `part` of the text. */
  ghost predicate Traced(full: string, part: string, m: Marks, st: StreamState) {
    && part <= full && Source(m) == part
    && Carries(m, st.sent, st.carry) && |st.carry| <= CARRY_SIZE
    && Explained(full, m, |st.sent|, 0, 0, true) && Settled(m, true)
  }

  /** The marks after one more window. */
  ghost function WindowMarks(m: Marks, st: StreamState, token: string): Marks {
    Hide(Plus(m, ShowAll(token)), st.sent + (st.carry + token), |st.sent|, 0)
  }

  lemma WindowReads(m: Marks, st: StreamState, token: string)
    requires Carries(m, st.sent, st.carry)
    ensures Aligned(Plus(m, ShowAll(token)), st.sent + (st.carry + token), 0)
    ensures Source(WindowMarks(m, st, token)) == Source(m) + token
    ensures Render(WindowMarks(m, st, token)) == st.sent + RedactFrom(st.carry + token, 0, 0)
  {
    var all, r := Plus(m, ShowAll(token)), st.sent + (st.carry + token);
    Extended(m, token);
    Assoc(st.sent, st.carry, token);
    assert r[0..] == r;
    HideIsRedact(all, r, |st.sent|, 0);
    RedactAfterCut(st.sent, st.carry + token);
  }

  lemma WindowTraced(full: string, part: string, m: Marks, st: StreamState, token: string)
    requires Traced(full, part, m, st)
    ensures Explained(full, WindowMarks(m, st, token), |st.sent|, 0, 0, true)
    ensures Settled(WindowMarks(m, st, token), true)
  {
    WindowReads(m, st, token);
    assert part[0..] == part;
    PassUpToCut(full, part, m, token, st.sent + (st.carry + token), |st.sent|, 0, 0, true);
  }

  lemma NextTraced(full: string, part: string, m: Marks, st: StreamState, token: string)
    requires AreRegexes(SsnOnly()) && Traced(full, part, m, st) && part + token <= full
    ensures Traced(full, part + token, WindowMarks(m, st, token), StreamNext(SsnOnly(), st, token))
  {
    WindowTraced(full, part, m, st, token);
    WindowReads(m, st, token);
    CarryNext(WindowMarks(m, st, token), st, token);
    ExplainedAtLaterCut(full, WindowMarks(m, st, token), |st.sent|, |StreamNext(SsnOnly(), st, token).sent|, 0, 0, true);
  }

  lemma {:induction false} TokensTraced(full: string, tokens: seq<string>) returns (m: Marks)
    requires AreRegexes(SsnOnly()) && Concat(tokens) <= full
    ensures Traced(full, Concat(tokens), m, StreamOver(SsnOnly(), tokens))
  {
    if tokens == [] {
      m := End;
    } else {
      var init, token := tokens[..|tokens|-1], tokens[|tokens|-1];
      PrefixSplit(Concat(init), token, full);
      m := TokensTraced(full, init);
      NextTraced(full, Concat(init), m, StreamOver(SsnOnly(), init), token);
      m := WindowMarks(m, StreamOver(SsnOnly(), init), token);
    }
  }

  /** The marks of a whole stream, with the reason for everything hidden. */
  lemma DeliveredMarks(tokens: seq<string>, last: string) returns (m: Marks, cut: nat)
    requires AreRegexes(SsnOnly())
    ensures Source(m) == Concat(tokens) + last && Render(m) == StreamText(SsnOnly(), tokens, last)
    ensures Explained(Concat(tokens) + last, m, cut, 0, 0, true) && Settled(m, true)
  {
    var full, st := Concat(tokens) + last, StreamOver(SsnOnly(), tokens);
    var before := TokensTraced(full, tokens);
    WindowTraced(full, Concat(tokens), before, st, last);
    WindowReads(before, st, last);
    FlushIsPass(tokens, last);
    m, cut := WindowMarks(before, st, last), |st.sent|;
  }

  // ----- an SSN in what is delivered -----

  /** No word character is left at the end of `a`. */
  function OpenAfter(a: Marks, open: bool): bool {
    match a
    case End => open
    case Mark(Hidden(_), rest) => OpenAfter(rest, true)
    case Mark(Shown(c), rest) => OpenAfter(rest, !IsWord(c))
  }

  lemma {:induction false} OpenAfterIs(a: Marks, open: bool)
    requires a.Mark?
    ensures Render(a) != "" && OpenAfter(a, open) == !IsWord(Last(Render(a)))
  {
    var open' := a.head.Hidden? || !IsWord(a.head.c);
    if a.tail.Mark? {
      OpenAfterIs(a.tail, open');
      LastAppend(RenderOf(a.head), Render(a.tail));
    } else {
      LastAppend("", RenderOf(a.head));
      assert Render(a) == RenderOf(a.head);
    }
  }

  lemma {:induction false} ExplainedBack(full: string, a: Marks, b: Marks, cut: nat, k: nat, p: nat, open: bool)
    requires Explained(full, Plus(a, b), cut, k, p, open) && Settled(Plus(a, b), open)
    ensures Explained(full, b, cut, k + |Source(a)|, p + |Render(a)|, OpenAfter(a, open))
    ensures Settled(b, OpenAfter(a, open))
  {
    match a
    case End =>
    case Mark(Hidden(_), rest) => ExplainedBack(full, rest, b, cut, k + 11, p + |SSN_PLACEHOLDER|, true);
    case Mark(Shown(c), rest) => ExplainedBack(full, rest, b, cut, k + 1, p + 1, !IsWord(c));
  }

  predicate LooseIf(s: string, k: nat, open: bool) { open && k < |s| && IsDigit(s[k]) ==> Loose(s, k) }

  /** Where the marks are open in front of a digit, the text is loose. */
  lemma {:induction false} LooseBehind(full: string, pre: string, a: Marks, b: Marks, cut: nat, p: nat, open: bool, end: nat)
    requires Explained(full, Plus(a, b), cut, |pre|, p, open) && end == |pre| + |Source(a)|
    requires full == pre + Source(Plus(a, b)) && LooseIf(full, |pre|, open)
    ensures LooseIf(full, end, OpenAfter(a, open))
    decreases a
  {
    if a.End? {
    } else {
      LooseBehindItem(full, pre, a.head, Source(Plus(a.tail, b)), open);
      LooseBehind(full, pre + SourceOf(a.head), a.tail, b, cut, p + |RenderOf(a.head)|,
                  a.head.Hidden? || !IsWord(a.head.c), end);
    }
  }

  lemma LooseBehindItem(full: string, pre: string, it: Item, rest: string, open: bool)
    requires full == pre + (SourceOf(it) + rest) && LooseIf(full, |pre|, open)
    requires it.Hidden? ==> open || Late(full, |pre|)
    ensures LooseIf(full, |pre + SourceOf(it)|, it.Hidden? || !IsWord(it.c))
    ensures full == (pre + SourceOf(it)) + rest
  {
    Assoc(pre, SourceOf(it), rest);
    if it.Hidden? {
      LooseBehindShape(full, pre, it.text, rest, open);
    } else {
      LooseBehindShown(pre, it.c, rest);
    }
  }

  lemma LooseBehindShown(pre: string, c: char, rest: string)
    ensures LooseIf(pre + ([c] + rest), |pre| + 1, !IsWord(c))
  {
    assert (pre + ([c] + rest))[|pre|] == c;
  }

  lemma LooseBehindShape(full: string, pre: string, t: SsnText, rest: string, open: bool)
    requires full == pre + (t + rest) && LooseIf(full, |pre|, open) && (open || Late(full, |pre|))
    ensures LooseIf(full, |pre| + 11, true)
  {
    ShapeInFront(pre, t, rest, full);
  }

  /** An SSN that is delivered was shown because a word character followed, and the shape that
      began with that character was hidden later. */
  lemma SsnIsExposed(full: string, m: Marks, cut: nat, r: nat) returns (j: nat)
    requires Explained(full, m, cut, 0, 0, true) && Settled(m, true)
    requires Source(m) == full && SsnAt(Render(m), r)
    ensures Exposes(full, j)
  {
    var t := Matched(Render(m), 0, r);
    SplitAgain(Render(m), r, r + 11);
    Rejoin(Render(m), r);
    var a, b := LocateRendered(m, Render(m)[..r], t, Render(m)[r+11..]);
    j := |Source(a)|;
    Readings(a, t, b);
    Between(Render(a), t, Render(b));
    ShownNextToHidden(full, a, t, b, cut);
  }

  lemma ShownNextToHidden(full: string, a: Marks, t: SsnText, b: Marks, cut: nat)
    requires var m := Plus(a, Plus(ShowAll(t), b)); Explained(full, m, cut, 0, 0, true) && Settled(m, true)
    requires Source(a) + (t + Source(b)) == full
    requires Render(a) == "" || !IsWord(Last(Render(a)))
    requires Render(b) == "" || !IsWord(Render(b)[0])
    ensures Exposes(full, |Source(a)|)
  {
    if a.Mark? { OpenAfterIs(a, true); }
    LooseInFront(full, a, t, b, cut);
    LateBehind(full, a, t, b, cut);
    ShapeInFront(Source(a), t, Source(b), full);
  }

  lemma LooseInFront(full: string, a: Marks, t: SsnText, b: Marks, cut: nat)
    requires Explained(full, Plus(a, Plus(ShowAll(t), b)), cut, 0, 0, true) && OpenAfter(a, true)
    requires Source(a) + (t + Source(b)) == full
    ensures Loose(full, |Source(a)|)
  {
    Readings(a, t, b);
    NoFront(full);
    LooseBehind(full, "", a, Plus(ShowAll(t), b), cut, 0, true, |Source(a)|);
    FirstDigit(Source(a), t, Source(b));
  }

  lemma FirstDigit(x: string, t: SsnText, y: string)
    ensures |x| < |x + (t + y)| && IsDigit((x + (t + y))[|x|])
  {
    assert (x + (t + y))[|x|] == t[0];
  }

  lemma LateBehind(full: string, a: Marks, t: SsnText, b: Marks, cut: nat)
    requires var m := Plus(a, Plus(ShowAll(t), b)); Explained(full, m, cut, 0, 0, true) && Settled(m, true)
    requires OpenAfter(a, true) && (Render(b) == "" || !IsWord(Render(b)[0]))
    ensures Late(full, |Source(a)| + 11)
  {
    ExplainedBack(full, a, Plus(ShowAll(t), b), cut, 0, 0, true);
    HiddenBehind(full, t, b, cut, |Source(a)|, |Render(a)|);
  }

  lemma HiddenBehind(full: string, t: SsnText, b: Marks, cut: nat, k: nat, p: nat)
    requires Explained(full, Plus(ShowAll(t), b), cut, k, p, true) && Settled(Plus(ShowAll(t), b), true)
    requires Render(b) == "" || !IsWord(Render(b)[0])
    ensures Late(full, k + 11)
  {
    AppendSource(ShowAll(t), b);
    AppendRender(ShowAll(t), b);
    Shows(t);
    EndsInDigit(t);
    OpenAfterIs(ShowAll(t), true);
    ExplainedBack(full, ShowAll(t), b, cut, k, p, true);
    ShapeFirst(t, Source(b));
    if b.Mark? { FirstChars(b); }
  }

  lemma ShapeFirst(t: SsnText, rest: string)
    ensures ShapeAt(t + rest, 0) && (FreeRight(t + rest, 0) <==> rest == "" || !IsWord(rest[0]))
  {
    ShapeInFront("", t, rest, t + rest);
    assert "" + (t + rest) == t + rest;
    if rest != "" { assert (t + rest)[11] == rest[0]; }
  }

  // ----- a window, part by part -----

  lemma {:induction false} OpenAfterMore(a: Marks)
    requires OpenAfter(a, false)
    ensures OpenAfter(a, true)
  {
    if a.Mark? { OpenAfterIs(a, true); OpenAfterIs(a, false); }
  }

  lemma {:induction false} OpenAfterShown(t: string, rest: Marks, open: bool)
    requires t != "" && IsWord(Last(t))
    ensures OpenAfter(Plus(ShowAll(t), rest), open) == OpenAfter(rest, false)
  {
    if |t| == 1 {
      assert ShowAll(t[1..]) == End;
      assert Plus(ShowAll(t), rest) == Mark(Shown(t[0]), rest);
    } else {
      OpenAfterShown(t[1..], rest, !IsWord(t[0]));
    }
  }

  /** The marks `a`, the shape `t` shown, and `c` behind it. */
  ghost function With(a: Marks, t: SsnText, c: Marks): Marks { Plus(a, Plus(ShowAll(t), c)) }

  lemma WithRead(a: Marks, t: SsnText, c: Marks)
    ensures Source(With(a, t, c)) == Source(a) + (t + Source(c))
    ensures Render(With(a, t, c)) == Render(a) + (t + Render(c))
  {
    Readings(a, t, c);
  }

  lemma ShapeBehind(a: Marks, t: SsnText, b: Marks, r: string, p: nat)
    requires Aligned(With(a, t, b), r, p)
    ensures ShapeAt(r, p + |Render(a)|)
    ensures a.Mark? ==> Render(a) != "" && r[p + |Render(a)| - 1] == Last(Render(a))
  {
    WithRead(a, t, b);
    Rejoin(r, p);
    Assoc(r[..p], Render(a), t + Render(b));
    ShapeInFront(r[..p] + Render(a), t, Render(b), r);
    if a.Mark? {
      OpenAfterIs(a, true);
      assert r[p..][|Render(a)| - 1] == r[p + |Render(a)| - 1];
    }
  }

  /** No match reaches from marks that end open into a shape behind them. */
  lemma MatchInFront(a: Marks, t: SsnText, b: Marks, r: string, cut: nat, p: nat, open: bool)
    requires Aligned(With(a, t, b), r, p) && a.Mark? && OpenAfter(a, open)
    ensures MatchAt(r, cut, p) ==> 11 <= |Render(a)|
  {
    var l := |Render(a)|;
    if MatchAt(r, cut, p) && l < 11 {
      OpenAfterIs(a, open);
      ShapeBehind(a, t, b, r, p);
      ShapesOverlap(r, p, p + l);
    }
  }

  /** What a window does in front of a shape, it does there alone. */
  lemma {:induction false} FrontPass(a: Marks, t: SsnText, b: Marks, r: string, cut: nat, p: nat, at: nat, open: bool)
    returns (a': Marks)
    requires Aligned(With(a, t, b), r, p) && at == p + |Render(a)| && OpenAfter(a, open)
    ensures Hide(With(a, t, b), r, cut, p) == Plus(a', Hide(Plus(ShowAll(t), b), r, cut, at))
    ensures |Source(a')| == |Source(a)| && OpenAfter(a', open)
    decreases a
  {
    if a.End? {
      a' := End;
    } else if MatchAt(r, cut, p) {
      FrontBehind(a, t, b, r, cut, p, open);
      a' := FrontPass(Drop(a, 11), t, b, r, cut, p + 11, at, false);
      OpenAfterMore(a');
      a' := Mark(Hidden(Matched(r, cut, p)), a');
    } else {
      BehindTheItem(With(a, t, b), r, cut, p);
      a' := FrontPass(a.tail, t, b, r, cut, p + |RenderOf(a.head)|, at, a.head.Hidden? || !IsWord(a.head.c));
      a' := Mark(a.head, a');
    }
  }

  lemma FrontBehind(a: Marks, t: SsnText, b: Marks, r: string, cut: nat, p: nat, open: bool)
    requires Aligned(With(a, t, b), r, p) && OpenAfter(a, open) && a.Mark?
    ensures MatchAt(r, cut, p) ==>
              && Drop(a, 11) < a && Aligned(With(Drop(a, 11), t, b), r, p + 11)
              && Drop(With(a, t, b).tail, 10) == With(Drop(a, 11), t, b)
              && |Source(a)| == 11 + |Source(Drop(a, 11))| && |Render(a)| == 11 + |Render(Drop(a, 11))|
              && OpenAfter(Drop(a, 11), false)
  {
    if MatchAt(r, cut, p) {
      MatchInFront(a, t, b, r, cut, p, open);
      MatchWithin(a, Plus(ShowAll(t), b), r, cut, p);
      EndsInDigit(Matched(r, cut, p));
      OpenAfterShown(Matched(r, cut, p), Drop(a, 11), open);
    }
  }

  lemma {:induction false} SkipPass(x: string, b: Marks, r: string, cut: nat, p: nat)
    requires forall d :: p <= d < p + |x| ==> !MatchAt(r, cut, d)
    ensures Hide(Plus(ShowAll(x), b), r, cut, p) == Plus(ShowAll(x), Hide(b, r, cut, p + |x|))
  {
    if x == "" {
    } else {
      SkipPass(x[1..], b, r, cut, p + 1);
    }
  }

  /** A shape in front of another one stays. */
  lemma ShapePass(t: SsnText, t2: SsnText, c: Marks, r: string, cut: nat, p: nat)
    requires Aligned(Plus(ShowAll(t), Plus(ShowAll(t2), c)), r, p)
    ensures Hide(Plus(ShowAll(t), Plus(ShowAll(t2), c)), r, cut, p)
         == Plus(ShowAll(t), Hide(Plus(ShowAll(t2), c), r, cut, p + 11))
  {
    ShapeBehind(End, t, Plus(ShowAll(t2), c), r, p);
    Shows(t);
    ShapeBehind(ShowAll(t), t2, c, r, p);
    NoMatchInFirst(r, cut, p);
    SkipPass(t, Plus(ShowAll(t2), c), r, cut, p);
  }

  lemma NoMatchInFirst(r: string, cut: nat, p: nat)
    requires ShapeAt(r, p) && ShapeAt(r, p + 11)
    ensures forall d :: p <= d < p + 11 ==> !MatchAt(r, cut, d)
  {
    forall d | p <= d < p + 11 ensures !MatchAt(r, cut, d) {
      if p < d && ShapeAt(r, d) {
        ShapesOverlap(r, p, d);
        ShapesOverlap(r, d, p + 11);
      }
    }
  }

  lemma {:induction false} OpenedFront(g: Marks, b: Marks, x: string, open: bool)
    requires Opened(Plus(g, b), open)
    ensures Opened(Plus(g, ShowAll(x)), open)
    decreases g
  {
    match g
    case End => ShownOpened(x, open);
    case Mark(Hidden(_), rest) => OpenedFront(rest, b, x, true);
    case Mark(Shown(c), rest) => OpenedFront(rest, b, x, !IsWord(c));
  }

  /** Nothing, or one hidden item. */
  predicate AtMostHidden(e: Marks) { e.Mark? ==> e.head.Hidden? && e.tail.End? }

  lemma ReadPlan(g: Marks, e: Marks, rest: Marks)
    ensures Source(Plus(g, Plus(e, rest))) == Source(Plus(g, ShowAll(Source(e)))) + Source(rest)
    ensures |Source(Plus(g, ShowAll(Source(e))))| == |Source(g)| + |Source(e)|
  {
    var x := Source(e);
    AppendSource(g, Plus(e, rest));
    AppendSource(e, rest);
    AppendSource(g, ShowAll(x));
    Shows(x);
    Assoc(Source(g), x, Source(rest));
  }

  /** An item that the plan shows is not matched. */
  lemma PlanShows(g: Marks, e: Marks, rest: Marks, r: string, cut: nat, p: nat, open: bool)
    requires AtMostHidden(e) && (e.End? ==> rest.End?) && g.Mark? && g.head.Shown?
    requires Opened(Plus(g, Plus(e, rest)), open) && Settled(Plus(g, Plus(e, rest)), open)
    requires Aligned(Plus(g, ShowAll(Source(e))), r, p) && cut < p && open == OpenAt(r, p)
    ensures !MatchAt(r, cut, p)
  {
    if MatchAt(r, cut, p) {
      var all := Plus(g, ShowAll(Source(e)));
      var t, b := Matched(r, cut, p), Drop(all.tail, 10);
      ShownUnderMatch(all, r, cut, p);
      ReadPlan(g, e, rest);
      OpenedFront(g, Plus(e, rest), Source(e), open);
      EndsInDigit(t);
      OpenedBehind(t, b, open);
      Assoc(t, Source(b), Source(rest));
      ShapeFirst(t, Source(b) + Source(rest));
      AppendRender(ShowAll(t), b);
      Shows(t);
      EmptySource(b);
      NextToMatch(r, p, t, b);
    }
  }

  lemma NextToMatch(r: string, p: nat, t: SsnText, b: Marks)
    requires p <= |r| && r[p..] == t + Render(b) && Opened(b, false)
    ensures b.Mark? ==> p + 11 < |r| && Source(b) != "" && r[p+11] == Source(b)[0]
  {
    if b.Mark? {
      assert r[p..][11] == Render(b)[0];
    }
  }

  /** A window whose marks follow the plan `g`, then `e`, leaves exactly these. */
  lemma {:induction false} TailPass(g: Marks, e: Marks, rest: Marks, r: string, cut: nat, p: nat, open: bool)
    requires AtMostHidden(e) && (e.End? ==> rest.End?)
    requires Opened(Plus(g, Plus(e, rest)), open) && Settled(Plus(g, Plus(e, rest)), open)
    requires Aligned(Plus(g, ShowAll(Source(e))), r, p) && cut < p && open == OpenAt(r, p)
    ensures Hide(Plus(g, ShowAll(Source(e))), r, cut, p) == Plus(g, e)
    decreases g
  {
    if g.End? {
      PlanEnds(e, rest, r, cut, p, open);
    } else {
      if g.head.Shown? { PlanShows(g, e, rest, r, cut, p, open); }
      var all := Plus(g, ShowAll(Source(e)));
      PlaceholderStays(all, r, cut, p);
      BehindTheItem(all, r, cut, p);
      TailPass(g.tail, e, rest, r, cut, p + |RenderOf(g.head)|, g.head.Hidden? || !IsWord(g.head.c));
    }
  }

  lemma PlanEnds(e: Marks, rest: Marks, r: string, cut: nat, p: nat, open: bool)
    requires AtMostHidden(e) && Opened(Plus(e, rest), open)
    requires Aligned(ShowAll(Source(e)), r, p) && cut < p && open == OpenAt(r, p)
    ensures Hide(ShowAll(Source(e)), r, cut, p) == e
  {
    if e.Mark? {
      assert Source(e) == e.head.text;
      LastHidden(e.head.text, r, cut, p);
    }
  }

  lemma PlaceholderStays(m: Marks, r: string, cut: nat, p: nat)
    requires m.Mark? && Aligned(m, r, p)
    ensures m.head.Hidden? ==> !MatchAt(r, cut, p)
  {
    if m.head.Hidden? { assert r[p] == r[p..][0]; }
  }

  /** The end of a window that is a shape with no word character in front of it. */
  lemma LastHidden(t: SsnText, r: string, cut: nat, p: nat)
    requires Aligned(ShowAll(t), r, p) && cut < p && OpenAt(r, p)
    ensures Hide(ShowAll(t), r, cut, p) == Mark(Hidden(t), End)
  {
    Shows(t);
    Rejoin(r, p);
    assert r[..p] + (t + "") == r;
    ShapeInFront(r[..p], t, "", r);
    ShownUnderMatch(ShowAll(t), r, cut, p);
    assert Matched(r, cut, p) == t;
    EmptySource(Drop(ShowAll(t).tail, 10));
  }

  // ----- a stream that delivers an SSN -----

  /** The marks of a stream of these tokens. */
  ghost predicate Holds(tokens: seq<string>, m: Marks)
    requires AreRegexes(SsnOnly())
  {
    var st := StreamOver(SsnOnly(), tokens);
    Source(m) == Concat(tokens) && Carries(m, st.sent, st.carry) && |st.carry| <= CARRY_SIZE
  }

  lemma HoldsNothing()
    requires AreRegexes(SsnOnly())
    ensures Holds([], End)
  {
  }

  lemma NextHolds(tokens: seq<string>, m: Marks, token: string)
    requires AreRegexes(SsnOnly()) && Holds(tokens, m)
    ensures Holds(tokens + [token], WindowMarks(m, StreamOver(SsnOnly(), tokens), token))
  {
    var st := StreamOver(SsnOnly(), tokens);
    OneTokenMore(tokens, token);
    WindowReads(m, st, token);
    CarryNext(WindowMarks(m, st, token), st, token);
    HeldFits(Redacted(SsnOnly(), st.carry + token));
  }

  lemma OneTokenMore(tokens: seq<string>, token: string)
    requires AreRegexes(SsnOnly())
    ensures StreamOver(SsnOnly(), tokens + [token]) == StreamNext(SsnOnly(), StreamOver(SsnOnly(), tokens), token)
    ensures Concat(tokens + [token]) == Concat(tokens) + token
  {
    assert (tokens + [token])[..|tokens|] == tokens;
  }

  lemma HeldFits(redacted: string)
    ensures |Held(redacted)| <= CARRY_SIZE
  {
  }

  lemma {:induction false} HiddenEnds(m: Marks, i: nat, open: bool)
    requires HiddenAt(m, i) && i + 11 == |Source(m)|
    ensures OpenAfter(m, open)
    decreases m
  {
    if i == 0 {
      EmptySource(m.tail);
    } else {
      HiddenEnds(m.tail, i - |SourceOf(m.head)|, m.head.Hidden? || !IsWord(m.head.c));
    }
  }

  lemma EndIsMatched(m: Marks, t: SsnText, r: string, cut: nat)
    requires r == Render(m) + t && OpenAfter(m, true) && cut <= |Render(m)|
    ensures MatchAt(r, cut, |Render(m)|)
  {
    if m.Mark? { OpenAfterIs(m, true); }
    assert Render(m) + (t + "") == r;
    ShapeInFront(Render(m), t, "", r);
  }

  lemma EndIsHidden(m: Marks, t: SsnText, r: string, cut: nat)
    requires r == Render(m) + t && Aligned(Plus(m, ShowAll(t)), r, 0) && OpenAfter(m, true) && cut <= |Render(m)|
    ensures HiddenAt(Hide(Plus(m, ShowAll(t)), r, cut, 0), |Source(m)|)
  {
    EndIsMatched(m, t, r, cut);
    HideGains(m, ShowAll(t), r, cut, 0, |Render(m)|);
  }

  /** A window that ends with a shape behind open marks hides the shape. */
  lemma WindowHidesEnd(m: Marks, st: StreamState, t: SsnText)
    requires Carries(m, st.sent, st.carry) && OpenAfter(m, true)
    ensures OpenAfter(WindowMarks(m, st, t), true)
  {
    var r := st.sent + (st.carry + t);
    WindowReads(m, st, t);
    Assoc(st.sent, st.carry, t);
    EndIsHidden(m, t, r, |st.sent|);
    HiddenEnds(WindowMarks(m, st, t), |Source(m)|, true);
  }

  lemma FreeLeftOpens(m: Marks, full: string)
    requires Source(m) <= full && FreeLeft(full, |Source(m)|)
    ensures OpenAfter(m, true)
  {
    if m.Mark? {
      LastChars(m);
      OpenAfterIs(m, true);
    }
  }

  ghost function TextAt(full: string, j: nat): (t: SsnText)
    requires ShapeAt(full, j)
    ensures t == full[j..j+11]
  {
    var t := full[j..j+11];
    assert forall i :: 0 <= i < 11 ==> t[i] == full[j + i];
    t
  }

  /** A loose place can be reached with nothing but open marks in front of it. */
  lemma {:induction false} LooseTokens(full: string, j: nat) returns (tokens: seq<string>, a: Marks)
    requires AreRegexes(SsnOnly()) && j <= |full| && Loose(full, j)
    ensures Holds(tokens, a) && Source(a) == full[..j] && OpenAfter(a, true)
  {
    if FreeLeft(full, j) {
      tokens, a := FreeTokens(full, j);
    } else {
      var before, b := LooseTokens(full, j - 11);
      tokens, a := ShapeTokens(full, j - 11, before, b);
    }
  }

  lemma FreeTokens(full: string, j: nat) returns (tokens: seq<string>, a: Marks)
    requires AreRegexes(SsnOnly()) && j <= |full| && FreeLeft(full, j)
    ensures Holds(tokens, a) && Source(a) == full[..j] && OpenAfter(a, true)
  {
    HoldsNothing();
    tokens, a := [] + [full[..j]], WindowMarks(End, StreamOver(SsnOnly(), []), full[..j]);
    NextHolds([], End, full[..j]);
    WindowReads(End, StreamOver(SsnOnly(), []), full[..j]);
    NoFront(full[..j]);
    FreeLeftOpens(a, full);
  }

  lemma ShapeTokens(full: string, i: nat, before: seq<string>, b: Marks) returns (tokens: seq<string>, a: Marks)
    requires AreRegexes(SsnOnly()) && Holds(before, b) && OpenAfter(b, true)
    requires ShapeAt(full, i) && Source(b) == full[..i]
    ensures Holds(tokens, a) && Source(a) == full[..i+11] && OpenAfter(a, true)
  {
    PartsOf(full, i, i + 11);
    tokens, a := OneShapeMore(before, b, TextAt(full, i));
  }

  lemma OneShapeMore(before: seq<string>, b: Marks, t: SsnText) returns (tokens: seq<string>, a: Marks)
    requires AreRegexes(SsnOnly()) && Holds(before, b) && OpenAfter(b, true)
    ensures Holds(tokens, a) && Source(a) == Source(b) + t && OpenAfter(a, true)
  {
    var st := StreamOver(SsnOnly(), before);
    NextHolds(before, b, t);
    WindowHidesEnd(b, st, t);
    WindowReads(b, st, t);
    tokens, a := before + [t], WindowMarks(b, st, t);
  }

  lemma TwinsAligned(a: Marks, t: SsnText, t2: SsnText, c: Marks, r: string, at: nat)
    requires r == Render(With(a, t, Plus(ShowAll(t2), c))) && at == |Render(a)|
    ensures Aligned(With(a, t, Plus(ShowAll(t2), c)), r, 0)
    ensures Aligned(Plus(ShowAll(t), Plus(ShowAll(t2), c)), r, at)
    ensures Aligned(Plus(ShowAll(t2), c), r, at + 11) && !OpenAt(r, at + 11)
  {
    var x := Plus(ShowAll(t2), c);
    WithRead(a, t, x);
    AppendRender(ShowAll(t), x);
    Shows(t);
    assert r[0..] == r;
    DropAppend(Render(a), t + Render(x), at);
    DropAppend(Render(a) + t, Render(x), at + 11);
    Assoc(Render(a), t, Render(x));
    EndsInDigit(t);
    LastAppend(Render(a), t);
  }

  /** A window over two shapes side by side leaves the first, and passes on to the second. */
  lemma TwinPass(a: Marks, t: SsnText, t2: SsnText, c: Marks, r: string, cut: nat, at: nat) returns (a': Marks)
    requires r == Render(With(a, t, Plus(ShowAll(t2), c))) && OpenAfter(a, true) && at == |Render(a)| + 11
    ensures Hide(With(a, t, Plus(ShowAll(t2), c)), r, cut, 0) == With(a', t, Hide(Plus(ShowAll(t2), c), r, cut, at))
    ensures |Source(a')| == |Source(a)| && OpenAfter(a', true)
    ensures Aligned(Plus(ShowAll(t2), c), r, at) && !OpenAt(r, at)
  {
    TwinsAligned(a, t, t2, c, r, |Render(a)|);
    a' := FrontPass(a, t, Plus(ShowAll(t2), c), r, cut, 0, |Render(a)|, true);
    ShapePass(t, t2, c, r, cut, |Render(a)|);
  }

  /** The plan for what stands behind a shape: it begins with another shape, and is a way to render its text. */
  ghost predicate IsPlan(c: Marks) { Opened(c, false) && Settled(c, false) && |Render(c)| == CARRY_SIZE }

  /** One window of the plan: up to a hidden item, or to the end. */
  lemma PlanWindow(tokens: seq<string>, m: Marks, token: string, a: Marks, t: SsnText, t2: SsnText, g: Marks, e: Marks, rest: Marks)
    returns (a': Marks)
    requires AreRegexes(SsnOnly()) && Holds(tokens, m) && OpenAfter(a, true)
    requires Plus(m, ShowAll(token)) == With(a, t, Plus(Plus(ShowAll(t2), g), ShowAll(Source(e))))
    requires AtMostHidden(e) && (e.End? ==> rest.End?) && IsPlan(Plus(Plus(ShowAll(t2), g), Plus(e, rest)))
    requires |Render(m)| < |Render(a)| + 11 + CARRY_SIZE
    ensures Holds(tokens + [token], With(a', t, Plus(Plus(ShowAll(t2), g), e)))
    ensures Source(With(a', t, Plus(Plus(ShowAll(t2), g), e))) == Source(m) + token
    ensures |Source(a')| == |Source(a)| && OpenAfter(a', true)
  {
    var st, front, x := StreamOver(SsnOnly(), tokens), Plus(ShowAll(t2), g), ShowAll(Source(e));
    var r := st.sent + (st.carry + token);
    NextHolds(tokens, m, token);
    WindowReads(m, st, token);
    PlusAssoc(ShowAll(t2), g, x);
    assert r[0..] == r;
    a' := TwinPass(a, t, t2, Plus(g, x), r, |st.sent|, |Render(a)| + 11);
    TailPass(front, e, rest, r, |st.sent|, |Render(a)| + 11, false);
  }

  /** The plan `Plus(g, todo)` for the text `goal`; the marks `m` and the pending text `y` are its front `g`. */
  ghost predicate Ahead(goal: string, m: Marks, y: string, a: Marks, t: SsnText, t2: SsnText, g: Marks, todo: Marks) {
    && Plus(m, ShowAll(y)) == With(a, t, Plus(ShowAll(t2), g)) && OpenAfter(a, true)
    && IsPlan(Plus(Plus(ShowAll(t2), g), todo))
    && Source(m) + (y + Source(todo)) == goal
  }

  lemma ShownMore(m: Marks, y: string, c: char)
    ensures Plus(m, ShowAll(y + [c])) == Plus(Plus(m, ShowAll(y)), Mark(Shown(c), End))
  {
    ShowAllPlus(y + [c], |y|);
    assert (y + [c])[..|y|] == y && (y + [c])[|y|..] == [c] && [c][1..] == "";
    PlusAssoc(m, ShowAll(y), Mark(Shown(c), End));
  }

  lemma WithMore(a: Marks, t: SsnText, t2: SsnText, g: Marks, x: Marks)
    ensures Plus(With(a, t, Plus(ShowAll(t2), g)), x) == With(a, t, Plus(ShowAll(t2), Plus(g, x)))
    ensures Plus(Plus(ShowAll(t2), g), x) == Plus(ShowAll(t2), Plus(g, x))
  {
    PlusAssoc(a, Plus(ShowAll(t), Plus(ShowAll(t2), g)), x);
    PlusAssoc(ShowAll(t), Plus(ShowAll(t2), g), x);
    PlusAssoc(ShowAll(t2), g, x);
  }

  lemma AheadShown(goal: string, m: Marks, y: string, a: Marks, t: SsnText, t2: SsnText, g: Marks, c: char, rest: Marks)
    requires Ahead(goal, m, y, a, t, t2, g, Mark(Shown(c), rest))
    ensures Ahead(goal, m, y + [c], a, t, t2, Plus(g, Mark(Shown(c), End)), rest)
  {
    var x := Mark(Shown(c), End);
    ShownMore(m, y, c);
    WithMore(a, t, t2, g, x);
    PlusAssoc(Plus(ShowAll(t2), g), x, rest);
    Assoc(y, [c], Source(rest));
  }

  /** One window: the pending text and what the plan hides next. */
  lemma AheadWindow(goal: string, tokens: seq<string>, m: Marks, y: string, a: Marks, t: SsnText, t2: SsnText,
                    g: Marks, e: Marks, rest: Marks)
    returns (a': Marks)
    requires AreRegexes(SsnOnly()) && Holds(tokens, m)
    requires Ahead(goal, m, y, a, t, t2, g, Plus(e, rest))
    requires AtMostHidden(e) && (e.End? ==> rest.End?) && y + Source(e) != ""
    ensures Holds(tokens + [y + Source(e)], With(a', t, Plus(ShowAll(t2), Plus(g, e))))
    ensures Ahead(goal, With(a', t, Plus(ShowAll(t2), Plus(g, e))), "", a', t, t2, Plus(g, e), rest)
    ensures |Source(a')| == |Source(a)|
  {
    var token, x := y + Source(e), ShowAll(Source(e));
    ShowAllSum(y, Source(e));
    PlusAssoc(m, ShowAll(y), x);
    WithMore(a, t, t2, g, x);
    WithMore(a, t, t2, g, e);
    BeforeEnd(goal, m, y, a, t, t2, g, e, rest);
    a' := PlanWindow(tokens, m, token, a, t, t2, g, e, rest);
    PlusAssoc(Plus(ShowAll(t2), g), e, rest);
    PlusEnd(With(a', t, Plus(ShowAll(t2), Plus(g, e))));
    SameGoal(Source(m), y, e, rest);
  }

  lemma SameGoal(x: string, y: string, e: Marks, rest: Marks)
    ensures x + (y + Source(Plus(e, rest))) == (x + (y + Source(e))) + ("" + Source(rest))
  {
    AppendSource(e, rest);
    Assoc(y, Source(e), Source(rest));
    Assoc(x, y + Source(e), Source(rest));
  }

  lemma {:induction false} PlusEnd(m: Marks)
    ensures Plus(m, End) == m
  {
    if m.Mark? { PlusEnd(m.tail); }
  }

  lemma ShowAllSum(x: string, y: string)
    ensures ShowAll(x + y) == Plus(ShowAll(x), ShowAll(y))
  {
    ShowAllPlus(x + y, |x|);
    assert (x + y)[..|x|] == x && (x + y)[|x|..] == y;
  }

  lemma RenderSize(a: Marks, b: Marks)
    ensures |Render(Plus(a, b))| == |Render(a)| + |Render(b)|
  {
    AppendRender(a, b);
  }

  lemma ShownSize(all: Marks, m: Marks, y: string)
    requires all == Plus(m, ShowAll(y))
    ensures |Render(all)| == |Render(m)| + |y|
  {
    RenderSize(m, ShowAll(y));
    Shows(y);
  }

  lemma WithSize(all: Marks, a: Marks, t: SsnText, front: Marks)
    requires all == With(a, t, front)
    ensures |Render(all)| == |Render(a)| + 11 + |Render(front)|
  {
    WithRead(a, t, front);
  }

  /** Before its last window the plan has rendered less than a carry. */
  lemma BeforeEnd(goal: string, m: Marks, y: string, a: Marks, t: SsnText, t2: SsnText, g: Marks, e: Marks, rest: Marks)
    requires Ahead(goal, m, y, a, t, t2, g, Plus(e, rest)) && y + Source(e) != ""
    ensures |Render(m)| < |Render(a)| + 11 + CARRY_SIZE
  {
    var all := Plus(m, ShowAll(y));
    ShownSize(all, m, y);
    WithSize(all, a, t, Plus(ShowAll(t2), g));
    RenderSize(Plus(ShowAll(t2), g), Plus(e, rest));
    RenderSize(e, rest);
    EmptyBoth(e);
  }

  lemma EmptyBoth(e: Marks)
    ensures Source(e) == "" <==> Render(e) == ""
  {
    EmptySource(e);
    if e.Mark? { FirstChars(e); }
  }

  /** The whole plan, window by window. */
  lemma {:induction false} PlanTokens(goal: string, tokens: seq<string>, m: Marks, y: string, a: Marks,
                                      t: SsnText, t2: SsnText, g: Marks, todo: Marks)
    returns (all: seq<string>, a': Marks, c: Marks)
    requires AreRegexes(SsnOnly()) && Holds(tokens, m) && Ahead(goal, m, y, a, t, t2, g, todo)
    ensures Concat(all) == goal && Holds(all, With(a', t, Plus(ShowAll(t2), c))) && |Source(a')| == |Source(a)|
    ensures OpenAfter(a', true) && IsPlan(Plus(ShowAll(t2), c))
    decreases todo
  {
    match todo
    case Mark(Shown(x), rest) =>
      AheadShown(goal, m, y, a, t, t2, g, x, rest);
      all, a', c := PlanTokens(goal, tokens, m, y + [x], a, t, t2, Plus(g, Mark(Shown(x), End)), rest);
    case Mark(Hidden(x), rest) =>
      var e := Mark(Hidden(x), End);
      a' := AheadWindow(goal, tokens, m, y, a, t, t2, g, e, rest);
      all, a', c := PlanTokens(goal, tokens + [y + Source(e)], With(a', t, Plus(ShowAll(t2), Plus(g, e))), "",
                               a', t, t2, Plus(g, e), rest);
    case End =>
      all, a', c := PlanEnd(goal, tokens, m, y, a, t, t2, g);
  }

  lemma PlanEnd(goal: string, tokens: seq<string>, m: Marks, y: string, a: Marks, t: SsnText, t2: SsnText, g: Marks)
    returns (all: seq<string>, a': Marks, c: Marks)
    requires AreRegexes(SsnOnly()) && Holds(tokens, m) && Ahead(goal, m, y, a, t, t2, g, End)
    ensures Concat(all) == goal && Holds(all, With(a', t, Plus(ShowAll(t2), c))) && |Source(a')| == |Source(a)|
    ensures OpenAfter(a', true) && IsPlan(Plus(ShowAll(t2), c))
  {
    PlusEnd(Plus(ShowAll(t2), g));
    PlusEnd(g);
    if y == "" {
      PlusEnd(m);
      all, a', c := tokens, a, g;
    } else {
      a' := AheadWindow(goal, tokens, m, y, a, t, t2, g, End, End);
      all, c := tokens + [y + Source(End)], g;
    }
  }

  /** A plan that begins with a shape. */
  lemma PlanFor(full: string, k: nat) returns (n: nat, t2: SsnText, c: Marks)
    requires Late(full, k)
    ensures k <= n <= |full| && IsPlan(Plus(ShowAll(t2), c)) && full[k..n] == t2 + Source(c)
    ensures Source(Plus(ShowAll(t2), c)) == t2 + Source(c)
  {
    n :| k <= n <= |full| && Fills(full, k, n);
    var m := RenderMarks(full[k..n], false, CARRY_SIZE);
    if |Source(m)| < 11 { ShortIsShown(m); }
    SubShape(full, k, n);
    t2, c := ShapeUnhidden(m, false);
  }

  lemma SubShape(full: string, k: nat, n: nat)
    requires ShapeAt(full, k) && k + 11 <= n <= |full|
    ensures ShapeAt(full[k..n], 0)
  {
    var x := full[k..n];
    assert forall i :: 0 <= i < 11 ==> x[i] == full[k + i];
  }

  /** Open marks up to two shapes, and a plan for what stands behind the first. */
  lemma StartPlan(full: string)
    returns (before: seq<string>, b: Marks, n: nat, t: SsnText, t2: SsnText, todo: Marks)
    requires AreRegexes(SsnOnly()) && Exposed(full)
    ensures Holds(before, b) && FreeRight(full, |Source(b)| + 11)
    ensures n <= |full| && Ahead(full[..n], b, t + t2, b, t, t2, End, todo)
  {
    var j: nat :| Exposes(full, j);
    before, b := LooseTokens(full, j);
    n, t, t2, todo := PlanAt(full, j, b);
  }

  lemma PlanAt(full: string, j: nat, b: Marks) returns (n: nat, t: SsnText, t2: SsnText, todo: Marks)
    requires j <= |full| && Source(b) == full[..j] && OpenAfter(b, true)
    requires Exposes(full, j)
    ensures n <= |full| && Ahead(full[..n], b, t + t2, b, t, t2, End, todo)
    ensures FreeRight(full, j + 11)
  {
    n, t2, todo := PlanFor(full, j + 11);
    t := TextAt(full, j);
    PartsOf(full, j, j + 11);
    PartsOf(full, j + 11, n);
    AheadAtStart(full[..n], b, t, t2, todo);
  }

  lemma PartsOf(s: string, i: nat, n: nat)
    requires i <= n <= |s|
    ensures s[..i] + s[i..n] == s[..n]
  {
  }

  /** The stream up to the point where the carry begins with the second of two shapes. */
  lemma TokensToCarry(full: string)
    returns (tokens: seq<string>, n: nat, a: Marks, t: SsnText, t2: SsnText, c: Marks)
    requires AreRegexes(SsnOnly()) && Exposed(full)
    ensures Holds(tokens, With(a, t, Plus(ShowAll(t2), c))) && OpenAfter(a, true)
    ensures IsPlan(Plus(ShowAll(t2), c))
    ensures n <= |full| && Concat(tokens) == full[..n] && FreeRight(full, |Source(a)| + 11)
  {
    var before, b, todo;
    before, b, n, t, t2, todo := StartPlan(full);
    tokens, a, c := PlanTokens(full[..n], before, b, t + t2, b, t, t2, End, todo);
  }

  lemma AheadAtStart(goal: string, b: Marks, t: SsnText, t2: SsnText, todo: Marks)
    requires OpenAfter(b, true) && IsPlan(Plus(ShowAll(t2), todo))
    requires goal == (Source(b) + t) + (t2 + Source(todo))
    ensures Ahead(goal, b, t + t2, b, t, t2, End, todo)
  {
    ShowAllSum(t, t2);
    PlusEnd(ShowAll(t2));
    Assoc(t, t2, Source(todo));
    Assoc(Source(b), t, t2 + Source(todo));
  }

  lemma CutIsMatched(t2: SsnText, c: Marks, r: string, cut: nat)
    requires Aligned(Plus(ShowAll(t2), c), r, cut) && Render(c) != "" && !IsWord(Render(c)[0])
    ensures MatchAt(r, cut, cut)
  {
    AppendRender(ShowAll(t2), c);
    Shows(t2);
    Rejoin(r, cut);
    ShapeInFront(r[..cut], t2, Render(c), r);
  }

  lemma SsnInFront(a: Marks, t: SsnText, b: Marks)
    requires OpenAfter(a, true) && b.Mark? && b.head.Hidden?
    ensures SsnAt(Render(With(a, t, b)), |Render(a)|)
  {
    WithRead(a, t, b);
    if a.Mark? { OpenAfterIs(a, true); }
    Between(Render(a), t, Render(b));
  }

  /** The last window begins with the second shape, hides it, and leaves the first an SSN. */
  lemma LastWindow(a: Marks, t: SsnText, t2: SsnText, c: Marks, st: StreamState, last: string) returns (r: nat)
    requires var m := With(a, t, Plus(ShowAll(t2), c)); Carries(m, st.sent, st.carry) && OpenAfter(a, true)
    requires |st.sent| == |Render(a)| + 11 && Render(c) != "" && !IsWord(Render(c)[0])
    ensures SsnAt(Render(WindowMarks(With(a, t, Plus(ShowAll(t2), c)), st, last)), r)
  {
    var m, x, text := With(a, t, Plus(ShowAll(t2), c)), ShowAll(last), st.sent + (st.carry + last);
    WindowReads(m, st, last);
    WithMore(a, t, t2, c, x);
    assert text[0..] == text;
    var a' := TwinPass(a, t, t2, Plus(c, x), text, |st.sent|, |st.sent|);
    AppendRender(c, x);
    CutIsMatched(t2, Plus(c, x), text, |st.sent|);
    SsnInFront(a', t, Hide(Plus(ShowAll(t2), Plus(c, x)), text, |st.sent|, |st.sent|));
    r := |Render(a')|;
  }

  lemma PlanSource(a: Marks, t: SsnText, t2: SsnText, c: Marks)
    ensures Source(With(a, t, Plus(ShowAll(t2), c))) == Source(a) + (t + (t2 + Source(c)))
  {
    WithRead(a, t, Plus(ShowAll(t2), c));
    AppendSource(ShowAll(t2), c);
    Shows(t2);
  }

  lemma PlanGoesOn(full: string, a: Marks, t: SsnText, t2: SsnText, c: Marks)
    requires Source(With(a, t, Plus(ShowAll(t2), c))) <= full
    requires FreeRight(full, |Source(a)| + 11) && Source(c) != ""
    ensures !IsWord(Source(c)[0])
  {
    PlanSource(a, t, t2, c);
    NextIsFree(full, Source(a), t, t2, Source(c));
  }

  lemma PlanNext(t2: SsnText, c: Marks)
    requires IsPlan(Plus(ShowAll(t2), c))
    ensures Render(c) != "" && Source(c) != "" && Render(c)[0] == Source(c)[0]
  {
    Shows(t2);
    RenderSize(ShowAll(t2), c);
    EndsInDigit(t2);
    OpenedBehind(t2, c, false);
    FirstChars(c);
  }

  lemma NextIsFree(full: string, x: string, t: SsnText, t2: SsnText, y: string)
    requires x + (t + (t2 + y)) <= full && y != "" && FreeRight(full, |x| + 11)
    ensures !IsWord(y[0])
  {
    Assoc(x, t, t2 + y);
    ShapeInFront(x + t, t2, y, full);
  }

  lemma WholeCarry(tokens: seq<string>, a: Marks, t: SsnText, c: Marks)
    requires AreRegexes(SsnOnly()) && Holds(tokens, With(a, t, c)) && |Render(c)| == CARRY_SIZE
    ensures |StreamOver(SsnOnly(), tokens).sent| == |Render(a)| + 11
  {
    WithRead(a, t, c);
  }

  ghost predicate HoldsSsn(s: string) { exists r: nat :: SsnAt(s, r) }

  lemma LastDelivers(tokens: seq<string>, last: string, a: Marks, t: SsnText, t2: SsnText, c: Marks)
    requires AreRegexes(SsnOnly()) && Holds(tokens, With(a, t, Plus(ShowAll(t2), c))) && OpenAfter(a, true)
    requires IsPlan(Plus(ShowAll(t2), c)) && Render(c) != "" && !IsWord(Render(c)[0])
    ensures HoldsSsn(StreamText(SsnOnly(), tokens, last))
  {
    var st := StreamOver(SsnOnly(), tokens);
    WholeCarry(tokens, a, t, Plus(ShowAll(t2), c));
    var r := LastWindow(a, t, t2, c, st, last);
    WindowReads(With(a, t, Plus(ShowAll(t2), c)), st, last);
    FlushIsPass(tokens, last);
  }

  /** A stream that delivers an SSN. */
  lemma ExposedIsDelivered(full: string) returns (tokens: seq<string>, last: string)
    requires AreRegexes(SsnOnly()) && Exposed(full)
    ensures Concat(tokens) + last == full && HoldsSsn(StreamText(SsnOnly(), tokens, last))
  {
    var n, a, t, t2, c;
    tokens, n, a, t, t2, c := TokensToCarry(full);
    last := full[n..];
    Rejoin(full, n);
    PlanNext(t2, c);
    PlanGoesOn(full, a, t, t2, c);
    LastDelivers(tokens, last, a, t, t2, c);
  }

  // ----- the exact condition -----

  /** No stream of the text delivers an SSN. */
  ghost predicate NoStreamHoldsSsn(full: string)
    requires AreRegexes(SsnOnly())
  {
    forall tokens, last :: Concat(tokens) + last == full ==> !HoldsSsn(StreamText(SsnOnly(), tokens, last))
  }

  /** Unless the text exposes a shape, no delivered text holds an SSN, for every chunking. */
  lemma DeliveredHoldsNoSsn(tokens: seq<string>, last: string)
    requires !Exposed(Concat(tokens) + last)
    ensures AreRegexes(SsnOnly()) && !HoldsSsn(StreamText(SsnOnly(), tokens, last))
  {
    SsnRuleIsRegex();
    if r: nat :| SsnAt(StreamText(SsnOnly(), tokens, last), r) {
      var m, cut := DeliveredMarks(tokens, last);
      var j := SsnIsExposed(Concat(tokens) + last, m, cut, r);
    }
  }

  /** No stream of a text delivers an SSN, if and only if the text has no shape, loose in front,
      with a shape behind it that a carry can begin with. */
  lemma StreamHoldsNoSsn(full: string)
    ensures AreRegexes(SsnOnly())
    ensures NoStreamHoldsSsn(full) <==> !Exposed(full)
  {
    SsnRuleIsRegex();
    if Exposed(full) {
      var tokens, last := ExposedIsDelivered(full);
    } else {
      forall tokens, last | Concat(tokens) + last == full
        ensures !HoldsSsn(StreamText(SsnOnly(), tokens, last))
      {
        DeliveredHoldsNoSsn(tokens, last);
      }
    }
  }

  /** So it takes two shapes side by side. */
  lemma TwinsAreNeeded(tokens: seq<string>, last: string)
    requires forall j: nat :: !(ShapeAt(Concat(tokens) + last, j) && ShapeAt(Concat(tokens) + last, j + 11))
    ensures AreRegexes(SsnOnly()) && !HoldsSsn(StreamText(SsnOnly(), tokens, last))
  {
    DeliveredHoldsNoSsn(tokens, last);
  }
}
