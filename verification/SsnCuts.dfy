/** When it matters for the SSN rule how a text is cut into chunks: the exact condition on
    the text under which every stream of it is one pass over the whole. */
module SsnCuts {
  import opened CharClass
  import opened Ssn
  import opened Marked
  import opened OutputGuard
  import opened SsnStream
  import opened SsnPass
  import opened Texts

  // ----- the condition -----

  predicate FreeLeft(s: string, j: nat)
    requires j <= |s|
  {
    j == 0 || !IsWord(s[j-1])
  }

  predicate FreeRight(s: string, j: nat) { j + 11 < |s| ==> !IsWord(s[j+11]) }

  /** Only the character behind it keeps the shape at `j` from being an SSN: it is taken for
      one by a window that ends right behind it. */
  predicate EndsTooSoon(s: string, j: nat) {
    ShapeAt(s, j) && FreeLeft(s, j) && !FreeRight(s, j)
  }

  /** The first `n` characters, redacted, have exactly the carry from `j` on. */
  predicate CarryBegins(s: string, j: nat, n: nat)
    requires j <= n <= |s|
  {
    |RedactFrom(s[..n], 0, j)| == CARRY_SIZE
  }

  predicate InsideSsn(s: string, j: nat) { exists i: nat :: i < j < i + 11 && SsnAt(s, i) }

  /** Only the character in front of it keeps the shape at `j` from being an SSN, and some
      carry begins with the shape: the next window does not show that character. */
  predicate BeginsTooLate(s: string, j: nat) {
    exists n: nat :: j + 11 <= n <= |s| && CarryBegins(s, j, n)
      && ShapeAt(s, j) && !FreeLeft(s, j) && FreeRight(s, j) && !InsideSsn(s, j)
  }

  predicate Sensitive(s: string, j: nat) { EndsTooSoon(s, j) || BeginsTooLate(s, j) }

  ghost predicate Insensitive(full: string) { forall j: nat :: !Sensitive(full, j) }

  // ----- marks, compared -----

  lemma EmptySource(m: Marks)
    ensures Source(m) == "" <==> m.End?
  {
  }

  /** Marks are determined by the source and by what is hidden. */
  lemma {:induction false} SameMarks(m: Marks, n: Marks)
    requires Source(m) == Source(n)
    requires forall i: nat :: HiddenAt(m, i) <==> HiddenAt(n, i)
    ensures m == n
  {
    assert HiddenAt(m, 0) <==> HiddenAt(n, 0);
    if m.Mark? && n.Mark? {
      var w := |SourceOf(m.head)|;
      assert |SourceOf(n.head)| == w;
      assert SourceOf(m.head) == Source(m)[..w] && SourceOf(n.head) == Source(n)[..w];
      assert Source(m.tail) == Source(m)[w..] && Source(n.tail) == Source(n)[w..];
      forall i: nat ensures HiddenAt(m.tail, i) <==> HiddenAt(n.tail, i) {
        assert HiddenAt(m, i + w) <==> HiddenAt(n, i + w);
      }
      SameMarks(m.tail, n.tail);
    } else {
      EmptySource(m);
      EmptySource(n);
    }
  }

  /** Where nothing is hidden in the first `k` characters these are shown one by one. */
  lemma {:induction false} ShownFront(m: Marks, k: nat)
    requires k <= |Source(m)| && forall i: nat :: i < k ==> !HiddenAt(m, i)
    ensures m == Plus(ShowAll(Source(m)[..k]), Drop(m, k))
    ensures |Render(m)| == k + |Render(Drop(m, k))| && Source(Drop(m, k)) == Source(m)[k..]
  {
    if k == 0 {
    } else {
      assert !HiddenAt(m, 0);
      forall i: nat | i < k - 1 ensures !HiddenAt(m.tail, i) {
        assert !HiddenAt(m, i + 1);
      }
      ShownFront(m.tail, k - 1);
      FrontOfCons(m.head.c, Source(m.tail), k);
    }
  }

  lemma FrontOfCons(c: char, s: string, k: nat)
    requires 0 < k <= |s| + 1
    ensures ([c] + s)[..k] == [c] + s[..k-1] && ([c] + s)[..k][1..] == s[..k-1] && ([c] + s)[k..] == s[k-1..]
  {
  }

  /** Marks that hide more render longer. */
  lemma {:induction false} MoreHidden(m: Marks, n: Marks, j: nat)
    requires Source(m) == Source(n)
    requires forall i: nat :: HiddenAt(m, i) ==> HiddenAt(n, i)
    ensures |Render(m)| <= |Render(n)|
    ensures HiddenAt(n, j) && !HiddenAt(m, j) ==> |Render(m)| < |Render(n)|
    decreases n
  {
    if n.Mark? && m.Mark? {
      assert HiddenAt(m, 0) ==> HiddenAt(n, 0);
      var w := |SourceOf(n.head)|;
      assert SourceOf(n.head) == Source(n)[..w] && Source(n.tail) == Source(n)[w..];
      if n.head.Hidden? && m.head.Shown? {
        UnderHidden(m, n);
        MoreHidden(Drop(m, 11), n.tail, 0);
      } else {
        assert SourceOf(m.head) == Source(m)[..w] && Source(m.tail) == Source(m)[w..];
        forall i: nat | HiddenAt(m.tail, i) ensures HiddenAt(n.tail, i) {
          assert HiddenAt(m, i + w) && HiddenAt(n, i + w);
        }
        MoreHidden(m.tail, n.tail, if j >= w then j - w else 0);
      }
    } else {
      EmptySource(m);
      EmptySource(n);
    }
  }

  /** Under a hidden item of `n`, `m` hides nothing. */
  lemma UnderHidden(m: Marks, n: Marks)
    requires n.Mark? && n.head.Hidden? && Source(m) == Source(n)
    requires forall i: nat :: HiddenAt(m, i) ==> HiddenAt(n, i)
    requires !HiddenAt(m, 0)
    ensures |Render(m)| == 11 + |Render(Drop(m, 11))| && Source(Drop(m, 11)) == Source(n.tail)
    ensures forall i: nat :: HiddenAt(Drop(m, 11), i) ==> HiddenAt(n.tail, i)
  {
    NoneUnder(m, n);
    ShownFront(m, 11);
    SliceAppend(n.head.text, Source(n.tail), 11);
    forall i: nat | HiddenAt(Drop(m, 11), i) ensures HiddenAt(n.tail, i) {
      HiddenAfter(m, 11, i);
      HiddenBehindHead(n, i + 11);
    }
  }

  lemma NoneUnder(m: Marks, n: Marks)
    requires n.Mark? && n.head.Hidden? && !HiddenAt(m, 0)
    requires forall i: nat :: HiddenAt(m, i) ==> HiddenAt(n, i)
    ensures forall i: nat :: i < 11 ==> !HiddenAt(m, i)
  {
    forall i: nat | i < 11 ensures !HiddenAt(m, i) {
      assert HiddenAt(m, i) ==> HiddenAt(n, i);
    }
  }

  lemma HiddenAfter(m: Marks, k: nat, i: nat)
    requires k <= |Source(m)| && m == Plus(ShowAll(Source(m)[..k]), Drop(m, k)) && HiddenAt(Drop(m, k), i)
    ensures HiddenAt(m, i + k)
  {
    Shows(Source(m)[..k]);
    HiddenAppend(ShowAll(Source(m)[..k]), Drop(m, k), i + k);
  }

  /** Two ways to cut the same marks. */
  lemma {:induction false} CutAgain(m: Marks, x: Marks, a: Marks, b: Marks) returns (mid: Marks)
    requires Plus(m, x) == Plus(a, b) && |Render(a)| <= |Render(m)|
    ensures m == Plus(a, mid) && b == Plus(mid, x)
  {
    if a.End? {
      mid := m;
    } else {
      assert RenderOf(a.head) != "";
      mid := CutAgain(m.tail, x, a.tail, b);
    }
  }

  lemma BoundaryNotInside(a: Marks, b: Marks, k: nat)
    requires HiddenAt(Plus(a, b), k) && k < |Source(a)|
    ensures k + 11 <= |Source(a)|
  {
    HiddenAppend(a, b, k);
    HiddenIsShape(a, k);
  }

  /** The first character is the same in both readings, or a placeholder's bracket. */
  lemma FirstChars(m: Marks)
    requires m.Mark?
    ensures Source(m) != "" && Render(m) != ""
    ensures Render(m)[0] == Source(m)[0] || Render(m)[0] == '['
  {
  }

  /** A shape in the front of a text, and its neighbours. */
  lemma ShapeInFront(x: string, t: SsnText, y: string, full: string)
    requires x + (t + y) <= full
    ensures ShapeAt(full, |x|)
    ensures x != "" ==> (FreeLeft(full, |x|) <==> !IsWord(Last(x)))
    ensures y != "" ==> (FreeRight(full, |x|) <==> !IsWord(y[0]))
  {
    var part := x + (t + y);
    assert forall k :: 0 <= k < |part| ==> full[k] == part[k];
    assert forall k :: 0 <= k < 11 ==> part[|x| + k] == t[k];
    assert x != "" ==> part[|x|-1] == Last(x);
    assert y != "" ==> part[|x|+11] == y[0];
  }

  lemma Rejoin(s: string, n: nat)
    requires n <= |s|
    ensures s[..n] + s[n..] == s
  {
  }

  // ----- a pass, seen from an item -----

  lemma PassTailReads(s: string, p: nat)
    requires p <= |s|
    ensures Render(PassTail(s, p)) == RedactFrom(s, 0, p)
    ensures p == |s| ==> PassTail(s, p) == End
  {
    Shows(s[p..]);
    HideIsRedact(ShowAll(s[p..]), s, 0, p);
  }

  lemma PassUncons(s: string, p: nat, it: Item, tail: Marks)
    requires p <= |s| && PassTail(s, p) == Mark(it, tail)
    ensures p + |SourceOf(it)| <= |s| && tail == PassTail(s, p + |SourceOf(it)|)
  {
    PassTailReads(s, p);
    PassStep(s, p);
  }

  /** The pass, seen from one of its item boundaries. */
  lemma {:induction false} PassFrom(s: string, p: nat, a: Marks, b: Marks)
    requires p <= |s| && PassTail(s, p) == Plus(a, b)
    ensures p + |Source(a)| <= |s| && Render(b) == RedactFrom(s, 0, p + |Source(a)|)
    decreases a
  {
    if a.End? {
      PassTailReads(s, p);
    } else {
      PassUncons(s, p, a.head, Plus(a.tail, b));
      PassFrom(s, p + |SourceOf(a.head)|, a.tail, b);
    }
  }

  /** The redacted front from an item boundary on. */
  lemma CarryFrom(full: string, part: string, a: Marks, b: Marks)
    requires PassMarks(part) == Plus(a, b) && part <= full && |Render(b)| == CARRY_SIZE
    ensures |Source(a)| <= |part| && CarryBegins(full, |Source(a)|, |part|)
  {
    assert part[0..] == part;
    PassFrom(part, 0, a, b);
    assert full[..|part|] == part;
  }

  lemma CarryOf(full: string, part: string, a: Marks, b: Marks)
    requires PassMarks(part) == Plus(a, b) && part <= full
    requires |Source(a)| <= |part| && CarryBegins(full, |Source(a)|, |part|)
    ensures |Render(b)| == CARRY_SIZE
  {
    assert part[0..] == part && full[..|part|] == part;
    PassFrom(part, 0, a, b);
  }

  lemma FullIsHidden(full: string, part: string, i: nat)
    requires part <= full && SsnAt(full, i) && i + 11 <= |part|
    ensures HiddenAt(PassMarks(part), i)
  {
    SsnInPrefix(full, part, i);
    PassIsExact(part, i);
  }

  lemma SsnBefore(full: string, part: string, k: nat)
    requires part <= full && SsnAt(part, k) && k + 11 < |part|
    ensures SsnAt(full, k)
  {
    assert forall i :: 0 <= i < |part| ==> part[i] == full[i];
  }

  lemma NotInsideSsn(full: string, part: string, a: Marks, b: Marks)
    requires PassMarks(part) == Plus(a, b) && part <= full && |Source(a)| + 11 <= |part|
    ensures !InsideSsn(full, |Source(a)|)
  {
    var j := |Source(a)|;
    forall i: nat | i < j < i + 11 ensures !SsnAt(full, i) {
      if SsnAt(full, i) {
        SsnInPrefix(full, part, i);
        PassIsExact(part, i);
        BoundaryNotInside(a, b, i);
      }
    }
  }

  // ----- what a window hides -----

  /** What a pass hides beyond the marks it starts from are shown items between two places
      that are free, or at the cut. */
  lemma {:induction false} NewlyHidden(m: Marks, r: string, cut: nat, p: nat, i: nat)
    returns (a: Marks, t: SsnText, rest: Marks, at: nat)
    requires Aligned(m, r, p) && HiddenAt(Hide(m, r, cut, p), i) && !HiddenAt(m, i)
    ensures m == Plus(a, Plus(ShowAll(t), rest)) && |Source(a)| == i
    ensures at == p + |Render(a)| && at <= |r| && (at == cut || FreeLeft(r, at))
    ensures Render(rest) == "" || !IsWord(Render(rest)[0])
    decreases m, 1
  {
    if !MatchAt(r, cut, p) {
      a, t, rest, at := NewlyHiddenBeyond(m, r, cut, p, i);
    } else if i == 0 {
      MatchedItems(m, r, cut, p);
      a, t, rest, at := End, Source(m)[..11], Drop(m.tail, 10), p;
    } else {
      MatchedItems(m, r, cut, p);
      NewBehindMatch(m, r, cut, p, i);
      a, t, rest, at := NewlyHidden(Drop(m.tail, 10), r, cut, p + 11, i - 11);
      a := BehindShown(Source(m)[..11], a, Plus(ShowAll(t), rest));
    }
  }

  lemma {:induction false} NewlyHiddenBeyond(m: Marks, r: string, cut: nat, p: nat, i: nat)
    returns (a: Marks, t: SsnText, rest: Marks, at: nat)
    requires Aligned(m, r, p) && HiddenAt(Hide(m, r, cut, p), i) && !HiddenAt(m, i) && !MatchAt(r, cut, p)
    ensures m == Plus(a, Plus(ShowAll(t), rest)) && |Source(a)| == i
    ensures at == p + |Render(a)| && at <= |r| && (at == cut || FreeLeft(r, at))
    ensures Render(rest) == "" || !IsWord(Render(rest)[0])
    decreases m, 0
  {
    NewFurtherOn(m, r, cut, p, i);
    a, t, rest, at := NewlyHidden(m.tail, r, cut, p + |RenderOf(m.head)|, i - |SourceOf(m.head)|);
    a := Mark(m.head, a);
  }

  /** The items under a match, and what stands around them. */
  lemma MatchedItems(m: Marks, r: string, cut: nat, p: nat)
    requires Aligned(m, r, p)
    ensures MatchAt(r, cut, p) ==>
              && |Source(m)| >= 11 && IsSsnText(Source(m)[..11])
              && m.Mark? && m == Plus(ShowAll(Source(m)[..11]), Drop(m.tail, 10))
              && (p == cut || FreeLeft(r, p))
              && (Render(Drop(m.tail, 10)) == "" || !IsWord(Render(Drop(m.tail, 10))[0]))
  {
    if MatchAt(r, cut, p) {
      ShownUnderMatch(m, r, cut, p);
      var t, rest := Matched(r, cut, p), Drop(m.tail, 10);
      SliceAppend(t, Source(rest), 11);
      assert Source(m)[..11] == t;
      if Render(rest) != "" {
        assert r[p + 11..][0] == r[p + 11];
      }
    }
  }

  lemma NewBehindMatch(m: Marks, r: string, cut: nat, p: nat, i: nat)
    requires Aligned(m, r, p) && i > 0
    requires HiddenAt(Hide(m, r, cut, p), i) && !HiddenAt(m, i)
    ensures MatchAt(r, cut, p) ==>
              && m.Mark? && Drop(m.tail, 10) < m && Aligned(Drop(m.tail, 10), r, p + 11)
              && 11 <= i && !HiddenAt(Drop(m.tail, 10), i - 11)
              && HiddenAt(Hide(Drop(m.tail, 10), r, cut, p + 11), i - 11)
  {
    if MatchAt(r, cut, p) {
      ShownUnderMatch(m, r, cut, p);
      NotBehind(Matched(r, cut, p), Drop(m.tail, 10), i);
    }
  }

  lemma NotBehind(t: SsnText, rest: Marks, i: nat)
    ensures !HiddenAt(Plus(ShowAll(t), rest), i) ==> i < 11 || !HiddenAt(rest, i - 11)
  {
    HiddenAppend(ShowAll(t), rest, i);
    Shows(t);
  }

  lemma NewFurtherOn(m: Marks, r: string, cut: nat, p: nat, i: nat)
    requires Aligned(m, r, p) && !MatchAt(r, cut, p)
    requires HiddenAt(Hide(m, r, cut, p), i) && !HiddenAt(m, i)
    ensures m.Mark? && Aligned(m.tail, r, p + |RenderOf(m.head)|)
    ensures |SourceOf(m.head)| <= i && !HiddenAt(m.tail, i - |SourceOf(m.head)|)
    ensures HiddenAt(Hide(m.tail, r, cut, p + |RenderOf(m.head)|), i - |SourceOf(m.head)|)
  {
    PassOver(m, r, cut, p);
    assert i > 0;
  }

  lemma BehindShown(t: string, front: Marks, b: Marks) returns (a: Marks)
    requires |t| == 11
    ensures Plus(ShowAll(t), Plus(front, b)) == Plus(a, b)
    ensures |Source(a)| == 11 + |Source(front)| && |Render(a)| == 11 + |Render(front)|
  {
    a := Plus(ShowAll(t), front);
    PlusAssoc(ShowAll(t), front, b);
    AppendSource(ShowAll(t), front);
    AppendRender(ShowAll(t), front);
    Shows(t);
  }

  /** If the carry begins at the item after `a`, the eleven shown items lie in it. */
  lemma CutItems(m: Marks, x: Marks, a: Marks, t: SsnText, rest: Marks) returns (c: Marks)
    requires Plus(m, x) == Plus(a, Plus(ShowAll(t), rest))
    requires |Render(m)| == |Render(a)| + CARRY_SIZE
    ensures m == Plus(a, Plus(ShowAll(t), c)) && rest == Plus(c, x)
    ensures |Render(c)| == CARRY_SIZE - 11
  {
    var mid := CutAgain(m, x, a, Plus(ShowAll(t), rest));
    AppendRender(a, mid);
    Shows(t);
    c := CutAgain(mid, x, ShowAll(t), rest);
    AppendRender(ShowAll(t), c);
  }

  // ----- insensitive texts -----

  /** A front of an insensitive text has no SSN that the text does not have. */
  lemma SsnOfFront(full: string, part: string, i: nat)
    requires Insensitive(full) && part <= full && SsnAt(part, i)
    ensures SsnAt(full, i)
  {
    assert forall k :: 0 <= k < |part| ==> part[k] == full[k];
    assert !Sensitive(full, i);
  }

  lemma SsnOfLongerFront(full: string, part: string, u: string, i: nat)
    requires Insensitive(full) && part <= u <= full && SsnAt(part, i)
    ensures SsnAt(u, i)
  {
    SsnOfFront(full, part, i);
    SsnInPrefix(full, u, i);
  }

  /** The marks and the carry of a stream whose text is redacted as one pass would. */
  ghost predicate AsPass(part: string, st: StreamState) {
    Carries(PassMarks(part), st.sent, st.carry) && |st.carry| <= CARRY_SIZE
  }

  /** What was hidden before a chunk is an SSN of the text consumed with it. */
  lemma OldIsSsn(full: string, part: string, token: string, k: nat)
    requires Insensitive(full) && part + token <= full
    requires HiddenAt(Plus(PassMarks(part), ShowAll(token)), k)
    ensures SsnAt(part + token, k)
  {
    OldHidden(PassMarks(part), token, k);
    PassIsExact(part, k);
    SsnOfLongerFront(full, part, part + token, k);
  }

  /** A window hides nothing but SSNs of the text consumed with it, unless it begins with a
      shape that has a word character in front of it. */
  lemma WindowHidesSsn(all: Marks, a: Marks, t: SsnText, rest: Marks)
    requires all == Plus(a, Plus(ShowAll(t), rest))
    requires forall k: nat :: HiddenAt(all, k) ==> SsnAt(Source(all), k)
    requires Render(rest) == "" || !IsWord(Render(rest)[0])
    requires Render(a) == "" || !IsWord(Last(Render(a)))
    ensures SsnAt(Source(all), |Source(a)|)
  {
    Readings(a, t, rest);
    LeftNeighbour(all, a, Plus(ShowAll(t), rest), t + Source(rest));
    RightOfShape(all, a, t, rest);
    Between(Source(a), t, Source(rest));
  }

  /** What stands behind a shape that is not hidden looks the same before and after the pass. */
  lemma NextToShape(part: string, a: Marks, t: SsnText, c: Marks)
    requires PassMarks(part) == Plus(a, Plus(ShowAll(t), c))
    requires Render(c) != "" && !IsWord(Render(c)[0])
    ensures Source(c) != "" && !IsWord(Source(c)[0])
  {
    PassReadings(part);
    forall i: nat | HiddenAt(PassMarks(part), i) ensures SsnAt(part, i) { PassIsExact(part, i); }
    RightOfShape(PassMarks(part), a, t, c);
    EmptySource(c);
  }

  lemma LateNeighbours(full: string, part: string, a: Marks, t: SsnText, c: Marks)
    requires PassMarks(part) == Plus(a, Plus(ShowAll(t), c)) && part <= full
    requires Render(a) != "" && IsWord(Last(Render(a)))
    requires Source(c) != "" && !IsWord(Source(c)[0])
    ensures var j := |Source(a)|; ShapeAt(full, j) && !FreeLeft(full, j) && FreeRight(full, j) && j + 11 <= |part|
  {
    PassReadings(part);
    Readings(a, t, c);
    LastChars(a);
    ShapeInFront(Source(a), t, Source(c), full);
  }

  /** A window that begins with an SSN shape behind a word character. */
  lemma LateShape(full: string, part: string, a: Marks, t: SsnText, c: Marks)
    requires PassMarks(part) == Plus(a, Plus(ShowAll(t), c)) && part <= full
    requires |Render(c)| == CARRY_SIZE - 11
    requires Render(a) != "" && IsWord(Last(Render(a)))
    requires Source(c) != "" && !IsWord(Source(c)[0])
    ensures BeginsTooLate(full, |Source(a)|)
  {
    var b := Plus(ShowAll(t), c);
    LateNeighbours(full, part, a, t, c);
    NotInsideSsn(full, part, a, b);
    AppendRender(ShowAll(t), c);
    Shows(t);
    CarryFrom(full, part, a, b);
  }

  lemma CutIsLate(full: string, part: string, st: StreamState, token: string, a: Marks, t: SsnText, rest: Marks)
    requires part + token <= full && AsPass(part, st)
    requires Plus(PassMarks(part), ShowAll(token)) == Plus(a, Plus(ShowAll(t), rest))
    requires Render(rest) == "" || !IsWord(Render(rest)[0])
    requires |Render(a)| == |st.sent| && Render(a) != "" && IsWord(Last(Render(a)))
    ensures Sensitive(full, |Source(a)|)
  {
    var m := PassMarks(part);
    var c := CutItems(m, ShowAll(token), a, t, rest);
    AppendRender(c, ShowAll(token));
    NextToShape(part, a, t, c);
    PrefixSplit(part, token, full);
    LateShape(full, part, a, t, c);
  }

  lemma NewIsSsn(full: string, part: string, st: StreamState, token: string, a: Marks, t: SsnText, rest: Marks)
    requires Insensitive(full) && part + token <= full && AsPass(part, st)
    requires Plus(PassMarks(part), ShowAll(token)) == Plus(a, Plus(ShowAll(t), rest))
    requires Render(rest) == "" || !IsWord(Render(rest)[0])
    requires |Render(a)| == |st.sent| || Render(a) == "" || !IsWord(Last(Render(a)))
    ensures SsnAt(part + token, |Source(a)|)
  {
    if Render(a) != "" && IsWord(Last(Render(a))) {
      CutIsLate(full, part, st, token, a, t, rest);
    } else {
      var all := Plus(a, Plus(ShowAll(t), rest));
      WindowReadings(part, st, token);
      forall k: nat | HiddenAt(all, k) ensures SsnAt(part + token, k) { OldIsSsn(full, part, token, k); }
      WindowHidesSsn(all, a, t, rest);
    }
  }

  /** In an insensitive text every window hides SSNs of the consumed text only. */
  lemma WindowIsExact(full: string, part: string, st: StreamState, token: string, i: nat)
    requires Insensitive(full) && part + token <= full && AsPass(part, st)
    requires HiddenAt(Hide(Plus(PassMarks(part), ShowAll(token)), st.sent + (st.carry + token), |st.sent|, 0), i)
    ensures SsnAt(part + token, i)
  {
    var all := Plus(PassMarks(part), ShowAll(token));
    WindowReadings(part, st, token);
    if HiddenAt(all, i) {
      OldIsSsn(full, part, token, i);
    } else {
      var a, t, rest, at := NewlyHidden(all, Render(all), |st.sent|, 0, i);
      LeftOfItem(a, Plus(ShowAll(t), rest), Render(all));
      NewIsSsn(full, part, st, token, a, t, rest);
    }
  }

  lemma LeftOfItem(a: Marks, b: Marks, r: string)
    requires r == Render(Plus(a, b))
    ensures |Render(a)| <= |r| && (FreeLeft(r, |Render(a)|) ==> Render(a) == "" || !IsWord(Last(Render(a))))
  {
    AppendRender(a, b);
    if Render(a) != "" { assert r[|Render(a)| - 1] == Last(Render(a)); }
  }

  lemma WindowReadings(part: string, st: StreamState, token: string)
    requires AsPass(part, st)
    ensures var all := Plus(PassMarks(part), ShowAll(token));
            && Source(all) == part + token && Render(all) == st.sent + (st.carry + token)
            && Aligned(all, Render(all), 0)
  {
    PassReadings(part);
    Extended(PassMarks(part), token);
    Assoc(st.sent, st.carry, token);
    var r := st.sent + (st.carry + token);
    assert r[0..] == r;
  }

  /** One more chunk of an insensitive text: the marks are again those of one pass. */
  lemma ChunkIsPass(full: string, part: string, st: StreamState, token: string)
    requires Insensitive(full) && part + token <= full && AsPass(part, st)
    ensures Render(PassMarks(part + token)) == st.sent + RedactFrom(st.carry + token, 0, 0)
  {
    var m, u := PassMarks(part), part + token;
    PassReadings(part);
    PassReadings(u);
    PrefixSplit(part, token, full);
    forall i: nat | SsnAt(full, i) && i + 11 <= |part| ensures HiddenAt(m, i) { FullIsHidden(full, part, i); }
    var out := ChunkStep(full, part, m, st, token);
    forall i: nat ensures HiddenAt(out, i) <==> HiddenAt(PassMarks(u), i) {
      PassIsExact(u, i);
      if HiddenAt(out, i) { WindowIsExact(full, part, st, token, i); }
      if SsnAt(u, i) { SsnOfFront(full, u, i); }
    }
    SameMarks(out, PassMarks(u));
  }

  lemma {:induction false} TokensAsPass(full: string, tokens: seq<string>)
    requires AreRegexes(SsnOnly()) && Insensitive(full) && Concat(tokens) <= full
    ensures AsPass(Concat(tokens), StreamOver(SsnOnly(), tokens))
  {
    if tokens == [] {
    } else {
      var init, token := tokens[..|tokens|-1], tokens[|tokens|-1];
      PrefixSplit(Concat(init), token, full);
      TokensAsPass(full, init);
      NextAsPass(full, Concat(init), StreamOver(SsnOnly(), init), token);
    }
  }

  lemma NextAsPass(full: string, part: string, st: StreamState, token: string)
    requires AreRegexes(SsnOnly()) && Insensitive(full) && part + token <= full && AsPass(part, st)
    ensures AsPass(part + token, StreamNext(SsnOnly(), st, token))
  {
    ChunkIsPass(full, part, st, token);
    CarryNext(PassMarks(part + token), st, token);
  }

  /** However an insensitive text is cut, the stream delivers one pass over it. */
  lemma InsensitiveIsPass(tokens: seq<string>, last: string)
    requires AreRegexes(SsnOnly()) && Insensitive(Concat(tokens) + last)
    ensures StreamText(SsnOnly(), tokens, last) == Redacted(SsnOnly(), Concat(tokens) + last)
  {
    var full := Concat(tokens) + last;
    TokensAsPass(full, tokens);
    ChunkIsPass(full, Concat(tokens), StreamOver(SsnOnly(), tokens), last);
    FlushIsPass(tokens, last);
    PassReadings(full);
    SsnRulePass(full);
  }

  // ----- two chunks -----

  /** The stream of one token and a last text delivers something else than one pass. */
  ghost predicate CutMatters(token: string, last: string)
    requires AreRegexes(SsnOnly())
  {
    StreamText(SsnOnly(), [token], last) != Redacted(SsnOnly(), token + last)
  }

  lemma StateOfOne(token: string)
    requires AreRegexes(SsnOnly())
    ensures StreamOver(SsnOnly(), [token]) == StreamNext(SsnOnly(), StreamState("", ""), token)
    ensures "" + token == token
  {
    assert [token][..0] == [];
  }

  /** The state after one token. */
  lemma AfterOneToken(token: string)
    requires AreRegexes(SsnOnly())
    ensures var st := StreamOver(SsnOnly(), [token]); Carries(PassMarks(token), st.sent, st.carry)
  {
    StateOfOne(token);
    PassReadings(token);
    FirstCarry(PassMarks(token), token);
  }

  lemma FirstCarry(m: Marks, token: string)
    requires AreRegexes(SsnOnly()) && Render(m) == RedactFrom(token, 0, 0)
    ensures var st := StreamNext(SsnOnly(), StreamState("", ""), token); Carries(m, st.sent, st.carry)
  {
    NoFront(RedactFrom(token, 0, 0));
    NoFront(token);
    CarryNext(m, StreamState("", ""), token);
  }

  lemma NoFront(s: string)
    ensures "" + s == s
  {
  }

  /** The marks of a stream of one token and a last text. */
  lemma TwoChunks(token: string, last: string) returns (out: Marks)
    requires AreRegexes(SsnOnly())
    ensures var st := StreamOver(SsnOnly(), [token]);
            && Carries(PassMarks(token), st.sent, st.carry)
            && out == Hide(Plus(PassMarks(token), ShowAll(last)), st.sent + (st.carry + last), |st.sent|, 0)
    ensures Source(out) == token + last
    ensures Render(out) == StreamText(SsnOnly(), [token], last)
    ensures forall i: nat :: SsnAt(token + last, i) ==> HiddenAt(out, i)
  {
    var st := StreamOver(SsnOnly(), [token]);
    AfterOneToken(token);
    PassReadings(token);
    forall i: nat | SsnAt(token + last, i) && i + 11 <= |token| ensures HiddenAt(PassMarks(token), i) {
      FullIsHidden(token + last, token, i);
    }
    out := ChunkStep(token + last, token, PassMarks(token), st, last);
    FlushIsPass([token], last);
  }

  /** Marks that hide a span that is no SSN render longer than one pass. */
  lemma LongerThanPass(full: string, out: Marks, j: nat)
    requires Source(out) == full && HiddenAt(out, j) && !SsnAt(full, j)
    requires forall i: nat :: SsnAt(full, i) ==> HiddenAt(out, i)
    ensures |Render(out)| > |RedactFrom(full, 0, 0)|
  {
    PassReadings(full);
    forall i: nat | HiddenAt(PassMarks(full), i) ensures HiddenAt(out, i) { PassIsExact(full, i); }
    PassIsExact(full, j);
    MoreHidden(PassMarks(full), out, j);
  }

  // ----- a shape that ends too soon -----

  lemma ShapeInPrefix(full: string, j: nat)
    requires ShapeAt(full, j) && (j == 0 || !IsWord(full[j-1]))
    ensures SsnAt(full[..j+11], j)
  {
    var token := full[..j+11];
    assert forall k :: 0 <= k < j + 11 ==> token[k] == full[k];
  }

  /** The flush keeps what the first chunk hid. */
  lemma KeptByChunk(m: Marks, st: StreamState, last: string, j: nat)
    requires Carries(m, st.sent, st.carry) && HiddenAt(m, j)
    ensures HiddenAt(Hide(Plus(m, ShowAll(last)), st.sent + (st.carry + last), |st.sent|, 0), j)
  {
    var all, r := Plus(m, ShowAll(last)), st.sent + (st.carry + last);
    Shows(last);
    AppendRender(m, ShowAll(last));
    Assoc(st.sent, st.carry, last);
    assert Aligned(all, r, 0);
    HiddenAppend(m, ShowAll(last), j);
    HideKeeps(all, r, |st.sent|, 0, j);
  }

  /** What a first token made an SSN, and the whole text does not. */
  lemma HiddenAtOnce(token: string, last: string, j: nat)
    requires AreRegexes(SsnOnly()) && SsnAt(token, j) && !SsnAt(token + last, j)
    ensures CutMatters(token, last)
  {
    PassIsExact(token, j);
    var out := TwoChunks(token, last);
    KeptByChunk(PassMarks(token), StreamOver(SsnOnly(), [token]), last, j);
    LongerThanPass(token + last, out, j);
    SsnRulePass(token + last);
  }

  /** An SSN shape that only the character behind it keeps from being an SSN: the chunking
      that ends right behind the shape makes the stream replace it. */
  lemma SplitOverRedacts(full: string, j: nat)
    requires AreRegexes(SsnOnly())
    ensures EndsTooSoon(full, j) ==> CutMatters(full[..j+11], full[j+11..])
  {
    if EndsTooSoon(full, j) {
      ShapeInPrefix(full, j);
      Rejoin(full, j + 11);
      HiddenAtOnce(full[..j+11], full[j+11..], j);
    }
  }

  // ----- a shape that begins too late -----

  /** A shape behind a word character is shown by a pass, unless an SSN covers its front. */
  lemma ShapeIsShown(full: string, part: string, j: nat) returns (a: Marks, t: SsnText, c: Marks)
    requires part <= full && ShapeAt(full, j) && !FreeLeft(full, j) && !InsideSsn(full, j) && j + 11 <= |part|
    ensures PassMarks(part) == Plus(a, Plus(ShowAll(t), c)) && |Source(a)| == j
  {
    PassReadings(part);
    forall k: nat | k < j < k + 11 ensures !HiddenAt(PassMarks(part), k) {
      PassIsExact(part, k);
      if SsnAt(part, k) { SsnBefore(full, part, k); }
    }
    var b;
    a, b := Boundary(PassMarks(part), j);
    t, c := ShownBehind(full, part, a, b);
  }

  lemma ShownBehind(full: string, part: string, a: Marks, b: Marks) returns (t: SsnText, c: Marks)
    requires PassMarks(part) == Plus(a, b) && Source(PassMarks(part)) == part <= full
    requires var j := |Source(a)|; ShapeAt(full, j) && !FreeLeft(full, j) && j + 11 <= |part|
    ensures b == Plus(ShowAll(t), c)
  {
    var j := |Source(a)|;
    AppendSource(a, b);
    NothingHiddenBehind(full, part, a, b);
    ShownFront(b, 11);
    t, c := FrontShape(full, part, j, Source(a), Source(b)), Drop(b, 11);
  }

  lemma NothingHiddenBehind(full: string, part: string, a: Marks, b: Marks)
    requires PassMarks(part) == Plus(a, b) && part <= full
    requires ShapeAt(full, |Source(a)|) && !FreeLeft(full, |Source(a)|)
    ensures forall k: nat :: k < 11 ==> !HiddenAt(b, k)
  {
    var j := |Source(a)|;
    forall k: nat | k < 11 ensures !HiddenAt(b, k) {
      HiddenAppend(a, b, j + k);
      PassIsExact(part, j + k);
      NoneOverShape(full, part, j, j + k);
    }
  }

  lemma NoneOverShape(full: string, part: string, j: nat, k: nat)
    requires part <= full && j <= k < j + 11
    ensures ShapeAt(full, j) && !FreeLeft(full, j) ==> !SsnAt(part, k)
  {
    assert forall i :: 0 <= i < |part| ==> part[i] == full[i];
    if ShapeAt(full, j) && SsnAt(part, k) && j < k {
      ShapesOverlap(full, j, k);
    }
  }

  ghost function FrontShape(full: string, part: string, j: nat, x: string, y: string): (t: SsnText)
    requires part == x + y && part <= full && |x| == j && ShapeAt(full, j) && j + 11 <= |part|
    ensures t == y[..11]
  {
    assert forall i :: 0 <= i < |part| ==> part[i] == full[i];
    assert forall i :: 0 <= i < 11 ==> y[i] == part[j + i];
    y[..11]
  }

  lemma LateItems(full: string, part: string, a: Marks, t: SsnText, c: Marks)
    requires PassMarks(part) == Plus(a, Plus(ShowAll(t), c)) && part <= full
    requires var j := |Source(a)|;
             j + 11 <= |part| && !FreeLeft(full, j) && FreeRight(full, j) && CarryBegins(full, j, |part|)
    ensures Render(a) != "" && |Render(Plus(ShowAll(t), c))| == CARRY_SIZE
    ensures Render(c) != "" && !IsWord(Render(c)[0])
  {
    CarryOf(full, part, a, Plus(ShowAll(t), c));
    AppendRender(ShowAll(t), c);
    Shows(t);
    PassReadings(part);
    Readings(a, t, c);
    BehindIsFree(full, a, t, c);
    EmptySource(a);
  }

  lemma BehindIsFree(full: string, a: Marks, t: SsnText, c: Marks)
    requires Source(a) + (t + Source(c)) <= full && FreeRight(full, |Source(a)|) && c.Mark?
    ensures !IsWord(Render(c)[0])
  {
    ShapeInFront(Source(a), t, Source(c), full);
    FirstChars(c);
  }

  /** The state after a first token whose redacted text ends in a whole carry behind `a`. */
  lemma CarryAfterOne(token: string, a: Marks, b: Marks)
    requires AreRegexes(SsnOnly()) && PassMarks(token) == Plus(a, b)
    requires Render(a) != "" && |Render(b)| == CARRY_SIZE
    ensures var st := StreamOver(SsnOnly(), [token]);
            Carries(PassMarks(token), st.sent, st.carry) && |st.sent| == |Render(a)|
  {
    AfterOneToken(token);
    StateOfOne(token);
    AppendRender(a, b);
  }

  /** A window that begins with a shape, with no word character behind it, matches it. */
  lemma MatchAtCut(a: Marks, t: SsnText, c: Marks, r: string)
    requires r == Render(Plus(a, Plus(ShowAll(t), c))) && Render(c) != "" && !IsWord(Render(c)[0])
    ensures MatchAt(r, |Render(a)|, |Render(a)|)
  {
    Readings(a, t, c);
    ShapeInFront(Render(a), t, Render(c), r);
  }

  /** The second window hides the shape it begins with. */
  lemma SecondWindow(m: Marks, a: Marks, t: SsnText, c: Marks, st: StreamState, last: string)
    requires m == Plus(a, Plus(ShowAll(t), c)) && Carries(m, st.sent, st.carry) && |st.sent| == |Render(a)|
    requires Render(c) != "" && !IsWord(Render(c)[0])
    ensures HiddenAt(Hide(Plus(m, ShowAll(last)), st.sent + (st.carry + last), |st.sent|, 0), |Source(a)|)
  {
    var x, r := ShowAll(last), st.sent + (st.carry + last);
    Extended(m, last);
    Assoc(st.sent, st.carry, last);
    PlusAssoc(a, Plus(ShowAll(t), c), x);
    PlusAssoc(ShowAll(t), c, x);
    AppendRender(c, x);
    MatchAtCut(a, t, Plus(c, x), r);
    assert r[0..] == r;
    HideGains(a, Plus(ShowAll(t), Plus(c, x)), r, |st.sent|, 0, |st.sent|);
  }

  lemma HiddenByCarry(token: string, last: string, a: Marks, t: SsnText, c: Marks)
    requires AreRegexes(SsnOnly()) && PassMarks(token) == Plus(a, Plus(ShowAll(t), c))
    requires Render(a) != "" && |Render(Plus(ShowAll(t), c))| == CARRY_SIZE
    requires Render(c) != "" && !IsWord(Render(c)[0])
    requires !SsnAt(token + last, |Source(a)|)
    ensures CutMatters(token, last)
  {
    CarryAfterOne(token, a, Plus(ShowAll(t), c));
    var out := TwoChunks(token, last);
    SecondWindow(PassMarks(token), a, t, c, StreamOver(SsnOnly(), [token]), last);
    LongerThanPass(token + last, out, |Source(a)|);
    SsnRulePass(token + last);
  }

  /** An SSN shape that only the character in front of it keeps from being an SSN: the chunking
      that leaves the shape at the front of a whole carry makes the stream replace it. */
  lemma CarryOverRedacts(full: string, j: nat) returns (n: nat)
    requires AreRegexes(SsnOnly()) && BeginsTooLate(full, j)
    ensures n <= |full| && CutMatters(full[..n], full[n..])
  {
    n :| j + 11 <= n <= |full| && CarryBegins(full, j, n)
      && ShapeAt(full, j) && !FreeLeft(full, j) && FreeRight(full, j) && !InsideSsn(full, j);
    LateCutMatters(full, j, n);
  }

  lemma LateCutMatters(full: string, j: nat, n: nat)
    requires AreRegexes(SsnOnly()) && j + 11 <= n <= |full| && CarryBegins(full, j, n)
    requires ShapeAt(full, j) && !FreeLeft(full, j) && FreeRight(full, j) && !InsideSsn(full, j)
    ensures CutMatters(full[..n], full[n..])
  {
    var a, t, c := ShapeIsShown(full, full[..n], j);
    LateItems(full, full[..n], a, t, c);
    Rejoin(full, n);
    HiddenByCarry(full[..n], full[n..], a, t, c);
  }

  // ----- the exact condition -----

  /** Some cut in two makes the stream of a sensitive text deliver something else than one pass. */
  lemma SensitiveOverRedacts(full: string, j: nat) returns (n: nat)
    requires AreRegexes(SsnOnly()) && Sensitive(full, j)
    ensures n <= |full| && CutMatters(full[..n], full[n..])
  {
    if BeginsTooLate(full, j) {
      n := CarryOverRedacts(full, j);
    } else {
      n := j + 11;
      SplitOverRedacts(full, j);
    }
  }

  ghost predicate EveryStreamIsPass(full: string)
    requires AreRegexes(SsnOnly())
  {
    forall tokens, last :: Concat(tokens) + last == full ==>
      StreamText(SsnOnly(), tokens, last) == Redacted(SsnOnly(), full)
  }

  lemma InsensitiveHolds(full: string)
    requires AreRegexes(SsnOnly()) && Insensitive(full)
    ensures EveryStreamIsPass(full)
  {
    forall tokens, last | Concat(tokens) + last == full
      ensures StreamText(SsnOnly(), tokens, last) == Redacted(SsnOnly(), full)
    {
      InsensitiveIsPass(tokens, last);
    }
  }

  lemma ConcatOne(token: string)
    ensures Concat([token]) == token
  {
    assert [token][..0] == [];
  }

  lemma OneCutIsEnough(full: string, n: nat)
    requires AreRegexes(SsnOnly()) && n <= |full| && CutMatters(full[..n], full[n..])
    ensures !EveryStreamIsPass(full)
  {
    ConcatOne(full[..n]);
    Rejoin(full, n);
  }

  /** Every stream of a text delivers one pass over the whole text, if and only if the text
      has no shape that ends too soon or begins too late. */
  lemma StreamIsPass(full: string)
    ensures AreRegexes(SsnOnly())
    ensures EveryStreamIsPass(full) <==> Insensitive(full)
  {
    SsnRuleIsRegex();
    if Insensitive(full) {
      InsensitiveHolds(full);
    } else {
      var j: nat :| Sensitive(full, j);
      var n := SensitiveOverRedacts(full, j);
      OneCutIsEnough(full, n);
    }
  }

  /** Then what is delivered holds no SSN. */
  lemma PassHoldsNoSsn(tokens: seq<string>, last: string, r: nat)
    requires Insensitive(Concat(tokens) + last)
    ensures AreRegexes(SsnOnly()) && !SsnAt(StreamText(SsnOnly(), tokens, last), r)
  {
    SsnRuleIsRegex();
    InsensitiveIsPass(tokens, last);
    SsnRulePass(Concat(tokens) + last);
    NoneLeft(Concat(tokens) + last, r);
  }

  // ----- a delivered text that holds an SSN -----

  lemma NothingToRedact(s: string)
    requires forall p :: 0 <= p < |s| ==> !MatchAt(s, 0, p)
    ensures RedactFrom(s, 0, 0) == s
  {
    NoMatches(s, 0, 0, |s|);
    assert s[0..|s|] == s && RedactFrom(s, 0, |s|) == "";
  }

  predicate NoWords(s: string) { forall k :: 0 <= k < |s| ==> !IsWord(s[k]) }

  /** Two shapes side by side keep each other from being SSNs. */
  lemma TwinsAreKept(x: SsnText, y: SsnText, pad: string)
    requires NoWords(pad)
    ensures RedactFrom(x + (y + pad), 0, 0) == x + (y + pad)
  {
    var s := x + (y + pad);
    assert forall k :: 0 <= k < 11 ==> s[k] == x[k] && s[11 + k] == y[k];
    assert forall k :: 22 <= k < |s| ==> s[k] == pad[k - 22];
    assert ShapeAt(s, 0) && ShapeAt(s, 11);
    forall p | 0 <= p < |s| ensures !MatchAt(s, 0, p) {
      if 0 < p < 11 && ShapeAt(s, p) { ShapesOverlap(s, 0, p); }
    }
    NothingToRedact(s);
  }

  lemma OneIsReplaced(y: SsnText, pad: string)
    requires NoWords(pad)
    ensures RedactFrom(y + pad, 0, 0) == SSN_PLACEHOLDER + pad
  {
    var s := y + pad;
    assert forall k :: 0 <= k < 11 ==> s[k] == y[k];
    assert forall k :: 11 <= k < |s| ==> s[k] == pad[k - 11];
    assert MatchAt(s, 0, 0);
    NoMatches(s, 0, 11, |s|);
    assert s[11..|s|] == pad;
    assert RedactFrom(s, 0, 0) == SSN_PLACEHOLDER + RedactFrom(s, 0, 11);
  }

  lemma CutAtCarry(x: string, y: string)
    requires x != "" && |y| == CARRY_SIZE
    ensures Safe(x + y) == x && Held(x + y) == y && "" + x == x
  {
  }

  /** The state after the first of two shapes has been sent. */
  lemma TwinSent(x: SsnText, y: SsnText, p1: string)
    requires AreRegexes(SsnOnly()) && NoWords(p1) && |p1| == CARRY_SIZE - 11
    ensures StreamOver(SsnOnly(), [x + (y + p1)]) == StreamState(x, y + p1)
  {
    TwinsAreKept(x, y, p1);
    SsnRulePass(x + (y + p1));
    StateOfOne(x + (y + p1));
    CutAtCarry(x, y + p1);
  }

  lemma FirstIsSsn(x: SsnText, rest: string)
    requires rest != "" && !IsWord(rest[0])
    ensures SsnAt(x + rest, 0)
  {
    assert forall k :: 0 <= k < 11 ==> (x + rest)[k] == x[k];
    assert (x + rest)[11] == rest[0];
  }

  /** The second of two shapes side by side is replaced when a carry begins with it, and the
      placeholder makes an SSN of the first, which has been sent. */
  lemma DeliveredHoldsSsn(x: SsnText, y: SsnText, p1: string, p2: string)
    requires NoWords(p1) && NoWords(p2) && |p1| == CARRY_SIZE - 11
    ensures AreRegexes(SsnOnly())
    ensures Redacted(SsnOnly(), x + (y + (p1 + p2))) == x + (y + (p1 + p2))
    ensures var text := StreamText(SsnOnly(), [x + (y + p1)], p2);
            text == x + (SSN_PLACEHOLDER + (p1 + p2)) && SsnAt(text, 0)
  {
    SsnRuleIsRegex();
    TwinsAreKept(x, y, p1 + p2);
    SsnRulePass(x + (y + (p1 + p2)));
    TwinFlushed(x, y, p1, p2);
    FirstIsSsn(x, SSN_PLACEHOLDER + (p1 + p2));
  }

  lemma TwinFlushed(x: SsnText, y: SsnText, p1: string, p2: string)
    requires AreRegexes(SsnOnly()) && NoWords(p1) && NoWords(p2) && |p1| == CARRY_SIZE - 11
    ensures StreamText(SsnOnly(), [x + (y + p1)], p2) == x + (SSN_PLACEHOLDER + (p1 + p2))
  {
    TwinSent(x, y, p1);
    FlushOf([x + (y + p1)], p2, x, y + p1);
    NoWordsSum(p1, p2);
    RestIsReplaced(y, p1, p2);
  }

  lemma NoWordsSum(p1: string, p2: string)
    requires NoWords(p1) && NoWords(p2)
    ensures NoWords(p1 + p2)
  {
  }

  lemma RestIsReplaced(y: SsnText, p1: string, p2: string)
    requires NoWords(p1 + p2)
    ensures RedactFrom((y + p1) + p2, 0, 0) == SSN_PLACEHOLDER + (p1 + p2)
  {
    Assoc(y, p1, p2);
    OneIsReplaced(y, p1 + p2);
  }

  lemma FlushOf(tokens: seq<string>, last: string, sent: string, carry: string)
    requires AreRegexes(SsnOnly()) && StreamOver(SsnOnly(), tokens) == StreamState(sent, carry)
    ensures StreamText(SsnOnly(), tokens, last) == sent + RedactFrom(carry + last, 0, 0)
  {
    FlushIsPass(tokens, last);
  }

  function Blanks(n: nat): string { seq(n, _ => ' ') }

  /** A concrete case: the client is left with "444-55-6666" in front of a placeholder. A blank
      is no word character. */
  lemma TwinExample()
    requires !IsWord(' ')
    ensures AreRegexes(SsnOnly())
    ensures var text := StreamText(SsnOnly(), ["444-55-6666" + ("111-22-3333" + Blanks(19))], Blanks(21));
            text == "444-55-6666" + (SSN_PLACEHOLDER + (Blanks(19) + Blanks(21))) && SsnAt(text, 0)
  {
    var x, y := "444-55-6666", "111-22-3333";
    DeliveredHoldsSsn(x, y, Blanks(19), Blanks(21));
  }

  // ----- the shortest case -----

  lemma OneToken(token: string, last: string)
    requires AreRegexes(SsnOnly()) && |RedactFrom(token, 0, 0)| <= CARRY_SIZE
    ensures StreamText(SsnOnly(), [token], last) == RedactFrom(RedactFrom(token, 0, 0) + last, 0, 0)
  {
    StateOfOne(token);
    SsnRulePass(token);
    FlushIsPass([token], last);
  }

  lemma ShapeAlone()
    ensures RedactFrom("123-45-6789", 0, 0) == SSN_PLACEHOLDER
  {
    var shape := "123-45-6789";
    assert MatchAt(shape, 0, 0);
    assert RedactFrom(shape, 0, 0) == SSN_PLACEHOLDER + RedactFrom(shape, 0, 11);
    assert RedactFrom(shape, 0, 11) == "";
  }

  lemma ShapeThenDigit()
    ensures RedactFrom("123-45-67890", 0, 0) == "123-45-67890"
    ensures RedactFrom(SSN_PLACEHOLDER + "0", 0, 0) == SSN_PLACEHOLDER + "0"
  {
    NothingToRedact("123-45-67890");
    var tail := SSN_PLACEHOLDER + "0";
    forall p | 0 <= p < |tail| ensures !MatchAt(tail, 0, p) {
      if p + 11 <= |tail| { assert tail[p] == SSN_PLACEHOLDER[p]; }
    }
    NothingToRedact(tail);
  }

  /** The shortest case: a chunk that ends between an SSN shape and a digit makes
      the stream replace a span that is no SSN of the text. */
  lemma ChunkBoundaryOverRedacts()
    ensures AreRegexes(SsnOnly())
    ensures StreamText(SsnOnly(), ["123-45-6789"], "0") == "[REDACTED:SSN]0"
    ensures Redacted(SsnOnly(), "123-45-67890") == "123-45-67890"
  {
    SsnRuleIsRegex();
    ShapeAlone();
    ShapeThenDigit();
    OneToken("123-45-6789", "0");
    SsnRulePass("123-45-67890");
    PlaceholderThenZero();
  }

  lemma PlaceholderThenZero()
    ensures SSN_PLACEHOLDER + "0" == "[REDACTED:SSN]0"
  {
  }
}
