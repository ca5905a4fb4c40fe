/** One SSN pass over a whole text: what it hides, and that nothing is left. */
module SsnPass {
  import opened CharClass
  import opened Ssn
  import opened Marked
  import opened OutputGuard
  import opened SsnStream
  import opened Texts

  /** The marks of one pass over `s`. */
  ghost function PassMarks(s: string): Marks { Hide(ShowAll(s), s, 0, 0) }

  lemma PassReadings(s: string)
    ensures Source(PassMarks(s)) == s
    ensures Render(PassMarks(s)) == RedactFrom(s, 0, 0)
  {
    Shows(s);
    HideIsRedact(ShowAll(s), s, 0, 0);
  }

  /** The marks of a pass from `p` on. */
  ghost function PassTail(s: string, p: nat): Marks
    requires p <= |s|
  {
    Hide(ShowAll(s[p..]), s, 0, p)
  }

  lemma PassStep(s: string, p: nat)
    requires p < |s|
    ensures PassTail(s, p) == if MatchAt(s, 0, p) then Mark(Hidden(Matched(s, 0, p)), PassTail(s, p + 11))
                              else Mark(Shown(s[p]), PassTail(s, p + 1))
  {
    SplitAgain(s, p, p + 1);
    if MatchAt(s, 0, p) {
      SplitAgain(s, p, p + 11);
      ShowAllPlus(s[p..], 11);
      DropShown(s[p..p+11], ShowAll(s[p+11..]));
    }
  }

  /** A pass hides nothing but matches. */
  lemma {:induction false} HidesMatchesOnly(s: string, p: nat, i: nat)
    requires p <= |s| && HiddenAt(PassTail(s, p), i)
    ensures SsnAt(s, p + i)
    decreases |s| - p
  {
    PassTailEnds(s, p);
    PassStep(s, p);
    if i > 0 {
      var w := if MatchAt(s, 0, p) then 11 else 1;
      HidesMatchesOnly(s, p + w, i - w);
    }
  }

  lemma PassTailEnds(s: string, p: nat)
    requires p <= |s|
    ensures p == |s| ==> PassTail(s, p) == End
  {
  }

  lemma {:induction false} ShowAllPlus(t: string, k: nat)
    requires k <= |t|
    ensures ShowAll(t) == Plus(ShowAll(t[..k]), ShowAll(t[k..]))
  {
    if k > 0 {
      ShowAllPlus(t[1..], k - 1);
      assert t[..k][1..] == t[1..][..k-1];
      assert t[1..][k-1..] == t[k..];
    } else {
      assert t[..0] == "" && t[0..] == t;
    }
  }

  /** One pass hides exactly the true occurrences. */
  lemma PassIsExact(s: string, i: nat)
    ensures HiddenAt(PassMarks(s), i) <==> SsnAt(s, i)
  {
    assert s[0..] == s;
    if HiddenAt(PassMarks(s), i) {
      HidesMatchesOnly(s, 0, i);
    }
    if SsnAt(s, i) {
      ShowAllPlus(s, i);
      Shows(s);
      Shows(s[..i]);
      HideGains(ShowAll(s[..i]), ShowAll(s[i..]), s, 0, 0, i);
    }
  }

  // ----- nothing is left, and nothing new appears -----

  /** Digits and hyphens in the middle of a rendering start at an item boundary. */
  lemma {:induction false} LocateRendered(m: Marks, x: string, t: string, y: string) returns (a: Marks, b: Marks)
    requires Render(m) == x + (t + y) && t != "" && SsnChars(t)
    ensures m == Plus(a, Plus(ShowAll(t), b)) && Render(a) == x
  {
    if x == "" {
      a, b := End, Drop(m, |t|);
      assert Render(m) == t + y;
      LeadingShown(m, t, y);
    } else {
      var h := RenderOf(m.head);
      assert Render(m)[|x|] == t[0];
      NotInside(m, |x|);
      PeelFront(h, Render(m.tail), x, t + y);
      a, b := LocateRendered(m.tail, x[|h|..], t, y);
      a := Mark(m.head, a);
    }
  }

  lemma NotInside(m: Marks, r: nat)
    requires 0 < r < |Render(m)| && (IsDigit(Render(m)[r]) || Render(m)[r] == '-')
    ensures |RenderOf(m.head)| <= r
  {
  }

  /** An occurrence between two pieces of text, told from its neighbours. */
  lemma Between(x: string, t: string, y: string)
    requires |t| == 11
    ensures SsnAt(x + (t + y), |x|) <==>
            IsSsnText(t) && (x == "" || !IsWord(Last(x))) && (y == "" || !IsWord(y[0]))
  {
    var s := x + (t + y);
    assert forall k :: 0 <= k < 11 ==> (t + y)[k] == t[k];
    ShapeShift(x, t + y, 0);
    assert x != "" ==> s[|x|-1] == Last(x);
    assert y != "" ==> s[|x|+11] == y[0];
  }

  lemma Readings(a: Marks, t: string, b: Marks)
    ensures Source(Plus(a, Plus(ShowAll(t), b))) == Source(a) + (t + Source(b))
    ensures Render(Plus(a, Plus(ShowAll(t), b))) == Render(a) + (t + Render(b))
  {
    AppendSource(a, Plus(ShowAll(t), b));
    AppendRender(a, Plus(ShowAll(t), b));
    AppendSource(ShowAll(t), b);
    AppendRender(ShowAll(t), b);
    Shows(t);
  }

  /** A hidden item in front of an SSN shape would not have been an occurrence. */
  lemma LeftNeighbour(m: Marks, a: Marks, rest: Marks, tail: string)
    requires m == Plus(a, rest) && Source(m) == Source(a) + tail
    requires forall i :: HiddenAt(m, i) ==> SsnAt(Source(m), i)
    requires tail != "" && IsDigit(tail[0])
    requires Render(a) == "" || !IsWord(Last(Render(a)))
    ensures Source(a) == "" || !IsWord(Last(Source(a)))
  {
    if a.Mark? {
      LastChars(a);
      var i := |Source(a)| - 11;
      if i >= 0 && HiddenAt(a, i) {
        HiddenAppend(a, rest, i);
        assert SsnAt(Source(m), i);
        assert Source(m)[i + 11] == tail[0];
      }
    }
  }

  /** Nor would one right behind it. */
  lemma RightNeighbour(m: Marks, front: Marks, b: Marks)
    requires m == Plus(front, b) && Source(m) == Source(front) + Source(b)
    requires forall i :: HiddenAt(m, i) ==> SsnAt(Source(m), i)
    requires Source(front) != "" && IsDigit(Last(Source(front)))
    requires Render(b) == "" || !IsWord(Render(b)[0])
    ensures Source(b) == "" || !IsWord(Source(b)[0])
  {
    if b.Mark? {
      if b.head.Hidden? {
        HiddenAppend(front, b, |Source(front)|);
      } else {
        assert Source(b)[0] == b.head.c == Render(b)[0];
      }
    }
  }

  /** An occurrence left in the redacted text would have been a true one that was not hidden. */
  lemma LeftOver(m: Marks, a: Marks, t: string, b: Marks)
    requires m == Plus(a, Plus(ShowAll(t), b)) && IsSsnText(t)
    requires forall i :: HiddenAt(m, i) ==> SsnAt(Source(m), i)
    requires SsnAt(Render(m), |Render(a)|)
    ensures SsnAt(Source(m), |Source(a)|)
  {
    Readings(a, t, b);
    Between(Render(a), t, Render(b));
    LeftNeighbour(m, a, Plus(ShowAll(t), b), t + Source(b));
    RightOfShape(m, a, t, b);
    Between(Source(a), t, Source(b));
  }

  lemma RightOfShape(m: Marks, a: Marks, t: string, b: Marks)
    requires m == Plus(a, Plus(ShowAll(t), b)) && IsSsnText(t)
    requires forall i :: HiddenAt(m, i) ==> SsnAt(Source(m), i)
    requires Render(b) == "" || !IsWord(Render(b)[0])
    ensures Source(b) == "" || !IsWord(Source(b)[0])
  {
    FrontReadings(m, a, t, b);
    RightNeighbour(m, Plus(a, ShowAll(t)), b);
  }

  lemma FrontReadings(m: Marks, a: Marks, t: string, b: Marks)
    requires m == Plus(a, Plus(ShowAll(t), b)) && IsSsnText(t)
    ensures var front := Plus(a, ShowAll(t));
            && m == Plus(front, b)
            && Source(m) == Source(front) + Source(b)
            && Source(front) != "" && IsDigit(Last(Source(front)))
  {
    PlusAssoc(a, ShowAll(t), b);
    AppendSource(Plus(a, ShowAll(t)), b);
    FrontEndsInDigit(a, t);
  }

  lemma FrontEndsInDigit(a: Marks, t: string)
    requires IsSsnText(t)
    ensures Source(Plus(a, ShowAll(t))) != "" && IsDigit(Last(Source(Plus(a, ShowAll(t)))))
  {
    AppendSource(a, ShowAll(t));
    Shows(t);
    EndsInDigit(t);
    LastAppend(Source(a), t);
  }

  lemma EndsInDigit(t: string)
    requires IsSsnText(t)
    ensures t != "" && IsDigit(Last(t))
  {
    assert IsDigit(t[0 + 10]);
  }

  lemma NotHidden(a: Marks, t: string, b: Marks)
    requires t != ""
    ensures !HiddenAt(Plus(a, Plus(ShowAll(t), b)), |Source(a)|)
  {
    HiddenAppend(a, Plus(ShowAll(t), b), |Source(a)|);
    if HiddenAt(a, |Source(a)|) {
      HiddenIsShape(a, |Source(a)|);
    }
  }

  /** One SSN pass leaves no SSN behind, and makes none. */
  lemma NoneLeft(s: string, r: nat)
    ensures !SsnAt(RedactFrom(s, 0, 0), r)
  {
    var m := PassMarks(s);
    PassReadings(s);
    if SsnAt(Render(m), r) {
      var t := Matched(Render(m), 0, r);
      SplitAgain(Render(m), r, r + 11);
      assert Render(m) == Render(m)[..r] + (t + Render(m)[r+11..]);
      var a, b := LocateRendered(m, Render(m)[..r], t, Render(m)[r+11..]);
      NoneShown(s, a, t, b);
    }
  }

  /** What the marks of a pass show is no SSN. */
  lemma NoneShown(s: string, a: Marks, t: SsnText, b: Marks)
    requires PassMarks(s) == Plus(a, Plus(ShowAll(t), b))
    ensures !SsnAt(Render(PassMarks(s)), |Render(a)|)
  {
    PassReadings(s);
    forall i | HiddenAt(PassMarks(s), i) ensures SsnAt(s, i) { PassIsExact(s, i); }
    NotHidden(a, t, b);
    PassIsExact(s, |Source(a)|);
    if SsnAt(Render(PassMarks(s)), |Render(a)|) {
      LeftOver(PassMarks(s), a, t, b);
    }
  }

  /** A second pass changes nothing. */
  lemma PassIsIdempotent(s: string)
    ensures var once := RedactFrom(s, 0, 0); RedactFrom(once, 0, 0) == once
  {
    var once := RedactFrom(s, 0, 0);
    forall p | 0 <= p < |once| ensures !MatchAt(once, 0, p) {
      NoneLeft(s, p);
    }
    NoMatches(once, 0, 0, |once|);
    assert once[0..|once|] == once;
  }
}
