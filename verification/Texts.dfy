/** Facts about concatenation that the solver should not rediscover. */
module Texts {

  lemma Assoc<T>(x: seq<T>, y: seq<T>, z: seq<T>)
    ensures (x + y) + z == x + (y + z)
  {
  }

  /** Cutting a concatenation inside or at the end of its first part. */
  lemma SliceAppend<T>(x: seq<T>, y: seq<T>, k: nat)
    requires k <= |x|
    ensures (x + y)[..k] == x[..k] && (x + y)[k..] == x[k..] + y
  {
  }

  lemma DropAppend<T>(x: seq<T>, y: seq<T>, k: nat)
    requires |x| <= k <= |x| + |y|
    ensures (x + y)[k..] == y[k - |x|..]
  {
  }

  lemma SplitAgain<T>(x: seq<T>, i: nat, j: nat)
    requires i <= j <= |x|
    ensures x[i..] == x[i..j] + x[j..]
    ensures x[i..][j - i..] == x[j..]
  {
  }

  lemma PrefixSplit<T>(x: seq<T>, y: seq<T>, z: seq<T>)
    requires x + y <= z
    ensures x <= z && z[..|x|] == x && |x| + |y| <= |z| && z[|x|..|x| + |y|] == y
  {
    assert z == (x + y) + z[|x| + |y|..];
  }

  /** Two ways to write one text agree on its front. */
  lemma SameFront<T>(c: T, x: seq<T>, t: seq<T>, rest: seq<T>)
    requires t != [] && [c] + x == t + rest
    ensures c == t[0] && x == t[1..] + rest
  {
    assert ([c] + x)[1..] == x;
    assert (t + rest)[1..] == t[1..] + rest;
    assert ([c] + x)[0] == (t + rest)[0];
  }

  lemma PeelFront<T>(h: seq<T>, rest: seq<T>, x: seq<T>, z: seq<T>)
    requires h + rest == x + z && |h| <= |x|
    ensures x == h + x[|h|..] && rest == x[|h|..] + z
  {
    assert (h + rest)[..|h|] == h && (x + z)[..|h|] == x[..|h|];
    assert (h + rest)[|h|..] == rest && (x + z)[|h|..] == x[|h|..] + z;
  }

  function Last<T>(x: seq<T>): T
    requires x != []
  {
    x[|x|-1]
  }

  lemma LastAppend<T>(x: seq<T>, y: seq<T>)
    requires y != []
    ensures x + y != [] && Last(x + y) == Last(y)
  {
  }

  /** All pieces in a row. */
  function Concat<T>(pieces: seq<seq<T>>): seq<T> {
    if pieces == [] then [] else Concat(pieces[..|pieces|-1]) + pieces[|pieces|-1]
  }

  lemma {:induction false} ConcatAppend<T>(a: seq<seq<T>>, b: seq<seq<T>>)
    ensures Concat(a + b) == Concat(a) + Concat(b)
  {
    if b == [] {
      assert a + b == a;
    } else {
      var init := b[..|b|-1];
      assert (a + b)[..|a + b|-1] == a + init;
      ConcatAppend(a, init);
      Assoc(Concat(a), Concat(init), b[|b|-1]);
    }
  }
}
