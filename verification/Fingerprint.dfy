/** `_compute_policy_hash`: one fingerprint for a set of policies and a version. */
module Fingerprint {
  import opened Policy

  // ----- order of ids -----

  /** Python's order of strings, by code points. */
  predicate AtMost(a: string, b: string) {
    a == "" || (b != "" && (a[0] < b[0] || (a[0] == b[0] && AtMost(a[1..], b[1..]))))
  }

  lemma {:induction false} AtMostTotal(a: string, b: string)
    ensures AtMost(a, b) || AtMost(b, a)
  {
    if a != "" && b != "" {
      AtMostTotal(a[1..], b[1..]);
    }
  }

  lemma {:induction false} AtMostAntisymmetric(a: string, b: string)
    requires AtMost(a, b) && AtMost(b, a)
    ensures a == b
  {
    if a != "" && b != "" {
      AtMostAntisymmetric(a[1..], b[1..]);
      assert a == [a[0]] + a[1..] && b == [b[0]] + b[1..];
    }
  }

  lemma {:induction false} AtMostTransitive(a: string, b: string, c: string)
    requires AtMost(a, b) && AtMost(b, c)
    ensures AtMost(a, c)
  {
    if a != "" && a[0] == b[0] == c[0] {
      AtMostTransitive(a[1..], b[1..], c[1..]);
    }
  }

  // ----- the stable sort by id -----

  function Insert(p: Policy, sorted: seq<Policy>): seq<Policy> {
    if sorted == [] || AtMost(p.id, sorted[0].id) then [p] + sorted
    else [sorted[0]] + Insert(p, sorted[1..])
  }

  function SortById(policies: seq<Policy>): seq<Policy> {
    if policies == [] then [] else Insert(policies[0], SortById(policies[1..]))
  }

  ghost predicate Sorted(policies: seq<Policy>) {
    forall i, j :: 0 <= i < j < |policies| ==> AtMost(policies[i].id, policies[j].id)
  }

  lemma {:induction false} InsertKeeps(p: Policy, sorted: seq<Policy>)
    requires Sorted(sorted)
    ensures multiset(Insert(p, sorted)) == multiset{p} + multiset(sorted)
    ensures Sorted(Insert(p, sorted))
  {
    if sorted == [] {
    } else if AtMost(p.id, sorted[0].id) {
      forall j | 0 < j < |sorted| ensures AtMost(p.id, sorted[j].id) {
        AtMostTransitive(p.id, sorted[0].id, sorted[j].id);
      }
    } else {
      var head, tail := sorted[0], sorted[1..];
      assert sorted == [head] + tail;
      InsertKeeps(p, tail);
      AtMostTotal(p.id, head.id);
      var rest := Insert(p, tail);
      forall j | 0 <= j < |rest| ensures AtMost(head.id, rest[j].id) {
        assert rest[j] in multiset(rest);
        assert rest[j] == p || rest[j] in tail;
      }
    }
  }

  lemma {:induction false} SortKeeps(policies: seq<Policy>)
    ensures multiset(SortById(policies)) == multiset(policies) && Sorted(SortById(policies))
  {
    if policies == [] {
    } else {
      SortKeeps(policies[1..]);
      InsertKeeps(policies[0], SortById(policies[1..]));
      assert policies == [policies[0]] + policies[1..];
    }
  }

  /** No two different policies share an id. */
  ghost predicate IdsDetermine(policies: multiset<Policy>) {
    forall p, q :: p in policies && q in policies && p.id == q.id ==> p == q
  }

  /** A sorted list whose ids determine its policies is fixed by its contents. */
  lemma {:induction false} SortedUnique(a: seq<Policy>, b: seq<Policy>)
    requires Sorted(a) && Sorted(b) && multiset(a) == multiset(b) && IdsDetermine(multiset(a))
    ensures a == b
  {
    if a == [] || b == [] {
      assert |multiset(a)| == |a| && |multiset(b)| == |b|;
    } else {
      HeadAtMost(a, b);
      HeadAtMost(b, a);
      AtMostAntisymmetric(a[0].id, b[0].id);
      assert a[0] in multiset(a) && b[0] in multiset(a);
      TailContents(a);
      TailContents(b);
      SortedUnique(a[1..], b[1..]);
    }
  }

  lemma HeadAtMost(a: seq<Policy>, b: seq<Policy>)
    requires Sorted(a) && a != [] && b != [] && multiset(a) == multiset(b)
    ensures AtMost(a[0].id, b[0].id) && b[0] in multiset(a)
  {
    assert b[0] in multiset(b);
    var j :| 0 <= j < |a| && a[j] == b[0];
    AtMostTotal(a[0].id, a[0].id);
  }

  lemma TailContents(a: seq<Policy>)
    requires a != []
    ensures multiset(a[1..]) == multiset(a) - multiset{a[0]}
  {
    assert a == [a[0]] + a[1..];
  }

  // ----- the fingerprint -----

  /** `json.dumps` of version and items, and SHA-256. */
  datatype Codec = Codec(encode: (string, seq<Policy>) -> string, digest: string -> string)

  /** No two documents are encoded alike. */
  ghost predicate IsEncoding(c: Codec) {
    forall v, ps, w, qs :: c.encode(v, ps) == c.encode(w, qs) ==> v == w && ps == qs
  }

  /** What is hashed: the version and the policies in the order of their ids. */
  function Text(c: Codec, policies: seq<Policy>, version: string): string {
    c.encode(version, SortById(policies))
  }

  /** The digest does not collide on these two texts. */
  ghost predicate NoCollision(c: Codec, s: string, t: string) {
    c.digest(s) == c.digest(t) ==> s == t
  }

  function Hash(c: Codec, policies: seq<Policy>, version: string): string {
    c.digest(Text(c, policies, version))
  }

  lemma UniqueIdsDetermine(policies: seq<Policy>)
    requires UniqueIds(policies)
    ensures IdsDetermine(multiset(policies))
  {
    forall p, q | p in multiset(policies) && q in multiset(policies) && p.id == q.id ensures p == q {
      var i :| 0 <= i < |policies| && policies[i] == p;
      var j :| 0 <= j < |policies| && policies[j] == q;
    }
  }

  /** The order of the policies does not matter. */
  lemma HashIgnoresOrder(c: Codec, policies: seq<Policy>, others: seq<Policy>, version: string)
    requires UniqueIds(policies) && multiset(policies) == multiset(others)
    ensures Hash(c, policies, version) == Hash(c, others, version)
  {
    SortKeeps(policies);
    SortKeeps(others);
    UniqueIdsDetermine(policies);
    SortedUnique(SortById(policies), SortById(others));
  }

  /** Equal fingerprints mean the same policies and the same version, and the other way round. */
  lemma HashIdentifies(c: Codec, policies: seq<Policy>, version: string, others: seq<Policy>, version': string)
    requires IsEncoding(c) && UniqueIds(policies)
    requires NoCollision(c, Text(c, policies, version), Text(c, others, version'))
    ensures Hash(c, policies, version) == Hash(c, others, version')
            <==> version == version' && multiset(policies) == multiset(others)
  {
    SortKeeps(policies);
    SortKeeps(others);
    if version == version' && multiset(policies) == multiset(others) {
      HashIgnoresOrder(c, policies, others, version);
    }
  }

  /** The direction the sync check needs, for any lists. */
  lemma EqualHashes(c: Codec, policies: seq<Policy>, version: string, others: seq<Policy>, version': string)
    requires IsEncoding(c) && NoCollision(c, Text(c, policies, version), Text(c, others, version'))
    requires Hash(c, policies, version) == Hash(c, others, version')
    ensures version == version' && multiset(policies) == multiset(others)
  {
    SortKeeps(policies);
    SortKeeps(others);
  }
}
