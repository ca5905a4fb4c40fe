/** `flatten_dict` and `unflatten_dict`: nested plugin configurations and dotted keys. */
module FlattenDict {
  import opened Wrappers

  datatype Result<T> = Ok(value: T) | TypeError

  /** Values that are not dictionaries. */
  datatype Scalar = EmptyString | Null | Other(value: string)

  datatype Tree = Leaf(scalar: Scalar) | Dict(kids: map<string, Tree>)

  type Path = seq<string>

  /** `unflatten_dict` skips the others. */
  predicate Live(s: Scalar) { s.Other? }

  // ----- dotted keys -----

  /** `".".join(path)` */
  function Join(path: Path): string {
    if path == [] then "" else if |path| == 1 then path[0] else path[0] + "." + Join(path[1..])
  }

  /** `key.split(".")` */
  function Parts(key: string): (parts: Path)
    ensures parts != []
  {
    if key == "" then [""]
    else if key[0] == '.' then [""] + Parts(key[1..])
    else var rest := Parts(key[1..]); [[key[0]] + rest[0]] + rest[1..]
  }

  predicate NoDot(s: string) { forall i :: 0 <= i < |s| ==> s[i] != '.' }

  predicate Plain(path: Path) { path != [] && forall i :: 0 <= i < |path| ==> NoDot(path[i]) }

  lemma JoinDot(rest: Path)
    requires rest != []
    ensures Join([""] + rest) == "." + Join(rest)
  {
    assert ([""] + rest)[1..] == rest;
  }

  lemma JoinCons(c: char, rest: Path)
    requires rest != []
    ensures Join([[c] + rest[0]] + rest[1..]) == [c] + Join(rest)
  {
    assert ([[c] + rest[0]] + rest[1..])[1..] == rest[1..];
    if |rest| > 1 {
      assert ([c] + rest[0]) + "." + Join(rest[1..]) == [c] + (rest[0] + "." + Join(rest[1..]));
    }
  }

  lemma PlainCons(c: char, rest: Path)
    requires Plain(rest)
    ensures Plain([""] + rest) && (c != '.' ==> Plain([[c] + rest[0]] + rest[1..]))
  {
  }

  lemma {:induction false} PartsPlain(key: string)
    ensures Plain(Parts(key)) && Join(Parts(key)) == key
  {
    if key == "" {
    } else {
      var rest := Parts(key[1..]);
      PartsPlain(key[1..]);
      PlainCons(key[0], rest);
      assert key == [key[0]] + key[1..];
      if key[0] == '.' {
        JoinDot(rest);
      } else {
        JoinCons(key[0], rest);
      }
    }
  }

  /** Reading `s` up to a dot, or to the end. */
  lemma {:induction false} PartsOfWord(s: string, rest: string)
    requires NoDot(s)
    ensures Parts(s) == [s]
    ensures Parts(s + "." + rest) == [s] + Parts(rest)
  {
    if s == "" {
      assert s + "." + rest == "." + rest && ("." + rest)[1..] == rest;
    } else {
      PartsOfWord(s[1..], rest);
      var t := s + "." + rest;
      assert t[1..] == s[1..] + "." + rest && t[0] == s[0];
      assert [s[0]] + s[1..] == s;
      assert ([s[1..]] + Parts(rest))[1..] == Parts(rest);
      assert [s[1..]][1..] == [];
    }
  }

  lemma {:induction false} PartsOfJoin(path: Path)
    requires Plain(path)
    ensures Parts(Join(path)) == path
  {
    if |path| == 1 {
      PartsOfWord(path[0], "");
    } else {
      PartsOfJoin(path[1..]);
      PartsOfWord(path[0], Join(path[1..]));
    }
  }

  // ----- trees -----

  function Get(t: Tree, path: Path): Option<Tree>
    decreases path
  {
    if path == [] then Some(t)
    else if t.Dict? && path[0] in t.kids then Get(t.kids[path[0]], path[1..])
    else None
  }

  function LeafAt(t: Tree, path: Path): Option<Scalar> {
    match Get(t, path)
    case Some(Leaf(s)) => Some(s)
    case _ => None
  }

  /** No empty dictionary below. */
  ghost predicate Full(t: Tree) {
    t.Leaf? || (t.kids.Keys != {} && forall k :: k in t.kids ==> Full(t.kids[k]))
  }

  /** The top dictionary may be empty, its sub-dictionaries may not. */
  ghost predicate FullBelow(t: Tree) { t.Dict? && forall k :: k in t.kids ==> Full(t.kids[k]) }

  ghost predicate PlainKeys(t: Tree) {
    t.Dict? ==> forall k :: k in t.kids ==> NoDot(k) && PlainKeys(t.kids[k])
  }

  ghost predicate LiveLeaves(t: Tree) {
    if t.Leaf? then Live(t.scalar) else forall k :: k in t.kids ==> LiveLeaves(t.kids[k])
  }

  lemma {:induction false} SomeLeaf(t: Tree) returns (path: Path)
    requires Full(t)
    ensures LeafAt(t, path).Some?
  {
    if t.Leaf? {
      path := [];
    } else {
      var k :| k in t.kids;
      var rest := SomeLeaf(t.kids[k]);
      path := [k] + rest;
      assert path[1..] == rest;
    }
  }

  /** A tree without empty dictionaries is determined by its leaves. */
  lemma {:induction false} SameLeaves(t: Tree, u: Tree)
    requires Full(t) && Full(u)
    requires forall path :: LeafAt(t, path) == LeafAt(u, path)
    ensures t == u
    decreases t, 2
  {
    assert LeafAt(t, []) == LeafAt(u, []);
    if t.Dict? && u.Dict? {
      SameKids(t, u);
    }
  }

  lemma {:induction false} SameKids(t: Tree, u: Tree)
    requires FullBelow(t) && FullBelow(u)
    requires forall path :: LeafAt(t, path) == LeafAt(u, path)
    ensures t == u
    decreases t, 1
  {
    forall k | k in t.kids ensures k in u.kids && t.kids[k] == u.kids[k] {
      KidInBoth(t, u, k);
      forall rest ensures LeafAt(t.kids[k], rest) == LeafAt(u.kids[k], rest) {
        LeafBelow(t, k, rest);
        LeafBelow(u, k, rest);
      }
      SameLeaves(t.kids[k], u.kids[k]);
    }
    forall k | k in u.kids ensures k in t.kids {
      KidInBoth(u, t, k);
    }
    assert t.kids == u.kids;
  }

  lemma LeafBelow(t: Tree, k: string, rest: Path)
    requires t.Dict? && k in t.kids
    ensures LeafAt(t, [k] + rest) == LeafAt(t.kids[k], rest)
  {
    assert ([k] + rest)[1..] == rest;
  }

  lemma KidInBoth(t: Tree, u: Tree, k: string)
    requires FullBelow(t) && u.Dict? && k in t.kids
    requires forall path :: LeafAt(t, path) == LeafAt(u, path)
    ensures k in u.kids
  {
    var rest := SomeLeaf(t.kids[k]);
    LeafBelow(t, k, rest);
    assert LeafAt(u, [k] + rest).Some?;
  }

  // ----- one key of unflatten -----

  function Child(t: Tree, k: string): Tree
    requires t.Dict?
  {
    if k in t.kids then t.kids[k] else Dict(map[])
  }

  /** Storing one value; a scalar on the way cannot be indexed. */
  function Insert(t: Tree, path: Path, s: Scalar): Result<Tree>
    requires path != []
    decreases path
  {
    if t.Leaf? then TypeError
    else if |path| == 1 then Ok(Dict(t.kids[path[0] := Leaf(s)]))
    else
      match Insert(Child(t, path[0]), path[1..], s)
      case TypeError => TypeError
      case Ok(sub) => Ok(Dict(t.kids[path[0] := sub]))
  }

  /** Storing fails exactly when a scalar sits on a proper prefix of the path. */
  lemma {:induction false} InsertFails(t: Tree, path: Path, s: Scalar)
    requires path != []
    ensures Insert(t, path, s).TypeError? <==> exists n: nat :: n < |path| && LeafAt(t, path[..n]).Some?
    decreases path
  {
    if t.Leaf? {
      assert LeafAt(t, path[..0]).Some?;
    } else if |path| == 1 {
      assert path[..0] == [];
    } else {
      var k, rest, c := path[0], path[1..], Child(t, path[0]);
      InsertFails(c, rest, s);
      forall n: nat | n < |rest| ensures LeafAt(t, path[..n+1]) == LeafAt(c, rest[..n]) {
        LeafAtChild(t, path, n);
      }
      if Insert(c, rest, s).TypeError? {
        var n: nat :| n < |rest| && LeafAt(c, rest[..n]).Some?;
        assert LeafAt(t, path[..n+1]).Some?;
      }
      forall n: nat | n < |path| && LeafAt(t, path[..n]).Some? ensures Insert(c, rest, s).TypeError? {
        assert path[..0] == [] && n > 0;
        assert LeafAt(c, rest[..n-1]).Some?;
      }
    }
  }

  lemma LeafAtChild(t: Tree, path: Path, n: nat)
    requires t.Dict? && n < |path|
    ensures LeafAt(t, path[..n+1]) == LeafAt(Child(t, path[0]), path[1..][..n])
  {
    assert path[..n+1][0] == path[0] && path[..n+1][1..] == path[1..][..n];
  }

  /** Storing at a place that is no dictionary changes that one leaf. */
  lemma {:induction false} InsertLeaf(t: Tree, path: Path, s: Scalar, q: Path)
    requires path != [] && Insert(t, path, s).Ok?
    requires Get(t, path).None? || Get(t, path).value.Leaf?
    ensures LeafAt(Insert(t, path, s).value, q) == if q == path then Some(s) else LeafAt(t, q)
    decreases path
  {
    var u := Insert(t, path, s).value;
    if q == [] {
    } else {
      if |path| == 1 {
        if q[0] == path[0] {
          assert Get(u, q) == Get(Leaf(s), q[1..]);
          assert q == path <==> q[1..] == [];
          assert path[1..] == [];
          if path[0] in t.kids {
            assert Get(t.kids[path[0]], []) == Some(t.kids[path[0]]) == Get(t, path);
            assert q != path ==> Get(t.kids[path[0]], q[1..]).None?;
          } else {
            assert Get(t, q).None?;
          }
        }
      } else if q[0] == path[0] {
        InsertLeaf(Child(t, path[0]), path[1..], s, q[1..]);
        assert q == path <==> q[1..] == path[1..];
      }
    }
  }

  lemma {:induction false} InsertFull(t: Tree, path: Path, s: Scalar)
    requires path != [] && Insert(t, path, s).Ok? && FullBelow(t)
    ensures Full(Insert(t, path, s).value)
    decreases path
  {
    var u := Insert(t, path, s).value;
    if |path| > 1 {
      InsertFull(Child(t, path[0]), path[1..], s);
    }
    assert path[0] in u.kids.Keys;
  }

  // ----- the cursor -----

  /** `t` with the subtree at `path` replaced. */
  function Put(t: Tree, path: Path, sub: Tree): Tree
    requires Get(t, path).Some?
    decreases path
  {
    if path == [] then sub else Dict(t.kids[path[0] := Put(t.kids[path[0]], path[1..], sub)])
  }

  lemma {:induction false} PutGet(t: Tree, path: Path, sub: Tree)
    requires Get(t, path).Some?
    ensures Get(Put(t, path, sub), path) == Some(sub)
    ensures forall other :: Put(Put(t, path, sub), path, other) == Put(t, path, other)
    decreases path
  {
    if path == [] {
    } else {
      PutGet(t.kids[path[0]], path[1..], sub);
    }
  }

  /** Replacing below a child of the cursor is replacing at the cursor. */
  lemma {:induction false} PutChild(t: Tree, path: Path, k: string, sub: Tree)
    requires Get(t, path).Some? && Get(t, path).value.Dict? && k in Get(t, path).value.kids
    ensures Get(t, path + [k]) == Some(Get(t, path).value.kids[k])
    ensures Put(t, path + [k], sub) == Put(t, path, Dict(Get(t, path).value.kids[k := sub]))
    decreases path
  {
    if path == [] {
      assert [] + [k] == [k] && [k][1..] == [];
    } else {
      assert (path + [k])[1..] == path[1..] + [k];
      PutChild(t.kids[path[0]], path[1..], k, sub);
    }
  }

  /** What is left to do at the cursor `d`. */
  ghost predicate AtCursor(nested: Tree, d: Path, rest: Path, s: Scalar, goal: Result<Tree>)
    requires rest != []
  {
    && Get(nested, d).Some?
    && goal == match Insert(Get(nested, d).value, rest, s)
               case TypeError => TypeError
               case Ok(sub) => Ok(Put(nested, d, sub))
  }

  /** `if part not in d: d[part] = {}` and `d = d[part]`. */
  lemma Descend(nested: Tree, d: Path, rest: Path, s: Scalar, goal: Result<Tree>)
    requires |rest| > 1 && AtCursor(nested, d, rest, s, goal) && Get(nested, d).value.Dict?
    ensures var k, here := rest[0], Get(nested, d).value;
            var next := if k in here.kids then nested else Put(nested, d, Dict(here.kids[k := Dict(map[])]));
            AtCursor(next, d + [k], rest[1..], s, goal)
  {
    var k, here := rest[0], Get(nested, d).value;
    var grown := if k in here.kids then here else Dict(here.kids[k := Dict(map[])]);
    var next := if k in here.kids then nested else Put(nested, d, grown);
    if k !in here.kids { PutGet(nested, d, grown); }
    assert Get(next, d) == Some(grown);
    var below := Insert(Child(here, k), rest[1..], s);
    PutChild(next, d, k, Child(here, k));
    if below.Ok? {
      PutChild(next, d, k, below.value);
      assert grown.kids[k := below.value] == here.kids[k := below.value];
    }
  }

  // ----- unflatten -----

  function Next(before: Result<Tree>, flat: map<string, Scalar>, key: string): Result<Tree>
    requires key in flat
  {
    if before.TypeError? || !Live(flat[key]) then before else Insert(before.value, Parts(key), flat[key])
  }

  /** The keys in the order the dictionary yields them. */
  function Unflattened(flat: map<string, Scalar>, order: seq<string>): Result<Tree>
    requires forall i :: 0 <= i < |order| ==> order[i] in flat
  {
    if order == [] then Ok(Dict(map[]))
    else Next(Unflattened(flat, order[..|order|-1]), flat, order[|order|-1])
  }

  predicate Enumerates(order: seq<string>, keys: set<string>) {
    && (forall i :: 0 <= i < |order| ==> order[i] in keys)
    && (forall k :: k in keys ==> k in order)
    && (forall i, j :: 0 <= i < j < |order| ==> order[i] != order[j])
  }

  method StoreKey(before: Tree, key: string, value: Scalar) returns (r: Result<Tree>)
    ensures r == Insert(before, Parts(key), value)
  {
    var parts := Parts(key);
    var nested, d := before, [];
    for i := 0 to |parts| - 1
      invariant AtCursor(nested, d, parts[i..], value, Insert(before, parts, value))
    {
      var part, here := parts[i], Get(nested, d).value;
      if here.Leaf? { return TypeError; }
      Descend(nested, d, parts[i..], value, Insert(before, parts, value));
      assert parts[i..][1..] == parts[i+1..];
      if part !in here.kids {
        nested := Put(nested, d, Dict(here.kids[part := Dict(map[])]));
      }
      d := d + [part];
    }
    var here, last := Get(nested, d).value, parts[|parts|-1];
    assert parts[|parts|-1..] == [last];
    if here.Leaf? { return TypeError; }
    r := Ok(Put(nested, d, Dict(here.kids[last := Leaf(value)])));
  }

  method Unflatten(flat: map<string, Scalar>, order: seq<string>) returns (r: Result<Tree>)
    requires Enumerates(order, flat.Keys)
    ensures r == Unflattened(flat, order)
  {
    var nested := Dict(map[]);
    for i := 0 to |order|
      invariant Ok(nested) == Unflattened(flat, order[..i])
    {
      assert order[..i+1][..i] == order[..i];
      var key := order[i];
      if !Live(flat[key]) { continue; }
      var stored := StoreKey(nested, key, flat[key]);
      if stored.TypeError? {
        ErrorStays(flat, order, i + 1);
        return TypeError;
      }
      nested := stored.value;
    }
    assert order[..|order|] == order;
    r := Ok(nested);
  }

  lemma {:induction false} ErrorStays(flat: map<string, Scalar>, order: seq<string>, n: nat)
    requires n <= |order| && forall i :: 0 <= i < |order| ==> order[i] in flat
    requires Unflattened(flat, order[..n]).TypeError?
    ensures Unflattened(flat, order).TypeError?
  {
    if n < |order| {
      assert order[..|order|-1][..n] == order[..n];
      ErrorStays(flat, order[..|order|-1], n);
    } else {
      assert order[..n] == order;
    }
  }

  // ----- what is skipped, and where the rest goes -----

  /** An empty string or a null makes no difference, wherever it stands. */
  lemma {:induction false} SkippedDoesNotCount(flat: map<string, Scalar>, a: seq<string>, key: string, b: seq<string>)
    requires (forall i :: 0 <= i < |a| ==> a[i] in flat) && (forall i :: 0 <= i < |b| ==> b[i] in flat)
    requires key in flat && (flat[key] == EmptyString || flat[key] == Null)
    ensures Unflattened(flat, a + [key] + b) == Unflattened(flat, a + b)
  {
    var all := a + [key] + b;
    if b == [] {
      assert all[..|a|] == a && a + b == a && all == a + [key];
    } else {
      var init := b[..|b|-1];
      assert all[..|all|-1] == a + [key] + init && (a + b)[..|a + b|-1] == a + init;
      SkippedDoesNotCount(flat, a, key, init);
    }
  }

  /** Any other value stored last is at the place that the parts of its key name. */
  lemma StoredLast(flat: map<string, Scalar>, init: seq<string>, key: string, v: string)
    requires forall i :: 0 <= i < |init| ==> init[i] in flat
    requires key in flat && flat[key] == Other(v)
    requires Unflattened(flat, init + [key]).Ok?
    ensures LeafAt(Unflattened(flat, init + [key]).value, Parts(key)) == Some(Other(v))
  {
    assert (init + [key])[..|init|] == init;
    InsertedAt(Unflattened(flat, init).value, Parts(key), flat[key]);
  }

  lemma {:induction false} InsertedAt(t: Tree, path: Path, s: Scalar)
    requires path != [] && Insert(t, path, s).Ok?
    ensures LeafAt(Insert(t, path, s).value, path) == Some(s)
    decreases path
  {
    if |path| == 1 {
      assert path[1..] == [] && Get(Leaf(s), path[1..]) == Some(Leaf(s));
    } else {
      InsertedAt(Child(t, path[0]), path[1..], s);
    }
  }

  /** The parts are what stands between the dots. */
  lemma DottedParts(a: string, b: string)
    requires forall i :: 0 <= i < |a| ==> a[i] != '.'
    requires forall i :: 0 <= i < |b| ==> b[i] != '.'
    ensures Parts(a) == [a] && Parts(a + "." + b) == [a, b] && Join([a, b]) == a + "." + b
  {
    PartsOfWord(a, b);
    PartsOfWord(b, "");
    assert [a, b][1..] == [b];
  }

  // ----- every order, if and only if no key is under another -----

  predicate Under(k: string, other: string) {
    |Parts(k)| < |Parts(other)| && Parts(other)[..|Parts(k)|] == Parts(k)
  }

  /** No stored key is a dotted prefix of another stored key. */
  ghost predicate PrefixFree(flat: map<string, Scalar>) {
    forall k, other :: k in flat && other in flat && Live(flat[k]) && Live(flat[other]) ==> !Under(k, other)
  }

  predicate Stored(flat: map<string, Scalar>, keys: seq<string>, path: Path) {
    Plain(path) && Join(path) in keys && Join(path) in flat && Live(flat[Join(path)])
  }

  /** The leaves of the tree are the stored keys, each with its value. */
  ghost predicate Represents(t: Tree, flat: map<string, Scalar>, keys: seq<string>) {
    && FullBelow(t)
    && forall path :: LeafAt(t, path) == if Stored(flat, keys, path) then Some(flat[Join(path)]) else None
  }

  lemma {:induction false} UnflattenRepresents(flat: map<string, Scalar>, order: seq<string>)
    requires PrefixFree(flat)
    requires forall i :: 0 <= i < |order| ==> order[i] in flat
    requires forall i, j :: 0 <= i < j < |order| ==> order[i] != order[j]
    ensures Unflattened(flat, order).Ok? && Represents(Unflattened(flat, order).value, flat, order)
  {
    if order == [] {
      forall path ensures LeafAt(Dict(map[]), path) == None {
      }
    } else {
      var init, key := order[..|order|-1], order[|order|-1];
      UnflattenRepresents(flat, init);
      var t := Unflattened(flat, init).value;
      if Live(flat[key]) {
        StoreRepresents(flat, init, t, key);
      }
      assert order == init + [key];
      forall path
        ensures Stored(flat, order, path) <==> Stored(flat, init, path) || (Live(flat[key]) && path == Parts(key))
        ensures path == Parts(key) ==> Join(path) == key
      {
        StoredMore(flat, init, key, path);
      }
    }
  }

  lemma StoredMore(flat: map<string, Scalar>, init: seq<string>, key: string, path: Path)
    requires key in flat
    ensures Stored(flat, init + [key], path) <==>
            Stored(flat, init, path) || (Live(flat[key]) && path == Parts(key))
    ensures path == Parts(key) ==> Join(path) == key
  {
    PartsPlain(key);
    if Plain(path) { PartsOfJoin(path); }
  }

  lemma StoreRepresents(flat: map<string, Scalar>, init: seq<string>, t: Tree, key: string)
    requires PrefixFree(flat) && key in flat && Live(flat[key])
    requires Represents(t, flat, init)
    ensures Insert(t, Parts(key), flat[key]).Ok?
    ensures var u := Insert(t, Parts(key), flat[key]).value;
            && FullBelow(u)
            && forall path :: LeafAt(u, path) == if path == Parts(key) then Some(flat[key]) else LeafAt(t, path)
  {
    var path, s := Parts(key), flat[key];
    PartsPlain(key);
    forall n: nat | n < |path| ensures LeafAt(t, path[..n]).None? {
      if Stored(flat, init, path[..n]) {
        PartsOfJoin(path[..n]);
        assert Under(Join(path[..n]), key);
      }
    }
    InsertFails(t, path, s);
    NoDictAt(flat, init, t, key);
    InsertFull(t, path, s);
    forall q ensures LeafAt(Insert(t, path, s).value, q) == if q == path then Some(s) else LeafAt(t, q) {
      InsertLeaf(t, path, s, q);
    }
  }

  /** A dictionary at a stored key would hold another stored key. */
  lemma NoDictAt(flat: map<string, Scalar>, init: seq<string>, t: Tree, key: string)
    requires PrefixFree(flat) && key in flat && Live(flat[key])
    requires Represents(t, flat, init)
    ensures Get(t, Parts(key)).Some? ==> Get(t, Parts(key)).value.Leaf?
  {
    var path := Parts(key);
    if Get(t, path).Some? && Get(t, path).value.Dict? {
      FullAt(t, path);
      var rest := SomeLeaf(Get(t, path).value);
      GetAppend(t, path, rest);
      var q := path + rest;
      assert Stored(flat, init, q);
      PartsOfJoin(q);
    }
  }

  lemma {:induction false} FullAt(t: Tree, path: Path)
    requires FullBelow(t) && path != [] && Get(t, path).Some?
    ensures Full(Get(t, path).value)
    decreases path
  {
    if |path| > 1 {
      FullAt(t.kids[path[0]], path[1..]);
    }
  }

  lemma {:induction false} GetAppend(t: Tree, path: Path, rest: Path)
    requires Get(t, path).Some?
    ensures Get(t, path + rest) == Get(Get(t, path).value, rest)
    decreases path
  {
    if path == [] {
      assert path + rest == rest;
    } else {
      assert (path + rest)[1..] == path[1..] + rest;
      GetAppend(t.kids[path[0]], path[1..], rest);
    }
  }

  /** The result does not depend on the order of the keys. */
  lemma OrderIndependent(flat: map<string, Scalar>, order: seq<string>, other: seq<string>)
    requires PrefixFree(flat) && Enumerates(order, flat.Keys) && Enumerates(other, flat.Keys)
    ensures Unflattened(flat, order).Ok? && Unflattened(flat, order) == Unflattened(flat, other)
  {
    UnflattenRepresents(flat, order);
    UnflattenRepresents(flat, other);
    var t, u := Unflattened(flat, order).value, Unflattened(flat, other).value;
    forall path ensures LeafAt(t, path) == LeafAt(u, path) {
      assert Stored(flat, order, path) <==> Stored(flat, other, path);
    }
    SameKids(t, u);
  }

  lemma {:induction false} Enumeration(keys: set<string>) returns (order: seq<string>)
    ensures Enumerates(order, keys)
  {
    if keys == {} {
      order := [];
    } else {
      var k :| k in keys;
      var rest := Enumeration(keys - {k});
      order := [k] + rest;
      forall other | other in keys ensures other in order {
        assert other == k || other in rest;
      }
    }
  }

  /** A scalar stored first makes the key under it fail. */
  lemma ConflictFails(flat: map<string, Scalar>, k: string, other: string)
    requires k in flat && other in flat && Live(flat[k]) && Live(flat[other]) && Under(k, other)
    ensures Unflattened(flat, [k, other]).TypeError?
  {
    var empty, path := Dict(map[]), Parts(k);
    forall n: nat | n < |path| ensures LeafAt(empty, path[..n]).None? {
    }
    InsertFails(empty, path, flat[k]);
    InsertLeaf(empty, path, flat[k], path);
    var one, two := [k], [k, other];
    assert one[..0] == [] && two[..1] == one;
    assert Unflattened(flat, one) == Insert(empty, path, flat[k]);
    var t := Unflattened(flat, one).value;
    assert LeafAt(t, Parts(other)[..|path|]).Some?;
    InsertFails(t, Parts(other), flat[other]);
  }

  /** An order that begins with two given keys. */
  lemma TwoFirst(keys: set<string>, k: string, other: string) returns (order: seq<string>)
    requires k in keys && other in keys && k != other
    ensures Enumerates(order, keys) && |order| >= 2 && order[..2] == [k, other]
  {
    var rest := Enumeration(keys - {k, other});
    order := [k, other] + rest;
    forall key | key in keys ensures key in order {
      assert key == order[0] || key == order[1] || key in rest;
    }
    assert order[..2] == [k, other];
  }

  lemma FailingOrder(flat: map<string, Scalar>, k: string, other: string) returns (order: seq<string>)
    requires k in flat && other in flat && Live(flat[k]) && Live(flat[other]) && Under(k, other)
    ensures Enumerates(order, flat.Keys) && Unflattened(flat, order).TypeError?
  {
    ConflictFails(flat, k, other);
    order := TwoFirst(flat.Keys, k, other);
    ErrorStays(flat, order, 2);
  }

  /** Unflattening works in every order of the keys if and only if no stored key is under another. */
  lemma EveryOrderWorks(flat: map<string, Scalar>)
    ensures (forall order :: Enumerates(order, flat.Keys) ==> Unflattened(flat, order).Ok?) <==> PrefixFree(flat)
  {
    if PrefixFree(flat) {
      forall order | Enumerates(order, flat.Keys) ensures Unflattened(flat, order).Ok? {
        UnflattenRepresents(flat, order);
      }
    } else {
      var k, other :| k in flat && other in flat && Live(flat[k]) && Live(flat[other]) && Under(k, other);
      var order := FailingOrder(flat, k, other);
    }
  }

  // ----- the order that always works -----

  /** Storing adds no leaf but its own. */
  lemma {:induction false} InsertAddsOne(t: Tree, path: Path, s: Scalar, q: Path)
    requires path != [] && Insert(t, path, s).Ok?
    requires LeafAt(Insert(t, path, s).value, q).Some?
    ensures q == path || LeafAt(t, q).Some?
    decreases path
  {
    assert q != [];
    if q[0] == path[0] {
      if |path| == 1 {
        assert Get(Leaf(s), q[1..]).Some? && q[1..] == [] && path[1..] == [];
      } else {
        InsertAddsOne(Child(t, path[0]), path[1..], s, q[1..]);
        assert q == [q[0]] + q[1..] && path == [path[0]] + path[1..];
      }
    }
  }

  /** Longer paths first. */
  predicate Falling(order: seq<string>) {
    forall i, j :: 0 <= i < j < |order| ==> |Parts(order[i])| >= |Parts(order[j])|
  }

  ghost predicate LeavesFrom(t: Tree, n: nat) { t.Dict? && forall q :: LeafAt(t, q).Some? ==> |q| >= n }

  lemma InsertFrom(t: Tree, path: Path, s: Scalar)
    requires path != [] && LeavesFrom(t, |path|)
    ensures Insert(t, path, s).Ok? && LeavesFrom(Insert(t, path, s).value, |path|)
  {
    InsertFails(t, path, s);
    forall q | LeafAt(Insert(t, path, s).value, q).Some? ensures |q| >= |path| {
      InsertAddsOne(t, path, s, q);
    }
  }

  lemma {:induction false} FallingWorks(flat: map<string, Scalar>, order: seq<string>, n: nat)
    requires Falling(order) && forall i :: 0 <= i < |order| ==> order[i] in flat && |Parts(order[i])| >= n
    ensures Unflattened(flat, order).Ok? && LeavesFrom(Unflattened(flat, order).value, n)
  {
    if order == [] {
    } else {
      var init, key := order[..|order|-1], order[|order|-1];
      FallingWorks(flat, init, |Parts(key)|);
      if Live(flat[key]) {
        InsertFrom(Unflattened(flat, init).value, Parts(key), flat[key]);
      }
    }
  }

  lemma {:induction false} Shortest(keys: set<string>) returns (k: string)
    requires keys != {}
    ensures k in keys && forall other :: other in keys ==> |Parts(k)| <= |Parts(other)|
  {
    k :| k in keys;
    if keys != {k} {
      var rest := Shortest(keys - {k});
      if |Parts(rest)| < |Parts(k)| { k := rest; }
    }
  }

  lemma {:induction false} FallingOrder(keys: set<string>) returns (order: seq<string>)
    ensures Enumerates(order, keys) && Falling(order)
  {
    if keys == {} {
      order := [];
    } else {
      var k := Shortest(keys);
      var rest := FallingOrder(keys - {k});
      order := rest + [k];
      forall other | other in keys ensures other in order {
        assert other in rest || order[|rest|] == k;
      }
    }
  }

  ghost predicate OrderDoesNotMatter(flat: map<string, Scalar>) {
    forall order, other :: Enumerates(order, flat.Keys) && Enumerates(other, flat.Keys) ==>
      Unflattened(flat, order) == Unflattened(flat, other)
  }

  /** The order of the keys does not matter if and only if no stored key is under another. */
  lemma OrderMatters(flat: map<string, Scalar>)
    ensures OrderDoesNotMatter(flat) <==> PrefixFree(flat)
  {
    if PrefixFree(flat) {
      forall order, other | Enumerates(order, flat.Keys) && Enumerates(other, flat.Keys)
        ensures Unflattened(flat, order) == Unflattened(flat, other)
      {
        OrderIndependent(flat, order, other);
      }
    } else {
      var k, other :| k in flat && other in flat && Live(flat[k]) && Live(flat[other]) && Under(k, other);
      var failing := FailingOrder(flat, k, other);
      var falling := FallingOrder(flat.Keys);
      FallingWorks(flat, falling, 0);
    }
  }

  // ----- flatten -----

  /** Every leaf has its dotted key, and every key comes from a leaf with its value. */
  ghost predicate FlattenedAs(t: Tree, prefix: string, flat: map<string, Scalar>) {
    && (forall path :: path != [] && LeafAt(t, path).Some? ==> prefix + Join(path) in flat)
    && (forall k :: k in flat ==> exists path :: KeyOf(t, prefix, path, k, flat[k]))
  }

  ghost predicate KeyOf(t: Tree, prefix: string, path: Path, k: string, s: Scalar) {
    path != [] && LeafAt(t, path) == Some(s) && k == prefix + Join(path)
  }

  lemma JoinBelow(prefix: string, k: string, rest: Path)
    requires rest != []
    ensures (prefix + k + ".") + Join(rest) == prefix + Join([k] + rest)
  {
    assert ([k] + rest)[1..] == rest;
    assert prefix + (k + "." + Join(rest)) == (prefix + k + ".") + Join(rest);
  }

  /** What the keys visited so far have contributed. */
  ghost predicate Visited(t: Tree, prefix: string, done: set<string>, flat: map<string, Scalar>) {
    && (forall path :: path != [] && path[0] in done && LeafAt(t, path).Some? ==> prefix + Join(path) in flat)
    && (forall k :: k in flat ==> exists path :: KeyOf(t, prefix, path, k, flat[k]))
  }

  lemma FirstStep(t: Tree, path: Path)
    requires t.Dict? && path != [] && path[0] in t.kids
    ensures LeafAt(t, path) == LeafAt(t.kids[path[0]], path[1..])
    ensures path == [path[0]] + path[1..]
  {
  }

  lemma VisitLeaf(t: Tree, prefix: string, done: set<string>, flat: map<string, Scalar>, key: string)
    requires t.Dict? && key in t.kids && t.kids[key].Leaf? && Visited(t, prefix, done, flat)
    ensures Visited(t, prefix, done + {key}, flat[prefix + key := t.kids[key].scalar])
  {
    var next := flat[prefix + key := t.kids[key].scalar];
    FirstStep(t, [key]);
    assert LeafAt(t.kids[key], [key][1..]).Some?;
    assert KeyOf(t, prefix, [key], prefix + key, t.kids[key].scalar);
    forall path | path != [] && path[0] in done + {key} && LeafAt(t, path).Some? ensures prefix + Join(path) in next {
      if path[0] == key { FirstStep(t, path); }
    }
    forall k | k in next ensures exists path :: KeyOf(t, prefix, path, k, next[k]) {
      if k != prefix + key { assert k in flat; }
    }
  }

  lemma KeysBelow(t: Tree, prefix: string, key: string, sub: map<string, Scalar>, k: string)
    requires t.Dict? && key in t.kids && FlattenedAs(t.kids[key], prefix + key + ".", sub) && k in sub
    ensures exists path :: KeyOf(t, prefix, path, k, sub[k])
  {
    var rest :| KeyOf(t.kids[key], prefix + key + ".", rest, k, sub[k]);
    LeafBelow(t, key, rest);
    JoinBelow(prefix, key, rest);
    assert KeyOf(t, prefix, [key] + rest, k, sub[k]);
  }

  lemma VisitDict(t: Tree, prefix: string, done: set<string>, flat: map<string, Scalar>, key: string,
                  sub: map<string, Scalar>)
    requires t.Dict? && key in t.kids && t.kids[key].Dict? && Visited(t, prefix, done, flat)
    requires FlattenedAs(t.kids[key], prefix + key + ".", sub)
    ensures Visited(t, prefix, done + {key}, flat + sub)
  {
    forall path | path != [] && path[0] in done + {key} && LeafAt(t, path).Some?
      ensures prefix + Join(path) in flat + sub
    {
      if path[0] == key {
        FirstStep(t, path);
        assert path[1..] != [];
        JoinBelow(prefix, key, path[1..]);
      }
    }
    var all := flat + sub;
    forall k | k in all ensures exists path :: KeyOf(t, prefix, path, k, all[k]) {
      if k in sub {
        KeysBelow(t, prefix, key, sub, k);
        assert all[k] == sub[k];
      } else {
        var path :| KeyOf(t, prefix, path, k, flat[k]);
        assert KeyOf(t, prefix, path, k, all[k]);
      }
    }
  }

  method Flatten(nested: Tree, prefix: string) returns (flat: map<string, Scalar>)
    ensures if nested.Leaf? then flat == map[] else FlattenedAs(nested, prefix, flat)
    decreases nested
  {
    flat := map[];
    if nested.Leaf? { return; }
    var keys := nested.kids.Keys;
    ghost var done := {};
    while keys != {}
      invariant keys <= nested.kids.Keys && done == nested.kids.Keys - keys
      invariant Visited(nested, prefix, done, flat)
      decreases |keys|
    {
      var key :| key in keys;
      if nested.kids[key].Dict? {
        var sub := Flatten(nested.kids[key], prefix + key + ".");
        VisitDict(nested, prefix, done, flat, key, sub);
        flat := flat + sub;
      } else {
        VisitLeaf(nested, prefix, done, flat, key);
        flat := flat[prefix + key := nested.kids[key].scalar];
      }
      keys := keys - {key};
      done := done + {key};
    }
  }

  // ----- there and back -----

  /** What a configuration must be like to come back unchanged. */
  ghost predicate Regular(t: Tree) {
    t.Dict? && FullBelow(t) && PlainKeys(t) && LiveLeaves(t)
  }

  lemma {:induction false} RegularLeaf(t: Tree, path: Path)
    requires PlainKeys(t) && LiveLeaves(t) && LeafAt(t, path).Some?
    ensures Live(LeafAt(t, path).value) && forall i :: 0 <= i < |path| ==> NoDot(path[i])
    decreases path
  {
    if path == [] {
    } else {
      RegularLeaf(t.kids[path[0]], path[1..]);
    }
  }

  /** The flat form of a regular tree represents it. */
  lemma FlatRepresents(t: Tree, flat: map<string, Scalar>, order: seq<string>)
    requires Regular(t) && FlattenedAs(t, "", flat) && Enumerates(order, flat.Keys)
    ensures Represents(t, flat, order)
  {
    forall path ensures LeafAt(t, path) == if Stored(flat, order, path) then Some(flat[Join(path)]) else None {
      if LeafAt(t, path).Some? {
        RegularLeaf(t, path);
        assert path != [] && "" + Join(path) == Join(path);
        assert Join(path) in flat;
      }
      if path != [] && Join(path) in flat && Plain(path) {
        var q :| KeyOf(t, "", q, Join(path), flat[Join(path)]);
        RegularLeaf(t, q);
        PartsOfJoin(q);
        PartsOfJoin(path);
        assert "" + Join(q) == Join(q);
      }
    }
  }

  lemma KeyIsPath(t: Tree, flat: map<string, Scalar>, k: string) returns (path: Path)
    requires Regular(t) && FlattenedAs(t, "", flat) && k in flat
    ensures Parts(k) == path && LeafAt(t, path).Some?
  {
    path :| KeyOf(t, "", path, k, flat[k]);
    RegularLeaf(t, path);
    PartsOfJoin(path);
    assert "" + Join(path) == Join(path);
  }

  lemma NothingBelowLeaf(t: Tree, p: Path, q: Path)
    requires LeafAt(t, p).Some? && LeafAt(t, q).Some?
    ensures !(|p| < |q| && q[..|p|] == p)
  {
    if |p| < |q| && q[..|p|] == p {
      assert q == p + q[|p|..];
      GetAppend(t, p, q[|p|..]);
    }
  }

  lemma FlatPrefixFree(t: Tree, flat: map<string, Scalar>)
    requires Regular(t) && FlattenedAs(t, "", flat)
    ensures PrefixFree(flat)
  {
    forall k, other | k in flat && other in flat ensures !Under(k, other) {
      var p := KeyIsPath(t, flat, k);
      var q := KeyIsPath(t, flat, other);
      NothingBelowLeaf(t, p, q);
    }
  }

  // Whatever unflattening returns is regular.

  lemma {:induction false} InsertRegular(t: Tree, path: Path, s: Scalar)
    requires Plain(path) && Live(s) && Insert(t, path, s).Ok?
    requires PlainKeys(t) && LiveLeaves(t)
    ensures PlainKeys(Insert(t, path, s).value) && LiveLeaves(Insert(t, path, s).value)
    decreases path
  {
    if |path| > 1 {
      InsertRegular(Child(t, path[0]), path[1..], s);
    }
  }

  lemma {:induction false} ResultIsRegular(flat: map<string, Scalar>, order: seq<string>)
    requires forall i :: 0 <= i < |order| ==> order[i] in flat
    requires Unflattened(flat, order).Ok?
    ensures Regular(Unflattened(flat, order).value)
  {
    if order == [] {
    } else {
      var init, key := order[..|order|-1], order[|order|-1];
      ResultIsRegular(flat, init);
      if Live(flat[key]) {
        PartsPlain(key);
        InsertRegular(Unflattened(flat, init).value, Parts(key), flat[key]);
        InsertFull(Unflattened(flat, init).value, Parts(key), flat[key]);
      }
    }
  }

  /** Unflattening the flat form gives the configuration back, in every order of the keys,
      if and only if it has no dotted key, no empty sub-dictionary, and no empty or null leaf. */
  lemma RoundTrip(t: Tree, flat: map<string, Scalar>, order: seq<string>)
    requires t.Dict? && FlattenedAs(t, "", flat) && Enumerates(order, flat.Keys)
    ensures Unflattened(flat, order) == Ok(t) <==> Regular(t)
  {
    if Regular(t) {
      FlatRepresents(t, flat, order);
      FlatPrefixFree(t, flat);
      UnflattenRepresents(flat, order);
      SameKids(t, Unflattened(flat, order).value);
    }
    if Unflattened(flat, order).Ok? {
      ResultIsRegular(flat, order);
    }
  }
}
