/** The nested locale store and its dot-path view (`flattenJson` and
    `unflattenJson` in locale-generation.ts, `flattenJson` in spreadsheet.ts).
    A JSON object is the sequence of its members in enumeration order; a flat
    map is the sequence of its entries in insertion order, with the property
    assignment of JavaScript: an existing key keeps its place and gets the new
    value, a new key goes to the end. */
module FlatJson {
  import opened Wrappers
  import opened JsStrings
  import opened KeyGeneration

  /** A JSON value of a locale file: a leaf string, or an object whose members
      are listed in enumeration order. */
  datatype Json = Leaf(value: string) | Obj(members: seq<(string, Json)>)

  /** A flat map from dot paths to values, in insertion order. */
  type FlatMap = seq<(string, string)>

  /** No key occurs twice. */
  predicate DistinctKeys<V>(ms: seq<(string, V)>) {
    forall i, j :: 0 <= i < j < |ms| ==> ms[i].0 != ms[j].0
  }

  /** The value stored under `k`, if any (`obj[k]`, `k in obj`). */
  function Get<V>(ms: seq<(string, V)>, k: string): Option<V>
    decreases |ms|
  {
    if ms == [] then None
    else if ms[0].0 == k then Some(ms[0].1)
    else Get(ms[1..], k)
  }

  /** A key is absent exactly when no entry has it, and a value found is the
      value of an entry with that key. */
  lemma {:induction false} GetFacts<V>(ms: seq<(string, V)>, k: string)
    ensures Get(ms, k).None? <==> forall i :: 0 <= i < |ms| ==> ms[i].0 != k
    ensures Get(ms, k).Some? ==> exists i :: 0 <= i < |ms| && ms[i] == (k, Get(ms, k).value)
    decreases |ms|
  {
    if ms != [] && ms[0].0 != k {
      GetFacts(ms[1..], k);
      assert forall i :: 1 <= i < |ms| ==> ms[i] == ms[1..][i - 1];
      if Get(ms, k).Some? {
        var i :| 0 <= i < |ms[1..]| && ms[1..][i] == (k, Get(ms, k).value);
        assert ms[i + 1] == (k, Get(ms, k).value);
      }
    }
  }

  /** With distinct keys, the value under a key is the one of its entry. */
  lemma GetDistinct<V>(ms: seq<(string, V)>, i: nat)
    requires DistinctKeys(ms) && i < |ms|
    ensures Get(ms, ms[i].0) == Some(ms[i].1)
  {
    GetFacts(ms, ms[i].0);
    var j :| 0 <= j < |ms| && ms[j] == (ms[i].0, Get(ms, ms[i].0).value);
    assert j == i;
  }

  /** An entry appended to a map only adds its key when it is new. */
  lemma {:induction false} GetSnoc<V>(ms: seq<(string, V)>, k: string, v: V, key: string)
    ensures Get(ms + [(k, v)], key)
         == if Get(ms, key).Some? then Get(ms, key) else if key == k then Some(v) else None
    decreases |ms|
  {
    if ms != [] {
      assert (ms + [(k, v)])[1..] == ms[1..] + [(k, v)];
      GetSnoc(ms[1..], k, v, key);
    }
  }

  /** `obj[k] = v` on a plain object. */
  function Put<V>(ms: seq<(string, V)>, k: string, v: V): (r: seq<(string, V)>)
    ensures Get(r, k) == Some(v)
    ensures forall key :: key != k ==> Get(r, key) == Get(ms, key)
    decreases |ms|
  {
    if ms == [] then [(k, v)]
    else if ms[0].0 == k then [(k, v)] + ms[1..]
    else [ms[0]] + Put(ms[1..], k, v)
  }

  /** A new key goes to the end. */
  lemma {:induction false} PutNew<V>(ms: seq<(string, V)>, k: string, v: V)
    requires Get(ms, k).None?
    ensures Put(ms, k, v) == ms + [(k, v)]
    decreases |ms|
  {
    if ms != [] {
      PutNew(ms[1..], k, v);
    }
  }

  /** Every entry after the assignment is the new one or an old one. */
  lemma {:induction false} PutMembers<V>(ms: seq<(string, V)>, k: string, v: V)
    ensures forall e :: e in Put(ms, k, v) ==> e == (k, v) || e in ms
    decreases |ms|
  {
    if ms != [] && ms[0].0 != k {
      PutMembers(ms[1..], k, v);
    }
  }

  /** The assignment keeps the keys distinct. */
  lemma {:induction false} PutDistinct<V>(ms: seq<(string, V)>, k: string, v: V)
    requires DistinctKeys(ms)
    ensures DistinctKeys(Put(ms, k, v))
    decreases |ms|
  {
    if ms != [] {
      if ms[0].0 == k {
        assert Put(ms, k, v)[1..] == ms[1..];
      } else {
        var rest := Put(ms[1..], k, v);
        PutDistinct(ms[1..], k, v);
        GetFacts(ms[1..], ms[0].0);
        GetFacts(rest, ms[0].0);
        assert Put(ms, k, v) == [ms[0]] + rest;
      }
    }
  }

  /** `Object.assign(acc, src)`: the entries of `src` are put in order. */
  function Assign<V>(acc: seq<(string, V)>, src: seq<(string, V)>): seq<(string, V)>
    decreases |src|
  {
    if src == [] then acc
    else Put(Assign(acc, src[..|src| - 1]), src[|src| - 1].0, src[|src| - 1].1)
  }

  /** After the assignment a key of `src` has its value there, any other key
      keeps its value in `acc`. */
  lemma {:induction false} AssignGet<V>(acc: seq<(string, V)>, src: seq<(string, V)>, key: string)
    requires DistinctKeys(src)
    ensures Get(Assign(acc, src), key) == if Get(src, key).Some? then Get(src, key) else Get(acc, key)
    decreases |src|
  {
    if src != [] {
      var init := src[..|src| - 1];
      var last := src[|src| - 1];
      assert src == init + [last];
      AssignGet(acc, init, key);
      GetSnoc(init, last.0, last.1, key);
      if key == last.0 {
        GetFacts(init, key);
      }
    }
  }

  lemma {:induction false} AssignDistinct<V>(acc: seq<(string, V)>, src: seq<(string, V)>)
    requires DistinctKeys(acc)
    ensures DistinctKeys(Assign(acc, src))
    decreases |src|
  {
    if src != [] {
      AssignDistinct(acc, src[..|src| - 1]);
      PutDistinct(Assign(acc, src[..|src| - 1]), src[|src| - 1].0, src[|src| - 1].1);
    }
  }

  /** A path segment the round trip can rebuild: non-empty and without a dot. */
  predicate Segment(k: string) { k != "" && '.' !in k }

  /** A non-empty path of segments. */
  predicate ValidPath(q: seq<string>) {
    |q| >= 1 && forall i :: 0 <= i < |q| ==> Segment(q[i])
  }

  /** Every object, at every depth, has distinct member keys that are
      segments: the shape `unflattenJson` builds. */
  predicate Clean(t: Json)
    decreases t
  {
    t.Obj? ==>
      (DistinctKeys(t.members)
       && forall i :: 0 <= i < |t.members| ==> Segment(t.members[i].0) && Clean(t.members[i].1))
  }

  /** The leaf reached from `t` along the path `q`. */
  function TreeGet(t: Json, q: seq<string>): Option<string>
    decreases |q|
  {
    if q == [] then (if t.Leaf? then Some(t.value) else None)
    else if t.Leaf? then None
    else
      match Get(t.members, q[0])
      case None => None
      case Some(c) => TreeGet(c, q[1..])
  }

  /** `flattenJson(obj, prefix)` after the first `n` members of `obj`: a nested
      object is flattened under the member's path and assigned in, any other
      value is stored under it. */
  function FlattenUpTo(t: Json, prefix: string, n: nat): FlatMap
    requires t.Obj? && n <= |t.members|
    decreases t, n
  {
    if n == 0 then []
    else
      var acc := FlattenUpTo(t, prefix, n - 1);
      var (k, c) := t.members[n - 1];
      assert t.members[n - 1] in t.members;
      match c
      case Obj(_) => Assign(acc, FlattenUpTo(c, FullKey(prefix, k), |c.members|))
      case Leaf(s) => Put(acc, FullKey(prefix, k), s)
  }

  /** `flattenJson(obj, prefix)`. */
  function Flatten(t: Json, prefix: string): FlatMap
    requires t.Obj?
  {
    FlattenUpTo(t, prefix, |t.members|)
  }

  /** The flat key of the path `q` below `prefix`. */
  function PathKey(prefix: string, q: seq<string>): string {
    FullKey(prefix, Join(q, "."))
  }

  /** `key` is the flat key of some path below `prefix`. */
  ghost predicate IsPathKey(prefix: string, key: string) {
    exists q :: ValidPath(q) && key == PathKey(prefix, q)
  }

  /** Different paths have different flat keys. */
  lemma PathKeyInjective(prefix: string, q1: seq<string>, q2: seq<string>)
    requires ValidPath(q1) && ValidPath(q2)
    requires PathKey(prefix, q1) == PathKey(prefix, q2)
    ensures q1 == q2
  {
    FullKeyInjective(prefix, Join(q1, "."), Join(q2, "."));
    SplitJoin(q1, '.');
    SplitJoin(q2, '.');
  }

  /** The flat key of a path below a member is the flat key of the longer path. */
  lemma PathKeyChain(prefix: string, k: string, r: seq<string>)
    requires Segment(k) && ValidPath(r)
    ensures PathKey(FullKey(prefix, k), r) == PathKey(prefix, [k] + r)
    ensures ValidPath([k] + r)
  {
    JoinCons(k, r, ".");
    var q := [k] + r;
    assert forall i :: 1 <= i < |q| ==> q[i] == r[i - 1];
  }

  /** A one-segment path has the member's own key. */
  lemma PathKeySingle(prefix: string, k: string)
    ensures PathKey(prefix, [k]) == FullKey(prefix, k)
  {
  }

  /** `acc` is what flattening the first `n` members of `t` under `prefix`
      gives: every path through those members has its leaf under its flat key,
      and every key present is the flat key of some path. */
  ghost predicate Describes(acc: FlatMap, t: Json, prefix: string, n: nat)
    requires t.Obj? && n <= |t.members|
  {
    (forall q :: ValidPath(q) ==>
      Get(acc, PathKey(prefix, q)) == if Get(t.members[..n], q[0]).Some? then TreeGet(t, q) else None)
    && (forall key :: Get(acc, key).Some? ==> IsPathKey(prefix, key))
  }

  /** Flattening always yields distinct keys. */
  lemma {:induction false} FlattenDistinct(t: Json, prefix: string, n: nat)
    requires t.Obj? && n <= |t.members|
    ensures DistinctKeys(FlattenUpTo(t, prefix, n))
    decreases t, n
  {
    if n > 0 {
      FlattenDistinct(t, prefix, n - 1);
      var acc := FlattenUpTo(t, prefix, n - 1);
      var (k, c) := t.members[n - 1];
      assert t.members[n - 1] in t.members;
      match c
      case Obj(_) => AssignDistinct(acc, FlattenUpTo(c, FullKey(prefix, k), |c.members|));
      case Leaf(s) => PutDistinct(acc, FullKey(prefix, k), s);
    }
  }

  /** The key of the last member is new among the ones before it. */
  lemma EarlierKeys(t: Json, n: nat)
    requires t.Obj? && Clean(t) && 1 <= n <= |t.members|
    ensures Get(t.members[..n - 1], t.members[n - 1].0).None?
    ensures Get(t.members, t.members[n - 1].0) == Some(t.members[n - 1].1)
    ensures t.members[..n] == t.members[..n - 1] + [t.members[n - 1]]
  {
    GetFacts(t.members[..n - 1], t.members[n - 1].0);
    GetDistinct(t.members, n - 1);
  }

  /** Storing a leaf member keeps the description. */
  lemma LeafStep(t: Json, prefix: string, n: nat, acc: FlatMap)
    requires t.Obj? && Clean(t) && 1 <= n <= |t.members| && t.members[n - 1].1.Leaf?
    requires Describes(acc, t, prefix, n - 1)
    ensures Describes(Put(acc, FullKey(prefix, t.members[n - 1].0), t.members[n - 1].1.value), t, prefix, n)
  {
    var (k, c) := t.members[n - 1];
    var acc' := Put(acc, FullKey(prefix, k), c.value);
    EarlierKeys(t, n);
    PathKeySingle(prefix, k);
    assert ValidPath([k]);
    forall q | ValidPath(q)
      ensures Get(acc', PathKey(prefix, q)) == if Get(t.members[..n], q[0]).Some? then TreeGet(t, q) else None
    {
      GetSnoc(t.members[..n - 1], k, c, q[0]);
      if q != [k] {
        if PathKey(prefix, q) == FullKey(prefix, k) {
          PathKeyInjective(prefix, q, [k]);
        }
      }
    }
    forall key | Get(acc', key).Some? ensures IsPathKey(prefix, key) {
      if key == FullKey(prefix, k) {
        assert key == PathKey(prefix, [k]);
      }
    }
  }

  /** The flattening of a nested member only holds keys of paths through it. */
  lemma SubKeys(prefix: string, k: string, sub: FlatMap, q: seq<string>)
    requires Segment(k) && ValidPath(q)
    requires forall key :: Get(sub, key).Some? ==> IsPathKey(FullKey(prefix, k), key)
    requires Get(sub, PathKey(prefix, q)).Some?
    ensures |q| >= 2 && q[0] == k
  {
    var r :| ValidPath(r) && PathKey(prefix, q) == PathKey(FullKey(prefix, k), r);
    PathKeyChain(prefix, k, r);
    PathKeyInjective(prefix, q, [k] + r);
  }

  /** One path, after assigning the flattening of a nested member. */
  lemma ObjStepAt(t: Json, prefix: string, n: nat, k: string, c: Json, acc: FlatMap, sub: FlatMap, q: seq<string>)
    requires t.Obj? && Clean(t) && 1 <= n <= |t.members| && t.members[n - 1] == (k, c) && c.Obj?
    requires Describes(acc, t, prefix, n - 1)
    requires Describes(sub, c, FullKey(prefix, k), |c.members|)
    requires DistinctKeys(sub) && ValidPath(q)
    ensures Get(Assign(acc, sub), PathKey(prefix, q))
         == if Get(t.members[..n], q[0]).Some? then TreeGet(t, q) else None
  {
    EarlierKeys(t, n);
    assert c.members[..|c.members|] == c.members;
    AssignGet(acc, sub, PathKey(prefix, q));
    GetSnoc(t.members[..n - 1], k, c, q[0]);
    if Get(sub, PathKey(prefix, q)).Some? {
      SubKeys(prefix, k, sub, q);
    }
    if q[0] == k && |q| >= 2 {
      var r := q[1..];
      assert q == [k] + r;
      assert ValidPath(r);
      PathKeyChain(prefix, k, r);
    }
  }

  /** Assigning the flattening of a nested member keeps the description. */
  lemma ObjStep(t: Json, prefix: string, n: nat, k: string, c: Json, acc: FlatMap, sub: FlatMap)
    requires t.Obj? && Clean(t) && 1 <= n <= |t.members| && t.members[n - 1] == (k, c) && c.Obj?
    requires Describes(acc, t, prefix, n - 1)
    requires Describes(sub, c, FullKey(prefix, k), |c.members|)
    requires DistinctKeys(sub)
    ensures Describes(Assign(acc, sub), t, prefix, n)
  {
    var acc' := Assign(acc, sub);
    forall q | ValidPath(q)
      ensures Get(acc', PathKey(prefix, q)) == if Get(t.members[..n], q[0]).Some? then TreeGet(t, q) else None
    {
      ObjStepAt(t, prefix, n, k, c, acc, sub, q);
    }
    forall key | Get(acc', key).Some? ensures IsPathKey(prefix, key) {
      ObjStepKey(prefix, k, acc, sub, key);
    }
  }

  /** A key present after assigning a nested member's flattening is a path key. */
  lemma ObjStepKey(prefix: string, k: string, acc: FlatMap, sub: FlatMap, key: string)
    requires Segment(k) && DistinctKeys(sub)
    requires forall key :: Get(acc, key).Some? ==> IsPathKey(prefix, key)
    requires forall key :: Get(sub, key).Some? ==> IsPathKey(FullKey(prefix, k), key)
    requires Get(Assign(acc, sub), key).Some?
    ensures IsPathKey(prefix, key)
  {
    AssignGet(acc, sub, key);
    if Get(sub, key).Some? {
      var r :| ValidPath(r) && key == PathKey(FullKey(prefix, k), r);
      PathKeyChain(prefix, k, r);
      var q := [k] + r;
      assert ValidPath(q) && key == PathKey(prefix, q);
    } else {
      assert Get(acc, key).Some?;
    }
  }

  lemma {:induction false} FlattenDescribes(t: Json, prefix: string, n: nat)
    requires t.Obj? && Clean(t) && n <= |t.members|
    ensures Describes(FlattenUpTo(t, prefix, n), t, prefix, n)
    decreases t, n, 2
  {
    if n == 0 {
      DescribesNothing(t, prefix);
    } else {
      FlattenDescribes(t, prefix, n - 1);
      FlattenStep(t, prefix, n);
    }
  }

  /** No member flattened, no key. */
  lemma DescribesNothing(t: Json, prefix: string)
    requires t.Obj?
    ensures Describes([], t, prefix, 0)
  {
    assert t.members[..0] == [];
  }

  /** One more member keeps the description. */
  lemma {:induction false} FlattenStep(t: Json, prefix: string, n: nat)
    requires t.Obj? && Clean(t) && 1 <= n <= |t.members|
    requires Describes(FlattenUpTo(t, prefix, n - 1), t, prefix, n - 1)
    ensures Describes(FlattenUpTo(t, prefix, n), t, prefix, n)
    decreases t, n, 1
  {
    if t.members[n - 1].1.Obj? {
      FlattenObjStep(t, prefix, n);
    } else {
      FlattenLeafStep(t, prefix, n);
    }
  }

  /** A nested member, flattened on its own, is assigned in. */
  lemma {:induction false} FlattenObjStep(t: Json, prefix: string, n: nat)
    requires t.Obj? && Clean(t) && 1 <= n <= |t.members| && t.members[n - 1].1.Obj?
    requires Describes(FlattenUpTo(t, prefix, n - 1), t, prefix, n - 1)
    ensures Describes(FlattenUpTo(t, prefix, n), t, prefix, n)
    decreases t, n, 0
  {
    var acc := FlattenUpTo(t, prefix, n - 1);
    var k := t.members[n - 1].0;
    var c := t.members[n - 1].1;
    assert t.members[n - 1] in t.members;
    var sub := FlattenUpTo(c, FullKey(prefix, k), |c.members|);
    FlattenDescribes(c, FullKey(prefix, k), |c.members|);
    FlattenDistinct(c, FullKey(prefix, k), |c.members|);
    assert FlattenUpTo(t, prefix, n) == Assign(acc, sub);
    ObjStep(t, prefix, n, k, c, acc, sub);
  }

  /** A leaf member is stored under its key. */
  lemma FlattenLeafStep(t: Json, prefix: string, n: nat)
    requires t.Obj? && Clean(t) && 1 <= n <= |t.members| && t.members[n - 1].1.Leaf?
    requires Describes(FlattenUpTo(t, prefix, n - 1), t, prefix, n - 1)
    ensures Describes(FlattenUpTo(t, prefix, n), t, prefix, n)
  {
    var acc := FlattenUpTo(t, prefix, n - 1);
    var k := t.members[n - 1].0;
    assert FlattenUpTo(t, prefix, n) == Put(acc, FullKey(prefix, k), t.members[n - 1].1.value);
    LeafStep(t, prefix, n, acc);
  }

  /** Flattening a clean object lists exactly its leaves: every path has its
      leaf under its flat key, and every key is the flat key of a path. */
  lemma FlattenLeaves(t: Json, prefix: string)
    requires t.Obj? && Clean(t)
    ensures DistinctKeys(Flatten(t, prefix))
    ensures forall q :: ValidPath(q) ==> Get(Flatten(t, prefix), PathKey(prefix, q)) == TreeGet(t, q)
    ensures forall key :: Get(Flatten(t, prefix), key).Some? ==> IsPathKey(prefix, key)
  {
    FlattenDescribes(t, prefix, |t.members|);
    FlattenDistinct(t, prefix, |t.members|);
    assert t.members[..|t.members|] == t.members;
  }

  /** `flattenJson(obj, prefix)` as the source runs it: the members in
      order, nested objects flattened recursively and assigned in. */
  method FlattenJson(obj: Json, prefix: string) returns (flattened: FlatMap)
    requires obj.Obj?
    ensures flattened == Flatten(obj, prefix)
    decreases obj
  {
    flattened := [];
    for i := 0 to |obj.members|
      invariant flattened == FlattenUpTo(obj, prefix, i)
    {
      var (key, value) := obj.members[i];
      assert obj.members[i] in obj.members;
      var newKey := FullKey(prefix, key);
      if value.Obj? {
        var nested := FlattenJson(value, newKey);
        flattened := Assign(flattened, nested);
      } else {
        flattened := Put(flattened, newKey, value.value);
      }
    }
  }

  /** The descent of `unflattenJson` for one key: along every segment but the
      last an object is created when missing and entered, then the last
      segment is assigned. Reaching a string fails, as `in` and property
      assignment on a string primitive throw a `TypeError`. */
  function SetPath(t: Json, segs: seq<string>, value: string): Result<Json>
    requires |segs| >= 1
    decreases |segs|
  {
    if t.Leaf? then Err("TypeError: the path " + segs[0] + " runs through a string")
    else if |segs| == 1 then Ok(Obj(Put(t.members, segs[0], Leaf(value))))
    else
      match SetPath(Entered(t, segs[0]), segs[1..], value)
      case Err(e) => Err(e)
      case Ok(c) => Ok(Obj(Put(t.members, segs[0], c)))
  }

  /** `unflattenJson` after the first `n` entries. */
  function UnflattenUpTo(flat: FlatMap, n: nat): Result<Json>
    requires n <= |flat|
  {
    if n == 0 then Ok(Obj([]))
    else
      match UnflattenUpTo(flat, n - 1)
      case Err(e) => Err(e)
      case Ok(t) => SetPath(t, Split(flat[n - 1].0, '.'), flat[n - 1].1)
  }

  /** `unflattenJson(flattened)`: `Err` when it throws. */
  function Unflatten(flat: FlatMap): Result<Json> {
    UnflattenUpTo(flat, |flat|)
  }

  /** Once a key throws, the later keys are never reached. */
  lemma {:induction false} ErrorPersists(flat: FlatMap, n: nat, m: nat)
    requires n <= m <= |flat| && UnflattenUpTo(flat, n).Err?
    ensures UnflattenUpTo(flat, m) == UnflattenUpTo(flat, n)
    decreases m - n
  {
    if n < m {
      ErrorPersists(flat, n, m - 1);
    }
  }

  /** `unflattenJson` as the source runs it, one key after the other. */
  method UnflattenJson(flattened: FlatMap) returns (result: Result<Json>)
    ensures result == Unflatten(flattened)
  {
    var tree := Obj([]);
    for i := 0 to |flattened|
      invariant UnflattenUpTo(flattened, i) == Ok(tree)
    {
      var (key, value) := flattened[i];
      var keys := Split(key, '.');
      var next := SetPath(tree, keys, value);
      if next.Err? {
        ErrorPersists(flattened, i + 1, |flattened|);
        return next;
      }
      tree := next.value;
    }
    return Ok(tree);
  }

  /** A path through an object goes through the member named by its first segment. */
  lemma TreeGetCons(t: Json, k: string, r: seq<string>)
    requires t.Obj?
    ensures TreeGet(t, [k] + r) == match Get(t.members, k) case None => None case Some(c) => TreeGet(c, r)
  {
    assert ([k] + r)[0] == k && ([k] + r)[1..] == r;
  }

  /** An empty object has no leaves. */
  lemma EmptyHasNoLeaf(q: seq<string>)
    ensures TreeGet(Obj([]), q).None?
  {
  }

  /** Assigning a clean value under a segment keeps an object clean. */
  lemma CleanPut(t: Json, k: string, c: Json)
    requires t.Obj? && Clean(t) && Segment(k) && Clean(c)
    ensures Clean(Obj(Put(t.members, k, c)))
  {
    var ms := Put(t.members, k, c);
    PutDistinct(t.members, k, c);
    PutMembers(t.members, k, c);
    forall i | 0 <= i < |ms| ensures Segment(ms[i].0) && Clean(ms[i].1) {
      assert ms[i] in ms;
      if ms[i] != (k, c) {
        var j :| 0 <= j < |t.members| && t.members[j] == ms[i];
      }
    }
  }

  /** No leaf lies on the way to `segs`. */
  ghost predicate OpenWay(t: Json, segs: seq<string>) {
    forall i :: 1 <= i < |segs| ==> TreeGet(t, segs[..i]).None?
  }

  /** No leaf lies below `segs`. */
  ghost predicate NothingBelow(t: Json, segs: seq<string>) {
    forall q :: ValidPath(q) && |q| > |segs| && q[..|segs|] == segs ==> TreeGet(t, q).None?
  }

  /** The member a path enters. */
  function Entered(t: Json, k: string): Json
    requires t.Obj?
  {
    match Get(t.members, k) case None => Obj([]) case Some(c) => c
  }

  /** What the descent does when no leaf is on its way or below its target:
      it succeeds, keeps the object clean, puts the value at the path and
      leaves every other path as it was. */
  lemma {:induction false} SetPathSpec(t: Json, segs: seq<string>, v: string)
    requires t.Obj? && Clean(t) && ValidPath(segs)
    requires OpenWay(t, segs) && NothingBelow(t, segs)
    ensures SetPath(t, segs, v).Ok?
    ensures var t' := SetPath(t, segs, v).value;
      t'.Obj? && Clean(t')
      && forall q :: ValidPath(q) ==> TreeGet(t', q) == if q == segs then Some(v) else TreeGet(t, q)
    decreases |segs|
  {
    if |segs| == 1 {
      SetPathLast(t, segs, v);
    } else {
      var child := Entered(t, segs[0]);
      EnteredIsClean(t, segs);
      SetPathWayDown(t, segs, child);
      SetPathSpec(child, segs[1..], v);
      SetPathRebuild(t, segs, v, SetPath(child, segs[1..], v).value);
    }
  }

  /** The last segment: the value is assigned there. */
  lemma SetPathLast(t: Json, segs: seq<string>, v: string)
    requires t.Obj? && Clean(t) && ValidPath(segs) && |segs| == 1 && NothingBelow(t, segs)
    ensures SetPath(t, segs, v) == Ok(Obj(Put(t.members, segs[0], Leaf(v))))
    ensures var t' := Obj(Put(t.members, segs[0], Leaf(v)));
      Clean(t') && forall q :: ValidPath(q) ==> TreeGet(t', q) == if q == segs then Some(v) else TreeGet(t, q)
  {
    var k := segs[0];
    CleanPut(t, k, Leaf(v));
    var t' := Obj(Put(t.members, k, Leaf(v)));
    forall q | ValidPath(q) ensures TreeGet(t', q) == if q == segs then Some(v) else TreeGet(t, q) {
      assert q == [q[0]] + q[1..];
      TreeGetCons(t', q[0], q[1..]);
      TreeGetCons(t, q[0], q[1..]);
      if q[0] == k && |q| > 1 {
        assert q[..1] == segs;
      }
    }
  }

  /** The member entered on the way is a clean object. */
  lemma EnteredIsClean(t: Json, segs: seq<string>)
    requires t.Obj? && Clean(t) && |segs| >= 2 && OpenWay(t, segs)
    ensures Entered(t, segs[0]).Obj? && Clean(Entered(t, segs[0]))
  {
    var k := segs[0];
    assert segs[..1] == [k] + [];
    TreeGetCons(t, k, []);
    if Get(t.members, k).Some? {
      GetFacts(t.members, k);
      var j :| 0 <= j < |t.members| && t.members[j] == (k, Entered(t, k));
    }
  }

  /** Putting the updated member back gives the whole update. */
  lemma SetPathRebuild(t: Json, segs: seq<string>, v: string, c': Json)
    requires t.Obj? && Clean(t) && ValidPath(segs) && |segs| >= 2 && Entered(t, segs[0]).Obj?
    requires SetPath(Entered(t, segs[0]), segs[1..], v) == Ok(c')
    requires c'.Obj? && Clean(c')
    requires forall q :: ValidPath(q) ==>
      TreeGet(c', q) == if q == segs[1..] then Some(v) else TreeGet(Entered(t, segs[0]), q)
    ensures SetPath(t, segs, v) == Ok(Obj(Put(t.members, segs[0], c')))
    ensures var t' := Obj(Put(t.members, segs[0], c'));
      Clean(t') && forall q :: ValidPath(q) ==> TreeGet(t', q) == if q == segs then Some(v) else TreeGet(t, q)
  {
    CleanPut(t, segs[0], c');
    forall q | ValidPath(q)
      ensures TreeGet(Obj(Put(t.members, segs[0], c')), q) == if q == segs then Some(v) else TreeGet(t, q)
    {
      RebuildAt(t, segs, v, c', q);
    }
  }

  lemma RebuildAt(t: Json, segs: seq<string>, v: string, c': Json, q: seq<string>)
    requires t.Obj? && ValidPath(segs) && |segs| >= 2 && c'.Obj? && ValidPath(q) && Entered(t, segs[0]).Obj?
    requires ValidPath(q[1..]) ==>
      TreeGet(c', q[1..]) == if q[1..] == segs[1..] then Some(v) else TreeGet(Entered(t, segs[0]), q[1..])
    ensures TreeGet(Obj(Put(t.members, segs[0], c')), q) == if q == segs then Some(v) else TreeGet(t, q)
  {
    var k := segs[0];
    var t' := Obj(Put(t.members, k, c'));
    var r := q[1..];
    assert q == [q[0]] + r;
    TreeGetCons(t', q[0], r);
    TreeGetCons(t, q[0], r);
    if q[0] == k {
      assert segs == [k] + segs[1..];
      if |q| > 1 {
        assert ValidPath(r);
        assert q == segs <==> r == segs[1..];
        if Get(t.members, k).None? {
          EmptyHasNoLeaf(r);
        }
      } else {
        assert q != segs;
      }
    }
  }

  /** The conditions of the descent carry over to the member it enters. */
  lemma SetPathWayDown(t: Json, segs: seq<string>, child: Json)
    requires t.Obj? && ValidPath(segs) && |segs| >= 2
    requires OpenWay(t, segs) && NothingBelow(t, segs)
    requires child == Entered(t, segs[0])
    ensures ValidPath(segs[1..]) && OpenWay(child, segs[1..]) && NothingBelow(child, segs[1..])
  {
    var k := segs[0];
    var below := segs[1..];
    forall i | 1 <= i < |below| ensures TreeGet(child, below[..i]).None? {
      TreeGetCons(t, k, below[..i]);
      assert segs[..i + 1] == [k] + below[..i];
      EmptyHasNoLeaf(below[..i]);
    }
    forall q | ValidPath(q) && |q| > |below| && q[..|below|] == below ensures TreeGet(child, q).None? {
      TreeGetCons(t, k, q);
      var q' := [k] + q;
      assert q'[..|segs|] == segs;
      assert forall i :: 1 <= i < |q'| ==> q'[i] == q[i - 1];
      assert ValidPath(q');
      EmptyHasNoLeaf(q);
    }
  }

  /** The flat maps the round trip holds for: distinct keys, every dot
      segment of a key non-empty, and no key followed by a dot starting
      another key. */
  predicate Rebuildable(flat: FlatMap) {
    DistinctKeys(flat)
    && (forall i :: 0 <= i < |flat| ==> ValidPath(Split(flat[i].0, '.')))
    && (forall i, j :: 0 <= i < |flat| && 0 <= j < |flat| ==> !StartsWith(flat[j].0, flat[i].0 + "."))
  }

  /** The paths of a segment list join and split back. */
  lemma PathJoinSplit(q: seq<string>)
    requires ValidPath(q)
    ensures Split(Join(q, "."), '.') == q
  {
    SplitJoin(q, '.');
  }

  /** The flat key of a longer path starts with the flat key of its prefix and a dot. */
  lemma JoinExtends(q: seq<string>, i: nat)
    requires ValidPath(q) && 1 <= i < |q|
    ensures ValidPath(q[..i]) && StartsWith(Join(q, "."), Join(q[..i], ".") + ".")
  {
    assert q == q[..i] + q[i..];
    JoinAppend(q[..i], q[i..], ".");
    var a := Join(q[..i], ".");
    assert Join(q, ".")[..|a| + 1] == a + ".";
  }

  /** No earlier key, followed by a dot, starts key `n`. */
  lemma NoKeyAbove(flat: FlatMap, n: nat, x: string)
    requires Rebuildable(flat) && n < |flat| && StartsWith(flat[n].0, x + ".")
    ensures Get(flat[..n], x).None?
  {
    GetFacts(flat[..n], x);
    assert forall j :: 0 <= j < n ==> flat[..n][j].0 != x by {
      forall j | 0 <= j < n ensures flat[..n][j].0 != x {
        assert !StartsWith(flat[n].0, flat[j].0 + ".");
      }
    }
  }

  /** No earlier key starts with key `n` followed by a dot. */
  lemma NoKeyBelow(flat: FlatMap, n: nat, x: string)
    requires Rebuildable(flat) && n < |flat| && StartsWith(x, flat[n].0 + ".")
    ensures Get(flat[..n], x).None?
  {
    GetFacts(flat[..n], x);
    assert forall j :: 0 <= j < n ==> flat[..n][j].0 != x by {
      forall j | 0 <= j < n ensures flat[..n][j].0 != x {
        assert !StartsWith(flat[j].0, flat[n].0 + ".");
      }
    }
  }

  /** No key of the first `n` entries is a proper dot prefix of key `n`, nor
      has key `n` as one. */
  lemma WayIsOpen(flat: FlatMap, n: nat, t: Json)
    requires Rebuildable(flat) && n < |flat|
    requires forall q :: ValidPath(q) ==> TreeGet(t, q) == Get(flat[..n], Join(q, "."))
    ensures var segs := Split(flat[n].0, '.'); OpenWay(t, segs) && NothingBelow(t, segs)
  {
    var key := flat[n].0;
    var segs := Split(key, '.');
    JoinSplit(key, '.');
    forall i | 1 <= i < |segs| ensures TreeGet(t, segs[..i]).None? {
      JoinExtends(segs, i);
      NoKeyAbove(flat, n, Join(segs[..i], "."));
    }
    forall q | ValidPath(q) && |q| > |segs| && q[..|segs|] == segs ensures TreeGet(t, q).None? {
      JoinExtends(q, |segs|);
      NoKeyBelow(flat, n, Join(q, "."));
    }
  }

  /** After the descent for entry `n`, the tree holds the first `n + 1` entries. */
  lemma HoldsAfter(flat: FlatMap, n: nat, t: Json, t': Json)
    requires Rebuildable(flat) && n < |flat|
    requires forall q :: ValidPath(q) ==> TreeGet(t, q) == Get(flat[..n], Join(q, "."))
    requires forall q :: ValidPath(q) ==>
      TreeGet(t', q) == if q == Split(flat[n].0, '.') then Some(flat[n].1) else TreeGet(t, q)
    ensures forall q :: ValidPath(q) ==> TreeGet(t', q) == Get(flat[..n + 1], Join(q, "."))
  {
    var key := flat[n].0;
    JoinSplit(key, '.');
    assert flat[..n + 1] == flat[..n] + [flat[n]];
    GetFacts(flat[..n], key);
    assert Get(flat[..n], key).None? by {
      assert forall j :: 0 <= j < n ==> flat[..n][j].0 != key by {
        forall j | 0 <= j < n ensures flat[..n][j].0 != key {
          assert flat[..n][j] == flat[j];
        }
      }
    }
    forall q | ValidPath(q) ensures TreeGet(t', q) == Get(flat[..n + 1], Join(q, ".")) {
      HoldsAfterAt(flat, n, q);
    }
  }

  lemma HoldsAfterAt(flat: FlatMap, n: nat, q: seq<string>)
    requires DistinctKeys(flat) && n < |flat| && ValidPath(q)
    requires Join(Split(flat[n].0, '.'), ".") == flat[n].0
    requires flat[..n + 1] == flat[..n] + [flat[n]]
    requires Get(flat[..n], flat[n].0).None?
    ensures Get(flat[..n + 1], Join(q, "."))
         == if q == Split(flat[n].0, '.') then Some(flat[n].1) else Get(flat[..n], Join(q, "."))
  {
    GetSnoc(flat[..n], flat[n].0, flat[n].1, Join(q, "."));
    PathJoinSplit(q);
  }

  /** `unflattenJson` over a rebuildable map never throws, builds a clean
      tree, and every path of segments leads to the value of its flat key. */
  lemma {:induction false} UnflattenHolds(flat: FlatMap, n: nat)
    requires Rebuildable(flat) && n <= |flat|
    ensures UnflattenUpTo(flat, n).Ok?
    ensures var t := UnflattenUpTo(flat, n).value;
      t.Obj? && Clean(t) && forall q :: ValidPath(q) ==> TreeGet(t, q) == Get(flat[..n], Join(q, "."))
    decreases n
  {
    if n == 0 {
      forall q | ValidPath(q) ensures TreeGet(Obj([]), q) == Get(flat[..0], Join(q, ".")) {
        EmptyHasNoLeaf(q);
      }
    } else {
      UnflattenHolds(flat, n - 1);
      UnflattenStep(flat, n - 1, UnflattenUpTo(flat, n - 1).value);
    }
  }

  lemma UnflattenStep(flat: FlatMap, n: nat, t: Json)
    requires Rebuildable(flat) && n < |flat|
    requires UnflattenUpTo(flat, n) == Ok(t)
    requires t.Obj? && Clean(t) && forall q :: ValidPath(q) ==> TreeGet(t, q) == Get(flat[..n], Join(q, "."))
    ensures UnflattenUpTo(flat, n + 1).Ok?
    ensures var t' := UnflattenUpTo(flat, n + 1).value;
      t'.Obj? && Clean(t') && forall q :: ValidPath(q) ==> TreeGet(t', q) == Get(flat[..n + 1], Join(q, "."))
  {
    var segs := Split(flat[n].0, '.');
    WayIsOpen(flat, n, t);
    SetPathSpec(t, segs, flat[n].1);
    HoldsAfter(flat, n, t, SetPath(t, segs, flat[n].1).value);
  }

  /** Flattening what `unflattenJson` builds from a rebuildable map gives the
      same map back: the same keys, each with its value, none twice. Only the
      order may differ, as the nesting groups keys by their first segments. */
  lemma RoundTrip(flat: FlatMap)
    requires Rebuildable(flat)
    ensures Unflatten(flat).Ok?
    ensures var f := Flatten(Unflatten(flat).value, "");
      DistinctKeys(f) && forall key :: Get(f, key) == Get(flat, key)
  {
    UnflattenHolds(flat, |flat|);
    assert flat[..|flat|] == flat;
    var t := Unflatten(flat).value;
    FlattenLeaves(t, "");
    forall key ensures Get(Flatten(t, ""), key) == Get(flat, key) {
      RoundTripKey(flat, t, Flatten(t, ""), key);
    }
  }

  lemma RoundTripKey(flat: FlatMap, t: Json, f: FlatMap, key: string)
    requires Rebuildable(flat)
    requires forall q :: ValidPath(q) ==> TreeGet(t, q) == Get(flat, Join(q, "."))
    requires forall q :: ValidPath(q) ==> Get(f, PathKey("", q)) == TreeGet(t, q)
    requires forall key :: Get(f, key).Some? ==> IsPathKey("", key)
    ensures Get(f, key) == Get(flat, key)
  {
    GetFacts(flat, key);
    KeyFromPath(flat, t, f, key);
    if Get(flat, key).Some? {
      var i :| 0 <= i < |flat| && flat[i] == (key, Get(flat, key).value);
      JoinSplit(key, '.');
      assert PathKey("", Split(key, '.')) == key;
    }
  }

  /** A key of the flattening is the key of a path, whose leaf came from the map. */
  lemma KeyFromPath(flat: FlatMap, t: Json, f: FlatMap, key: string)
    requires forall q :: ValidPath(q) ==> TreeGet(t, q) == Get(flat, Join(q, "."))
    requires forall q :: ValidPath(q) ==> Get(f, PathKey("", q)) == TreeGet(t, q)
    requires forall key :: Get(f, key).Some? ==> IsPathKey("", key)
    ensures Get(f, key).Some? ==> Get(f, key) == Get(flat, key)
  {
    if Get(f, key).Some? {
      var q :| ValidPath(q) && key == PathKey("", q);
    }
  }

  /** Some member met along `p` is a string, so the descent along any longer
      path through `p` reaches a string before its last segment. */
  predicate Blocked(t: Json, p: seq<string>)
    decreases |p|
  {
    t.Obj? && |p| >= 1 &&
    match Get(t.members, p[0])
    case None => false
    case Some(c) => c.Leaf? || Blocked(c, p[1..])
  }

  /** A successful descent leaves a string at the end of its path. */
  lemma {:induction false} SetPathBlocks(t: Json, p: seq<string>, v: string)
    requires |p| >= 1 && SetPath(t, p, v).Ok?
    ensures Blocked(SetPath(t, p, v).value, p)
    decreases |p|
  {
    if |p| > 1 {
      SetPathBlocks(Entered(t, p[0]), p[1..], v);
    }
  }

  /** A later successful descent along any path keeps a path blocked: it
      either leaves the string in place or puts a string further up. */
  lemma {:induction false} SetPathKeepsBlocked(t: Json, p: seq<string>, s: seq<string>, v: string)
    requires Blocked(t, p) && |s| >= 1 && SetPath(t, s, v).Ok?
    ensures Blocked(SetPath(t, s, v).value, p)
    decreases |s|
  {
    if s[0] == p[0] && |s| > 1 {
      var c := Entered(t, s[0]);
      assert Blocked(c, p[1..]);
      SetPathKeepsBlocked(c, p[1..], s[1..], v);
    }
  }

  /** The descent along a path longer than a blocked one fails. */
  lemma {:induction false} BlockedStops(t: Json, p: seq<string>, q: seq<string>, v: string)
    requires Blocked(t, p) && |q| > |p| && q[..|p|] == p
    ensures SetPath(t, q, v).Err?
    decreases |p|
  {
    assert q[0] == p[0];
    var c := Entered(t, q[0]);
    if c.Obj? {
      assert q[1..][..|p| - 1] == p[1..];
      BlockedStops(c, p[1..], q[1..], v);
    }
  }

  /** From the `i`-th key on, the unflattening either has thrown or has a
      string on the path of that key. */
  lemma {:induction false} BlockedUpTo(flat: FlatMap, i: nat, n: nat)
    requires i < n <= |flat|
    ensures UnflattenUpTo(flat, n).Err? || Blocked(UnflattenUpTo(flat, n).value, Split(flat[i].0, '.'))
    decreases n
  {
    var prev := UnflattenUpTo(flat, n - 1);
    if prev.Ok? && UnflattenUpTo(flat, n).Ok? {
      if n == i + 1 {
        SetPathBlocks(prev.value, Split(flat[i].0, '.'), flat[i].1);
      } else {
        BlockedUpTo(flat, i, n - 1);
        SetPathKeepsBlocked(prev.value, Split(flat[i].0, '.'), Split(flat[n - 1].0, '.'), flat[n - 1].1);
      }
    }
  }

  /** `unflattenJson` throws whenever a key is followed, at once or later, by
      a longer key below it: the first key leaves a string on the way, which
      the later key then tries to enter. */
  lemma LeafBeforeLongerKey(flat: FlatMap, i: nat, j: nat)
    requires i < j < |flat| && StartsWith(flat[j].0, flat[i].0 + ".")
    ensures Unflatten(flat).Err?
  {
    var a := flat[i].0;
    var b := flat[j].0[|a| + 1..];
    assert flat[j].0 == a + ['.'] + b;
    SplitAppend(a, b, '.');
    var p, q := Split(a, '.'), Split(flat[j].0, '.');
    assert q[..|p|] == p;
    BlockedUpTo(flat, i, j);
    if UnflattenUpTo(flat, j).Ok? {
      BlockedStops(UnflattenUpTo(flat, j).value, p, q, flat[j].1);
      ErrorPersists(flat, j + 1, |flat|);
    } else {
      ErrorPersists(flat, j, |flat|);
    }
  }
}
