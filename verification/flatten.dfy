/**
 * `flattenJsonKeys` (src/utils.ts): the dotted key paths of a JSON value.
 * Every property visited is emitted under its path; a property whose value is
 * a non-array object is also descended into. Arrays, `null` and primitives are
 * leaves. The JavaScript `Set` that collects the paths is a list in
 * first-insertion order here.
 */
module Flatten {
  import opened Strings
  import opened Collections
  import opened JsonValue

  /**
   * The path of property `name` under `prefix`. An empty prefix is falsy in
   * JavaScript, so it stands for the root, wherever it comes from.
   */
  function JoinKey(prefix: string, name: string): string {
    if prefix == "" then name else prefix + "." + name
  }

  /**
   * The paths of the members from index `from` on, in traversal order,
   * repeats included. The measure wraps the members as the object they belong
   * to, which is larger than any object nested in them.
   */
  function Walk(ms: seq<(string, Json)>, from: nat, prefix: string): seq<string>
    requires from <= |ms|
    decreases JObject(ms), |ms| - from
  {
    if from == |ms| then []
    else
      var full := JoinKey(prefix, ms[from].0);
      var child := ms[from].1;
      var below := if child.JObject? then assert child == JObject(child.fields); Walk(child.fields, 0, full) else [];
      [full] + below + Walk(ms, from + 1, prefix)
  }

  /**
   * A descent path through the members from index `from` on: a non-empty
   * sequence of property names such that each name is a property of the
   * member list reached so far, and every name but the last leads to a
   * (non-array) object.
   */
  ghost predicate PathFrom(ms: seq<(string, Json)>, from: nat, segs: seq<string>)
    decreases |segs|
  {
    && |segs| > 0
    && exists i :: from <= i < |ms| && ms[i].0 == segs[0] &&
         (|segs| == 1 || (ms[i].1.JObject? && PathFrom(ms[i].1.fields, 0, segs[1..])))
  }

  ghost predicate PathIn(ms: seq<(string, Json)>, segs: seq<string>) {
    PathFrom(ms, 0, segs)
  }

  /** The path string of a segment sequence under `prefix`, joined the way the walk joins. */
  function JoinPath(prefix: string, segs: seq<string>): string
    decreases |segs|
  {
    if |segs| == 0 then prefix else JoinPath(JoinKey(prefix, segs[0]), segs[1..])
  }

  /** `flattenJsonKeys(obj, prefix)`. */
  function FlattenJsonKeys(obj: Json, prefix: string): (keys: seq<string>)
    ensures NoDuplicates(keys)
    ensures forall k :: k in keys <==>
      exists segs :: PathIn(Members(obj), segs) && JoinPath(prefix, segs) == k
  {
    var ms := Members(obj);
    WalkIsPaths(ms, 0, prefix);
    assert forall segs :: PathIn(ms, segs) == PathFrom(ms, 0, segs);
    Dedup(Walk(ms, 0, prefix))
  }

  /** The walk emits exactly the joins of the descent paths: nothing is missed and nothing is added. */
  lemma {:induction false} WalkIsPaths(ms: seq<(string, Json)>, from: nat, prefix: string)
    requires from <= |ms|
    ensures forall k :: k in Walk(ms, from, prefix) ==>
      exists segs :: PathFrom(ms, from, segs) && JoinPath(prefix, segs) == k
    ensures forall k :: (exists segs :: PathFrom(ms, from, segs) && JoinPath(prefix, segs) == k) ==>
      k in Walk(ms, from, prefix)
  {
    forall k | k in Walk(ms, from, prefix)
      ensures exists segs :: PathFrom(ms, from, segs) && JoinPath(prefix, segs) == k
    {
      WalkSound(ms, from, prefix, k);
    }
    forall k | exists segs :: PathFrom(ms, from, segs) && JoinPath(prefix, segs) == k
      ensures k in Walk(ms, from, prefix)
    {
      var segs :| PathFrom(ms, from, segs) && JoinPath(prefix, segs) == k;
      WalkComplete(ms, from, prefix, segs);
    }
    assert forall k :: k in Walk(ms, from, prefix) ==>
      exists segs :: PathFrom(ms, from, segs) && JoinPath(prefix, segs) == k;
  }

  /** Soundness: every key the walk emits is the join of a descent path. */
  lemma {:induction false} WalkSound(ms: seq<(string, Json)>, from: nat, prefix: string, k: string)
    requires from <= |ms| && k in Walk(ms, from, prefix)
    ensures exists segs :: PathFrom(ms, from, segs) && JoinPath(prefix, segs) == k
    decreases JObject(ms), |ms| - from
  {
    var name := ms[from].0;
    var child := ms[from].1;
    var full := JoinKey(prefix, name);
    var below := if child.JObject? then Walk(child.fields, 0, full) else [];
    var rest := Walk(ms, from + 1, prefix);
    assert Walk(ms, from, prefix) == [full] + below + rest;
    if k == full {
      assert PathFrom(ms, from, [name]) && JoinPath(prefix, [name]) == k;
    } else if k in below {
      assert child == JObject(child.fields);
      WalkSound(child.fields, 0, full, k);
      var segs' :| PathFrom(child.fields, 0, segs') && JoinPath(full, segs') == k;
      var segs := [name] + segs';
      assert segs[1..] == segs';
      assert PathFrom(ms, from, segs);
      assert JoinPath(prefix, segs) == k;
    } else {
      WalkSound(ms, from + 1, prefix, k);
      var segs :| PathFrom(ms, from + 1, segs) && JoinPath(prefix, segs) == k;
      assert PathFrom(ms, from, segs);
    }
  }

  /** Completeness: the join of every descent path is emitted. */
  lemma {:induction false} WalkComplete(ms: seq<(string, Json)>, from: nat, prefix: string, segs: seq<string>)
    requires from <= |ms| && PathFrom(ms, from, segs)
    ensures JoinPath(prefix, segs) in Walk(ms, from, prefix)
    decreases JObject(ms), |ms| - from
  {
    var i :| from <= i < |ms| && ms[i].0 == segs[0] &&
      (|segs| == 1 || (ms[i].1.JObject? && PathFrom(ms[i].1.fields, 0, segs[1..])));
    var child := ms[from].1;
    var full := JoinKey(prefix, ms[from].0);
    var below := if child.JObject? then Walk(child.fields, 0, full) else [];
    var rest := Walk(ms, from + 1, prefix);
    assert Walk(ms, from, prefix) == [full] + below + rest;
    if i == from {
      assert JoinPath(prefix, segs) == JoinPath(full, segs[1..]);
      if |segs| > 1 {
        assert child == JObject(child.fields);
        WalkComplete(child.fields, 0, full, segs[1..]);
      }
    } else {
      assert PathFrom(ms, from + 1, segs);
      WalkComplete(ms, from + 1, prefix, segs);
    }
  }

  /** Flattening an object with no properties yields nothing; a nested empty object contributes only its own path. */
  lemma EmptyObjects(name: string, prefix: string)
    ensures FlattenJsonKeys(JObject([]), prefix) == []
    ensures FlattenJsonKeys(JObject([(name, JObject([]))]), prefix) == [JoinKey(prefix, name)]
  {
    var ms := [(name, JObject([]))];
    assert Walk(ms, 0, prefix) == [JoinKey(prefix, name)];
  }

  /** Under the empty prefix every property name of the root appears unchanged. */
  lemma RootNamesKept(obj: Json)
    ensures forall i :: 0 <= i < |Members(obj)| ==> Members(obj)[i].0 in FlattenJsonKeys(obj, "")
  {
    forall i | 0 <= i < |Members(obj)|
      ensures Members(obj)[i].0 in FlattenJsonKeys(obj, "")
    {
      var segs := [Members(obj)[i].0];
      assert PathIn(Members(obj), segs);
      assert JoinPath("", segs) == Members(obj)[i].0;
    }
  }

  /** Every path emitted under a non-empty prefix extends that prefix by a dot. */
  lemma {:induction false} UnderPrefix(obj: Json, prefix: string)
    requires prefix != ""
    ensures forall k :: k in FlattenJsonKeys(obj, prefix) ==> StartsWith(k, prefix + ".")
  {
    forall k | k in FlattenJsonKeys(obj, prefix)
      ensures StartsWith(k, prefix + ".")
    {
      var segs :| PathIn(Members(obj), segs) && JoinPath(prefix, segs) == k;
      JoinPathExtends(JoinKey(prefix, segs[0]), segs[1..]);
    }
  }

  /** Joining more segments onto a non-empty path only lengthens it. */
  lemma {:induction false} JoinPathExtends(prefix: string, segs: seq<string>)
    requires prefix != ""
    ensures StartsWith(JoinPath(prefix, segs), prefix)
    decreases |segs|
  {
    if |segs| > 0 {
      var next := JoinKey(prefix, segs[0]);
      JoinPathExtends(next, segs[1..]);
      assert StartsWith(next, prefix);
      assert JoinPath(prefix, segs)[..|prefix|] == JoinPath(prefix, segs)[..|next|][..|prefix|];
    }
  }

  /**
   * An object-valued property is emitted under its path `p`, and so is every
   * key the recursive call produces for it; when `p` is non-empty each of
   * those keys starts with `p + "."`.
   */
  lemma ObjectPropertyExpands(obj: Json, prefix: string, i: nat)
    requires i < |Members(obj)| && Members(obj)[i].1.JObject?
    ensures JoinKey(prefix, Members(obj)[i].0) in FlattenJsonKeys(obj, prefix)
    ensures forall k :: k in FlattenJsonKeys(Members(obj)[i].1, JoinKey(prefix, Members(obj)[i].0)) ==>
      k in FlattenJsonKeys(obj, prefix)
    ensures JoinKey(prefix, Members(obj)[i].0) != "" ==>
      forall k :: k in FlattenJsonKeys(Members(obj)[i].1, JoinKey(prefix, Members(obj)[i].0)) ==>
        StartsWith(k, JoinKey(prefix, Members(obj)[i].0) + ".")
  {
    var ms := Members(obj);
    var name := ms[i].0;
    var child := ms[i].1;
    var p := JoinKey(prefix, name);
    assert PathIn(ms, [name]) && JoinPath(prefix, [name]) == p;
    forall k | k in FlattenJsonKeys(child, p)
      ensures k in FlattenJsonKeys(obj, prefix)
    {
      var segs' :| PathIn(Members(child), segs') && JoinPath(p, segs') == k;
      var segs := [name] + segs';
      assert segs[1..] == segs';
      assert PathIn(ms, segs);
      assert JoinPath(prefix, segs) == k;
    }
    if p != "" {
      UnderPrefix(child, p);
    }
  }

  /** Names are unique within one object, as in every value `JSON.parse` builds. */
  predicate UniqueNames(ms: seq<(string, Json)>) {
    forall i, j :: 0 <= i < j < |ms| ==> ms[i].0 != ms[j].0
  }

  /** A property whose value is an array, `null` or a primitive is emitted, and no path reaches below it. */
  lemma LeafHasNoDescendants(obj: Json, prefix: string, i: nat)
    requires UniqueNames(Members(obj))
    requires i < |Members(obj)| && !Members(obj)[i].1.JObject?
    ensures JoinKey(prefix, Members(obj)[i].0) in FlattenJsonKeys(obj, prefix)
    ensures forall segs :: PathIn(Members(obj), segs) && segs[0] == Members(obj)[i].0 ==> |segs| == 1
  {
    var ms := Members(obj);
    assert PathIn(ms, [ms[i].0]) && JoinPath(prefix, [ms[i].0]) == JoinKey(prefix, ms[i].0);
  }

  /** Ancestor closure: every non-empty prefix of a descent path is a descent path. */
  lemma {:induction false} PathPrefix(ms: seq<(string, Json)>, segs: seq<string>, n: nat)
    requires PathIn(ms, segs) && 1 <= n <= |segs|
    ensures PathIn(ms, segs[..n])
    decreases |segs|
  {
    var i :| 0 <= i < |ms| && ms[i].0 == segs[0] &&
      (|segs| == 1 || (ms[i].1.JObject? && PathFrom(ms[i].1.fields, 0, segs[1..])));
    if n > 1 {
      PathPrefix(ms[i].1.fields, segs[1..], n - 1);
      assert segs[..n][1..] == segs[1..][..n - 1];
    }
    assert ms[i].0 == segs[..n][0];
  }

  /** If the path of a segment sequence is emitted, so is the path of each of its non-empty prefixes. */
  lemma AncestorsEmitted(obj: Json, prefix: string, segs: seq<string>, n: nat)
    requires PathIn(Members(obj), segs) && 1 <= n <= |segs|
    ensures JoinPath(prefix, segs) in FlattenJsonKeys(obj, prefix)
    ensures JoinPath(prefix, segs[..n]) in FlattenJsonKeys(obj, prefix)
  {
    PathPrefix(Members(obj), segs, n);
  }

  /**
   * Because an empty prefix means "root", a property named "" does not add a
   * leading dot to the paths below it: `{"": {"a": 1}}` flattens to "" and
   * "a", and "a" is not a property of the root.
   */
  lemma EmptyNameJoinsAsRoot()
    ensures FlattenJsonKeys(JObject([("", JObject([("a", JNumber("1"))]))]), "") == ["", "a"]
  {
    var inner := [("a", JNumber("1"))];
    var ms := [("", JObject(inner))];
    assert Walk(inner, 0, "") == ["a"];
    assert Walk(ms, 0, "") == ["", "a"];
    assert Dedup(["", "a"]) == ["", "a"] by {
      assert ["", "a"][..1] == [""];
    }
  }

  /**
   * The pure part of `loadJsonFiles` (src/utils.ts): each loaded file's path
   * with the flattened key set of its parsed content.
   */
  function KeySets(files: seq<(string, Json)>): (sets: seq<(string, seq<string>)>)
    ensures |sets| == |files|
    ensures forall i :: 0 <= i < |files| ==> sets[i].0 == files[i].0 && NoDuplicates(sets[i].1)
    ensures forall i, k :: 0 <= i < |files| ==> (k in sets[i].1 <==> k in FlattenJsonKeys(files[i].1, ""))
  {
    seq(|files|, i requires 0 <= i < |files| => (files[i].0, FlattenJsonKeys(files[i].1, "")))
  }
}
