/**
  `Merge` and its recursive `inner` closure: fold a source tree into a target
  tree, one source key at a time, in Go's unspecified map order.
 */
module MergeEngine {
  import opened Trees
  import opened KeyPath

  /** Key `k` is as it was in `t`: present with the same value, or still absent. */
  predicate Kept(t: Tree, f: Tree, k: Key)
  {
    (k in f <==> k in t) && (k in t ==> f[k] == t[k])
  }

  /** `v` is a value the loop may leave under source key `k` once it has
      visited `k`: the source value when the target lacks `k` or both sides are
      leaves, a merge of the two maps when both are maps. A clashing key is
      never visited successfully: visiting it ends the loop. */
  ghost predicate Stepped(t: Tree, s: Tree, k: Key, v: Value)
    requires k in s
    decreases Node(s), 0
  {
    if k !in t then v == s[k]
    else if t[k].Leaf? && s[k].Leaf? then v == s[k]
    else if t[k].Node? && s[k].Node? then v.Node? && exists stop :: Outcome(t[k].m, s[k].m, v.m, stop)
    else false
  }

  /** `f` is a state the loop of `inner` can leave target `t` in when it merges
      source `s`. Keys outside the source are untouched. With `stop == None` the
      loop visited every source key; with `stop == Some(e)` it stopped at the
      clashing key `e`, having visited any subset of the other keys before. */
  ghost predicate Outcome(t: Tree, s: Tree, f: Tree, stop: Option<Key>)
    decreases Node(s), 1
  {
    && (forall k :: k !in s ==> Kept(t, f, k))
    && (forall k :: k in s ==> (k in f && Stepped(t, s, k, f[k])) || (stop.Some? && Kept(t, f, k)))
    && (stop.Some? ==> Clash(t, s, stop.value))
  }

  /** What a top-level `Merge` call can return for target `t` and source `s`:
      a state the whole loop can reach, or the error for a clashing top-level key. */
  ghost predicate MergeOutcome(t: Tree, s: Tree, r: Result<Tree>)
  {
    match r
    case Ok(f) => Outcome(t, s, f, None)
    case Err(e) => exists k :: Clash(t, s, k) && e == DifferentTypes(KeyPathText([], k))
  }

  /** The `inner` closure. `f` is the state the target map is left in (Go
      updates it in place, and a nested call's partial update survives when its
      error is discarded); `err` is the error returned, which names the path to
      the clashing key the loop stopped at. */
  method Inner(source: Tree, target: Tree, priorKeys: seq<Key>) returns (f: Tree, err: Option<MergeError>)
    ensures err.None? ==> Outcome(target, source, f, None)
    ensures err.Some? ==> exists e :: Outcome(target, source, f, Some(e))
                                      && err.value == DifferentTypes(KeyPathText(priorKeys, e))
    decreases Node(source)
  {
    f := target;
    var todo := source.Keys;
    while todo != {}
      invariant todo <= source.Keys
      invariant forall k :: k !in source ==> Kept(target, f, k)
      invariant forall k :: k in todo ==> Kept(target, f, k)
      invariant forall k :: k in source && k !in todo ==> k in f && Stepped(target, source, k, f[k])
      decreases todo
    {
      var sourceKey :| sourceKey in todo;
      todo := todo - {sourceKey};
      var sourceValue := source[sourceKey];
      if sourceKey in f {
        var targetValue := f[sourceKey];
        if targetValue.Node? != sourceValue.Node? {
          var path := KeysRepr(priorKeys, sourceKey);
          assert Outcome(target, source, f, Some(sourceKey));
          return f, Some(DifferentTypes(path));
        } else if !targetValue.Node? {
          f := f[sourceKey := sourceValue];
        } else {
          // the nested error is discarded; the nested map keeps whatever was merged
          var nested, nestedErr := Inner(sourceValue.m, targetValue.m, priorKeys + [sourceKey]);
          assert exists stop :: Outcome(targetValue.m, sourceValue.m, nested, stop) by {
            if nestedErr.None? {
              assert Outcome(targetValue.m, sourceValue.m, nested, None);
            } else {
              var e :| Outcome(targetValue.m, sourceValue.m, nested, Some(e));
            }
          }
          f := f[sourceKey := Node(nested)];
        }
      } else {
        f := f[sourceKey := sourceValue];
      }
    }
    return f, None;
  }

  /** `Merge` on tree values, as immutable mode and `MergeAll` use it. */
  method MergeTrees(one: Tree, two: Tree) returns (r: Result<Tree>)
    ensures MergeOutcome(one, two, r)
  {
    var f, err := Inner(two, one, []);
    if err.Some? {
      return Err(err.value);
    }
    return Ok(f);
  }

  /** A Go map object: callers hold a reference to it, and a mutable merge
      updates its entries in place. Nested maps are values inside `entries`. */
  class GoMap {
    var entries: Tree

    constructor (entries: Tree)
      ensures this.entries == entries
    {
      this.entries := entries;
    }
  }

  /** `Merge(one, two, immutable)`. In mutable mode the target is `one` itself:
      it is updated in place and returned, and on an error it keeps the updates
      made before the clash. In immutable mode the merge runs on a copy of
      `one` and the caller's maps are never changed. */
  method Merge(one: GoMap, two: GoMap, immutable: bool) returns (r: Result<GoMap>)
    modifies if immutable then {} else {one}
    ensures MergeOutcome(old(one.entries), old(two.entries), if r.Ok? then Ok(r.value.entries) else Err(r.error))
    ensures immutable ==> unchanged(one, two) && (r.Ok? ==> fresh(r.value))
    ensures !immutable && r.Ok? ==> r.value == one
    ensures !immutable && r.Err? ==> exists e :: Outcome(old(one.entries), old(two.entries), one.entries, Some(e))
  {
    var target := one;
    if immutable {
      target := new GoMap(one.entries);
    }
    var f, err := Inner(two.entries, target.entries, []);
    target.entries := f;
    if err.Some? {
      return Err(err.value);
    }
    return Ok(target);
  }

  /** The loop never writes a clashing key: it keeps the target's value,
      whether the loop stopped there or (in a nested call) stopped elsewhere. */
  lemma ClashKeepsTarget(t: Tree, s: Tree, f: Tree, stop: Option<Key>, k: Key)
    requires Outcome(t, s, f, stop) && Clash(t, s, k)
    ensures stop.Some? && k in f && f[k] == t[k]
  {
    assert k in f ==> !Stepped(t, s, k, f[k]);
  }

  /** A merge fails exactly when some top-level key clashes, in either role,
      and the error names that key as `/k` inside the "different types" text. */
  lemma {:induction false} MergeFailsIffClash(t: Tree, s: Tree, r: Result<Tree>)
    requires MergeOutcome(t, s, r)
    ensures r.Err? <==> HasClash(t, s)
    ensures HasClash(t, s) <==> HasClash(s, t)
    ensures r.Err? ==> exists k :: && Clash(t, s, k) && r.error == DifferentTypes("/" + k)
                                   && Message(r.error) == "different types at key /" + k + " detected in trying to merge maps"
  {
    if r.Ok? {
      forall k | k in s ensures !Clash(t, s, k) {
        assert k in r.value && Stepped(t, s, k, r.value[k]);
      }
    } else {
      var k :| Clash(t, s, k) && r.error == DifferentTypes(KeyPathText([], k));
      TopLevelPath(k);
    }
    if HasClash(t, s) {
      var k :| k in s && Clash(t, s, k);
      assert Clash(s, t, k);
    }
    if HasClash(s, t) {
      var k :| k in t && Clash(s, t, k);
      assert Clash(t, s, k);
    }
  }

  /** On success: the result holds exactly the keys of both trees; keys only in
      the target are unchanged; keys only in the source are adopted as they are;
      a key where both sides are leaves takes the source's leaf, even when the
      two are equal or of different Go types; a key where both are maps stays a map. */
  lemma {:induction false} MergeSucceeds(t: Tree, s: Tree, f: Tree)
    requires MergeOutcome(t, s, Ok(f))
    ensures f.Keys == t.Keys + s.Keys
    ensures forall k :: k in t && k !in s ==> f[k] == t[k]
    ensures forall k :: k in s && k !in t ==> f[k] == s[k]
    ensures forall k :: k in s && k in t && t[k].Leaf? && s[k].Leaf? ==> f[k] == s[k]
    ensures forall k :: k in s && k in t && t[k].Node? && s[k].Node? ==> f[k].Node?
  {
    forall k | k in s ensures k in f && Stepped(t, s, k, f[k]) {
    }
    forall k | k !in s ensures Kept(t, f, k) {
    }
    assert f.Keys == t.Keys + s.Keys;
  }

  /** A mismatch below the top level is swallowed: when the two values under
      `a` are maps that clash at `b`, and nothing clashes at the top, the merge
      still succeeds and `a/b` keeps the target's value. */
  lemma {:induction false} NestedClashSwallowed(t: Tree, s: Tree, r: Result<Tree>, a: Key, b: Key)
    requires MergeOutcome(t, s, r) && !HasClash(t, s)
    requires a in t && a in s && t[a].Node? && s[a].Node? && Clash(t[a].m, s[a].m, b)
    ensures r.Ok? && a in r.value && r.value[a].Node?
    ensures b in r.value[a].m && r.value[a].m[b] == t[a].m[b]
  {
    MergeFailsIffClash(t, s, r);
    var f := r.value;
    assert Stepped(t, s, a, f[a]);
    var stop :| Outcome(t[a].m, s[a].m, f[a].m, stop);
    ClashKeepsTarget(t[a].m, s[a].m, f[a].m, stop, b);
  }

  /** When no key clashes at any depth, every run of the loop ends in the same
      state, the one the pure function `Merged` describes. */
  lemma {:induction false} CompatibleOutcomeIsMerged(t: Tree, s: Tree, f: Tree, stop: Option<Key>)
    requires Compatible(t, s) && Outcome(t, s, f, stop)
    ensures stop == None && f == Merged(t, s)
    decreases Node(s)
  {
    var m := Merged(t, s);
    forall k | k in s ensures k in f && f[k] == m[k] {
      assert !Clash(t, s, k);
      assert k in f && Stepped(t, s, k, f[k]);
      if k in t && t[k].Node? && s[k].Node? {
        var nstop :| Outcome(t[k].m, s[k].m, f[k].m, nstop);
        CompatibleOutcomeIsMerged(t[k].m, s[k].m, f[k].m, nstop);
      }
    }
    forall k | k !in s ensures Kept(t, f, k) {
    }
    assert f.Keys == m.Keys;
  }

  /** `Merged` is always one of the states the loop can reach: the run that
      visits every clashing key last. */
  lemma {:induction false} MergedIsReachable(t: Tree, s: Tree)
    ensures !HasClash(t, s) ==> Outcome(t, s, Merged(t, s), None)
    ensures forall k :: Clash(t, s, k) ==> Outcome(t, s, Merged(t, s), Some(k))
    decreases Node(s)
  {
    var m := Merged(t, s);
    forall k | k in s && !Clash(t, s, k) ensures Stepped(t, s, k, m[k]) {
      if k in t && t[k].Node? && s[k].Node? {
        var u, v := t[k].m, s[k].m;
        MergedIsReachable(u, v);
        if HasClash(u, v) {
          var c :| c in v && Clash(u, v, c);
          assert Outcome(u, v, Merged(u, v), Some(c));
        } else {
          assert Outcome(u, v, Merged(u, v), None);
        }
      }
    }
  }
}
