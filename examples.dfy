/**
  The trees of the repository's merge tests, and what the model says about them.
 */
module Examples {
  import opened Trees
  import opened KeyPath
  import opened MergeEngine
  import opened Combiner

  function S(s: string): Value
  {
    Leaf(Str(s))
  }

  function Two(): Tree
  {
    map[
      "keyTwo1" := Node(map["keyTwo1_1" := S("valueTwo1_1")]),
      "keyTwo2" := S("valueTwo2"),
      "keyTwo3" := Node(map[
        "keyTwo3_1" := S("valueTwo3_1"),
        "keyTwo3_2" := S("valueTwo3_2"),
        "keyTwo3_3" := Node(map["keyTwo4_1" := S("valueTwo4_1")])]),
      "keyTwo4" := S("valueTwo4")]
  }

  function TwoPrime(): Tree
  {
    map["keyTwo1" := Node(map["keyTwo1_1" := S("valueTwo1_1Prime")])]
  }

  function IntermixedBad(): Tree
  {
    map["keyTwo1" := S("valueTwo1")]
  }

  function Intermixed(): Tree
  {
    map[
      "keyTwo1" := Node(map["keyOne1_1" := Node(map["keyTwo1_1_1" := S("valueTwo1_1_1")])]),
      "keyTwo3" := Node(map["keyTwo3_1" := S("valueTwo3_1_modified")])]
  }

  function IntermixedMergeResult(): Tree
  {
    map[
      "keyTwo1" := Node(map[
        "keyOne1_1" := Node(map["keyTwo1_1_1" := S("valueTwo1_1_1")]),
        "keyTwo1_1" := S("valueTwo1_1")]),
      "keyTwo2" := S("valueTwo2"),
      "keyTwo3" := Node(map[
        "keyTwo3_1" := S("valueTwo3_1_modified"),
        "keyTwo3_2" := S("valueTwo3_2"),
        "keyTwo3_3" := Node(map["keyTwo4_1" := S("valueTwo4_1")])]),
      "keyTwo4" := S("valueTwo4")]
  }

  /** Facts about the trees of `TestMerge2`, used by `IntermixedMerge`. */
  lemma TwoIntermixedCompatible()
    ensures Compatible(Two(), Intermixed())
  {
  }

  lemma KeyTwo1Merged()
    ensures Merged(Two()["keyTwo1"].m, Intermixed()["keyTwo1"].m) == IntermixedMergeResult()["keyTwo1"].m
  {
  }

  lemma KeyTwo3Merged()
    ensures Merged(Two()["keyTwo3"].m, Intermixed()["keyTwo3"].m) == IntermixedMergeResult()["keyTwo3"].m
  {
  }

  lemma TwoIntermixedMerged()
    ensures Merged(Two(), Intermixed()) == IntermixedMergeResult()
  {
    var t, s, e := Two(), Intermixed(), IntermixedMergeResult();
    var m := Merged(t, s);
    KeyTwo1Merged();
    KeyTwo3Merged();
    assert m.Keys == e.Keys;
    assert m["keyTwo1"] == e["keyTwo1"] && m["keyTwo3"] == e["keyTwo3"];
    assert m["keyTwo2"] == e["keyTwo2"] && m["keyTwo4"] == e["keyTwo4"];
  }

  /** `MergeAll([two, intermixed])` descends into both shared maps: it adopts a
      new nested map under `keyTwo1` and overrides one leaf under `keyTwo3`,
      keeping the target's other entries. Every key order gives the same result. */
  lemma IntermixedMerge(r: Result<Tree>)
    requires MergeAllOutcome([Two(), Intermixed()], r)
    ensures r == Ok(IntermixedMergeResult())
  {
    var t, s := Two(), Intermixed();
    var ms := [t, s];
    assert ms[..1] == [t] && ms[1..] == [s];
    assert MergeOutcome(t, s, r);
    TwoIntermixedCompatible();
    assert !HasClash(t, s);
    MergeFailsIffClash(t, s, r);
    CompatibleOutcomeIsMerged(t, s, r.value, None);
    TwoIntermixedMerged();
  }

  /** Merging `twoPrime` into `two` in mutable mode changes a value nested
      inside the caller's own map. */
  method MutableMergeChangesTarget()
  {
    var one := new GoMap(Two());
    var two := new GoMap(TwoPrime());
    assert Compatible(Two(), TwoPrime()) by {
      assert Compatible(Two()["keyTwo1"].m, TwoPrime()["keyTwo1"].m);
    }
    var r := Merge(one, two, false);
    CompatibleOutcomeIsMerged(Two(), TwoPrime(), one.entries, None);
    assert r == Ok(one);
    assert one.entries["keyTwo1"].m["keyTwo1_1"] == S("valueTwo1_1Prime");
  }

  /** The same merge in immutable mode leaves the caller's map as it was. */
  method ImmutableMergeKeepsTarget()
  {
    var one := new GoMap(Two());
    var two := new GoMap(TwoPrime());
    var r := Merge(one, two, true);
    assert one.entries["keyTwo1"].m["keyTwo1_1"] == S("valueTwo1_1");
  }

  /** A map under `keyTwo1` on one side and a string on the other fails the
      merge with path `/keyTwo1`, with either tree as the target. */
  lemma MismatchFailsInEitherOrder(r1: Result<Tree>, r2: Result<Tree>)
    requires MergeAllOutcome([Two(), IntermixedBad()], r1)
    requires MergeAllOutcome([IntermixedBad(), Two()], r2)
    ensures r1 == Err(DifferentTypes("/keyTwo1"))
    ensures r2 == Err(DifferentTypes("/keyTwo1"))
  {
    var ms1, ms2 := [Two(), IntermixedBad()], [IntermixedBad(), Two()];
    assert ms1[..1] == [Two()] && ms1[1..] == [IntermixedBad()];
    assert ms2[..1] == [IntermixedBad()] && ms2[1..] == [Two()];
    assert MergeOutcome(Two(), IntermixedBad(), r1);
    assert MergeOutcome(IntermixedBad(), Two(), r2);
    assert Clash(Two(), IntermixedBad(), "keyTwo1");
    MergeFailsIffClash(Two(), IntermixedBad(), r1);
    MergeFailsIffClash(IntermixedBad(), Two(), r2);
  }

  /** Two leaves always resolve to the source's leaf, even of another Go type. */
  lemma LeafClashTakesSource(r: Result<Tree>)
    requires MergeOutcome(map["k" := Leaf(Int(1))], map["k" := S("1")], r)
    ensures r == Ok(map["k" := S("1")])
  {
    var t, s := map["k" := Leaf(Int(1))], map["k" := S("1")];
    assert s.Keys == {"k"} && !Clash(t, s, "k");
    MergeFailsIffClash(t, s, r);
    MergeSucceeds(t, s, r.value);
    assert r.value.Keys == {"k"} && r.value["k"] == S("1");
    assert r.value == s;
  }
}
