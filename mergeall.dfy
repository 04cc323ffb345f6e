/**
  `MergeAll`: reduce a list of trees by splitting it in half, reducing each half
  and merging the two partial results with the left one as target. The two
  halves run in goroutines in the original; here they run one after the other.
 */
module Combiner {
  import opened Trees
  import opened MergeEngine

  /** How the two halves' results combine: the left half's error first, then
      the right half's, otherwise a merge of the left result with the right. */
  ghost predicate Combined(left: Result<Tree>, right: Result<Tree>, r: Result<Tree>)
  {
    if left.Err? then r == left
    else if right.Err? then r == right
    else MergeOutcome(left.value, right.value, r)
  }

  /** What `MergeAll(ms)` can return: an error for no trees, the one tree for a
      single tree, else the combination of the two halves split at `len/2`. */
  ghost predicate MergeAllOutcome(ms: seq<Tree>, r: Result<Tree>)
    decreases |ms|
  {
    if |ms| == 0 then r == Err(EmptyInput)
    else if |ms| == 1 then r == Ok(ms[0])
    else
      var mid := |ms| / 2;
      exists left, right ::
        MergeAllOutcome(ms[..mid], left) && MergeAllOutcome(ms[mid..], right) && Combined(left, right, r)
  }

  method MergeAll(ms: seq<Tree>) returns (r: Result<Tree>)
    ensures MergeAllOutcome(ms, r)
    decreases |ms|
  {
    if |ms| == 0 {
      return Err(EmptyInput);
    }
    if |ms| == 1 {
      return Ok(ms[0]);
    }
    var mid := |ms| / 2;
    var one := MergeAll(ms[..mid]);
    var two := MergeAll(ms[mid..]);
    if one.Err? {
      r := one;
    } else if two.Err? {
      r := two;
    } else {
      r := MergeTrees(one.value, two.value);
    }
    assert Combined(one, two, r);
  }

  /** `EmptyInput`, with its "0 elements" text, is reported exactly for an empty
      list; every other failure is a "different types" error. */
  lemma {:induction false} EmptyInputOnlyForNoTrees(ms: seq<Tree>, r: Result<Tree>)
    requires MergeAllOutcome(ms, r)
    ensures r == Err(EmptyInput) <==> |ms| == 0
    ensures |ms| == 0 ==> r.Err? && Message(r.error) == "mergeall on 0 elements? really?"
    ensures |ms| > 0 && r.Err? ==> r.error.DifferentTypes?
    decreases |ms|
  {
    if |ms| > 1 {
      var mid := |ms| / 2;
      var left, right :| MergeAllOutcome(ms[..mid], left) && MergeAllOutcome(ms[mid..], right) && Combined(left, right, r);
      EmptyInputOnlyForNoTrees(ms[..mid], left);
      EmptyInputOnlyForNoTrees(ms[mid..], right);
    }
  }

  /** The sequential left-to-right fold: apply tree 1, then 2, ..., then n. */
  function Fold(ms: seq<Tree>): Tree
    requires |ms| > 0
    decreases |ms|
  {
    if |ms| == 1 then ms[0] else Merged(Fold(ms[..|ms| - 1]), ms[|ms| - 1])
  }

  /** No two trees of the list have a shared key with mismatched map-ness at any depth. */
  ghost predicate Coherent(ms: seq<Tree>)
  {
    forall i, j :: 0 <= i < |ms| && 0 <= j < |ms| ==> Compatible(ms[i], ms[j])
  }

  lemma CoherentSlice(ms: seq<Tree>, lo: nat, hi: nat)
    requires Coherent(ms) && lo <= hi <= |ms|
    ensures Coherent(ms[lo..hi])
  {
    forall i, j | 0 <= i < hi - lo && 0 <= j < hi - lo
      ensures Compatible(ms[lo..hi][i], ms[lo..hi][j])
    {
      assert ms[lo..hi][i] == ms[lo + i] && ms[lo..hi][j] == ms[lo + j];
    }
  }

  /** Merging two trees that are each compatible with `c` gives a tree compatible with `c`. */
  lemma {:induction false} MergedCompatible(a: Tree, b: Tree, c: Tree)
    requires Compatible(a, b) && Compatible(a, c) && Compatible(b, c)
    ensures Compatible(Merged(a, b), c)
    decreases Node(c)
  {
    var m := Merged(a, b);
    forall k | k in m && k in c ensures !Clash(m, c, k) {
      assert !Clash(a, b, k) && !Clash(a, c, k) && !Clash(b, c, k);
    }
    forall k | k in m && k in c && m[k].Node? && c[k].Node?
      ensures Compatible(m[k].m, c[k].m)
    {
      assert !Clash(a, b, k) && !Clash(a, c, k) && !Clash(b, c, k);
      if k in a && k in b {
        MergedCompatible(a[k].m, b[k].m, c[k].m);
      }
    }
  }

  /** Given pairwise compatibility, the merge is associative. */
  lemma {:induction false} MergedAssociative(a: Tree, b: Tree, c: Tree)
    requires Compatible(a, b) && Compatible(a, c) && Compatible(b, c)
    ensures Merged(Merged(a, b), c) == Merged(a, Merged(b, c))
    decreases Node(c)
  {
    var lhs, rhs := Merged(Merged(a, b), c), Merged(a, Merged(b, c));
    forall k | k in lhs ensures k in rhs && lhs[k] == rhs[k] {
      assert !Clash(a, b, k) && !Clash(a, c, k) && !Clash(b, c, k);
      if k in a && k in b && k in c && a[k].Node? {
        MergedAssociative(a[k].m, b[k].m, c[k].m);
      }
    }
    assert lhs.Keys == rhs.Keys;
  }

  /** The fold of a coherent list is compatible with every tree the list's trees are compatible with. */
  lemma {:induction false} FoldCompatible(ms: seq<Tree>, c: Tree)
    requires |ms| > 0 && Coherent(ms)
    requires forall i :: 0 <= i < |ms| ==> Compatible(ms[i], c)
    ensures Compatible(Fold(ms), c)
    decreases |ms|
  {
    if |ms| > 1 {
      var init, last := ms[..|ms| - 1], ms[|ms| - 1];
      CoherentSlice(ms, 0, |ms| - 1);
      FoldCompatible(init, c);
      FoldCompatible(init, last);
      MergedCompatible(Fold(init), last, c);
    }
  }

  /** The folds of two halves of a coherent list are compatible. */
  lemma FoldsCompatible(a: seq<Tree>, b: seq<Tree>)
    requires |a| > 0 && |b| > 0 && Coherent(a + b)
    ensures Compatible(Fold(a), Fold(b))
  {
    var ab := a + b;
    CoherentSlice(ab, 0, |a|);
    CoherentSlice(ab, |a|, |ab|);
    assert ab[..|a|] == a && ab[|a|..] == b;
    forall j | 0 <= j < |b| ensures Compatible(b[j], Fold(a)) {
      forall i | 0 <= i < |a| ensures Compatible(a[i], b[j]) {
        assert ab[i] == a[i] && ab[|a| + j] == b[j];
      }
      FoldCompatible(a, b[j]);
      CompatibleSymmetric(Fold(a), b[j]);
    }
    FoldCompatible(b, Fold(a));
    CompatibleSymmetric(Fold(b), Fold(a));
  }

  /** Folding a concatenation merges the folds of the two parts. */
  lemma {:induction false} FoldAppend(a: seq<Tree>, b: seq<Tree>)
    requires |a| > 0 && |b| > 0 && Coherent(a + b)
    ensures Fold(a + b) == Merged(Fold(a), Fold(b))
    decreases |b|
  {
    var ab := a + b;
    if |b| == 1 {
      assert ab[..|ab| - 1] == a;
    } else {
      var init, last := b[..|b| - 1], b[|b| - 1];
      assert ab[..|ab| - 1] == a + init;
      assert init + [last] == b;
      CoherentSlice(ab, 0, |ab| - 1);
      FoldAppend(a, init);
      assert Fold(ab) == Merged(Merged(Fold(a), Fold(init)), last);
      FoldsCompatible(a, init);
      CoherentSlice(ab, 0, |a|);
      assert ab[..|a|] == a;
      forall i | 0 <= i < |a| ensures Compatible(a[i], last) {
        assert ab[i] == a[i] && ab[|ab| - 1] == last;
      }
      FoldCompatible(a, last);
      CoherentSlice(ab, |a|, |ab| - 1);
      assert ab[|a|..|ab| - 1] == init;
      forall j | 0 <= j < |init| ensures Compatible(init[j], last) {
        assert ab[|a| + j] == init[j] && ab[|ab| - 1] == last;
      }
      FoldCompatible(init, last);
      MergedAssociative(Fold(a), Fold(init), last);
    }
  }

  /** Fan-in equivalence: for a coherent list, every run of `MergeAll` succeeds
      with the sequential left fold of the list. */
  lemma {:induction false} MergeAllIsFold(ms: seq<Tree>, r: Result<Tree>)
    requires |ms| > 0 && Coherent(ms) && MergeAllOutcome(ms, r)
    ensures r == Ok(Fold(ms))
    decreases |ms|
  {
    if |ms| > 1 {
      var mid := |ms| / 2;
      var left, right :| MergeAllOutcome(ms[..mid], left) && MergeAllOutcome(ms[mid..], right) && Combined(left, right, r);
      CoherentSlice(ms, 0, mid);
      CoherentSlice(ms, mid, |ms|);
      MergeAllIsFold(ms[..mid], left);
      MergeAllIsFold(ms[mid..], right);
      assert ms[..mid] + ms[mid..] == ms;
      FoldsCompatible(ms[..mid], ms[mid..]);
      var t, s := Fold(ms[..mid]), Fold(ms[mid..]);
      assert r.Ok?;
      CompatibleOutcomeIsMerged(t, s, r.value, None);
      FoldAppend(ms[..mid], ms[mid..]);
    }
  }

  /** No key is shared by two different trees of the list. */
  ghost predicate Disjoint(ms: seq<Tree>)
  {
    forall i, j :: 0 <= i < |ms| && 0 <= j < |ms| && i != j ==> ms[i].Keys !! ms[j].Keys
  }

  lemma DisjointIsCoherent(ms: seq<Tree>)
    requires Disjoint(ms)
    ensures Coherent(ms)
  {
    forall i, j | 0 <= i < |ms| && 0 <= j < |ms| ensures Compatible(ms[i], ms[j]) {
      if i == j {
        CompatibleReflexive(ms[i]);
      }
    }
  }

  /** The fold of trees with disjoint keys is their union. */
  lemma {:induction false} FoldDisjoint(ms: seq<Tree>)
    requires |ms| > 0 && Disjoint(ms)
    ensures forall k :: k in Fold(ms) <==> exists i :: 0 <= i < |ms| && k in ms[i]
    ensures forall i, k :: 0 <= i < |ms| && k in ms[i] ==> Fold(ms)[k] == ms[i][k]
    decreases |ms|
  {
    if |ms| > 1 {
      var n := |ms| - 1;
      var init, last := ms[..n], ms[n];
      assert Disjoint(init) by {
        forall i, j | 0 <= i < n && 0 <= j < n && i != j ensures init[i].Keys !! init[j].Keys {
          assert init[i] == ms[i] && init[j] == ms[j];
        }
      }
      FoldDisjoint(init);
      forall k | k in Fold(init) ensures k !in last {
        var i :| 0 <= i < n && k in init[i];
        assert init[i] == ms[i];
      }
      forall k | k in Fold(ms) ensures exists i :: 0 <= i < |ms| && k in ms[i] {
        if k !in last {
          assert k in Fold(init);
          var i :| 0 <= i < n && k in init[i];
          assert init[i] == ms[i];
        }
      }
      forall i, k | 0 <= i < |ms| && k in ms[i] ensures k in Fold(ms) && Fold(ms)[k] == ms[i][k] {
        if i < n {
          assert init[i] == ms[i];
        }
      }
    }
  }

  /** Merging trees with disjoint keys, as the six trees of the repository's
      first merge test, always succeeds with the union of the trees. */
  lemma DisjointMergeAllIsUnion(ms: seq<Tree>, r: Result<Tree>)
    requires |ms| > 0 && Disjoint(ms) && MergeAllOutcome(ms, r)
    ensures r.Ok?
    ensures forall k :: k in r.value <==> exists i :: 0 <= i < |ms| && k in ms[i]
    ensures forall i, k :: 0 <= i < |ms| && k in ms[i] ==> r.value[k] == ms[i][k]
  {
    DisjointIsCoherent(ms);
    MergeAllIsFold(ms, r);
    FoldDisjoint(ms);
  }
}
