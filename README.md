# Deep merge of nested Go maps (gostructutil `structutil.go`)

This project models the deep-merge core of the `structutil` Go package in Dafny:

- `Merge(one, two, immutable)` folds a source tree `two` into a target tree `one`;
- its recursive `inner` closure walks the source keys in Go's unspecified map order;
- the `keysRepr`/`sliceRepr` key-path text goes into the "different types" error;
- `MergeAll` reduces a list of trees by splitting it at `len/2`.

A tree is a `map[interface{}]interface{}`. A value inside it is either another
such map (`Value.Node`) or anything else (`Value.Leaf`): nil, numbers, strings,
string lists and `map[string]string` are all leaves to the merge. Keys are strings.

Modules, one per part of the source:

- `Trees` (trees.dfy): the data model, and the `Clash` case (a shared key where exactly one side is a map).
  - `Compatible`: no clash at any depth.
  - `Merged`: the deep merge as a pure function.
- `KeyPath` (keypath.dfy): `strings.Join`, `sliceRepr` (a loop filling an array of strings) and `keysRepr`.
  - Also `ParsePath`, which recovers the keys from a path, as the inverse the round-trip lemma uses.
- `MergeEngine` (merge.dfy): the nondeterministic loop of `inner` as a method, picking each next source key with `:|`.
  - `Outcome`, the relation that says which target states a run of the loop can end in.
  - `Merge` over a `GoMap` object, for the mutable/immutable contract.
  - The lemmas about outcomes.
- `Combiner` (mergeall.dfy): `MergeAll` as a sequential recursive method, the relation `MergeAllOutcome`, and the fan-in lemmas.
- `Examples` (examples.dfy): the trees of `structutil_test.go`.
  - `MutableMergeChangesTarget` and `ImmutableMergeKeepsTarget` are client methods: they restate `TestMutable` and `TestImmutable` through the contract of `Merge`.

Behaviour the model keeps from the code:

- The loop order is arbitrary, so a merge is specified as a relation, not a function.
  - When no key clashes at any depth, every run ends in the same state, which is `Merged`.
  - When a nested loop stops at a clash, the result depends on which keys were visited before it.
- The error of the nested call at structutil.go:126 is discarded:
  - a clash below the top level never fails `Merge`;
  - the nested loop still stops early;
  - the clashing nested key keeps the target's value.
- On a clash, `Inner` returns the state the target was left in, not only the error. Go updates the map in place, so a nested call's partial work survives.
- Two leaves always resolve to the source's leaf. There is no conflict policy.
- `MergeAll` reports the left half's error before the right half's.

The code has none of the following, and neither does the model:

- a per-key tolerate/override conflict policy;
- union of string lists;
- validation of a tree's shape;
- immediate propagation of nested errors (line 126 discards them);
- a search or visit over a tree.

## Model

| member | source | states |
|---|---|---|
| `Trees.CompatibleSymmetric` | structutil.go:113-115 | the map-ness comparison does not depend on which side is the target, at any depth |
| `KeyPath.SliceRepr` | structutil.go:71-77 | the array filled by the loop, joined with the separator, is exactly `strings.Join` of the rendered keys |
| `KeyPath.KeysRepr` | structutil.go:104-110 | the closure returns the joined prior keys, with a leading `/` only when that text is non-empty, then `/` and the current key |
| `KeyPath.JoinEmpty` | structutil.go:105-108 | the joined prior-key text is empty exactly when there are no prior keys or only one empty key, which are the cases where no leading `/` is added |
| `KeyPath.TopLevelPath` | structutil.go:104-110 | a top-level key is reported as `/k` |
| `KeyPath.KeyPathIsJoined` | structutil.go:104-110 | for prior keys other than `[""]`, the path is `/` followed by all keys joined with `/` (`/a/b/k`); below `[""]` it collapses to `/k` |
| `KeyPath.KeyPathRoundTrip` | structutil.go:104-110 | when no key contains `/` and the prior keys are not `[""]`, parsing the path gives back the prior keys followed by the current key |
| `MergeEngine.Inner` | structutil.go:98-135 | the loop ends in a state of `Outcome` (keys outside the source untouched, visited keys adopted, overwritten or merged, clashing key reached last); it fails exactly when it stopped at a clash, with the error text built from the path to that key |
| `MergeEngine.MergeTrees` | structutil.go:79-137 | `Merge` on tree values returns either a reachable full-merge state or the error for a clashing top-level key |
| `MergeEngine.Merge` | structutil.go:79-137 | mutable mode updates `one` in place and returns it, and on an error `one` keeps the updates made before the clash; immutable mode returns a fresh map and leaves `one` unchanged; it fails exactly at a top-level clash, with path `/k` |
| `MergeEngine.ClashKeepsTarget` | structutil.go:113-120 | a clashing key is never written: it keeps the target's value, and a run over a source with a clash always stops |
| `MergeEngine.MergeFailsIffClash` | structutil.go:113-120 | the merge fails if and only if some top-level key clashes, which holds with either tree as the target; the error names such a key as `/k`, and its `Message` is "different types at key /k detected in trying to merge maps" |
| `MergeEngine.MergeSucceeds` | structutil.go:111-131 | on success the key set is the union of both key sets; target-only keys are unchanged; source-only keys are adopted without a type check; two leaves give the source's leaf; two maps stay a map |
| `MergeEngine.NestedClashSwallowed` | structutil.go:125-127 | a clash one level down does not fail the merge, and the clashing nested key keeps the target's value |
| `MergeEngine.CompatibleOutcomeIsMerged` | structutil.go:103-134 | when no key clashes at any depth, every run succeeds and ends in the state given by the pure function `Merged`, whatever the key order |
| `MergeEngine.MergedIsReachable` | structutil.go:103-134 | `Merged` is a state the loop can always reach (the run that visits clashing keys last), with no error when nothing clashes at the top |
| `Combiner.MergeAll` | structutil.go:139-172 | 0 trees give `EmptyInput`; 1 tree is returned as is; otherwise each half is reduced and the left result is merged with the right one, the left half's error first |
| `Combiner.EmptyInputOnlyForNoTrees` | structutil.go:145-147 | `EmptyInput` is reported exactly for an empty list, with the `Message` "mergeall on 0 elements? really?"; every other failure is a "different types" error |
| `Combiner.MergedCompatible` | structutil.go:170 | merging two trees compatible with a third gives a tree compatible with it, so partial results of a coherent list stay mergeable |
| `Combiner.MergedAssociative` | structutil.go:151-170 | for pairwise compatible trees, merging is associative |
| `Combiner.FoldAppend` | structutil.go:151-170 | the left fold of a concatenation is the merge of the folds of the two parts |
| `Combiner.MergeAllIsFold` | structutil.go:145-170 | when no two trees clash at any depth, every run of `MergeAll` succeeds with the sequential left-to-right fold of `Merge` |
| `Combiner.DisjointMergeAllIsUnion` | structutil_test.go:166-174 | `MergeAll` of trees with pairwise disjoint keys succeeds with their union |
| `Examples.MismatchFailsInEitherOrder` | structutil_test.go:213-243 | `MergeAll([two, intermixedBad])` and `MergeAll([intermixedBad, two])` both fail with path `/keyTwo1` |
| `Examples.IntermixedMerge` | structutil_test.go:181-195 | every run of `MergeAll([two, intermixed])` succeeds with `intermixedMergeResult`: a new nested map is adopted under `keyTwo1`, one leaf under `keyTwo3` is overridden, and the target's other entries stay |
| `Examples.LeafClashTakesSource` | structutil.go:121-124 | an integer leaf in the target and a string leaf in the source under the same key resolve to the string |

## Left out

- `CloneMap` (structutil.go:49-69) is not part of this model: gob encoding and decoding, `gob.Register` of the sample types, and its panics are a foreign serializer. Immutable mode copies the target as a value instead, and source values are values already.
- `Stringify` and `MakeMarshalFriendly` (structutil.go:12-47): display conversion through `fmt.Sprintf("%v")`, not merge logic.
- The goroutines and channels of `MergeAll`: the two halves are reduced one after the other. The goroutine left blocked when the left half fails is not modelled.
- `glog` calls (structutil.go:119, 122): logging only.
- Aliasing is not modelled, because nested maps are values. Go shares an adopted source subtree with the target, and it shares nested maps between a caller's trees and the result.
- `MergeAll`: works on tree values. It does not model the in-place update that mutable mode makes to the first tree of each half. It does not model that a one-tree list returns the caller's own map.
- Non-string keys: every key is a string, so `%v` of a key is the key itself.
- The error value is a datatype. `Trees.Message` gives its text, which `MergeFailsIffClash` and `EmptyInputOnlyForNoTrees` state; Go's `errors.New` wrapping is not modelled.
- `Merge`/`Inner`: nil maps are not represented. Go panics when a merge writes into a nil target map. That happens when `one` is nil in mutable mode (structutil.go:92), or when a typed-nil `map[interface{}]interface{}` is stored as a nested value that the type assertion at line 113 accepts before the recursion at line 126. The model has no nil map and treats such a map as an empty one, so where Go panics it returns `Ok`. The same holds for `MergeAll` over a list containing such a map.

