/**
  The tree model of structutil: a Go `map[interface{}]interface{}` whose values
  are either further maps of that same type (the only values the merge descends
  into) or anything else, which the merge treats as an opaque leaf.
 */
module Trees {

  /** Map keys. Every key in the repository's tests is a string, so rendering a
      key with `%v` gives back the key itself. */
  type Key = string

  /** Everything that is not a `map[interface{}]interface{}`: nil, numbers,
      strings, string lists, `map[string]string`, ... all are leaves. */
  datatype Atom =
    | Nil
    | Bool(b: bool)
    | Int(i: int)
    | Str(s: string)
    | StrList(items: seq<string>)
    | StrMap(entries: map<string, string>)

  /** A value stored under a key: a leaf, or a nested `map[interface{}]interface{}`. */
  datatype Value = Leaf(a: Atom) | Node(m: map<Key, Value>)

  /** A whole tree, i.e. the contents of one Go map. */
  type Tree = map<Key, Value>

  datatype Option<T> = None | Some(value: T)

  /** The two errors the merge can report. `DifferentTypes` carries the
      slash-joined key path that is placed inside its message. */
  datatype MergeError = EmptyInput | DifferentTypes(at: string)

  datatype Result<T> = Ok(value: T) | Err(error: MergeError)

  /** The text of the Go error each kind stands for. */
  function Message(e: MergeError): string
  {
    match e
    case EmptyInput => "mergeall on 0 elements? really?"
    case DifferentTypes(at) => "different types at key " + at + " detected in trying to merge maps"
  }

  /** Key `k` is shared by target `t` and source `s`, and exactly one of the
      two values there is a map: the "different types" case of the merge. */
  predicate Clash(t: Tree, s: Tree, k: Key)
  {
    k in t && k in s && t[k].Node? != s[k].Node?
  }

  predicate HasClash(t: Tree, s: Tree)
  {
    exists k :: k in s && Clash(t, s, k)
  }

  /** No shared key has mismatched map-ness, at any depth. */
  ghost predicate Compatible(t: Tree, s: Tree)
    decreases Node(s)
  {
    && !HasClash(t, s)
    && forall k :: k in t && k in s && t[k].Node? && s[k].Node? ==> Compatible(t[k].m, s[k].m)
  }

  /** The deep merge as a pure function: a key only in `t` keeps its value, a key
      only in `s` is adopted, two leaves resolve to the source's leaf, two maps
      merge recursively. A clashing key keeps the target's value, which is what
      the loop leaves there when that key is the last one it visits. */
  function Merged(t: Tree, s: Tree): (r: Tree)
    ensures r.Keys == t.Keys + s.Keys
    decreases Node(s)
  {
    map k | k in t.Keys + s.Keys ::
      if k !in s then t[k]
      else if k !in t then s[k]
      else if t[k].Node? && s[k].Node? then Node(Merged(t[k].m, s[k].m))
      else if t[k].Node? != s[k].Node? then t[k]
      else s[k]
  }

  /** Map-ness compatibility does not depend on which side is the target. */
  lemma {:induction false} CompatibleSymmetric(t: Tree, s: Tree)
    requires Compatible(t, s)
    ensures Compatible(s, t)
    decreases Node(s)
  {
    forall k | k in s && k in t && s[k].Node? && t[k].Node?
      ensures Compatible(t[k].m, s[k].m) && Compatible(s[k].m, t[k].m)
    {
      CompatibleSymmetric(t[k].m, s[k].m);
    }
  }

  /** Every tree is compatible with itself. */
  lemma {:induction false} CompatibleReflexive(t: Tree)
    ensures Compatible(t, t)
    decreases Node(t)
  {
    forall k | k in t && t[k].Node?
      ensures Compatible(t[k].m, t[k].m)
    {
      CompatibleReflexive(t[k].m);
    }
  }
}
