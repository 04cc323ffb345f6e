/**
  The key path placed in a "different types" error: `sliceRepr` renders the keys
  above the clash and joins them with a separator, and the `keysRepr` closure in
  `Merge` turns that into `/a/b/k`.
 */
module KeyPath {
  import opened Trees

  /** `strings.Join`: the parts with `sep` between consecutive ones. */
  function Join(parts: seq<string>, sep: string): string
    decreases |parts|
  {
    if |parts| == 0 then ""
    else if |parts| == 1 then parts[0]
    else parts[0] + sep + Join(parts[1..], sep)
  }

  /** `sliceRepr`: render every key into a fresh array of strings, then join them. */
  method SliceRepr(ins: seq<Key>, sep: string) returns (r: string)
    ensures r == Join(ins, sep)
  {
    var asStr := new string[|ins|];
    for i := 0 to |ins|
      invariant forall j :: 0 <= j < i ==> asStr[j] == ins[j]
    {
      // the rendering `fmt.Sprintf("%v", el)` of structutil.go:73-75: for a
      // string key it is the key itself, so the loop copies the keys
      asStr[i] := ins[i];
    }
    assert asStr[..] == ins;
    r := Join(asStr[..], sep);
  }

  /** What `keysRepr` returns for the current key `k` below the keys `prior`. */
  function KeyPathText(prior: seq<Key>, k: Key): string
  {
    var dn := Join(prior, "/");
    (if |dn| > 0 then "/" + dn else dn) + "/" + k
  }

  /** The `keysRepr` closure: join the prior keys, prefix a slash only when that
      text is non-empty, then append a slash and the current key. */
  method KeysRepr(prior: seq<Key>, k: Key) returns (r: string)
    ensures r == KeyPathText(prior, k)
  {
    var priorKeysAsDn := SliceRepr(prior, "/");
    if |priorKeysAsDn| > 0 {
      priorKeysAsDn := "/" + priorKeysAsDn;
    }
    r := priorKeysAsDn + "/" + k;
  }

  /** The joined text is empty exactly for no parts or a single empty part. */
  lemma {:induction false} JoinEmpty(parts: seq<string>, sep: string)
    requires |sep| > 0
    ensures |Join(parts, sep)| == 0 <==> parts == [] || parts == [""]
  {
    if |parts| > 1 {
      assert |Join(parts, sep)| >= |sep|;
    }
  }

  /** Appending a part appends the separator and the part. */
  lemma {:induction false} JoinSnoc(parts: seq<string>, x: string, sep: string)
    requires |parts| > 0
    ensures Join(parts + [x], sep) == Join(parts, sep) + sep + x
    decreases |parts|
  {
    if |parts| > 1 {
      assert (parts + [x])[1..] == parts[1..] + [x];
      JoinSnoc(parts[1..], x, sep);
    }
  }

  /** A top-level key is reported as `/k`. */
  lemma TopLevelPath(k: Key)
    ensures KeyPathText([], k) == "/" + k
  {
  }

  /** Below any prior keys other than the single empty key, the path is a slash
      followed by all keys joined with slashes: `/a/b/k`. Below `[""]` the
      joined prior text is empty, so no leading slash is added and the path
      collapses to `/k`. */
  lemma KeyPathIsJoined(prior: seq<Key>, k: Key)
    ensures prior != [""] ==> KeyPathText(prior, k) == "/" + Join(prior + [k], "/")
    ensures prior == [""] ==> KeyPathText(prior, k) == "/" + k
  {
    JoinEmpty(prior, "/");
    if |prior| > 0 {
      JoinSnoc(prior, k, "/");
    } else {
      assert prior + [k] == [k];
    }
  }

  predicate NoSlash(keys: seq<Key>)
  {
    forall i :: 0 <= i < |keys| ==> '/' !in keys[i]
  }

  /** Index of the first slash in `s`. */
  function FirstSlash(s: string): (i: nat)
    requires '/' in s
    ensures i < |s| && s[i] == '/' && '/' !in s[..i]
  {
    if s[0] == '/' then 0
    else
      assert '/' in s[1..] by {
        var j :| 0 <= j < |s| && s[j] == '/';
        assert s[1..][j - 1] == '/';
      }
      var i := 1 + FirstSlash(s[1..]);
      assert s[..i] == [s[0]] + s[1..][..i - 1];
      i
  }

  /** Cut a string at every slash. */
  function Split(s: string): (parts: seq<string>)
    ensures |parts| > 0
    decreases |s|
  {
    if '/' !in s then [s]
    else
      var i := FirstSlash(s);
      [s[..i]] + Split(s[i + 1..])
  }

  /** Recover the keys from a path of the form `/a/b/k`. */
  function ParsePath(p: string): Option<seq<Key>>
  {
    if |p| > 0 && p[0] == '/' then Some(Split(p[1..])) else None
  }

  /** The first slash after a slash-free prefix is the one that ends it. */
  lemma {:induction false} FirstSlashAfter(x: string, rest: string)
    requires '/' !in x
    ensures FirstSlash(x + "/" + rest) == |x|
    decreases |x|
  {
    var s := x + "/" + rest;
    if |x| > 0 {
      assert s[0] == x[0];
      assert s[1..] == x[1..] + "/" + rest;
      FirstSlashAfter(x[1..], rest);
    }
  }

  /** Splitting undoes joining with `/` when no part contains a slash. */
  lemma {:induction false} SplitJoin(parts: seq<string>)
    requires |parts| > 0 && NoSlash(parts)
    ensures Split(Join(parts, "/")) == parts
    decreases |parts|
  {
    if |parts| > 1 {
      var x, rest := parts[0], Join(parts[1..], "/");
      var s := x + "/" + rest;
      assert s[|x|] == '/';
      FirstSlashAfter(x, rest);
      assert s[..|x|] == x && s[|x| + 1..] == rest;
      assert Split(s) == [x] + Split(rest);
      assert NoSlash(parts[1..]) by {
        forall j | 0 <= j < |parts[1..]| ensures '/' !in parts[1..][j] {
          assert parts[1..][j] == parts[j + 1];
        }
      }
      SplitJoin(parts[1..]);
    }
  }

  /** The error path names the key path it was built from: parsing it gives back
      the prior keys and the current key, whenever no key contains a slash and
      the prior keys are not the single empty key. */
  lemma KeyPathRoundTrip(prior: seq<Key>, k: Key)
    requires NoSlash(prior + [k]) && prior != [""]
    ensures ParsePath(KeyPathText(prior, k)) == Some(prior + [k])
  {
    KeyPathIsJoined(prior, k);
    var p := KeyPathText(prior, k);
    assert p[1..] == Join(prior + [k], "/");
    SplitJoin(prior + [k]);
  }
}
