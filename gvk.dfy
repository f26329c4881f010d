/**
 * The `x-kubesphere-group-version-kind` extension: the comparison of two
 * definitions that ignores it (`deepEqualDefinitionsModuloGVKs`), the merge of
 * two of its lists (`mergedGVKs`, sorted with `byKeys`), and the store of the
 * merged list into the destination definition.
 */
module Gvk {
  import opened Wrappers
  import opened OpenApi
  import opened Strings

  // ----- Equality modulo the GVK extension -----

  function Lookup<V>(m: map<string, V>, k: string): Option<V>
  {
    if k in m then Some(m[k]) else None
  }

  /** Indexing a Go map of `interface{}`: the value, or nil for a missing key. */
  function NilIfMissing(m: map<string, Json>, k: string): Json
  {
    if k in m then m[k] else JNull
  }

  /** The extensions other than the GVK one. */
  function WithoutGvk(m: map<string, Json>): map<string, Json>
  {
    m - {GvkKey}
  }

  lemma WithoutGvkEqual(e1: map<string, Json>, e2: map<string, Json>)
    ensures WithoutGvk(e1) == WithoutGvk(e2) <==> forall k :: k != GvkKey ==> Lookup(e1, k) == Lookup(e2, k)
  {
    if forall k :: k != GvkKey ==> Lookup(e1, k) == Lookup(e2, k) {
      var w1, w2 := WithoutGvk(e1), WithoutGvk(e2);
      forall k ensures k in w1 <==> k in w2 {
        if k != GvkKey {
          assert Lookup(e1, k) == Lookup(e2, k);
        }
      }
      forall k | k in w1 ensures w1[k] == w2[k] {
        assert Lookup(e1, k) == Lookup(e2, k);
      }
    } else {
      var k :| k != GvkKey && Lookup(e1, k) != Lookup(e2, k);
      assert k in WithoutGvk(e1) <==> k in e1;
      assert k in WithoutGvk(e2) <==> k in e2;
    }
  }

  /**
   * The comparison `deepEqualDefinitionsModuloGVKs` is documented to make:
   * the schemas agree on every field and on every extension but the GVK one.
   */
  function EqualModuloGvk(s1: Schema, s2: Schema): (r: bool)
    ensures r <==> (s1.(extensions := map[]) == s2.(extensions := map[])
                   && forall k :: k != GvkKey ==> Lookup(s1.extensions, k) == Lookup(s2.extensions, k))
  {
    WithoutGvkEqual(s1.extensions, s2.extensions);
    s1.(extensions := WithoutGvk(s1.extensions)) == s2.(extensions := WithoutGvk(s2.extensions))
  }

  /** `len(m)`, less one when `m` holds the GVK extension. */
  function NonGvkCount(m: map<string, Json>): int
  {
    |m| - if GvkKey in m then 1 else 0
  }

  /**
   * `deepEqualDefinitionsModuloGVKs` as written: when the extension maps
   * differ, every non-GVK extension of `s1` is compared with the same key of
   * `s2` (nil when missing), the non-GVK extensions are counted, and the
   * schemas are compared without extensions.
   */
  function DeepEqualModuloGvksAsWritten(s1: Schema, s2: Schema): (r: bool)
    ensures s1 == s2 ==> r
    ensures r ==> s1.(extensions := map[]) == s2.(extensions := map[])
  {
    if s1.extensions == s2.extensions then s1 == s2
    else
      (forall k :: k in s1.extensions && k != GvkKey ==> s1.extensions[k] == NilIfMissing(s2.extensions, k))
      && NonGvkCount(s1.extensions) == NonGvkCount(s2.extensions)
      && s1.(extensions := map[]) == s2.(extensions := map[])
  }

  lemma NonGvkCountIsSize(m: map<string, Json>)
    ensures |WithoutGvk(m)| == NonGvkCount(m)
  {
    var w := WithoutGvk(m);
    if GvkKey in m {
      assert m.Keys == w.Keys + {GvkKey};
    } else {
      assert m.Keys == w.Keys;
    }
  }

  lemma SubsetOfSameSize(a: set<string>, b: set<string>)
    requires a <= b && |a| == |b|
    ensures a == b
  {
    assert b == a + (b - a) && a * (b - a) == {};
    assert |b - a| == 0;
  }

  /** Schemas equal once the GVK extension is removed are accepted by the code as written. */
  lemma EqualModuloGvkAccepted(s1: Schema, s2: Schema)
    requires EqualModuloGvk(s1, s2)
    ensures DeepEqualModuloGvksAsWritten(s1, s2)
  {
    var w1, w2 := WithoutGvk(s1.extensions), WithoutGvk(s2.extensions);
    assert w1 == w2;
    if s1.extensions != s2.extensions {
      forall k | k in s1.extensions && k != GvkKey ensures s1.extensions[k] == NilIfMissing(s2.extensions, k) {
        assert k in w1;
      }
      NonGvkCountIsSize(s1.extensions);
      NonGvkCountIsSize(s2.extensions);
    }
  }

  /**
   * Conversely, when no extension of `s1` is null, a pair the code accepts
   * is equal once the GVK extension is removed.
   */
  lemma AcceptedWithoutNullsIsEqualModuloGvk(s1: Schema, s2: Schema)
    requires forall k :: k in s1.extensions ==> s1.extensions[k] != JNull
    requires DeepEqualModuloGvksAsWritten(s1, s2)
    ensures EqualModuloGvk(s1, s2)
  {
    if s1.extensions != s2.extensions {
      AcceptedExtensionsAgree(s1.extensions, s2.extensions);
    }
  }

  /** The extension half of the converse: non-null extensions that pass the per-key check and the count agree. */
  lemma AcceptedExtensionsAgree(e1: map<string, Json>, e2: map<string, Json>)
    requires forall k :: k in e1 ==> e1[k] != JNull
    requires forall k :: k in e1 && k != GvkKey ==> e1[k] == NilIfMissing(e2, k)
    requires NonGvkCount(e1) == NonGvkCount(e2)
    ensures WithoutGvk(e1) == WithoutGvk(e2)
  {
    var w1, w2 := WithoutGvk(e1), WithoutGvk(e2);
    AcceptedKeysIncluded(e1, e2);
    NonGvkCountIsSize(e1);
    NonGvkCountIsSize(e2);
    SubsetOfSameSize(w1.Keys, w2.Keys);
    forall k | k in w1 ensures w1[k] == w2[k] {
      assert e1[k] == NilIfMissing(e2, k);
    }
  }

  /** A non-null extension that matches the same key of `e2` is present there. */
  lemma AcceptedKeysIncluded(e1: map<string, Json>, e2: map<string, Json>)
    requires forall k :: k in e1 ==> e1[k] != JNull
    requires forall k :: k in e1 && k != GvkKey ==> e1[k] == NilIfMissing(e2, k)
    ensures WithoutGvk(e1).Keys <= WithoutGvk(e2).Keys
  {
    forall k | k in WithoutGvk(e1) ensures k in WithoutGvk(e2) {
      assert e1[k] == NilIfMissing(e2, k);
    }
  }

  /** A null-valued extension matches a missing key: two schemas with different extensions compare equal. */
  lemma AsWrittenNullMatchesMissing(s: Schema)
    ensures var s1 := s.(extensions := map["x-a" := JNull]);
      var s2 := s.(extensions := map["x-b" := JNull]);
      DeepEqualModuloGvksAsWritten(s1, s2) && !EqualModuloGvk(s1, s2)
  {
    var s1 := s.(extensions := map["x-a" := JNull]);
    var s2 := s.(extensions := map["x-b" := JNull]);
    assert "x-a" != GvkKey && "x-b" != GvkKey;
    assert "x-b" !in s1.extensions;
    assert Lookup(s1.extensions, "x-b") != Lookup(s2.extensions, "x-b");
  }

  /** Both comparisons ignore the GVK extension: adding or replacing it changes nothing. */
  lemma GvkIgnored(s: Schema, v: Json)
    ensures var t := s.(extensions := s.extensions[GvkKey := v]);
      EqualModuloGvk(s, t) && DeepEqualModuloGvksAsWritten(s, t)
  {
    var t := s.(extensions := s.extensions[GvkKey := v]);
    assert WithoutGvk(s.extensions) == WithoutGvk(t.extensions);
    EqualModuloGvkAccepted(s, t);
  }

  // ----- The GVK list and its keys -----

  /** The error returns of `mergedGVKs`. */
  datatype GvkError =
    | ExpectedGvkSlice          // the extension is not a list
    | ExpectedGvk(got: Json)    // an entry of the list is not an object

  /** The merged extension value, and whether it differs from that of `s1`. */
  datatype GvkMerge = GvkMerge(merged: Option<Json>, changed: bool)

  /**
   * `%s` applied to an `interface{}` argument: a string as itself, nil as a
   * bad-verb notice, anything else through `FormatValue`.
   */
  function FormatS(v: Option<Json>): string
  {
    match v
    case None => "%!s(<nil>)"
    case Some(JNull) => "%!s(<nil>)"
    case Some(j) => FormatValue(j)
  }

  /**
   * `%s` on a decoded JSON value: a bool or float64 as a bad-verb notice, a
   * list as its elements in brackets, an object as `map[k:v ...]` with its keys
   * sorted; a nil inside a list or an object prints as `<nil>`.
   */
  function FormatValue(j: Json): string
  {
    match j
    case JNull => "<nil>"
    case JBool(b) => "%!s(bool=" + (if b then "true" else "false") + ")"
    case JNumber(n) => "%!s(float64=" + FloatString(n) + ")"
    case JString(s) => s
    case JArray(es) => "[" + Join(seq(|es|, i requires 0 <= i < |es| => FormatValue(es[i]))) + "]"
    case JObject(f) =>
      var ks := SortedKeys(f.Keys);
      "map[" + Join(seq(|ks|, i requires 0 <= i < |ks| => ks[i] + ":" + FormatValue(f[ks[i]]))) + "]"
  }

  /** The sort and dedup key `group/version.kind` of one GVK entry. */
  function GvkKeyOf(x: Json): string
  {
    match x
    case JObject(f) => FormatS(Lookup(f, "group")) + "/" + FormatS(Lookup(f, "version")) + "." + FormatS(Lookup(f, "kind"))
    case _ => ""
  }

  function KeySet(l: seq<Json>): set<string>
  {
    set x | x in l :: GvkKeyOf(x)
  }

  predicate AllObjects(l: seq<Json>)
  {
    forall i :: 0 <= i < |l| ==> l[i].JObject?
  }

  /** The first entry of `l` that is not an object. */
  function FirstNonObject(l: seq<Json>): (x: Json)
    requires !AllObjects(l)
    ensures exists i :: 0 <= i < |l| && l[i] == x && !x.JObject? && AllObjects(l[..i])
  {
    if !l[0].JObject? then
      assert l[0] == l[0] && AllObjects(l[..0]);
      l[0]
    else
      var x := FirstNonObject(l[1..]);
      var i :| 0 <= i < |l[1..]| && l[1..][i] == x && !x.JObject? && AllObjects(l[1..][..i]);
      assert l[i + 1] == x;
      assert AllObjects(l[..i + 1]) by {
        forall n | 0 <= n < i + 1 ensures l[n].JObject? {
          if n > 0 {
            assert l[n] == l[1..][..i][n - 1];
          }
        }
      }
      x
  }

  /** An entry that every earlier entry, but not itself, is an object is the first non-object. */
  lemma FirstNonObjectAt(l: seq<Json>, i: int)
    requires 0 <= i < |l| && !l[i].JObject? && AllObjects(l[..i])
    ensures !AllObjects(l) && FirstNonObject(l) == l[i]
  {
    var x := FirstNonObject(l);
    var j :| 0 <= j < |l| && l[j] == x && !x.JObject? && AllObjects(l[..j]);
    assert forall n :: 0 <= n < i ==> l[..i][n] == l[n];
    assert forall n :: 0 <= n < j ==> l[..j][n] == l[n];
  }

  /** The entries of `l2` whose key is not among those of `l1`, in order. */
  function NewGvks(l1: seq<Json>, l2: seq<Json>): (r: seq<Json>)
    ensures forall x :: x in r <==> x in l2 && GvkKeyOf(x) !in KeySet(l1)
    decreases |l2|
  {
    if l2 == [] then []
    else
      var front, x := l2[..|l2| - 1], l2[|l2| - 1];
      assert l2 == front + [x];
      NewGvks(l1, front) + if GvkKeyOf(x) in KeySet(l1) then [] else [x]
  }

  lemma TakeOneMore(s: seq<Json>, j: int)
    requires 0 <= j < |s|
    ensures s[..j + 1] == s[..j] + [s[j]]
  {
  }

  lemma NewGvksSnoc(l1: seq<Json>, l2: seq<Json>, x: Json)
    ensures NewGvks(l1, l2 + [x]) == NewGvks(l1, l2) + if GvkKeyOf(x) in KeySet(l1) then [] else [x]
  {
    assert (l2 + [x])[..|l2|] == l2;
  }

  /**
   * Two entries that differ only in a list-valued `group` get different keys,
   * because `%s` prints a list's elements, so the second entry is new.
   */
  lemma ListValuedFieldsKeyApart()
    ensures var e1 := JObject(map["group" := JArray([JString("a")])]);
      var e2 := JObject(map["group" := JArray([JString("b")])]);
      GvkKeyOf(e1) != GvkKeyOf(e2) && NewGvks([e1], [e2]) == [e2]
  {
    var e1 := JObject(map["group" := JArray([JString("a")])]);
    var e2 := JObject(map["group" := JArray([JString("b")])]);
    assert FormatValue(JArray([JString("a")])) == "[a]";
    assert FormatValue(JArray([JString("b")])) == "[b]";
    var k1, k2 := GvkKeyOf(e1), GvkKeyOf(e2);
    assert k1[1] == 'a' && k2[1] == 'b';
    assert KeySet([e1]) == {k1};
    assert NewGvks([e1], [e2]) == NewGvks([e1], []) + [e2];
  }

  /** An object prints as `map[` and its `key:value` pairs. */
  lemma ObjectFormat()
    ensures FormatValue(JObject(map["k" := JString("v")])) == "map[k:v]"
  {
    var ks := SortedKeys({"k"});
    assert "k" in ks;
    assert ks == ["k"];
  }

  /** Nothing is added exactly when every key of `l2` is already a key of `l1`. */
  lemma NothingNewIffCovered(l1: seq<Json>, l2: seq<Json>)
    ensures NewGvks(l1, l2) == [] <==> KeySet(l2) <= KeySet(l1)
  {
    var r := NewGvks(l1, l2);
    if r != [] {
      assert r[0] in r;
    }
    if !(KeySet(l2) <= KeySet(l1)) {
      var k :| k in KeySet(l2) && k !in KeySet(l1);
      var x :| x in l2 && GvkKeyOf(x) == k;
      assert x in r;
    }
  }

  /** The keys of the merged list are the keys of both lists. */
  lemma MergedKeysAreUnion(l1: seq<Json>, l2: seq<Json>)
    ensures KeySet(l1 + NewGvks(l1, l2)) == KeySet(l1) + KeySet(l2)
  {
    var all := l1 + NewGvks(l1, l2);
    forall k | k in KeySet(l1) + KeySet(l2) ensures k in KeySet(all) {
      if k in KeySet(l1) {
        var x :| x in l1 && GvkKeyOf(x) == k;
        assert x in all;
      } else {
        var x :| x in l2 && GvkKeyOf(x) == k;
        assert x in all;
      }
    }
  }

  predicate SortedByKey(l: seq<Json>)
  {
    forall i, j :: 0 <= i < j < |l| ==> StrLeq(GvkKeyOf(l[i]), GvkKeyOf(l[j]))
  }

  // ----- mergedGVKs -----

  /**
   * What `mergedGVKs` returns when both schemas carry the extension, with
   * values `j1` and `j2`: an error when one is not a list or the first entry
   * that is not an object; otherwise the entries of `s2` whose key is new are
   * added to those of `s1`, and only then the list is sorted by key.
   */
  predicate ListsMerged(j1: Json, j2: Json, r: Result<GvkMerge, GvkError>)
  {
    if !j1.JArray? || !j2.JArray? then r == Err(ExpectedGvkSlice)
    else if !AllObjects(j1.elems + j2.elems) then r == Err(ExpectedGvk(FirstNonObject(j1.elems + j2.elems)))
    else
      var added := NewGvks(j1.elems, j2.elems);
      r.Ok? && r.value.changed == (added != [])
      && (added == [] ==> r.value.merged == Some(j1))
      && (added != [] ==>
        r.value.merged.Some? && r.value.merged.value.JArray?
        && SortedByKey(r.value.merged.value.elems)
        && multiset(r.value.merged.value.elems) == multiset(j1.elems + added))
  }

  /**
   * A successful merge keeps every entry of the first list and holds exactly
   * the keys of both lists.
   */
  lemma ListsMergedCoverBoth(j1: Json, j2: Json, r: Result<GvkMerge, GvkError>)
    requires ListsMerged(j1, j2, r) && r.Ok?
    ensures r.value.merged.Some? && r.value.merged.value.JArray?
    ensures forall x :: x in j1.elems ==> x in r.value.merged.value.elems
    ensures KeySet(r.value.merged.value.elems) == KeySet(j1.elems) + KeySet(j2.elems)
  {
    var added := NewGvks(j1.elems, j2.elems);
    var m := r.value.merged.value.elems;
    MergedKeysAreUnion(j1.elems, j2.elems);
    if added == [] {
      NothingNewIffCovered(j1.elems, j2.elems);
      assert j1.elems + added == j1.elems;
    } else {
      forall x ensures x in m <==> x in j1.elems + added {
        assert x in m <==> multiset(m)[x] > 0;
        assert x in j1.elems + added <==> multiset(j1.elems + added)[x] > 0;
      }
      assert KeySet(m) == KeySet(j1.elems + added);
    }
  }

  /** `byKeys.Swap`. */
  method Swap(a: array<Json>, i: int, j: int)
    requires 0 <= i < a.Length && 0 <= j < a.Length
    modifies a
    ensures a[i] == old(a[j]) && a[j] == old(a[i])
    ensures forall n :: 0 <= n < a.Length && n != i && n != j ==> a[n] == old(a[n])
    ensures multiset(a[..]) == multiset(old(a[..]))
  {
    a[i], a[j] := a[j], a[i];
  }

  /** The position of an entry with the least key among `a[i..]`, found by `byKeys.Less`. */
  method MinIndex(a: array<Json>, i: int) returns (m: int)
    requires 0 <= i < a.Length
    ensures i <= m < a.Length
    ensures forall q :: i <= q < a.Length ==> StrLeq(GvkKeyOf(a[m]), GvkKeyOf(a[q]))
  {
    m := i;
    var j := i + 1;
    while j < a.Length
      invariant i <= m < j <= a.Length
      invariant forall q :: i <= q < j ==> StrLeq(GvkKeyOf(a[m]), GvkKeyOf(a[q]))
    {
      if StrLess(GvkKeyOf(a[j]), GvkKeyOf(a[m])) {
        forall q | i <= q < j ensures StrLeq(GvkKeyOf(a[j]), GvkKeyOf(a[q])) {
          StrLeqTransitive(GvkKeyOf(a[j]), GvkKeyOf(a[m]), GvkKeyOf(a[q]));
        }
        m := j;
      } else {
        StrLeqTotal(GvkKeyOf(a[j]), GvkKeyOf(a[m]));
      }
      j := j + 1;
    }
  }

  /** `sort.Sort(byKeys{ret, keys})`, as a selection sort by `byKeys.Less` and `byKeys.Swap`. */
  method SortByKeys(a: array<Json>)
    modifies a
    ensures SortedByKey(a[..])
    ensures multiset(a[..]) == multiset(old(a[..]))
  {
    var i := 0;
    while i < a.Length
      invariant 0 <= i <= a.Length
      invariant multiset(a[..]) == multiset(old(a[..]))
      invariant forall p, q :: 0 <= p < q < i ==> StrLeq(GvkKeyOf(a[p]), GvkKeyOf(a[q]))
      invariant forall p, q :: 0 <= p < i <= q < a.Length ==> StrLeq(GvkKeyOf(a[p]), GvkKeyOf(a[q]))
    {
      var m := MinIndex(a, i);
      Swap(a, i, m);
      i := i + 1;
    }
  }

  lemma FirstNonObjectAppend(l1: seq<Json>, l2: seq<Json>)
    ensures AllObjects(l1 + l2) <==> AllObjects(l1) && AllObjects(l2)
    ensures !AllObjects(l1) ==> FirstNonObject(l1 + l2) == FirstNonObject(l1)
    ensures AllObjects(l1) && !AllObjects(l2) ==> FirstNonObject(l1 + l2) == FirstNonObject(l2)
  {
    var l := l1 + l2;
    assert forall n :: 0 <= n < |l1| ==> l[n] == l1[n];
    assert forall n :: 0 <= n < |l2| ==> l[|l1| + n] == l2[n];
    if !AllObjects(l1) {
      var x := FirstNonObject(l1);
      var i :| 0 <= i < |l1| && l1[i] == x && !x.JObject? && AllObjects(l1[..i]);
      assert l[..i] == l1[..i];
      FirstNonObjectAt(l, i);
    } else if !AllObjects(l2) {
      var x := FirstNonObject(l2);
      var i :| 0 <= i < |l2| && l2[i] == x && !x.JObject? && AllObjects(l2[..i]);
      assert l[..|l1| + i] == l1 + l2[..i];
      FirstNonObjectAt(l, |l1| + i);
    }
  }

  /** The first loop of `mergedGVKs`: the keys of the entries of `s1`'s list, each checked to be an object. */
  method SeenKeys(slice1: seq<Json>) returns (r: Result<set<string>, GvkError>)
    ensures AllObjects(slice1) ==> r == Ok(KeySet(slice1))
    ensures !AllObjects(slice1) ==> r == Err(ExpectedGvk(FirstNonObject(slice1)))
  {
    var seen: set<string> := {};
    var i := 0;
    while i < |slice1|
      invariant 0 <= i <= |slice1|
      invariant AllObjects(slice1[..i])
      invariant seen == KeySet(slice1[..i])
    {
      var x := slice1[i];
      if !x.JObject? {
        FirstNonObjectAt(slice1, i);
        return Err(ExpectedGvk(x));
      }
      TakeOneMore(slice1, i);
      seen := seen + {GvkKeyOf(x)};
      i := i + 1;
    }
    assert slice1[..i] == slice1;
    return Ok(seen);
  }

  /**
   * The second loop of `mergedGVKs`: the entries of `s2`'s list whose key is
   * not one of `seen` are appended to `s1`'s, and whether any was.
   */
  method AppendNew(slice1: seq<Json>, seen: set<string>, slice2: seq<Json>) returns (r: Result<(seq<Json>, bool), GvkError>)
    requires seen == KeySet(slice1)
    ensures AllObjects(slice2) ==>
      r == Ok((slice1 + NewGvks(slice1, slice2), NewGvks(slice1, slice2) != []))
    ensures !AllObjects(slice2) ==> r == Err(ExpectedGvk(FirstNonObject(slice2)))
  {
    var added: seq<Json> := [];
    var changed := false;
    var j := 0;
    while j < |slice2|
      invariant 0 <= j <= |slice2|
      invariant AllObjects(slice2[..j])
      invariant added == NewGvks(slice1, slice2[..j])
      invariant changed == (added != [])
    {
      var x := slice2[j];
      if !x.JObject? {
        FirstNonObjectAt(slice2, j);
        return Err(ExpectedGvk(x));
      }
      TakeOneMore(slice2, j);
      NewGvksSnoc(slice1, slice2[..j], x);
      if GvkKeyOf(x) !in seen {
        added := added + [x];
        changed := true;
      }
      j := j + 1;
    }
    assert slice2[..j] == slice2;
    return Ok((slice1 + added, changed));
  }

  /** The two lists of `mergedGVKs`, once both schemas carry the extension. */
  method MergeGvkLists(j1: Json, j2: Json) returns (r: Result<GvkMerge, GvkError>)
    ensures ListsMerged(j1, j2, r)
  {
    if !j1.JArray? || !j2.JArray? {
      return Err(ExpectedGvkSlice);
    }
    var slice1, slice2 := j1.elems, j2.elems;
    FirstNonObjectAppend(slice1, slice2);
    var seen := SeenKeys(slice1);
    if seen.Err? {
      return Err(seen.error);
    }
    var appended := AppendNew(slice1, seen.value, slice2);
    if appended.Err? {
      return Err(appended.error);
    }
    var ret, changed := appended.value.0, appended.value.1;
    assert !changed ==> ret == slice1 + [] == slice1;
    if changed {
      var a := new Json[|ret|](n requires 0 <= n < |ret| => ret[n]);
      assert a[..] == ret;
      SortByKeys(a);
      ret := a[..];
    }
    return Ok(GvkMerge(Some(JArray(ret)), changed));
  }

  /**
   * `mergedGVKs(s1, s2)`: without the extension on `s1`, that of `s2` and
   * whether it exists; without it on `s2`, that of `s1`, unchanged; with both,
   * the merge of the two lists.
   */
  method MergedGvks(s1: Schema, s2: Schema) returns (r: Result<GvkMerge, GvkError>)
    ensures GvkKey !in s1.extensions ==>
      r == Ok(GvkMerge(Lookup(s2.extensions, GvkKey), GvkKey in s2.extensions))
    ensures GvkKey in s1.extensions && GvkKey !in s2.extensions ==>
      r == Ok(GvkMerge(Some(s1.extensions[GvkKey]), false))
    ensures GvkKey in s1.extensions && GvkKey in s2.extensions ==>
      ListsMerged(s1.extensions[GvkKey], s2.extensions[GvkKey], r)
  {
    if GvkKey !in s1.extensions {
      return Ok(GvkMerge(Lookup(s2.extensions, GvkKey), GvkKey in s2.extensions));
    }
    if GvkKey !in s2.extensions {
      return Ok(GvkMerge(Some(s1.extensions[GvkKey]), false));
    }
    r := MergeGvkLists(s1.extensions[GvkKey], s2.extensions[GvkKey]);
  }

  // ----- Storing the merged list -----

  /** The `interface{}` value of an optional one: nil for none. */
  function JsonOf(o: Option<Json>): Json
  {
    if o.Some? then o.value else JNull
  }

  /**
   * `existing.Extensions[gvkKey] = merged` as written. A definition without
   * extensions has a nil map, and the store into it panics (`None`).
   */
  function StoreGvkAsWritten(ext: map<string, Json>, merged: Option<Json>): (r: Option<map<string, Json>>)
    ensures r.None? <==> ext == map[]
    ensures r.Some? ==> GvkKey in r.value && r.value[GvkKey] == JsonOf(merged) && WithoutGvk(r.value) == WithoutGvk(ext)
  {
    if ext == map[] then None else Some(ext[GvkKey := JsonOf(merged)])
  }

  /**
   * A destination definition without extensions that a source definition
   * equals but for its GVK list: the definitions are not renamed,
   * `mergedGVKs` reports the source's list as a change, and the store panics.
   */
  lemma StoreGvkAsWrittenPanics()
    ensures var v := EmptySchema.(extensions := map[GvkKey := JArray([])]);
      var d := EmptySchema;
      EqualModuloGvk(d, v) && DeepEqualModuloGvksAsWritten(d, v)
      && GvkKey !in d.extensions && GvkKey in v.extensions
      && StoreGvkAsWritten(d.extensions, Some(v.extensions[GvkKey])).None?
  {
    GvkIgnored(EmptySchema, JArray([]));
    assert EmptySchema.extensions[GvkKey := JArray([])] == map[GvkKey := JArray([])];
  }

  /** The corrected store: a nil extension map is allocated first. */
  function StoreGvk(ext: map<string, Json>, merged: Option<Json>): (r: map<string, Json>)
    ensures GvkKey in r && r[GvkKey] == JsonOf(merged) && WithoutGvk(r) == WithoutGvk(ext)
  {
    ext[GvkKey := JsonOf(merged)]
  }

  /** The widened definition is the one it replaces, modulo its GVK list. */
  lemma StoreGvkKeepsDefinition(d: Schema, merged: Option<Json>)
    ensures EqualModuloGvk(d, d.(extensions := StoreGvk(d.extensions, merged)))
  {
    GvkIgnored(d, JsonOf(merged));
  }
}
