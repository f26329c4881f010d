/**
 * `renameDefinitions` and `renameParameters`: the renames are applied to the
 * keys of one map of the document, and every reference `prefix + old` is
 * rewritten to `prefix + new` by a walk with `ReplaceReferences`.
 *
 * Go ranges over a map in an unspecified order; the re-keying loop is a
 * fold over `order`, a listing of the map's keys, in which a later key wins
 * when two keys are renamed to the same name. `RenameKeysKeys` and
 * `RenameKeysValues` hold for every order.
 */
module Rename {
  import opened Wrappers
  import opened OpenApi
  import opened Walker
  import opened Holds
  import opened WalkerProperties
  import opened WalkerDocument

  // ----- References -----

  lemma PrefixInjective(prefix: string, a: string, b: string)
    requires prefix + a == prefix + b
    ensures a == b
  {
    assert a == (prefix + a)[|prefix|..];
    assert b == (prefix + b)[|prefix|..];
  }

  /** `refRenames`: `prefix + old` maps to `prefix + new` for every entry of `renames`. */
  function RefRenames(prefix: string, renames: map<string, string>): (rr: map<string, string>)
    ensures forall k :: k in renames ==> prefix + k in rr && rr[prefix + k] == prefix + renames[k]
    ensures forall r :: r in rr ==> prefix <= r && r[|prefix|..] in renames
  {
    forall a, b | a in renames && b in renames && prefix + a == prefix + b ensures a == b {
      PrefixInjective(prefix, a, b);
    }
    var rr := map k | k in renames :: prefix + k := prefix + renames[k];
    assert forall r :: r in rr ==> exists k :: k in renames && r == prefix + k;
    assert forall k :: k in renames ==> (prefix + k)[|prefix|..] == k;
    rr
  }

  /** The ref callback of the renamers: a reference listed in `rr` is replaced, any other is returned as it is. */
  function RenameRef(rr: map<string, string>, r: string): string
  {
    if r in rr then rr[r] else r
  }

  /**
   * What the renamer callback does: `prefix + old` becomes `prefix + new`
   * for each renamed `old`, and every other reference is untouched.
   */
  lemma RenameRefSpec(prefix: string, renames: map<string, string>, r: string)
    ensures prefix <= r && r[|prefix|..] in renames ==>
      RenameRef(RefRenames(prefix, renames), r) == prefix + renames[r[|prefix|..]]
    ensures !(prefix <= r && r[|prefix|..] in renames) ==> RenameRef(RefRenames(prefix, renames), r) == r
  {
    if prefix <= r && r[|prefix|..] in renames {
      assert prefix + r[|prefix|..] == r;
    }
  }

  // ----- Keys -----

  /** The key `k` is stored under after renaming. */
  function NewName(renames: map<string, string>, k: string): string
  {
    if k in renames then renames[k] else k
  }

  /** `order` lists exactly the keys of `m`, as one range over the map visits them. */
  predicate IsOrderOf<V>(order: seq<string>, m: map<string, V>)
  {
    (forall k :: k in order ==> k in m) && (forall k :: k in m ==> k in order)
      && forall i, j :: 0 <= i < j < |order| ==> order[i] != order[j]
  }

  /** The re-keying loop over `order`: each value is stored under its new name. */
  function RenameKeys<V>(m: map<string, V>, renames: map<string, string>, order: seq<string>): map<string, V>
    requires forall k :: k in order ==> k in m
    decreases |order|
  {
    if order == [] then map[]
    else
      var k := order[|order| - 1];
      RenameKeys(m, renames, order[..|order| - 1])[NewName(renames, k) := m[k]]
  }

  /** The renamed map has exactly the new names of the keys visited, whatever the order. */
  lemma {:induction false} RenameKeysKeys<V>(m: map<string, V>, renames: map<string, string>, order: seq<string>)
    requires forall k :: k in order ==> k in m
    ensures RenameKeys(m, renames, order).Keys == set k | k in order :: NewName(renames, k)
    decreases |order|
  {
    if order != [] {
      var front := order[..|order| - 1];
      RenameKeysKeys(m, renames, front);
      assert forall k :: k in order <==> k in front || k == order[|order| - 1];
    }
  }

  /** No two keys of `m` are renamed to the same name. */
  predicate NoCollision<V>(m: map<string, V>, renames: map<string, string>)
  {
    forall a, b :: a in m && b in m && a != b ==> NewName(renames, a) != NewName(renames, b)
  }

  /** Without a collision, every visited value ends up under its key's new name, whatever the order. */
  lemma {:induction false} RenameKeysValues<V>(m: map<string, V>, renames: map<string, string>, order: seq<string>, k: string)
    requires forall x :: x in order ==> x in m
    requires NoCollision(m, renames) && k in order
    ensures NewName(renames, k) in RenameKeys(m, renames, order)
    ensures RenameKeys(m, renames, order)[NewName(renames, k)] == m[k]
    decreases |order|
  {
    var last := order[|order| - 1];
    var front := order[..|order| - 1];
    if k != last {
      assert k in front by {
        assert exists i :: 0 <= i < |order| && order[i] == k;
        var i :| 0 <= i < |order| && order[i] == k;
        assert i < |order| - 1 && front[i] == k;
      }
      RenameKeysValues(m, renames, front, k);
    }
  }

  /** Without a collision the renamed map does not depend on the order of the range. */
  lemma RenameKeysOrderIndependent<V>(m: map<string, V>, renames: map<string, string>, o1: seq<string>, o2: seq<string>)
    requires IsOrderOf(o1, m) && IsOrderOf(o2, m) && NoCollision(m, renames)
    ensures RenameKeys(m, renames, o1) == RenameKeys(m, renames, o2)
  {
    var r1, r2 := RenameKeys(m, renames, o1), RenameKeys(m, renames, o2);
    RenameKeysSameKeys(m, renames, o1, o2);
    forall n | n in r1 ensures r1[n] == r2[n] {
      RenameKeysSameValue(m, renames, o1, o2, n);
    }
  }

  /** Two orders of the same keys give the renamed map the same keys. */
  lemma RenameKeysSameKeys<V>(m: map<string, V>, renames: map<string, string>, o1: seq<string>, o2: seq<string>)
    requires IsOrderOf(o1, m) && IsOrderOf(o2, m)
    ensures RenameKeys(m, renames, o1).Keys == RenameKeys(m, renames, o2).Keys
  {
    RenameKeysKeys(m, renames, o1);
    RenameKeysKeys(m, renames, o2);
    assert (set k | k in o1 :: NewName(renames, k)) == (set k | k in o2 :: NewName(renames, k));
  }

  /** Without a collision, a new name holds the same value after either order. */
  lemma RenameKeysSameValue<V>(m: map<string, V>, renames: map<string, string>, o1: seq<string>, o2: seq<string>,
                               n: string)
    requires IsOrderOf(o1, m) && IsOrderOf(o2, m) && NoCollision(m, renames)
    requires n in RenameKeys(m, renames, o1)
    ensures n in RenameKeys(m, renames, o2) && RenameKeys(m, renames, o1)[n] == RenameKeys(m, renames, o2)[n]
  {
    RenameKeysKeys(m, renames, o1);
    var k :| k in o1 && NewName(renames, k) == n;
    RenameKeysValues(m, renames, o1, k);
    RenameKeysValues(m, renames, o2, k);
  }

  /** With a collision the order decides which value survives. */
  lemma RenameKeysCollision(x: int, y: int)
    requires x != y
    ensures var m := map["a" := x, "b" := y];
      RenameKeys(m, map["a" := "b"], ["a", "b"]) == map["b" := y]
      && RenameKeys(m, map["a" := "b"], ["b", "a"]) == map["b" := x]
  {
    var m := map["a" := x, "b" := y];
    var renames := map["a" := "b"];
    assert ["a", "b"][..1] == ["a"] && ["b", "a"][..1] == ["b"];
    assert NewName(renames, "a") == "b" && NewName(renames, "b") == "b";
  }

  // ----- The renamers -----

  /** Some key of `renames` is a key of `m`. */
  predicate FoundOne<V>(m: map<string, V>, renames: map<string, string>)
  {
    exists k :: k in renames && k in m
  }

  /** The ref callback `renameDefinitions` walks the document with. */
  function DefinitionRenamer(renames: map<string, string>): (f: string -> string)
    ensures forall k :: k in renames ==> f(DefinitionPrefix + k) == DefinitionPrefix + renames[k]
  {
    r => RenameRef(RefRenames(DefinitionPrefix, renames), r)
  }

  /** The ref callback `renameParameters` walks the document with. */
  function ParameterRenamer(renames: map<string, string>): (f: string -> string)
    ensures forall k :: k in renames ==> f(ParameterPrefix + k) == ParameterPrefix + renames[k]
  {
    r => RenameRef(RefRenames(ParameterPrefix, renames), r)
  }

  /**
   * `renameDefinitions`: when no key of `renames` is a definition, the input
   * itself; otherwise the references rewritten by `DefinitionRenamer` and the
   * definitions re-keyed in the order `order`.
   */
  function RenameDefinitions(s: Swagger, renames: map<string, string>, order: seq<string>): (r: Swagger)
    requires IsOrderOf(order, s.definitions)
    ensures !FoundOne(s.definitions, renames) ==> r == s
    ensures FoundOne(s.definitions, renames) ==>
      r.definitions.Keys == set k | k in s.definitions :: NewName(renames, k)
    ensures r.parameters.Keys == s.parameters.Keys && r.responses.Keys == s.responses.Keys && r.keywords == s.keywords
    ensures r.paths.Some? == s.paths.Some? && (r.paths.Some? ==> r.paths.value.paths.Keys == s.paths.value.paths.Keys)
  {
    if !FoundOne(s.definitions, renames) then s
    else
      var ret := ReplaceReferences(DefinitionRenamer(renames), s);
      RenameKeysKeys(ret.definitions, renames, order);
      ret.(definitions := RenameKeys(ret.definitions, renames, order))
  }

  /** `renameParameters`: the same for the parameters of the document. */
  function RenameParameters(s: Swagger, renames: map<string, string>, order: seq<string>): (r: Swagger)
    requires IsOrderOf(order, s.parameters)
    ensures !FoundOne(s.parameters, renames) ==> r == s
    ensures FoundOne(s.parameters, renames) ==>
      r.parameters.Keys == set k | k in s.parameters :: NewName(renames, k)
    ensures r.definitions.Keys == s.definitions.Keys && r.responses.Keys == s.responses.Keys && r.keywords == s.keywords
    ensures r.paths.Some? == s.paths.Some? && (r.paths.Some? ==> r.paths.value.paths.Keys == s.paths.value.paths.Keys)
  {
    if !FoundOne(s.parameters, renames) then s
    else
      var ret := ReplaceReferences(ParameterRenamer(renames), s);
      RenameKeysKeys(ret.parameters, renames, order);
      ret.(parameters := RenameKeys(ret.parameters, renames, order))
  }

  /** Without a collision each definition moves to its new name, with its references rewritten. */
  lemma RenameDefinitionsMovesValues(s: Swagger, renames: map<string, string>, order: seq<string>, k: string)
    requires IsOrderOf(order, s.definitions) && NoCollision(s.definitions, renames)
    requires FoundOne(s.definitions, renames) && k in s.definitions
    ensures var r := RenameDefinitions(s, renames, order);
      NewName(renames, k) in r.definitions
      && r.definitions[NewName(renames, k)] == ReplaceReferences(DefinitionRenamer(renames), s).definitions[k]
  {
    var ret := ReplaceReferences(DefinitionRenamer(renames), s);
    RenameKeysValues(ret.definitions, renames, order, k);
  }

  lemma RenameParametersMovesValues(s: Swagger, renames: map<string, string>, order: seq<string>, k: string)
    requires IsOrderOf(order, s.parameters) && NoCollision(s.parameters, renames)
    requires FoundOne(s.parameters, renames) && k in s.parameters
    ensures var r := RenameParameters(s, renames, order);
      NewName(renames, k) in r.parameters
      && r.parameters[NewName(renames, k)] == ReplaceReferences(ParameterRenamer(renames), s).parameters[k]
  {
    var ret := ReplaceReferences(ParameterRenamer(renames), s);
    RenameKeysValues(ret.parameters, renames, order, k);
  }

  // ----- References stay resolved -----

  /** Every value of the renamed map is the value of a visited key. */
  lemma {:induction false} RenameKeysValuesFrom<V>(m: map<string, V>, renames: map<string, string>, order: seq<string>, n: string)
    requires forall x :: x in order ==> x in m
    requires n in RenameKeys(m, renames, order)
    ensures exists k :: k in order && RenameKeys(m, renames, order)[n] == m[k]
    decreases |order|
  {
    var last := order[|order| - 1];
    var front := order[..|order| - 1];
    assert last in order;
    if n != NewName(renames, last) {
      RenameKeysValuesFrom(m, renames, front, n);
      var k :| k in front && RenameKeys(m, renames, front)[n] == m[k];
      assert k in order;
    }
  }

  /** A reference with `prefix` names one of `keys`. */
  predicate Resolves(prefix: string, keys: set<string>, r: string)
  {
    prefix <= r ==> r[|prefix|..] in keys
  }

  /** Every reference of `sw` with `prefix` names one of `keys`. */
  ghost predicate AllResolve(sw: Swagger, prefix: string, keys: set<string>)
  {
    SwaggerHolds(sw, r => Resolves(prefix, keys, r), Always)
  }

  /** The renamer carries a reference resolved among `keys` to one resolved among their new names. */
  lemma RenamerCarriesResolution(prefix: string, keys: set<string>, renames: map<string, string>)
    ensures Carries(r => RenameRef(RefRenames(prefix, renames), r), r => Resolves(prefix, keys, r),
      r => Resolves(prefix, set k | k in keys :: NewName(renames, k), r))
  {
    var newKeys := set k | k in keys :: NewName(renames, k);
    forall r | Resolves(prefix, keys, r)
      ensures Resolves(prefix, newKeys, RenameRef(RefRenames(prefix, renames), r))
    {
      RenameRefSpec(prefix, renames, r);
      if prefix <= r && r[|prefix|..] in renames {
        var k := r[|prefix|..];
        assert (prefix + renames[k])[|prefix|..] == renames[k];
        assert NewName(renames, k) == renames[k];
      } else if prefix <= r {
        assert NewName(renames, r[|prefix|..]) == r[|prefix|..];
      }
    }
  }

  /** Re-keying the definitions keeps what holds of every definition. */
  lemma RenamedDefinitionsHold(ret: Swagger, renames: map<string, string>, order: seq<string>, q: string -> bool)
    requires forall x :: x in order ==> x in ret.definitions
    requires SwaggerHolds(ret, q, Always)
    ensures SwaggerHolds(ret.(definitions := RenameKeys(ret.definitions, renames, order)), q, Always)
  {
    var m := RenameKeys(ret.definitions, renames, order);
    forall n | n in m ensures SchemaHolds(m[n], q, Always) {
      RenameKeysValuesFrom(ret.definitions, renames, order, n);
    }
  }

  /** Re-keying the parameters keeps what holds of every parameter. */
  lemma RenamedParametersHold(ret: Swagger, renames: map<string, string>, order: seq<string>, q: string -> bool)
    requires forall x :: x in order ==> x in ret.parameters
    requires SwaggerHolds(ret, q, Always)
    ensures SwaggerHolds(ret.(parameters := RenameKeys(ret.parameters, renames, order)), q, Always)
  {
    var m := RenameKeys(ret.parameters, renames, order);
    forall n | n in m ensures ParameterHolds(m[n], q, Always) {
      RenameKeysValuesFrom(ret.parameters, renames, order, n);
    }
  }

  /**
   * Renaming keeps every definition reference resolved: if each
   * `#/definitions/` reference of the input names one of its definitions,
   * each of the output names one of the output's.
   */
  lemma RenameDefinitionsKeepsReferencesResolved(s: Swagger, renames: map<string, string>, order: seq<string>)
    requires IsOrderOf(order, s.definitions) && AllResolve(s, DefinitionPrefix, s.definitions.Keys)
    ensures var r := RenameDefinitions(s, renames, order);
      AllResolve(r, DefinitionPrefix, r.definitions.Keys)
  {
    if FoundOne(s.definitions, renames) {
      var newKeys := set k | k in s.definitions.Keys :: NewName(renames, k);
      var q := r => Resolves(DefinitionPrefix, newKeys, r);
      RenamerCarriesResolution(DefinitionPrefix, s.definitions.Keys, renames);
      ReplaceReferencesRefs(s, DefinitionRenamer(renames), r => Resolves(DefinitionPrefix, s.definitions.Keys, r), q);
      var ret := ReplaceReferences(DefinitionRenamer(renames), s);
      RenamedDefinitionsHold(ret, renames, order, q);
    }
  }

  /** The same for `#/parameters/` references and `RenameParameters`. */
  lemma RenameParametersKeepsReferencesResolved(s: Swagger, renames: map<string, string>, order: seq<string>)
    requires IsOrderOf(order, s.parameters) && AllResolve(s, ParameterPrefix, s.parameters.Keys)
    ensures var r := RenameParameters(s, renames, order);
      AllResolve(r, ParameterPrefix, r.parameters.Keys)
  {
    if FoundOne(s.parameters, renames) {
      var newKeys := set k | k in s.parameters.Keys :: NewName(renames, k);
      var q := r => Resolves(ParameterPrefix, newKeys, r);
      RenamerCarriesResolution(ParameterPrefix, s.parameters.Keys, renames);
      ReplaceReferencesRefs(s, ParameterRenamer(renames), r => Resolves(ParameterPrefix, s.parameters.Keys, r), q);
      var ret := ReplaceReferences(ParameterRenamer(renames), s);
      RenamedParametersHold(ret, renames, order, q);
    }
  }
}
