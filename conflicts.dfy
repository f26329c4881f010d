/**
 * The loops of `mergeSpecs` that decide what to do before anything is
 * copied: the scan for novel paths, the order a map is ranged over, and the
 * conflict renaming of definitions and parameters.
 *
 * The renaming loops are written once, over a map of any value type and the
 * equality the source uses for it: equality modulo the GVK extension for
 * definitions, plain equality for parameters.
 */
module Conflicts {
  import opened Wrappers
  import opened OpenApi
  import opened Strings
  import opened Rename
  import opened Search

  // ----- Ranging over a map -----

  /** The keys of `m` in the order a `range` over it visits them, which Go leaves unspecified. */
  method KeyOrder<V>(m: map<string, V>) returns (order: seq<string>)
    ensures IsOrderOf(order, m)
  {
    order := [];
    var rest := m.Keys;
    while rest != {}
      invariant rest <= m.Keys
      invariant forall k :: k in order ==> k in m && k !in rest
      invariant forall k :: k in m ==> k in order || k in rest
      invariant forall i, j :: 0 <= i < j < |order| ==> order[i] != order[j]
      decreases |rest|
    {
      var k :| k in rest;
      order := order + [k];
      rest := rest - {k};
    }
  }

  // ----- Paths -----

  /**
   * The scan of `source.Paths.Paths` under `ignorePathConflicts`: the paths
   * `dest` lacks, and whether some path is in both.
   */
  method NovelPaths(sourcePaths: map<string, PathItem>, destPaths: map<string, PathItem>)
    returns (keepPaths: seq<string>, hasConflictingPath: bool)
    ensures forall p :: p in keepPaths <==> p in sourcePaths && p !in destPaths
    ensures hasConflictingPath <==> exists p :: p in sourcePaths && p in destPaths
  {
    keepPaths, hasConflictingPath := [], false;
    var rest := sourcePaths.Keys;
    while rest != {}
      invariant rest <= sourcePaths.Keys
      invariant forall p :: p in keepPaths <==> p in sourcePaths && p !in rest && p !in destPaths
      invariant hasConflictingPath <==> exists p :: p in sourcePaths && p !in rest && p in destPaths
      decreases |rest|
    {
      var p :| p in rest;
      rest := rest - {p};
      if p !in destPaths {
        keepPaths := keepPaths + [p];
      } else {
        hasConflictingPath := true;
      }
    }
  }

  // ----- The renaming loops -----

  /** Key `k` of `source` is a key of `dest` with a value that is not equal: a conflict. */
  predicate IsConflict<V>(dest: map<string, V>, source: map<string, V>, equal: (V, V) -> bool, k: string)
  {
    k in source && k in dest && !equal(dest[k], source[k])
  }

  /** The fresh names, not reused from `dest`, that keys other than `k` were given. */
  ghost function FreshGiven<V>(renames: map<string, string>, dest: map<string, V>, k: string): set<string>
  {
    set b | b in renames && b != k && renames[b] !in dest :: renames[b]
  }

  /**
   * Candidate `n` is taken when the search for `k` passes it: a key of `dest`
   * or of `source`, or the fresh name another renamed key was given.
   */
  ghost predicate Taken<V>(k: string, n: string, dest: map<string, V>, source: map<string, V>,
                           renames: map<string, string>)
  {
    n in dest || n in source || n in FreshGiven(renames, dest, k)
  }

  /** `k_vI` is the first candidate along the keys of `dest` whose value equals `v`. */
  ghost predicate ReusedAt<V>(k: string, v: V, dest: map<string, V>, equal: (V, V) -> bool, i: nat)
  {
    VersionedName(k, i) in dest && equal(dest[VersionedName(k, i)], v) && InDestUpTo(k, dest, i)
    && forall j :: 2 <= j < i ==> !equal(dest[VersionedName(k, j)], v)
  }

  /**
   * `k_vI` is a key of neither map, every earlier candidate is taken, and
   * none of the candidates along the keys of `dest` has a value equal to `v`.
   */
  ghost predicate FreshAt<V>(k: string, v: V, dest: map<string, V>, source: map<string, V>,
                             equal: (V, V) -> bool, renames: map<string, string>, i: nat)
  {
    VersionedName(k, i) !in dest && VersionedName(k, i) !in source
    && forall j :: 2 <= j < i ==>
         Taken(k, VersionedName(k, j), dest, source, renames)
         && (InDestUpTo(k, dest, j + 1) ==> !equal(dest[VersionedName(k, j)], v))
  }

  /**
   * `n` is the name the search gives `k` with value `v`: the first candidate
   * `k_vI` along the keys of `dest` whose value is equal, or, when there is
   * none, the first candidate from there on that is not taken.
   */
  ghost predicate FirstFit<V>(k: string, v: V, n: string, dest: map<string, V>, source: map<string, V>,
                              equal: (V, V) -> bool, renames: map<string, string>)
  {
    exists i :: 2 <= i && n == VersionedName(k, i)
      && (ReusedAt(k, v, dest, equal, i) || FreshAt(k, v, dest, source, equal, renames, i))
  }

  /**
   * `renames` is what the renaming loop builds when renaming is on: it
   * renames exactly the conflicts, each to the first name that fits, and a
   * name not reused from `dest` goes to one key only.
   */
  ghost predicate IsRenaming<V>(dest: map<string, V>, source: map<string, V>, equal: (V, V) -> bool,
                                renames: map<string, string>)
  {
    (forall k :: k in renames <==> IsConflict(dest, source, equal, k))
    && (forall k :: k in renames ==> k in source && FirstFit(k, source[k], renames[k], dest, source, equal, renames))
    && forall a, b :: a in renames && b in renames && a != b && renames[a] !in dest ==> renames[a] != renames[b]
  }

  /** Every name of `used` is a key of `dest` or a fresh name some key was given. */
  ghost predicate UsedNamesGiven<V>(used: set<string>, dest: map<string, V>, renames: map<string, string>)
  {
    forall n :: n in used ==> n in dest || exists b :: b in renames && renames[b] !in dest && renames[b] == n
  }

  /** Giving one more key a name keeps the first fit of every other key. */
  lemma FirstFitGrows<V>(a: string, v: V, n: string, dest: map<string, V>, source: map<string, V>,
                         equal: (V, V) -> bool, renames: map<string, string>, k: string, newName: string)
    requires k !in renames && FirstFit(a, v, n, dest, source, equal, renames)
    ensures FirstFit(a, v, n, dest, source, equal, renames[k := newName])
  {
    var renames' := renames[k := newName];
    var i :| 2 <= i && n == VersionedName(a, i)
      && (ReusedAt(a, v, dest, equal, i) || FreshAt(a, v, dest, source, equal, renames, i));
    if FreshAt(a, v, dest, source, equal, renames, i) {
      assert FreshGiven(renames, dest, a) <= FreshGiven(renames', dest, a) by {
        forall x | x in FreshGiven(renames, dest, a) ensures x in FreshGiven(renames', dest, a) {
          var b :| b in renames && b != a && renames[b] !in dest && renames[b] == x;
          assert b in renames' && renames'[b] == x;
        }
      }
      assert FreshAt(a, v, dest, source, equal, renames', i);
    }
  }

  /**
   * The name `FindRename` returns for a key not yet renamed, with `used`
   * holding `dest`'s keys and the fresh names given so far, is its first fit
   * once the key is renamed to it.
   */
  lemma NamedFirstFit<V>(k: string, v: V, dest: map<string, V>, source: map<string, V>, equal: (V, V) -> bool,
                         renames: map<string, string>, used: set<string>, newName: string, reused: bool, i: nat)
    requires k !in renames && UsedNamesGiven(used, dest, renames)
    requires i >= 2 && newName == VersionedName(k, i)
    requires reused ==> newName in dest && equal(dest[newName], v) && InDestUpTo(k, dest, i)
    requires reused ==> forall j :: 2 <= j < i ==> !equal(dest[VersionedName(k, j)], v)
    requires !reused ==> newName !in used && newName !in source && dest.Keys <= used
    requires !reused ==> forall j :: 2 <= j < i ==> VersionedName(k, j) in used || VersionedName(k, j) in source
    requires !reused ==> forall j :: 2 <= j < i && InDestUpTo(k, dest, j + 1) ==> !equal(dest[VersionedName(k, j)], v)
    ensures FirstFit(k, v, newName, dest, source, equal, renames[k := newName])
  {
    var renames' := renames[k := newName];
    if reused {
      assert ReusedAt(k, v, dest, equal, i);
    } else {
      forall j | 2 <= j < i ensures Taken(k, VersionedName(k, j), dest, source, renames') {
        var n := VersionedName(k, j);
        if n !in dest && n !in source {
          var b :| b in renames && renames[b] !in dest && renames[b] == n;
          assert b != k && b in renames' && renames'[b] == n;
        }
      }
      assert FreshAt(k, v, dest, source, equal, renames', i);
    }
  }

  /** One round of the renaming loop keeps the first fit of every renamed key. */
  lemma RenameStep<V>(k: string, dest: map<string, V>, source: map<string, V>, equal: (V, V) -> bool,
                      renames: map<string, string>, used: set<string>, newName: string, reused: bool, i: nat)
    requires k in source && k !in renames && UsedNamesGiven(used, dest, renames)
    requires forall a :: a in renames ==> a in source && FirstFit(a, source[a], renames[a], dest, source, equal, renames)
    requires i >= 2 && newName == VersionedName(k, i)
    requires reused ==> newName in dest && equal(dest[newName], source[k]) && InDestUpTo(k, dest, i)
    requires reused ==> forall j :: 2 <= j < i ==> !equal(dest[VersionedName(k, j)], source[k])
    requires !reused ==> newName !in used && newName !in source && dest.Keys <= used
    requires !reused ==> forall j :: 2 <= j < i ==> VersionedName(k, j) in used || VersionedName(k, j) in source
    requires !reused ==> forall j :: 2 <= j < i && InDestUpTo(k, dest, j + 1) ==> !equal(dest[VersionedName(k, j)], source[k])
    ensures var renames' := renames[k := newName];
      forall a :: a in renames' ==> a in source && FirstFit(a, source[a], renames'[a], dest, source, equal, renames')
  {
    var renames' := renames[k := newName];
    NamedFirstFit(k, source[k], dest, source, equal, renames, used, newName, reused, i);
    forall a | a in renames' ensures a in source && FirstFit(a, source[a], renames'[a], dest, source, equal, renames') {
      if a != k {
        FirstFitGrows(a, source[a], renames[a], dest, source, equal, renames, k, newName);
      }
    }
  }

  /** One round of the renaming loop keeps `used` made of `dest`'s keys and the fresh names given. */
  lemma UsedNamesStep<V>(used: set<string>, dest: map<string, V>, renames: map<string, string>, k: string,
                         newName: string, reused: bool)
    requires k !in renames && UsedNamesGiven(used, dest, renames)
    requires !reused ==> newName !in dest
    ensures UsedNamesGiven(if reused then used else used + {newName}, dest, renames[k := newName])
  {
    var renames' := renames[k := newName];
    var used' := if reused then used else used + {newName};
    forall n | n in used' ensures n in dest || exists b :: b in renames' && renames'[b] !in dest && renames'[b] == n {
      if n !in dest {
        if n in used {
          var b :| b in renames && renames[b] !in dest && renames[b] == n;
          assert b != k && b in renames' && renames'[b] == n;
        } else {
          assert k in renames' && renames'[k] == n;
        }
      }
    }
  }

  /**
   * The `DEFINITIONLOOP` / `PARAMETERLOOP` loop: every conflict is an error
   * when renaming is off, and is otherwise given the first name that fits. A
   * name that is not reused is given to no other key.
   */
  method ConflictRenames<V>(dest: map<string, V>, source: map<string, V>, rename: bool, equal: (V, V) -> bool)
    returns (r: Result<map<string, string>, string>)
    ensures r.Err? ==> !rename && IsConflict(dest, source, equal, r.error)
    ensures r.Err? <==> !rename && exists k :: IsConflict(dest, source, equal, k)
    ensures r.Ok? ==> IsRenaming(dest, source, equal, r.value)
  {
    var used := dest.Keys;
    var renames: map<string, string> := map[];
    var rest := source.Keys;
    while rest != {}
      invariant rest <= source.Keys && dest.Keys <= used
      invariant forall k :: k in renames <==> k in source && k !in rest && IsConflict(dest, source, equal, k)
      invariant !rename ==> forall k :: k in source && k !in rest ==> !IsConflict(dest, source, equal, k)
      invariant forall k :: k in renames ==> k in source && FirstFit(k, source[k], renames[k], dest, source, equal, renames)
      invariant forall k :: k in renames && renames[k] !in dest ==> renames[k] in used
      invariant UsedNamesGiven(used, dest, renames)
      invariant forall a, b :: a in renames && b in renames && a != b && renames[a] !in dest ==> renames[a] != renames[b]
      decreases |rest|
    {
      var k :| k in rest;
      rest := rest - {k};
      if k in dest && !equal(dest[k], source[k]) {
        if !rename {
          assert IsConflict(dest, source, equal, k);
          return Err(k);
        }
        var newName, reused, i := FindRename(k, source[k], dest, source, used, equal);
        RenameStep(k, dest, source, equal, renames, used, newName, reused, i);
        UsedNamesStep(used, dest, renames, k, newName, reused);
        renames := renames[k := newName];
        if !reused {
          used := used + {newName};
        }
      }
    }
    return Ok(renames);
  }

  /** When `k_v2` is a key of `dest` with an equal value, it is the name the search gives `k`. */
  lemma FirstFitReusesFirstEqual<V>(k: string, v: V, n: string, dest: map<string, V>, source: map<string, V>,
                                    equal: (V, V) -> bool, renames: map<string, string>)
    requires VersionedName(k, 2) in dest && equal(dest[VersionedName(k, 2)], v)
    requires FirstFit(k, v, n, dest, source, equal, renames)
    ensures n == VersionedName(k, 2)
  {
    var i :| 2 <= i && n == VersionedName(k, i)
      && (ReusedAt(k, v, dest, equal, i) || FreshAt(k, v, dest, source, equal, renames, i));
    assert 2 < i ==> InDestUpTo(k, dest, 3);
  }

  /** A key renamed to a name not reused from `dest` is the only key re-keyed to that name. */
  lemma FreshNameUnique<V>(dest: map<string, V>, source: map<string, V>, equal: (V, V) -> bool,
                           renames: map<string, string>, a: string, b: string)
    requires IsRenaming(dest, source, equal, renames)
    requires a in source && b in source && a != b && a in renames && renames[a] !in dest
    ensures NewName(renames, a) != NewName(renames, b)
  {
    assert FirstFit(a, source[a], renames[a], dest, source, equal, renames);
  }

  /** When no new name is reused from `dest`, re-keying `source` loses no entry. */
  lemma NoReuseNoCollision<V>(dest: map<string, V>, source: map<string, V>, equal: (V, V) -> bool,
                              renames: map<string, string>)
    requires IsRenaming(dest, source, equal, renames)
    requires forall k :: k in renames ==> renames[k] !in dest
    ensures NoCollision(source, renames)
  {
    forall a, b | a in source && b in source && a != b ensures NewName(renames, a) != NewName(renames, b) {
      if a in renames {
        FreshNameUnique(dest, source, equal, renames, a, b);
      } else if b in renames {
        FreshNameUnique(dest, source, equal, renames, b, a);
      }
    }
  }
}
