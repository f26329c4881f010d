/**
 * `usedDefinitionForSpec` and `FilterSpecByPathsWithoutSideEffects`: which
 * definitions a document's paths reach, and the path filter that drops the
 * definitions only the removed paths needed.
 *
 * A reference walk starts at the references of the paths. A reference
 * `#/definitions/n` to a definition of the document continues into that
 * definition, and `#/parameters/n` to a parameter of the document into that
 * parameter; each is followed once. `RefGraph` holds these steps, and the
 * walk meets the references `Reach.Closure` computes from the references of
 * the paths.
 */
module Filter {
  import opened Wrappers
  import opened OpenApi
  import opened References
  import opened Reach

  // ----- The references a walk meets -----

  /** A string that starts with `p` is `p` followed by the rest. */
  lemma PrefixSplit(p: string, y: string)
    requires p <= y
    ensures p + y[|p|..] == y
  {
  }

  /**
   * The references met by following `r` into a document with these
   * definitions and parameters, if `r` names one of them.
   */
  function Followed(defs: map<string, Schema>, params: map<string, Parameter>, r: string): (f: set<string>)
    ensures DefinitionPrefix <= r && r[|DefinitionPrefix|..] in defs ==>
      f == SchemaRefs(defs[r[|DefinitionPrefix|..]])
    ensures (!(DefinitionPrefix <= r && r[|DefinitionPrefix|..] in defs) && ParameterPrefix <= r
             && r[|ParameterPrefix|..] in params) ==> f == ParameterRefs(params[r[|ParameterPrefix|..]])
    ensures f != {} ==>
              (DefinitionPrefix <= r && r[|DefinitionPrefix|..] in defs)
              || (ParameterPrefix <= r && r[|ParameterPrefix|..] in params)
  {
    if DefinitionPrefix <= r && r[|DefinitionPrefix|..] in defs then
      SchemaRefs(defs[r[|DefinitionPrefix|..]])
    else if ParameterPrefix <= r && r[|ParameterPrefix|..] in params then
      ParameterRefs(params[r[|ParameterPrefix|..]])
    else {}
  }

  /** The graph of following: an edge from each definition or parameter reference to every reference of its target. */
  function RefGraph(defs: map<string, Schema>, params: map<string, Parameter>): (g: Graph)
    ensures forall r :: Succ(g, r) == Followed(defs, params, r)
  {
    var keys := (set n | n in defs :: DefinitionPrefix + n) + (set n | n in params :: ParameterPrefix + n);
    assert forall r :: Followed(defs, params, r) != {} ==> r in keys by {
      forall r | Followed(defs, params, r) != {} ensures r in keys {
        if DefinitionPrefix <= r && r[|DefinitionPrefix|..] in defs {
          PrefixSplit(DefinitionPrefix, r);
        } else {
          PrefixSplit(ParameterPrefix, r);
        }
      }
    }
    map r | r in keys :: Followed(defs, params, r)
  }

  function DocumentGraph(sw: Swagger): Graph
  {
    RefGraph(sw.definitions, sw.parameters)
  }

  /** The references a walk of `sw` meets: those of the paths and everything they lead to. */
  function ReferencedFrom(sw: Swagger): (c: set<string>)
    ensures PathsRefs(sw.paths) <= c
  {
    Closure(DocumentGraph(sw), PathsRefs(sw.paths))
  }

  /** The names that the definition references among `refs` point at. */
  function DefinitionNames(refs: set<string>): (names: set<string>)
    ensures forall n :: n in names <==> DefinitionPrefix + n in refs
  {
    var names := set r | r in refs && DefinitionPrefix <= r :: r[|DefinitionPrefix|..];
    forall n | DefinitionPrefix + n in refs ensures n in names {
      var r := DefinitionPrefix + n;
      assert DefinitionPrefix <= r && r[|DefinitionPrefix|..] == n;
    }
    forall n | n in names ensures DefinitionPrefix + n in refs {
      var r :| r in refs && DefinitionPrefix <= r && r[|DefinitionPrefix|..] == n;
      PrefixSplit(DefinitionPrefix, r);
    }
    names
  }

  /** `usedDefinitionForSpec`: the names of the definitions the references of `sw` lead to. */
  function UsedDefinitions(sw: Swagger): (used: set<string>)
    ensures forall n :: n in used <==> DefinitionPrefix + n in ReferencedFrom(sw)
  {
    DefinitionNames(ReferencedFrom(sw))
  }

  /** The definition `k` is at the end of a chain of references that starts in `paths`. */
  ghost predicate DefinitionReached(sw: Swagger, paths: Option<Paths>, k: string)
  {
    Reaches(DocumentGraph(sw), PathsRefs(paths), DefinitionPrefix + k)
  }

  /** A definition is used exactly when a chain of references from the paths reaches it. */
  lemma UsedDefinitionsAreReached(sw: Swagger, k: string)
    ensures k in UsedDefinitions(sw) <==> DefinitionReached(sw, sw.paths, k)
  {
    ClosureIsReachability(DocumentGraph(sw), PathsRefs(sw.paths), DefinitionPrefix + k);
  }

  /** `util.NewTrie(prefixes).HasPrefix(path)`: some keep prefix is a prefix of `path`. */
  predicate HasPrefix(prefixes: seq<string>, path: string)
  {
    exists p :: p in prefixes && p <= path
  }

  function KeptPaths(paths: map<string, PathItem>, prefixes: seq<string>): (kept: map<string, PathItem>)
    ensures forall path :: path in kept <==> path in paths && HasPrefix(prefixes, path)
    ensures forall path :: path in kept ==> kept[path] == paths[path]
  {
    map path | path in paths && HasPrefix(prefixes, path) :: paths[path]
  }

  /** The input with its paths narrowed to those with a keep prefix, and everything else as it was. */
  function WithKeptPaths(sp: Swagger, prefixes: seq<string>): Swagger
    requires sp.paths.Some?
  {
    sp.(paths := Some(Paths(KeptPaths(sp.paths.value.paths, prefixes), sp.paths.value.extensions)))
  }

  /**
   * `FilterSpecByPathsWithoutSideEffects`: keeps the paths with a keep
   * prefix, and drops every definition that the full document references
   * but the filtered one no longer does.
   */
  function FilterSpecByPathsWithoutSideEffects(sp: Swagger, keepPathPrefixes: seq<string>): (r: Swagger)
    ensures sp.paths.None? ==> r == sp
    ensures sp.paths.Some? ==> r.paths.Some? && r.paths.value.extensions == sp.paths.value.extensions
    ensures sp.paths.Some? ==> forall path ::
      path in r.paths.value.paths <==> path in sp.paths.value.paths && HasPrefix(keepPathPrefixes, path)
    ensures sp.paths.Some? ==> forall path :: path in r.paths.value.paths ==>
      r.paths.value.paths[path] == sp.paths.value.paths[path]
    ensures r.definitions.Keys <= sp.definitions.Keys
    ensures forall k :: k in r.definitions ==> r.definitions[k] == sp.definitions[k]
    ensures r.parameters == sp.parameters && r.responses == sp.responses && r.keywords == sp.keywords
  {
    if sp.paths.None? then sp
    else
      var initialUsed := UsedDefinitions(sp);
      var ret := WithKeptPaths(sp, keepPathPrefixes);
      ret.(definitions := KeptDefinitions(sp.definitions, UsedDefinitions(ret), initialUsed))
  }

  /** The definitions in `used`, or not in `initialUsed`. */
  function KeptDefinitions(defs: map<string, Schema>, used: set<string>, initialUsed: set<string>)
    : (kept: map<string, Schema>)
    ensures forall k :: k in kept <==> k in defs && (k in used || k !in initialUsed)
    ensures forall k :: k in kept ==> kept[k] == defs[k]
  {
    map k | k in defs && (k in used || k !in initialUsed) :: defs[k]
  }

  // ----- What the filter keeps -----

  /**
   * A definition survives the filter exactly when the kept paths still reach
   * it, or the paths of the input did not reach it either.
   */
  lemma FilterDropsExactlyTheUnreachable(sp: Swagger, keep: seq<string>, k: string)
    requires sp.paths.Some?
    ensures var r := FilterSpecByPathsWithoutSideEffects(sp, keep);
      k in r.definitions <==>
        k in sp.definitions && (DefinitionReached(sp, r.paths, k) || !DefinitionReached(sp, sp.paths, k))
  {
    var ret := WithKeptPaths(sp, keep);
    UsedDefinitionsAreReached(sp, k);
    UsedDefinitionsAreReached(ret, k);
  }

  /**
   * The filtered document is self-contained: from its paths, its own
   * definitions reach exactly the references that the definitions of the
   * input would.
   */
  lemma FilterKeepsReachability(sp: Swagger, keep: seq<string>, x: string)
    requires sp.paths.Some?
    ensures var r := FilterSpecByPathsWithoutSideEffects(sp, keep);
      Reaches(DocumentGraph(r), PathsRefs(r.paths), x) <==> Reaches(DocumentGraph(sp), PathsRefs(r.paths), x)
  {
    var r := FilterSpecByPathsWithoutSideEffects(sp, keep);
    var g := DocumentGraph(sp);
    var seeds := PathsRefs(r.paths);
    forall y | Reaches(g, seeds, y) ensures Succ(g, y) == Succ(DocumentGraph(r), y) {
      FilterKeepsSuccessors(sp, keep, y);
    }
    ReachesAgree(g, DocumentGraph(r), seeds, x);
  }

  lemma FilterKeepsSuccessors(sp: Swagger, keep: seq<string>, y: string)
    requires sp.paths.Some?
    requires Reaches(DocumentGraph(sp), PathsRefs(FilterSpecByPathsWithoutSideEffects(sp, keep).paths), y)
    ensures var r := FilterSpecByPathsWithoutSideEffects(sp, keep);
      Succ(DocumentGraph(sp), y) == Succ(DocumentGraph(r), y)
  {
    var r := FilterSpecByPathsWithoutSideEffects(sp, keep);
    var ret := WithKeptPaths(sp, keep);
    if DefinitionPrefix <= y && y[|DefinitionPrefix|..] in sp.definitions {
      var n := y[|DefinitionPrefix|..];
      PrefixSplit(DefinitionPrefix, y);
      UsedDefinitionsAreReached(ret, n);
      assert n in r.definitions;
    }
    SubmapSuccessors(sp.definitions, r.definitions, sp.parameters, y);
  }

  /**
   * Following `y` is the same in a document with fewer definitions, as long
   * as the definition `y` names, if any, is still there.
   */
  lemma SubmapSuccessors(defs: map<string, Schema>, kept: map<string, Schema>, params: map<string, Parameter>, y: string)
    requires forall k :: k in kept ==> k in defs && kept[k] == defs[k]
    requires DefinitionPrefix <= y && y[|DefinitionPrefix|..] in defs ==> y[|DefinitionPrefix|..] in kept
    ensures Succ(RefGraph(defs, params), y) == Succ(RefGraph(kept, params), y)
  {
    if DefinitionPrefix <= y && y[|DefinitionPrefix|..] in defs {
      var n := y[|DefinitionPrefix|..];
      assert kept[n] == defs[n];
      assert Followed(defs, params, y) == SchemaRefs(defs[n]);
      assert Followed(kept, params, y) == SchemaRefs(kept[n]);
    }
  }

  /** No definition the filtered document reaches is missing from it, unless the input lacked it too. */
  lemma FilterLeavesNoDanglingReference(sp: Swagger, keep: seq<string>, k: string)
    requires sp.paths.Some?
    ensures var r := FilterSpecByPathsWithoutSideEffects(sp, keep);
      k in sp.definitions && DefinitionReached(r, r.paths, k) ==> k in r.definitions
  {
    var r := FilterSpecByPathsWithoutSideEffects(sp, keep);
    if k in sp.definitions && DefinitionReached(r, r.paths, k) {
      FilterKeepsReachability(sp, keep, DefinitionPrefix + k);
      FilterDropsExactlyTheUnreachable(sp, keep, k);
    }
  }

  /** Filtering twice with the same prefixes is filtering once. */
  lemma FilterIdempotent(sp: Swagger, keep: seq<string>)
    ensures var r := FilterSpecByPathsWithoutSideEffects(sp, keep);
      FilterSpecByPathsWithoutSideEffects(r, keep) == r
  {
    var r := FilterSpecByPathsWithoutSideEffects(sp, keep);
    if sp.paths.Some? {
      KeptPathsIdempotent(sp.paths.value.paths, keep);
      assert WithKeptPaths(r, keep) == r;
      KeptDefinitionsAll(r.definitions, UsedDefinitions(r));
    }
  }

  lemma KeptPathsIdempotent(paths: map<string, PathItem>, keep: seq<string>)
    ensures KeptPaths(KeptPaths(paths, keep), keep) == KeptPaths(paths, keep)
  {
  }

  lemma KeptDefinitionsAll(defs: map<string, Schema>, used: set<string>)
    ensures KeptDefinitions(defs, used, used) == defs
  {
  }

  lemma PathsRefsMonotone(paths: map<string, PathItem>, paths': map<string, PathItem>, e: map<string, Json>, e': map<string, Json>)
    requires forall p :: p in paths ==> p in paths' && paths'[p] == paths[p]
    ensures PathsRefs(Some(Paths(paths, e))) <= PathsRefs(Some(Paths(paths', e')))
  {
    forall x | x in PathsRefs(Some(Paths(paths, e))) ensures x in PathsRefs(Some(Paths(paths', e'))) {
      var p :| p in paths && x in PathItemRefs(paths[p]);
      assert PathItemRefs(paths'[p]) <= PathsRefs(Some(Paths(paths', e')));
    }
  }

  /** Keeping more prefixes keeps more paths and more definitions. */
  lemma FilterMonotone(sp: Swagger, keep: seq<string>, keep': seq<string>)
    requires forall p :: p in keep ==> p in keep'
    ensures var r := FilterSpecByPathsWithoutSideEffects(sp, keep);
      var r' := FilterSpecByPathsWithoutSideEffects(sp, keep');
      r.definitions.Keys <= r'.definitions.Keys
      && (sp.paths.Some? ==> r.paths.value.paths.Keys <= r'.paths.value.paths.Keys)
  {
    if sp.paths.Some? {
      FilterMonotonePaths(sp, keep, keep');
      forall k | k in FilterSpecByPathsWithoutSideEffects(sp, keep).definitions
        ensures k in FilterSpecByPathsWithoutSideEffects(sp, keep').definitions
      {
        FilterMonotoneAt(sp, keep, keep', k);
      }
    }
  }

  lemma FilterMonotonePaths(sp: Swagger, keep: seq<string>, keep': seq<string>)
    requires sp.paths.Some?
    requires forall p :: p in keep ==> p in keep'
    ensures var r := FilterSpecByPathsWithoutSideEffects(sp, keep);
      var r' := FilterSpecByPathsWithoutSideEffects(sp, keep');
      r.paths.value.paths.Keys <= r'.paths.value.paths.Keys && PathsRefs(r.paths) <= PathsRefs(r'.paths)
  {
    var r := FilterSpecByPathsWithoutSideEffects(sp, keep);
    var r' := FilterSpecByPathsWithoutSideEffects(sp, keep');
    PathsRefsMonotone(r.paths.value.paths, r'.paths.value.paths, r.paths.value.extensions, r'.paths.value.extensions);
  }

  lemma FilterMonotoneAt(sp: Swagger, keep: seq<string>, keep': seq<string>, k: string)
    requires sp.paths.Some?
    requires PathsRefs(FilterSpecByPathsWithoutSideEffects(sp, keep).paths)
      <= PathsRefs(FilterSpecByPathsWithoutSideEffects(sp, keep').paths)
    requires k in FilterSpecByPathsWithoutSideEffects(sp, keep).definitions
    ensures k in FilterSpecByPathsWithoutSideEffects(sp, keep').definitions
  {
    var r := FilterSpecByPathsWithoutSideEffects(sp, keep);
    var r' := FilterSpecByPathsWithoutSideEffects(sp, keep');
    FilterDropsExactlyTheUnreachable(sp, keep, k);
    FilterDropsExactlyTheUnreachable(sp, keep', k);
    if DefinitionReached(sp, r.paths, k) {
      ReachesMonotone(DocumentGraph(sp), PathsRefs(r.paths), DocumentGraph(sp), PathsRefs(r'.paths), DefinitionPrefix + k);
    }
  }
}
