/**
 * `mergeSpecs`: merging a source document into a destination document in
 * place. The steps are the path-conflict policy (keep only novel paths,
 * pruning the definitions that only the dropped paths used), the renaming
 * of conflicting definitions and parameters, and the copy of definitions
 * (merging GVK lists where both sides have a definition), parameters and
 * paths into the destination.
 */
module Merge {
  import opened Wrappers
  import opened OpenApi
  import opened Filter
  import opened Rename
  import opened Gvk
  import opened Conflicts

  /** The destination document, whose fields the merge updates in place. */
  class Document {
    var paths: Option<Paths>
    var definitions: map<string, Schema>
    var parameters: map<string, Parameter>
    var responses: map<string, Response>
    var keywords: map<string, Json>

    constructor (sw: Swagger)
      ensures Value() == sw
    {
      paths, definitions, parameters := sw.paths, sw.definitions, sw.parameters;
      responses, keywords := sw.responses, sw.keywords;
    }

    /** The document the fields hold. */
    function Value(): Swagger
      reads this
    {
      Swagger(paths, definitions, parameters, responses, keywords)
    }
  }

  /** The errors `mergeSpecs` returns; the source formats each as a message around the same datum. */
  datatype MergeError =
    | ModelNameConflict(name: string)
    | ParameterNameConflict(name: string)
    | GvkConflict(gvkError: GvkError)
    | DuplicatedPath(path: string)

  /** `reflect.DeepEqual` on two parameters. */
  function ParametersEqual(a: Parameter, b: Parameter): bool
  {
    a == b
  }

  /** The path map of an optional `Paths`: none for a nil `Paths`. */
  function PathMap(p: Option<Paths>): map<string, PathItem>
  {
    if p.Some? then p.value.paths else map[]
  }

  /** `dest.Paths = &spec.Paths{}` on a destination without paths. */
  function WithPaths(p: Option<Paths>): (r: Option<Paths>)
    ensures r.Some? && r.value.paths == PathMap(p)
    ensures p.Some? ==> r == p
  {
    if p.Some? then p else Some(Paths(map[], map[]))
  }

  // ----- The copy steps -----

  /** `after` is `before` with the entries of `source` whose keys it lacks. */
  ghost predicate Added<V>(before: map<string, V>, source: map<string, V>, after: map<string, V>)
  {
    after.Keys == before.Keys + source.Keys
    && (forall k :: k in before ==> after[k] == before[k])
    && forall k :: k in source && k !in before ==> after[k] == source[k]
  }

  /** What a copy loop that stopped early leaves: some of the entries `Added` would add. */
  ghost predicate PartlyAdded<V>(before: map<string, V>, source: map<string, V>, after: map<string, V>)
  {
    before.Keys <= after.Keys <= before.Keys + source.Keys
    && (forall k :: k in before ==> after[k] == before[k])
    && forall k :: k in after && k !in before ==> after[k] == source[k]
  }

  /**
   * `n` is the destination definition `d` once the GVK list of the source
   * definition `s` is merged into it: the source's list when `d` has none,
   * `d` itself when `s` has none, and otherwise `d` with the merged list
   * stored when the merge added to it.
   */
  ghost predicate GvksMergedInto(d: Schema, s: Schema, n: Schema)
  {
    if GvkKey !in d.extensions then
      n == if GvkKey in s.extensions then d.(extensions := StoreGvk(d.extensions, Some(s.extensions[GvkKey]))) else d
    else if GvkKey !in s.extensions then
      n == d
    else
      exists m :: ListsMerged(d.extensions[GvkKey], s.extensions[GvkKey], Ok(m))
        && n == if m.changed then d.(extensions := StoreGvk(d.extensions, m.merged)) else d
  }

  /** Merging the GVK lists of `d` and `s` fails with `e`. */
  predicate GvkFails(d: Schema, s: Schema, e: GvkError)
  {
    GvkKey in d.extensions && GvkKey in s.extensions && ListsMerged(d.extensions[GvkKey], s.extensions[GvkKey], Err(e))
  }

  /**
   * `after` is `before` with the entries of `source` whose keys it lacks,
   * and with the entry of each key both have related to the two by `rel`.
   */
  ghost predicate MergedBy<V>(before: map<string, V>, source: map<string, V>, after: map<string, V>,
                              rel: (V, V, V) -> bool)
  {
    after.Keys == before.Keys + source.Keys
    && (forall k :: k in before && k in source ==> rel(before[k], source[k], after[k]))
    && (forall k :: k in before && k !in source ==> after[k] == before[k])
    && forall k :: k in source && k !in before ==> after[k] == source[k]
  }

  /** What a merge loop that stopped early leaves: some of the entries `MergedBy` would store. */
  ghost predicate PartlyMergedBy<V>(before: map<string, V>, source: map<string, V>, after: map<string, V>,
                                    rel: (V, V, V) -> bool)
  {
    before.Keys <= after.Keys <= before.Keys + source.Keys
    && (forall k :: k in before ==> after[k] == before[k] || (k in source && rel(before[k], source[k], after[k])))
    && forall k :: k in after && k !in before ==> after[k] == source[k]
  }

  /**
   * The state of a merge loop over the keys of `source` with `rest` still to
   * visit: the visited entries are stored, the others are as they were.
   */
  ghost predicate MergeLoopState<V>(before: map<string, V>, source: map<string, V>, current: map<string, V>,
                                    rest: set<string>, rel: (V, V, V) -> bool)
  {
    rest <= source.Keys
    && (forall k :: k in rest ==> (k in current <==> k in before) && (k in before ==> current[k] == before[k]))
    && PartlyMergedBy(before, source, current, rel)
    && (forall k :: k in source && k !in rest ==> k in current)
    && (forall k :: k in before && k !in source ==> current[k] == before[k])
    && forall k :: k in before && k in source && k !in rest ==> rel(before[k], source[k], current[k])
  }

  lemma MergeLoopStart<V>(before: map<string, V>, source: map<string, V>, rel: (V, V, V) -> bool)
    ensures MergeLoopState(before, source, before, source.Keys, rel)
  {
  }

  /** Storing the visited entry `k` as `n` moves it from `rest` to the visited ones. */
  lemma MergeLoopStep<V>(before: map<string, V>, source: map<string, V>, current: map<string, V>,
                         rest: set<string>, rel: (V, V, V) -> bool, k: string, n: V)
    requires MergeLoopState(before, source, current, rest, rel) && k in rest
    requires k in before ==> rel(before[k], source[k], n)
    requires k !in before ==> n == source[k]
    ensures MergeLoopState(before, source, current[k := n], rest - {k}, rel)
  {
    var after, rest' := current[k := n], rest - {k};
    forall j | j in before
      ensures after[j] == before[j] || (j in source && rel(before[j], source[j], after[j]))
    {
      if j != k {
        assert after[j] == current[j];
      }
    }
    forall j | j in after && j !in before ensures after[j] == source[j] {
      if j != k {
        assert after[j] == current[j];
      }
    }
    forall j | j in rest' ensures (j in after <==> j in before) && (j in before ==> after[j] == before[j]) {
      if j in before {
        assert after[j] == current[j];
      }
    }
    forall j | j in before && j !in source ensures after[j] == before[j] {
      assert after[j] == current[j];
    }
    forall j | j in before && j in source && j !in rest' ensures rel(before[j], source[j], after[j]) {
      if j != k {
        assert after[j] == current[j];
      }
    }
  }

  /** A loop that visited every key has merged the maps. */
  lemma MergeLoopDone<V>(before: map<string, V>, source: map<string, V>, current: map<string, V>,
                         rel: (V, V, V) -> bool)
    requires MergeLoopState(before, source, current, {}, rel)
    ensures MergedBy(before, source, current, rel)
  {
  }

  /** The definitions after the copy: the destination's, GVK-merged where both have a key, and the source's new ones. */
  ghost predicate DefinitionsMerged(before: map<string, Schema>, source: map<string, Schema>, after: map<string, Schema>)
  {
    MergedBy(before, source, after, GvksMergedInto)
  }

  /** What the definition copy leaves when it stops at a GVK error. */
  ghost predicate DefinitionsPartlyMerged(before: map<string, Schema>, source: map<string, Schema>,
                                          after: map<string, Schema>)
  {
    PartlyMergedBy(before, source, after, GvksMergedInto)
  }

  /** The outcome of `MergedGvks` on two definitions, stored as the copy step stores it. */
  lemma MergedGvksInto(d: Schema, s: Schema, m: GvkMerge)
    requires GvkKey !in d.extensions ==> m == GvkMerge(Lookup(s.extensions, GvkKey), GvkKey in s.extensions)
    requires GvkKey in d.extensions && GvkKey !in s.extensions ==> m == GvkMerge(Some(d.extensions[GvkKey]), false)
    requires GvkKey in d.extensions && GvkKey in s.extensions ==>
      ListsMerged(d.extensions[GvkKey], s.extensions[GvkKey], Ok(m))
    ensures GvksMergedInto(d, s, if m.changed then d.(extensions := StoreGvk(d.extensions, m.merged)) else d)
  {
  }

  /** A GVK merge changes nothing of a definition but its GVK list, which it keeps when either side has one. */
  lemma GvksMergedIntoKeeps(d: Schema, s: Schema, n: Schema)
    requires GvksMergedInto(d, s, n)
    ensures EqualModuloGvk(d, n)
    ensures GvkKey in n.extensions <==> GvkKey in d.extensions || GvkKey in s.extensions
  {
    if GvkKey !in d.extensions {
      if GvkKey in s.extensions {
        StoreGvkKeepsDefinition(d, Some(s.extensions[GvkKey]));
      }
    } else if GvkKey in s.extensions {
      var m :| ListsMerged(d.extensions[GvkKey], s.extensions[GvkKey], Ok(m))
        && n == if m.changed then d.(extensions := StoreGvk(d.extensions, m.merged)) else d;
      if m.changed {
        StoreGvkKeepsDefinition(d, m.merged);
      }
    }
  }

  /** After the definition copy every destination definition is still there, equal modulo its GVK list. */
  lemma MergedDefinitionsKeepOld(before: map<string, Schema>, source: map<string, Schema>, after: map<string, Schema>, k: string)
    requires DefinitionsMerged(before, source, after) && k in before
    ensures k in after && EqualModuloGvk(before[k], after[k])
  {
    if k in source {
      GvksMergedIntoKeeps(before[k], source[k], after[k]);
    }
  }

  /**
   * One round of the definition copy loop: the definition `k` of the source
   * is copied when the destination lacks it, and otherwise its GVK list is
   * merged into the destination's.
   */
  method MergeDefinition(before: map<string, Schema>, source: map<string, Schema>, defs: map<string, Schema>, k: string)
    returns (n: Schema, err: Option<GvkError>)
    requires k in source && (k in defs <==> k in before) && (k in before ==> defs[k] == before[k])
    ensures err.None? && k !in before ==> n == source[k]
    ensures err.None? && k in before ==> GvksMergedInto(before[k], source[k], n)
    ensures err.Some? ==> k in before && GvkFails(before[k], source[k], err.value)
  {
    var v := source[k];
    if k !in defs {
      return v, None;
    }
    var existing := defs[k];
    var r := MergedGvks(existing, v);
    if r.Err? {
      return existing, Some(r.error);
    }
    MergedGvksInto(existing, v, r.value);
    n := existing;
    if r.value.changed {
      n := existing.(extensions := StoreGvk(existing.extensions, r.value.merged));
    }
    return n, None;
  }

  /**
   * The definition copy loop: a definition new to the destination is
   * copied, and for one it has, the GVK lists are merged and stored back when
   * they changed. A GVK error stops the loop with what it copied so far.
   */
  method MergeDefinitionMaps(before: map<string, Schema>, source: map<string, Schema>)
    returns (defs: map<string, Schema>, err: Option<GvkError>)
    ensures err.None? ==> DefinitionsMerged(before, source, defs)
    ensures err.Some? ==> DefinitionsPartlyMerged(before, source, defs)
    ensures err.Some? ==> exists k :: k in before && k in source && GvkFails(before[k], source[k], err.value)
  {
    defs := before;
    var rest := source.Keys;
    MergeLoopStart(before, source, GvksMergedInto);
    while rest != {}
      invariant MergeLoopState(before, source, defs, rest, GvksMergedInto)
      decreases |rest|
    {
      var k :| k in rest;
      var n, e := MergeDefinition(before, source, defs, k);
      if e.Some? {
        return defs, e;
      }
      MergeLoopStep(before, source, defs, rest, GvksMergedInto, k, n);
      defs, rest := defs[k := n], rest - {k};
    }
    MergeLoopDone(before, source, defs, GvksMergedInto);
    return defs, None;
  }

  /** The definition copy, into the destination document. */
  method CopyDefinitions(dest: Document, source: map<string, Schema>) returns (err: Option<GvkError>)
    modifies dest
    ensures dest.paths == old(dest.paths) && dest.parameters == old(dest.parameters)
    ensures dest.responses == old(dest.responses) && dest.keywords == old(dest.keywords)
    ensures err.None? ==> DefinitionsMerged(old(dest.definitions), source, dest.definitions)
    ensures err.Some? ==> DefinitionsPartlyMerged(old(dest.definitions), source, dest.definitions)
    ensures err.Some? ==> exists k :: k in old(dest.definitions) && k in source && GvkFails(old(dest.definitions)[k], source[k], err.value)
  {
    var defs;
    defs, err := MergeDefinitionMaps(dest.definitions, source);
    dest.definitions := defs;
  }

  /** The parameter copy loop: a parameter new to the destination is copied, one it has is left as it is. */
  method AddParameters(before: map<string, Parameter>, source: map<string, Parameter>)
    returns (params: map<string, Parameter>)
    ensures Added(before, source, params)
  {
    params := before;
    var rest := source.Keys;
    while rest != {}
      invariant rest <= source.Keys
      invariant forall k :: k in rest ==> (k in params <==> k in before)
      invariant PartlyAdded(before, source, params)
      invariant forall k :: k in source && k !in rest ==> k in params
      decreases |rest|
    {
      var k :| k in rest;
      rest := rest - {k};
      if k !in params {
        params := params[k := source[k]];
      }
    }
  }

  /** The parameter copy, into the destination document. */
  method CopyParameters(dest: Document, source: map<string, Parameter>)
    modifies dest
    ensures dest.paths == old(dest.paths) && dest.definitions == old(dest.definitions)
    ensures dest.responses == old(dest.responses) && dest.keywords == old(dest.keywords)
    ensures Added(old(dest.parameters), source, dest.parameters)
  {
    dest.parameters := AddParameters(dest.parameters, source);
  }

  /**
   * The path copy check as written: it fails on a source path the
   * destination already has, whatever `ignorePathConflicts` says.
   */
  predicate PathCopyFails(destPaths: map<string, PathItem>, sourcePaths: map<string, PathItem>)
  {
    exists p :: p in sourcePaths && p in destPaths
  }

  /** Some source path is not in the destination. */
  predicate HasNovelPath(destPaths: map<string, PathItem>, sourcePaths: map<string, PathItem>)
  {
    exists p :: p in sourcePaths && p !in destPaths
  }

  /**
   * The path copy loop. A path the destination already has is an error,
   * unless `ignorePathConflicts` is set: then the destination's path is kept.
   */
  method AddPaths(before: map<string, PathItem>, source: map<string, PathItem>, ignorePathConflicts: bool)
    returns (paths: map<string, PathItem>, err: Option<string>)
    ensures err.None? ==> Added(before, source, paths)
    ensures err.Some? ==> PartlyAdded(before, source, paths)
    ensures err.Some? ==> !ignorePathConflicts && err.value in source && err.value in before
    ensures !ignorePathConflicts && PathCopyFails(before, source) ==> err.Some?
  {
    paths := before;
    var rest := source.Keys;
    while rest != {}
      invariant rest <= source.Keys
      invariant forall p :: p in rest ==> (p in paths <==> p in before)
      invariant PartlyAdded(before, source, paths)
      invariant forall p :: p in source && p !in rest ==> p in paths
      invariant !ignorePathConflicts ==> forall p :: p in source && p !in rest ==> p !in before
      decreases |rest|
    {
      var p :| p in rest;
      rest := rest - {p};
      if p in paths {
        if !ignorePathConflicts {
          return paths, Some(p);
        }
      } else {
        paths := paths[p := source[p]];
      }
    }
    return paths, None;
  }

  /** The path copy, into the destination document. */
  method CopyPaths(dest: Document, source: map<string, PathItem>, ignorePathConflicts: bool) returns (err: Option<string>)
    requires dest.paths.Some?
    modifies dest
    ensures dest.definitions == old(dest.definitions) && dest.parameters == old(dest.parameters)
    ensures dest.responses == old(dest.responses) && dest.keywords == old(dest.keywords)
    ensures dest.paths.Some? && dest.paths.value.extensions == old(dest.paths.value.extensions)
    ensures err.None? ==> Added(old(dest.paths.value.paths), source, dest.paths.value.paths)
    ensures err.Some? ==> PartlyAdded(old(dest.paths.value.paths), source, dest.paths.value.paths)
    ensures err.Some? ==> !ignorePathConflicts && err.value in source && err.value in old(dest.paths.value.paths)
    ensures !ignorePathConflicts && PathCopyFails(old(dest.paths.value.paths), source) ==> err.Some?
  {
    var paths;
    paths, err := AddPaths(dest.paths.value.paths, source, ignorePathConflicts);
    dest.paths := Some(dest.paths.value.(paths := paths));
  }

  // ----- The path-conflict policy -----

  /**
   * The source to merge. Under `ignorePathConflicts` it is narrowed to the
   * paths the destination lacks, and nothing is merged when there are none.
   */
  method SourceToMerge(destPaths: map<string, PathItem>, source: Swagger, ignorePathConflicts: bool)
    returns (proceed: bool, src: Swagger, keepPaths: seq<string>)
    requires source.paths.Some?
    ensures proceed <==> !ignorePathConflicts || HasNovelPath(destPaths, source.paths.value.paths)
    ensures ignorePathConflicts ==> forall p :: p in keepPaths <==> p in source.paths.value.paths && p !in destPaths
    ensures proceed ==> src == if ignorePathConflicts && PathCopyFails(destPaths, source.paths.value.paths)
      then FilterSpecByPathsWithoutSideEffects(source, keepPaths) else source
    ensures proceed ==> src.paths.Some?
  {
    src, keepPaths := source, [];
    if !ignorePathConflicts {
      return true, src, keepPaths;
    }
    var hasConflictingPath;
    keepPaths, hasConflictingPath := NovelPaths(source.paths.value.paths, destPaths);
    if |keepPaths| == 0 {
      return false, src, keepPaths;
    }
    assert keepPaths[0] in keepPaths;
    if hasConflictingPath {
      src := FilterSpecByPathsWithoutSideEffects(source, keepPaths);
    }
    return true, src, keepPaths;
  }

  /** Every novel path has itself as a keep prefix, so a path filter to the novel paths keeps them all. */
  lemma KeptPathsCoverNovel(destPaths: map<string, PathItem>, sourcePaths: map<string, PathItem>,
                            keepPaths: seq<string>, kept: map<string, PathItem>)
    requires forall p :: p in keepPaths <==> p in sourcePaths && p !in destPaths
    requires forall p :: p in kept <==> p in sourcePaths && HasPrefix(keepPaths, p)
    ensures destPaths.Keys + kept.Keys == destPaths.Keys + sourcePaths.Keys
  {
    forall p | p in sourcePaths && p !in destPaths ensures p in kept {
      assert p in keepPaths && p <= p;
    }
  }

  /** After the path filter, the destination and the source paths together are what they were. */
  lemma FilteredPathsCoverNovel(destPaths: map<string, PathItem>, source: Swagger, keepPaths: seq<string>)
    requires source.paths.Some?
    requires forall p :: p in keepPaths <==> p in source.paths.value.paths && p !in destPaths
    ensures var f := FilterSpecByPathsWithoutSideEffects(source, keepPaths);
      f.paths.Some? && destPaths.Keys + f.paths.value.paths.Keys == destPaths.Keys + source.paths.value.paths.Keys
  {
    var f := FilterSpecByPathsWithoutSideEffects(source, keepPaths);
    KeptPathsCoverNovel(destPaths, source.paths.value.paths, keepPaths, f.paths.value.paths);
  }

  // ----- The merge -----

  /**
   * The intermediate values of a merge: the novel paths and the filtered
   * source, the order and renames of the definitions and the source once
   * they are renamed, and the same for the parameters.
   */
  datatype MergeTrace = MergeTrace(
    keepPaths: seq<string>,
    filtered: Swagger,
    defOrder: seq<string>,
    defRenames: map<string, string>,
    afterDefinitions: Swagger,
    paramOrder: seq<string>,
    paramRenames: map<string, string>,
    renamed: Swagger)

  /** The merge goes past the path-conflict policy: the source has paths, and some novel one when conflicts are ignored. */
  ghost predicate Proceeds(destPaths: map<string, PathItem>, source: Swagger, ignorePathConflicts: bool)
  {
    source.paths.Some? && (!ignorePathConflicts || HasNovelPath(destPaths, source.paths.value.paths))
  }

  /** `t` records the path filter: the novel paths, and the source narrowed to them when some path conflicts. */
  ghost predicate FiltersAs(destPaths: map<string, PathItem>, source: Swagger, ignorePathConflicts: bool, t: MergeTrace)
    requires source.paths.Some?
  {
    (ignorePathConflicts ==> forall p :: p in t.keepPaths <==> p in source.paths.value.paths && p !in destPaths)
    && t.filtered == if ignorePathConflicts && PathCopyFails(destPaths, source.paths.value.paths)
      then FilterSpecByPathsWithoutSideEffects(source, t.keepPaths) else source
  }

  /** `t` records the definition renaming: an order of the definitions, conflict renames, and the renamed source. */
  ghost predicate RenamesDefinitionsAs(destDefinitions: map<string, Schema>, t: MergeTrace)
  {
    IsRenaming(destDefinitions, t.filtered.definitions, EqualModuloGvk, t.defRenames)
    && IsOrderOf(t.defOrder, t.filtered.definitions)
    && t.afterDefinitions == RenameDefinitions(t.filtered, t.defRenames, t.defOrder)
  }

  /** `t` records the parameter renaming, on the source whose definitions are renamed. */
  ghost predicate RenamesParametersAs(destParameters: map<string, Parameter>, t: MergeTrace)
  {
    IsRenaming(destParameters, t.afterDefinitions.parameters, ParametersEqual, t.paramRenames)
    && IsOrderOf(t.paramOrder, t.afterDefinitions.parameters)
    && t.renamed == RenameParameters(t.afterDefinitions, t.paramRenames, t.paramOrder)
  }

  /** The error is a model or parameter name conflict, reported before anything is copied. */
  predicate IsNameConflict(err: Option<MergeError>)
  {
    err.Some? && (err.value.ModelNameConflict? || err.value.ParameterNameConflict?)
  }

  /** The error is a model name conflict. */
  predicate IsModelConflict(err: Option<MergeError>)
  {
    err.Some? && err.value.ModelNameConflict?
  }

  /**
   * The renaming phase on the filtered source `src`: a model name conflict
   * is reported exactly when renaming is off and some definition conflicts,
   * and otherwise the definitions are renamed; then the same for the
   * parameters of the result. `err` is the name conflict reported, if any.
   */
  ghost predicate ResolvedAs(destDefinitions: map<string, Schema>, destParameters: map<string, Parameter>, src: Swagger,
                             renameModelConflicts: bool, renameParameterConflicts: bool, err: Option<MergeError>,
                             t: MergeTrace)
  {
    t.filtered == src
    && (err.Some? ==> IsNameConflict(err))
    && (IsModelConflict(err) ==>
      !renameModelConflicts && IsConflict(destDefinitions, src.definitions, EqualModuloGvk, err.value.name))
    && ((!renameModelConflicts && exists k :: IsConflict(destDefinitions, src.definitions, EqualModuloGvk, k)) ==>
      IsModelConflict(err))
    && (!IsModelConflict(err) ==> RenamesDefinitionsAs(destDefinitions, t))
    && (err.Some? && err.value.ParameterNameConflict? ==>
      !renameParameterConflicts && IsConflict(destParameters, t.afterDefinitions.parameters, ParametersEqual, err.value.name))
    && ((!IsModelConflict(err) && !renameParameterConflicts
      && exists k :: IsConflict(destParameters, t.afterDefinitions.parameters, ParametersEqual, k)) ==>
      err.Some? && err.value.ParameterNameConflict?)
    && (err.None? ==> RenamesParametersAs(destParameters, t))
  }

  /**
   * The renaming loops and renames of `mergeSpecs`, on the filtered source
   * `src`: conflicting definitions are renamed (or reported), then
   * conflicting parameters of the result.
   */
  method ResolveConflicts(destDefinitions: map<string, Schema>, destParameters: map<string, Parameter>, src: Swagger,
                          renameModelConflicts: bool, renameParameterConflicts: bool, ghost t0: MergeTrace)
    returns (err: Option<MergeError>, renamed: Swagger, ghost t: MergeTrace)
    requires src.paths.Some?
    ensures t.keepPaths == t0.keepPaths
    ensures ResolvedAs(destDefinitions, destParameters, src, renameModelConflicts, renameParameterConflicts, err, t)
    ensures err.None? ==>
      renamed == t.renamed && renamed.paths.Some? && renamed.paths.value.paths.Keys == src.paths.value.paths.Keys
  {
    t := t0.(filtered := src);
    renamed := src;
    var defRenames := ConflictRenames(destDefinitions, src.definitions, renameModelConflicts, EqualModuloGvk);
    if defRenames.Err? {
      err := Some(ModelNameConflict(defRenames.error));
      ResolvedByModelConflict(destDefinitions, destParameters, src, renameModelConflicts, renameParameterConflicts,
                              err, t);
      return err, renamed, t;
    }
    var defOrder := KeyOrder(src.definitions);
    renamed := RenameDefinitions(src, defRenames.value, defOrder);
    t := t.(defOrder := defOrder, defRenames := defRenames.value, afterDefinitions := renamed);
    assert RenamesDefinitionsAs(destDefinitions, t);

    var paramRenames := ConflictRenames(destParameters, renamed.parameters, renameParameterConflicts, ParametersEqual);
    if paramRenames.Err? {
      err := Some(ParameterNameConflict(paramRenames.error));
      ResolvedByParameterConflict(destDefinitions, destParameters, src, renameModelConflicts,
                                  renameParameterConflicts, err, t);
      return err, renamed, t;
    }
    var paramOrder := KeyOrder(renamed.parameters);
    renamed := RenameParameters(renamed, paramRenames.value, paramOrder);
    t := t.(paramOrder := paramOrder, paramRenames := paramRenames.value, renamed := renamed);
    assert RenamesParametersAs(destParameters, t);
    ResolvedByRenaming(destDefinitions, destParameters, src, renameModelConflicts, renameParameterConflicts, t);
    return None, renamed, t;
  }

  /** The renaming phase stopped by a model name conflict. */
  lemma ResolvedByModelConflict(destDefinitions: map<string, Schema>, destParameters: map<string, Parameter>,
                                src: Swagger, renameModelConflicts: bool, renameParameterConflicts: bool,
                                err: Option<MergeError>, t: MergeTrace)
    requires t.filtered == src && IsModelConflict(err)
    requires !renameModelConflicts && IsConflict(destDefinitions, src.definitions, EqualModuloGvk, err.value.name)
    ensures ResolvedAs(destDefinitions, destParameters, src, renameModelConflicts, renameParameterConflicts, err, t)
  {
  }

  /** The renaming phase stopped by a parameter name conflict, after the definitions were renamed. */
  lemma ResolvedByParameterConflict(destDefinitions: map<string, Schema>, destParameters: map<string, Parameter>,
                                    src: Swagger, renameModelConflicts: bool, renameParameterConflicts: bool,
                                    err: Option<MergeError>, t: MergeTrace)
    requires t.filtered == src && RenamesDefinitionsAs(destDefinitions, t)
    requires !renameModelConflicts ==> forall k :: !IsConflict(destDefinitions, src.definitions, EqualModuloGvk, k)
    requires err.Some? && err.value.ParameterNameConflict?
    requires !renameParameterConflicts
      && IsConflict(destParameters, t.afterDefinitions.parameters, ParametersEqual, err.value.name)
    ensures ResolvedAs(destDefinitions, destParameters, src, renameModelConflicts, renameParameterConflicts, err, t)
  {
  }

  /** The renaming phase that renames both maps. */
  lemma ResolvedByRenaming(destDefinitions: map<string, Schema>, destParameters: map<string, Parameter>,
                           src: Swagger, renameModelConflicts: bool, renameParameterConflicts: bool, t: MergeTrace)
    requires t.filtered == src && RenamesDefinitionsAs(destDefinitions, t) && RenamesParametersAs(destParameters, t)
    requires !renameModelConflicts ==> forall k :: !IsConflict(destDefinitions, src.definitions, EqualModuloGvk, k)
    requires !renameParameterConflicts ==>
      forall k :: !IsConflict(destParameters, t.afterDefinitions.parameters, ParametersEqual, k)
    ensures ResolvedAs(destDefinitions, destParameters, src, renameModelConflicts, renameParameterConflicts, None, t)
  {
  }

  /**
   * The copy phase from `before` to `after`: a GVK error stops it in the
   * definition copy, a duplicated path (only when path conflicts are not
   * ignored) in the path copy, and a success adds every entry of `renamed`.
   */
  ghost predicate CopiedAs(before: Swagger, renamed: Swagger, ignorePathConflicts: bool, err: Option<MergeError>,
                           after: Swagger)
  {
    before.paths.Some? && renamed.paths.Some?
    && after.responses == before.responses && after.keywords == before.keywords
    && after.paths.Some? && after.paths.value.extensions == before.paths.value.extensions
    && (err.Some? ==> err.value.GvkConflict? || err.value.DuplicatedPath?)
    && (err.Some? && err.value.GvkConflict? ==>
      (exists k :: k in before.definitions && k in renamed.definitions
        && GvkFails(before.definitions[k], renamed.definitions[k], err.value.gvkError))
      && DefinitionsPartlyMerged(before.definitions, renamed.definitions, after.definitions)
      && after.parameters == before.parameters && after.paths == before.paths)
    && (!(err.Some? && err.value.GvkConflict?) ==>
      DefinitionsMerged(before.definitions, renamed.definitions, after.definitions)
      && Added(before.parameters, renamed.parameters, after.parameters))
    && (err.Some? && err.value.DuplicatedPath? ==>
      !ignorePathConflicts && err.value.path in renamed.paths.value.paths && err.value.path in before.paths.value.paths
      && PartlyAdded(before.paths.value.paths, renamed.paths.value.paths, after.paths.value.paths))
    && ((!ignorePathConflicts && !(err.Some? && err.value.GvkConflict?)
      && PathCopyFails(before.paths.value.paths, renamed.paths.value.paths)) ==> err.Some?)
    && (err.None? ==> Added(before.paths.value.paths, renamed.paths.value.paths, after.paths.value.paths))
  }

  /** A copy phase that succeeds leaves the destination with the paths of both documents. */
  lemma CopiedPathKeys(before: Swagger, renamed: Swagger, ignorePathConflicts: bool, after: Swagger)
    requires CopiedAs(before, renamed, ignorePathConflicts, None, after)
    ensures after.paths.value.paths.Keys == before.paths.value.paths.Keys + renamed.paths.value.paths.Keys
  {
  }

  /** The three copy loops of `mergeSpecs`: definitions, parameters and paths, into the destination. */
  method CopyAll(dest: Document, renamed: Swagger, ignorePathConflicts: bool) returns (err: Option<MergeError>)
    requires dest.paths.Some? && renamed.paths.Some?
    modifies dest
    ensures CopiedAs(old(dest.Value()), renamed, ignorePathConflicts, err, dest.Value())
  {
    var gvkErr := CopyDefinitions(dest, renamed.definitions);
    if gvkErr.Some? {
      return Some(GvkConflict(gvkErr.value));
    }
    CopyParameters(dest, renamed.parameters);
    var pathErr := CopyPaths(dest, renamed.paths.value.paths, ignorePathConflicts);
    if pathErr.Some? {
      return Some(DuplicatedPath(pathErr.value));
    }
    return None;
  }

  /**
   * The merge into a destination that has paths, from `prepared` to
   * `after`. Without a novel path under `ignorePathConflicts` nothing
   * changes. Otherwise the filtered source is renamed, a name conflict
   * changes nothing, and the renamed source is copied; on success the
   * destination holds every source path.
   */
  ghost predicate PreparedOutcome(prepared: Swagger, source: Swagger, renameModelConflicts: bool,
                                  renameParameterConflicts: bool, ignorePathConflicts: bool, err: Option<MergeError>,
                                  t: MergeTrace, after: Swagger)
  {
    prepared.paths.Some? && source.paths.Some?
    && if !Proceeds(prepared.paths.value.paths, source, ignorePathConflicts) then
      err.None? && after == prepared
    else
      FiltersAs(prepared.paths.value.paths, source, ignorePathConflicts, t)
      && ResolvedAs(prepared.definitions, prepared.parameters, t.filtered, renameModelConflicts, renameParameterConflicts,
                    if IsNameConflict(err) then err else None, t)
      && (IsNameConflict(err) ==> after == prepared)
      && (!IsNameConflict(err) ==> t.renamed.paths.Some? && CopiedAs(prepared, t.renamed, ignorePathConflicts, err, after))
      && (err.None? ==>
        after.paths.Some? && after.paths.value.paths.Keys == prepared.paths.value.paths.Keys + source.paths.value.paths.Keys)
  }

  /**
   * What `mergeSpecs` does to the destination, from `before` to `after`: a
   * source without paths changes nothing; otherwise a destination without
   * paths gets an empty `Paths`, and the merge goes on from there.
   */
  ghost predicate MergeOutcome(before: Swagger, source: Swagger, renameModelConflicts: bool,
                               renameParameterConflicts: bool, ignorePathConflicts: bool, err: Option<MergeError>,
                               t: MergeTrace, after: Swagger)
  {
    if source.paths.None? then err.None? && after == before
    else PreparedOutcome(before.(paths := WithPaths(before.paths)), source, renameModelConflicts,
                         renameParameterConflicts, ignorePathConflicts, err, t, after)
  }

  /** A copy phase never reports a name conflict. */
  lemma CopiedNoNameConflict(before: Swagger, renamed: Swagger, ignorePathConflicts: bool, err: Option<MergeError>,
                             after: Swagger)
    requires CopiedAs(before, renamed, ignorePathConflicts, err, after)
    ensures !IsNameConflict(err)
  {
  }

  /** The outcome of a merge that proceeds past renaming into the copy phase. */
  lemma PreparedByCopy(prepared: Swagger, source: Swagger, renameModelConflicts: bool, renameParameterConflicts: bool,
                       ignorePathConflicts: bool, err: Option<MergeError>, t: MergeTrace, after: Swagger)
    requires prepared.paths.Some? && source.paths.Some?
    requires Proceeds(prepared.paths.value.paths, source, ignorePathConflicts)
    requires FiltersAs(prepared.paths.value.paths, source, ignorePathConflicts, t)
    requires ResolvedAs(prepared.definitions, prepared.parameters, t.filtered, renameModelConflicts,
                        renameParameterConflicts, None, t)
    requires t.renamed.paths.Some?
    requires CopiedAs(prepared, t.renamed, ignorePathConflicts, err, after)
    requires err.None? ==>
      after.paths.Some? && after.paths.value.paths.Keys == prepared.paths.value.paths.Keys + source.paths.value.paths.Keys
    ensures PreparedOutcome(prepared, source, renameModelConflicts, renameParameterConflicts, ignorePathConflicts, err,
                            t, after)
  {
    CopiedNoNameConflict(prepared, t.renamed, ignorePathConflicts, err, after);
  }

  /** The outcome of a merge stopped by a name conflict. */
  lemma PreparedByNameConflict(prepared: Swagger, source: Swagger, renameModelConflicts: bool,
                               renameParameterConflicts: bool, ignorePathConflicts: bool, err: Option<MergeError>,
                               t: MergeTrace)
    requires prepared.paths.Some? && source.paths.Some?
    requires Proceeds(prepared.paths.value.paths, source, ignorePathConflicts)
    requires FiltersAs(prepared.paths.value.paths, source, ignorePathConflicts, t)
    requires ResolvedAs(prepared.definitions, prepared.parameters, t.filtered, renameModelConflicts,
                        renameParameterConflicts, err, t)
    requires err.Some?
    ensures PreparedOutcome(prepared, source, renameModelConflicts, renameParameterConflicts, ignorePathConflicts, err,
                            t, prepared)
  {
  }

  /** The merge from the point where both documents have paths. */
  method MergePrepared(dest: Document, source: Swagger, renameModelConflicts: bool, renameParameterConflicts: bool,
                       ignorePathConflicts: bool)
    returns (err: Option<MergeError>, ghost t: MergeTrace)
    requires dest.paths.Some? && source.paths.Some?
    modifies dest
    ensures PreparedOutcome(old(dest.Value()), source, renameModelConflicts, renameParameterConflicts,
                            ignorePathConflicts, err, t, dest.Value())
  {
    t := MergeTrace([], source, [], map[], source, [], map[], source);
    var proceed, src, keepPaths := SourceToMerge(dest.paths.value.paths, source, ignorePathConflicts);
    t := t.(keepPaths := keepPaths, filtered := src);
    if !proceed {
      return None, t;
    }
    if ignorePathConflicts && PathCopyFails(dest.paths.value.paths, source.paths.value.paths) {
      FilteredPathsCoverNovel(dest.paths.value.paths, source, keepPaths);
    }
    ghost var prepared := dest.Value();
    ghost var destPaths := dest.paths.value.paths;
    assert destPaths.Keys + src.paths.value.paths.Keys == destPaths.Keys + source.paths.value.paths.Keys;
    assert FiltersAs(destPaths, source, ignorePathConflicts, t);
    var renamed;
    err, renamed, t := ResolveConflicts(dest.definitions, dest.parameters, src, renameModelConflicts,
                                        renameParameterConflicts, t);
    if err.Some? {
      PreparedByNameConflict(prepared, source, renameModelConflicts, renameParameterConflicts, ignorePathConflicts,
                             err, t);
      return err, t;
    }
    err := CopyAll(dest, renamed, ignorePathConflicts);
    if err.None? {
      CopiedPathKeys(prepared, renamed, ignorePathConflicts, dest.Value());
    }
    PreparedByCopy(prepared, source, renameModelConflicts, renameParameterConflicts, ignorePathConflicts, err, t,
                   dest.Value());
  }

  /**
   * `mergeSpecs(dest, source, renameModelConflicts, renameParameterConflicts,
   * ignorePathConflicts)`. The ghost `t` holds the intermediate values, which
   * depend on the order Go ranges over maps.
   */
  method MergeSpecs(dest: Document, source: Swagger, renameModelConflicts: bool, renameParameterConflicts: bool,
                    ignorePathConflicts: bool)
    returns (err: Option<MergeError>, ghost t: MergeTrace)
    modifies dest
    ensures MergeOutcome(old(dest.Value()), source, renameModelConflicts, renameParameterConflicts,
                         ignorePathConflicts, err, t, dest.Value())
  {
    t := MergeTrace([], source, [], map[], source, [], map[], source);
    if source.paths.None? {
      return None, t;
    }
    dest.paths := WithPaths(dest.paths);
    assert dest.Value() == old(dest.Value()).(paths := WithPaths(old(dest.paths)));
    err, t := MergePrepared(dest, source, renameModelConflicts, renameParameterConflicts, ignorePathConflicts);
  }

  /** A merge that succeeds past the path policy renamed both maps and copied the renamed source. */
  lemma SucceededByCopy(before: Swagger, source: Swagger, renameModelConflicts: bool, renameParameterConflicts: bool,
                        ignorePathConflicts: bool, t: MergeTrace, after: Swagger)
    requires MergeOutcome(before, source, renameModelConflicts, renameParameterConflicts, ignorePathConflicts, None,
                          t, after)
    requires source.paths.Some? && Proceeds(PathMap(before.paths), source, ignorePathConflicts)
    ensures RenamesDefinitionsAs(before.definitions, t) && RenamesParametersAs(before.parameters, t)
    ensures after.definitions.Keys == before.definitions.Keys + t.renamed.definitions.Keys
    ensures after.parameters.Keys == before.parameters.Keys + t.renamed.parameters.Keys
  {
    var prepared := before.(paths := WithPaths(before.paths));
    assert CopiedAs(prepared, t.renamed, ignorePathConflicts, None, after);
  }

  /** The renamed source holds its definitions under their new names. */
  lemma RenamedDefinitionKeys(destDefinitions: map<string, Schema>, destParameters: map<string, Parameter>,
                              t: MergeTrace)
    requires RenamesDefinitionsAs(destDefinitions, t) && RenamesParametersAs(destParameters, t)
    ensures t.renamed.definitions.Keys == set k | k in t.filtered.definitions :: NewName(t.defRenames, k)
  {
    if !FoundOne(t.filtered.definitions, t.defRenames) {
      assert (set k | k in t.filtered.definitions :: NewName(t.defRenames, k)) == t.filtered.definitions.Keys;
    }
  }

  /** The renamed source holds its parameters under their new names. */
  lemma RenamedParameterKeys(destDefinitions: map<string, Schema>, destParameters: map<string, Parameter>,
                             t: MergeTrace)
    requires RenamesDefinitionsAs(destDefinitions, t) && RenamesParametersAs(destParameters, t)
    ensures t.afterDefinitions.parameters.Keys == t.filtered.parameters.Keys
    ensures t.renamed.parameters.Keys == set k | k in t.filtered.parameters :: NewName(t.paramRenames, k)
  {
    if !FoundOne(t.afterDefinitions.parameters, t.paramRenames) {
      assert (set k | k in t.filtered.parameters :: NewName(t.paramRenames, k)) == t.filtered.parameters.Keys;
    }
  }

  /**
   * A merge that succeeds past the path policy leaves every definition of
   * the filtered source in the destination under its new name, and adds no
   * other definition.
   */
  lemma SourceDefinitionsArrive(before: Swagger, source: Swagger, renameModelConflicts: bool,
                                renameParameterConflicts: bool, ignorePathConflicts: bool, t: MergeTrace,
                                after: Swagger)
    requires MergeOutcome(before, source, renameModelConflicts, renameParameterConflicts, ignorePathConflicts, None,
                          t, after)
    requires source.paths.Some? && Proceeds(PathMap(before.paths), source, ignorePathConflicts)
    ensures after.definitions.Keys ==
      before.definitions.Keys + set k | k in t.filtered.definitions :: NewName(t.defRenames, k)
  {
    SucceededByCopy(before, source, renameModelConflicts, renameParameterConflicts, ignorePathConflicts, t, after);
    RenamedDefinitionKeys(before.definitions, before.parameters, t);
  }

  /** The same for the parameters. */
  lemma SourceParametersArrive(before: Swagger, source: Swagger, renameModelConflicts: bool,
                               renameParameterConflicts: bool, ignorePathConflicts: bool, t: MergeTrace,
                               after: Swagger)
    requires MergeOutcome(before, source, renameModelConflicts, renameParameterConflicts, ignorePathConflicts, None,
                          t, after)
    requires source.paths.Some? && Proceeds(PathMap(before.paths), source, ignorePathConflicts)
    ensures after.parameters.Keys ==
      before.parameters.Keys + set k | k in t.filtered.parameters :: NewName(t.paramRenames, k)
  {
    SucceededByCopy(before, source, renameModelConflicts, renameParameterConflicts, ignorePathConflicts, t, after);
    RenamedParameterKeys(before.definitions, before.parameters, t);
  }

  /**
   * With every name conflict renamed and path conflicts ignored, the only
   * error is a GVK list that is not a list of objects; on success the
   * destination keeps every definition (modulo its GVK list), every
   * parameter and every path it had, and holds every source path.
   */
  lemma RenamingIgnoringOutcome(before: Swagger, source: Swagger, err: Option<MergeError>, t: MergeTrace, after: Swagger)
    requires MergeOutcome(before, source, true, true, true, err, t, after)
    ensures err.Some? ==> err.value.GvkConflict?
    ensures after.responses == before.responses && after.keywords == before.keywords
    ensures source.paths.None? ==> err.None? && after == before
    ensures err.None? ==> forall k :: k in before.definitions ==>
      k in after.definitions && EqualModuloGvk(before.definitions[k], after.definitions[k])
    ensures err.None? ==> forall k :: k in before.parameters ==>
      k in after.parameters && after.parameters[k] == before.parameters[k]
    ensures source.paths.Some? && err.None? ==>
      after.paths.Some? && after.paths.value.paths.Keys == PathMap(before.paths).Keys + source.paths.value.paths.Keys
      && forall p :: p in PathMap(before.paths) ==> after.paths.value.paths[p] == PathMap(before.paths)[p]
  {
    if source.paths.Some? {
      var prepared := before.(paths := WithPaths(before.paths));
      if Proceeds(prepared.paths.value.paths, source, true) && !IsNameConflict(err) {
        assert CopiedAs(prepared, t.renamed, true, err, after);
        if err.None? {
          forall k | k in before.definitions
            ensures k in after.definitions && EqualModuloGvk(before.definitions[k], after.definitions[k])
          {
            MergedDefinitionsKeepOld(before.definitions, t.renamed.definitions, after.definitions, k);
          }
        }
      }
    }
  }

  /**
   * `MergeSpecsIgnorePathConflictRenamingDefinitionsAndParameters`: the
   * merge that renames every name conflict and keeps the destination's
   * paths.
   */
  method MergeSpecsIgnorePathConflictRenamingDefinitionsAndParameters(dest: Document, source: Swagger)
    returns (err: Option<MergeError>)
    modifies dest
    ensures err.Some? ==> err.value.GvkConflict?
    ensures dest.responses == old(dest.responses) && dest.keywords == old(dest.keywords)
    ensures source.paths.None? ==> err.None? && dest.Value() == old(dest.Value())
    ensures err.None? ==> forall k :: k in old(dest.definitions) ==>
      k in dest.definitions && EqualModuloGvk(old(dest.definitions)[k], dest.definitions[k])
    ensures err.None? ==> forall k :: k in old(dest.parameters) ==>
      k in dest.parameters && dest.parameters[k] == old(dest.parameters)[k]
    ensures source.paths.Some? && err.None? ==>
      dest.paths.Some? && dest.paths.value.paths.Keys == PathMap(old(dest.paths)).Keys + source.paths.value.paths.Keys
      && forall p :: p in PathMap(old(dest.paths)) ==> dest.paths.value.paths[p] == PathMap(old(dest.paths))[p]
  {
    ghost var t;
    err, t := MergeSpecs(dest, source, true, true, true);
    RenamingIgnoringOutcome(old(dest.Value()), source, err, t, dest.Value());
  }

  /**
   * Under `ignorePathConflicts` as written: the destination has `/a/b`, the
   * source has `/a` and `/a/b`. The only novel path is `/a`, so the source
   * is filtered to the paths with prefix `/a`, which keeps `/a/b`, and the
   * path copy as written then fails on `/a/b` as a duplicated path.
   */
  lemma PrefixFilterKeepsConflict()
    ensures var item := PathItem([], None, None, None, None, None, None, None, map[]);
      var destPaths := map["/a/b" := item];
      var source := Swagger(Some(Paths(map["/a" := item, "/a/b" := item], map[])), map[], map[], map[], map[]);
      var keep := ["/a"];
      (forall p :: p in keep <==> p in source.paths.value.paths && p !in destPaths)
      && PathCopyFails(destPaths, source.paths.value.paths)
      && PathCopyFails(destPaths, FilterSpecByPathsWithoutSideEffects(source, keep).paths.value.paths)
  {
    var item := PathItem([], None, None, None, None, None, None, None, map[]);
    var source := Swagger(Some(Paths(map["/a" := item, "/a/b" := item], map[])), map[], map[], map[], map[]);
    assert "/a" != "/a/b";
    assert "/a" <= "/a/b" by {
      assert "/a/b"[..2] == "/a";
    }
    assert "/a" in ["/a"];
    assert HasPrefix(["/a"], "/a/b");
    assert "/a/b" in FilterSpecByPathsWithoutSideEffects(source, ["/a"]).paths.value.paths;
  }
}
