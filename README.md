# OpenAPI spec merging, modelled in Dafny

This project models the OpenAPI merge engine of `kube/pkg/openapi/merge/merge.go`.
The engine merges Swagger 2.0 documents: it folds a source document into a
destination document. It walks every schema and every `$ref` of a document
through a copy-on-write `Walker`, with a ref callback and a schema callback.
It renames references with `ReplaceReferences`. It prunes a document to the
paths under some prefixes while keeping the definitions those paths still use
(`FilterSpecByPathsWithoutSideEffects`). Then `mergeSpecs` copies the source
into the destination:

- path conflicts are either errors or ignored (only novel paths are merged);
- conflicting definitions are renamed to `k_v2`, `k_v3`, … (or reported); a
  definition counts as equal when it differs only in its
  `x-kubesphere-group-version-kind` extension;
- conflicting parameters are handled the same way;
- definitions, parameters and paths are then copied, and the GVK lists of
  definitions both sides have are merged and sorted.

Modules, one per file and in dependency order:

- `Wrappers`: `Option` and `Result`.
- `Strings`: decimal rendering, the `%s_v%d` names and Go's string order.
- `OpenApi`: the document model.
- `Heights`: the tree height that bounds the walker's recursion.
- `Walker`: the walker as pure functions.
- `Holds`: "every ref / schema of this tree satisfies P".
- `References`: the refs a document holds.
- `WalkerProperties` and `WalkerDocument`: what the walk does to a document.
- `WalkerFindings`: the walker as written, where it deviates.
- `Reach`: reachability over references.
- `Filter`: used definitions and the path filter.
- `Rename`: the rename functions.
- `Gvk`: equality modulo the GVK extension and `mergedGVKs`.
- `Search`: the `k_vN` search.
- `Conflicts`: the loops over maps that decide the renames.
- `Merge`: the destination as a `Document` class and `mergeSpecs` itself.

Go pointers are modelled as values. A walker function returns the walked value,
and "the same pointer" becomes "an equal value". The Go callbacks become
parameters of type `string -> string` (the ref callback) and `Schema -> Schema`
(the schema callback). Ranging over a Go map visits the keys in an unspecified
order. The model states that order in one of two ways:

- as an `order` sequence that lists every key exactly once (`IsOrderOf`);
- as a loop that picks any remaining key with `:|`.

Every contract therefore holds for every order.

Where the code as written departs from what it evidently intends (see
"Findings"), the model has an as-written member next to a corrected one. The
merge (`Merge.MergeSpecs` and the members it is built from) is composed of the
corrected ones.

## Model

| member | source | states |
|---|---|---|
| Strings.NatToString | kube/pkg/openapi/merge/merge.go:226 | `%d` of a natural number is a non-empty string of decimal digits, one digit exactly for numbers below ten |
| Strings.NatToStringInjective | kube/pkg/openapi/merge/merge.go:226 | distinct numbers render to distinct decimal strings |
| Strings.VersionedName | kube/pkg/openapi/merge/merge.go:226 | `fmt.Sprintf("%s_v%d", k, i)` starts with `k`, then `_v`, then only digits |
| Strings.VersionedNameInjective | kube/pkg/openapi/merge/merge.go:226 | `k_vI` and `k_vJ` are the same name only when I equals J, so each step of the search tries a new name |
| Strings.VersionedNamesDisjoint | kube/pkg/openapi/merge/merge.go:226 | two distinct keys never produce the same versioned name |
| Strings.StrLessIrreflexive | kube/pkg/openapi/merge/merge.go:435-437 | Go's `<` on strings used by `byKeys.Less` is irreflexive |
| Strings.StrLessTotal | kube/pkg/openapi/merge/merge.go:435-437 | of two distinct strings one is less than the other |
| Strings.StrLessAsymmetric | kube/pkg/openapi/merge/merge.go:435-437 | the string order is asymmetric |
| Strings.StrLessTransitive | kube/pkg/openapi/merge/merge.go:435-437 | the string order is transitive, so sorting by it is well defined |
| Strings.StrLeqTransitive | kube/pkg/openapi/merge/merge.go:435-437 | the non-strict order is transitive |
| Strings.StrLeqTotal | kube/pkg/openapi/merge/merge.go:435-437 | the non-strict order is total |
| Strings.TrimZeros | kube/pkg/openapi/merge/merge.go:400 | the mantissa digits of `%v` on a float64: a non-empty prefix that drops exactly the trailing zeros |
| Strings.FloatStringExponent | kube/pkg/openapi/merge/merge.go:400 | `%v` of a float64 of a million is `1e+06`, not its decimal digits |
| Strings.SortedKeys | kube/pkg/openapi/merge/merge.go:400 | the keys of a map in strictly increasing order, each exactly once, as `fmt` prints an object's entries |
| Walker.WalkSchemaMap | kube/pkg/openapi/merge/merge.go:564-607 | a walked map field of a schema has the same keys, and each entry is the walk of the original entry (the corrected map walk, see Findings); `WalkerProperties.WalkMapFixed` and `WalkerProperties.WalkMapRefs` state what the walk does to the entries |
| Walker.WalkSchemaSeq | kube/pkg/openapi/merge/merge.go:609-646 | a walked list field has the same length, and each element is the walk of the element at the same index (the corrected list walk, see Findings) |
| Walker.WalkOptSchema | kube/pkg/openapi/merge/merge.go:648-653 | walking `not` keeps it present exactly when it was |
| Walker.WalkSchemaOrBool | kube/pkg/openapi/merge/merge.go:655-667 | walking `additionalProperties` / `additionalItems` keeps presence and the `Allows` flag |
| Walker.WalkSchemaOrArray | kube/pkg/openapi/merge/merge.go:669-691 | walking `items` keeps presence and whether it is one schema or a list (the corrected `items` walk, see Findings) |
| Walker.WalkSchemaPtr | kube/pkg/openapi/merge/merge.go:542-545 | a nil schema walks to nil and a present one to a present one |
| Walker.WalkSchema | kube/pkg/openapi/merge/merge.go:542-694 | the schema callback runs first: the walked schema carries the ref callback's image of the callback result's ref, its extensions, its other keywords, the keys of its three map fields (`definitions`, `properties`, `patternProperties`) and its list lengths |
| Walker.WalkNested | kube/pkg/openapi/merge/merge.go:559-691 | the walk after the callback keeps the ref callback's image of the ref, the extensions, the other keywords, the map keys and the list lengths |
| Walker.RefCallbackNoop | kube/pkg/openapi/merge/merge.go:468-470 | the identity on references; its effect on a whole walk is `WalkerDocument.WalkRootNoop` |
| Walker.SchemaCallbackNoop | kube/pkg/openapi/merge/merge.go:465-467 | the identity on schemas, which keeps a schema's height |
| Walker.WalkParameter | kube/pkg/openapi/merge/merge.go:696-726 | a walked parameter keeps its other fields and whether it has `items`, whose other fields are kept too |
| Walker.WalkParameterSeq | kube/pkg/openapi/merge/merge.go:743-748 | a walked parameter list has the same length |
| Walker.WalkParameters | kube/pkg/openapi/merge/merge.go:728-751 | the changed flag is set exactly when the walked list differs from the input |
| Walker.WalkResponse | kube/pkg/openapi/merge/merge.go:753-778 | a walked response keeps its other fields and whether it has a schema |
| Walker.WalkResponses | kube/pkg/openapi/merge/merge.go:780-816 | walked responses keep presence, the status codes and the extensions |
| Walker.WalkOperation | kube/pkg/openapi/merge/merge.go:818-852 | a walked operation keeps presence, the number of parameters and its other fields |
| Walker.WalkPathItem | kube/pkg/openapi/merge/merge.go:854-903 | a walked path item keeps its extensions and the number of its parameters |
| Walker.WalkPaths | kube/pkg/openapi/merge/merge.go:905-936 | walked paths keep presence, every path key and the extensions |
| Walker.WalkRoot | kube/pkg/openapi/merge/merge.go:472-540 | the walked document has the same definition, parameter, response and path keys and the same other fields |
| Walker.WalkDefinitions | kube/pkg/openapi/merge/merge.go:517-530 | the definitions map keeps its keys, and each entry is the walk of the original definition; `WalkerDocument.WalkDefinitionsFixed` states when it is unchanged |
| Walker.WalkParameterMap | kube/pkg/openapi/merge/merge.go:487-500 | the parameters map keeps its keys, and each entry is the walk of the original parameter; `WalkerDocument.WalkParameterMapFixed` states when it is unchanged |
| Walker.WalkResponseMap | kube/pkg/openapi/merge/merge.go:502-515 | the responses map keeps its keys, and each entry is the walk of the original response; `WalkerDocument.WalkResponseMapFixed` states when it is unchanged |
| Walker.NoopPreservesHeight | kube/pkg/openapi/merge/merge.go:465-467 | the no-op schema callback is a callback the walker can descend through |
| Walker.ReplaceReferences | kube/pkg/openapi/merge/merge.go:444-447 | replacing references keeps every key of the document and its other fields |
| WalkerProperties.WalkSchemaFixed | kube/pkg/openapi/merge/merge.go:542-694 | when both callbacks fix every ref and schema of the tree, `WalkSchema` returns its input unchanged (the copy-on-write promise) |
| WalkerProperties.WalkNestedFixed | kube/pkg/openapi/merge/merge.go:559-691 | the walk of the nested fields of a fixed tree is the tree itself |
| WalkerProperties.WalkMapFieldsFixed | kube/pkg/openapi/merge/merge.go:559-607 | the ref and the three map fields of a fixed tree come back unchanged |
| WalkerProperties.WalkSeqFieldsFixed | kube/pkg/openapi/merge/merge.go:609-646 | `allOf`, `anyOf` and `oneOf` of a fixed tree come back unchanged |
| WalkerProperties.WalkOptionFieldsFixed | kube/pkg/openapi/merge/merge.go:648-667 | `not`, `additionalProperties` and `additionalItems` of a fixed tree come back unchanged |
| WalkerProperties.WalkItemsFieldFixed | kube/pkg/openapi/merge/merge.go:669-691 | `items` of a fixed tree comes back unchanged |
| WalkerProperties.WalkMapFixed | kube/pkg/openapi/merge/merge.go:564-577 | a map of fixed trees walks to itself |
| WalkerProperties.WalkSeqFixed | kube/pkg/openapi/merge/merge.go:609-620 | a list of fixed trees walks to itself |
| WalkerProperties.WalkOptFixed | kube/pkg/openapi/merge/merge.go:648-653 | an optional fixed tree walks to itself |
| WalkerProperties.WalkSchemaOrBoolFixed | kube/pkg/openapi/merge/merge.go:655-660 | a fixed `SchemaOrBool` walks to itself |
| WalkerProperties.WalkSchemaOrArrayFixed | kube/pkg/openapi/merge/merge.go:669-691 | a fixed `SchemaOrArray` walks to itself |
| WalkerProperties.WalkSchemaRefs | kube/pkg/openapi/merge/merge.go:559-562 | when the ref callback takes refs satisfying P to refs satisfying Q, every ref of the walked tree satisfies Q if every ref of the input satisfied P |
| WalkerProperties.WalkNestedRefs | kube/pkg/openapi/merge/merge.go:559-691 | the same transfer of a ref property through the nested fields |
| WalkerProperties.WalkMapFieldsRefs | kube/pkg/openapi/merge/merge.go:559-607 | the ref property transfers to the walked ref and map fields |
| WalkerProperties.WalkSeqFieldsRefs | kube/pkg/openapi/merge/merge.go:609-646 | the ref property transfers to the walked list fields |
| WalkerProperties.WalkOptionFieldsRefs | kube/pkg/openapi/merge/merge.go:648-667 | the ref property transfers to the walked optional fields |
| WalkerProperties.WalkItemsFieldRefs | kube/pkg/openapi/merge/merge.go:669-691 | the ref property transfers to the walked `items` |
| WalkerProperties.WalkMapRefs | kube/pkg/openapi/merge/merge.go:564-577 | the ref property transfers to every walked map entry |
| WalkerProperties.WalkSeqRefs | kube/pkg/openapi/merge/merge.go:609-620 | the ref property transfers to every walked list element |
| WalkerProperties.WalkOptRefs | kube/pkg/openapi/merge/merge.go:648-653 | the ref property transfers to a walked optional schema |
| WalkerProperties.WalkSchemaOrBoolRefs | kube/pkg/openapi/merge/merge.go:655-660 | the ref property transfers to a walked `SchemaOrBool` |
| WalkerProperties.WalkSchemaOrArrayRefs | kube/pkg/openapi/merge/merge.go:669-691 | the ref property transfers to a walked `SchemaOrArray` |
| WalkerProperties.SchemaHoldsUniversal | kube/pkg/openapi/merge/merge.go:465-470 | a property every ref and every schema has holds throughout any tree (used for the no-op callbacks) |
| WalkerDocument.WalkSchemaPtrFixed | kube/pkg/openapi/merge/merge.go:542-545 | an optional fixed schema walks to itself |
| WalkerDocument.WalkParameterFixed | kube/pkg/openapi/merge/merge.go:696-726 | a parameter whose refs and schemas the callbacks fix walks to itself |
| WalkerDocument.WalkParameterSeqFixed | kube/pkg/openapi/merge/merge.go:728-751 | a list of fixed parameters walks to itself |
| WalkerDocument.WalkResponseFixed | kube/pkg/openapi/merge/merge.go:753-778 | a fixed response walks to itself |
| WalkerDocument.WalkResponsesFixed | kube/pkg/openapi/merge/merge.go:780-816 | fixed responses walk to themselves |
| WalkerDocument.WalkOperationFixed | kube/pkg/openapi/merge/merge.go:818-852 | a fixed operation walks to itself |
| WalkerDocument.WalkPathItemFixed | kube/pkg/openapi/merge/merge.go:854-903 | a fixed path item walks to itself |
| WalkerDocument.WalkPathsFixed | kube/pkg/openapi/merge/merge.go:905-936 | fixed paths walk to themselves |
| WalkerDocument.WalkRootFixed | kube/pkg/openapi/merge/merge.go:472-540 | a document whose refs and schemas the callbacks all fix walks to itself: nothing is cloned or changed |
| WalkerDocument.WalkDefinitionsFixed | kube/pkg/openapi/merge/merge.go:517-530 | fixed definitions walk to themselves |
| WalkerDocument.WalkParameterMapFixed | kube/pkg/openapi/merge/merge.go:487-500 | fixed top-level parameters walk to themselves |
| WalkerDocument.WalkResponseMapFixed | kube/pkg/openapi/merge/merge.go:502-515 | fixed top-level responses walk to themselves |
| WalkerDocument.WalkRootNoop | kube/pkg/openapi/merge/merge.go:465-470 | walking with the two no-op callbacks returns the document unchanged |
| WalkerDocument.SwaggerHoldsUniversal | kube/pkg/openapi/merge/merge.go:465-470 | a property every ref and every schema has holds throughout any document |
| WalkerDocument.ParameterSeqHoldsUniversal | kube/pkg/openapi/merge/merge.go:465-470 | the same for a parameter list |
| WalkerDocument.OperationHoldsUniversal | kube/pkg/openapi/merge/merge.go:465-470 | the same for an operation |
| WalkerDocument.PathItemHoldsUniversal | kube/pkg/openapi/merge/merge.go:465-470 | the same for a path item |
| WalkerDocument.WalkSchemaPtrRefs | kube/pkg/openapi/merge/merge.go:542-545 | the ref property transfers through an optional schema |
| WalkerDocument.WalkParameterRefs | kube/pkg/openapi/merge/merge.go:711-723 | the ref property transfers to the walked parameter: its ref, its schema and its `items` ref |
| WalkerDocument.WalkParameterSeqRefs | kube/pkg/openapi/merge/merge.go:743-748 | the ref property transfers to every walked parameter of a list |
| WalkerDocument.WalkResponseRefs | kube/pkg/openapi/merge/merge.go:768-775 | the ref property transfers to a walked response |
| WalkerDocument.WalkResponsesRefs | kube/pkg/openapi/merge/merge.go:795-813 | the ref property transfers to the walked default and status-code responses |
| WalkerDocument.WalkOperationRefs | kube/pkg/openapi/merge/merge.go:833-849 | the ref property transfers to a walked operation |
| WalkerDocument.WalkPathItemRefs | kube/pkg/openapi/merge/merge.go:869-900 | the ref property transfers to a walked path item |
| WalkerDocument.WalkPathsRefs | kube/pkg/openapi/merge/merge.go:920-933 | the ref property transfers to every walked path |
| WalkerDocument.ReplaceReferencesRefs | kube/pkg/openapi/merge/merge.go:444-447 | if the ref callback takes every ref with P to one with Q, every ref of the result has Q when every ref of the input had P |
| WalkerFindings.MapFieldAsWritten | kube/pkg/openapi/merge/merge.go:564-607 | the map field as written: the keys come from the original and the current map, and each changed entry is stored |
| WalkerFindings.MapFieldAsWrittenDropsEntry | kube/pkg/openapi/merge/merge.go:564-607 | when the callback's map has an entry the original lacks and another entry changes, the unchanged new entry is lost |
| WalkerFindings.MapFieldAsWrittenExample | kube/pkg/openapi/merge/merge.go:564-577 | a concrete callback and map for which the rebuilt map drops key `b` |
| WalkerFindings.MapFieldAsWrittenWithoutCallback | kube/pkg/openapi/merge/merge.go:564-577 | when the callback leaves the map as it was, the code as written agrees with `Walker.WalkSchemaMap` |
| WalkerFindings.FirstChanged | kube/pkg/openapi/merge/merge.go:609-620 | the first index whose walk changes the element, with every earlier element unchanged |
| WalkerFindings.SeqFieldAsWritten | kube/pkg/openapi/merge/merge.go:609-646 | the list field as written: the callback's list when nothing changes, a panic when something changes and the list is longer than the original, otherwise a list as long as the original |
| WalkerFindings.SeqFieldAsWrittenKeepsStale | kube/pkg/openapi/merge/merge.go:609-620 | when an early element changes, a later element of the callback's list that the walk leaves alone is replaced by the original list's element |
| WalkerFindings.SeqFieldAsWrittenPanics | kube/pkg/openapi/merge/merge.go:609-620 | a change in a list the callback made longer than the original indexes past the copy: a panic |
| WalkerFindings.SeqFieldAsWrittenExample | kube/pkg/openapi/merge/merge.go:609-620 | a concrete callback that adds `allOf` `[x]` to a schema without it, so the walk of `x` panics |
| WalkerFindings.SeqFieldAsWrittenWithoutCallback | kube/pkg/openapi/merge/merge.go:609-620 | when the callback leaves the list as it was, the code as written agrees with `Walker.WalkSchemaSeq` |
| WalkerFindings.ItemsListAsWritten | kube/pkg/openapi/merge/merge.go:669-691 | the `items` list as written: a change panics when the original `items` is nil or a single schema, and is the list field as written otherwise |
| WalkerFindings.WalkParameterAsWritten | kube/pkg/openapi/merge/merge.go:696-726 | `walkParameter` as written: the returned parameter is the corrected walk, the reported change misses `items`, and the caller's `items` is overwritten |
| WalkerFindings.WalkParameterAsWrittenMutatesCaller | kube/pkg/openapi/merge/merge.go:719-723 | when only the `items` ref changes, the walk reports no change yet the caller's parameter differs afterwards |
| WalkerFindings.WalkParameterReportsItems | kube/pkg/openapi/merge/merge.go:728-751 | in the corrected walk, a changed `items` ref makes `walkParameters` report a change |
| References.SchemaRefs | kube/pkg/openapi/merge/merge.go:559 | the refs of a schema tree include its own ref |
| References.SchemaMapRefs | kube/pkg/openapi/merge/merge.go:564-607 | the refs of a map of schemas include the refs of every entry |
| References.SchemaSeqRefs | kube/pkg/openapi/merge/merge.go:609-646 | the refs of a list of schemas include the refs of every element |
| References.ParameterRefs | kube/pkg/openapi/merge/merge.go:711-723 | the refs of a parameter include its ref and those of its schema |
| References.ParameterSeqRefs | kube/pkg/openapi/merge/merge.go:743-748 | the refs of a parameter list include those of every parameter |
| References.ResponseRefs | kube/pkg/openapi/merge/merge.go:768-771 | the refs of a response include its ref |
| References.PathsRefs | kube/pkg/openapi/merge/merge.go:34-38 | the refs of the paths include those of every path item |
| Reach.Step | kube/pkg/openapi/merge/merge.go:34-38 | one step of following references: exactly the targets of the refs in hand |
| Reach.Closure | kube/pkg/openapi/merge/merge.go:34-38 | the refs reached from the seeds: contains the seeds, stays among the targets, and is closed under following references |
| Reach.ClosureLeast | kube/pkg/openapi/merge/merge.go:34-38 | the reached set is the least set of that kind |
| Reach.ChainInClosure | kube/pkg/openapi/merge/merge.go:34-38 | the end of every chain of references from a seed is reached |
| Reach.ClosureIsReachability | kube/pkg/openapi/merge/merge.go:34-38 | a ref is in the reached set exactly when some chain of references leads to it |
| Reach.ReachesMonotone | kube/pkg/openapi/merge/merge.go:34-38 | more seeds and more edges reach at least as much |
| Reach.ReachesAgree | kube/pkg/openapi/merge/merge.go:34-38 | two graphs that agree on every reached node reach the same nodes |
| Filter.Followed | kube/pkg/openapi/merge/merge.go:34-38 | following a ref into the document: the refs of the definition or parameter it names, and none for any other ref |
| Filter.RefGraph | kube/pkg/openapi/merge/merge.go:34-38 | the reference graph of a document follows each ref as `Filter.Followed` does |
| Filter.ReferencedFrom | kube/pkg/openapi/merge/merge.go:34-38 | every ref of the paths is referenced |
| Filter.DefinitionNames | kube/pkg/openapi/merge/merge.go:35-36 | a name is used exactly when `#/definitions/` followed by it is a reference |
| Filter.UsedDefinitions | kube/pkg/openapi/merge/merge.go:32-40 | `usedDefinitionForSpec`: a definition is used exactly when the paths reach a `#/definitions/` ref naming it |
| Filter.UsedDefinitionsAreReached | kube/pkg/openapi/merge/merge.go:32-40 | a definition is used exactly when a chain of references from the paths reaches it |
| Filter.KeptPaths | kube/pkg/openapi/merge/merge.go:57-69 | exactly the paths with a keep prefix are kept, with their items unchanged |
| Filter.HasPrefix | kube/pkg/openapi/merge/merge.go:58-67 | the prefix test the Trie performs: some keep prefix is a prefix of the path |
| Filter.KeptDefinitions | kube/pkg/openapi/merge/merge.go:74-80 | a definition is kept exactly when it is still used or was never used |
| Filter.FilterSpecByPathsWithoutSideEffects | kube/pkg/openapi/merge/merge.go:46-83 | a document without paths is returned as it is; otherwise exactly the paths with a keep prefix stay, definitions are only dropped, and everything else is unchanged |
| Filter.FilterDropsExactlyTheUnreachable | kube/pkg/openapi/merge/merge.go:42-44 | a definition is dropped exactly when the full paths reached it and the kept paths no longer do |
| Filter.FilterKeepsReachability | kube/pkg/openapi/merge/merge.go:71-80 | pruning definitions changes nothing the kept paths reach |
| Filter.FilterKeepsSuccessors | kube/pkg/openapi/merge/merge.go:71-80 | every ref the kept paths reach has the same successors after the pruning |
| Filter.FilterLeavesNoDanglingReference | kube/pkg/openapi/merge/merge.go:42-44 | every definition of the input that the filtered paths reach is still in the filtered document |
| Filter.FilterIdempotent | kube/pkg/openapi/merge/merge.go:46-83 | filtering twice by the same prefixes filters once |
| Filter.KeptPathsIdempotent | kube/pkg/openapi/merge/merge.go:57-69 | the path filter is idempotent |
| Filter.KeptDefinitionsAll | kube/pkg/openapi/merge/merge.go:74-80 | when nothing stops being used, every definition is kept |
| Filter.PathsRefsMonotone | kube/pkg/openapi/merge/merge.go:71-72 | more paths hold at least the same refs |
| Filter.FilterMonotone | kube/pkg/openapi/merge/merge.go:46-83 | more keep prefixes keep at least the same paths and definitions |
| Filter.FilterMonotonePaths | kube/pkg/openapi/merge/merge.go:57-72 | more keep prefixes keep at least the same paths and refs |
| Filter.FilterMonotoneAt | kube/pkg/openapi/merge/merge.go:74-80 | a definition kept by the filter with fewer references is kept by one with more |
| Rename.RefRenames | kube/pkg/openapi/merge/merge.go:88-95 | each rename `k -> v` becomes `prefix+k -> prefix+v`, and nothing else is in the map |
| Rename.RenameRefSpec | kube/pkg/openapi/merge/merge.go:104-111 | a ref naming a renamed key becomes the prefixed new name; any other ref is returned unchanged |
| Rename.RenameRef | kube/pkg/openapi/merge/merge.go:105-110 | a reference listed in the ref renames is replaced by its new form, any other comes back as it was; `Rename.RenameRefSpec` states it over prefixed keys |
| Rename.DefinitionRenamer | kube/pkg/openapi/merge/merge.go:104-111 | the callback of `renameDefinitions` takes `#/definitions/old` to `#/definitions/new` for every rename |
| Rename.ParameterRenamer | kube/pkg/openapi/merge/merge.go:144-151 | the callback of `renameParameters` takes `#/parameters/old` to `#/parameters/new` for every rename |
| Rename.RenameKeys | kube/pkg/openapi/merge/merge.go:113-120 | the re-keying loop as a fold over one range order; `Rename.RenameKeysKeys`, `Rename.RenameKeysValues` and `Rename.RenameKeysValuesFrom` state its keys and values |
| Rename.RenameKeysKeys | kube/pkg/openapi/merge/merge.go:113-120 | after re-keying, the keys are exactly the new names of the visited keys |
| Rename.RenameKeysValues | kube/pkg/openapi/merge/merge.go:113-120 | without a collision, every value ends up under its key's new name |
| Rename.RenameKeysOrderIndependent | kube/pkg/openapi/merge/merge.go:113-120 | without a collision, re-keying gives the same map whatever order the range visits the keys in |
| Rename.RenameKeysSameKeys | kube/pkg/openapi/merge/merge.go:113-120 | re-keying gives the same keys in any order, colliding or not |
| Rename.RenameKeysSameValue | kube/pkg/openapi/merge/merge.go:113-120 | without a collision, each new key holds the same value in any order |
| Rename.RenameKeysCollision | kube/pkg/openapi/merge/merge.go:113-120 | with a collision the surviving value depends on the order: two orders give two different maps |
| Rename.RenameKeysValuesFrom | kube/pkg/openapi/merge/merge.go:113-120 | every value of the re-keyed map is a value of the original |
| Rename.RenameDefinitions | kube/pkg/openapi/merge/merge.go:87-123 | the input is returned as it is when no renamed key is a definition; otherwise the definition keys are the new names and the other keys and fields are kept |
| Rename.RenameParameters | kube/pkg/openapi/merge/merge.go:127-163 | the same for parameters |
| Rename.RenameDefinitionsMovesValues | kube/pkg/openapi/merge/merge.go:104-120 | without a collision, each definition ends up under its new name, with its references renamed |
| Rename.RenameParametersMovesValues | kube/pkg/openapi/merge/merge.go:144-160 | without a collision, each parameter ends up under its new name, with its references renamed |
| Rename.RenamerCarriesResolution | kube/pkg/openapi/merge/merge.go:104-111 | the definition renamer takes a ref that names an existing key to one that names that key's new name |
| Rename.RenamedDefinitionsHold | kube/pkg/openapi/merge/merge.go:113-120 | re-keying the definitions keeps every ref property of the document |
| Rename.RenamedParametersHold | kube/pkg/openapi/merge/merge.go:153-160 | re-keying the parameters keeps every ref property of the document |
| Rename.RenameDefinitionsKeepsReferencesResolved | kube/pkg/openapi/merge/merge.go:87-123 | when every `#/definitions/` ref names a definition, it still does after the renaming |
| Rename.RenameParametersKeepsReferencesResolved | kube/pkg/openapi/merge/merge.go:127-163 | when every `#/parameters/` ref names a parameter, it still does after the renaming |
| Gvk.WithoutGvkEqual | kube/pkg/openapi/merge/merge.go:326 | two extension maps agree once the GVK key is removed exactly when they agree on every other key |
| Gvk.EqualModuloGvk | kube/pkg/openapi/merge/merge.go:326-367 | equality modulo GVK: equal apart from the extensions, and the same value or absence under every other extension key |
| Gvk.DeepEqualModuloGvksAsWritten | kube/pkg/openapi/merge/merge.go:327-367 | `deepEqualDefinitionsModuloGVKs` as written: equal schemas are accepted, and accepted ones agree on everything but the extensions |
| Gvk.NonGvkCountIsSize | kube/pkg/openapi/merge/merge.go:342-349 | the adjusted length is the number of extensions other than the GVK key |
| Gvk.EqualModuloGvkAccepted | kube/pkg/openapi/merge/merge.go:327-367 | every pair equal modulo GVK is accepted by the code as written |
| Gvk.AcceptedWithoutNullsIsEqualModuloGvk | kube/pkg/openapi/merge/merge.go:334-353 | without null extension values, what the code accepts is equal modulo GVK |
| Gvk.AcceptedExtensionsAgree | kube/pkg/openapi/merge/merge.go:334-353 | the loop's check, null-free, plus equal adjusted lengths make the extension maps agree off the GVK key |
| Gvk.AsWrittenNullMatchesMissing | kube/pkg/openapi/merge/merge.go:334-353 | `{x-a: null}` and `{x-b: null}` are accepted as equal, though they are not equal modulo GVK |
| Gvk.GvkIgnored | kube/pkg/openapi/merge/merge.go:335-337 | changing only the GVK extension keeps a definition equal, in both definitions |
| Gvk.FirstNonObject | kube/pkg/openapi/merge/merge.go:395-409 | the first entry of a list that is not an object, with only objects before it |
| Gvk.GvkKeyOf | kube/pkg/openapi/merge/merge.go:400-410 | the `group/version.kind` key of a GVK object, the key `seen` and the sort use; `Gvk.ListValuedFieldsKeyApart` shows that entries differing only inside a list get distinct keys |
| Gvk.ListValuedFieldsKeyApart | kube/pkg/openapi/merge/merge.go:400-417 | GVK entries whose `group` is `["a"]` and `["b"]` get different keys, so the second is new to the merged list |
| Gvk.ObjectFormat | kube/pkg/openapi/merge/merge.go:400 | `%s` of the object `{k: "v"}` is `map[k:v]` |
| Gvk.NewGvks | kube/pkg/openapi/merge/merge.go:405-417 | the entries of the second list whose key the first list lacks, in order |
| Gvk.NewGvksSnoc | kube/pkg/openapi/merge/merge.go:405-417 | one more entry in the second list adds it exactly when its key is new |
| Gvk.NothingNewIffCovered | kube/pkg/openapi/merge/merge.go:404-417 | nothing is added (and `changed` stays false) exactly when every key of the second list is in the first |
| Gvk.MergedKeysAreUnion | kube/pkg/openapi/merge/merge.go:391-417 | the merged list holds exactly the keys of both lists |
| Gvk.ListsMergedCoverBoth | kube/pkg/openapi/merge/merge.go:382-423 | a successful merge is a list that keeps every entry of the first and holds exactly the keys of both |
| Gvk.Swap | kube/pkg/openapi/merge/merge.go:439-442 | `byKeys.Swap` exchanges two entries and keeps the rest, a permutation |
| Gvk.MinIndex | kube/pkg/openapi/merge/merge.go:435-437 | the index of an entry whose key is least from `i` on |
| Gvk.SortByKeys | kube/pkg/openapi/merge/merge.go:419-442 | sorting the merged list leaves it sorted by key and a permutation of what it was |
| Gvk.FirstNonObjectAppend | kube/pkg/openapi/merge/merge.go:395-409 | the first non-object of two lists in a row is that of the first list, or else of the second |
| Gvk.SeenKeys | kube/pkg/openapi/merge/merge.go:394-403 | the keys of the first list, or the error for its first entry that is not an object |
| Gvk.AppendNew | kube/pkg/openapi/merge/merge.go:404-417 | the first list plus the new entries of the second, and whether any was added; or the error for the first non-object of the second list |
| Gvk.MergeGvkLists | kube/pkg/openapi/merge/merge.go:382-423 | both lists merged as `Gvk.ListsMerged` states: errors for a non-list or a non-object, otherwise the new entries added and sorted, and the first list itself when nothing is new |
| Gvk.MergedGvks | kube/pkg/openapi/merge/merge.go:371-424 | `mergedGVKs`: the source's list when the first has none, the first's unchanged when the second has none, the merge of the two lists otherwise |
| Gvk.StoreGvkAsWritten | kube/pkg/openapi/merge/merge.go:296-297 | the store as written panics (none) exactly on a nil extension map, and otherwise sets the GVK key and keeps the rest |
| Gvk.StoreGvkAsWrittenPanics | kube/pkg/openapi/merge/merge.go:288-299 | a destination definition without extensions, equal modulo GVK to a source definition with a GVK list, reaches the panicking store |
| Gvk.StoreGvk | kube/pkg/openapi/merge/merge.go:296-297 | the corrected store sets the GVK key to the merged value and keeps every other extension |
| Gvk.StoreGvkKeepsDefinition | kube/pkg/openapi/merge/merge.go:296-297 | storing a merged GVK list keeps the definition equal modulo GVK |
| Search.CandidateBelow | kube/pkg/openapi/merge/merge.go:223-239 | every candidate name tried so far is `k_vL` for some L in range |
| Search.CandidatesStep | kube/pkg/openapi/merge/merge.go:225-237 | the next candidate is a name not tried before |
| Search.FindRename | kube/pkg/openapi/merge/merge.go:221-241 | the new name is some `k_vI`: either an equal destination entry reached along destination keys only, with no earlier equal one, or a name neither used nor in the source, with every earlier candidate taken |
| Search.SearchDest | kube/pkg/openapi/merge/merge.go:222-232 | the first loop stops at the first candidate missing from the destination or equal to the value, and every earlier one is a destination key with a different value |
| Search.SearchFree | kube/pkg/openapi/merge/merge.go:234-239 | the second loop stops at the first name from its start that is neither used nor in the source |
| Search.TakenStep | kube/pkg/openapi/merge/merge.go:235-238 | passing over a taken candidate keeps every passed candidate taken |
| Conflicts.KeyOrder | kube/pkg/openapi/merge/merge.go:210 | a range over a map visits every key exactly once |
| Conflicts.NovelPaths | kube/pkg/openapi/merge/merge.go:185-193 | the kept paths are exactly the source paths the destination lacks, and the flag says exactly whether some path is in both |
| Conflicts.ConflictRenames | kube/pkg/openapi/merge/merge.go:203-242 | an error exactly when renaming is off and some key conflicts, naming such a key; otherwise exactly the conflicts are renamed, each to the first name that fits (the first equal destination entry along the destination keys, or else the first candidate not taken), and a fresh name goes to one key only |
| Conflicts.NamedFirstFit | kube/pkg/openapi/merge/merge.go:221-241 | the name the search returns, with `usedNames` holding the destination keys and the fresh names given so far, is the first name that fits |
| Conflicts.FirstFitReusesFirstEqual | kube/pkg/openapi/merge/merge.go:221-232 | when `k_v2` is a destination key with an equal value, the renaming gives `k` exactly `k_v2` |
| Conflicts.FreshNameUnique | kube/pkg/openapi/merge/merge.go:240-241 | a key renamed to a fresh name is the only key stored under that name |
| Conflicts.NoReuseNoCollision | kube/pkg/openapi/merge/merge.go:221-243 | when no new name is reused from the destination, re-keying the source loses no entry |
| Merge.Document.constructor | kube/pkg/openapi/merge/merge.go:174 | the destination document holds the given fields |
| Merge.WithPaths | kube/pkg/openapi/merge/merge.go:181-183 | a destination without paths gets an empty `Paths`; one with paths keeps them |
| Merge.ParametersEqual | kube/pkg/openapi/merge/merge.go:252-254 | `reflect.DeepEqual` on two parameters, as value equality |
| Merge.MergeLoopStep | kube/pkg/openapi/merge/merge.go:288-299 | storing one visited entry keeps the loop's invariant |
| Merge.MergeLoopDone | kube/pkg/openapi/merge/merge.go:288-299 | a loop over every source key has merged the maps |
| Merge.MergedGvksInto | kube/pkg/openapi/merge/merge.go:294-298 | what `mergedGVKs` returns, stored as the copy step stores it, is the GVK merge of the two definitions |
| Merge.GvksMergedIntoKeeps | kube/pkg/openapi/merge/merge.go:294-298 | a GVK merge changes a definition only in its GVK list, which it has when either side had one |
| Merge.MergedDefinitionsKeepOld | kube/pkg/openapi/merge/merge.go:287-299 | after the definition copy every destination definition is still there, equal modulo GVK |
| Merge.MergeDefinition | kube/pkg/openapi/merge/merge.go:288-298 | one round of the corrected definition copy (the store is `Gvk.StoreGvk`, see Findings): a new definition is copied, an existing one gets the merged GVK list, and an error names a GVK merge that fails |
| Merge.MergeDefinitionMaps | kube/pkg/openapi/merge/merge.go:287-299 | the corrected definition copy loop: on success all definitions are merged, and on a GVK error some of them are, with the failing pair named |
| Merge.CopyDefinitions | kube/pkg/openapi/merge/merge.go:287-299 | the corrected definition copy into the destination document, changing no other field |
| Merge.AddParameters | kube/pkg/openapi/merge/merge.go:301-309 | parameters the destination lacks are added and existing ones are kept |
| Merge.CopyParameters | kube/pkg/openapi/merge/merge.go:301-309 | the parameter copy into the destination document, changing no other field |
| Merge.AddPaths | kube/pkg/openapi/merge/merge.go:311-321 | new paths are added; a path in both is an error when conflicts are not ignored, and then such a path always stops the loop; when they are ignored the destination's path is kept (the corrected copy, see Findings) |
| Merge.CopyPaths | kube/pkg/openapi/merge/merge.go:311-321 | the path copy into the destination document, changing no other field |
| Merge.SourceToMerge | kube/pkg/openapi/merge/merge.go:184-201 | the merge goes on exactly when conflicts are not ignored or some path is novel; the source is filtered to the novel paths only when some path conflicts |
| Merge.KeptPathsCoverNovel | kube/pkg/openapi/merge/merge.go:194-199 | a filter by the novel paths keeps every novel path |
| Merge.FilteredPathsCoverNovel | kube/pkg/openapi/merge/merge.go:194-199 | after the filter, the destination and source paths together are what they were |
| Merge.ResolveConflicts | kube/pkg/openapi/merge/merge.go:203-285 | the corrected renaming phase (equality is `Gvk.EqualModuloGvk`): a model name conflict is reported exactly when model renaming is off and a definition conflicts, then the same for parameters; otherwise each conflict is renamed to the first name that fits and the source keeps its paths |
| Merge.ResolvedByModelConflict | kube/pkg/openapi/merge/merge.go:217-219 | a model name conflict stops the renaming phase |
| Merge.ResolvedByParameterConflict | kube/pkg/openapi/merge/merge.go:259-261 | a parameter name conflict stops the renaming phase after the definitions are renamed |
| Merge.ResolvedByRenaming | kube/pkg/openapi/merge/merge.go:243-285 | renaming both maps completes the renaming phase |
| Merge.CopiedPathKeys | kube/pkg/openapi/merge/merge.go:311-321 | a successful copy leaves the destination with the paths of both documents |
| Merge.CopyAll | kube/pkg/openapi/merge/merge.go:287-321 | the three corrected copy loops (`Gvk.StoreGvk`, `Merge.AddPaths`): a GVK error stops at the definitions, a duplicated path at the paths, and success adds every source entry |
| Merge.CopiedNoNameConflict | kube/pkg/openapi/merge/merge.go:287-321 | the copy phase never reports a name conflict |
| Merge.PreparedByCopy | kube/pkg/openapi/merge/merge.go:184-323 | a merge past renaming has the outcome of its copy phase |
| Merge.PreparedByNameConflict | kube/pkg/openapi/merge/merge.go:203-285 | a merge stopped by a name conflict leaves the destination unchanged |
| Merge.MergePrepared | kube/pkg/openapi/merge/merge.go:184-323 | the corrected `mergeSpecs` from the point where both documents have paths: no novel path while ignoring means no change; a name conflict means no change; otherwise the renamed source is copied, and success leaves the paths of both |
| Merge.MergeSpecs | kube/pkg/openapi/merge/merge.go:174-324 | the corrected `mergeSpecs`: a source without paths changes nothing; otherwise a destination without paths gets empty paths, and the merge goes on as `Merge.MergePrepared` states |
| Merge.SucceededByCopy | kube/pkg/openapi/merge/merge.go:203-324 | a merge that succeeds past the path policy renamed both maps and holds the destination's keys plus the renamed source's |
| Merge.RenamedDefinitionKeys | kube/pkg/openapi/merge/merge.go:203-242 | the renamed source holds its definitions exactly under their new names |
| Merge.RenamedParameterKeys | kube/pkg/openapi/merge/merge.go:244-285 | the renamed source holds its parameters exactly under their new names, and renaming definitions left the parameter keys alone |
| Merge.SourceDefinitionsArrive | kube/pkg/openapi/merge/merge.go:165-170 | after a successful merge every filtered source definition is in the destination under its new name, and no other definition was added |
| Merge.SourceParametersArrive | kube/pkg/openapi/merge/merge.go:165-170 | the same for the parameters |
| Merge.RenamingIgnoringOutcome | kube/pkg/openapi/merge/merge.go:165-170 | for the corrected `mergeSpecs` with all renaming on and path conflicts ignored, the only error is a GVK one, and success keeps every destination definition (modulo GVK), parameter and path, and adds every source path |
| Merge.MergeSpecsIgnorePathConflictRenamingDefinitionsAndParameters | kube/pkg/openapi/merge/merge.go:165-170 | the same, for the corrected merge as a method on the destination document |
| Merge.PrefixFilterKeepsConflict | kube/pkg/openapi/merge/merge.go:184-201 | destination `/a/b`, source `/a` and `/a/b`: the prefix filter keeps `/a/b`, so the path copy as written fails |

## Left out

- `walkOnAllReferences` and `util.NewTrie` are not part of this model's source file. References are followed as `Reach.Closure` states: from the refs of the paths into the definitions and parameters they name, transitively. A keep prefix is a plain string prefix (`Filter.HasPrefix`).
- Filter.Followed: the walk over references is seeded with the refs of the paths only, both for the initial and for the final used set (merge.go:55 and 72). It follows `#/parameters/` refs into the top-level parameters as well as `#/definitions/` refs into the definitions. Both are choices for the missing `walkOnAllReferences`, not read from its code.
- The error messages are not modelled. `fmt.Errorf` texts become constructors of `Merge.MergeError` and `Gvk.GvkError` that carry the same datum (the key, the path, the offending value). `Gvk.FormatS` renders `%s` on decoded JSON values: strings as themselves, lists and objects with their elements (`[a b]`, `map[k:v]` with sorted keys), and nil, bools and numbers as bad-verb notices.
- Pointer identity is modelled as value equality. A callback that returns an equal copy counts as "unchanged" here, whereas Go compares addresses.
- Walker.WalkSchema: requires a schema callback that never makes a tree taller (`Heights.HeightPreserving`). Go imposes no such restriction. The callbacks the source passes (`SchemaCallBackNoop`) meet it. It composes the corrected map and list walks (`Walker.WalkSchemaMap`, `Walker.WalkSchemaSeq`, `Walker.WalkSchemaOrArray`), so its map keys and list lengths are those of the callback's result; the code as written takes a changed field from the schema before the callback (see the next two lines).
- Walker.WalkSchemaMap: this is the corrected map walk. The code as written rebuilds a changed `definitions`, `properties` or `patternProperties` map from the schema passed in, so it keeps that map's entries and drops entries that only the callback's result has (`WalkerFindings.MapFieldAsWritten`, `WalkerFindings.MapFieldAsWrittenDropsEntry`, see Findings). With the no-op schema callback that `ReplaceReferences` uses, the two agree (`WalkerFindings.MapFieldAsWrittenWithoutCallback`).
- Walker.WalkSchemaSeq / Walker.WalkSchemaOrArray: these are the corrected list walks. The code as written rebuilds a changed list from the schema passed in, not from the callback's result (`WalkerFindings.SeqFieldAsWritten`, see Findings). With the no-op schema callback that `ReplaceReferences` uses, the two agree (`WalkerFindings.SeqFieldAsWrittenWithoutCallback`).
- The shared-structure warnings are not modelled ("the output shares data structures with the input"). Nor is the shared `Extensions` map of `existing` at merge.go:297: values have no aliasing.
- Nil and empty maps or lists are not distinguished. The exceptions are `Paths` (an `Option`) and the optional pointers. The nil-map store at merge.go:297 is modelled by reading an empty extension map as nil.
- Gvk.SortByKeys: a selection sort stands in for `sort.Sort`. Its contract (sorted by key, a permutation) is what `sort.Sort` promises. Neither promises an order among entries with equal keys, so that order is not pinned down.
- `mergedGVKs` never adds the keys of the second list to `seen`. Two entries of the second list with the same new key are therefore both added. The model keeps this (`Gvk.NewGvks`); it is not listed as a finding, since the code may intend it.
- An error in a copy loop leaves the destination partly updated (`Merge.PartlyMergedBy`, `Merge.PartlyAdded`). This is kept as written.
- Definitions are compared modulo GVK before references are renamed (merge.go:212). The model keeps this order.
- Conflicts.NoReuseNoCollision: when a renamed key reuses a destination name that another source key also has, re-keying can lose an entry. The lemma covers only the case without reuse; `Rename.RenameKeysCollision` shows the order dependence.
- `dest.Paths` is set to an empty `Paths` even when the merge then returns without change (merge.go:181-197). `Merge.MergeOutcome` states this.
- `reflect.DeepEqual` on parameters is modelled as value equality (`Merge.ParametersEqual`). The model does not represent the cases where it differs from value equality, such as a NaN inside an extension.
- JSON numbers are modelled as integers, so there is no floating point.
- Gvk.GvkKeyOf: a number in a GVK field is an integer here, and `Strings.FloatString` prints it as `%v` prints a float64 of that value: plain digits below 10^6, exponent form from there on. Fractions, and the rounding of integers beyond 2^53 that float64 cannot hold, are not modelled. Map keys inside a field are sorted by character, where Go sorts by byte; the two orders agree on every valid UTF-8 string, and a string here is a sequence of characters, so invalid UTF-8 is not represented.
- Merge.MergeDefinition: composes the corrected `Gvk.StoreGvk`. As written, merge.go:297 panics when the destination definition has no extensions (`Gvk.StoreGvkAsWrittenPanics`).
- Merge.MergeDefinitionMaps: composes the corrected `Gvk.StoreGvk`, so the panic at merge.go:297 is not an outcome.
- Merge.CopyDefinitions: composes the corrected `Gvk.StoreGvk`, so the panic at merge.go:297 is not an outcome.
- Merge.ResolveConflicts: compares definitions with the corrected `Gvk.EqualModuloGvk`. As written, merge.go:212 also counts `{x-a: null}` and `{x-b: null}` as equal (`Gvk.AsWrittenNullMatchesMissing`).
- Merge.CopyAll: composes the corrected `Gvk.StoreGvk` and `Merge.AddPaths`. As written, merge.go panics at 297 or returns "duplicated path" at 312-315 on the Findings inputs.
- Merge.MergePrepared: composes the corrected definition comparison, GVK store and path copy. The outcomes of the code as written on the Findings inputs (a panic, a path error, equality under null extensions) are not among its outcomes.
- Merge.MergeSpecs: composes the corrected definition comparison, GVK store and path copy, as `Merge.MergePrepared` does.
- Merge.RenamingIgnoringOutcome: "the only error is a GVK one" holds of the corrected merge. As written, destination `/a/b` with source `/a` and `/a/b` gives "unable to merge: duplicated path" (`Merge.PrefixFilterKeepsConflict`), and a destination definition without extensions can panic at merge.go:297.
- Merge.MergeSpecsIgnorePathConflictRenamingDefinitionsAndParameters: the same corrected composition as `Merge.RenamingIgnoringOutcome`. The duplicate-path error and the panic of the code as written are not among its outcomes.

## Findings

| source | as written | input that shows it | evidently intended | confidence | as-written member | corrected member |
|---|---|---|---|---|---|---|
| kube/pkg/openapi/merge/merge.go:719-723 | `walkParameter` stores the new `items` ref through `param.Items` without cloning, so the caller's parameter is changed and the walk returns the same pointer | a parameter with no schema whose ref is fixed and whose `items` ref the callback changes | clone before writing, and report the change | not executed | WalkerFindings.WalkParameterAsWrittenMutatesCaller | WalkerFindings.WalkParameterReportsItems |
| kube/pkg/openapi/merge/merge.go:334-353 | a null extension value in `s1` matches a missing key in `s2`, because a map read of a missing key gives nil | `{x-a: null}` against `{x-b: null}`, same otherwise | equal only when every non-GVK key is present on both sides with equal values | not executed | Gvk.AsWrittenNullMatchesMissing | Gvk.EqualModuloGvk |
| kube/pkg/openapi/merge/merge.go:294-297 | the merged GVK list is written into `existing.Extensions`, which is nil when the destination definition has no extensions: a panic | destination definition with no extensions, source definition equal to it except for a GVK list `[]` | create the extension map before storing | not executed | Gvk.StoreGvkAsWrittenPanics | Gvk.StoreGvk |
| kube/pkg/openapi/merge/merge.go:564-607 | after the schema callback, a changed map field is rebuilt from the pre-callback schema's map, so entries only the callback result had are lost | a schema callback that gives a schema without properties the properties `a` and `b`, where the walk of `a` changes (`WalkerFindings.MapFieldAsWrittenExample`) | rebuild from the map being walked | not executed | WalkerFindings.MapFieldAsWrittenDropsEntry | Walker.WalkSchemaMap |
| kube/pkg/openapi/merge/merge.go:609-646 | after the schema callback, a changed `allOf`, `anyOf` or `oneOf` is rebuilt as a copy of the pre-callback schema's list, and the later indices are read from that copy; an index past its length panics | a callback that replaces `allOf` `[A, B]` by `[A2, B2]`, where the walk changes `A2` and leaves `B` and `B2` alone, gives `[walk(A2), B]`; one that adds `allOf` `[x]` to a schema without it, where the walk of `x` changes, panics (`WalkerFindings.SeqFieldAsWrittenExample`) | rebuild from the list being walked | not executed | WalkerFindings.SeqFieldAsWrittenKeepsStale | Walker.WalkSchemaSeq |
| kube/pkg/openapi/merge/merge.go:669-691 | a changed `items` list is rebuilt from `orig.Items.Schemas`, a nil dereference when the pre-callback schema had no `items` and a zero-length copy, then an index-out-of-range panic, when it had a single schema | a callback that adds an `items` list to a schema without `items`, where the walk of an element changes | rebuild from the `items` being walked | not executed | WalkerFindings.ItemsListAsWritten | Walker.WalkSchemaOrArray |
| kube/pkg/openapi/merge/merge.go:184-201 | under `ignorePathConflicts` the source is filtered by the novel paths used as prefixes, so a conflicting path under a novel prefix survives, and the copy at lines 311-315 then fails with "duplicated path" | destination `/a/b`, source `/a` and `/a/b` | keep the destination's version of every conflicting path | not executed | Merge.PrefixFilterKeepsConflict | Merge.AddPaths |
