/**
 * What a walk does to a whole document: the conditions of `WalkerProperties`
 * lifted through parameters, responses, operations, path items and the root.
 */
module WalkerDocument {
  import opened Wrappers
  import opened OpenApi
  import opened Heights
  import opened Walker
  import opened Holds
  import opened WalkerProperties

  /// The same condition on the document levels above schemas.

  ghost predicate ParameterHolds(p: Parameter, pr: string -> bool, q: Schema -> bool)
  {
    pr(p.ref) && OptHolds(p.schema, pr, q) && (p.items.Some? ==> pr(p.items.value.ref))
  }

  ghost predicate ParameterSeqHolds(ps: seq<Parameter>, pr: string -> bool, q: Schema -> bool)
  {
    forall i :: 0 <= i < |ps| ==> ParameterHolds(ps[i], pr, q)
  }

  ghost predicate ResponseHolds(resp: Response, pr: string -> bool, q: Schema -> bool)
  {
    pr(resp.ref) && OptHolds(resp.schema, pr, q)
  }

  ghost predicate ResponsesHolds(o: Option<Responses>, pr: string -> bool, q: Schema -> bool)
  {
    o.Some? ==>
      (o.value.default.Some? ==> ResponseHolds(o.value.default.value, pr, q))
      && forall c :: c in o.value.statusCodeResponses ==> ResponseHolds(o.value.statusCodeResponses[c], pr, q)
  }

  ghost predicate OperationHolds(o: Option<Operation>, pr: string -> bool, q: Schema -> bool)
  {
    o.Some? ==> ParameterSeqHolds(o.value.parameters, pr, q) && ResponsesHolds(o.value.responses, pr, q)
  }

  ghost predicate PathItemHolds(item: PathItem, pr: string -> bool, q: Schema -> bool)
  {
    ParameterSeqHolds(item.parameters, pr, q)
    && OperationHolds(item.get, pr, q) && OperationHolds(item.put, pr, q) && OperationHolds(item.post, pr, q)
    && OperationHolds(item.delete, pr, q) && OperationHolds(item.options, pr, q)
    && OperationHolds(item.head, pr, q) && OperationHolds(item.patch, pr, q)
  }

  ghost predicate PathsHolds(o: Option<Paths>, pr: string -> bool, q: Schema -> bool)
  {
    o.Some? ==> forall k :: k in o.value.paths ==> PathItemHolds(o.value.paths[k], pr, q)
  }

  /** `pr` holds of every reference and `q` of every schema node the walker visits in `sw`. */
  ghost predicate SwaggerHolds(sw: Swagger, pr: string -> bool, q: Schema -> bool)
  {
    PathsHolds(sw.paths, pr, q)
    && MapHolds(sw.definitions, pr, q)
    && (forall k :: k in sw.parameters ==> ParameterHolds(sw.parameters[k], pr, q))
    && (forall k :: k in sw.responses ==> ResponseHolds(sw.responses[k], pr, q))
  }

  // ----- Document levels: fixed points -----

  lemma WalkSchemaPtrFixed(o: Option<Schema>, rf: string -> string, sf: Schema -> Schema)
    requires HeightPreserving(sf) && OptHolds(o, r => FixesRef(rf, r), x => FixesSchema(sf, x))
    ensures WalkSchemaPtr(o, rf, sf) == o
  {
    if o.Some? {
      WalkSchemaFixed(o.value, rf, sf);
    }
  }

  lemma WalkParameterFixed(p: Parameter, rf: string -> string, sf: Schema -> Schema)
    requires HeightPreserving(sf) && ParameterHolds(p, r => FixesRef(rf, r), x => FixesSchema(sf, x))
    ensures WalkParameter(p, rf, sf) == p
  {
    WalkSchemaPtrFixed(p.schema, rf, sf);
  }

  lemma WalkParameterSeqFixed(ps: seq<Parameter>, rf: string -> string, sf: Schema -> Schema)
    requires HeightPreserving(sf) && ParameterSeqHolds(ps, r => FixesRef(rf, r), x => FixesSchema(sf, x))
    ensures WalkParameterSeq(ps, rf, sf) == ps
  {
    forall i | 0 <= i < |ps|
      ensures WalkParameter(ps[i], rf, sf) == ps[i]
    {
      WalkParameterFixed(ps[i], rf, sf);
    }
  }

  lemma WalkResponseFixed(resp: Response, rf: string -> string, sf: Schema -> Schema)
    requires HeightPreserving(sf) && ResponseHolds(resp, r => FixesRef(rf, r), x => FixesSchema(sf, x))
    ensures WalkResponse(resp, rf, sf) == resp
  {
    WalkSchemaPtrFixed(resp.schema, rf, sf);
  }

  lemma WalkResponsesFixed(o: Option<Responses>, rf: string -> string, sf: Schema -> Schema)
    requires HeightPreserving(sf) && ResponsesHolds(o, r => FixesRef(rf, r), x => FixesSchema(sf, x))
    ensures WalkResponses(o, rf, sf) == o
  {
    if o.Some? {
      var resps := o.value;
      if resps.default.Some? {
        WalkResponseFixed(resps.default.value, rf, sf);
      }
      forall c | c in resps.statusCodeResponses
        ensures WalkResponse(resps.statusCodeResponses[c], rf, sf) == resps.statusCodeResponses[c]
      {
        WalkResponseFixed(resps.statusCodeResponses[c], rf, sf);
      }
      var codes := map c | c in resps.statusCodeResponses :: WalkResponse(resps.statusCodeResponses[c], rf, sf);
      assert codes == resps.statusCodeResponses;
    }
  }

  lemma WalkOperationFixed(o: Option<Operation>, rf: string -> string, sf: Schema -> Schema)
    requires HeightPreserving(sf) && OperationHolds(o, r => FixesRef(rf, r), x => FixesSchema(sf, x))
    ensures WalkOperation(o, rf, sf) == o
  {
    if o.Some? {
      WalkParameterSeqFixed(o.value.parameters, rf, sf);
      WalkResponsesFixed(o.value.responses, rf, sf);
    }
  }

  lemma WalkPathItemFixed(item: PathItem, rf: string -> string, sf: Schema -> Schema)
    requires HeightPreserving(sf) && PathItemHolds(item, r => FixesRef(rf, r), x => FixesSchema(sf, x))
    ensures WalkPathItem(item, rf, sf) == item
  {
    WalkParameterSeqFixed(item.parameters, rf, sf);
    WalkOperationFixed(item.get, rf, sf);
    WalkOperationFixed(item.put, rf, sf);
    WalkOperationFixed(item.post, rf, sf);
    WalkOperationFixed(item.delete, rf, sf);
    WalkOperationFixed(item.options, rf, sf);
    WalkOperationFixed(item.head, rf, sf);
    WalkOperationFixed(item.patch, rf, sf);
  }

  lemma WalkPathsFixed(o: Option<Paths>, rf: string -> string, sf: Schema -> Schema)
    requires HeightPreserving(sf) && PathsHolds(o, r => FixesRef(rf, r), x => FixesSchema(sf, x))
    ensures WalkPaths(o, rf, sf) == o
  {
    if o.Some? {
      forall k | k in o.value.paths
        ensures WalkPathItem(o.value.paths[k], rf, sf) == o.value.paths[k]
      {
        WalkPathItemFixed(o.value.paths[k], rf, sf);
      }
      var items := map k | k in o.value.paths :: WalkPathItem(o.value.paths[k], rf, sf);
      assert items == o.value.paths;
    }
  }

  /**
   * A walk returns its input when the ref callback hands back every
   * reference of the document and the schema callback every schema: the
   * result differs from the input only where a callback changed something.
   */
  lemma WalkRootFixed(sw: Swagger, rf: string -> string, sf: Schema -> Schema)
    requires HeightPreserving(sf) && SwaggerHolds(sw, r => FixesRef(rf, r), x => FixesSchema(sf, x))
    ensures WalkRoot(sw, rf, sf) == sw
  {
    WalkPathsFixed(sw.paths, rf, sf);
    WalkDefinitionsFixed(sw.definitions, rf, sf);
    WalkParameterMapFixed(sw.parameters, rf, sf);
    WalkResponseMapFixed(sw.responses, rf, sf);
  }

  lemma WalkDefinitionsFixed(m: map<string, Schema>, rf: string -> string, sf: Schema -> Schema)
    requires HeightPreserving(sf) && MapHolds(m, r => FixesRef(rf, r), x => FixesSchema(sf, x))
    ensures WalkDefinitions(m, rf, sf) == m
  {
    forall k | k in m
      ensures WalkSchema(m[k], rf, sf) == m[k]
    {
      WalkSchemaFixed(m[k], rf, sf);
    }
  }

  lemma WalkParameterMapFixed(m: map<string, Parameter>, rf: string -> string, sf: Schema -> Schema)
    requires HeightPreserving(sf)
    requires forall k :: k in m ==> ParameterHolds(m[k], r => FixesRef(rf, r), x => FixesSchema(sf, x))
    ensures WalkParameterMap(m, rf, sf) == m
  {
    forall k | k in m
      ensures WalkParameter(m[k], rf, sf) == m[k]
    {
      WalkParameterFixed(m[k], rf, sf);
    }
  }

  lemma WalkResponseMapFixed(m: map<string, Response>, rf: string -> string, sf: Schema -> Schema)
    requires HeightPreserving(sf)
    requires forall k :: k in m ==> ResponseHolds(m[k], r => FixesRef(rf, r), x => FixesSchema(sf, x))
    ensures WalkResponseMap(m, rf, sf) == m
  {
    forall k | k in m
      ensures WalkResponse(m[k], rf, sf) == m[k]
    {
      WalkResponseFixed(m[k], rf, sf);
    }
  }

  /** A walk with `RefCallbackNoop` and `SchemaCallBackNoop` returns its input. */
  lemma WalkRootNoop(sw: Swagger)
    ensures WalkRoot(sw, RefCallbackNoop, SchemaCallbackNoop) == sw
  {
    SwaggerHoldsUniversal(sw, r => FixesRef(RefCallbackNoop, r), x => FixesSchema(SchemaCallbackNoop, x));
    WalkRootFixed(sw, RefCallbackNoop, SchemaCallbackNoop);
  }

  lemma ParameterSeqHoldsUniversal(ps: seq<Parameter>, pr: string -> bool, q: Schema -> bool)
    requires (forall r :: pr(r)) && (forall x :: q(x))
    ensures ParameterSeqHolds(ps, pr, q)
  {
    forall i | 0 <= i < |ps| && ps[i].schema.Some? ensures SchemaHolds(ps[i].schema.value, pr, q) {
      SchemaHoldsUniversal(ps[i].schema.value, pr, q);
    }
  }

  lemma OperationHoldsUniversal(o: Option<Operation>, pr: string -> bool, q: Schema -> bool)
    requires (forall r :: pr(r)) && (forall x :: q(x))
    ensures OperationHolds(o, pr, q)
  {
    if o.Some? {
      ParameterSeqHoldsUniversal(o.value.parameters, pr, q);
      var rs := o.value.responses;
      if rs.Some? {
        if rs.value.default.Some? && rs.value.default.value.schema.Some? {
          SchemaHoldsUniversal(rs.value.default.value.schema.value, pr, q);
        }
        forall c | c in rs.value.statusCodeResponses && rs.value.statusCodeResponses[c].schema.Some?
          ensures SchemaHolds(rs.value.statusCodeResponses[c].schema.value, pr, q)
        {
          SchemaHoldsUniversal(rs.value.statusCodeResponses[c].schema.value, pr, q);
        }
      }
    }
  }

  lemma PathItemHoldsUniversal(item: PathItem, pr: string -> bool, q: Schema -> bool)
    requires (forall r :: pr(r)) && (forall x :: q(x))
    ensures PathItemHolds(item, pr, q)
  {
    ParameterSeqHoldsUniversal(item.parameters, pr, q);
    OperationHoldsUniversal(item.get, pr, q);
    OperationHoldsUniversal(item.put, pr, q);
    OperationHoldsUniversal(item.post, pr, q);
    OperationHoldsUniversal(item.delete, pr, q);
    OperationHoldsUniversal(item.options, pr, q);
    OperationHoldsUniversal(item.head, pr, q);
    OperationHoldsUniversal(item.patch, pr, q);
  }

  lemma SwaggerHoldsUniversal(sw: Swagger, pr: string -> bool, q: Schema -> bool)
    requires (forall r :: pr(r)) && (forall x :: q(x))
    ensures SwaggerHolds(sw, pr, q)
  {
    if sw.paths.Some? {
      forall k | k in sw.paths.value.paths ensures PathItemHolds(sw.paths.value.paths[k], pr, q) {
        PathItemHoldsUniversal(sw.paths.value.paths[k], pr, q);
      }
    }
    forall k | k in sw.definitions ensures SchemaHolds(sw.definitions[k], pr, q) {
      SchemaHoldsUniversal(sw.definitions[k], pr, q);
    }
    forall k | k in sw.parameters && sw.parameters[k].schema.Some?
      ensures SchemaHolds(sw.parameters[k].schema.value, pr, q)
    {
      SchemaHoldsUniversal(sw.parameters[k].schema.value, pr, q);
    }
    forall k | k in sw.responses && sw.responses[k].schema.Some?
      ensures SchemaHolds(sw.responses[k].schema.value, pr, q)
    {
      SchemaHoldsUniversal(sw.responses[k].schema.value, pr, q);
    }
  }

  // ----- Document levels: references of a walk with the no-op schema callback -----

  lemma WalkSchemaPtrRefs(o: Option<Schema>, rf: string -> string, p: string -> bool, q: string -> bool)
    requires Carries(rf, p, q) && OptHolds(o, p, Always)
    ensures OptHolds(WalkSchemaPtr(o, rf, SchemaCallbackNoop), q, Always)
  {
    if o.Some? {
      WalkSchemaRefs(o.value, rf, p, q);
    }
  }

  lemma WalkParameterRefs(param: Parameter, rf: string -> string, p: string -> bool, q: string -> bool)
    requires Carries(rf, p, q) && ParameterHolds(param, p, Always)
    ensures ParameterHolds(WalkParameter(param, rf, SchemaCallbackNoop), q, Always)
  {
    WalkSchemaPtrRefs(param.schema, rf, p, q);
  }

  lemma WalkParameterSeqRefs(ps: seq<Parameter>, rf: string -> string, p: string -> bool, q: string -> bool)
    requires Carries(rf, p, q) && ParameterSeqHolds(ps, p, Always)
    ensures ParameterSeqHolds(WalkParameterSeq(ps, rf, SchemaCallbackNoop), q, Always)
  {
    forall i | 0 <= i < |ps|
      ensures ParameterHolds(WalkParameter(ps[i], rf, SchemaCallbackNoop), q, Always)
    {
      WalkParameterRefs(ps[i], rf, p, q);
    }
  }

  lemma WalkResponseRefs(resp: Response, rf: string -> string, p: string -> bool, q: string -> bool)
    requires Carries(rf, p, q) && ResponseHolds(resp, p, Always)
    ensures ResponseHolds(WalkResponse(resp, rf, SchemaCallbackNoop), q, Always)
  {
    WalkSchemaPtrRefs(resp.schema, rf, p, q);
  }

  lemma WalkResponsesRefs(o: Option<Responses>, rf: string -> string, p: string -> bool, q: string -> bool)
    requires Carries(rf, p, q) && ResponsesHolds(o, p, Always)
    ensures ResponsesHolds(WalkResponses(o, rf, SchemaCallbackNoop), q, Always)
  {
    if o.Some? {
      var resps := o.value;
      if resps.default.Some? {
        WalkResponseRefs(resps.default.value, rf, p, q);
      }
      forall c | c in resps.statusCodeResponses
        ensures ResponseHolds(WalkResponse(resps.statusCodeResponses[c], rf, SchemaCallbackNoop), q, Always)
      {
        WalkResponseRefs(resps.statusCodeResponses[c], rf, p, q);
      }
    }
  }

  lemma WalkOperationRefs(o: Option<Operation>, rf: string -> string, p: string -> bool, q: string -> bool)
    requires Carries(rf, p, q) && OperationHolds(o, p, Always)
    ensures OperationHolds(WalkOperation(o, rf, SchemaCallbackNoop), q, Always)
  {
    if o.Some? {
      WalkParameterSeqRefs(o.value.parameters, rf, p, q);
      WalkResponsesRefs(o.value.responses, rf, p, q);
    }
  }

  lemma WalkPathItemRefs(item: PathItem, rf: string -> string, p: string -> bool, q: string -> bool)
    requires Carries(rf, p, q) && PathItemHolds(item, p, Always)
    ensures PathItemHolds(WalkPathItem(item, rf, SchemaCallbackNoop), q, Always)
  {
    WalkParameterSeqRefs(item.parameters, rf, p, q);
    WalkOperationRefs(item.get, rf, p, q);
    WalkOperationRefs(item.put, rf, p, q);
    WalkOperationRefs(item.post, rf, p, q);
    WalkOperationRefs(item.delete, rf, p, q);
    WalkOperationRefs(item.options, rf, p, q);
    WalkOperationRefs(item.head, rf, p, q);
    WalkOperationRefs(item.patch, rf, p, q);
  }

  lemma WalkPathsRefs(o: Option<Paths>, rf: string -> string, p: string -> bool, q: string -> bool)
    requires Carries(rf, p, q) && PathsHolds(o, p, Always)
    ensures PathsHolds(WalkPaths(o, rf, SchemaCallbackNoop), q, Always)
  {
    if o.Some? {
      forall k | k in o.value.paths
        ensures PathItemHolds(WalkPathItem(o.value.paths[k], rf, SchemaCallbackNoop), q, Always)
      {
        WalkPathItemRefs(o.value.paths[k], rf, p, q);
      }
    }
  }

  /**
   * `ReplaceReferences` maps every reference through the callback and leaves
   * no other: a property of references that the callback carries from `p` to
   * `q` holds of every reference of the result when `p` held of every
   * reference of the input.
   */
  lemma ReplaceReferencesRefs(sw: Swagger, rf: string -> string, p: string -> bool, q: string -> bool)
    requires Carries(rf, p, q) && SwaggerHolds(sw, p, Always)
    ensures SwaggerHolds(ReplaceReferences(rf, sw), q, Always)
  {
    WalkPathsRefs(sw.paths, rf, p, q);
    forall k | k in sw.definitions
      ensures SchemaHolds(WalkSchema(sw.definitions[k], rf, SchemaCallbackNoop), q, Always)
    {
      WalkSchemaRefs(sw.definitions[k], rf, p, q);
    }
    forall k | k in sw.parameters
      ensures ParameterHolds(WalkParameter(sw.parameters[k], rf, SchemaCallbackNoop), q, Always)
    {
      WalkParameterRefs(sw.parameters[k], rf, p, q);
    }
    forall k | k in sw.responses
      ensures ResponseHolds(WalkResponse(sw.responses[k], rf, SchemaCallbackNoop), q, Always)
    {
      WalkResponseRefs(sw.responses[k], rf, p, q);
    }
  }
}
