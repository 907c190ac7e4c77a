/**
 * Properties of the comparison engine: how the accessors split a diff,
 * that a document compared with itself yields nothing, that the direction
 * only ever changes severities, the rule tables of each layer, and the
 * order in which changes are emitted.
 */
module DiffFacts {
  import opened Wrappers
  import opened IndexMaps
  import opened ChangeModel
  import opened OpenApi
  import opened Diff

  // ---------------------------------------------------------------------
  // Accessors
  // ---------------------------------------------------------------------

  /** Selecting by severity distributes over concatenation, so the original order is kept. */
  lemma {:induction false} OfSeverityAppend(a: seq<Change>, b: seq<Change>, sev: Severity)
    ensures OfSeverity(a + b, sev) == OfSeverity(a, sev) + OfSeverity(b, sev)
  {
    if a == [] {
      assert a + b == b;
    } else {
      assert (a + b)[1..] == a[1..] + b;
      OfSeverityAppend(a[1..], b, sev);
    }
  }

  /** Adding one element to one side of a partition partitions the longer sequence. */
  lemma ConsPartition(c: Change, rest: seq<Change>, b: seq<Change>, n: seq<Change>, b': seq<Change>, n': seq<Change>)
    requires multiset(b) + multiset(n) == multiset(rest)
    requires (b' == [c] + b && n' == n) || (b' == b && n' == [c] + n)
    ensures multiset(b') + multiset(n') == multiset([c] + rest)
  {
    assert multiset([c] + rest) == multiset{c} + multiset(rest);
    if b' == [c] + b {
      assert multiset(b') == multiset{c} + multiset(b);
    } else {
      assert multiset(n') == multiset{c} + multiset(n);
    }
  }

  lemma {:induction false} OfSeverityPartition(cs: seq<Change>)
    ensures multiset(OfSeverity(cs, Breaking)) + multiset(OfSeverity(cs, NonBreaking)) == multiset(cs)
  {
    if cs != [] {
      var c, rest := cs[0], cs[1..];
      OfSeverityPartition(rest);
      assert cs == [c] + rest;
      ConsPartition(c, rest, OfSeverity(rest, Breaking), OfSeverity(rest, NonBreaking),
                    OfSeverity(cs, Breaking), OfSeverity(cs, NonBreaking));
    }
  }

  /**
   * `breaking()` and `non_breaking()` split a diff: together they hold every
   * change exactly as often as the diff does.
   */
  lemma SeveritySplit(d: Diff)
    ensures multiset(BreakingChanges(d)) + multiset(NonBreakingChanges(d)) == multiset(d.changes)
    ensures |BreakingChanges(d)| + |NonBreakingChanges(d)| == |d.changes|
  {
    OfSeverityPartition(d.changes);
    assert |multiset(BreakingChanges(d)) + multiset(NonBreakingChanges(d))| == |multiset(d.changes)|;
  }

  // ---------------------------------------------------------------------
  // Well-formedness survives reference resolution
  // ---------------------------------------------------------------------

  lemma ResolvedSchemaWf(r: RefOr<Schema>, comps: Option<Components>)
    requires WfSchemaRef(r) && WfComponents(comps)
    ensures ResolveSchema(r, comps).Some? ==> WfSchema(ResolveSchema(r, comps).value)
  {
    var res := ResolveSchema(r, comps);
    if r.Reference? && res.Some? {
      var e := (r.reference[|SchemaPrefix|..], Item(res.value));
      assert e in comps.value.schemas;
      var i :| 0 <= i < |comps.value.schemas| && comps.value.schemas[i] == e;
      assert WfSchemaRef(comps.value.schemas[i].1);
    }
  }

  lemma ResolvedRequestBodyWf(r: RefOr<RequestBody>, spec: OpenAPI)
    requires WfRequestBodyRef(r) && WfComponents(spec.components)
    ensures ResolveRequestBody(r, spec).Some? ==> WfContent(ResolveRequestBody(r, spec).value.content)
  {
    var res := ResolveRequestBody(r, spec);
    if r.Reference? && res.Some? {
      var e := (r.reference[|RequestBodyPrefix|..], Item(res.value));
      var table := spec.components.value.requestBodies;
      assert e in table;
      var i :| 0 <= i < |table| && table[i] == e;
      assert WfRequestBodyRef(table[i].1);
    }
  }

  lemma ResolvedResponseWf(r: RefOr<Response>, spec: OpenAPI)
    requires WfResponseRef(r) && WfComponents(spec.components)
    ensures ResolveResponse(r, spec).Some? ==> WfContent(ResolveResponse(r, spec).value.content)
  {
    var res := ResolveResponse(r, spec);
    if r.Reference? && res.Some? {
      var e := (r.reference[|ResponsePrefix|..], Item(res.value));
      var table := spec.components.value.responses;
      assert e in table;
      var i :| 0 <= i < |table| && table[i] == e;
      assert WfResponseRef(table[i].1);
    }
  }

  /** Every entry of a map with distinct keys is what a lookup of its key finds. */
  lemma EntriesAreFound<K, V>(m: IndexMap<K, V>)
    requires DistinctKeys(m)
    ensures forall e :: e in m ==> Get(m, e.0) == Some(e.1)
  {
    forall e | e in m ensures Get(m, e.0) == Some(e.1) {
      var i :| 0 <= i < |m| && m[i] == e;
      GetEntry(m, i);
    }
  }

  // ---------------------------------------------------------------------
  // A document compared with itself yields no change
  // ---------------------------------------------------------------------

  lemma {:induction false} EndpointChangesNoneMissing<V>(keys: seq<string>, other: IndexMap<string, V>, sev: Severity, message: string)
    requires forall k :: k in keys ==> k in Keys(other)
    ensures EndpointChanges(keys, other, sev, message) == []
  {
    if keys != [] {
      EndpointChangesNoneMissing(keys[1..], other, sev, message);
    }
  }

  lemma {:induction false} RemovedPropertiesNoneMissing(loc: Location, context: string, names: seq<string>,
                                                        newProps: IndexMap<string, RefOr<Schema>>, dir: Direction)
    requires forall n :: n in names ==> n in Keys(newProps)
    ensures RemovedProperties(loc, context, names, newProps, dir) == []
  {
    if names != [] {
      RemovedPropertiesNoneMissing(loc, context, names[1..], newProps, dir);
    }
  }

  lemma {:induction false} AddedPropertiesNoneMissing(loc: Location, context: string, names: seq<string>,
                                                      oldProps: IndexMap<string, RefOr<Schema>>, newRequired: seq<string>, dir: Direction)
    requires forall n :: n in names ==> n in Keys(oldProps)
    ensures AddedProperties(loc, context, names, oldProps, newRequired, dir) == []
  {
    if names != [] {
      AddedPropertiesNoneMissing(loc, context, names[1..], oldProps, newRequired, dir);
    }
  }

  lemma {:induction false} BecameRequiredNoneNew(loc: Location, context: string, newRequired: seq<string>, oldRequired: seq<string>,
                                                 oldProps: IndexMap<string, RefOr<Schema>>, dir: Direction)
    requires forall n :: n in newRequired ==> n in oldRequired
    ensures BecameRequired(loc, context, newRequired, oldRequired, oldProps, dir) == []
  {
    if newRequired != [] {
      BecameRequiredNoneNew(loc, context, newRequired[1..], oldRequired, oldProps, dir);
    }
  }

  lemma {:induction false} BecameOptionalNoneDropped(loc: Location, context: string, oldRequired: seq<string>, newRequired: seq<string>,
                                                     newProps: IndexMap<string, RefOr<Schema>>, dir: Direction)
    requires forall n :: n in oldRequired ==> n in newRequired
    ensures BecameOptional(loc, context, oldRequired, newRequired, newProps, dir) == []
  {
    if oldRequired != [] {
      BecameOptionalNoneDropped(loc, context, oldRequired[1..], newRequired, newProps, dir);
    }
  }

  lemma {:induction false} EnumValueChangesNoneMissing(loc: Location, context: string, values: seq<string>, others: seq<string>,
                                                       sev: Severity, what: string)
    requires forall v :: v in values ==> v in others
    ensures EnumValueChanges(loc, context, values, others, sev, what) == []
  {
    if values != [] {
      EnumValueChangesNoneMissing(loc, context, values[1..], others, sev, what);
    }
  }

  lemma {:induction false} DiffSchemaSelf(loc: Location, context: string, s: Schema, dir: Direction,
                                          comps: Option<Components>, depth: nat)
    requires WfSchema(s) && WfComponents(comps)
    ensures DiffSchema(loc, context, s, s, dir, comps, comps, depth) == []
    decreases MaxDepth - depth, 2, 0
  {
    if depth < MaxDepth {
      match s.kind
      case Type(Object(o)) =>
        DiffObjectSelf(loc, context, o, dir, comps, depth);
      case Type(Array(a)) =>
        if a.items.Some? {
          assert WfSchemaRef(a.items.value);
          ResolvedSchemaWf(a.items.value, comps);
          var items := ResolveSchema(a.items.value, comps);
          if items.Some? {
            DiffSchemaSelf(loc, context + "[]", items.value, dir, comps, depth + 1);
          }
        }
      case Type(String(st)) =>
        var vs := EnumValues(st.enumeration);
        EnumValueChangesNoneMissing(loc, context, vs, vs, Breaking, "removed");
        EnumValueChangesNoneMissing(loc, context, vs, vs, if dir == Direction.Response then Breaking else NonBreaking, "added");
      case _ =>
    }
  }

  lemma {:induction false} DiffObjectSelf(loc: Location, context: string, o: ObjectType, dir: Direction,
                                          comps: Option<Components>, depth: nat)
    requires depth < MaxDepth && WfComponents(comps)
    requires WfSchema(Schema(Type(Object(o))))
    ensures DiffObject(loc, context, o, o, dir, comps, comps, depth) == []
    decreases MaxDepth - depth, 1, 0
  {
    var props := o.properties;
    RemovedPropertiesNoneMissing(loc, context, Keys(props), props, dir);
    AddedPropertiesNoneMissing(loc, context, Keys(props), props, o.required, dir);
    BecameRequiredNoneNew(loc, context, o.required, o.required, props, dir);
    BecameOptionalNoneDropped(loc, context, o.required, o.required, props, dir);
    EntriesAreFound(props);
    forall e | e in props ensures WfSchemaRef(e.1) {
      var i :| 0 <= i < |props| && props[i] == e;
    }
    DiffPropertiesSelf(loc, context, props, props, dir, comps, depth);
  }

  lemma {:induction false} DiffPropertiesSelf(loc: Location, context: string, entries: IndexMap<string, RefOr<Schema>>,
                                              props: IndexMap<string, RefOr<Schema>>, dir: Direction,
                                              comps: Option<Components>, depth: nat)
    requires depth < MaxDepth && WfComponents(comps)
    requires forall e :: e in entries ==> Get(props, e.0) == Some(e.1) && WfSchemaRef(e.1)
    ensures DiffProperties(loc, context, entries, props, dir, comps, comps, depth) == []
    decreases MaxDepth - depth, 0, |entries|
  {
    if entries != [] {
      var (name, ref) := entries[0];
      assert entries[0] in entries;
      ResolvedSchemaWf(ref, comps);
      var s := ResolveSchema(ref, comps);
      if s.Some? {
        DiffSchemaSelf(loc, context + "." + name, s.value, dir, comps, depth + 1);
      }
      DiffPropertiesSelf(loc, context, entries[1..], props, dir, comps, depth);
    }
  }

  lemma {:induction false} AddedMediaNoneMissing(loc: Location, title: string, newKeys: seq<string>, oldContent: Content)
    requires forall k :: k in newKeys ==> k in Keys(oldContent)
    ensures AddedMedia(loc, title, newKeys, oldContent) == []
  {
    if newKeys != [] {
      AddedMediaNoneMissing(loc, title, newKeys[1..], oldContent);
    }
  }

  lemma {:induction false} ExistingMediaSelf(loc: Location, title: string, entries: Content, content: Content,
                                             dir: Direction, comps: Option<Components>)
    requires WfComponents(comps)
    requires forall e :: e in entries ==>
      Get(content, e.0) == Some(e.1) && (e.1.schema.Some? ==> WfSchemaRef(e.1.schema.value))
    ensures ExistingMedia(loc, title, entries, content, dir, comps, comps) == []
  {
    if entries != [] {
      var (media, mt) := entries[0];
      assert entries[0] in entries;
      if mt.schema.Some? {
        ResolvedSchemaWf(mt.schema.value, comps);
        var s := ResolveSchema(mt.schema.value, comps);
        if s.Some? {
          DiffSchemaSelf(loc, title + " " + media, s.value, dir, comps, 0);
        }
      }
      ExistingMediaSelf(loc, title, entries[1..], content, dir, comps);
    }
  }

  lemma DiffContentSelf(loc: Location, title: string, c: Content, dir: Direction, comps: Option<Components>)
    requires WfContent(c) && WfComponents(comps)
    ensures DiffContent(loc, title, c, c, dir, comps, comps) == []
  {
    EntriesAreFound(c);
    forall e | e in c ensures e.1.schema.Some? ==> WfSchemaRef(e.1.schema.value) {
      var i :| 0 <= i < |c| && c[i] == e;
    }
    ExistingMediaSelf(loc, title, c, c, dir, comps);
    AddedMediaNoneMissing(loc, title, Keys(c), c);
  }

  lemma {:induction false} AddedResponsesNoneMissing(loc: Location, newCodes: seq<StatusCode>,
                                                     oldResponses: IndexMap<StatusCode, RefOr<Response>>)
    requires forall k :: k in newCodes ==> k in Keys(oldResponses)
    ensures AddedResponses(loc, newCodes, oldResponses) == []
  {
    if newCodes != [] {
      AddedResponsesNoneMissing(loc, newCodes[1..], oldResponses);
    }
  }

  lemma {:induction false} ExistingResponsesSelf(loc: Location, entries: IndexMap<StatusCode, RefOr<Response>>,
                                                 responses: IndexMap<StatusCode, RefOr<Response>>, spec: OpenAPI)
    requires WfComponents(spec.components)
    requires forall e :: e in entries ==> Get(responses, e.0) == Some(e.1) && WfResponseRef(e.1)
    ensures ExistingResponses(loc, entries, responses, spec, spec) == []
  {
    if entries != [] {
      var (code, ref) := entries[0];
      assert entries[0] in entries;
      ResolvedResponseWf(ref, spec);
      var resp := ResolveResponse(ref, spec);
      if resp.Some? {
        DiffContentSelf(loc, ResponseLabel(code), resp.value.content, Direction.Response, spec.components);
      }
      ExistingResponsesSelf(loc, entries[1..], responses, spec);
    }
  }

  lemma {:induction false} AddedParamsNoneMissing(loc: Location, newEntries: IndexMap<ParamKey, Parameter>,
                                                  oldMap: IndexMap<ParamKey, Parameter>)
    requires forall e :: e in newEntries ==> e.0 in Keys(oldMap)
    ensures AddedParams(loc, newEntries, oldMap) == []
  {
    if newEntries != [] {
      assert newEntries[0] in newEntries;
      AddedParamsNoneMissing(loc, newEntries[1..], oldMap);
    }
  }

  lemma {:induction false} ExistingParamsSelf(loc: Location, entries: IndexMap<ParamKey, Parameter>,
                                              m: IndexMap<ParamKey, Parameter>)
    requires forall e :: e in entries ==> Get(m, e.0) == Some(e.1)
    ensures ExistingParams(loc, entries, m) == []
  {
    if entries != [] {
      assert entries[0] in entries;
      ExistingParamsSelf(loc, entries[1..], m);
    }
  }

  lemma DiffParametersSelf(loc: Location, params: seq<RefOr<Parameter>>, comps: Option<Components>)
    ensures DiffParameters(loc, params, params, comps, comps) == []
  {
    var m := ParamMap(params, comps);
    EntriesAreFound(m);
    ExistingParamsSelf(loc, m, m);
    forall e | e in m ensures e.0 in Keys(m) {
      var i :| 0 <= i < |m| && m[i] == e;
      assert Keys(m)[i] == e.0;
    }
    AddedParamsNoneMissing(loc, m, m);
  }

  lemma DiffRequestBodySelf(loc: Location, body: Option<RefOr<RequestBody>>, spec: OpenAPI)
    requires body.Some? ==> WfRequestBodyRef(body.value)
    requires WfComponents(spec.components)
    ensures DiffRequestBody(loc, body, body, spec, spec) == []
  {
    if body.Some? {
      ResolvedRequestBodyWf(body.value, spec);
      var rb := ResolveRequestBody(body.value, spec);
      if rb.Some? {
        DiffContentSelf(loc, "request body", rb.value.content, Request, spec.components);
      }
    }
  }

  lemma DiffResponsesSelf(loc: Location, responses: IndexMap<StatusCode, RefOr<Response>>, spec: OpenAPI)
    requires DistinctKeys(responses)
    requires forall i :: 0 <= i < |responses| ==> WfResponseRef(responses[i].1)
    requires WfComponents(spec.components)
    ensures DiffResponses(loc, responses, responses, spec, spec) == []
  {
    EntriesAreFound(responses);
    forall e | e in responses ensures WfResponseRef(e.1) {
      var i :| 0 <= i < |responses| && responses[i] == e;
    }
    ExistingResponsesSelf(loc, responses, responses, spec);
    AddedResponsesNoneMissing(loc, Keys(responses), responses);
  }

  lemma DiffOperationSelf(loc: Location, op: Operation, spec: OpenAPI)
    requires WfOperation(op) && WfComponents(spec.components)
    ensures DiffOperation(loc, op, op, spec, spec) == []
  {
    DiffParametersSelf(loc, op.parameters, spec.components);
    DiffRequestBodySelf(loc, op.requestBody, spec);
    DiffResponsesSelf(loc, op.responses, spec);
  }

  /** The method slots from `j` on: slot `j`, then the rest. */
  lemma DiffMethodsStep(path: string, oldItem: PathItem, newItem: PathItem, j: nat, oldSpec: OpenAPI, newSpec: OpenAPI)
    requires j < |Methods|
    ensures DiffMethods(path, oldItem, newItem, j, oldSpec, newSpec)
         == DiffMethod(Location.Operation(path, Methods[j]), Operations(oldItem)[j].1, Operations(newItem)[j].1, oldSpec, newSpec)
            + DiffMethods(path, oldItem, newItem, j + 1, oldSpec, newSpec)
  {
    assert Operations(oldItem)[j].0 == Methods[j];
  }

  lemma {:induction false} DiffMethodsSelf(path: string, item: PathItem, k: nat, spec: OpenAPI)
    requires k <= |Methods| && WfPathItem(item) && WfComponents(spec.components)
    ensures DiffMethods(path, item, item, k, spec, spec) == []
    decreases |Methods| - k
  {
    if k < |Methods| {
      var op := Operations(item)[k].1;
      assert WfOptOperation(op);
      DiffMethodsStep(path, item, item, k, spec, spec);
      if op.Some? {
        DiffOperationSelf(Location.Operation(path, Methods[k]), op.value, spec);
      }
      DiffMethodsSelf(path, item, k + 1, spec);
    }
  }

  lemma {:induction false} SharedPathsSelf(entries: IndexMap<string, RefOr<PathItem>>, spec: OpenAPI)
    requires WfComponents(spec.components)
    requires forall e :: e in entries ==> Get(spec.paths, e.0) == Some(e.1) && (e.1.Item? ==> WfPathItem(e.1.item))
    ensures SharedPaths(entries, spec, spec) == []
  {
    if entries != [] {
      assert entries[0] in entries;
      if entries[0].1.Item? {
        DiffMethodsSelf(entries[0].0, entries[0].1.item, 0, spec);
      }
      SharedPathsSelf(entries[1..], spec);
    }
  }

  /** Idempotence: a well-formed document compared with itself yields an empty diff. */
  lemma DiffSpecsSelf(spec: OpenAPI)
    requires WfSpec(spec)
    ensures IsEmpty(DiffSpecs(spec, spec))
    ensures !HasBreaking(DiffSpecs(spec, spec))
  {
    EndpointChangesNoneMissing(Keys(spec.paths), spec.paths, Breaking, "endpoint removed");
    EndpointChangesNoneMissing(Keys(spec.paths), spec.paths, NonBreaking, "endpoint added");
    EntriesAreFound(spec.paths);
    forall e | e in spec.paths ensures e.1.Item? ==> WfPathItem(e.1.item) {
      var i :| 0 <= i < |spec.paths| && spec.paths[i] == e;
    }
    SharedPathsSelf(spec.paths, spec);
  }

  // ---------------------------------------------------------------------
  // The direction decides severities and nothing else
  // ---------------------------------------------------------------------

  /** A list of changes with the severities forgotten. */
  function Unrated(cs: seq<Change>): (r: seq<(Location, string)>)
    ensures |r| == |cs|
    ensures forall i :: 0 <= i < |cs| ==> r[i] == (cs[i].location, cs[i].message)
  {
    seq(|cs|, i requires 0 <= i < |cs| => (cs[i].location, cs[i].message))
  }

  lemma UnratedAppend(a: seq<Change>, b: seq<Change>)
    ensures Unrated(a + b) == Unrated(a) + Unrated(b)
  {
  }

  lemma UnratedConcat(a: seq<Change>, b: seq<Change>, a': seq<Change>, b': seq<Change>)
    requires Unrated(a) == Unrated(a') && Unrated(b) == Unrated(b')
    ensures Unrated(a + b) == Unrated(a' + b')
  {
    UnratedAppend(a, b);
    UnratedAppend(a', b');
  }

  lemma {:induction false} RemovedPropertiesDirection(loc: Location, context: string, names: seq<string>,
                                                      newProps: IndexMap<string, RefOr<Schema>>)
    ensures Unrated(RemovedProperties(loc, context, names, newProps, Request))
         == Unrated(RemovedProperties(loc, context, names, newProps, Direction.Response))
  {
    if names != [] {
      var msg := ItemMessage(context, "property", names[0], "removed");
      var hit := names[0] !in Keys(newProps);
      var req, resp := (if hit then [Change(NonBreaking, loc, msg)] else []), (if hit then [Change(Breaking, loc, msg)] else []);
      var reqTail := RemovedProperties(loc, context, names[1..], newProps, Request);
      var respTail := RemovedProperties(loc, context, names[1..], newProps, Direction.Response);
      assert RemovedProperties(loc, context, names, newProps, Request) == req + reqTail;
      assert RemovedProperties(loc, context, names, newProps, Direction.Response) == resp + respTail;
      RemovedPropertiesDirection(loc, context, names[1..], newProps);
      UnratedConcat(req, reqTail, resp, respTail);
    }
  }

  lemma {:induction false} AddedPropertiesDirection(loc: Location, context: string, names: seq<string>,
                                                    oldProps: IndexMap<string, RefOr<Schema>>, newRequired: seq<string>)
    ensures Unrated(AddedProperties(loc, context, names, oldProps, newRequired, Request))
         == Unrated(AddedProperties(loc, context, names, oldProps, newRequired, Direction.Response))
  {
    if names != [] {
      var msg := ItemMessage(context, "property", names[0], "added");
      var hit := names[0] !in Keys(oldProps);
      var req := if hit then [Change(if names[0] in newRequired then Breaking else NonBreaking, loc, msg)] else [];
      var resp := if hit then [Change(NonBreaking, loc, msg)] else [];
      var reqTail := AddedProperties(loc, context, names[1..], oldProps, newRequired, Request);
      var respTail := AddedProperties(loc, context, names[1..], oldProps, newRequired, Direction.Response);
      assert AddedProperties(loc, context, names, oldProps, newRequired, Request) == req + reqTail;
      assert AddedProperties(loc, context, names, oldProps, newRequired, Direction.Response) == resp + respTail;
      AddedPropertiesDirection(loc, context, names[1..], oldProps, newRequired);
      UnratedConcat(req, reqTail, resp, respTail);
    }
  }

  lemma {:induction false} BecameRequiredDirection(loc: Location, context: string, newRequired: seq<string>, oldRequired: seq<string>,
                                                   oldProps: IndexMap<string, RefOr<Schema>>)
    ensures Unrated(BecameRequired(loc, context, newRequired, oldRequired, oldProps, Request))
         == Unrated(BecameRequired(loc, context, newRequired, oldRequired, oldProps, Direction.Response))
  {
    if newRequired != [] {
      var name := newRequired[0];
      var hit := name !in oldRequired && name in Keys(oldProps);
      var msg := ItemMessage(context, "property", name, "became required");
      var req, resp := (if hit then [Change(Breaking, loc, msg)] else []), (if hit then [Change(NonBreaking, loc, msg)] else []);
      var reqTail := BecameRequired(loc, context, newRequired[1..], oldRequired, oldProps, Request);
      var respTail := BecameRequired(loc, context, newRequired[1..], oldRequired, oldProps, Direction.Response);
      assert BecameRequired(loc, context, newRequired, oldRequired, oldProps, Request) == req + reqTail;
      assert BecameRequired(loc, context, newRequired, oldRequired, oldProps, Direction.Response) == resp + respTail;
      BecameRequiredDirection(loc, context, newRequired[1..], oldRequired, oldProps);
      UnratedConcat(req, reqTail, resp, respTail);
    }
  }

  lemma {:induction false} BecameOptionalDirection(loc: Location, context: string, oldRequired: seq<string>, newRequired: seq<string>,
                                                   newProps: IndexMap<string, RefOr<Schema>>)
    ensures Unrated(BecameOptional(loc, context, oldRequired, newRequired, newProps, Request))
         == Unrated(BecameOptional(loc, context, oldRequired, newRequired, newProps, Direction.Response))
  {
    if oldRequired != [] {
      var name := oldRequired[0];
      var hit := name !in newRequired && name in Keys(newProps);
      var msg := ItemMessage(context, "property", name, "became optional");
      var req, resp := (if hit then [Change(NonBreaking, loc, msg)] else []), (if hit then [Change(Breaking, loc, msg)] else []);
      var reqTail := BecameOptional(loc, context, oldRequired[1..], newRequired, newProps, Request);
      var respTail := BecameOptional(loc, context, oldRequired[1..], newRequired, newProps, Direction.Response);
      assert BecameOptional(loc, context, oldRequired, newRequired, newProps, Request) == req + reqTail;
      assert BecameOptional(loc, context, oldRequired, newRequired, newProps, Direction.Response) == resp + respTail;
      BecameOptionalDirection(loc, context, oldRequired[1..], newRequired, newProps);
      UnratedConcat(req, reqTail, resp, respTail);
    }
  }

  lemma {:induction false} EnumValueChangesSeverity(loc: Location, context: string, values: seq<string>, others: seq<string>,
                                                    sev: Severity, sev': Severity, what: string)
    ensures Unrated(EnumValueChanges(loc, context, values, others, sev, what))
         == Unrated(EnumValueChanges(loc, context, values, others, sev', what))
  {
    if values != [] {
      var msg := ItemMessage(context, "enum value", values[0], what);
      var a, a' := (if values[0] in others then [] else [Change(sev, loc, msg)]), (if values[0] in others then [] else [Change(sev', loc, msg)]);
      var tail, tail' := EnumValueChanges(loc, context, values[1..], others, sev, what), EnumValueChanges(loc, context, values[1..], others, sev', what);
      assert EnumValueChanges(loc, context, values, others, sev, what) == a + tail;
      assert EnumValueChanges(loc, context, values, others, sev', what) == a' + tail';
      EnumValueChangesSeverity(loc, context, values[1..], others, sev, sev', what);
      UnratedConcat(a, tail, a', tail');
    }
  }

  /**
   * Comparing two schemas as a request or as a response yields the same
   * changes, at the same places, with the same messages, in the same order:
   * the direction only decides how severe each one is.
   */
  lemma {:induction false} DiffSchemaDirection(loc: Location, context: string, oldS: Schema, newS: Schema,
                                               oldComps: Option<Components>, newComps: Option<Components>, depth: nat)
    ensures Unrated(DiffSchema(loc, context, oldS, newS, Request, oldComps, newComps, depth))
         == Unrated(DiffSchema(loc, context, oldS, newS, Direction.Response, oldComps, newComps, depth))
    decreases MaxDepth - depth, 2, 0
  {
    if depth < MaxDepth && TypeName(oldS.kind) == TypeName(newS.kind) {
      match (oldS.kind, newS.kind)
      case (Type(Object(o)), Type(Object(n))) =>
        ObjectSchemaDirection(loc, context, oldS, newS, o, n, oldComps, newComps, depth);
      case (Type(Array(o)), Type(Array(n))) =>
        ArraySchemaDirection(loc, context, oldS, newS, o, n, oldComps, newComps, depth);
      case (Type(String(o)), Type(String(n))) =>
        StringSchemaDirection(loc, context, oldS, newS, o, n, oldComps, newComps, depth);
      case _ =>
        OtherSchemaDirection(loc, context, oldS, newS, oldComps, newComps, depth);
    }
  }

  /** Two object schemas compare as their objects. */
  lemma ObjectSchemas(loc: Location, context: string, oldS: Schema, newS: Schema, o: ObjectType, n: ObjectType,
                      dir: Direction, oldComps: Option<Components>, newComps: Option<Components>, depth: nat)
    requires depth < MaxDepth && oldS.kind == Type(Object(o)) && newS.kind == Type(Object(n))
    ensures DiffSchema(loc, context, oldS, newS, dir, oldComps, newComps, depth)
         == DiffObject(loc, context, o, n, dir, oldComps, newComps, depth)
  {
  }

  lemma {:induction false} ObjectSchemaDirection(loc: Location, context: string, oldS: Schema, newS: Schema,
                                                 o: ObjectType, n: ObjectType,
                                                 oldComps: Option<Components>, newComps: Option<Components>, depth: nat)
    requires depth < MaxDepth && oldS.kind == Type(Object(o)) && newS.kind == Type(Object(n))
    ensures Unrated(DiffSchema(loc, context, oldS, newS, Request, oldComps, newComps, depth))
         == Unrated(DiffSchema(loc, context, oldS, newS, Direction.Response, oldComps, newComps, depth))
    decreases MaxDepth - depth, 1, 1
  {
    ObjectSchemas(loc, context, oldS, newS, o, n, Request, oldComps, newComps, depth);
    ObjectSchemas(loc, context, oldS, newS, o, n, Direction.Response, oldComps, newComps, depth);
    DiffObjectDirection(loc, context, o, n, oldComps, newComps, depth);
  }

  /** The items of an array schema, when it has some and they resolve. */
  function ArrayItems(a: ArrayType, comps: Option<Components>): Option<Schema> {
    if a.items.Some? then ResolveSchema(a.items.value, comps) else None
  }

  /** Two array schemas compare as their items, one level down, when both sides' items resolve, and to nothing otherwise. */
  lemma ArraySchemas(loc: Location, context: string, oldS: Schema, newS: Schema, o: ArrayType, n: ArrayType,
                     dir: Direction, oldComps: Option<Components>, newComps: Option<Components>, depth: nat)
    requires depth < MaxDepth && oldS.kind == Type(Array(o)) && newS.kind == Type(Array(n))
    ensures var oldItems, newItems := ArrayItems(o, oldComps), ArrayItems(n, newComps);
      DiffSchema(loc, context, oldS, newS, dir, oldComps, newComps, depth)
      == if oldItems.Some? && newItems.Some?
         then DiffSchema(loc, context + "[]", oldItems.value, newItems.value, dir, oldComps, newComps, depth + 1)
         else []
  {
  }

  lemma {:induction false} ArraySchemaDirection(loc: Location, context: string, oldS: Schema, newS: Schema,
                                                o: ArrayType, n: ArrayType,
                                                oldComps: Option<Components>, newComps: Option<Components>, depth: nat)
    requires depth < MaxDepth && oldS.kind == Type(Array(o)) && newS.kind == Type(Array(n))
    ensures Unrated(DiffSchema(loc, context, oldS, newS, Request, oldComps, newComps, depth))
         == Unrated(DiffSchema(loc, context, oldS, newS, Direction.Response, oldComps, newComps, depth))
    decreases MaxDepth - depth, 1, 1
  {
    ArraySchemas(loc, context, oldS, newS, o, n, Request, oldComps, newComps, depth);
    ArraySchemas(loc, context, oldS, newS, o, n, Direction.Response, oldComps, newComps, depth);
    var oldItems, newItems := ArrayItems(o, oldComps), ArrayItems(n, newComps);
    if oldItems.Some? && newItems.Some? {
      DiffSchemaDirection(loc, context + "[]", oldItems.value, newItems.value, oldComps, newComps, depth + 1);
    }
  }

  lemma StringSchemaDirection(loc: Location, context: string, oldS: Schema, newS: Schema,
                              o: StringType, n: StringType,
                              oldComps: Option<Components>, newComps: Option<Components>, depth: nat)
    requires depth < MaxDepth && oldS.kind == Type(String(o)) && newS.kind == Type(String(n))
    ensures Unrated(DiffSchema(loc, context, oldS, newS, Request, oldComps, newComps, depth))
         == Unrated(DiffSchema(loc, context, oldS, newS, Direction.Response, oldComps, newComps, depth))
  {
    DiffStringEnumDirection(loc, context, o, n);
  }

  /** Schemas of any other shape compare to nothing beyond a type change, whatever the direction. */
  lemma OtherSchemaDirection(loc: Location, context: string, oldS: Schema, newS: Schema,
                             oldComps: Option<Components>, newComps: Option<Components>, depth: nat)
    requires !(oldS.kind.Type? && newS.kind.Type? && oldS.kind.t.Object? && newS.kind.t.Object?)
    requires !(oldS.kind.Type? && newS.kind.Type? && oldS.kind.t.Array? && newS.kind.t.Array?)
    requires !(oldS.kind.Type? && newS.kind.Type? && oldS.kind.t.String? && newS.kind.t.String?)
    ensures Unrated(DiffSchema(loc, context, oldS, newS, Request, oldComps, newComps, depth))
         == Unrated(DiffSchema(loc, context, oldS, newS, Direction.Response, oldComps, newComps, depth))
  {
  }

  lemma DiffStringEnumDirection(loc: Location, context: string, o: StringType, n: StringType)
    ensures Unrated(DiffStringEnum(loc, context, o, n, Request))
         == Unrated(DiffStringEnum(loc, context, o, n, Direction.Response))
  {
    if o.enumeration != [] || n.enumeration != [] {
      var oldValues, newValues := EnumValues(o.enumeration), EnumValues(n.enumeration);
      var removed := EnumValueChanges(loc, context, oldValues, newValues, Breaking, "removed");
      EnumValueChangesSeverity(loc, context, newValues, oldValues, NonBreaking, Breaking, "added");
      UnratedAppend(removed, EnumValueChanges(loc, context, newValues, oldValues, NonBreaking, "added"));
      UnratedAppend(removed, EnumValueChanges(loc, context, newValues, oldValues, Breaking, "added"));
    }
  }

  lemma {:induction false} DiffObjectDirection(loc: Location, context: string, o: ObjectType, n: ObjectType,
                                               oldComps: Option<Components>, newComps: Option<Components>, depth: nat)
    requires depth < MaxDepth
    ensures Unrated(DiffObject(loc, context, o, n, Request, oldComps, newComps, depth))
         == Unrated(DiffObject(loc, context, o, n, Direction.Response, oldComps, newComps, depth))
    decreases MaxDepth - depth, 1, 0
  {
    RemovedPropertiesDirection(loc, context, Keys(o.properties), n.properties);
    AddedPropertiesDirection(loc, context, Keys(n.properties), o.properties, n.required);
    BecameRequiredDirection(loc, context, n.required, o.required, o.properties);
    BecameOptionalDirection(loc, context, o.required, n.required, n.properties);
    DiffPropertiesDirection(loc, context, o.properties, n.properties, oldComps, newComps, depth);
    forall dir: Direction ensures
      Unrated(DiffObject(loc, context, o, n, dir, oldComps, newComps, depth)) ==
        Unrated(RemovedProperties(loc, context, Keys(o.properties), n.properties, dir))
        + Unrated(AddedProperties(loc, context, Keys(n.properties), o.properties, n.required, dir))
        + Unrated(BecameRequired(loc, context, n.required, o.required, o.properties, dir))
        + Unrated(BecameOptional(loc, context, o.required, n.required, n.properties, dir))
        + Unrated(DiffProperties(loc, context, o.properties, n.properties, dir, oldComps, newComps, depth))
    {
      var a := RemovedProperties(loc, context, Keys(o.properties), n.properties, dir);
      var b := AddedProperties(loc, context, Keys(n.properties), o.properties, n.required, dir);
      var c := BecameRequired(loc, context, n.required, o.required, o.properties, dir);
      var d := BecameOptional(loc, context, o.required, n.required, n.properties, dir);
      var e := DiffProperties(loc, context, o.properties, n.properties, dir, oldComps, newComps, depth);
      UnratedAppend(a + b + c + d, e);
      UnratedAppend(a + b + c, d);
      UnratedAppend(a + b, c);
      UnratedAppend(a, b);
    }
  }

  lemma {:induction false} DiffPropertiesDirection(loc: Location, context: string, oldEntries: IndexMap<string, RefOr<Schema>>,
                                                   newProps: IndexMap<string, RefOr<Schema>>,
                                                   oldComps: Option<Components>, newComps: Option<Components>, depth: nat)
    requires depth < MaxDepth
    ensures Unrated(DiffProperties(loc, context, oldEntries, newProps, Request, oldComps, newComps, depth))
         == Unrated(DiffProperties(loc, context, oldEntries, newProps, Direction.Response, oldComps, newComps, depth))
    decreases MaxDepth - depth, 0, |oldEntries|
  {
    if oldEntries != [] {
      var (name, oldRef) := oldEntries[0];
      DiffPropertiesDirection(loc, context, oldEntries[1..], newProps, oldComps, newComps, depth);
      var newRef := Get(newProps, name);
      var o := ResolveSchema(oldRef, oldComps);
      if newRef.Some? && o.Some? && ResolveSchema(newRef.value, newComps).Some? {
        DiffSchemaDirection(loc, context + "." + name, o.value, ResolveSchema(newRef.value, newComps).value, oldComps, newComps, depth + 1);
      }
      forall dir: Direction ensures
        Unrated(DiffProperties(loc, context, oldEntries, newProps, dir, oldComps, newComps, depth)) ==
          Unrated(if newRef.Some? && o.Some? && ResolveSchema(newRef.value, newComps).Some? then
                    DiffSchema(loc, context + "." + name, o.value, ResolveSchema(newRef.value, newComps).value, dir, oldComps, newComps, depth + 1)
                  else [])
          + Unrated(DiffProperties(loc, context, oldEntries[1..], newProps, dir, oldComps, newComps, depth))
      {
        UnratedAppend(if newRef.Some? && o.Some? && ResolveSchema(newRef.value, newComps).Some? then
                        DiffSchema(loc, context + "." + name, o.value, ResolveSchema(newRef.value, newComps).value, dir, oldComps, newComps, depth + 1)
                      else [],
                      DiffProperties(loc, context, oldEntries[1..], newProps, dir, oldComps, newComps, depth));
      }
    }
  }

  lemma MediaTypeDirection(loc: Location, title: string, media: string, oldMt: MediaType, newContent: Content,
                            oldComps: Option<Components>, newComps: Option<Components>)
    ensures Unrated(MediaTypeChanges(loc, title, media, oldMt, newContent, Request, oldComps, newComps))
         == Unrated(MediaTypeChanges(loc, title, media, oldMt, newContent, Direction.Response, oldComps, newComps))
  {
    var newMt := Get(newContent, media);
    if newMt.Some? {
      var o := if oldMt.schema.Some? then ResolveSchema(oldMt.schema.value, oldComps) else None;
      var n := if newMt.value.schema.Some? then ResolveSchema(newMt.value.schema.value, newComps) else None;
      if o.Some? && n.Some? {
        DiffSchemaDirection(loc, title + " " + media, o.value, n.value, oldComps, newComps, 0);
      }
    }
  }

  lemma {:induction false} ExistingMediaDirection(loc: Location, title: string, oldEntries: Content, newContent: Content,
                                                  oldComps: Option<Components>, newComps: Option<Components>)
    ensures Unrated(ExistingMedia(loc, title, oldEntries, newContent, Request, oldComps, newComps))
         == Unrated(ExistingMedia(loc, title, oldEntries, newContent, Direction.Response, oldComps, newComps))
  {
    if oldEntries != [] {
      var (media, oldMt) := oldEntries[0];
      ExistingMediaDirection(loc, title, oldEntries[1..], newContent, oldComps, newComps);
      MediaTypeDirection(loc, title, media, oldMt, newContent, oldComps, newComps);
      UnratedAppend(MediaTypeChanges(loc, title, media, oldMt, newContent, Request, oldComps, newComps),
                    ExistingMedia(loc, title, oldEntries[1..], newContent, Request, oldComps, newComps));
      UnratedAppend(MediaTypeChanges(loc, title, media, oldMt, newContent, Direction.Response, oldComps, newComps),
                    ExistingMedia(loc, title, oldEntries[1..], newContent, Direction.Response, oldComps, newComps));
    }
  }

  /** At the level of a content map: request and response comparisons differ in severities only. */
  lemma DiffContentDirection(loc: Location, title: string, oldContent: Content, newContent: Content,
                             oldComps: Option<Components>, newComps: Option<Components>)
    ensures Unrated(DiffContent(loc, title, oldContent, newContent, Request, oldComps, newComps))
         == Unrated(DiffContent(loc, title, oldContent, newContent, Direction.Response, oldComps, newComps))
  {
    ExistingMediaDirection(loc, title, oldContent, newContent, oldComps, newComps);
    var added := AddedMedia(loc, title, Keys(newContent), oldContent);
    UnratedAppend(ExistingMedia(loc, title, oldContent, newContent, Request, oldComps, newComps), added);
    UnratedAppend(ExistingMedia(loc, title, oldContent, newContent, Direction.Response, oldComps, newComps), added);
  }
}
