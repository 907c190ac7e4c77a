/**
 * How the inner comparisons reach an operation's result: request-body
 * content is compared as a request and response content as a response, and
 * an operation and an object list their changes section by section in a
 * fixed order.
 */
module DiffFlow {
  import opened Wrappers
  import opened IndexMaps
  import opened ChangeModel
  import opened OpenApi
  import opened Diff
  import opened DiffRules

  // ---------------------------------------------------------------------
  // Content is compared in the direction of its owner
  // ---------------------------------------------------------------------

  /** Every change an old media type contributes appears in the media comparison. */
  lemma {:induction false} ExistingMediaContains(loc: Location, title: string, entries: Content, newContent: Content, dir: Direction,
                                                 oldComps: Option<Components>, newComps: Option<Components>,
                                                 media: string, mt: MediaType)
    requires (media, mt) in entries
    ensures forall c :: c in MediaTypeChanges(loc, title, media, mt, newContent, dir, oldComps, newComps) ==>
      c in ExistingMedia(loc, title, entries, newContent, dir, oldComps, newComps)
  {
    if entries[0] != (media, mt) {
      ExistingMediaContains(loc, title, entries[1..], newContent, dir, oldComps, newComps, media, mt);
    }
  }

  /**
   * A media type on both sides whose schemas resolve is compared as a
   * schema, in the content's direction, under the context "<title> <media>".
   */
  lemma ContentSchemaChanges(loc: Location, title: string, oldContent: Content, newContent: Content, dir: Direction,
                             oldComps: Option<Components>, newComps: Option<Components>,
                             media: string, oldMt: MediaType, newMt: MediaType, os: Schema, ns: Schema)
    requires (media, oldMt) in oldContent && Get(newContent, media) == Some(newMt)
    requires oldMt.schema.Some? && ResolveSchema(oldMt.schema.value, oldComps) == Some(os)
    requires newMt.schema.Some? && ResolveSchema(newMt.schema.value, newComps) == Some(ns)
    ensures forall c :: c in DiffSchema(loc, title + " " + media, os, ns, dir, oldComps, newComps, 0) ==>
      c in DiffContent(loc, title, oldContent, newContent, dir, oldComps, newComps)
  {
    ExistingMediaContains(loc, title, oldContent, newContent, dir, oldComps, newComps, media, oldMt);
  }

  /**
   * Two inline request bodies: the became-required change, if any, then
   * their content compared in the Request direction.
   */
  lemma RequestBodyDirection(loc: Location, o: RequestBody, n: RequestBody, oldSpec: OpenAPI, newSpec: OpenAPI)
    ensures DiffRequestBody(loc, Some(Item(o)), Some(Item(n)), oldSpec, newSpec)
         == (if !o.required && n.required then [Change(Breaking, loc, BodyMessage("became required"))] else [])
            + DiffContent(loc, "request body", o.content, n.content, Request, oldSpec.components, newSpec.components)
  {
  }

  /**
   * So every schema change of a media type that two inline request bodies
   * share appears in the body comparison, rated as a request.
   */
  lemma RequestBodySchemaChanges(loc: Location, o: RequestBody, n: RequestBody, oldSpec: OpenAPI, newSpec: OpenAPI,
                                 media: string, oldMt: MediaType, newMt: MediaType, os: Schema, ns: Schema)
    requires (media, oldMt) in o.content && Get(n.content, media) == Some(newMt)
    requires oldMt.schema.Some? && ResolveSchema(oldMt.schema.value, oldSpec.components) == Some(os)
    requires newMt.schema.Some? && ResolveSchema(newMt.schema.value, newSpec.components) == Some(ns)
    ensures forall c :: c in DiffSchema(loc, "request body " + media, os, ns, Request, oldSpec.components, newSpec.components, 0) ==>
      c in DiffRequestBody(loc, Some(Item(o)), Some(Item(n)), oldSpec, newSpec)
  {
    RequestBodyDirection(loc, o, n, oldSpec, newSpec);
    assert "request body " + media == "request body" + " " + media;
    ContentSchemaChanges(loc, "request body", o.content, n.content, Request, oldSpec.components, newSpec.components,
                         media, oldMt, newMt, os, ns);
  }

  /**
   * Every change of a status code on both sides whose responses resolve is
   * its content compared in the Response direction, under the code's label.
   */
  lemma {:induction false} ExistingResponsesContains(loc: Location, entries: IndexMap<StatusCode, RefOr<Response>>,
                                                     newResponses: IndexMap<StatusCode, RefOr<Response>>,
                                                     oldSpec: OpenAPI, newSpec: OpenAPI, code: StatusCode,
                                                     oldRef: RefOr<Response>, newRef: RefOr<Response>, ro: Response, rn: Response)
    requires (code, oldRef) in entries && Get(newResponses, code) == Some(newRef)
    requires ResolveResponse(oldRef, oldSpec) == Some(ro) && ResolveResponse(newRef, newSpec) == Some(rn)
    ensures forall c :: c in DiffContent(loc, ResponseLabel(code), ro.content, rn.content, Direction.Response,
                                         oldSpec.components, newSpec.components) ==>
      c in ExistingResponses(loc, entries, newResponses, oldSpec, newSpec)
  {
    if entries[0] != (code, oldRef) {
      ExistingResponsesContains(loc, entries[1..], newResponses, oldSpec, newSpec, code, oldRef, newRef, ro, rn);
    }
  }

  /**
   * So every schema change of a media type that a status code's old and new
   * responses share appears in the response comparison, rated as a response.
   */
  lemma ResponseSchemaChanges(loc: Location, oldResponses: IndexMap<StatusCode, RefOr<Response>>,
                              newResponses: IndexMap<StatusCode, RefOr<Response>>, oldSpec: OpenAPI, newSpec: OpenAPI,
                              code: StatusCode, oldRef: RefOr<Response>, newRef: RefOr<Response>, ro: Response, rn: Response,
                              media: string, oldMt: MediaType, newMt: MediaType, os: Schema, ns: Schema)
    requires (code, oldRef) in oldResponses && Get(newResponses, code) == Some(newRef)
    requires ResolveResponse(oldRef, oldSpec) == Some(ro) && ResolveResponse(newRef, newSpec) == Some(rn)
    requires (media, oldMt) in ro.content && Get(rn.content, media) == Some(newMt)
    requires oldMt.schema.Some? && ResolveSchema(oldMt.schema.value, oldSpec.components) == Some(os)
    requires newMt.schema.Some? && ResolveSchema(newMt.schema.value, newSpec.components) == Some(ns)
    ensures forall c :: c in DiffSchema(loc, ResponseLabel(code) + " " + media, os, ns, Direction.Response,
                                        oldSpec.components, newSpec.components, 0) ==>
      c in DiffResponses(loc, oldResponses, newResponses, oldSpec, newSpec)
  {
    ExistingResponsesContains(loc, oldResponses, newResponses, oldSpec, newSpec, code, oldRef, newRef, ro, rn);
    ContentSchemaChanges(loc, ResponseLabel(code), ro.content, rn.content, Direction.Response,
                         oldSpec.components, newSpec.components, media, oldMt, newMt, os, ns);
  }

  /** An inline object schema as a media type's schema. */
  function ObjectMedia(obj: ObjectType): MediaType {
    MediaType(Some(Item(Schema(Type(Object(obj))))))
  }

  /** Two inline object schemas are compared as objects. */
  lemma ObjectSchemas(loc: Location, context: string, oldObj: ObjectType, newObj: ObjectType, dir: Direction,
                      oldComps: Option<Components>, newComps: Option<Components>)
    ensures DiffSchema(loc, context, Schema(Type(Object(oldObj))), Schema(Type(Object(newObj))), dir, oldComps, newComps, 0)
         == DiffObject(loc, context, oldObj, newObj, dir, oldComps, newComps, 0)
  {
  }

  /**
   * End to end for a request: a required property added to the object a
   * request body's media type carries is one Breaking change.
   */
  lemma RequiredPropertyAddedToRequestBody(loc: Location, o: RequestBody, n: RequestBody, oldSpec: OpenAPI, newSpec: OpenAPI,
                                           media: string, oldObj: ObjectType, newObj: ObjectType, name: string)
    requires (media, ObjectMedia(oldObj)) in o.content && Get(n.content, media) == Some(ObjectMedia(newObj))
    requires name !in Keys(oldObj.properties) && name in Keys(newObj.properties) && name in newObj.required
    ensures Change(Breaking, loc, ItemMessage("request body " + media, "property", name, "added"))
              in DiffRequestBody(loc, Some(Item(o)), Some(Item(n)), oldSpec, newSpec)
  {
    var ctx := "request body " + media;
    var os, ns := Schema(Type(Object(oldObj))), Schema(Type(Object(newObj)));
    RequestBodySchemaChanges(loc, o, n, oldSpec, newSpec, media, ObjectMedia(oldObj), ObjectMedia(newObj), os, ns);
    ObjectSchemas(loc, ctx, oldObj, newObj, Request, oldSpec.components, newSpec.components);
    ObjectRules(loc, ctx, oldObj, newObj, Request, oldSpec.components, newSpec.components, 0, name);
  }

  /**
   * End to end for a response: a property removed from the object a
   * response's media type carries is one Breaking change.
   */
  lemma PropertyRemovedFromResponse(loc: Location, oldResponses: IndexMap<StatusCode, RefOr<Response>>,
                                    newResponses: IndexMap<StatusCode, RefOr<Response>>, oldSpec: OpenAPI, newSpec: OpenAPI,
                                    code: StatusCode, ro: Response, rn: Response,
                                    media: string, oldObj: ObjectType, newObj: ObjectType, name: string)
    requires (code, Item(ro)) in oldResponses && Get(newResponses, code) == Some(Item(rn))
    requires (media, ObjectMedia(oldObj)) in ro.content && Get(rn.content, media) == Some(ObjectMedia(newObj))
    requires name in Keys(oldObj.properties) && name !in Keys(newObj.properties)
    ensures Change(Breaking, loc, ItemMessage(ResponseLabel(code) + " " + media, "property", name, "removed"))
              in DiffResponses(loc, oldResponses, newResponses, oldSpec, newSpec)
  {
    var ctx := ResponseLabel(code) + " " + media;
    var os, ns := Schema(Type(Object(oldObj))), Schema(Type(Object(newObj)));
    ResponseSchemaChanges(loc, oldResponses, newResponses, oldSpec, newSpec, code, Item(ro), Item(rn), ro, rn,
                          media, ObjectMedia(oldObj), ObjectMedia(newObj), os, ns);
    ObjectSchemas(loc, ctx, oldObj, newObj, Direction.Response, oldSpec.components, newSpec.components);
    ObjectRules(loc, ctx, oldObj, newObj, Direction.Response, oldSpec.components, newSpec.components, 0, name);
  }

  // ---------------------------------------------------------------------
  // Emission order
  // ---------------------------------------------------------------------

  /** The changes are listed by non-decreasing `rank`. */
  predicate Ascending(cs: seq<Change>, rank: Change -> nat) {
    forall i, j :: 0 <= i < j < |cs| ==> rank(cs[i]) <= rank(cs[j])
  }

  /** A block of changes that all share one rank is in order. */
  lemma SectionAscending(cs: seq<Change>, rank: Change -> nat, k: nat)
    requires forall c :: c in cs ==> rank(c) == k
    ensures Ascending(cs, rank)
  {
    forall i, j | 0 <= i < j < |cs| ensures rank(cs[i]) <= rank(cs[j]) {
      assert cs[i] in cs && cs[j] in cs;
    }
  }

  /** Two ordered lists whose ranks do not overlap backwards join into an ordered list. */
  lemma AscendingJoin(a: seq<Change>, b: seq<Change>, rank: Change -> nat)
    requires Ascending(a, rank) && Ascending(b, rank)
    requires forall x, y :: x in a && y in b ==> rank(x) <= rank(y)
    ensures Ascending(a + b, rank)
  {
    var r := a + b;
    forall i, j | 0 <= i < j < |r| ensures rank(r[i]) <= rank(r[j]) {
      if j < |a| {
        assert r[i] == a[i] && r[j] == a[j];
      } else if i < |a| {
        assert r[i] == a[i] && r[j] == b[j - |a|];
        assert r[i] in a && r[j] in b;
      } else {
        assert r[i] == b[i - |a|] && r[j] == b[j - |a|];
      }
    }
  }

  /**
   * The section of an operation's comparison a change belongs to, read off
   * its message: parameters 0, request body 1, responses 2, deprecation 3.
   */
  function OperationRank(c: Change): nat {
    if "request body" <= c.message then 1
    else if "response '" <= c.message then 2
    else if c.message == "operation deprecated" then 3
    else 0
  }

  /** A parameter change's message starts with a location name or with "parameter". */
  predicate ParamText(m: string) {
    |m| > 0 && (m[0] == 'q' || m[0] == 'h' || m[0] == 'p' || m[0] == 'c')
  }

  lemma ParamTextRank(c: Change)
    requires ParamText(c.message)
    ensures OperationRank(c) == 0
  {
    assert "request body"[0] == 'r' && "response '"[0] == 'r' && "operation deprecated"[0] == 'o';
  }

  lemma SharedParamText(loc: Location, key: ParamKey, o: Parameter, n: Parameter)
    ensures forall c :: c in DiffSharedParam(loc, key, o, n) ==> ParamText(c.message)
  {
    var req := if !o.required && n.required then [Change(Breaking, loc, "parameter '" + key.name + "' became required")] else [];
    var opt := if o.required && !n.required then [Change(NonBreaking, loc, "parameter '" + key.name + "' became optional")] else [];
    var ty := DiffParameterType(loc, key.name, o.format, n.format);
    assert DiffSharedParam(loc, key, o, n) == req + opt + ty;
    forall c: Change | c in req + opt + ty ensures ParamText(c.message) {
      if c in req {
        assert c.message == "parameter '" + key.name + "' became required";
      } else if c in opt {
        assert c.message == "parameter '" + key.name + "' became optional";
      } else {
        var s, t := o.format.schema.item.kind, n.format.schema.item.kind;
        assert c.message == "parameter '" + key.name + "' type changed from " + TypeName(s) + " to " + TypeName(t);
      }
    }
  }

  lemma {:induction false} ExistingParamsText(loc: Location, entries: IndexMap<ParamKey, Parameter>, newMap: IndexMap<ParamKey, Parameter>)
    requires forall e :: e in entries ==> e.0 == KeyOf(e.1)
    ensures forall c :: c in ExistingParams(loc, entries, newMap) ==> ParamText(c.message)
  {
    if entries != [] {
      var (key, p) := entries[0];
      assert entries[0] in entries;
      ExistingParamsText(loc, entries[1..], newMap);
      if Get(newMap, key).Some? {
        SharedParamText(loc, key, p, Get(newMap, key).value);
      } else {
        var m := key.location + " parameter '" + key.name + "' removed";
        assert m[0] == LocationName(p.location)[0];
      }
    }
  }

  lemma {:induction false} AddedParamsText(loc: Location, entries: IndexMap<ParamKey, Parameter>, oldMap: IndexMap<ParamKey, Parameter>)
    requires forall e :: e in entries ==> e.0 == KeyOf(e.1)
    ensures forall c :: c in AddedParams(loc, entries, oldMap) ==> ParamText(c.message)
  {
    if entries != [] {
      var (key, p) := entries[0];
      assert entries[0] in entries;
      AddedParamsText(loc, entries[1..], oldMap);
      var m := key.location + " parameter '" + key.name + "' added";
      assert m[0] == LocationName(p.location)[0];
    }
  }

  lemma ParametersRank(loc: Location, oldParams: seq<RefOr<Parameter>>, newParams: seq<RefOr<Parameter>>,
                        oldComps: Option<Components>, newComps: Option<Components>)
    ensures forall c :: c in DiffParameters(loc, oldParams, newParams, oldComps, newComps) ==> OperationRank(c) == 0
  {
    var oldMap, newMap := ParamMap(oldParams, oldComps), ParamMap(newParams, newComps);
    assert DiffParameters(loc, oldParams, newParams, oldComps, newComps)
        == ExistingParams(loc, oldMap, newMap) + AddedParams(loc, newMap, oldMap);
    ExistingParamsText(loc, oldMap, newMap);
    AddedParamsText(loc, newMap, oldMap);
    forall c | c in DiffParameters(loc, oldParams, newParams, oldComps, newComps) ensures OperationRank(c) == 0 {
      ParamTextRank(c);
    }
  }

  lemma ResponsesRank(loc: Location, oldResponses: IndexMap<StatusCode, RefOr<Response>>,
                      newResponses: IndexMap<StatusCode, RefOr<Response>>, oldSpec: OpenAPI, newSpec: OpenAPI)
    ensures forall c :: c in DiffResponses(loc, oldResponses, newResponses, oldSpec, newSpec) ==> OperationRank(c) == 2
  {
    forall c | c in DiffResponses(loc, oldResponses, newResponses, oldSpec, newSpec) ensures OperationRank(c) == 2 {
      ResponseTextRank(c);
    }
  }

  lemma ResponseTextRank(c: Change)
    requires "response '" <= c.message
    ensures OperationRank(c) == 2
  {
    assert c.message[2] == "response '"[2] == 's';
    assert "request body"[2] == 'q';
  }

  /**
   * An operation's changes come in four sections, in this order: the
   * parameters', the request body's, the responses', and the deprecation.
   */
  lemma OperationOrder(loc: Location, o: Operation, n: Operation, oldSpec: OpenAPI, newSpec: OpenAPI)
    ensures Ascending(DiffOperation(loc, o, n, oldSpec, newSpec), OperationRank)
  {
    var params := DiffParameters(loc, o.parameters, n.parameters, oldSpec.components, newSpec.components);
    var body := DiffRequestBody(loc, o.requestBody, n.requestBody, oldSpec, newSpec);
    var responses := DiffResponses(loc, o.responses, n.responses, oldSpec, newSpec);
    var dep := if !o.deprecated && n.deprecated then [Change(NonBreaking, loc, "operation deprecated")] else [];
    ParametersRank(loc, o.parameters, n.parameters, oldSpec.components, newSpec.components);
    ResponsesRank(loc, o.responses, n.responses, oldSpec, newSpec);
    DeprecationRank(dep, loc);
    OperationSections(params, body, responses, dep);
  }

  lemma DeprecationRank(dep: seq<Change>, loc: Location)
    requires dep == [] || dep == [Change(NonBreaking, loc, "operation deprecated")]
    ensures forall c :: c in dep ==> OperationRank(c) == 3
  {
    forall c | c in dep ensures OperationRank(c) == 3 {
      assert c.message[0] == 'o';
    }
  }

  /** Four sections of ranks 0 to 3, joined in that order. */
  lemma OperationSections(params: seq<Change>, body: seq<Change>, responses: seq<Change>, dep: seq<Change>)
    requires forall c :: c in params ==> OperationRank(c) == 0
    requires forall c :: c in body ==> "request body" <= c.message
    requires forall c :: c in responses ==> OperationRank(c) == 2
    requires forall c :: c in dep ==> OperationRank(c) == 3
    ensures Ascending(params + body + responses + dep, OperationRank)
  {
    SectionAscending(params, OperationRank, 0);
    SectionAscending(body, OperationRank, 1);
    SectionAscending(responses, OperationRank, 2);
    SectionAscending(dep, OperationRank, 3);
    AscendingJoin(params, body, OperationRank);
    AscendingJoin(params + body, responses, OperationRank);
    AscendingJoin(params + body + responses, dep, OperationRank);
  }

  /** The last five characters of a message (all of it when shorter). */
  function LastFive(m: string): string {
    if |m| <= 5 then m else m[|m| - 5..]
  }

  /**
   * The section of an object comparison a change belongs to, read off its
   * message: removed 0, added 1, became required 2, became optional 3, and 4
   * for the changes of a shared property one level down, whose context
   * extends `context` with ".".
   */
  function ObjectRank(context: string, c: Change): nat {
    if context + "." <= c.message then 4
    else if LastFive(c.message) == "moved" then 0
    else if LastFive(c.message) == "added" then 1
    else if LastFive(c.message) == "uired" then 2
    else 3
  }

  /** A property message is not nested one level down and ends as its `what` does. */
  lemma PropertyMessageEnd(context: string, name: string, what: string, c: Change)
    requires c.message == ItemMessage(context, "property", name, what) && |what| >= 5
    ensures !(context + "." <= c.message)
    ensures LastFive(c.message) == what[|what| - 5..]
  {
    var m := c.message;
    var x := context + ": " + "property" + " '" + name + "' ";
    assert m == x + what;
    assert m[|context|] == ':';
    assert m[|m| - 5..] == what[|what| - 5..];
  }

  lemma {:induction false} RemovedRank(loc: Location, context: string, names: seq<string>,
                                       newProps: IndexMap<string, RefOr<Schema>>, dir: Direction)
    ensures forall c :: c in RemovedProperties(loc, context, names, newProps, dir) ==> ObjectRank(context, c) == 0
  {
    if names != [] {
      var rest := RemovedProperties(loc, context, names[1..], newProps, dir);
      RemovedRank(loc, context, names[1..], newProps, dir);
      forall c | c in RemovedProperties(loc, context, names, newProps, dir) ensures ObjectRank(context, c) == 0 {
        if c !in rest {
          PropertyMessageEnd(context, names[0], "removed", c);
          assert "removed"[2..] == "moved";
        }
      }
    }
  }

  lemma {:induction false} AddedRank(loc: Location, context: string, names: seq<string>,
                                     oldProps: IndexMap<string, RefOr<Schema>>, newRequired: seq<string>, dir: Direction)
    ensures forall c :: c in AddedProperties(loc, context, names, oldProps, newRequired, dir) ==> ObjectRank(context, c) == 1
  {
    if names != [] {
      var rest := AddedProperties(loc, context, names[1..], oldProps, newRequired, dir);
      AddedRank(loc, context, names[1..], oldProps, newRequired, dir);
      forall c | c in AddedProperties(loc, context, names, oldProps, newRequired, dir) ensures ObjectRank(context, c) == 1 {
        if c !in rest {
          PropertyMessageEnd(context, names[0], "added", c);
          assert "added"[0..] == "added" != "moved";
        }
      }
    }
  }

  lemma RequiredMessageRank(context: string, name: string, c: Change)
    requires c.message == ItemMessage(context, "property", name, "became required")
    ensures ObjectRank(context, c) == 2
  {
    PropertyMessageEnd(context, name, "became required", c);
    assert "became required"[10..] == "uired";
    assert "uired"[0] != "moved"[0] && "uired"[0] != "added"[0];
  }

  lemma {:induction false} BecameRequiredRank(loc: Location, context: string, newRequired: seq<string>, oldRequired: seq<string>,
                                              oldProps: IndexMap<string, RefOr<Schema>>, dir: Direction)
    ensures forall c :: c in BecameRequired(loc, context, newRequired, oldRequired, oldProps, dir) ==> ObjectRank(context, c) == 2
  {
    if newRequired != [] {
      var rest := BecameRequired(loc, context, newRequired[1..], oldRequired, oldProps, dir);
      BecameRequiredRank(loc, context, newRequired[1..], oldRequired, oldProps, dir);
      forall c | c in BecameRequired(loc, context, newRequired, oldRequired, oldProps, dir) ensures ObjectRank(context, c) == 2 {
        if c !in rest {
          RequiredMessageRank(context, newRequired[0], c);
        }
      }
    }
  }

  lemma OptionalMessageRank(context: string, name: string, c: Change)
    requires c.message == ItemMessage(context, "property", name, "became optional")
    ensures ObjectRank(context, c) == 3
  {
    PropertyMessageEnd(context, name, "became optional", c);
    assert "became optional"[10..] == "ional";
    assert "ional"[0] != "moved"[0] && "ional"[0] != "added"[0] && "ional"[0] != "uired"[0];
  }

  lemma {:induction false} BecameOptionalRank(loc: Location, context: string, oldRequired: seq<string>, newRequired: seq<string>,
                                              newProps: IndexMap<string, RefOr<Schema>>, dir: Direction)
    ensures forall c :: c in BecameOptional(loc, context, oldRequired, newRequired, newProps, dir) ==> ObjectRank(context, c) == 3
  {
    if oldRequired != [] {
      var rest := BecameOptional(loc, context, oldRequired[1..], newRequired, newProps, dir);
      BecameOptionalRank(loc, context, oldRequired[1..], newRequired, newProps, dir);
      forall c | c in BecameOptional(loc, context, oldRequired, newRequired, newProps, dir) ensures ObjectRank(context, c) == 3 {
        if c !in rest {
          OptionalMessageRank(context, oldRequired[0], c);
        }
      }
    }
  }

  /** The changes of shared properties are all nested one level down. */
  lemma {:induction false} NestedRank(loc: Location, context: string, oldEntries: IndexMap<string, RefOr<Schema>>,
                                      newProps: IndexMap<string, RefOr<Schema>>, dir: Direction,
                                      oldComps: Option<Components>, newComps: Option<Components>, depth: nat)
    requires depth < MaxDepth
    ensures forall c :: c in DiffProperties(loc, context, oldEntries, newProps, dir, oldComps, newComps, depth) ==>
      ObjectRank(context, c) == 4
  {
    if oldEntries != [] {
      var (name, oldRef) := oldEntries[0];
      var rest := DiffProperties(loc, context, oldEntries[1..], newProps, dir, oldComps, newComps, depth);
      NestedRank(loc, context, oldEntries[1..], newProps, dir, oldComps, newComps, depth);
      var o := ResolveSchema(oldRef, oldComps);
      if Get(newProps, name).Some? {
        var n := ResolveSchema(Get(newProps, name).value, newComps);
        if o.Some? && n.Some? {
          var ctx := context + "." + name;
          var head := DiffSchema(loc, ctx, o.value, n.value, dir, oldComps, newComps, depth + 1);
          assert DiffProperties(loc, context, oldEntries, newProps, dir, oldComps, newComps, depth) == head + rest;
          PrefixOfPrefix(context + ".", ctx, head);
        }
      }
    }
  }

  /**
   * An object's changes come in five sections, in this order: removed
   * properties, added properties, newly required ones, newly optional ones,
   * then the shared properties' own changes.
   */
  lemma ObjectOrder(loc: Location, context: string, o: ObjectType, n: ObjectType, dir: Direction,
                    oldComps: Option<Components>, newComps: Option<Components>, depth: nat)
    requires depth < MaxDepth
    ensures Ascending(DiffObject(loc, context, o, n, dir, oldComps, newComps, depth), c => ObjectRank(context, c))
  {
    var rank := c => ObjectRank(context, c);
    var removed := RemovedProperties(loc, context, Keys(o.properties), n.properties, dir);
    var added := AddedProperties(loc, context, Keys(n.properties), o.properties, n.required, dir);
    var required := BecameRequired(loc, context, n.required, o.required, o.properties, dir);
    var optional := BecameOptional(loc, context, o.required, n.required, n.properties, dir);
    var nested := DiffProperties(loc, context, o.properties, n.properties, dir, oldComps, newComps, depth);
    RemovedRank(loc, context, Keys(o.properties), n.properties, dir);
    AddedRank(loc, context, Keys(n.properties), o.properties, n.required, dir);
    BecameRequiredRank(loc, context, n.required, o.required, o.properties, dir);
    BecameOptionalRank(loc, context, o.required, n.required, n.properties, dir);
    NestedRank(loc, context, o.properties, n.properties, dir, oldComps, newComps, depth);
    SectionAscending(removed, rank, 0);
    SectionAscending(added, rank, 1);
    SectionAscending(required, rank, 2);
    SectionAscending(optional, rank, 3);
    SectionAscending(nested, rank, 4);
    AscendingJoin(removed, added, rank);
    AscendingJoin(removed + added, required, rank);
    AscendingJoin(removed + added + required, optional, rank);
    AscendingJoin(removed + added + required + optional, nested, rank);
  }
}
