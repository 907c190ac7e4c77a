/**
 * The comparison engine: walks two OpenAPI documents layer by layer (paths,
 * HTTP methods, parameters, request body, responses, media-type content,
 * schemas) and returns the flat list of changes, each Breaking or
 * NonBreaking. Every function is a pure function of the two documents.
 */
module Diff {
  import opened Wrappers
  import opened IndexMaps
  import opened ChangeModel
  import opened OpenApi

  /** The outcome of one comparison: the changes, in emission order. */
  datatype Diff = Diff(changes: seq<Change>)

  predicate IsEmpty(d: Diff) {
    d.changes == []
  }

  /** `has_breaking`: some change is Breaking. */
  predicate HasBreaking(d: Diff) {
    exists c :: c in d.changes && c.severity == Breaking
  }

  /** The changes of one severity, in their original order. */
  function OfSeverity(cs: seq<Change>, sev: Severity): (r: seq<Change>)
    ensures |r| <= |cs|
    ensures forall c :: c in r ==> c in cs && c.severity == sev
    ensures forall c :: c in cs && c.severity == sev ==> c in r
  {
    if cs == [] then []
    else (if cs[0].severity == sev then [cs[0]] else []) + OfSeverity(cs[1..], sev)
  }

  /** `breaking`: the Breaking changes; empty exactly when the diff has none. */
  function BreakingChanges(d: Diff): (r: seq<Change>)
    ensures HasBreaking(d) <==> r != []
  {
    var r := OfSeverity(d.changes, Breaking);
    assert r != [] ==> r[0] in r;
    r
  }

  /** `non_breaking`: the NonBreaking changes. */
  function NonBreakingChanges(d: Diff): (r: seq<Change>)
    ensures forall c :: c in r <==> c in d.changes && c.severity == NonBreaking
  {
    OfSeverity(d.changes, NonBreaking)
  }

  /** `diff_specs`: compare two documents. */
  function DiffSpecs(oldSpec: OpenAPI, newSpec: OpenAPI): (d: Diff)
    ensures forall c :: c in d.changes ==>
      c.location.path in Keys(oldSpec.paths) || c.location.path in Keys(newSpec.paths)
  {
    Diff(DiffPaths(oldSpec, newSpec))
  }

  // ---------------------------------------------------------------------
  // Layer 1: paths
  // ---------------------------------------------------------------------

  /**
   * One Path-located change of the given severity and message for every
   * key of `keys` that `other` lacks, in the order of `keys`.
   */
  function EndpointChanges<V>(keys: seq<string>, other: IndexMap<string, V>, sev: Severity, message: string): (r: seq<Change>)
    ensures forall c :: c in r ==>
      c.severity == sev && c.location.Path? && c.location.path in keys &&
      c.location.path !in Keys(other) && c.message == message
  {
    if keys == [] then []
    else
      (if keys[0] in Keys(other) then [] else [Change(sev, Path(keys[0]), message)])
      + EndpointChanges(keys[1..], other, sev, message)
  }

  /** One old path: when the new document has it too, and both are inline path items, their comparison. */
  function SharedPath(path: string, oldRef: RefOr<PathItem>, oldSpec: OpenAPI, newSpec: OpenAPI): (r: seq<Change>)
    ensures forall c :: c in r ==>
      c.location.Operation? && c.location.path == path &&
      path in Keys(newSpec.paths) && c.location.httpMethod in Methods
  {
    match Get(newSpec.paths, path)
    case Some(newRef) =>
      if oldRef.Item? && newRef.Item? then DiffPathItem(path, oldRef.item, newRef.item, oldSpec, newSpec) else []
    case None => []
  }

  /** The changes of the paths present in both documents, in the old document's order. */
  function SharedPaths(oldPaths: IndexMap<string, RefOr<PathItem>>, oldSpec: OpenAPI, newSpec: OpenAPI): (r: seq<Change>)
    ensures forall c :: c in r ==>
      c.location.Operation? && c.location.path in Keys(oldPaths) &&
      c.location.path in Keys(newSpec.paths) && c.location.httpMethod in Methods
  {
    if oldPaths == [] then []
    else
      SharedPath(oldPaths[0].0, oldPaths[0].1, oldSpec, newSpec)
      + SharedPaths(oldPaths[1..], oldSpec, newSpec)
  }

  /** `diff_paths`: removed endpoints, then added endpoints, then the shared ones' changes. */
  function DiffPaths(oldSpec: OpenAPI, newSpec: OpenAPI): (r: seq<Change>)
    ensures forall c :: c in r ==>
      c.location.path in Keys(oldSpec.paths) || c.location.path in Keys(newSpec.paths)
  {
    EndpointChanges(Keys(oldSpec.paths), newSpec.paths, Breaking, "endpoint removed")
    + EndpointChanges(Keys(newSpec.paths), oldSpec.paths, NonBreaking, "endpoint added")
    + SharedPaths(oldSpec.paths, oldSpec, newSpec)
  }

  // ---------------------------------------------------------------------
  // Layer 2: the operations of a path item
  // ---------------------------------------------------------------------

  const Methods: seq<string> := ["GET", "PUT", "POST", "DELETE", "OPTIONS", "HEAD", "PATCH", "TRACE"]

  /** The position of a method name in `Methods` (8 for any other name). */
  function MethodRank(m: string): (k: nat)
    ensures k <= |Methods| && (k < |Methods| <==> m in Methods)
    ensures k < |Methods| ==> Methods[k] == m
  {
    if m == "GET" then 0
    else if m == "PUT" then 1
    else if m == "POST" then 2
    else if m == "DELETE" then 3
    else if m == "OPTIONS" then 4
    else if m == "HEAD" then 5
    else if m == "PATCH" then 6
    else if m == "TRACE" then 7
    else 8
  }

  /** Each method's rank is its position: the eight method names are distinct. */
  lemma MethodRankOfMethods(k: nat)
    requires k < |Methods|
    ensures MethodRank(Methods[k]) == k
  {
    if k == 0 {} else if k == 1 {} else if k == 2 {} else if k == 3 {}
    else if k == 4 {} else if k == 5 {} else if k == 6 {} else {}
  }

  /** `operations`: the eight (method, operation) slots in their fixed order. */
  function Operations(item: PathItem): (ops: seq<(string, Option<Operation>)>)
    ensures |ops| == |Methods|
    ensures forall k :: 0 <= k < |ops| ==> ops[k].0 == Methods[k]
  {
    [("GET", item.get), ("PUT", item.put), ("POST", item.post), ("DELETE", item.delete),
     ("OPTIONS", item.options), ("HEAD", item.head), ("PATCH", item.patch), ("TRACE", item.trace)]
  }

  /** One method slot: removed, added, compared, or absent on both sides. */
  function DiffMethod(loc: Location, oldOp: Option<Operation>, newOp: Option<Operation>,
                      oldSpec: OpenAPI, newSpec: OpenAPI): (r: seq<Change>)
    ensures forall c :: c in r ==> c.location == loc
  {
    match (oldOp, newOp)
    case (Some(_), None) => [Change(Breaking, loc, "operation removed")]
    case (None, Some(_)) => [Change(NonBreaking, loc, "operation added")]
    case (Some(o), Some(n)) => DiffOperation(loc, o, n, oldSpec, newSpec)
    case (None, None) => []
  }

  /** The method slots from position `k` on, in the fixed method order. */
  function DiffMethods(path: string, oldItem: PathItem, newItem: PathItem, k: nat,
                       oldSpec: OpenAPI, newSpec: OpenAPI): (r: seq<Change>)
    requires k <= |Methods|
    ensures forall c :: c in r ==>
      c.location.Operation? && c.location.path == path && k <= MethodRank(c.location.httpMethod) < |Methods|
    ensures forall i, j :: 0 <= i < j < |r| ==>
      MethodRank(r[i].location.httpMethod) <= MethodRank(r[j].location.httpMethod)
    decreases |Methods| - k
  {
    if k == |Methods| then []
    else
      var verb := Operations(oldItem)[k].0;
      MethodRankOfMethods(k);
      var here := DiffMethod(Location.Operation(path, verb), Operations(oldItem)[k].1, Operations(newItem)[k].1, oldSpec, newSpec);
      var rest := DiffMethods(path, oldItem, newItem, k + 1, oldSpec, newSpec);
      assert forall i :: 0 <= i < |here| ==> here[i] in here;
      assert forall i :: 0 <= i < |rest| ==> rest[i] in rest;
      here + rest
  }

  /** `diff_path_item`: every change is at one of this path's eight methods, grouped in method order. */
  function DiffPathItem(path: string, oldItem: PathItem, newItem: PathItem, oldSpec: OpenAPI, newSpec: OpenAPI): (r: seq<Change>)
    ensures forall c :: c in r ==>
      c.location.Operation? && c.location.path == path && c.location.httpMethod in Methods
    ensures forall i, j :: 0 <= i < j < |r| ==>
      MethodRank(r[i].location.httpMethod) <= MethodRank(r[j].location.httpMethod)
  {
    DiffMethods(path, oldItem, newItem, 0, oldSpec, newSpec)
  }

  // ---------------------------------------------------------------------
  // Layer 3: one operation
  // ---------------------------------------------------------------------

  /** `diff_operation`: parameters, then request body, then responses, then deprecation. */
  function DiffOperation(loc: Location, oldOp: Operation, newOp: Operation, oldSpec: OpenAPI, newSpec: OpenAPI): (r: seq<Change>)
    ensures forall c :: c in r ==> c.location == loc
  {
    DiffParameters(loc, oldOp.parameters, newOp.parameters, oldSpec.components, newSpec.components)
    + DiffRequestBody(loc, oldOp.requestBody, newOp.requestBody, oldSpec, newSpec)
    + DiffResponses(loc, oldOp.responses, newOp.responses, oldSpec, newSpec)
    + (if !oldOp.deprecated && newOp.deprecated then [Change(NonBreaking, loc, "operation deprecated")] else [])
  }

  // ---------------------------------------------------------------------
  // References
  // ---------------------------------------------------------------------

  /**
   * Resolve a value that may be a `$ref`, in one hop: an inline value is
   * itself; a reference resolves only when it starts with `prefix` and the
   * rest names an entry of `table` that is itself inline.
   */
  function ResolveRef<T>(r: RefOr<T>, prefix: string, table: Option<IndexMap<string, RefOr<T>>>): (res: Option<T>)
    ensures r.Item? ==> res == Some(r.item)
    ensures r.Reference? && res.Some? ==>
      prefix <= r.reference && table.Some? && Get(table.value, r.reference[|prefix|..]) == Some(Item(res.value))
  {
    match r
    case Item(v) => Some(v)
    case Reference(reference) =>
      if prefix <= reference && table.Some? then
        var target := Get(table.value, reference[|prefix|..]);
        if target.Some? && target.value.Item? then Some(target.value.item) else None
      else None
  }

  const SchemaPrefix := "#/components/schemas/"
  const ParameterPrefix := "#/components/parameters/"
  const RequestBodyPrefix := "#/components/requestBodies/"
  const ResponsePrefix := "#/components/responses/"

  /** `resolve_schema` and `resolve_box_schema`. */
  function ResolveSchema(r: RefOr<Schema>, comps: Option<Components>): Option<Schema> {
    ResolveRef(r, SchemaPrefix, if comps.Some? then Some(comps.value.schemas) else None)
  }

  function ResolveParam(r: RefOr<Parameter>, comps: Option<Components>): Option<Parameter> {
    ResolveRef(r, ParameterPrefix, if comps.Some? then Some(comps.value.parameters) else None)
  }

  function ResolveRequestBody(r: RefOr<RequestBody>, spec: OpenAPI): Option<RequestBody> {
    ResolveRef(r, RequestBodyPrefix, if spec.components.Some? then Some(spec.components.value.requestBodies) else None)
  }

  function ResolveResponse(r: RefOr<Response>, spec: OpenAPI): Option<Response> {
    ResolveRef(r, ResponsePrefix, if spec.components.Some? then Some(spec.components.value.responses) else None)
  }

  // ---------------------------------------------------------------------
  // Layer 4: parameters, matched by name and location
  // ---------------------------------------------------------------------

  datatype ParamKey = ParamKey(name: string, location: string)

  function LocationName(l: ParameterLocation): string {
    match l
    case Query => "query"
    case Header => "header"
    case PathParam => "path"
    case Cookie => "cookie"
  }

  function KeyOf(p: Parameter): ParamKey {
    ParamKey(p.name, LocationName(p.location))
  }

  /**
   * The resolved parameters keyed by name and location. Unresolvable
   * references are skipped; of two parameters with the same key the later
   * one wins, as when the list is collected into a hash map.
   */
  function ParamMap(params: seq<RefOr<Parameter>>, comps: Option<Components>): (m: IndexMap<ParamKey, Parameter>)
    ensures DistinctKeys(m)
    ensures forall e :: e in m ==> e.0 == KeyOf(e.1)
  {
    if params == [] then []
    else
      var m := ParamMap(params[..|params| - 1], comps);
      match ResolveParam(params[|params| - 1], comps)
      case None => m
      case Some(p) =>
        PutDistinct(m, KeyOf(p), p);
        PutEntries(m, KeyOf(p), p);
        Put(m, KeyOf(p), p)
  }

  /** `diff_parameter_type`: inline schemas whose type names differ give one Breaking change. */
  function DiffParameterType(loc: Location, name: string, oldFormat: ParameterFormat, newFormat: ParameterFormat): (r: seq<Change>)
    ensures |r| <= 1
    ensures forall c :: c in r ==> c.location == loc && c.severity == Breaking
  {
    match (oldFormat, newFormat)
    case (SchemaFormat(Item(o)), SchemaFormat(Item(n))) =>
      if TypeName(o.kind) != TypeName(n.kind) then
        [Change(Breaking, loc, "parameter '" + name + "' type changed from " + TypeName(o.kind) + " to " + TypeName(n.kind))]
      else []
    case _ => []
  }

  /** The changes of one parameter present on both sides. */
  function DiffSharedParam(loc: Location, key: ParamKey, oldP: Parameter, newP: Parameter): (r: seq<Change>)
    ensures forall c :: c in r ==> c.location == loc
  {
    (if !oldP.required && newP.required then [Change(Breaking, loc, "parameter '" + key.name + "' became required")] else [])
    + (if oldP.required && !newP.required then [Change(NonBreaking, loc, "parameter '" + key.name + "' became optional")] else [])
    + DiffParameterType(loc, key.name, oldP.format, newP.format)
  }

  /** The old parameters, each removed (Breaking iff it was required) or compared. */
  function ExistingParams(loc: Location, oldEntries: IndexMap<ParamKey, Parameter>, newMap: IndexMap<ParamKey, Parameter>): (r: seq<Change>)
    ensures forall c :: c in r ==> c.location == loc
  {
    if oldEntries == [] then []
    else
      var (key, oldP) := oldEntries[0];
      (match Get(newMap, key)
       case None =>
         [Change(if oldP.required then Breaking else NonBreaking, loc, key.location + " parameter '" + key.name + "' removed")]
       case Some(newP) => DiffSharedParam(loc, key, oldP, newP))
      + ExistingParams(loc, oldEntries[1..], newMap)
  }

  /** The new parameters with no old counterpart, each Breaking iff required. */
  function AddedParams(loc: Location, newEntries: IndexMap<ParamKey, Parameter>, oldMap: IndexMap<ParamKey, Parameter>): (r: seq<Change>)
    ensures forall c :: c in r ==> c.location == loc
  {
    if newEntries == [] then []
    else
      var (key, newP) := newEntries[0];
      (if key in Keys(oldMap) then []
       else [Change(if newP.required then Breaking else NonBreaking, loc, key.location + " parameter '" + key.name + "' added")])
      + AddedParams(loc, newEntries[1..], oldMap)
  }

  /**
   * `diff_parameters`. The source walks hash maps, so the order of these
   * changes is unspecified there; the model walks the maps in key order.
   */
  function DiffParameters(loc: Location, oldParams: seq<RefOr<Parameter>>, newParams: seq<RefOr<Parameter>>,
                          oldComps: Option<Components>, newComps: Option<Components>): (r: seq<Change>)
    ensures forall c :: c in r ==> c.location == loc
  {
    var oldMap := ParamMap(oldParams, oldComps);
    var newMap := ParamMap(newParams, newComps);
    ExistingParams(loc, oldMap, newMap) + AddedParams(loc, newMap, oldMap)
  }

  // ---------------------------------------------------------------------
  // Layer 5: request body
  // ---------------------------------------------------------------------

  /** The message of a change to the request body as a whole. */
  function BodyMessage(what: string): (m: string)
    ensures "request body" <= m
  {
    "request body " + what
  }

  /** `diff_request_body`. */
  function DiffRequestBody(loc: Location, oldBody: Option<RefOr<RequestBody>>, newBody: Option<RefOr<RequestBody>>,
                           oldSpec: OpenAPI, newSpec: OpenAPI): (r: seq<Change>)
    ensures forall c :: c in r ==> c.location == loc && "request body" <= c.message
  {
    var oldRb := if oldBody.Some? then ResolveRequestBody(oldBody.value, oldSpec) else None;
    var newRb := if newBody.Some? then ResolveRequestBody(newBody.value, newSpec) else None;
    match (oldRb, newRb)
    case (None, Some(rb)) => [Change(if rb.required then Breaking else NonBreaking, loc, BodyMessage("added"))]
    case (Some(_), None) => [Change(Breaking, loc, BodyMessage("removed"))]
    case (Some(o), Some(n)) =>
      var content := DiffContent(loc, "request body", o.content, n.content, Request, oldSpec.components, newSpec.components);
      assert forall c :: c in content ==> "request body" <= c.message;
      (if !o.required && n.required then [Change(Breaking, loc, BodyMessage("became required"))] else [])
      + content
    case (None, None) => []
  }

  // ---------------------------------------------------------------------
  // Layer 6: responses
  // ---------------------------------------------------------------------

  function DigitChar(d: nat): char
    requires d < 10
  {
    "0123456789"[d]
  }

  /** The decimal form of `n`, without leading zeros (`u16::to_string`). */
  function DecimalString(n: nat): (s: string)
    ensures |s| > 0
    ensures forall i :: 0 <= i < |s| ==> '0' <= s[i] <= '9'
  {
    if n < 10 then [DigitChar(n)] else DecimalString(n / 10) + [DigitChar(n % 10)]
  }

  /** `status_code_str`: `404` for a code, `4XX` for a range. */
  function StatusCodeText(sc: StatusCode): (s: string)
    ensures sc.Code? ==> forall i :: 0 <= i < |s| ==> '0' <= s[i] <= '9'
    ensures sc.Range? ==> |s| >= 3 && s[|s| - 2..] == "XX"
  {
    match sc
    case Code(c) => DecimalString(c)
    case Range(r) => DecimalString(r) + "XX"
  }

  function ResponseLabel(sc: StatusCode): (l: string)
    ensures "response '" <= l
  {
    "response '" + StatusCodeText(sc) + "'"
  }

  /** The message of a change to a whole response. */
  function ResponseMessage(sc: StatusCode, what: string): (m: string)
    ensures "response '" <= m
  {
    var l := ResponseLabel(sc);
    assert (l + " " + what)[..|l|] == l;
    l + " " + what
  }

  /** The old status codes, each removed (Breaking) or, when both sides resolve, compared by content. */
  function ExistingResponses(loc: Location, oldEntries: IndexMap<StatusCode, RefOr<Response>>,
                             newResponses: IndexMap<StatusCode, RefOr<Response>>, oldSpec: OpenAPI, newSpec: OpenAPI): (r: seq<Change>)
    ensures forall c :: c in r ==> c.location == loc && "response '" <= c.message
  {
    if oldEntries == [] then []
    else
      var (code, oldRef) := oldEntries[0];
      (match Get(newResponses, code)
       case None => [Change(Breaking, loc, ResponseMessage(code, "removed"))]
       case Some(newRef) =>
         var o := ResolveResponse(oldRef, oldSpec);
         var n := ResolveResponse(newRef, newSpec);
         if o.Some? && n.Some? then
           var s := DiffContent(loc, ResponseLabel(code), o.value.content, n.value.content, Direction.Response,
                                oldSpec.components, newSpec.components);
           PrefixOfPrefix("response '", ResponseLabel(code), s);
           s
         else [])
      + ExistingResponses(loc, oldEntries[1..], newResponses, oldSpec, newSpec)
  }

  /** The new status codes with no old counterpart, each NonBreaking. */
  function AddedResponses(loc: Location, newCodes: seq<StatusCode>, oldResponses: IndexMap<StatusCode, RefOr<Response>>): (r: seq<Change>)
    ensures forall c :: c in r ==> c.location == loc && c.severity == NonBreaking && "response '" <= c.message
  {
    if newCodes == [] then []
    else
      (if newCodes[0] in Keys(oldResponses) then [] else [Change(NonBreaking, loc, ResponseMessage(newCodes[0], "added"))])
      + AddedResponses(loc, newCodes[1..], oldResponses)
  }

  /** `diff_responses`. */
  function DiffResponses(loc: Location, oldResponses: IndexMap<StatusCode, RefOr<Response>>,
                         newResponses: IndexMap<StatusCode, RefOr<Response>>, oldSpec: OpenAPI, newSpec: OpenAPI): (r: seq<Change>)
    ensures forall c :: c in r ==> c.location == loc && "response '" <= c.message
  {
    ExistingResponses(loc, oldResponses, newResponses, oldSpec, newSpec)
    + AddedResponses(loc, Keys(newResponses), oldResponses)
  }

  // ---------------------------------------------------------------------
  // Media-type content, shared by request bodies and responses
  // ---------------------------------------------------------------------

  datatype Direction = Request | Response

  /**
   * One old media type: removed (Breaking whatever the direction) or, when
   * both schemas resolve, compared as schemas in `dir`.
   */
  function MediaTypeChanges(loc: Location, title: string, media: string, oldMt: MediaType, newContent: Content, dir: Direction,
                            oldComps: Option<Components>, newComps: Option<Components>): (r: seq<Change>)
    ensures forall c :: c in r ==> c.location == loc && title <= c.message
  {
    match Get(newContent, media)
    case None => [Change(Breaking, loc, title + ": media type '" + media + "' removed")]
    case Some(newMt) =>
      var o := if oldMt.schema.Some? then ResolveSchema(oldMt.schema.value, oldComps) else None;
      var n := if newMt.schema.Some? then ResolveSchema(newMt.schema.value, newComps) else None;
      if o.Some? && n.Some? then
        var ctx := title + " " + media;
        var s := DiffSchema(loc, ctx, o.value, n.value, dir, oldComps, newComps, 0);
        PrefixOfPrefix(title, ctx, s);
        s
      else []
  }

  /** The old media types in order, each handled by `MediaTypeChanges`. */
  function ExistingMedia(loc: Location, title: string, oldEntries: Content, newContent: Content, dir: Direction,
                         oldComps: Option<Components>, newComps: Option<Components>): (r: seq<Change>)
    ensures forall c :: c in r ==> c.location == loc && title <= c.message
  {
    if oldEntries == [] then []
    else
      MediaTypeChanges(loc, title, oldEntries[0].0, oldEntries[0].1, newContent, dir, oldComps, newComps)
      + ExistingMedia(loc, title, oldEntries[1..], newContent, dir, oldComps, newComps)
  }

  /** The new media types with no old counterpart, each NonBreaking. */
  function AddedMedia(loc: Location, title: string, newKeys: seq<string>, oldContent: Content): (r: seq<Change>)
    ensures forall c :: c in r ==> c.location == loc && c.severity == NonBreaking && title <= c.message
  {
    if newKeys == [] then []
    else
      (if newKeys[0] in Keys(oldContent) then [] else [Change(NonBreaking, loc, title + ": media type '" + newKeys[0] + "' added")])
      + AddedMedia(loc, title, newKeys[1..], oldContent)
  }

  /** `diff_content`. */
  function DiffContent(loc: Location, title: string, oldContent: Content, newContent: Content, dir: Direction,
                       oldComps: Option<Components>, newComps: Option<Components>): (r: seq<Change>)
    ensures forall c :: c in r ==> c.location == loc && title <= c.message
  {
    ExistingMedia(loc, title, oldContent, newContent, dir, oldComps, newComps)
    + AddedMedia(loc, title, Keys(newContent), oldContent)
  }

  // ---------------------------------------------------------------------
  // Layer 7: schemas
  // ---------------------------------------------------------------------

  const MaxDepth: nat := 10

  /** `type_name`. */
  function TypeName(kind: SchemaKind): string {
    match kind
    case Type(String(_)) => "string"
    case Type(Number) => "number"
    case Type(Integer) => "integer"
    case Type(Object(_)) => "object"
    case Type(Array(_)) => "array"
    case Type(Boolean) => "boolean"
    case OneOf => "oneOf"
    case AllOf => "allOf"
    case AnyOf => "anyOf"
    case Not => "not"
    case Any => "any"
  }

  /** Every change message that starts with a longer context starts with the shorter one. */
  lemma PrefixOfPrefix(context: string, longer: string, r: seq<Change>)
    requires context <= longer
    requires forall c :: c in r ==> longer <= c.message
    ensures forall c :: c in r ==> context <= c.message
  {
    forall c | c in r ensures context <= c.message {
      assert c.message[..|longer|][..|context|] == c.message[..|context|];
    }
  }

  /**
   * `diff_schema`: nothing at depth `MaxDepth` or deeper; one Breaking
   * change and nothing else when the type names differ; otherwise objects
   * and arrays are compared one level deeper and string enums compared.
   * Every change is at `loc` and its message starts with `context`.
   */
  function DiffSchema(loc: Location, context: string, oldS: Schema, newS: Schema, dir: Direction,
                      oldComps: Option<Components>, newComps: Option<Components>, depth: nat): (r: seq<Change>)
    ensures forall c :: c in r ==> c.location == loc && context <= c.message
    ensures depth >= MaxDepth ==> r == []
    ensures depth < MaxDepth && TypeName(oldS.kind) != TypeName(newS.kind) ==>
      r == [Change(Breaking, loc, context + ": type changed from " + TypeName(oldS.kind) + " to " + TypeName(newS.kind))]
    decreases MaxDepth - depth, 2, 0
  {
    if depth >= MaxDepth then []
    else
      var oldType, newType := TypeName(oldS.kind), TypeName(newS.kind);
      if oldType != newType then
        [Change(Breaking, loc, context + ": type changed from " + oldType + " to " + newType)]
      else
        match (oldS.kind, newS.kind)
        case (Type(Object(o)), Type(Object(n))) =>
          DiffObject(loc, context, o, n, dir, oldComps, newComps, depth)
        case (Type(Array(o)), Type(Array(n))) =>
          var oldItems := if o.items.Some? then ResolveSchema(o.items.value, oldComps) else None;
          var newItems := if n.items.Some? then ResolveSchema(n.items.value, newComps) else None;
          if oldItems.Some? && newItems.Some? then
            var s := DiffSchema(loc, context + "[]", oldItems.value, newItems.value, dir, oldComps, newComps, depth + 1);
            PrefixOfPrefix(context, context + "[]", s);
            s
          else []
        case (Type(String(o)), Type(String(n))) =>
          DiffStringEnum(loc, context, o, n, dir)
        case _ => []
  }

  /** The message of a change to one named member of a schema: a property or an enum value. */
  function ItemMessage(context: string, noun: string, name: string, what: string): (m: string)
    ensures context <= m
  {
    context + ": " + noun + " '" + name + "' " + what
  }


  /** Old properties missing from the new object: Breaking in responses, NonBreaking in requests. */
  function RemovedProperties(loc: Location, context: string, names: seq<string>, newProps: IndexMap<string, RefOr<Schema>>,
                             dir: Direction): (r: seq<Change>)
    ensures forall c :: c in r ==> c.location == loc && context <= c.message
  {
    if names == [] then []
    else
      (if names[0] in Keys(newProps) then []
       else [Change(if dir == Direction.Response then Breaking else NonBreaking, loc, ItemMessage(context, "property", names[0], "removed"))])
      + RemovedProperties(loc, context, names[1..], newProps, dir)
  }

  /** New properties missing from the old object: Breaking only in requests and only when required. */
  function AddedProperties(loc: Location, context: string, names: seq<string>, oldProps: IndexMap<string, RefOr<Schema>>,
                           newRequired: seq<string>, dir: Direction): (r: seq<Change>)
    ensures forall c :: c in r ==> c.location == loc && context <= c.message
  {
    if names == [] then []
    else
      (if names[0] in Keys(oldProps) then []
       else [Change(if dir == Request && names[0] in newRequired then Breaking else NonBreaking, loc,
                    ItemMessage(context, "property", names[0], "added"))])
      + AddedProperties(loc, context, names[1..], oldProps, newRequired, dir)
  }

  /** Names newly listed in `required` that the old object already had: Breaking in requests. */
  function BecameRequired(loc: Location, context: string, newRequired: seq<string>, oldRequired: seq<string>,
                          oldProps: IndexMap<string, RefOr<Schema>>, dir: Direction): (r: seq<Change>)
    ensures forall c :: c in r ==> c.location == loc && context <= c.message
  {
    if newRequired == [] then []
    else
      var name := newRequired[0];
      (if name !in oldRequired && name in Keys(oldProps) then
         [Change(if dir == Request then Breaking else NonBreaking, loc, ItemMessage(context, "property", name, "became required"))]
       else [])
      + BecameRequired(loc, context, newRequired[1..], oldRequired, oldProps, dir)
  }

  /** Names dropped from `required` that the new object still has: Breaking in responses. */
  function BecameOptional(loc: Location, context: string, oldRequired: seq<string>, newRequired: seq<string>,
                          newProps: IndexMap<string, RefOr<Schema>>, dir: Direction): (r: seq<Change>)
    ensures forall c :: c in r ==> c.location == loc && context <= c.message
  {
    if oldRequired == [] then []
    else
      var name := oldRequired[0];
      (if name !in newRequired && name in Keys(newProps) then
         [Change(if dir == Request then NonBreaking else Breaking, loc, ItemMessage(context, "property", name, "became optional"))]
       else [])
      + BecameOptional(loc, context, oldRequired[1..], newRequired, newProps, dir)
  }

  /** The properties on both sides whose schemas both resolve, compared one level deeper. */
  function DiffProperties(loc: Location, context: string, oldEntries: IndexMap<string, RefOr<Schema>>,
                          newProps: IndexMap<string, RefOr<Schema>>, dir: Direction,
                          oldComps: Option<Components>, newComps: Option<Components>, depth: nat): (r: seq<Change>)
    requires depth < MaxDepth
    ensures forall c :: c in r ==> c.location == loc && context <= c.message
    decreases MaxDepth - depth, 0, |oldEntries|
  {
    if oldEntries == [] then []
    else
      var (name, oldRef) := oldEntries[0];
      (match Get(newProps, name)
       case Some(newRef) =>
         var o := ResolveSchema(oldRef, oldComps);
         var n := ResolveSchema(newRef, newComps);
         if o.Some? && n.Some? then
           var ctx := context + "." + name;
           var s := DiffSchema(loc, ctx, o.value, n.value, dir, oldComps, newComps, depth + 1);
           PrefixOfPrefix(context, ctx, s);
           s
         else []
       case None => [])
      + DiffProperties(loc, context, oldEntries[1..], newProps, dir, oldComps, newComps, depth)
  }

  /**
   * `diff_object`: removed, then added, then became-required, then
   * became-optional, then the shared properties' own changes.
   */
  function DiffObject(loc: Location, context: string, oldObj: ObjectType, newObj: ObjectType, dir: Direction,
                      oldComps: Option<Components>, newComps: Option<Components>, depth: nat): (r: seq<Change>)
    requires depth < MaxDepth
    ensures forall c :: c in r ==> c.location == loc && context <= c.message
    decreases MaxDepth - depth, 1, 0
  {
    RemovedProperties(loc, context, Keys(oldObj.properties), newObj.properties, dir)
    + AddedProperties(loc, context, Keys(newObj.properties), oldObj.properties, newObj.required, dir)
    + BecameRequired(loc, context, newObj.required, oldObj.required, oldObj.properties, dir)
    + BecameOptional(loc, context, oldObj.required, newObj.required, newObj.properties, dir)
    + DiffProperties(loc, context, oldObj.properties, newObj.properties, dir, oldComps, newComps, depth)
  }

  // ---------------------------------------------------------------------
  // String enums
  // ---------------------------------------------------------------------

  /** The distinct non-null values of an `enum`, in order of first appearance (the hash set's contents). */
  function EnumValues(e: seq<Option<string>>): (vs: seq<string>)
    ensures forall v :: v in vs <==> Some(v) in e
    ensures forall i, j :: 0 <= i < j < |vs| ==> vs[i] != vs[j]
  {
    if e == [] then []
    else
      var vs := EnumValues(e[..|e| - 1]);
      assert e == e[..|e| - 1] + [e[|e| - 1]];
      match e[|e| - 1]
      case Some(v) => if v in vs then vs else vs + [v]
      case None => vs
  }

  /** One change of severity `sev` for each value of `values` missing from `others`. */
  function EnumValueChanges(loc: Location, context: string, values: seq<string>, others: seq<string>,
                            sev: Severity, what: string): (r: seq<Change>)
    ensures forall c :: c in r ==> c.location == loc && c.severity == sev && context <= c.message
  {
    if values == [] then []
    else
      (if values[0] in others then []
       else [Change(sev, loc, ItemMessage(context, "enum value", values[0], what))])
      + EnumValueChanges(loc, context, values[1..], others, sev, what)
  }

  /**
   * `diff_string_enum`: nothing when both lists are empty; otherwise each
   * dropped value is Breaking and each new value is Breaking in responses
   * and NonBreaking in requests. Values are compared as sets, nulls dropped.
   */
  function DiffStringEnum(loc: Location, context: string, oldS: StringType, newS: StringType, dir: Direction): (r: seq<Change>)
    ensures forall c :: c in r ==> c.location == loc && context <= c.message
  {
    if oldS.enumeration == [] && newS.enumeration == [] then []
    else
      var oldValues, newValues := EnumValues(oldS.enumeration), EnumValues(newS.enumeration);
      EnumValueChanges(loc, context, oldValues, newValues, Breaking, "removed")
      + EnumValueChanges(loc, context, newValues, oldValues, if dir == Direction.Response then Breaking else NonBreaking, "added")
  }
}
