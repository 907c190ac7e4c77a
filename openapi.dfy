/**
 * The parts of an OpenAPI 3.0 document that the comparison engine reads:
 * the Paths Object, Path Items with their eight operations, parameters,
 * request bodies, responses, media-type content and Schema Objects, each
 * possibly given by a Reference Object (`$ref`), plus the reusable
 * definitions under `components`. Maps keep their insertion order.
 */
module OpenApi {
  import opened Wrappers
  import opened IndexMaps

  /** A value given inline, or a `$ref` to be looked up elsewhere. */
  datatype RefOr<T> = Item(item: T) | Reference(reference: string)

  datatype Schema = Schema(kind: SchemaKind)

  /**
   * The kind of a schema. The composition kinds are only ever compared by
   * their name, so their member schemas are not carried.
   */
  datatype SchemaKind =
    | Type(t: SchemaType)
    | OneOf
    | AllOf
    | AnyOf
    | Not
    | Any

  datatype SchemaType =
    | String(s: StringType)
    | Number
    | Integer
    | Object(obj: ObjectType)
    | Array(arr: ArrayType)
    | Boolean

  /** A string schema's `enum`; a `null` entry is `None`. */
  datatype StringType = StringType(enumeration: seq<Option<string>>)

  datatype ObjectType = ObjectType(properties: IndexMap<string, RefOr<Schema>>, required: seq<string>)

  datatype ArrayType = ArrayType(items: Option<RefOr<Schema>>)

  datatype ParameterLocation = Query | Header | PathParam | Cookie

  /** A parameter's type is given by a schema, or by a `content` map the engine does not read. */
  datatype ParameterFormat = SchemaFormat(schema: RefOr<Schema>) | ContentFormat

  datatype Parameter = Parameter(location: ParameterLocation, name: string, required: bool, format: ParameterFormat)

  datatype MediaType = MediaType(schema: Option<RefOr<Schema>>)

  type Content = IndexMap<string, MediaType>

  datatype RequestBody = RequestBody(content: Content, required: bool)

  datatype Response = Response(content: Content)

  /** A response key: an exact status code, or a range such as `2XX` (stored as its digit). */
  datatype StatusCode = Code(code: nat) | Range(range: nat)

  datatype Operation = Operation(
    parameters: seq<RefOr<Parameter>>,
    requestBody: Option<RefOr<RequestBody>>,
    responses: IndexMap<StatusCode, RefOr<Response>>,
    deprecated: bool)

  datatype PathItem = PathItem(
    get: Option<Operation>,
    put: Option<Operation>,
    post: Option<Operation>,
    delete: Option<Operation>,
    options: Option<Operation>,
    head: Option<Operation>,
    patch: Option<Operation>,
    trace: Option<Operation>)

  datatype Components = Components(
    schemas: IndexMap<string, RefOr<Schema>>,
    parameters: IndexMap<string, RefOr<Parameter>>,
    requestBodies: IndexMap<string, RefOr<RequestBody>>,
    responses: IndexMap<string, RefOr<Response>>)

  datatype OpenAPI = OpenAPI(paths: IndexMap<string, RefOr<PathItem>>, components: Option<Components>)

  // ---------------------------------------------------------------------
  // Well-formedness: every map has distinct keys, as a parsed document's
  // `IndexMap`s do, all the way down through inline schemas.
  // ---------------------------------------------------------------------

  predicate WfSchema(s: Schema)
    decreases s
  {
    match s.kind
    case Type(Object(obj)) =>
      && DistinctKeys(obj.properties)
      && forall i :: 0 <= i < |obj.properties| ==>
          (match obj.properties[i].1
           case Item(p) => WfSchema(p)
           case Reference(_) => true)
    case Type(Array(ArrayType(Some(Item(items))))) => WfSchema(items)
    case _ => true
  }

  predicate WfSchemaRef(r: RefOr<Schema>) {
    r.Item? ==> WfSchema(r.item)
  }

  predicate WfContent(c: Content) {
    && DistinctKeys(c)
    && forall i :: 0 <= i < |c| ==> c[i].1.schema.Some? ==> WfSchemaRef(c[i].1.schema.value)
  }

  predicate WfResponseRef(r: RefOr<Response>) {
    r.Item? ==> WfContent(r.item.content)
  }

  predicate WfRequestBodyRef(r: RefOr<RequestBody>) {
    r.Item? ==> WfContent(r.item.content)
  }

  predicate WfOperation(op: Operation) {
    && DistinctKeys(op.responses)
    && (forall i :: 0 <= i < |op.responses| ==> WfResponseRef(op.responses[i].1))
    && (op.requestBody.Some? ==> WfRequestBodyRef(op.requestBody.value))
  }

  predicate WfOptOperation(op: Option<Operation>) {
    op.Some? ==> WfOperation(op.value)
  }

  predicate WfPathItem(item: PathItem) {
    && WfOptOperation(item.get) && WfOptOperation(item.put)
    && WfOptOperation(item.post) && WfOptOperation(item.delete)
    && WfOptOperation(item.options) && WfOptOperation(item.head)
    && WfOptOperation(item.patch) && WfOptOperation(item.trace)
  }

  predicate WfComponents(comps: Option<Components>) {
    comps.Some? ==>
      && (forall i :: 0 <= i < |comps.value.schemas| ==> WfSchemaRef(comps.value.schemas[i].1))
      && (forall i :: 0 <= i < |comps.value.requestBodies| ==> WfRequestBodyRef(comps.value.requestBodies[i].1))
      && (forall i :: 0 <= i < |comps.value.responses| ==> WfResponseRef(comps.value.responses[i].1))
  }

  predicate WfSpec(spec: OpenAPI) {
    && DistinctKeys(spec.paths)
    && (forall i :: 0 <= i < |spec.paths| ==> spec.paths[i].1.Item? ==> WfPathItem(spec.paths[i].1.item))
    && WfComponents(spec.components)
  }
}
