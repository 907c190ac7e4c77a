# apidiff core, modelled in Dafny

apidiff compares two OpenAPI 3.0 documents, an old one and a new one. It
reports every difference as a `Change`: a severity (`Breaking` or
`NonBreaking`), a location (an endpoint path, or a path plus an HTTP method)
and a message. This project models three parts of it as pure Dafny
functions and proves what they promise:

- **The comparison engine** (`src/diff.rs`), in `diff.dfy`. It walks both
  documents layer by layer:
  1. paths;
  2. the eight operations of a path item, in the fixed order GET, PUT, POST,
     DELETE, OPTIONS, HEAD, PATCH, TRACE;
  3. within an operation: parameters keyed by name and `in`, the request
     body, responses keyed by status code, and the deprecation flag;
  4. media-type content;
  5. a recursive schema comparator. It covers type names, object properties
     and `required`, array items and string `enum`s. `$ref` is resolved in
     one hop. Nesting is cut off at `MAX_DEPTH = 10`.

  Whether a schema edit breaks clients depends on the direction: a request
  body is read by the server, a response by the client.
- **The change model and its one-line rendering** (`src/change.rs`), in
  `change.dfy`.
- **The loader** (`src/loader.rs`), in `loader.dfy`. It covers format
  detection from the file extension, parser dispatch with JSON-then-YAML
  fallback, and tagging each error with the file's path. Reading the file
  and the two parsers are function parameters.

The other files:

- `openapi.dfy`: the parts of an OpenAPI document that the engine reads, and
  a well-formedness predicate (every map has distinct keys).
- `indexmaps.dfy`: insertion-ordered maps, as association lists.
- `wrappers.dfy`: `Option` and `Result`.
- `diff_facts.dfy`: the severity split, idempotence, and the fact that
  direction only affects severity.
- `diff_rules.dfy`: the severity tables for properties, enum values, media
  types and responses, stated as if-and-only-if rules.
- `diff_layers.dfy`: rules at the path, method, parameter, request-body and
  deprecation layers; the emission order; one-hop `$ref` resolution; the
  depth cut-off on a self-referential schema; status-code labels.
- `diff_flow.dfy`: how inner comparisons reach an operation. Request-body
  content is compared as a request and response content as a response. An
  operation and an object list their changes section by section, in a fixed
  order.

### Where the code and the specification differ

The model follows the code in each of these cases:

- A removed media type is `Breaking` whatever the direction
  (`src/diff.rs:542-549`). The specification treats a removed request media
  type as non-breaking.
- A newly added string `enum` value is `Breaking` in a response
  (`src/diff.rs:864-871`). The specification calls it non-breaking.
- Path-level changes come in document order: removed paths in old order,
  then added paths in new order, then the shared paths' changes in old
  order. They are not sorted.
- Comparing `A` with `B` can be empty while comparing `B` with `A` is not.
  Deprecation is reported only false to true, and a request body's
  required-ness only optional to required. `DiffLayers.EmptinessNotSymmetric`
  exhibits this.
- A `$ref` is followed one hop only. A reference to another reference
  resolves to nothing.

## Model

| member | source | states |
|---|---|---|
| ChangeModel.Render | src/change.rs:22-30 | a path-located change renders as `<path> - <message>`; an operation-located change renders as `<method> <path> - <message>`, method first |
| ChangeModel.RenderIgnoresSeverity | src/change.rs:22-30 | two changes that differ only in severity render identically |
| ChangeModel.LocationEquality | src/change.rs:9-13 | two operation locations are equal iff both path and method are equal; a path location never equals an operation location |
| ChangeModel.RenderedMethodComesFirst | src/change.rs:26-28 | the first word of an operation change's rendering is its HTTP method |
| ChangeModel.RenderDeterminesPath | src/change.rs:25 | for a fixed message, the rendering of a path-located change determines its path |
| Loader.ParseErrorText | src/loader.rs:11-18 | a JSON parse error displays as `invalid JSON: ` followed by the parser's text; a YAML error likewise with `invalid YAML: ` |
| Loader.LoadErrorText | src/loader.rs:28-35 | a read error displays starting `failed to read '<path>'`; a parse error displays starting `failed to parse '<path>'` and ends with the parse error's display |
| Loader.FileName | src/loader.rs:45 | the file name of a path has no `/`, is not empty, and is not `.` or `..` |
| Loader.Extension | src/loader.rs:45 | the extension is the text after the last dot; it has no dot and is shorter than the name (a leading-dot name has none) |
| Loader.DetectFormat | src/loader.rs:44-50 | JSON is chosen only for extension `json`; YAML only for `yaml` or `yml` |
| Loader.PlainFileName | src/loader.rs:45 | a name without `/` that is not `.` or `..` is its own file name |
| Loader.DirectoryIsIgnored | src/loader.rs:44-50 | the directories in front of a file name do not change the detected format |
| Loader.DetectByExtension | src/loader.rs:44-50 | on `<base>.<ext>`: `json` gives JSON, `yaml` or `yml` gives YAML, anything else gives none; the comparison is case-sensitive |
| Loader.NoExtensionNoFormat | src/loader.rs:44-50 | a file name with no dot, such as `spec`, gives no format |
| Loader.ParseContentAuto | src/loader.rs:52-73 | with a detected format, only that parser decides (result, value, tagged error); with none, loading succeeds iff either parser accepts, JSON wins when both would, and when both fail the YAML error is reported |
| Loader.DetectedFormatHasNoFallback | src/loader.rs:68-73 | with a detected format, the other format's parser does not affect the result |
| Loader.LoadFile | src/loader.rs:75-81 | a read failure is `Io(path, _)`; a parse failure is `Parse(path, e)` with the dispatcher's error; otherwise the result is the parsed document |
| Diff.OfSeverity | src/diff.rs:27-39 | the result holds exactly the changes of that severity, and is no longer than the input |
| Diff.BreakingChanges | src/diff.rs:23-32 | `breaking()` is non-empty iff `has_breaking()` |
| Diff.NonBreakingChanges | src/diff.rs:34-39 | `non_breaking()` holds exactly the NonBreaking changes |
| DiffFacts.OfSeverityAppend | src/diff.rs:27-39 | selecting by severity distributes over concatenation, so the original order is kept |
| DiffFacts.OfSeverityPartition | src/diff.rs:27-39 | the Breaking and NonBreaking selections together are a permutation of the list |
| DiffFacts.SeveritySplit | src/diff.rs:19-39 | `breaking()` and `non_breaking()` together hold every change as often as the diff does; their lengths add up to the diff's |
| Diff.DiffSpecs | src/diff.rs:56-58 | every change is at a path of the old or of the new document |
| Diff.EndpointChanges | src/diff.rs:65-87 | every change has the given severity and message and names a key missing from the other document |
| Diff.SharedPath | src/diff.rs:89-102 | a path's changes are all at its own methods, and only when the new document also has the path |
| Diff.SharedPaths | src/diff.rs:89-102 | every shared-path change is at an HTTP method of a path present in both documents |
| Diff.DiffPaths | src/diff.rs:64-105 | every change is at a path of one of the two documents |
| Diff.MethodRank | src/diff.rs:111-122 | the rank of a method is below 8 iff it is one of the eight method names, and that position holds it |
| Diff.MethodRankOfMethods | src/diff.rs:111-122 | each of the eight methods has its own position as its rank, so the names are distinct |
| Diff.Operations | src/diff.rs:111-122 | a path item has eight slots, and slot `k` is labelled with the `k`-th method |
| Diff.DiffMethod | src/diff.rs:134-155 | every change of a method slot is at that slot's location |
| Diff.DiffMethods | src/diff.rs:124-157 | the slots from `k` on yield changes at this path's methods of rank at least `k`, in non-decreasing method order |
| Diff.DiffPathItem | src/diff.rs:124-157 | a path item's changes are at its own methods, grouped in method order |
| Diff.DiffOperation | src/diff.rs:163-202 | every change of an operation is at that operation's location |
| Diff.ResolveRef | src/diff.rs:600-616 | an inline value resolves to itself; a reference resolves only when it has the prefix and the named table entry is inline |
| Diff.ParamMap | src/diff.rs:252-262 | the collected parameter map has distinct keys, and each entry is keyed by its parameter's name and location |
| Diff.DiffParameterType | src/diff.rs:327-358 | at most one change, Breaking, at the operation |
| Diff.DiffSharedParam | src/diff.rs:272-302 | every change of a shared parameter is at the operation |
| Diff.ExistingParams | src/diff.rs:264-304 | every change of the old parameters is at the operation |
| Diff.AddedParams | src/diff.rs:306-322 | every added-parameter change is at the operation |
| Diff.DiffParameters | src/diff.rs:245-325 | every parameter change is at the operation |
| Diff.DiffRequestBody | src/diff.rs:382-435 | every request-body change is at the operation and its message starts with `request body` |
| Diff.DecimalString | src/diff.rs:456-461 | a status code's decimal form is non-empty and all digits |
| Diff.StatusCodeText | src/diff.rs:456-461 | an exact code's label is all digits; a range's label ends in `XX` |
| Diff.ExistingResponses | src/diff.rs:470-501 | every change of the old responses is at the operation and starts with `response '` |
| Diff.AddedResponses | src/diff.rs:503-513 | every added-response change is NonBreaking, at the operation, and starts with `response '` |
| Diff.DiffResponses | src/diff.rs:463-516 | every response change is at the operation and starts with `response '` |
| Diff.MediaTypeChanges | src/diff.rs:540-577 | every change of one media type is at the location and starts with the content's label |
| Diff.ExistingMedia | src/diff.rs:540-577 | every change of the old media types is at the location and starts with the label |
| Diff.AddedMedia | src/diff.rs:579-589 | every added-media change is NonBreaking, at the location, and starts with the label |
| Diff.DiffContent | src/diff.rs:531-592 | every content change is at the location and starts with the label |
| Diff.DiffSchema | src/diff.rs:654-720 | nothing at depth 10 or more; when the type names differ, exactly one Breaking "type changed from X to Y"; every change is at the location and starts with the context |
| Diff.RemovedProperties | src/diff.rs:736-750 | every removed-property change is at the location and starts with the context |
| Diff.AddedProperties | src/diff.rs:752-767 | every added-property change is at the location and starts with the context |
| Diff.BecameRequired | src/diff.rs:769-783 | every became-required change is at the location and starts with the context |
| Diff.BecameOptional | src/diff.rs:785-799 | every became-optional change is at the location and starts with the context |
| Diff.DiffProperties | src/diff.rs:801-822 | every change of the shared properties is at the location and starts with the context |
| Diff.DiffObject | src/diff.rs:726-830 | every object change is at the location and starts with the context |
| Diff.EnumValues | src/diff.rs:847-850 | the enum's value set: exactly its non-null values, each once |
| Diff.EnumValueChanges | src/diff.rs:852-876 | every enum change has the section's severity, is at the location, and starts with the context |
| Diff.DiffStringEnum | src/diff.rs:836-881 | every enum change is at the location and starts with the context |
| DiffFacts.DiffSpecsSelf | src/diff.rs:56-58 | a well-formed document compared with itself gives an empty diff with nothing Breaking |
| DiffFacts.SharedPathsSelf | src/diff.rs:89-102 | the shared paths of a document compared with itself give nothing |
| DiffFacts.DiffMethodsSelf | src/diff.rs:124-157 | a path item compared with itself gives nothing |
| DiffFacts.DiffOperationSelf | src/diff.rs:163-202 | a well-formed operation compared with itself gives nothing |
| DiffFacts.DiffParametersSelf | src/diff.rs:245-325 | a parameter list compared with itself gives nothing |
| DiffFacts.ExistingParamsSelf | src/diff.rs:264-304 | parameters found unchanged in the other map give nothing |
| DiffFacts.DiffRequestBodySelf | src/diff.rs:382-435 | a request body compared with itself gives nothing |
| DiffFacts.DiffResponsesSelf | src/diff.rs:463-516 | a well-formed response map compared with itself gives nothing |
| DiffFacts.ExistingResponsesSelf | src/diff.rs:470-501 | responses found unchanged in the other map give nothing |
| DiffFacts.DiffContentSelf | src/diff.rs:531-592 | well-formed content compared with itself gives nothing |
| DiffFacts.ExistingMediaSelf | src/diff.rs:540-577 | media types found unchanged in the other map give nothing |
| DiffFacts.DiffSchemaSelf | src/diff.rs:654-720 | a well-formed schema compared with itself gives nothing, at any depth |
| DiffFacts.DiffObjectSelf | src/diff.rs:726-830 | a well-formed object compared with itself gives nothing |
| DiffFacts.DiffPropertiesSelf | src/diff.rs:801-822 | properties found unchanged in the other object give nothing |
| DiffFacts.DiffSchemaDirection | src/diff.rs:654-720 | a schema comparison in Request and in Response direction gives the same changes, places, messages and order; only severities may differ |
| DiffFacts.ObjectSchemaDirection | src/diff.rs:680-690 | the same, for two object schemas |
| DiffFacts.ArraySchemaDirection | src/diff.rs:692-713 | the same, for two array schemas |
| DiffFacts.StringSchemaDirection | src/diff.rs:715-717 | the same, for two string schemas |
| DiffFacts.OtherSchemaDirection | src/diff.rs:718 | the same, for every other pair of schema kinds |
| DiffFacts.DiffObjectDirection | src/diff.rs:726-830 | the same, for an object comparison |
| DiffFacts.DiffPropertiesDirection | src/diff.rs:801-822 | the same, for the shared properties' recursion |
| DiffFacts.RemovedPropertiesDirection | src/diff.rs:736-750 | removed properties are reported alike in both directions, up to severity |
| DiffFacts.AddedPropertiesDirection | src/diff.rs:752-767 | added properties are reported alike in both directions, up to severity |
| DiffFacts.BecameRequiredDirection | src/diff.rs:769-783 | became-required is reported alike in both directions, up to severity |
| DiffFacts.BecameOptionalDirection | src/diff.rs:785-799 | became-optional is reported alike in both directions, up to severity |
| DiffFacts.EnumValueChangesSeverity | src/diff.rs:852-876 | an enum section's changes do not depend on its severity beyond the severity field |
| DiffFacts.DiffStringEnumDirection | src/diff.rs:836-881 | enum comparisons in both directions agree up to severity |
| DiffFacts.MediaTypeDirection | src/diff.rs:540-577 | one media type's comparison in both directions agrees up to severity |
| DiffFacts.ExistingMediaDirection | src/diff.rs:540-577 | the old media types' comparisons in both directions agree up to severity |
| DiffFacts.DiffContentDirection | src/diff.rs:531-592 | request-body and response content comparisons agree up to severity |
| DiffRules.ItemMessageInjective | src/diff.rs:736-876 | a property or enum-value message names its member: equal messages mean equal names |
| DiffRules.EnumMessagesDiffer | src/diff.rs:852-876 | a removed-value message is never an added-value message |
| DiffRules.RemovedPropertyRule | src/diff.rs:736-750 | "property removed" at severity `sev` is reported iff the old object has the property and the new one does not, and `sev` is Breaking in Response and NonBreaking in Request |
| DiffRules.AddedPropertyRule | src/diff.rs:752-767 | "property added" at `sev` is reported iff only the new object has it, and `sev` is Breaking exactly in Request when the property is newly required |
| DiffRules.BecameRequiredRule | src/diff.rs:769-783 | "became required" at `sev` is reported iff the name is newly in `required` and the old object has it, and `sev` is Breaking exactly in Request |
| DiffRules.BecameOptionalRule | src/diff.rs:785-799 | "became optional" at `sev` is reported iff the name left `required` and the new object still has it, and `sev` is Breaking exactly in Response |
| DiffRules.ObjectRules | src/diff.rs:726-830 | a whole object comparison contains each of the four property changes, at its table severity, whenever its condition holds |
| DiffRules.EnumValueChangesFrom | src/diff.rs:852-876 | every enum change names a value of its own side that the other side lacks |
| DiffRules.EnumValueRule | src/diff.rs:852-876 | a value is reported iff it is on this side and not the other |
| DiffRules.EnumValueChangesCount | src/diff.rs:852-876 | a section reports one change per value missing from the other side |
| DiffRules.EnumRules | src/diff.rs:836-881 | a dropped value gives "removed" iff Breaking; a new value gives "added" iff Breaking in Response and NonBreaking in Request; the number of changes is the size of the symmetric difference of the two value sets |
| DiffRules.AddedMediaRule | src/diff.rs:579-589 | "media type added" at `sev` is reported iff the key is new, and `sev` is NonBreaking |
| DiffRules.RemovedMediaReported | src/diff.rs:542-549 | a media type missing from the new content is reported Breaking, whatever the direction |
| DiffRules.ContentRules | src/diff.rs:531-592 | a content comparison reports a vanished media type as Breaking and a new one as NonBreaking |
| DiffRules.RemovedResponseReported | src/diff.rs:470-479 | a status code missing from the new responses is reported Breaking |
| DiffRules.AddedResponseReported | src/diff.rs:503-513 | a new status code is reported NonBreaking |
| DiffRules.ResponseRules | src/diff.rs:463-516 | a response comparison reports a vanished status code as Breaking and a new one as NonBreaking |
| DiffLayers.LastParam | src/diff.rs:252-262 | the parameter a key denotes carries that key |
| DiffLayers.ParamMapLastWins | src/diff.rs:252-262 | collecting parameters into the map keeps, for each key, the last resolvable parameter with that key |
| DiffLayers.UnresolvedParamIgnored | src/diff.rs:252-262 | an unresolvable reference can be dropped from a parameter list without changing the map |
| DiffLayers.UnresolvedParamChangesNothing | src/diff.rs:245-325 | so an unresolvable old parameter reference does not change the operation's parameter changes |
| DiffLayers.UnresolvedNewParamChangesNothing | src/diff.rs:245-325 | nor does an unresolvable new parameter reference |
| DiffLayers.ExistingParamsReport | src/diff.rs:264-304 | an old parameter missing from the new map is reported removed, Breaking iff required; a shared one contributes all its shared-parameter changes |
| DiffLayers.AddedParamsReport | src/diff.rs:306-322 | a new parameter with no old counterpart is reported added, Breaking iff required |
| DiffLayers.ParameterRules | src/diff.rs:245-325 | for the parameter each key denotes: removed and added are Breaking iff required; a shared one contributes its shared-parameter changes |
| DiffLayers.SharedParamRules | src/diff.rs:272-302 | "became required" is reported, Breaking, iff optional went to required; a NonBreaking "became optional" iff required went to optional; type changes are included |
| DiffLayers.ParameterTypeRule | src/diff.rs:327-358 | when both formats are inline schemas with different type names, the Breaking "parameter 'n' type changed from X to Y" occurs exactly once among the shared parameter's changes and is its only type change; otherwise no type change is reported |
| DiffLayers.BodyPresenceRules | src/diff.rs:392-411 | an added request body is one change, Breaking iff required; a removed body is one Breaking change |
| DiffLayers.BodyTighteningAddsOneBreaking | src/diff.rs:412-433 | making a body required adds exactly one Breaking change, ahead of the content changes |
| DiffLayers.BodyRelaxingIsSilent | src/diff.rs:412-433 | making a body optional changes nothing in the result |
| DiffLayers.DeprecationRule | src/diff.rs:186-201 | an operation's changes are those without the flag, plus one trailing NonBreaking "operation deprecated" exactly when the flag goes false to true |
| DiffLayers.EmptinessNotSymmetric | src/diff.rs:186-194 | un-deprecating a GET gives an empty diff, but the reverse comparison is not empty |
| DiffLayers.MethodSlot | src/diff.rs:124-157 | the changes at one method are exactly that slot's comparison: only old gives one Breaking "operation removed", only new one NonBreaking "operation added", neither gives nothing |
| DiffLayers.EndpointChangesAt | src/diff.rs:65-87 | at path `p`, an endpoint section gives exactly one change if `p` is its own key and missing from the other document, else none |
| DiffLayers.EndpointRules | src/diff.rs:64-105 | a path only in the old document has exactly one path-level change, Breaking "endpoint removed"; only in the new, one NonBreaking "endpoint added"; in both, none |
| DiffLayers.SharedPathsOrder | src/diff.rs:89-102 | shared-path changes come in the old document's path order |
| DiffLayers.DiffSpecsOrder | src/diff.rs:64-105 | all path-level changes precede all method-level ones; removals precede additions; method-level changes follow the old path order |
| DiffLayers.EndpointChangesOrder | src/diff.rs:65-87 | an endpoint section over distinct keys lists its changes in strictly increasing key position |
| DiffLayers.EndpointOrder | src/diff.rs:64-105 | removed endpoints come in the old document's path order and added endpoints in the new document's |
| DiffFlow.ContentSchemaChanges | src/diff.rs:540-577 | a media type on both sides whose schemas resolve contributes its schema comparison, in the content's direction, under "<label> <media>" |
| DiffFlow.RequestBodyDirection | src/diff.rs:412-433 | two inline request bodies give the became-required change, if any, then their content compared in the Request direction |
| DiffFlow.RequestBodySchemaChanges | src/diff.rs:412-433 | every schema change of a media type two request bodies share is in the body comparison, rated as a request |
| DiffFlow.ExistingResponsesContains | src/diff.rs:470-501 | a status code on both sides whose responses resolve contributes its content comparison in the Response direction |
| DiffFlow.ResponseSchemaChanges | src/diff.rs:470-501 | every schema change of a media type an old and new response share is in the response comparison, rated as a response |
| DiffFlow.RequiredPropertyAddedToRequestBody | src/diff.rs:412-433 | a required property added to a request body's object schema is one Breaking "property added" |
| DiffFlow.PropertyRemovedFromResponse | src/diff.rs:470-501 | a property removed from a response's object schema is one Breaking "property removed" |
| DiffFlow.OperationOrder | src/diff.rs:196-201 | an operation lists parameter changes, then request-body changes, then response changes, then the deprecation |
| DiffFlow.ObjectOrder | src/diff.rs:824-829 | an object lists removed properties, then added, then newly required, then newly optional, then the shared properties' own changes |
| DiffLayers.SchemaReferenceRule | src/diff.rs:600-616 | `#/components/schemas/<name>` gives the inline schema stored under `name`; a missing name, missing components, a stored reference or another prefix gives nothing |
| DiffLayers.TypeChangeCount | src/diff.rs:664-677 | two schemas with different type names give one change above the cut-off and none from depth 10 on |
| DiffLayers.SelfReferenceCutOff | src/diff.rs:598-720 | on a self-referential linked-list schema whose value type changes, the comparison gives one change per level the cut-off lets through: `9 - depth` changes, and none from depth 9 on |
| DiffLayers.DecimalRoundTrip | src/diff.rs:456-461 | reading a status code's decimal label back gives the code |
| DiffLayers.CodeAndRangeDiffer | src/diff.rs:456-461 | an exact code's label never equals a range's label |
| DiffLayers.StatusCodeTextInjective | src/diff.rs:456-461 | two response keys have the same label iff they are equal |

## Left out

- `src/main.rs` is not part of this model: argument parsing, printing and the exit codes are command-line plumbing. Its one decision, exit code 1, is `has_breaking`, which `Diff.BreakingChanges` covers.
- `src/changes.rs` is not part of this model. It is not declared as a module, and it duplicates the change types without behaviour.
- `read_file` and the JSON, YAML and OpenAPI deserialisers are file I/O and foreign libraries. `Loader.LoadFile` takes them as function parameters. Their error texts are opaque strings.
- `Diff::new`, `Diff::len` and `Index for Diff` are the datatype constructor, `|d.changes|` and `d.changes[i]`.
- Diff.DiffParameters: the source builds its parameter maps as hash maps, so the order of parameter changes is unspecified. The model walks the maps in first-insertion order, and the lemmas about parameters state membership only.
- Diff.DiffStringEnum: the source collects enum values into hash sets, so the order of enum changes is unspecified. The model uses first-occurrence order, and the lemmas state membership and counts only.
- DiffRules.ObjectRules states that each property change is present; the exact if-and-only-if rules are the four per-section lemmas it combines.
- DiffRules.ContentRules, DiffRules.RemovedMediaReported, DiffRules.ResponseRules, DiffRules.RemovedResponseReported and DiffRules.AddedResponseReported state membership only, not that each change appears exactly once.
- DiffLayers.ParameterRules and DiffLayers.ExistingParamsReport state membership only, in one direction.
- DiffFlow.OperationOrder and DiffFlow.ObjectOrder tell the sections apart by the text of each message, since a change records no section of its own.
- Fields the engine never reads are not in the document model: `responses.default`, headers, `additionalProperties`, enums of non-string types, the member schemas of `oneOf`/`allOf`/`anyOf`/`not` (compared by name only), and the schema inside a `content`-style parameter.
- Status codes are unbounded naturals rather than `u16`; a range is stored as its leading digit.
- `Path::file_name` and `Path::extension` are modelled for `/`-separated paths only. Windows separators and file names that are not valid UTF-8 are not modelled.
- DiffFacts.DiffSpecsSelf and the other self-comparison lemmas assume a well-formed document: every map has distinct keys, as a parsed document's maps do.
