/**
 * Properties of the outer layers: how parameters are matched, the request
 * body and deprecation rules, the independence of the eight method slots,
 * where endpoint-level changes appear and in which order, one-hop reference
 * resolution, the depth cut-off, and the status-code labels.
 */
module DiffLayers {
  import opened Wrappers
  import opened IndexMaps
  import opened ChangeModel
  import opened OpenApi
  import opened Diff
  import opened DiffFacts

  /** The changes of `cs` at `loc`, in order. */
  function At(cs: seq<Change>, loc: Location): (r: seq<Change>)
    ensures forall c :: c in r <==> c in cs && c.location == loc
  {
    if cs == [] then []
    else (if cs[0].location == loc then [cs[0]] else []) + At(cs[1..], loc)
  }

  lemma {:induction false} AtAppend(a: seq<Change>, b: seq<Change>, loc: Location)
    ensures At(a + b, loc) == At(a, loc) + At(b, loc)
  {
    if a == [] {
      assert a + b == b;
    } else {
      assert (a + b)[1..] == a[1..] + b;
      AtAppend(a[1..], b, loc);
    }
  }

  lemma {:induction false} AtAll(cs: seq<Change>, loc: Location)
    requires forall c :: c in cs ==> c.location == loc
    ensures At(cs, loc) == cs
  {
    if cs != [] {
      AtAll(cs[1..], loc);
      assert cs == [cs[0]] + cs[1..];
    }
  }

  lemma {:induction false} AtNone(cs: seq<Change>, loc: Location)
    requires forall c :: c in cs ==> c.location != loc
    ensures At(cs, loc) == []
  {
    if cs != [] {
      AtNone(cs[1..], loc);
    }
  }

  // ---------------------------------------------------------------------
  // Parameters
  // ---------------------------------------------------------------------

  /**
   * The parameter that a key denotes in a parameter list: the last entry
   * that resolves and carries that name and location.
   */
  function LastParam(params: seq<RefOr<Parameter>>, comps: Option<Components>, key: ParamKey): (p: Option<Parameter>)
    ensures p.Some? ==> KeyOf(p.value) == key
  {
    if params == [] then None
    else
      var last := ResolveParam(params[|params| - 1], comps);
      if last.Some? && KeyOf(last.value) == key then last
      else LastParam(params[..|params| - 1], comps, key)
  }

  /** Collecting the parameters into a map keeps, for each key, the last parameter with that key. */
  lemma {:induction false} ParamMapLastWins(params: seq<RefOr<Parameter>>, comps: Option<Components>, key: ParamKey)
    ensures Get(ParamMap(params, comps), key) == LastParam(params, comps, key)
  {
    if params != [] {
      var init := params[..|params| - 1];
      ParamMapLastWins(init, comps, key);
      var last := ResolveParam(params[|params| - 1], comps);
      if last.Some? {
        PutGet(ParamMap(init, comps), KeyOf(last.value), last.value, key);
      }
    }
  }

  /** One more parameter: the map of the list without it, extended with it when it resolves. */
  lemma ParamMapStep(params: seq<RefOr<Parameter>>, comps: Option<Components>)
    requires params != []
    ensures var m := ParamMap(params[..|params| - 1], comps);
      var last := ResolveParam(params[|params| - 1], comps);
      ParamMap(params, comps) == if last.Some? then Put(m, KeyOf(last.value), last.value) else m
  {
  }

  /** A reference that does not resolve can be dropped from a parameter list without changing the map. */
  lemma {:induction false} UnresolvedParamIgnored(front: seq<RefOr<Parameter>>, r: RefOr<Parameter>, back: seq<RefOr<Parameter>>,
                                                  comps: Option<Components>)
    requires ResolveParam(r, comps).None?
    ensures ParamMap(front + [r] + back, comps) == ParamMap(front + back, comps)
  {
    var all, all' := front + [r] + back, front + back;
    if back == [] {
      assert all[..|all| - 1] == front == all';
      ParamMapStep(all, comps);
    } else {
      var init := back[..|back| - 1];
      UnresolvedParamIgnored(front, r, init, comps);
      assert all[..|all| - 1] == front + [r] + init;
      assert all'[..|all'| - 1] == front + init;
      assert all[|all| - 1] == back[|back| - 1] == all'[|all'| - 1];
      ParamMapStep(all, comps);
      ParamMapStep(all', comps);
    }
  }

  /** So an operation's parameter comparison ignores an unresolvable reference in the old list ... */
  lemma UnresolvedParamChangesNothing(loc: Location, front: seq<RefOr<Parameter>>, r: RefOr<Parameter>, back: seq<RefOr<Parameter>>,
                                      newParams: seq<RefOr<Parameter>>, oldComps: Option<Components>, newComps: Option<Components>)
    requires ResolveParam(r, oldComps).None?
    ensures DiffParameters(loc, front + [r] + back, newParams, oldComps, newComps)
         == DiffParameters(loc, front + back, newParams, oldComps, newComps)
  {
    UnresolvedParamIgnored(front, r, back, oldComps);
  }

  /** ... and one in the new list. */
  lemma UnresolvedNewParamChangesNothing(loc: Location, oldParams: seq<RefOr<Parameter>>, front: seq<RefOr<Parameter>>,
                                         r: RefOr<Parameter>, back: seq<RefOr<Parameter>>,
                                         oldComps: Option<Components>, newComps: Option<Components>)
    requires ResolveParam(r, newComps).None?
    ensures DiffParameters(loc, oldParams, front + [r] + back, oldComps, newComps)
         == DiffParameters(loc, oldParams, front + back, oldComps, newComps)
  {
    UnresolvedParamIgnored(front, r, back, newComps);
  }

  lemma {:induction false} ExistingParamsReport(loc: Location, entries: IndexMap<ParamKey, Parameter>,
                                                newMap: IndexMap<ParamKey, Parameter>, key: ParamKey, oldP: Parameter)
    requires (key, oldP) in entries
    ensures Get(newMap, key).None? ==>
      Change(if oldP.required then Breaking else NonBreaking, loc, key.location + " parameter '" + key.name + "' removed")
        in ExistingParams(loc, entries, newMap)
    ensures Get(newMap, key).Some? ==>
      forall c :: c in DiffSharedParam(loc, key, oldP, Get(newMap, key).value) ==> c in ExistingParams(loc, entries, newMap)
  {
    if entries[0] != (key, oldP) {
      ExistingParamsReport(loc, entries[1..], newMap, key, oldP);
    }
  }

  lemma {:induction false} AddedParamsReport(loc: Location, entries: IndexMap<ParamKey, Parameter>,
                                             oldMap: IndexMap<ParamKey, Parameter>, key: ParamKey, newP: Parameter)
    requires (key, newP) in entries && key !in Keys(oldMap)
    ensures Change(if newP.required then Breaking else NonBreaking, loc, key.location + " parameter '" + key.name + "' added")
              in AddedParams(loc, entries, oldMap)
  {
    if entries[0] != (key, newP) {
      AddedParamsReport(loc, entries[1..], oldMap, key, newP);
    }
  }

  /**
   * The parameter rules, for the parameter each key denotes on either side:
   * a removed or added parameter is Breaking iff it is required; becoming
   * required is Breaking; becoming optional is NonBreaking; and every type
   * change of a shared parameter is reported.
   */
  lemma ParameterRules(loc: Location, oldParams: seq<RefOr<Parameter>>, newParams: seq<RefOr<Parameter>>,
                       oldComps: Option<Components>, newComps: Option<Components>, key: ParamKey)
    ensures var o, n := LastParam(oldParams, oldComps, key), LastParam(newParams, newComps, key);
      o.Some? && n.None? ==>
        Change(if o.value.required then Breaking else NonBreaking, loc, key.location + " parameter '" + key.name + "' removed")
          in DiffParameters(loc, oldParams, newParams, oldComps, newComps)
    ensures var o, n := LastParam(oldParams, oldComps, key), LastParam(newParams, newComps, key);
      o.None? && n.Some? ==>
        Change(if n.value.required then Breaking else NonBreaking, loc, key.location + " parameter '" + key.name + "' added")
          in DiffParameters(loc, oldParams, newParams, oldComps, newComps)
    ensures var o, n := LastParam(oldParams, oldComps, key), LastParam(newParams, newComps, key);
      o.Some? && n.Some? ==>
        forall c :: c in DiffSharedParam(loc, key, o.value, n.value) ==> c in DiffParameters(loc, oldParams, newParams, oldComps, newComps)
  {
    var oldMap, newMap := ParamMap(oldParams, oldComps), ParamMap(newParams, newComps);
    var r := DiffParameters(loc, oldParams, newParams, oldComps, newComps);
    var existing, added := ExistingParams(loc, oldMap, newMap), AddedParams(loc, newMap, oldMap);
    assert r == existing + added;
    ParamMapLastWins(oldParams, oldComps, key);
    ParamMapLastWins(newParams, newComps, key);
    var o, n := Get(oldMap, key), Get(newMap, key);
    if o.Some? {
      ExistingParamsReport(loc, oldMap, newMap, key, o.value);
    } else if n.Some? {
      AddedParamsReport(loc, newMap, oldMap, key, n.value);
    }
  }

  /**
   * The rules for a parameter present on both sides: becoming required is
   * Breaking, becoming optional is NonBreaking, and a change of inline
   * schema type is one Breaking change.
   */
  lemma SharedParamRules(loc: Location, key: ParamKey, o: Parameter, n: Parameter)
    ensures !o.required && n.required <==>
      Change(Breaking, loc, "parameter '" + key.name + "' became required") in DiffSharedParam(loc, key, o, n)
    ensures o.required && !n.required <==>
      Change(NonBreaking, loc, "parameter '" + key.name + "' became optional") in DiffSharedParam(loc, key, o, n)
    ensures forall c :: c in DiffParameterType(loc, key.name, o.format, n.format) ==> c in DiffSharedParam(loc, key, o, n)
  {
    var r := DiffSharedParam(loc, key, o, n);
    var p := "parameter '" + key.name + "' ";
    var reqMsg, optMsg := "parameter '" + key.name + "' became required", "parameter '" + key.name + "' became optional";
    assert reqMsg == p + "became required" && optMsg == p + "became optional";
    var req := if !o.required && n.required then [Change(Breaking, loc, reqMsg)] else [];
    var opt := if o.required && !n.required then [Change(NonBreaking, loc, optMsg)] else [];
    var ty := DiffParameterType(loc, key.name, o.format, n.format);
    assert r == req + opt + ty;
    var k := |p|;
    assert reqMsg[k] == 'b' && optMsg[k] == 'b' && reqMsg[k + 7] == 'r' && optMsg[k + 7] == 'o';
    ParameterTypeTexts(loc, key.name, o.format, n.format);
    assert Change(Breaking, loc, reqMsg) !in opt + ty;
    assert Change(NonBreaking, loc, optMsg) !in req + ty;
  }

  lemma ParameterTypeTexts(loc: Location, name: string, o: ParameterFormat, n: ParameterFormat)
    ensures forall c :: c in DiffParameterType(loc, name, o, n) ==>
      |c.message| > |"parameter '" + name + "' "| && c.message[|"parameter '" + name + "' "|] == 't'
  {
    forall c | c in DiffParameterType(loc, name, o, n)
      ensures |c.message| > |"parameter '" + name + "' "| && c.message[|"parameter '" + name + "' "|] == 't'
    {
      ParameterTypeText(loc, name, o, n, c);
    }
  }

  /** A type-change message has `t` where a became-required or became-optional message has `b`. */
  lemma ParameterTypeText(loc: Location, name: string, o: ParameterFormat, n: ParameterFormat, c: Change)
    requires c in DiffParameterType(loc, name, o, n)
    ensures |c.message| > |"parameter '" + name + "' "| && c.message[|"parameter '" + name + "' "|] == 't'
  {
    var s := o.schema.item.kind;
    var t := n.schema.item.kind;
    assert c.message == "parameter '" + name + "' " + "type changed from " + TypeName(s) + " to " + TypeName(t);
  }

  /** The start of every parameter type-change message. */
  function TypeChangePrefix(name: string): string {
    "parameter '" + name + "' type changed from "
  }

  /** Both formats are inline schemas, with different type names. */
  predicate InlineTypesDiffer(o: ParameterFormat, n: ParameterFormat) {
    o.SchemaFormat? && o.schema.Item? && n.SchemaFormat? && n.schema.Item?
    && TypeName(o.schema.item.kind) != TypeName(n.schema.item.kind)
  }

  /**
   * The type rule for a parameter present on both sides: when both formats
   * are inline schemas whose type names differ, the Breaking type change
   * naming both types is reported exactly once and is the only type change;
   * when the names agree, or either side is a reference or content-typed,
   * no type change is reported.
   */
  lemma ParameterTypeRule(loc: Location, key: ParamKey, o: Parameter, n: Parameter)
    ensures InlineTypesDiffer(o.format, n.format) ==>
      var c := Change(Breaking, loc, TypeChangePrefix(key.name) + TypeName(o.format.schema.item.kind)
                                     + " to " + TypeName(n.format.schema.item.kind));
      && multiset(DiffSharedParam(loc, key, o, n))[c] == 1
      && forall d :: d in DiffSharedParam(loc, key, o, n) && TypeChangePrefix(key.name) <= d.message ==> d == c
    ensures !InlineTypesDiffer(o.format, n.format) ==>
      forall d :: d in DiffSharedParam(loc, key, o, n) ==> !(TypeChangePrefix(key.name) <= d.message)
  {
    var r := DiffSharedParam(loc, key, o, n);
    var p := TypeChangePrefix(key.name);
    var req := if !o.required && n.required then [Change(Breaking, loc, "parameter '" + key.name + "' became required")] else [];
    var opt := if o.required && !n.required then [Change(NonBreaking, loc, "parameter '" + key.name + "' became optional")] else [];
    var ty := DiffParameterType(loc, key.name, o.format, n.format);
    assert r == req + opt + ty;
    var k := |"parameter '" + key.name + "' "|;
    assert p[k] == 't';
    forall d: Change | d in req + opt ensures !(p <= d.message) {
      assert d.message[k] == 'b';
    }
    if InlineTypesDiffer(o.format, n.format) {
      var a, b := TypeName(o.format.schema.item.kind), TypeName(n.format.schema.item.kind);
      var c := Change(Breaking, loc, p + a + " to " + b);
      assert ty == [c];
      assert c.message[..|p|] == p;
      assert c !in req + opt;
      assert multiset(r) == multiset(req + opt) + multiset(ty);
    } else {
      assert ty == [];
    }
  }

  // ---------------------------------------------------------------------
  // Request body and deprecation
  // ---------------------------------------------------------------------

  /**
   * A request body that appears is one change, Breaking iff the new body is
   * required; one that disappears is one Breaking change.
   */
  lemma BodyPresenceRules(loc: Location, body: RequestBody, oldSpec: OpenAPI, newSpec: OpenAPI)
    ensures var added := DiffRequestBody(loc, None, Some(Item(body)), oldSpec, newSpec);
      |added| == 1 && added[0].message == BodyMessage("added") && (HasBreaking(Diff(added)) <==> body.required)
    ensures var removed := DiffRequestBody(loc, Some(Item(body)), None, oldSpec, newSpec);
      |removed| == 1 && removed[0].message == BodyMessage("removed") && HasBreaking(Diff(removed))
  {
    var added := DiffRequestBody(loc, None, Some(Item(body)), oldSpec, newSpec);
    assert added[0] in added;
    var removed := DiffRequestBody(loc, Some(Item(body)), None, oldSpec, newSpec);
    assert removed[0] in removed;
  }

  /** Making a request body required adds exactly one Breaking change, in front of the content changes. */
  lemma BodyTighteningAddsOneBreaking(loc: Location, o: RequestBody, n: RequestBody, oldSpec: OpenAPI, newSpec: OpenAPI)
    requires !o.required && n.required
    ensures DiffRequestBody(loc, Some(Item(o)), Some(Item(n)), oldSpec, newSpec)
         == [Change(Breaking, loc, BodyMessage("became required"))]
            + DiffRequestBody(loc, Some(Item(o)), Some(Item(n.(required := false))), oldSpec, newSpec)
  {
  }

  /** Making a request body optional is not reported: the result is as if both sides were required. */
  lemma BodyRelaxingIsSilent(loc: Location, o: RequestBody, n: RequestBody, oldSpec: OpenAPI, newSpec: OpenAPI)
    requires o.required && !n.required
    ensures DiffRequestBody(loc, Some(Item(o)), Some(Item(n)), oldSpec, newSpec)
         == DiffRequestBody(loc, Some(Item(o)), Some(Item(n.(required := true))), oldSpec, newSpec)
  {
  }

  /**
   * Deprecation contributes one trailing NonBreaking change exactly when
   * the flag goes from false to true, and nothing else changes; removing
   * the flag is not reported.
   */
  lemma DeprecationRule(loc: Location, o: Operation, n: Operation, oldSpec: OpenAPI, newSpec: OpenAPI)
    ensures DiffOperation(loc, o, n, oldSpec, newSpec)
         == DiffOperation(loc, o.(deprecated := false), n.(deprecated := false), oldSpec, newSpec)
            + (if !o.deprecated && n.deprecated then [Change(NonBreaking, loc, "operation deprecated")] else [])
  {
  }

  /** A path item with only a GET operation. */
  function OnlyGet(op: Operation): PathItem {
    PathItem(Some(op), None, None, None, None, None, None, None)
  }

  /** An operation with no parameters, no request body and no responses. */
  function BareOperation(deprecated: bool): Operation {
    OpenApi.Operation([], None, [], deprecated)
  }

  /** Two bare operations differ only in their deprecation flag. */
  lemma BareOperations(loc: Location, o: bool, n: bool, oldSpec: OpenAPI, newSpec: OpenAPI)
    ensures DiffOperation(loc, BareOperation(o), BareOperation(n), oldSpec, newSpec)
         == if !o && n then [Change(NonBreaking, loc, "operation deprecated")] else []
  {
    assert ParamMap([], oldSpec.components) == [] && ParamMap([], newSpec.components) == [];
    assert DiffParameters(loc, [], [], oldSpec.components, newSpec.components) == [];
    assert DiffRequestBody(loc, None, None, oldSpec, newSpec) == [];
    assert DiffResponses(loc, [], [], oldSpec, newSpec) == [];
  }

  /** A path item with only GET on both sides compares as its GET slot. */
  lemma OnlyGetItems(path: string, o: Operation, n: Operation, oldSpec: OpenAPI, newSpec: OpenAPI)
    ensures DiffPathItem(path, OnlyGet(o), OnlyGet(n), oldSpec, newSpec)
         == DiffOperation(Location.Operation(path, "GET"), o, n, oldSpec, newSpec)
  {
    OperationsAbsentFrom(1, path, OnlyGet(o), OnlyGet(n), oldSpec, newSpec);
  }

  /** Two documents with the same single path compare as that path's items. */
  lemma SinglePath(path: string, x: PathItem, y: PathItem)
    ensures var a, b := OpenAPI([(path, Item(x))], None), OpenAPI([(path, Item(y))], None);
      DiffSpecs(a, b).changes == DiffPathItem(path, x, y, a, b)
  {
    var a, b := OpenAPI([(path, Item(x))], None), OpenAPI([(path, Item(y))], None);
    DiffSpecsParts(a, b);
    assert Keys(a.paths) == [path] == Keys(b.paths);
    assert EndpointChanges([path], b.paths, Breaking, "endpoint removed") == [];
    assert EndpointChanges([path], a.paths, NonBreaking, "endpoint added") == [];
    assert Get(b.paths, path) == Some(Item(y));
    assert SharedPaths(a.paths, a, b) == SharedPath(path, Item(x), a, b) + SharedPaths([], a, b);
  }

  /** Comparing `a` with `b` finds nothing, but comparing `b` with `a` does. */
  predicate OneWayEmpty(a: OpenAPI, b: OpenAPI) {
    IsEmpty(DiffSpecs(a, b)) && !IsEmpty(DiffSpecs(b, a))
  }

  /** A document with one path whose only operation is a bare GET, deprecated or not. */
  function GetOnlyDocument(path: string, deprecated: bool): OpenAPI {
    OpenAPI([(path, Item(OnlyGet(BareOperation(deprecated))))], None)
  }

  /** An empty diff in one direction says nothing about the other: un-deprecating is silent, deprecating is not. */
  lemma EmptinessNotSymmetric(path: string)
    ensures OneWayEmpty(GetOnlyDocument(path, true), GetOnlyDocument(path, false))
  {
    var loc := Location.Operation(path, "GET");
    var x, y := OnlyGet(BareOperation(true)), OnlyGet(BareOperation(false));
    var a, b := GetOnlyDocument(path, true), GetOnlyDocument(path, false);
    SinglePath(path, x, y);
    SinglePath(path, y, x);
    OnlyGetItems(path, BareOperation(true), BareOperation(false), a, b);
    OnlyGetItems(path, BareOperation(false), BareOperation(true), b, a);
    BareOperations(loc, true, false, a, b);
    BareOperations(loc, false, true, b, a);
  }

  /** Method slots that are empty on both sides contribute nothing. */
  lemma {:induction false} OperationsAbsentFrom(k: nat, path: string, oldItem: PathItem, newItem: PathItem, oldSpec: OpenAPI, newSpec: OpenAPI)
    requires k <= |Methods|
    requires forall j :: k <= j < |Methods| ==> Operations(oldItem)[j].1.None? && Operations(newItem)[j].1.None?
    ensures DiffMethods(path, oldItem, newItem, k, oldSpec, newSpec) == []
    decreases |Methods| - k
  {
    if k < |Methods| {
      OperationsAbsentFrom(k + 1, path, oldItem, newItem, oldSpec, newSpec);
    }
  }

  // ---------------------------------------------------------------------
  // Method slots
  // ---------------------------------------------------------------------

  lemma MethodsDistinct(a: nat, b: nat)
    requires a < |Methods| && b < |Methods| && a != b
    ensures Methods[a] != Methods[b]
  {
    MethodRankOfMethods(a);
    MethodRankOfMethods(b);
  }

  /** Selecting one location from a block of changes that all share a location. */
  lemma AtBlock(here: seq<Change>, rest: seq<Change>, hereLoc: Location, loc: Location)
    requires forall c :: c in here ==> c.location == hereLoc
    ensures At(here + rest, loc) == (if hereLoc == loc then here else []) + At(rest, loc)
  {
    AtAppend(here, rest, loc);
    if hereLoc == loc {
      AtAll(here, loc);
    } else {
      AtNone(here, loc);
    }
  }

  /** The slots from `j` on say nothing about an earlier method. */
  lemma MethodSlotsAfter(path: string, oldItem: PathItem, newItem: PathItem, j: nat, k: nat,
                         oldSpec: OpenAPI, newSpec: OpenAPI)
    requires k < j <= |Methods|
    ensures At(DiffMethods(path, oldItem, newItem, j, oldSpec, newSpec), Location.Operation(path, Methods[k])) == []
  {
    MethodRankOfMethods(k);
    AtNone(DiffMethods(path, oldItem, newItem, j, oldSpec, newSpec), Location.Operation(path, Methods[k]));
  }

  /** The slots from `k` on, seen at method `k`, are slot `k`'s own comparison. */
  lemma MethodSlotHere(path: string, oldItem: PathItem, newItem: PathItem, k: nat, oldSpec: OpenAPI, newSpec: OpenAPI)
    requires k < |Methods|
    ensures At(DiffMethods(path, oldItem, newItem, k, oldSpec, newSpec), Location.Operation(path, Methods[k]))
         == DiffMethod(Location.Operation(path, Methods[k]), Operations(oldItem)[k].1, Operations(newItem)[k].1, oldSpec, newSpec)
  {
    var loc := Location.Operation(path, Methods[k]);
    var here := DiffMethod(loc, Operations(oldItem)[k].1, Operations(newItem)[k].1, oldSpec, newSpec);
    DiffMethodsStep(path, oldItem, newItem, k, oldSpec, newSpec);
    AtBlock(here, DiffMethods(path, oldItem, newItem, k + 1, oldSpec, newSpec), loc, loc);
    MethodSlotsAfter(path, oldItem, newItem, k + 1, k, oldSpec, newSpec);
  }

  /** Slot `j` says nothing about another method `k`. */
  lemma MethodSlotSkip(path: string, oldItem: PathItem, newItem: PathItem, j: nat, k: nat, oldSpec: OpenAPI, newSpec: OpenAPI)
    requires j < k < |Methods|
    ensures At(DiffMethods(path, oldItem, newItem, j, oldSpec, newSpec), Location.Operation(path, Methods[k]))
         == At(DiffMethods(path, oldItem, newItem, j + 1, oldSpec, newSpec), Location.Operation(path, Methods[k]))
  {
    var here := DiffMethod(Location.Operation(path, Methods[j]), Operations(oldItem)[j].1, Operations(newItem)[j].1, oldSpec, newSpec);
    DiffMethodsStep(path, oldItem, newItem, j, oldSpec, newSpec);
    MethodsDistinct(j, k);
    AtBlock(here, DiffMethods(path, oldItem, newItem, j + 1, oldSpec, newSpec),
            Location.Operation(path, Methods[j]), Location.Operation(path, Methods[k]));
  }

  lemma {:induction false} MethodSlotFrom(path: string, oldItem: PathItem, newItem: PathItem, j: nat, k: nat,
                                          oldSpec: OpenAPI, newSpec: OpenAPI)
    requires j <= k < |Methods|
    ensures At(DiffMethods(path, oldItem, newItem, j, oldSpec, newSpec), Location.Operation(path, Methods[k]))
         == At(DiffMethods(path, oldItem, newItem, k, oldSpec, newSpec), Location.Operation(path, Methods[k]))
    decreases k - j
  {
    if j < k {
      MethodSlotSkip(path, oldItem, newItem, j, k, oldSpec, newSpec);
      MethodSlotFrom(path, oldItem, newItem, j + 1, k, oldSpec, newSpec);
    }
  }

  /**
   * The eight method slots are compared independently: the changes a path
   * item reports at one method are exactly that slot's own comparison, so
   * an operation present only in the old item yields exactly one Breaking
   * "operation removed", and one present only in the new item exactly one
   * NonBreaking "operation added".
   */
  lemma MethodSlot(path: string, oldItem: PathItem, newItem: PathItem, k: nat, oldSpec: OpenAPI, newSpec: OpenAPI)
    requires k < |Methods|
    ensures var loc := Location.Operation(path, Methods[k]);
      var oldOp, newOp := Operations(oldItem)[k].1, Operations(newItem)[k].1;
      var r := At(DiffPathItem(path, oldItem, newItem, oldSpec, newSpec), loc);
      && r == DiffMethod(loc, oldOp, newOp, oldSpec, newSpec)
      && (oldOp.Some? && newOp.None? ==> r == [Change(Breaking, loc, "operation removed")])
      && (oldOp.None? && newOp.Some? ==> r == [Change(NonBreaking, loc, "operation added")])
      && (oldOp.None? && newOp.None? ==> r == [])
  {
    MethodSlotFrom(path, oldItem, newItem, 0, k, oldSpec, newSpec);
    MethodSlotHere(path, oldItem, newItem, k, oldSpec, newSpec);
  }

  // ---------------------------------------------------------------------
  // Paths
  // ---------------------------------------------------------------------

  /** A sequence without repeats: its head is not in its tail, and its tail has no repeats. */
  lemma DistinctSeqTail(keys: seq<string>)
    requires keys != [] && forall i, j :: 0 <= i < j < |keys| ==> keys[i] != keys[j]
    ensures keys[0] !in keys[1..]
    ensures forall i, j :: 0 <= i < j < |keys[1..]| ==> keys[1..][i] != keys[1..][j]
  {
    forall j | 0 <= j < |keys| - 1 ensures keys[1..][j] != keys[0] {
      assert keys[1..][j] == keys[j + 1];
    }
  }

  lemma {:induction false} EndpointChangesAt<V>(keys: seq<string>, other: IndexMap<string, V>, sev: Severity, message: string, p: string)
    requires forall i, j :: 0 <= i < j < |keys| ==> keys[i] != keys[j]
    ensures At(EndpointChanges(keys, other, sev, message), Path(p))
         == if p in keys && p !in Keys(other) then [Change(sev, Path(p), message)] else []
  {
    if keys != [] {
      var head := if keys[0] in Keys(other) then [] else [Change(sev, Path(keys[0]), message)];
      var tail := EndpointChanges(keys[1..], other, sev, message);
      assert EndpointChanges(keys, other, sev, message) == head + tail;
      DistinctSeqTail(keys);
      EndpointChangesAt(keys[1..], other, sev, message, p);
      AtBlock(head, tail, Path(keys[0]), Path(p));
      assert p in keys <==> p == keys[0] || p in keys[1..];
    }
  }

  lemma DistinctKeysOfMap<V>(m: IndexMap<string, V>)
    requires DistinctKeys(m)
    ensures forall i, j :: 0 <= i < j < |Keys(m)| ==> Keys(m)[i] != Keys(m)[j]
  {
  }

  /** A whole comparison is the removed endpoints, then the added ones, then the shared paths' changes. */
  lemma DiffSpecsParts(oldSpec: OpenAPI, newSpec: OpenAPI)
    ensures DiffSpecs(oldSpec, newSpec).changes
         == EndpointChanges(Keys(oldSpec.paths), newSpec.paths, Breaking, "endpoint removed")
            + EndpointChanges(Keys(newSpec.paths), oldSpec.paths, NonBreaking, "endpoint added")
            + SharedPaths(oldSpec.paths, oldSpec, newSpec)
  {
  }

  lemma AtOfParts(a: seq<Change>, b: seq<Change>, c: seq<Change>, loc: Location)
    requires forall x :: x in c ==> x.location != loc
    ensures At(a + b + c, loc) == At(a, loc) + At(b, loc)
  {
    AtAppend(a + b, c, loc);
    AtAppend(a, b, loc);
    AtNone(c, loc);
  }

  /**
   * The endpoint-level rules: a path only in the old document has exactly
   * one change at its path, a Breaking "endpoint removed"; a path only in
   * the new document exactly one NonBreaking "endpoint added"; a path in
   * both has no path-level change (its changes are all at its methods).
   */
  lemma EndpointRules(oldSpec: OpenAPI, newSpec: OpenAPI, p: string)
    requires DistinctKeys(oldSpec.paths) && DistinctKeys(newSpec.paths)
    ensures var r := At(DiffSpecs(oldSpec, newSpec).changes, Path(p));
      && (p in Keys(oldSpec.paths) && p !in Keys(newSpec.paths) ==> r == [Change(Breaking, Path(p), "endpoint removed")])
      && (p !in Keys(oldSpec.paths) && p in Keys(newSpec.paths) ==> r == [Change(NonBreaking, Path(p), "endpoint added")])
      && (p in Keys(oldSpec.paths) && p in Keys(newSpec.paths) ==> r == [])
  {
    DiffSpecsParts(oldSpec, newSpec);
    DistinctKeysOfMap(oldSpec.paths);
    DistinctKeysOfMap(newSpec.paths);
    EndpointChangesAt(Keys(oldSpec.paths), newSpec.paths, Breaking, "endpoint removed", p);
    EndpointChangesAt(Keys(newSpec.paths), oldSpec.paths, NonBreaking, "endpoint added", p);
    AtOfParts(EndpointChanges(Keys(oldSpec.paths), newSpec.paths, Breaking, "endpoint removed"),
              EndpointChanges(Keys(newSpec.paths), oldSpec.paths, NonBreaking, "endpoint added"),
              SharedPaths(oldSpec.paths, oldSpec, newSpec), Path(p));
  }

  /** The position of the first occurrence of `p` in `keys` (`|keys|` when absent). */
  function KeyRank(keys: seq<string>, p: string): (i: nat)
    ensures i <= |keys| && (i < |keys| <==> p in keys)
    ensures i < |keys| ==> keys[i] == p && p !in keys[..i]
  {
    if keys == [] then 0
    else if keys[0] == p then 0
    else 1 + KeyRank(keys[1..], p)
  }

  /** Changes listed in the order of their paths' positions in `keys`. */
  predicate KeyOrdered(keys: seq<string>, r: seq<Change>)
  {
    forall i, j :: 0 <= i < j < |r| ==> KeyRank(keys, r[i].location.path) <= KeyRank(keys, r[j].location.path)
  }

  /** Putting a block of changes at the first key in front of changes at later keys keeps them ordered by key. */
  lemma KeyOrderStep(here: seq<Change>, rest: seq<Change>, p: string, keys: seq<string>)
    requires forall c :: c in here ==> c.location.path == p
    requires forall c :: c in rest ==> c.location.path in keys
    requires p !in keys
    requires KeyOrdered(keys, rest)
    ensures KeyOrdered([p] + keys, here + rest)
  {
    var r := here + rest;
    assert ([p] + keys)[1..] == keys;
    forall i, j | 0 <= i < j < |r|
      ensures KeyRank([p] + keys, r[i].location.path) <= KeyRank([p] + keys, r[j].location.path)
    {
      if i < |here| {
        assert r[i] in here;
      } else {
        assert r[i] == rest[i - |here|] && r[j] == rest[j - |here|];
        assert r[i] in rest && r[j] in rest;
      }
    }
  }

  /** Removing the first entry of a map with distinct keys. */
  lemma DistinctTail<V>(m: IndexMap<string, V>)
    requires DistinctKeys(m) && m != []
    ensures DistinctKeys(m[1..])
    ensures m[0].0 !in Keys(m[1..])
    ensures Keys(m) == [m[0].0] + Keys(m[1..])
  {
    var tail := m[1..];
    forall i | 0 <= i < |tail| ensures Keys(tail)[i] != m[0].0 {
      assert tail[i] == m[i + 1];
    }
    forall i, j | 0 <= i < j < |tail| ensures tail[i].0 != tail[j].0 {
      assert tail[i] == m[i + 1] && tail[j] == m[j + 1];
    }
  }

  lemma {:induction false} SharedPathsOrder(oldPaths: IndexMap<string, RefOr<PathItem>>, oldSpec: OpenAPI, newSpec: OpenAPI)
    requires DistinctKeys(oldPaths)
    ensures KeyOrdered(Keys(oldPaths), SharedPaths(oldPaths, oldSpec, newSpec))
  {
    if oldPaths != [] {
      var path, tail := oldPaths[0].0, oldPaths[1..];
      var here := SharedPath(path, oldPaths[0].1, oldSpec, newSpec);
      var rest := SharedPaths(tail, oldSpec, newSpec);
      assert SharedPaths(oldPaths, oldSpec, newSpec) == here + rest;
      DistinctTail(oldPaths);
      SharedPathsOrder(tail, oldSpec, newSpec);
      KeyOrderStep(here, rest, path, Keys(tail));
    }
  }

  /** The order facts of a comparison, over its three parts. */
  lemma PartsOrder(removed: seq<Change>, added: seq<Change>, shared: seq<Change>, keys: seq<string>)
    requires forall c :: c in removed ==> c.location.Path? && c.severity == Breaking
    requires forall c :: c in added ==> c.location.Path? && c.severity == NonBreaking
    requires forall c :: c in shared ==> c.location.Operation?
    requires forall i, j :: 0 <= i < j < |shared| ==>
      KeyRank(keys, shared[i].location.path) <= KeyRank(keys, shared[j].location.path)
    ensures var r := removed + added + shared;
      && (forall i, j :: 0 <= i < j < |r| && r[j].location.Path? ==> r[i].location.Path?)
      && (forall i, j :: 0 <= i < j < |r| && r[i].location.Path? && r[j].location.Path? && r[j].severity == Breaking ==>
            r[i].severity == Breaking)
      && (forall i, j :: 0 <= i < j < |r| && r[i].location.Operation? ==>
            KeyRank(keys, r[i].location.path) <= KeyRank(keys, r[j].location.path))
  {
    var r := removed + added + shared;
    forall i | 0 <= i < |r|
      ensures i < |removed| ==> r[i].location.Path? && r[i].severity == Breaking
      ensures |removed| <= i < |removed| + |added| ==> r[i].location.Path? && r[i].severity == NonBreaking
      ensures |removed| + |added| <= i ==> r[i].location.Operation? && r[i] == shared[i - |removed| - |added|]
    {
      if i < |removed| {
        assert r[i] in removed;
      } else if i < |removed| + |added| {
        assert r[i] == added[i - |removed|];
        assert r[i] in added;
      } else {
        assert r[i] == shared[i - |removed| - |added|];
        assert r[i] in shared;
      }
    }
  }

  /**
   * The emission order of a whole comparison: all path-level changes come
   * before any method-level change; among path-level changes every removal
   * comes before any addition; and method-level changes follow the old
   * document's path order.
   */
  lemma DiffSpecsOrder(oldSpec: OpenAPI, newSpec: OpenAPI)
    requires DistinctKeys(oldSpec.paths)
    ensures var r := DiffSpecs(oldSpec, newSpec).changes;
      && (forall i, j :: 0 <= i < j < |r| && r[j].location.Path? ==> r[i].location.Path?)
      && (forall i, j :: 0 <= i < j < |r| && r[i].location.Path? && r[j].location.Path? && r[j].severity == Breaking ==>
            r[i].severity == Breaking)
      && (forall i, j :: 0 <= i < j < |r| && r[i].location.Operation? ==>
            KeyRank(Keys(oldSpec.paths), r[i].location.path) <= KeyRank(Keys(oldSpec.paths), r[j].location.path))
  {
    DiffSpecsParts(oldSpec, newSpec);
    SharedPathsOrder(oldSpec.paths, oldSpec, newSpec);
    PartsOrder(EndpointChanges(Keys(oldSpec.paths), newSpec.paths, Breaking, "endpoint removed"),
               EndpointChanges(Keys(newSpec.paths), oldSpec.paths, NonBreaking, "endpoint added"),
               SharedPaths(oldSpec.paths, oldSpec, newSpec), Keys(oldSpec.paths));
  }

  /** Changes listed in strictly increasing position of their paths in `keys`. */
  predicate StrictlyKeyOrdered(keys: seq<string>, r: seq<Change>)
  {
    forall i, j :: 0 <= i < j < |r| ==> KeyRank(keys, r[i].location.path) < KeyRank(keys, r[j].location.path)
  }

  /** At most one change at the first key in front of changes at later keys, strictly ordered, stays strictly ordered. */
  lemma StrictKeyOrderStep(head: seq<Change>, rest: seq<Change>, p: string, keys: seq<string>)
    requires |head| <= 1 && forall c :: c in head ==> c.location.path == p
    requires forall c :: c in rest ==> c.location.path in keys
    requires p !in keys
    requires StrictlyKeyOrdered(keys, rest)
    ensures StrictlyKeyOrdered([p] + keys, head + rest)
  {
    var r := head + rest;
    assert ([p] + keys)[1..] == keys;
    forall i, j | 0 <= i < j < |r|
      ensures KeyRank([p] + keys, r[i].location.path) < KeyRank([p] + keys, r[j].location.path)
    {
      assert r[j] == rest[j - |head|] && r[j] in rest;
      if i < |head| {
        assert r[i] in head;
      } else {
        assert r[i] == rest[i - |head|] && r[i] in rest;
      }
    }
  }

  /** Endpoint changes over distinct keys follow the keys' order strictly. */
  lemma {:induction false} EndpointChangesOrder<V>(keys: seq<string>, other: IndexMap<string, V>, sev: Severity, message: string)
    requires forall i, j :: 0 <= i < j < |keys| ==> keys[i] != keys[j]
    ensures StrictlyKeyOrdered(keys, EndpointChanges(keys, other, sev, message))
  {
    if keys != [] {
      var head := if keys[0] in Keys(other) then [] else [Change(sev, Path(keys[0]), message)];
      var rest := EndpointChanges(keys[1..], other, sev, message);
      assert EndpointChanges(keys, other, sev, message) == head + rest;
      DistinctSeqTail(keys);
      EndpointChangesOrder(keys[1..], other, sev, message);
      StrictKeyOrderStep(head, rest, keys[0], keys[1..]);
      assert [keys[0]] + keys[1..] == keys;
    }
  }

  /** The path-level order facts of a comparison, over its three parts. */
  lemma EndpointPartsOrder(removed: seq<Change>, added: seq<Change>, shared: seq<Change>, oldKeys: seq<string>, newKeys: seq<string>)
    requires forall c :: c in removed ==> c.location.Path? && c.severity == Breaking
    requires forall c :: c in added ==> c.location.Path? && c.severity == NonBreaking
    requires forall c :: c in shared ==> c.location.Operation?
    requires StrictlyKeyOrdered(oldKeys, removed) && StrictlyKeyOrdered(newKeys, added)
    ensures var r := removed + added + shared;
      && (forall i, j :: 0 <= i < j < |r| && r[i].location.Path? && r[j].location.Path? && r[j].severity == Breaking ==>
            KeyRank(oldKeys, r[i].location.path) < KeyRank(oldKeys, r[j].location.path))
      && (forall i, j :: 0 <= i < j < |r| && r[i].location.Path? && r[j].location.Path? && r[i].severity == NonBreaking ==>
            KeyRank(newKeys, r[i].location.path) < KeyRank(newKeys, r[j].location.path))
  {
    var r := removed + added + shared;
    forall i | 0 <= i < |r|
      ensures i < |removed| ==> r[i] == removed[i] && r[i].severity == Breaking
      ensures |removed| <= i < |removed| + |added| ==> r[i] == added[i - |removed|] && r[i].severity == NonBreaking
      ensures |removed| + |added| <= i ==> r[i].location.Operation?
    {
      if i < |removed| {
        assert r[i] in removed;
      } else if i < |removed| + |added| {
        assert r[i] == added[i - |removed|];
        assert r[i] in added;
      } else {
        assert r[i] == shared[i - |removed| - |added|];
        assert r[i] in shared;
      }
    }
  }

  /**
   * The path-level part of a comparison: removed endpoints follow the old
   * document's path order and added endpoints the new document's.
   */
  lemma EndpointOrder(oldSpec: OpenAPI, newSpec: OpenAPI)
    requires DistinctKeys(oldSpec.paths) && DistinctKeys(newSpec.paths)
    ensures var r := DiffSpecs(oldSpec, newSpec).changes;
      && (forall i, j :: 0 <= i < j < |r| && r[i].location.Path? && r[j].location.Path? && r[j].severity == Breaking ==>
            KeyRank(Keys(oldSpec.paths), r[i].location.path) < KeyRank(Keys(oldSpec.paths), r[j].location.path))
      && (forall i, j :: 0 <= i < j < |r| && r[i].location.Path? && r[j].location.Path? && r[i].severity == NonBreaking ==>
            KeyRank(Keys(newSpec.paths), r[i].location.path) < KeyRank(Keys(newSpec.paths), r[j].location.path))
  {
    DiffSpecsParts(oldSpec, newSpec);
    DistinctKeysOfMap(oldSpec.paths);
    DistinctKeysOfMap(newSpec.paths);
    EndpointChangesOrder(Keys(oldSpec.paths), newSpec.paths, Breaking, "endpoint removed");
    EndpointChangesOrder(Keys(newSpec.paths), oldSpec.paths, NonBreaking, "endpoint added");
    EndpointPartsOrder(EndpointChanges(Keys(oldSpec.paths), newSpec.paths, Breaking, "endpoint removed"),
                       EndpointChanges(Keys(newSpec.paths), oldSpec.paths, NonBreaking, "endpoint added"),
                       SharedPaths(oldSpec.paths, oldSpec, newSpec), Keys(oldSpec.paths), Keys(newSpec.paths));
  }

  // ---------------------------------------------------------------------
  // References
  // ---------------------------------------------------------------------

  /**
   * A schema reference resolves in one hop: `#/components/schemas/<name>`
   * gives the inline schema stored under `name`; a stored reference, a
   * missing name, a missing `components` or any other prefix gives nothing.
   */
  lemma SchemaReferenceRule(name: string, comps: Option<Components>, other: string)
    requires !(SchemaPrefix <= other)
    ensures var r := ResolveSchema(Reference(SchemaPrefix + name), comps);
      && (comps.None? ==> r.None?)
      && (comps.Some? ==>
            r == (if Get(comps.value.schemas, name).Some? && Get(comps.value.schemas, name).value.Item?
                  then Some(Get(comps.value.schemas, name).value.item) else None))
    ensures ResolveSchema(Reference(other), comps).None?
  {
    assert (SchemaPrefix + name)[|SchemaPrefix|..] == name;
  }

  // ---------------------------------------------------------------------
  // The depth cut-off
  // ---------------------------------------------------------------------

  /** `Node`: an object with a `next` property referring back to `Node`, and a `value` of the given type. */
  function Node(value: SchemaType): Schema {
    Schema(Type(Object(ObjectType([("next", Reference(SchemaPrefix + "Node")), ("value", Item(Schema(Type(value))))], []))))
  }

  function NodeComponents(value: SchemaType): Option<Components> {
    Some(Components([("Node", Item(Node(value)))], [], [], []))
  }

  /** One step of the shared-property walk, when both sides of the first property resolve. */
  lemma PropertyStep(loc: Location, context: string, entries: IndexMap<string, RefOr<Schema>>,
                     newProps: IndexMap<string, RefOr<Schema>>, dir: Direction,
                     oldComps: Option<Components>, newComps: Option<Components>, depth: nat,
                     newRef: RefOr<Schema>, o: Schema, n: Schema)
    requires depth < MaxDepth && entries != []
    requires Get(newProps, entries[0].0) == Some(newRef)
    requires ResolveSchema(entries[0].1, oldComps) == Some(o) && ResolveSchema(newRef, newComps) == Some(n)
    ensures DiffProperties(loc, context, entries, newProps, dir, oldComps, newComps, depth)
         == DiffSchema(loc, context + "." + entries[0].0, o, n, dir, oldComps, newComps, depth + 1)
            + DiffProperties(loc, context, entries[1..], newProps, dir, oldComps, newComps, depth)
  {
  }

  /** Two objects with the same property names and the same required list compare as their properties. */
  lemma SameShapeObjects(loc: Location, context: string, o: ObjectType, n: ObjectType, dir: Direction,
                         oldComps: Option<Components>, newComps: Option<Components>, depth: nat)
    requires depth < MaxDepth
    requires Keys(o.properties) == Keys(n.properties) && o.required == n.required
    ensures DiffObject(loc, context, o, n, dir, oldComps, newComps, depth)
         == DiffProperties(loc, context, o.properties, n.properties, dir, oldComps, newComps, depth)
  {
    RemovedPropertiesNoneMissing(loc, context, Keys(o.properties), n.properties, dir);
    AddedPropertiesNoneMissing(loc, context, Keys(n.properties), o.properties, n.required, dir);
    BecameRequiredNoneNew(loc, context, n.required, o.required, o.properties, dir);
    BecameOptionalNoneDropped(loc, context, o.required, n.required, n.properties, dir);
  }

  /** Comparing two `Node` schemas is comparing their properties. */
  lemma NodeIsItsProperties(loc: Location, context: string, dir: Direction, oldV: SchemaType, newV: SchemaType, depth: nat)
    requires depth < MaxDepth
    ensures DiffSchema(loc, context, Node(oldV), Node(newV), dir, NodeComponents(oldV), NodeComponents(newV), depth)
         == DiffProperties(loc, context, Node(oldV).kind.t.obj.properties, Node(newV).kind.t.obj.properties, dir,
                           NodeComponents(oldV), NodeComponents(newV), depth)
  {
    var o, n := Node(oldV).kind.t.obj, Node(newV).kind.t.obj;
    assert Keys(o.properties) == ["next", "value"] == Keys(n.properties);
    ObjectSchemas(loc, context, Node(oldV), Node(newV), o, n, dir, NodeComponents(oldV), NodeComponents(newV), depth);
    SameShapeObjects(loc, context, o, n, dir, NodeComponents(oldV), NodeComponents(newV), depth);
  }

  /** A `Node`'s `next` property resolves to the `Node` schema itself. */
  lemma NodeResolves(v: SchemaType)
    ensures ResolveSchema(Reference(SchemaPrefix + "Node"), NodeComponents(v)) == Some(Node(v))
  {
    assert (SchemaPrefix + "Node")[|SchemaPrefix|..] == "Node";
  }

  /** One level of the list: the `next` comparison one level down, then the `value` comparison. */
  lemma NodeLevel(loc: Location, context: string, dir: Direction, oldV: SchemaType, newV: SchemaType, depth: nat)
    requires depth < MaxDepth
    ensures DiffSchema(loc, context, Node(oldV), Node(newV), dir, NodeComponents(oldV), NodeComponents(newV), depth)
         == DiffSchema(loc, context + "." + "next", Node(oldV), Node(newV), dir, NodeComponents(oldV), NodeComponents(newV), depth + 1)
            + DiffSchema(loc, context + "." + "value", Schema(Type(oldV)), Schema(Type(newV)), dir,
                         NodeComponents(oldV), NodeComponents(newV), depth + 1)
  {
    var oldC, newC := NodeComponents(oldV), NodeComponents(newV);
    var o, n := Node(oldV).kind.t.obj.properties, Node(newV).kind.t.obj.properties;
    var deeper := DiffSchema(loc, context + "." + "next", Node(oldV), Node(newV), dir, oldC, newC, depth + 1);
    var valueChange := DiffSchema(loc, context + "." + "value", Schema(Type(oldV)), Schema(Type(newV)), dir, oldC, newC, depth + 1);
    assert DiffProperties(loc, context, o, n, dir, oldC, newC, depth)
        == deeper + DiffProperties(loc, context, o[1..], n, dir, oldC, newC, depth) by {
      NodeResolves(oldV);
      NodeResolves(newV);
      assert o[0] == ("next", Reference(SchemaPrefix + "Node"));
      assert Get(n, "next") == Some(Reference(SchemaPrefix + "Node"));
      PropertyStep(loc, context, o, n, dir, oldC, newC, depth, Reference(SchemaPrefix + "Node"), Node(oldV), Node(newV));
    }
    assert DiffProperties(loc, context, o[1..], n, dir, oldC, newC, depth) == valueChange by {
      assert o[1..][0] == ("value", Item(Schema(Type(oldV))));
      assert Get(n, "value") == Some(Item(Schema(Type(newV))));
      PropertyStep(loc, context, o[1..], n, dir, oldC, newC, depth, Item(Schema(Type(newV))), Schema(Type(oldV)), Schema(Type(newV)));
      assert o[1..][1..] == [];
      assert DiffProperties(loc, context, o[1..][1..], n, dir, oldC, newC, depth) == [];
    }
    NodeIsItsProperties(loc, context, dir, oldV, newV, depth);
  }

  /** Two schemas of different types compare to exactly one change, above the cut-off. */
  lemma TypeChangeCount(loc: Location, context: string, oldV: SchemaType, newV: SchemaType, dir: Direction,
                        oldComps: Option<Components>, newComps: Option<Components>, depth: nat)
    requires TypeName(Type(oldV)) != TypeName(Type(newV))
    ensures |DiffSchema(loc, context, Schema(Type(oldV)), Schema(Type(newV)), dir, oldComps, newComps, depth)|
         == if depth < MaxDepth then 1 else 0
  {
  }

  /**
   * One level of a nesting that the cut-off ends: above the cut-off, the
   * changes at `context` are those one level down at `context.next` plus
   * one more; from the cut-off on, there are none.
   */
  predicate LevelStep(f: (string, nat) -> seq<Change>, context: string, depth: nat) {
    && (depth < MaxDepth ==> |f(context, depth)| == |f(context + "." + "next", depth + 1)| + (if depth + 1 < MaxDepth then 1 else 0))
    && (depth >= MaxDepth ==> f(context, depth) == [])
  }

  /** Counting the levels: one change per level from `depth + 1` up to `MaxDepth - 1`. */
  lemma {:induction false} LevelCount(f: (string, nat) -> seq<Change>, context: string, depth: nat)
    requires forall c, d :: LevelStep(f, c, d)
    ensures |f(context, depth)| == if depth < MaxDepth - 1 then MaxDepth - 1 - depth else 0
    decreases MaxDepth - depth
  {
    assert LevelStep(f, context, depth);
    if depth < MaxDepth {
      LevelCount(f, context + "." + "next", depth + 1);
    }
  }

  /** The comparison of two `Node` schemas, as a function of the context and the depth. */
  function NodeDiffs(loc: Location, dir: Direction, oldV: SchemaType, newV: SchemaType): (string, nat) -> seq<Change> {
    (c: string, d: nat) => DiffSchema(loc, c, Node(oldV), Node(newV), dir, NodeComponents(oldV), NodeComponents(newV), d)
  }

  /** One level of the list adds one change while the cut-off lets the `value` comparison through. */
  lemma NodeStep(loc: Location, dir: Direction, oldV: SchemaType, newV: SchemaType, context: string, depth: nat)
    requires TypeName(Type(oldV)) != TypeName(Type(newV))
    requires depth < MaxDepth
    ensures var oldC, newC := NodeComponents(oldV), NodeComponents(newV);
      |DiffSchema(loc, context, Node(oldV), Node(newV), dir, oldC, newC, depth)|
      == |DiffSchema(loc, context + "." + "next", Node(oldV), Node(newV), dir, oldC, newC, depth + 1)|
         + (if depth + 1 < MaxDepth then 1 else 0)
  {
    var oldC, newC := NodeComponents(oldV), NodeComponents(newV);
    NodeLevel(loc, context, dir, oldV, newV, depth);
    TypeChangeCount(loc, context + "." + "value", oldV, newV, dir, oldC, newC, depth + 1);
    var deeper := DiffSchema(loc, context + "." + "next", Node(oldV), Node(newV), dir, oldC, newC, depth + 1);
    var here := DiffSchema(loc, context + "." + "value", Schema(Type(oldV)), Schema(Type(newV)), dir, oldC, newC, depth + 1);
    assert |deeper + here| == |deeper| + |here|;
  }

  lemma NodeSteps(loc: Location, dir: Direction, oldV: SchemaType, newV: SchemaType)
    requires TypeName(Type(oldV)) != TypeName(Type(newV))
    ensures forall c, d :: LevelStep(NodeDiffs(loc, dir, oldV, newV), c, d)
  {
    var f := NodeDiffs(loc, dir, oldV, newV);
    var oldC, newC := NodeComponents(oldV), NodeComponents(newV);
    forall c: string, d: nat ensures LevelStep(f, c, d) {
      assert f(c, d) == DiffSchema(loc, c, Node(oldV), Node(newV), dir, oldC, newC, d);
      if d < MaxDepth {
        assert f(c + "." + "next", d + 1) == DiffSchema(loc, c + "." + "next", Node(oldV), Node(newV), dir, oldC, newC, d + 1);
        NodeStep(loc, dir, oldV, newV, c, d);
      }
    }
  }

  /**
   * A self-referential schema does not make the comparison run forever:
   * changing the type of `value` in a linked-list schema is reported once
   * per nesting level the cut-off lets through, nine times from the top,
   * and not at all from depth `MaxDepth - 1` on.
   */
  lemma SelfReferenceCutOff(loc: Location, context: string, dir: Direction, oldV: SchemaType, newV: SchemaType, depth: nat)
    requires TypeName(Type(oldV)) != TypeName(Type(newV))
    ensures |DiffSchema(loc, context, Node(oldV), Node(newV), dir, NodeComponents(oldV), NodeComponents(newV), depth)|
         == if depth < MaxDepth - 1 then MaxDepth - 1 - depth else 0
  {
    NodeSteps(loc, dir, oldV, newV);
    LevelCount(NodeDiffs(loc, dir, oldV, newV), context, depth);
  }

  // ---------------------------------------------------------------------
  // Status codes
  // ---------------------------------------------------------------------

  /** Reads a string of decimal digits back as a number. */
  function ParseDecimal(s: string): (n: nat)
    requires forall i :: 0 <= i < |s| ==> '0' <= s[i] <= '9'
  {
    if s == [] then 0 else 10 * ParseDecimal(s[..|s| - 1]) + (s[|s| - 1] as int - '0' as int)
  }

  lemma {:induction false} DecimalRoundTrip(n: nat)
    ensures ParseDecimal(DecimalString(n)) == n
  {
    var s := DecimalString(n);
    if n >= 10 {
      DecimalRoundTrip(n / 10);
      assert s[..|s| - 1] == DecimalString(n / 10);
    }
  }

  /** An exact code's label is all digits; a range's ends in `X`. */
  lemma CodeAndRangeDiffer(x: nat, y: nat)
    ensures StatusCodeText(Code(x)) != StatusCodeText(Range(y))
  {
    var s := StatusCodeText(Range(y));
    assert s[|s| - 1] == 'X';
  }

  /** Different response keys never share a label, so every response message names one status code. */
  lemma StatusCodeTextInjective(a: StatusCode, b: StatusCode)
    ensures StatusCodeText(a) == StatusCodeText(b) <==> a == b
  {
    match (a, b)
    case (Code(x), Code(y)) =>
      DecimalRoundTrip(x);
      DecimalRoundTrip(y);
    case (Range(x), Range(y)) =>
      var s, t := StatusCodeText(a), StatusCodeText(b);
      if s == t {
        assert s[..|s| - 2] == DecimalString(x);
        assert t[..|t| - 2] == DecimalString(y);
        DecimalRoundTrip(x);
        DecimalRoundTrip(y);
      }
    case (Code(x), Range(y)) =>
      CodeAndRangeDiffer(x, y);
    case (Range(x), Code(y)) =>
      CodeAndRangeDiffer(y, x);
  }
}
