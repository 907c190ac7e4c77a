/**
 * The rule tables of the schema and content layers, stated change by change:
 * which difference produces which message, at which severity, in which
 * direction; and how many changes an enum comparison yields.
 */
module DiffRules {
  import opened Wrappers
  import opened IndexMaps
  import opened ChangeModel
  import opened OpenApi
  import opened Diff

  // ---------------------------------------------------------------------
  // Messages
  // ---------------------------------------------------------------------

  /** A message built from a fixed prefix and suffix determines the text between them. */
  lemma InfixInjective(pre: string, a: string, b: string, post: string)
    requires pre + a + post == pre + b + post
    ensures a == b
  {
    var s := pre + a + post;
    assert |a| == |b|;
    assert a == s[|pre|..|pre| + |a|];
    assert b == (pre + b + post)[|pre|..|pre| + |b|];
  }

  /** A property or enum-value message names its member: equal messages mean equal names. */
  lemma ItemMessageInjective(context: string, noun: string, a: string, b: string, what: string)
    requires ItemMessage(context, noun, a, what) == ItemMessage(context, noun, b, what)
    ensures a == b
  {
    var pre, post := context + ": " + noun + " '", "' " + what;
    assert ItemMessage(context, noun, a, what) == pre + a + post;
    assert ItemMessage(context, noun, b, what) == pre + b + post;
    InfixInjective(pre, a, b, post);
  }

  /** A removed-value message is never an added-value message: they end in `ved` and `ded`. */
  lemma EnumMessagesDiffer(context: string, a: string, b: string)
    ensures ItemMessage(context, "enum value", a, "removed") != ItemMessage(context, "enum value", b, "added")
  {
    var m, n := ItemMessage(context, "enum value", a, "removed"), ItemMessage(context, "enum value", b, "added");
    assert m == context + ": " + "enum value" + " '" + a + "' " + "removed";
    assert n == context + ": " + "enum value" + " '" + b + "' " + "added";
    assert m[|m| - 3] == 'v';
    assert n[|n| - 3] == 'd';
  }

  // ---------------------------------------------------------------------
  // Objects: the four property rules, section by section
  // ---------------------------------------------------------------------

  /** A property is reported removed exactly when the old object has it and the new one does not; Breaking only in responses. */
  lemma {:induction false} RemovedPropertyRule(loc: Location, context: string, names: seq<string>,
                                               newProps: IndexMap<string, RefOr<Schema>>, dir: Direction,
                                               name: string, sev: Severity)
    ensures Change(sev, loc, ItemMessage(context, "property", name, "removed")) in RemovedProperties(loc, context, names, newProps, dir)
        <==> name in names && name !in Keys(newProps) && sev == (if dir == Direction.Response then Breaking else NonBreaking)
  {
    if names != [] {
      RemovedPropertyRule(loc, context, names[1..], newProps, dir, name, sev);
      if ItemMessage(context, "property", name, "removed") == ItemMessage(context, "property", names[0], "removed") {
        ItemMessageInjective(context, "property", name, names[0], "removed");
      }
      assert names == [names[0]] + names[1..];
    }
  }

  /** A property is reported added exactly when only the new object has it; Breaking only in requests, and only when required. */
  lemma {:induction false} AddedPropertyRule(loc: Location, context: string, names: seq<string>,
                                             oldProps: IndexMap<string, RefOr<Schema>>, newRequired: seq<string>,
                                             dir: Direction, name: string, sev: Severity)
    ensures Change(sev, loc, ItemMessage(context, "property", name, "added")) in AddedProperties(loc, context, names, oldProps, newRequired, dir)
        <==> name in names && name !in Keys(oldProps)
             && sev == (if dir == Request && name in newRequired then Breaking else NonBreaking)
  {
    if names != [] {
      AddedPropertyRule(loc, context, names[1..], oldProps, newRequired, dir, name, sev);
      if ItemMessage(context, "property", name, "added") == ItemMessage(context, "property", names[0], "added") {
        ItemMessageInjective(context, "property", name, names[0], "added");
      }
      assert names == [names[0]] + names[1..];
    }
  }

  /**
   * A name is reported as newly required exactly when the new `required`
   * lists it, the old one does not, and the old object has the property;
   * Breaking in requests, NonBreaking in responses.
   */
  lemma {:induction false} BecameRequiredRule(loc: Location, context: string, newRequired: seq<string>, oldRequired: seq<string>,
                                              oldProps: IndexMap<string, RefOr<Schema>>, dir: Direction,
                                              name: string, sev: Severity)
    ensures Change(sev, loc, ItemMessage(context, "property", name, "became required"))
              in BecameRequired(loc, context, newRequired, oldRequired, oldProps, dir)
        <==> name in newRequired && name !in oldRequired && name in Keys(oldProps)
             && sev == (if dir == Request then Breaking else NonBreaking)
  {
    if newRequired != [] {
      BecameRequiredRule(loc, context, newRequired[1..], oldRequired, oldProps, dir, name, sev);
      if ItemMessage(context, "property", name, "became required") == ItemMessage(context, "property", newRequired[0], "became required") {
        ItemMessageInjective(context, "property", name, newRequired[0], "became required");
      }
      assert newRequired == [newRequired[0]] + newRequired[1..];
    }
  }

  /**
   * A name is reported as no longer required exactly when the old
   * `required` lists it, the new one does not, and the new object still
   * has the property; Breaking in responses, NonBreaking in requests.
   */
  lemma {:induction false} BecameOptionalRule(loc: Location, context: string, oldRequired: seq<string>, newRequired: seq<string>,
                                              newProps: IndexMap<string, RefOr<Schema>>, dir: Direction,
                                              name: string, sev: Severity)
    ensures Change(sev, loc, ItemMessage(context, "property", name, "became optional"))
              in BecameOptional(loc, context, oldRequired, newRequired, newProps, dir)
        <==> name in oldRequired && name !in newRequired && name in Keys(newProps)
             && sev == (if dir == Request then NonBreaking else Breaking)
  {
    if oldRequired != [] {
      BecameOptionalRule(loc, context, oldRequired[1..], newRequired, newProps, dir, name, sev);
      if ItemMessage(context, "property", name, "became optional") == ItemMessage(context, "property", oldRequired[0], "became optional") {
        ItemMessageInjective(context, "property", name, oldRequired[0], "became optional");
      }
      assert oldRequired == [oldRequired[0]] + oldRequired[1..];
    }
  }

  /**
   * The property rules as seen in a whole object comparison, for both
   * directions: what a removed, added, newly required or newly optional
   * property contributes, and at which severity.
   */
  lemma ObjectRules(loc: Location, context: string, o: ObjectType, n: ObjectType, dir: Direction,
                    oldComps: Option<Components>, newComps: Option<Components>, depth: nat, name: string)
    requires depth < MaxDepth
    ensures var r := DiffObject(loc, context, o, n, dir, oldComps, newComps, depth);
      && (name in Keys(o.properties) && name !in Keys(n.properties) ==>
            Change(if dir == Direction.Response then Breaking else NonBreaking, loc, ItemMessage(context, "property", name, "removed")) in r)
      && (name !in Keys(o.properties) && name in Keys(n.properties) ==>
            Change(if dir == Request && name in n.required then Breaking else NonBreaking, loc, ItemMessage(context, "property", name, "added")) in r)
      && (name in n.required && name !in o.required && name in Keys(o.properties) ==>
            Change(if dir == Request then Breaking else NonBreaking, loc, ItemMessage(context, "property", name, "became required")) in r)
      && (name in o.required && name !in n.required && name in Keys(n.properties) ==>
            Change(if dir == Request then NonBreaking else Breaking, loc, ItemMessage(context, "property", name, "became optional")) in r)
  {
    RemovedPropertyRule(loc, context, Keys(o.properties), n.properties, dir, name,
                        if dir == Direction.Response then Breaking else NonBreaking);
    AddedPropertyRule(loc, context, Keys(n.properties), o.properties, n.required, dir, name,
                      if dir == Request && name in n.required then Breaking else NonBreaking);
    BecameRequiredRule(loc, context, n.required, o.required, o.properties, dir, name,
                       if dir == Request then Breaking else NonBreaking);
    BecameOptionalRule(loc, context, o.required, n.required, n.properties, dir, name,
                       if dir == Request then NonBreaking else Breaking);
  }

  // ---------------------------------------------------------------------
  // String enums
  // ---------------------------------------------------------------------

  /** The values of an `enum` as a set, nulls dropped. */
  function EnumSet(e: seq<Option<string>>): (vs: set<string>)
    ensures forall v :: v in vs <==> Some(v) in e
  {
    set x | x in e && x.Some? :: x.value
  }

  /** Every change a section reports names one of `values` that `others` lacks. */
  lemma {:induction false} EnumValueChangesFrom(loc: Location, context: string, values: seq<string>, others: seq<string>,
                                                sev: Severity, what: string, c: Change)
    requires c in EnumValueChanges(loc, context, values, others, sev, what)
    ensures exists v :: v in values && v !in others && c == Change(sev, loc, ItemMessage(context, "enum value", v, what))
  {
    if values[0] in others || c != Change(sev, loc, ItemMessage(context, "enum value", values[0], what)) {
      EnumValueChangesFrom(loc, context, values[1..], others, sev, what, c);
    }
  }

  lemma {:induction false} EnumValueRule(loc: Location, context: string, values: seq<string>, others: seq<string>,
                                         sev: Severity, what: string, v: string)
    ensures Change(sev, loc, ItemMessage(context, "enum value", v, what)) in EnumValueChanges(loc, context, values, others, sev, what)
        <==> v in values && v !in others
  {
    if values != [] {
      EnumValueRule(loc, context, values[1..], others, sev, what, v);
      if ItemMessage(context, "enum value", v, what) == ItemMessage(context, "enum value", values[0], what) {
        ItemMessageInjective(context, "enum value", v, values[0], what);
      }
      assert values == [values[0]] + values[1..];
    }
  }

  lemma {:induction false} EnumValueChangesCount(loc: Location, context: string, values: seq<string>, others: seq<string>,
                                                 sev: Severity, what: string)
    requires forall i, j :: 0 <= i < j < |values| ==> values[i] != values[j]
    ensures |EnumValueChanges(loc, context, values, others, sev, what)| == |set v | v in values && v !in others|
  {
    if values != [] {
      var tail := values[1..];
      EnumValueChangesCount(loc, context, tail, others, sev, what);
      var all := set v | v in values && v !in others;
      var rest := set v | v in tail && v !in others;
      assert values[0] !in tail by {
        forall j | 0 <= j < |tail| ensures tail[j] != values[0] {
          assert tail[j] == values[j + 1];
        }
      }
      if values[0] in others {
        assert all == rest;
      } else {
        assert all == rest + {values[0]};
      }
    }
  }

  /**
   * The enum rules: each value dropped from the set is one Breaking
   * "removed" change; each value new to the set is one "added" change,
   * Breaking in responses and NonBreaking in requests; a message never
   * appears at another severity; nothing else is reported, so the number of
   * changes is the size of the symmetric difference of the two value sets.
   */
  lemma EnumRules(loc: Location, context: string, o: StringType, n: StringType, dir: Direction, v: string, sev: Severity)
    ensures var r := DiffStringEnum(loc, context, o, n, dir);
      && ((Change(sev, loc, ItemMessage(context, "enum value", v, "removed")) in r)
            <==> v in EnumSet(o.enumeration) && v !in EnumSet(n.enumeration) && sev == Breaking)
      && ((Change(sev, loc, ItemMessage(context, "enum value", v, "added")) in r)
            <==> v in EnumSet(n.enumeration) && v !in EnumSet(o.enumeration)
                 && sev == (if dir == Direction.Response then Breaking else NonBreaking))
      && |r| == |EnumSet(o.enumeration) - EnumSet(n.enumeration)| + |EnumSet(n.enumeration) - EnumSet(o.enumeration)|
  {
    var r := DiffStringEnum(loc, context, o, n, dir);
    var oldValues, newValues := EnumValues(o.enumeration), EnumValues(n.enumeration);
    var addedSev := if dir == Direction.Response then Breaking else NonBreaking;
    var removed := EnumValueChanges(loc, context, oldValues, newValues, Breaking, "removed");
    var added := EnumValueChanges(loc, context, newValues, oldValues, addedSev, "added");
    assert (set x | x in oldValues && x !in newValues) == EnumSet(o.enumeration) - EnumSet(n.enumeration);
    assert (set x | x in newValues && x !in oldValues) == EnumSet(n.enumeration) - EnumSet(o.enumeration);
    if o.enumeration == [] && n.enumeration == [] {
      assert EnumSet(o.enumeration) == {} && EnumSet(n.enumeration) == {};
    } else {
      assert r == removed + added;
      EnumValueChangesCount(loc, context, oldValues, newValues, Breaking, "removed");
      EnumValueChangesCount(loc, context, newValues, oldValues, addedSev, "added");
      EnumValueRule(loc, context, oldValues, newValues, Breaking, "removed", v);
      EnumValueRule(loc, context, newValues, oldValues, addedSev, "added", v);
      var rc := Change(sev, loc, ItemMessage(context, "enum value", v, "removed"));
      if rc in added {
        EnumValueChangesFrom(loc, context, newValues, oldValues, addedSev, "added", rc);
        var w :| w in newValues && w !in oldValues && rc == Change(addedSev, loc, ItemMessage(context, "enum value", w, "added"));
        EnumMessagesDiffer(context, v, w);
      }
      var ac := Change(sev, loc, ItemMessage(context, "enum value", v, "added"));
      if ac in removed {
        EnumValueChangesFrom(loc, context, oldValues, newValues, Breaking, "removed", ac);
        var w :| w in oldValues && w !in newValues && ac == Change(Breaking, loc, ItemMessage(context, "enum value", w, "removed"));
        EnumMessagesDiffer(context, w, v);
      }
    }
  }

  // ---------------------------------------------------------------------
  // Content and responses
  // ---------------------------------------------------------------------

  lemma {:induction false} AddedMediaRule(loc: Location, title: string, newKeys: seq<string>, oldContent: Content,
                                          media: string, sev: Severity)
    ensures Change(sev, loc, title + ": media type '" + media + "' added") in AddedMedia(loc, title, newKeys, oldContent)
        <==> media in newKeys && media !in Keys(oldContent) && sev == NonBreaking
  {
    if newKeys != [] {
      AddedMediaRule(loc, title, newKeys[1..], oldContent, media, sev);
      if title + ": media type '" + media + "' added" == title + ": media type '" + newKeys[0] + "' added" {
        InfixInjective(title + ": media type '", media, newKeys[0], "' added");
      }
      assert newKeys == [newKeys[0]] + newKeys[1..];
    }
  }

  lemma {:induction false} RemovedMediaReported(loc: Location, title: string, oldEntries: Content, newContent: Content,
                                                dir: Direction, oldComps: Option<Components>, newComps: Option<Components>,
                                                media: string)
    requires media in Keys(oldEntries) && media !in Keys(newContent)
    ensures Change(Breaking, loc, title + ": media type '" + media + "' removed")
              in ExistingMedia(loc, title, oldEntries, newContent, dir, oldComps, newComps)
  {
    if oldEntries[0].0 != media {
      RemovedMediaReported(loc, title, oldEntries[1..], newContent, dir, oldComps, newComps, media);
    }
  }

  /**
   * The content rules, in both directions: a media type that disappears is
   * Breaking whether the content is a request body's or a response's, and a
   * media type that appears is NonBreaking and reported exactly once per key.
   */
  lemma ContentRules(loc: Location, title: string, oldContent: Content, newContent: Content, dir: Direction,
                     oldComps: Option<Components>, newComps: Option<Components>, media: string)
    ensures var r := DiffContent(loc, title, oldContent, newContent, dir, oldComps, newComps);
      && (media in Keys(oldContent) && media !in Keys(newContent) ==>
            Change(Breaking, loc, title + ": media type '" + media + "' removed") in r)
      && (media in Keys(newContent) && media !in Keys(oldContent) ==>
            Change(NonBreaking, loc, title + ": media type '" + media + "' added") in r)
  {
    if media in Keys(oldContent) && media !in Keys(newContent) {
      RemovedMediaReported(loc, title, oldContent, newContent, dir, oldComps, newComps, media);
    }
    AddedMediaRule(loc, title, Keys(newContent), oldContent, media, NonBreaking);
  }

  lemma {:induction false} RemovedResponseReported(loc: Location, oldEntries: IndexMap<StatusCode, RefOr<Response>>,
                                                   newResponses: IndexMap<StatusCode, RefOr<Response>>,
                                                   oldSpec: OpenAPI, newSpec: OpenAPI, code: StatusCode)
    requires code in Keys(oldEntries) && code !in Keys(newResponses)
    ensures Change(Breaking, loc, ResponseMessage(code, "removed")) in ExistingResponses(loc, oldEntries, newResponses, oldSpec, newSpec)
  {
    if oldEntries[0].0 != code {
      RemovedResponseReported(loc, oldEntries[1..], newResponses, oldSpec, newSpec, code);
    }
  }

  lemma {:induction false} AddedResponseReported(loc: Location, newCodes: seq<StatusCode>,
                                                 oldResponses: IndexMap<StatusCode, RefOr<Response>>, code: StatusCode)
    requires code in newCodes && code !in Keys(oldResponses)
    ensures Change(NonBreaking, loc, ResponseMessage(code, "added")) in AddedResponses(loc, newCodes, oldResponses)
  {
    if newCodes[0] != code {
      AddedResponseReported(loc, newCodes[1..], oldResponses, code);
    }
  }

  /**
   * The response rules: a status code that disappears is Breaking, one that
   * appears is NonBreaking; added codes are never Breaking.
   */
  lemma ResponseRules(loc: Location, oldResponses: IndexMap<StatusCode, RefOr<Response>>,
                      newResponses: IndexMap<StatusCode, RefOr<Response>>, oldSpec: OpenAPI, newSpec: OpenAPI, code: StatusCode)
    ensures var r := DiffResponses(loc, oldResponses, newResponses, oldSpec, newSpec);
      && (code in Keys(oldResponses) && code !in Keys(newResponses) ==>
            Change(Breaking, loc, ResponseMessage(code, "removed")) in r)
      && (code in Keys(newResponses) && code !in Keys(oldResponses) ==>
            Change(NonBreaking, loc, ResponseMessage(code, "added")) in r)
  {
    if code in Keys(oldResponses) && code !in Keys(newResponses) {
      RemovedResponseReported(loc, oldResponses, newResponses, oldSpec, newSpec, code);
    }
    if code in Keys(newResponses) && code !in Keys(oldResponses) {
      AddedResponseReported(loc, Keys(newResponses), oldResponses, code);
    }
  }
}
