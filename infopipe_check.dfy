/** The CheckPermissions call of InfoPipe: the caller's identity is
    resolved first, then the positional argument stream
    (domain, object, instance, array of (action_type, attribute) structs)
    is decoded fail-fast, and every decoded action is answered by the
    placeholder policy, in order. */
module PermissionCheck {
  import opened Common
  import opened InfoPipeTypes

  /** One argument as the typed D-Bus iterator exposes it. Every basic
      type other than a string is the same to this decoder. */
  datatype Val = Str(s: string) | Arr(elems: seq<Val>) | Struct(fields: seq<Val>) | OtherType

  datatype ActionSpec = ActionSpec(action: ActionType, attribute: AttributeType)

  /** A decoded request; `instance` is None when the wire value was "". */
  datatype PermissionRequest = PermissionRequest(
    domain: string, objectType: ObjectType, instance: Option<string>, actions: seq<ActionSpec>)

  /** The outcome of decoding: a value, or the text of the InvalidArgs error. */
  datatype Decoded<T> = Decoded(value: T) | Invalid(msg: string)

  /** What the handler produces: a method return carrying the boolean array,
      an InvalidArgs error reply (handler result EOK in both cases), or a
      handler failure with an error number and no reply at all. */
  datatype Reply = Permissions(values: seq<bool>) | InvalidArgs(message: string) | Fail(errno: int)

  /** The caller's username: the bus must know the sender's unique name,
      report a unix uid for it (-1 means it could not) and the uid must
      belong to an account. */
  function ResolveCaller(sender: Option<string>, unixUser: int, accounts: map<int, string>): (r: Option<string>)
    ensures r.Some? <==> sender.Some? && unixUser != -1 && unixUser in accounts
    ensures r.Some? ==> r.value == accounts[unixUser]
  {
    if sender.None? then None
    else if unixUser == -1 then None
    else if unixUser !in accounts then None
    else Some(accounts[unixUser])
  }

  /** The instance as the policy sees it: the empty string means no instance. */
  function NormalizeInstance(instance: string): (r: Option<string>)
    ensures r.None? <==> instance == ""
    ensures r.Some? ==> r.value == instance
  {
    if instance == "" then None else Some(instance)
  }

  /** One entry of the action array. */
  function DecodeAction(v: Val): Decoded<ActionSpec>
  {
    match v
    case Struct(f) =>
      if |f| == 0 || !f[0].Str? then Invalid("Missing action_type")
      else if GetActionType(f[0].s) == ActionInvalid then Invalid("Action type [" + f[0].s + "] is not valid")
      else if |f| < 2 || !f[1].Str? then Invalid("Missing attribute")
      else if GetAttributeType(f[1].s) == AttributeInvalid then Invalid("Attribute [" + f[1].s + "] is not valid")
      else if |f| > 2 then Invalid("Unexpected value in action struct")
      else Decoded(ActionSpec(GetActionType(f[0].s), GetAttributeType(f[1].s)))
    case _ => Invalid("Action array entry was not a struct")
  }

  /** An array decoded entry by entry, front to back; the first entry that
      fails decides. */
  function DecodeArray<T>(entries: seq<Val>, decodeEntry: Val -> Decoded<T>): Decoded<seq<T>>
  {
    if entries == [] then Decoded([])
    else
      match DecodeArray(entries[..|entries| - 1], decodeEntry)
      case Invalid(m) => Invalid(m)
      case Decoded(init) =>
        match decodeEntry(entries[|entries| - 1])
        case Invalid(m) => Invalid(m)
        case Decoded(x) => Decoded(init + [x])
  }

  /** The whole argument stream; arguments after the fourth are ignored. */
  function Decode(args: seq<Val>): Decoded<PermissionRequest>
  {
    if |args| == 0 then Invalid("No arguments received.")
    else if !args[0].Str? then Invalid("Expected domain")
    else if |args| < 2 || !args[1].Str? then Invalid("Expected object")
    else if GetObjectType(args[1].s) == ObjectInvalid then Invalid("Invalid object type")
    else if |args| < 3 || !args[2].Str? then Invalid("Expected instance")
    else if |args| < 4 || !args[3].Arr? then Invalid("Expected array of actions")
    else
      match DecodeArray(args[3].elems, DecodeAction)
      case Invalid(m) => Invalid(m)
      case Decoded(acts) =>
        Decoded(PermissionRequest(args[0].s, GetObjectType(args[1].s), NormalizeInstance(args[2].s), acts))
  }

  /** The policy applied to every action, in order. */
  function Evaluate(username: string, domain: string, objectType: ObjectType,
                    instance: Option<string>, actions: seq<ActionSpec>): (r: seq<bool>)
    ensures |r| == |actions|
    ensures forall i :: 0 <= i < |actions| ==>
      r[i] == GetPermissions(username, domain, objectType, instance, actions[i].action, actions[i].attribute)
  {
    if actions == [] then []
    else
      var last := actions[|actions| - 1];
      Evaluate(username, domain, objectType, instance, actions[..|actions| - 1])
        + [GetPermissions(username, domain, objectType, instance, last.action, last.attribute)]
  }

  /** The reply for a resolved (or unresolved) caller and an argument stream. */
  function Respond(caller: Option<string>, args: seq<Val>): Reply
  {
    if caller.None? then Fail(EIO)
    else
      match Decode(args)
      case Invalid(m) => InvalidArgs(m)
      case Decoded(req) =>
        Permissions(Evaluate(caller.value, req.domain, req.objectType, req.instance, req.actions))
  }

  /** An entry decodes only when it is a struct of exactly two strings
      that both resolve to valid kinds, and then to those kinds. */
  lemma DecodeActionShape(v: Val)
    ensures DecodeAction(v).Decoded? <==>
      v.Struct? && |v.fields| == 2 && v.fields[0].Str? && v.fields[1].Str? &&
      GetActionType(v.fields[0].s) != ActionInvalid && GetAttributeType(v.fields[1].s) != AttributeInvalid
    ensures DecodeAction(v).Decoded? ==>
      DecodeAction(v).value == ActionSpec(GetActionType(v.fields[0].s), GetAttributeType(v.fields[1].s))
  {
  }

  /** Decoding one more entry of the array. */
  lemma DecodeArrayStep<T>(entries: seq<Val>, decodeEntry: Val -> Decoded<T>, i: nat)
    requires i < |entries|
    ensures DecodeArray(entries[..i + 1], decodeEntry) ==
      match DecodeArray(entries[..i], decodeEntry)
      case Invalid(m) => Invalid(m)
      case Decoded(init) =>
        match decodeEntry(entries[i])
        case Invalid(m) => Invalid(m)
        case Decoded(x) => Decoded(init + [x])
  {
    assert entries[..i + 1][..i] == entries[..i];
  }

  /** A failing prefix of the array decides the whole array. */
  lemma {:induction false} PrefixFailure<T>(entries: seq<Val>, decodeEntry: Val -> Decoded<T>, k: nat)
    requires k <= |entries| && DecodeArray(entries[..k], decodeEntry).Invalid?
    ensures DecodeArray(entries, decodeEntry) == DecodeArray(entries[..k], decodeEntry)
    decreases |entries| - k
  {
    if k < |entries| {
      DecodeArrayStep(entries, decodeEntry, k);
      PrefixFailure(entries, decodeEntry, k + 1);
    } else {
      assert entries[..k] == entries;
    }
  }

  /** The array decodes iff every entry does, and then entry i decodes to
      element i of the result. */
  lemma {:induction false} DecodeArrayPointwise<T>(entries: seq<Val>, decodeEntry: Val -> Decoded<T>)
    ensures DecodeArray(entries, decodeEntry).Decoded? <==>
      forall i :: 0 <= i < |entries| ==> decodeEntry(entries[i]).Decoded?
    ensures DecodeArray(entries, decodeEntry).Decoded? ==>
      |DecodeArray(entries, decodeEntry).value| == |entries| &&
      forall i :: 0 <= i < |entries| ==> decodeEntry(entries[i]) == Decoded(DecodeArray(entries, decodeEntry).value[i])
  {
    if entries != [] {
      var n := |entries| - 1;
      var init := entries[..n];
      DecodeArrayPointwise(init, decodeEntry);
      assert forall i :: 0 <= i < n ==> init[i] == entries[i];
    }
  }

  /** The first entry that fails to decode supplies the error message, and
      every entry before it decodes. */
  lemma {:induction false} DecodeArrayFirstFailure<T>(entries: seq<Val>, decodeEntry: Val -> Decoded<T>)
    requires DecodeArray(entries, decodeEntry).Invalid?
    ensures exists k :: (0 <= k < |entries| && decodeEntry(entries[k]) == Invalid(DecodeArray(entries, decodeEntry).msg) &&
                         forall j :: 0 <= j < k ==> decodeEntry(entries[j]).Decoded?)
  {
    var n := |entries| - 1;
    var init := entries[..n];
    assert forall i :: 0 <= i < n ==> init[i] == entries[i];
    if DecodeArray(init, decodeEntry).Invalid? {
      DecodeArrayFirstFailure(init, decodeEntry);
      var k :| 0 <= k < |init| && decodeEntry(init[k]) == Invalid(DecodeArray(init, decodeEntry).msg)
        && forall j :: 0 <= j < k ==> decodeEntry(init[j]).Decoded?;
      assert decodeEntry(entries[k]) == Invalid(DecodeArray(entries, decodeEntry).msg);
    } else {
      DecodeArrayPointwise(init, decodeEntry);
      assert decodeEntry(entries[n]) == Invalid(DecodeArray(entries, decodeEntry).msg);
    }
  }

  /** Identity failure takes precedence over decoding: whatever the
      arguments, an unresolvable caller fails the call with EIO and no reply. */
  lemma IdentityBeforeArguments(sender: Option<string>, unixUser: int, accounts: map<int, string>, args: seq<Val>)
    requires sender.None? || unixUser == -1 || unixUser !in accounts
    ensures Respond(ResolveCaller(sender, unixUser, accounts), args) == Fail(EIO)
  {
  }

  /** A successful reply has one entry per action struct, in stream order,
      and entry i is the policy's answer for struct i. */
  lemma SuccessIsPointwise(username: string, args: seq<Val>)
    requires Respond(Some(username), args).Permissions?
    ensures |args| >= 4 && args[0].Str? && args[1].Str? && args[2].Str? && args[3].Arr?
    ensures var p := Respond(Some(username), args).values;
      var entries := args[3].elems;
      |p| == |entries| &&
      forall i :: 0 <= i < |entries| ==>
        entries[i].Struct? && |entries[i].fields| == 2 && entries[i].fields[0].Str? && entries[i].fields[1].Str? &&
        p[i] == GetPermissions(username, args[0].s, GetObjectType(args[1].s), NormalizeInstance(args[2].s),
                               GetActionType(entries[i].fields[0].s), GetAttributeType(entries[i].fields[1].s))
  {
    var entries := args[3].elems;
    DecodeArrayPointwise(entries, DecodeAction);
    forall i | 0 <= i < |entries|
      ensures entries[i].Struct? && |entries[i].fields| == 2 && entries[i].fields[0].Str? && entries[i].fields[1].Str?
    {
      DecodeActionShape(entries[i]);
    }
  }

  /** An empty action array is answered with an empty boolean array. */
  lemma EmptyActionsEmptyReply(username: string, domain: string, obj: string, instance: string)
    requires GetObjectType(obj) != ObjectInvalid
    ensures Respond(Some(username), [Str(domain), Str(obj), Str(instance), Arr([])]) == Permissions([])
  {
  }

  /** Dropping the attribute of action struct k of a well-formed array
      makes the array fail with "Missing attribute". */
  lemma {:induction false} MissingAttributeInArray(entries: seq<Val>, k: nat, action: string)
    requires k < |entries| && DecodeArray(entries, DecodeAction).Decoded? && GetActionType(action) != ActionInvalid
    ensures DecodeArray(entries[k := Struct([Str(action)])], DecodeAction) == Invalid("Missing attribute")
  {
    var entries' := entries[k := Struct([Str(action)])];
    DecodeArrayPointwise(entries, DecodeAction);
    assert forall j :: 0 <= j < k ==> entries'[..k][j] == entries[j];
    DecodeArrayPointwise(entries'[..k], DecodeAction);
    assert DecodeAction(entries'[k]) == Invalid("Missing attribute");
    DecodeArrayStep(entries', DecodeAction, k);
    PrefixFailure(entries', DecodeAction, k + 1);
  }

  /** Dropping the attribute of one action struct of a well-formed call
      fails the call with "Missing attribute" and no boolean array. */
  lemma MissingAttributeFails(username: string, args: seq<Val>, k: nat, action: string)
    requires Decode(args).Decoded? && args[3].Arr? && k < |args[3].elems|
    requires GetActionType(action) != ActionInvalid
    ensures var entries := args[3].elems[k := Struct([Str(action)])];
      Respond(Some(username), args[3 := Arr(entries)]) == InvalidArgs("Missing attribute")
  {
    var entries := args[3].elems[k := Struct([Str(action)])];
    var args' := args[3 := Arr(entries)];
    assert args'[0] == args[0] && args'[1] == args[1] && args'[2] == args[2];
    MissingAttributeInArray(args[3].elems, k, action);
    assert Decode(args') == Invalid("Missing attribute");
  }

  /** An array of two decodable entries decodes to their two values, in order. */
  lemma DecodePair<T>(e0: Val, e1: Val, decodeEntry: Val -> Decoded<T>)
    requires decodeEntry(e0).Decoded? && decodeEntry(e1).Decoded?
    ensures DecodeArray([e0, e1], decodeEntry) == Decoded([decodeEntry(e0).value, decodeEntry(e1).value])
  {
    var entries := [e0, e1];
    var v0, v1 := decodeEntry(e0).value, decodeEntry(e1).value;
    assert entries[..0] == [];
    DecodeArrayStep(entries, decodeEntry, 0);
    assert DecodeArray(entries[..1], decodeEntry) == Decoded([] + [v0]);
    assert [] + [v0] == [v0];
    DecodeArrayStep(entries, decodeEntry, 1);
    assert DecodeArray(entries[..2], decodeEntry) == Decoded([v0] + [v1]);
    assert [v0] + [v1] == [v0, v1];
    assert entries[..2] == entries;
  }

  /** A struct holding letter-case variants of an action token and an
      attribute token decodes to that action and attribute. */
  lemma DecodeTokens(action: string, attribute: string, a: ActionType, t: AttributeType)
    requires a != ActionInvalid && t != AttributeInvalid
    requires EqualsIgnoreCase(action, ActionToken(a)) && EqualsIgnoreCase(attribute, AttributeToken(t))
    ensures DecodeAction(Struct([Str(action), Str(attribute)])) == Decoded(ActionSpec(a, t))
  {
    ActionTypeOfToken(action, a);
    AttributeTypeOfToken(attribute, t);
  }

  /** The two action structs of the worked example, spelled in any
      letter case, decode in order to (create, gecos) and (modify, shell). */
  lemma ExampleActions(a0: string, t0: string, a1: string, t1: string)
    requires EqualsIgnoreCase(a0, "create") && EqualsIgnoreCase(t0, "gecos")
    requires EqualsIgnoreCase(a1, "modify") && EqualsIgnoreCase(t1, "shell")
    ensures DecodeArray([Struct([Str(a0), Str(t0)]), Struct([Str(a1), Str(t1)])], DecodeAction)
         == Decoded([ActionSpec(Create, Gecos), ActionSpec(Modify, Shell)])
  {
    DecodeTokens(a0, t0, Create, Gecos);
    DecodeTokens(a1, t1, Modify, Shell);
    DecodePair(Struct([Str(a0), Str(t0)]), Struct([Str(a1), Str(t1)]), DecodeAction);
  }

  /** Under the placeholder policy a well-formed call is answered with one
      boolean per action, all true for "root" and all false for anyone else. */
  lemma AllOrNothing(username: string, args: seq<Val>)
    requires Decode(args).Decoded?
    ensures Respond(Some(username), args).Permissions?
    ensures var p := Respond(Some(username), args).values;
      |p| == |Decode(args).value.actions| &&
      forall i :: 0 <= i < |p| ==> p[i] == (username == "root")
  {
  }

  /** An object argument that is neither a user nor a group fails the call
      with "Invalid object type", whatever follows it. */
  lemma InvalidObjectRefused(username: string, args: seq<Val>)
    requires |args| >= 2 && args[0].Str? && args[1].Str? && GetObjectType(args[1].s) == ObjectInvalid
    ensures Respond(Some(username), args) == InvalidArgs("Invalid object type")
  {
  }

  /** One more accepted entry: the decoded actions grow by it, and the
      answers by its permission. */
  lemma AcceptStep(username: string, domain: string, objectType: ObjectType, instance: Option<string>,
                   entries: seq<Val>, i: nat, a: ActionSpec)
    requires i < |entries| && DecodeArray(entries[..i], DecodeAction).Decoded? && DecodeAction(entries[i]) == Decoded(a)
    ensures var acts := DecodeArray(entries[..i], DecodeAction).value;
      DecodeArray(entries[..i + 1], DecodeAction) == Decoded(acts + [a]) &&
      Evaluate(username, domain, objectType, instance, acts + [a]) ==
        Evaluate(username, domain, objectType, instance, acts) + [GetPermissions(username, domain, objectType, instance, a.action, a.attribute)]
  {
    DecodeArrayStep(entries, DecodeAction, i);
    var acts := DecodeArray(entries[..i], DecodeAction).value;
    assert (acts + [a])[..|acts|] == acts;
  }

  /** One pass of the action loop of `infp_check_permissions`: the struct
      is opened and its action type and attribute are read and checked in
      turn, the first failing check naming the reply's message. */
  method DecodeEntry(entry: Val) returns (r: Decoded<ActionSpec>)
    ensures r == DecodeAction(entry)
  {
    if !entry.Struct? {
      return Invalid("Action array entry was not a struct");
    }
    var fields := entry.fields;
    if |fields| == 0 || !fields[0].Str? {
      return Invalid("Missing action_type");
    }
    var action := fields[0].s;
    var actionType := GetActionType(action);
    if actionType == ActionInvalid {
      return Invalid("Action type [" + action + "] is not valid");
    }
    if |fields| < 2 || !fields[1].Str? {
      return Invalid("Missing attribute");
    }
    var attribute := fields[1].s;
    var attributeType := GetAttributeType(attribute);
    if attributeType == AttributeInvalid {
      return Invalid("Attribute [" + attribute + "] is not valid");
    }
    if |fields| > 2 {
      return Invalid("Unexpected value in action struct");
    }
    return Decoded(ActionSpec(actionType, attributeType));
  }

  /** `infp_check_permissions`: resolves the caller, then walks the
      argument iterator and the action array in a loop, growing the
      permission array by one answer per decoded struct. */
  method CheckPermissions(sender: Option<string>, unixUser: int, accounts: map<int, string>, args: seq<Val>)
    returns (reply: Reply)
    ensures reply == Respond(ResolveCaller(sender, unixUser, accounts), args)
  {
    if sender.None? {
      return Fail(EIO);
    }
    if unixUser == -1 {
      return Fail(EIO);
    }
    if unixUser !in accounts {
      return Fail(EIO);
    }
    var username := accounts[unixUser];

    if |args| == 0 {
      return InvalidArgs("No arguments received.");
    }
    if !args[0].Str? {
      return InvalidArgs("Expected domain");
    }
    var domain := args[0].s;
    if |args| < 2 || !args[1].Str? {
      return InvalidArgs("Expected object");
    }
    var objectType := GetObjectType(args[1].s);
    if objectType == ObjectInvalid {
      return InvalidArgs("Invalid object type");
    }
    if |args| < 3 || !args[2].Str? {
      return InvalidArgs("Expected instance");
    }
    var instance: Option<string> := Some(args[2].s);
    if args[2].s == "" {
      instance := None;
    }
    if |args| < 4 || !args[3].Arr? {
      return InvalidArgs("Expected array of actions");
    }

    reply := CheckActions(username, domain, objectType, instance, args[3].elems);
  }

  /** The action loop of `infp_check_permissions`: the array is walked
      entry by entry, the permission array growing by one answer per
      decoded struct, and the first entry that fails to decode ends the
      call with its message. */
  method CheckActions(username: string, domain: string, objectType: ObjectType, instance: Option<string>,
                      entries: seq<Val>) returns (reply: Reply)
    ensures DecodeArray(entries, DecodeAction).Invalid? ==>
      reply == InvalidArgs(DecodeArray(entries, DecodeAction).msg)
    ensures DecodeArray(entries, DecodeAction).Decoded? ==>
      reply == Permissions(Evaluate(username, domain, objectType, instance, DecodeArray(entries, DecodeAction).value))
  {
    var permissions: seq<bool> := [];
    var count := 0;
    var i := 0;
    while i < |entries|
      invariant 0 <= i <= |entries|
      invariant count == |permissions|
      invariant DecodeArray(entries[..i], DecodeAction).Decoded?
      invariant permissions == Evaluate(username, domain, objectType, instance, DecodeArray(entries[..i], DecodeAction).value)
    {
      var action := DecodeEntry(entries[i]);
      if action.Invalid? {
        reply := InvalidArgs(action.msg);
        DecodeArrayStep(entries, DecodeAction, i);
        PrefixFailure(entries, DecodeAction, i + 1);
        return;
      }
      AcceptStep(username, domain, objectType, instance, entries, i, action.value);
      count := count + 1;
      permissions := permissions + [GetPermissions(username, domain, objectType, instance, action.value.action, action.value.attribute)];
      i := i + 1;
    }
    assert entries[..i] == entries;
    reply := Permissions(permissions);
  }
}
