/** The closed vocabularies of the InfoPipe permission check (object,
    action and attribute kinds), their case-insensitive resolvers and the
    placeholder authorization policy. */
module InfoPipeTypes {
  import opened Common

  datatype ObjectType = ObjectInvalid | User | Group

  datatype ActionType = ActionInvalid | Create | Delete | Modify | AddMember | RemoveMember

  datatype AttributeType =
    | AttributeInvalid | DefaultGroup | Gecos | HomeDir | Shell | FullName
    | Locale | Keyboard | Session | LastLogin | UserPic

  /** The wire token of each valid object kind. */
  function ObjectToken(o: ObjectType): string
    requires o != ObjectInvalid
  {
    match o
    case User => "user"
    case Group => "group"
  }

  /** The wire token of each valid action kind. */
  function ActionToken(a: ActionType): string
    requires a != ActionInvalid
  {
    match a
    case Create => "create"
    case Delete => "delete"
    case Modify => "modify"
    case AddMember => "addmember"
    case RemoveMember => "removemember"
  }

  /** The wire token of each valid attribute kind. */
  function AttributeToken(t: AttributeType): string
    requires t != AttributeInvalid
  {
    match t
    case DefaultGroup => "defaultgroup"
    case Gecos => "gecos"
    case HomeDir => "homedir"
    case Shell => "shell"
    case FullName => "fullname"
    case Locale => "locale"
    case Keyboard => "keyboard"
    case Session => "session"
    case LastLogin => "last_login"
    case UserPic => "userpic"
  }

  /** `get_object_type`: a valid kind only for a letter-case variant of its token. */
  function GetObjectType(obj: string): (r: ObjectType)
    ensures r != ObjectInvalid ==> EqualsIgnoreCase(obj, ObjectToken(r))
  {
    if EqualsIgnoreCase(obj, "user") then User
    else if EqualsIgnoreCase(obj, "group") then Group
    else ObjectInvalid
  }

  /** `get_action_type`: a valid kind only for a letter-case variant of its token. */
  function GetActionType(action: string): (r: ActionType)
    ensures r != ActionInvalid ==> EqualsIgnoreCase(action, ActionToken(r))
  {
    if EqualsIgnoreCase(action, "create") then Create
    else if EqualsIgnoreCase(action, "delete") then Delete
    else if EqualsIgnoreCase(action, "modify") then Modify
    else if EqualsIgnoreCase(action, "addmember") then AddMember
    else if EqualsIgnoreCase(action, "removemember") then RemoveMember
    else ActionInvalid
  }

  /** `get_attribute_type`: a valid kind only for a letter-case variant of its token. */
  function GetAttributeType(attribute: string): (r: AttributeType)
    ensures r != AttributeInvalid ==> EqualsIgnoreCase(attribute, AttributeToken(r))
  {
    if EqualsIgnoreCase(attribute, "defaultgroup") then DefaultGroup
    else if EqualsIgnoreCase(attribute, "gecos") then Gecos
    else if EqualsIgnoreCase(attribute, "homedir") then HomeDir
    else if EqualsIgnoreCase(attribute, "shell") then Shell
    else if EqualsIgnoreCase(attribute, "fullname") then FullName
    else if EqualsIgnoreCase(attribute, "locale") then Locale
    else if EqualsIgnoreCase(attribute, "keyboard") then Keyboard
    else if EqualsIgnoreCase(attribute, "session") then Session
    else if EqualsIgnoreCase(attribute, "last_login") then LastLogin
    else if EqualsIgnoreCase(attribute, "userpic") then UserPic
    else AttributeInvalid
  }

  /** Object resolution is exact: a string resolves to a kind iff it is a
      letter-case variant of that kind's token. */
  lemma ObjectTypeOfToken(obj: string, o: ObjectType)
    requires o != ObjectInvalid
    ensures GetObjectType(obj) == o <==> EqualsIgnoreCase(obj, ObjectToken(o))
  {
  }

  /** Action resolution is exact: a string resolves to a kind iff it is a
      letter-case variant of that kind's token. */
  lemma ActionTypeOfToken(action: string, a: ActionType)
    requires a != ActionInvalid
    ensures GetActionType(action) == a <==> EqualsIgnoreCase(action, ActionToken(a))
  {
    if EqualsIgnoreCase(action, ActionToken(a)) && |action| == 6 {
      assert Lower(action[0]) == Lower(ActionToken(a)[0]);
    }
  }

  /** Attribute resolution is exact: a string resolves to a kind iff it is a
      letter-case variant of that kind's token. */
  lemma AttributeTypeOfToken(attribute: string, t: AttributeType)
    requires t != AttributeInvalid
    ensures GetAttributeType(attribute) == t <==> EqualsIgnoreCase(attribute, AttributeToken(t))
  {
    if EqualsIgnoreCase(attribute, AttributeToken(t)) && |attribute| > 0 {
      assert Lower(attribute[0]) == Lower(AttributeToken(t)[0]);
    }
  }

  /** Resolution depends only on the folded string: letter-case variants
      of one string resolve to the same kind, whatever the string is. */
  lemma {:induction false} ResolversIgnoreCase(s: string, t: string)
    requires EqualsIgnoreCase(s, t)
    ensures GetObjectType(s) == GetObjectType(t)
    ensures GetActionType(s) == GetActionType(t)
    ensures GetAttributeType(s) == GetAttributeType(t)
  {
    var o, a, k := GetObjectType(s), GetActionType(s), GetAttributeType(s);
    var o', a', k' := GetObjectType(t), GetActionType(t), GetAttributeType(t);
    if o != ObjectInvalid {
      SameCaseClass(s, t, ObjectToken(o)); ObjectTypeOfToken(t, o);
    } else if o' != ObjectInvalid {
      SameCaseClass(s, t, ObjectToken(o')); ObjectTypeOfToken(s, o');
    }
    if a != ActionInvalid {
      SameCaseClass(s, t, ActionToken(a)); ActionTypeOfToken(t, a);
    } else if a' != ActionInvalid {
      SameCaseClass(s, t, ActionToken(a')); ActionTypeOfToken(s, a');
    }
    if k != AttributeInvalid {
      SameCaseClass(s, t, AttributeToken(k)); AttributeTypeOfToken(t, k);
    } else if k' != AttributeInvalid {
      SameCaseClass(s, t, AttributeToken(k')); AttributeTypeOfToken(s, k');
    }
  }

  /** `infp_get_permissions`: the placeholder policy of the service. The
      caller named exactly "root" (case-sensitive) may do everything, any
      other caller nothing. */
  function GetPermissions(username: string, domain: string, objectType: ObjectType,
                          instance: Option<string>, action: ActionType,
                          attribute: AttributeType): bool
  {
    username == "root"
  }

  /** The policy decision does not depend on what is asked, only on who asks. */
  lemma PermissionsIgnoreRequest(username: string,
                                 d1: string, o1: ObjectType, i1: Option<string>, a1: ActionType, t1: AttributeType,
                                 d2: string, o2: ObjectType, i2: Option<string>, a2: ActionType, t2: AttributeType)
    ensures GetPermissions(username, d1, o1, i1, a1, t1) == GetPermissions(username, d2, o2, i2, a2, t2)
  {
  }

  /** "root" is granted every request, even a nonsensical one; every other
      name, including letter-case variants of "root", is refused. */
  lemma PermissionsRootOnly(username: string, domain: string, objectType: ObjectType,
                            instance: Option<string>, action: ActionType, attribute: AttributeType)
    ensures GetPermissions(username, domain, objectType, instance, action, attribute) <==> username == "root"
    ensures !GetPermissions("ROOT", domain, objectType, instance, action, attribute)
  {
  }
}
