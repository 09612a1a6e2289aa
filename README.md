# SSSD InfoPipe request handling and fail-over bookkeeping

This project models two parts of SSSD, the System Security Services
Daemon, and proves properties of the models.

**The InfoPipe responder** (`server/infopipe/infopipe.c`) answers D-Bus
calls. The model covers:

- the three case-insensitive resolvers that turn an object, action or
  attribute name into its enumeration value;
- the placeholder permission policy, which grants everything to `root`
  and nothing to anyone else;
- the `CheckPermissions` method: it identifies the caller, decodes the
  domain, object type, instance and the array of (action, attribute)
  structures, and answers with one boolean per action, or with an
  invalid-arguments error;
- the introspection handler, which reads the introspection XML in
  4096-byte chunks on the first call and serves the cached copy afterwards;
- the monitor method table (identity, ping and reload), where
  `reload` answers like `ping`.

**The fail-over context** (`src/providers/fail_over.c`) keeps services,
the servers of each service in order, the name entries that servers share
(`server_common`), and SRV lookups that stand in a service's list as
"meta servers". The model is the class `FailOver.FailOverContext`, which
holds:

- the service registry and the server records;
- the name entries, as a sequence in creation order;
- the SRV lookup data, keyed by the meta server's handle.

Its methods add services, servers and SRV lookups, and read and set
statuses with their retry-timeout expiry. They pick the first working
server of a service (the active server first, then a round robin that
resumes after the last tried server), and decide the next step of a name
or SRV resolution. They also rewrite a service's list around an SRV
lookup:

- collapsing the servers a lookup produced back into its meta server;
- replacing the meta server by the servers of a fresh answer.

The pure part of the fail-over logic lives in `FailOverSpec` and
`FailOverSrv`. There, status reads are functions from a heap of records
to a result and a new heap. The class methods are proved equal to these
functions, and the lemmas state what a selection means: the chosen
server looks working, and every server tried before it, in rotation
order, is dead.

Pointers are modelled as handles. A server is a `ServerId` key into a
map of records. A name entry is an index into the sequence of entries.
An SRV lookup's data is keyed by its meta server's id. Every server the
lookup produced refers to that meta server. The clock
(`gettimeofday`) is the parameter `now`; a status is expired when
`now - lastChange > timeout` and the timeout is non-zero.

## Model

| member | source | states |
|---|---|---|
| Common.EqualsIgnoreCase | src/providers/fail_over.c:445 | names that compare equal ignoring case have the same length |
| Common.FoldedIsCaseless | server/infopipe/infopipe.c:259-261 | a folded string holds no ASCII capital, folding it again changes nothing, and it equals the original ignoring case |
| Common.EqualsIgnoreCaseIsFoldedEquality | server/infopipe/infopipe.c:259-261 | two strings compare equal ignoring case (the `strcasecmp(...) == 0` test) exactly when their folded forms are equal |
| Common.EqualsIgnoreCaseReflexive | src/providers/fail_over.c:445 | every name matches itself ignoring case, so a name entry is always found again by its own name |
| Common.SameCaseClass | src/providers/fail_over.c:596 | two names equal ignoring case match exactly the same third names |
| InfoPipeTypes.GetObjectType | server/infopipe/infopipe.c:255-265 | a resolved object type's token equals the input ignoring case |
| InfoPipeTypes.GetActionType | server/infopipe/infopipe.c:267-283 | a resolved action's token equals the input ignoring case |
| InfoPipeTypes.GetAttributeType | server/infopipe/infopipe.c:285-320 | a resolved attribute's token equals the input ignoring case |
| InfoPipeTypes.ObjectTypeOfToken | server/infopipe/infopipe.c:255-265 | `get_object_type` yields a given type if and only if the input is a letter-case variant of that type's token ("user", "group") |
| InfoPipeTypes.ActionTypeOfToken | server/infopipe/infopipe.c:267-283 | `get_action_type` yields a given action if and only if the input is a letter-case variant of its token (create, delete, modify, addmember, removemember) |
| InfoPipeTypes.AttributeTypeOfToken | server/infopipe/infopipe.c:285-320 | `get_attribute_type` yields a given attribute if and only if the input is a letter-case variant of its token (defaultgroup … userpic) |
| InfoPipeTypes.ResolversIgnoreCase | server/infopipe/infopipe.c:255-320 | all three resolvers give the same answer for inputs that differ only in letter case |
| InfoPipeTypes.PermissionsIgnoreRequest | server/infopipe/infopipe.c:322-337 | the placeholder policy depends on the user name only, never on domain, object, instance, action or attribute |
| InfoPipeTypes.PermissionsRootOnly | server/infopipe/infopipe.c:322-337 | `GetPermissions`, the placeholder policy, grants permission if and only if the user name is exactly "root"; the comparison is case-sensitive, so "ROOT" is refused |
| PermissionCheck.ResolveCaller | server/infopipe/infopipe.c:370-388 | a caller is identified if and only if the message has a sender, the bus reports a uid other than -1 and that uid has an account; the name is that account's name |
| PermissionCheck.NormalizeInstance | server/infopipe/infopipe.c:419-430 | an empty instance string means "no instance"; any other string is kept as is |
| PermissionCheck.Evaluate | server/infopipe/infopipe.c:480-485 | one answer per action, in order, each the policy's verdict for that action and attribute |
| PermissionCheck.DecodeActionShape | server/infopipe/infopipe.c:443-478 | an array entry decodes (`DecodeAction`) if and only if it is a structure of exactly two strings whose action and attribute both resolve, and it decodes to those two values |
| PermissionCheck.DecodeArrayStep | server/infopipe/infopipe.c:440-488 | decoding one more entry either keeps an earlier error, stops at this entry's error, or appends this entry's value |
| PermissionCheck.PrefixFailure | server/infopipe/infopipe.c:440-488 | once a prefix of the array fails to decode, the whole array fails with the same message |
| PermissionCheck.DecodeArrayPointwise | server/infopipe/infopipe.c:440-488 | the array decodes (`DecodeArray`) if and only if every entry decodes, and then the decoded list has one value per entry, in order |
| PermissionCheck.DecodeArrayFirstFailure | server/infopipe/infopipe.c:440-488 | a failing array reports the message of its first bad entry; every entry before it is well-formed |
| PermissionCheck.IdentityBeforeArguments | server/infopipe/infopipe.c:370-388 | an unidentified caller gets EIO whatever the arguments are |
| PermissionCheck.SuccessIsPointwise | server/infopipe/infopipe.c:390-500 | a permissions reply of `Respond`, which decodes the arguments with `Decode`, implies four well-typed arguments, one reply value per array entry, and each value is the policy's verdict for that entry's resolved action and attribute |
| PermissionCheck.EmptyActionsEmptyReply | server/infopipe/infopipe.c:432-500 | a valid request with an empty action array gets an empty list of permissions |
| PermissionCheck.MissingAttributeInArray | server/infopipe/infopipe.c:462-467 | replacing any entry of a valid array by a structure holding only an action makes the array fail with "Missing attribute" |
| PermissionCheck.MissingAttributeFails | server/infopipe/infopipe.c:462-467 | a request that was valid becomes an invalid-arguments reply "Missing attribute" once any entry loses its attribute |
| PermissionCheck.DecodePair | server/infopipe/infopipe.c:440-488 | two well-formed entries decode to their two values in order |
| PermissionCheck.DecodeTokens | server/infopipe/infopipe.c:443-478 | a structure of any letter-case spelling of an action token and an attribute token decodes to that action and attribute |
| PermissionCheck.ExampleActions | server/infopipe/infopipe.c:440-488 | the array [("create","gecos"), ("modify","shell")], in any letter case, decodes to Create/Gecos then Modify/Shell |
| PermissionCheck.AllOrNothing | server/infopipe/infopipe.c:322-337 | for a well-formed request every answer is true for "root" and false for anyone else, one per action |
| PermissionCheck.InvalidObjectRefused | server/infopipe/infopipe.c:404-417 | an object string that names no object type gives the invalid-arguments reply "Invalid object type" |
| PermissionCheck.AcceptStep | server/infopipe/infopipe.c:440-488 | accepting one more well-formed entry extends both the decoded list and the answer list by exactly that entry's value and verdict |
| PermissionCheck.DecodeEntry | server/infopipe/infopipe.c:443-478 | the step-by-step structure checks of one array entry give exactly the decoding the specification function defines, error messages included |
| PermissionCheck.CheckPermissions | server/infopipe/infopipe.c:342-507 | the handler's reply is the specified response: EIO for an unidentified caller, otherwise the first argument error or the per-action permissions |
| PermissionCheck.CheckActions | server/infopipe/infopipe.c:440-500 | the loop over the array answers with the first bad entry's error or with one verdict per entry in order |
| Introspection.ChunksConcatenate | server/infopipe/infopipe.c:170-179 | the chunks successive `fread` calls return (`ReadChunk`) concatenate to the rest of the stream; every chunk but the last is full, the last is short, and there are ⌊n/4096⌋+1 of them |
| Introspection.ReadAll | server/infopipe/infopipe.c:170-180 | the chunked read loop assembles exactly the file's contents and stops after ⌊n/4096⌋+1 reads, one of them short |
| Introspection.MethodHandlerContext.constructor | server/infopipe/infopipe.c:155 | a new handler context has no cached introspection document |
| Introspection.MethodHandlerContext.Introspect | server/infopipe/infopipe.c:139-213 | a cached document is returned without reading; otherwise a missing file returns its errno and caches nothing, and a readable file is returned whole and cached |
| Introspection.IntrospectTwice | server/infopipe/infopipe.c:155-191 | after a successful first call, the second call returns the same document without reading the file, whatever the file then holds |
| MonitorMethods.HandlerFailsOnlyOnAppend | server/infopipe/infopipe.c:42-83 | each of the three handlers fails if and only if appending to its reply fails, and then with EIO; identity answers the service name and its version, ping and reload an empty method return |
| MonitorMethods.Lookup | server/infopipe/infopipe.c:85-90 | a method name finds the handler of its first entry in the table, and finds nothing if and only if no entry has that name |
| MonitorMethods.ReloadIsPing | server/infopipe/infopipe.c:75-83 | reload (`ServiceReload`) answers exactly as ping does |
| MonitorMethods.MonitorDispatch | server/infopipe/infopipe.c:85-90 | in the monitor table (`MonitorTable`), with distinct method names, each monitor name dispatches to its own handler and every other name is unknown |
| FailOverSpec.ServerStatusOf | src/providers/fail_over.c:303-326 | reading a server's name status keeps every record and name link in place; a nameless server reads as resolved and changes nothing; the expiry rule itself is stated by `ServerStatusOutcome` |
| FailOverSpec.ResolvingStaysResolving | src/providers/fail_over.c:303-326 | a name whose resolution is under way reads as resolving and nothing is reset |
| FailOverSpec.PortStatusOf | src/providers/fail_over.c:333-353 | reading a port status keeps records and links in place and returns the port status the record holds afterwards; the expiry rule itself is stated by `PortStatusOutcome` |
| FailOverSpec.ServerStatusOutcome | src/providers/fail_over.c:303-326 | a nameless server reads NAME_RESOLVED; a name reads NAME_NOT_RESOLVED exactly when it was so or was NOT_WORKING for longer than the timeout, NOT_WORKING exactly when it was so and is not stale, and other statuses as they are; the records change exactly in the stale case, and then only the entry's status and the server's own timestamp, which becomes 0 |
| FailOverSpec.PortStatusOutcome | src/providers/fail_over.c:333-353 | a port reads NEUTRAL exactly when it was so or was NOT_WORKING for longer than the timeout, NOT_WORKING exactly when it was so and is not stale, WORKING exactly when it was so; the records change exactly in the stale case, and then the port becomes NEUTRAL stamped with `now` |
| FailOverSpec.ServerStatusRefreshes | src/providers/fail_over.c:303-326 | reading a name status makes no change but expiry resets |
| FailOverSpec.PortStatusRefreshes | src/providers/fail_over.c:333-353 | reading a port status makes no change but expiry resets |
| FailOverSpec.ServiceWorks | src/providers/fail_over.c:356-373 | the working test keeps records and links in place |
| FailOverSpec.ServiceWorksOutcome | src/providers/fail_over.c:356-373 | a server is found working if and only if, after any expiry reset, neither its name nor its port is marked not working; otherwise it is dead |
| FailOverSpec.DeadIsStable | src/providers/fail_over.c:356-373 | testing a server already dead at `now` answers "not working" and changes nothing |
| FailOverSpec.DeadSurvivesOtherCheck | src/providers/fail_over.c:356-373 | testing one server never revives another dead server |
| FailOverSpec.StaleNameResetRevivesFreshPort | src/providers/fail_over.c:320-321 | as written, the name-status reset zeroes the server's own timestamp, not the name entry's; so an expired bad name makes a port that failed just now, and is not yet expired, count as working again |
| FailOverSpec.ScanStep | src/providers/fail_over.c:630-647 | one step of a list walk either stops at a working server or continues from the next one on the updated records |
| FailOverSpec.ScanKeepsDead | src/providers/fail_over.c:630-647 | walking a list never revives a dead server |
| FailOverSpec.ScanFound | src/providers/fail_over.c:630-647 | a walk (`Scan`, `ScanAt`) that finds a server stops at one that looks working, and every server it passed is dead |
| FailOverSpec.ScanNoneAt | src/providers/fail_over.c:630-647 | a walk that finds nothing leaves each server of the walked part dead |
| FailOverSpec.ScanNone | src/providers/fail_over.c:630-647 | a walk (`Scan`, `ScanAt`) that finds nothing leaves every server of the walked part dead |
| FailOverSpec.ServiceWorksRefreshes | src/providers/fail_over.c:303-373 | a working test changes nothing but expiry resets: a name entry changes only from a NOT_WORKING status older than the timeout to NAME_NOT_RESOLVED; a port changes only from NOT_WORKING to NEUTRAL, when its status is older than the timeout or its name entry was just reset; a server's timestamp is kept, becomes `now` with a port reset or 0 with a name reset; nothing else in any record changes |
| FailOverSpec.ScanRefreshes | src/providers/fail_over.c:630-647 | a walk, with every check made at the same `now`, changes nothing but expiry resets, as for a single working test |
| FailOverSpec.IndexOf | src/providers/fail_over.c:631 | the position of a server in its list, the first one holding it |
| FailOverSpec.Halves | src/providers/fail_over.c:630-647 | the servers up to and including the last tried one, followed by those after it, are exactly the service's list in order; the part up to it ends with the last tried server; with none tried, the part after is empty |
| FailOverSpec.Rotation | src/providers/fail_over.c:630-647 | the round-robin order is the list rotated by some k, `servers[k..] + servers[..k]`, and it ends with the last tried server |
| FailOverSpec.ListInParts | src/providers/fail_over.c:630-647 | both parts of the split list are lists of known servers |
| FailOverSpec.ScanBothFoundSecond | src/providers/fail_over.c:639-647 | when nothing after the last tried server works, the server found from the start looks working and everything tried before it is dead |
| FailOverSpec.ScanBothFound | src/providers/fail_over.c:630-647 | a server found by the two-part walk (`ScanBoth`) looks working and every server before it in rotation order is dead |
| FailOverSpec.ScanBothNone | src/providers/fail_over.c:630-647 | when the two-part walk finds nothing, every server of the list is dead |
| FailOverSpec.ScanBothKeepsDead | src/providers/fail_over.c:630-647 | the two-part walk never revives a dead server |
| FailOverSpec.RoundRobin | src/providers/fail_over.c:628-654 | the walk changes only the last tried server of the service and keeps records and links in place |
| FailOverSpec.FirstServer | src/providers/fail_over.c:612-655 | the selection keeps the server list, records and links, and the chosen server becomes the last tried one |
| FailOverSpec.FirstServerActive | src/providers/fail_over.c:617-623 | a working active server is chosen at once; a failing one is dropped and the round robin runs on the updated records |
| FailOverSpec.ActiveLookingWorkingIsKept | src/providers/fail_over.c:617-623 | an active server that looks working is chosen without touching any status |
| FailOverSpec.SelectionFound | src/providers/fail_over.c:612-655 | a chosen server looks working and becomes the last tried; either it is the active server, or the active server is dropped as dead and every server before the choice in rotation order is dead |
| FailOverSpec.WalkFound | src/providers/fail_over.c:628-654 | the round robin's choice looks working and every server before it in rotation order is dead |
| FailOverSpec.SelectionAfterActive | src/providers/fail_over.c:617-623 | when the active server fails it is cleared, left dead, and the choice is the round robin's |
| FailOverSpec.WalkKeepsDead | src/providers/fail_over.c:628-654 | the round robin never revives a dead server |
| FailOverSpec.SelectionFoundAfterActive | src/providers/fail_over.c:612-655 | after a failing active server, the chosen server looks working and every earlier one in rotation order, and the old active one, is dead |
| FailOverSpec.SelectionNone | src/providers/fail_over.c:648-650 | when nothing works, the active and last tried servers are cleared and every server of the service is dead |
| FailOverSpec.WalkNone | src/providers/fail_over.c:648-650 | when the round robin finds nothing, the last tried server is cleared and every server of the list is dead |
| FailOverSpec.ScanBothRefreshes | src/providers/fail_over.c:630-647 | the two-part walk changes nothing but expiry resets, as for a single working test |
| FailOverSpec.FirstServerRefreshes | src/providers/fail_over.c:612-655 | choosing a server changes nothing in the records but expiry resets, as for a single working test |
| FailOverSpec.SameShapeKeepsServers | src/providers/fail_over.c:303-353 | status reads keep the same set of servers and name links |
| FailOverSpec.UpdateKeepsShape | src/providers/fail_over.c:320-321 | rewriting one server's statuses and the name entries' statuses keeps records and links in place |
| FailOverSpec.SameShapeTransitive | src/providers/fail_over.c:630-647 | keeping records and links in place composes over a walk |
| FailOverSpec.RefreshedTransitive | src/providers/fail_over.c:630-647 | two rounds of expiry resets at the same `now` amount to one: a reset name entry reads NAME_NOT_RESOLVED and a reset port NEUTRAL, so neither is reset again, and a port reset after a name reset is accounted to the name reset |
| FailOverSrv.SrvStatusOf | src/providers/fail_over.c:259-286 | reading an SRV lookup's status changes only its status and timestamp, only when it is expired, and then zeroes the timestamp |
| FailOverSrv.SrvStatusOutcome | src/providers/fail_over.c:259-286 | an expired resolved lookup reads as expired, an expired failed lookup reads as neutral, and everything else reads unchanged |
| FailOverSrv.SrvStatusIdempotent | src/providers/fail_over.c:259-286 | reading the status twice at the same time gives the same result as reading it once |
| FailOverSrv.SrvQuery | src/providers/fail_over.c:205-217 | the query is "_srv._proto.domain", with the underscores and dots at the positions the three parts fix |
| FailOverSrv.FirstDot | src/providers/fail_over.c:205-217 | the position of the first dot, or the length when there is none |
| FailOverSrv.FirstDotAfter | src/providers/fail_over.c:205-217 | the first dot of "a.b" is the one after `a` when `a` has no dot |
| FailOverSrv.ParseLabelOf | src/providers/fail_over.c:205-217 | splitting "a.b" at its first dot gives back `a` and `b` |
| FailOverSrv.SrvQueryRoundTrip | src/providers/fail_over.c:205-217 | parsing the query gives back the service, protocol and domain when service and protocol contain no dot |
| FailOverSrv.SrvQueryInjective | src/providers/fail_over.c:205-217 | two lookups with dot-free service and protocol and the same query have the same service, protocol and domain |
| FailOverSrv.BlockStart | src/providers/fail_over.c:228-232 | the backward walk stops at the first position whose predecessor is not from the same lookup |
| FailOverSrv.BlockEnd | src/providers/fail_over.c:233-237 | the forward walk stops at the last position whose successor is not from the same lookup |
| FailOverSrv.Collapsed | src/providers/fail_over.c:227-249 | the collapsed list keeps what lies before and after the run and puts the meta server in place of the run |
| FailOverSrv.Expanded | src/providers/fail_over.c:1034-1038 | the expanded list keeps what lies before and after the meta server and puts the new servers in its place, in order |
| FailOverSrv.CollapsedMembers | src/providers/fail_over.c:227-249 | after collapsing, the list holds the meta server and exactly the servers outside the run |
| FailOverSrv.CollapsedDistinct | src/providers/fail_over.c:227-249 | collapsing a duplicate-free list that lacks the meta server gives a duplicate-free list |
| FailOverSrv.ExpandedMembers | src/providers/fail_over.c:1034-1038 | after expanding, the list holds the new servers and exactly the old ones other than the meta server |
| FailOverSrv.ExpandedDistinct | src/providers/fail_over.c:1034-1038 | expanding a duplicate-free list with fresh, duplicate-free servers gives a duplicate-free list |
| FailOverSrv.BlockStartUnique | src/providers/fail_over.c:228-232 | the run start is the only position with the two properties the backward walk establishes |
| FailOverSrv.BlockEndUnique | src/providers/fail_over.c:233-237 | the run end is the only position with the two properties the forward walk establishes |
| FailOverSrv.CollapseUndoesExpansion | src/providers/fail_over.c:220-256 | collapsing, from any server an answer produced, gives back exactly the list that held the meta server before the answer was spliced in |
| FailOverSrv.ExpandedRunStart | src/providers/fail_over.c:228-232 | from any spliced-in server, the backward walk stops where the meta server stood |
| FailOverSrv.ExpandedRunEnd | src/providers/fail_over.c:233-237 | from any spliced-in server, the forward walk stops at the last spliced-in server |
| FailOverSrv.Kept | src/providers/fail_over.c:1009-1032 | the answer's records that are kept are at most as many as the answer holds |
| FailOverSrv.KeptStep | src/providers/fail_over.c:1009-1032 | each record is kept after the earlier ones if and only if no server of the service list already has its port |
| FailOverSrv.KeptNext | src/providers/fail_over.c:1009-1032 | the loop's running list of kept records grows by the current record exactly when its port is unused |
| FailOverSrv.KeptMembers | src/providers/fail_over.c:1009-1032 | a record is kept if and only if it is in the answer and its port is not used in the service list |
| FailOverSrv.UsedPortDropsNewHost | src/providers/fail_over.c:1011-1017 | as written, the duplicate test compares ports only, so a record for a new host on a port some listed server uses is dropped |
| FailOverSrv.RepeatedReplyKeptTwice | src/providers/fail_over.c:1011-1017 | the duplicate test looks only at the service list, not at records kept earlier, so a repeated record is kept twice |
| FailOverSrv.FindCommon | src/providers/fail_over.c:439-454 | the name entry found is the first that matches ignoring case; nothing is found only when no entry matches |
| FailOverSrv.FindCommonStable | src/providers/fail_over.c:439-454 | adding entries never changes which entry an already known name finds |
| FailOverSrv.WithCommon | src/providers/fail_over.c:565-577 | afterwards the name finds the returned entry; an existing entry is reused and otherwise a fresh unresolved entry is appended |
| FailOverSrv.FindCommonCaseless | src/providers/fail_over.c:439-454 | names equal ignoring case find the same entry |
| FailOverSrv.SharedEntry | src/providers/fail_over.c:565-577 | servers whose names are equal ignoring case share one entry: the second gets the first one's entry and no entry is added |
| FailOverSrv.WithCommonKeepsNamesDistinct | src/providers/fail_over.c:565-577 | when no two entries have names equal ignoring case, attaching a name keeps it so |
| FailOverSrv.CommonsFor | src/providers/fail_over.c:1019-1025 | creating the servers of an answer only appends name entries |
| FailOverSrv.CommonsForFinds | src/providers/fail_over.c:1019-1025 | after the servers of an answer are created, every host of the answer has a name entry |
| FailOver.NewServiceKeepsValid | src/providers/fail_over.c:383-420 | registering a new name keeps the registry, the records and every service list valid |
| FailOver.AddRecordKeepsValid | src/providers/fail_over.c:550-580 | adding a record under the next handle keeps the records and service lists valid |
| FailOver.AppendServerKeepsValid | src/providers/fail_over.c:583-609 | appending a known, unlisted server to a service keeps the lists valid |
| FailOver.StatusChangeKeepsValid | src/providers/fail_over.c:1076-1109 | changing only statuses and timestamps keeps the records and lists valid |
| FailOver.ActivateKeepsValid | src/providers/fail_over.c:1105-1108 | making a listed server active keeps the service valid |
| FailOver.ServiceUpdateKeepsValid | src/providers/fail_over.c:612-655 | storing a valid service keeps every service valid |
| FailOver.CollapsedServiceOk | src/providers/fail_over.c:220-256 | collapsing keeps the service valid: the list has no duplicates and the active and last tried servers stay listed |
| FailOver.CollapseService | src/providers/fail_over.c:220-256 | after collapsing, the meta server is listed, the collapsed server is no longer active, and a last tried collapsed server becomes the meta server |
| FailOver.FreshDistinct | src/providers/fail_over.c:1019-1027 | the handles given to the servers of one answer are all distinct |
| FailOver.LinkKeepsValid | src/providers/fail_over.c:1025 | linking a server to an SRV lookup keeps everything valid |
| FailOver.PortUsedSame | src/providers/fail_over.c:1011-1017 | adding records does not change which ports the old service list uses |
| FailOver.AttachKeepsFinds | src/providers/fail_over.c:1019-1025 | attaching a name entry for one host never changes the entry another host finds |
| FailOver.ExpandedServiceOk | src/providers/fail_over.c:1034-1041 | splicing fresh servers in place of the meta server keeps the service valid, and a last tried meta server hands over to the first new server |
| FailOver.KeysAddedStep | src/providers/fail_over.c:1019-1027 | one more fresh record extends the set of added handles by one |
| FailOver.RecordsAddedStep | src/providers/fail_over.c:1019-1027 | one more created server extends the created records by exactly that record |
| FailOver.RepliesAddedStep | src/providers/fail_over.c:1019-1027 | one more kept record extends the created servers and name entries accordingly |
| FailOver.FailOverContext.constructor | src/providers/fail_over.c:124-146 | a new context is valid, holds the options and has no services, servers, name entries or SRV lookups |
| FailOver.FailOverContext.GetService | src/providers/fail_over.c:423-436 | EOK if and only if the name is registered, otherwise ENOENT |
| FailOver.FailOverContext.NewService | src/providers/fail_over.c:383-420 | a registered name gives EEXIST and changes nothing; a new one is added at the head of the registry with an empty list |
| FailOver.FailOverContext.GetServerCommon | src/providers/fail_over.c:439-454 | EOK with the entry's index if and only if some entry matches the name ignoring case, and ENOENT otherwise |
| FailOver.FailOverContext.CreateServerCommon | src/providers/fail_over.c:471-497 | a fresh, unresolved entry for the name is appended and nothing else changes |
| FailOver.FailOverContext.AttachCommon | src/providers/fail_over.c:565-577 | the name's entry is reused or created, and the old entries are untouched |
| FailOver.FailOverContext.CreateFoServer | src/providers/fail_over.c:550-580 | a new record under a fresh handle with a neutral port and, if named, the name's entry; no list changes |
| FailOver.FailOverContext.AddServer | src/providers/fail_over.c:583-609 | an existing server with the same name (ignoring case), port and caller data gives EEXIST and changes nothing; otherwise a new server is appended to the service list |
| FailOver.FailOverContext.CreateMetaServer | src/providers/fail_over.c:520-545 | a nameless meta server and its neutral SRV data are created under one fresh handle |
| FailOver.FailOverContext.AddSrvServer | src/providers/fail_over.c:500-547 | an existing lookup with the same domain and protocol (ignoring case) and caller data gives EEXIST; otherwise a new meta server is appended to the service list |
| FailOver.FailOverContext.GetServerStatus | src/providers/fail_over.c:303-326 | the status read and the new records are those of the status function; nothing else changes |
| FailOver.FailOverContext.GetPortStatus | src/providers/fail_over.c:333-353 | the port status read and the new records are those of the status function |
| FailOver.FailOverContext.ServiceWorks | src/providers/fail_over.c:356-373 | the working test and the new records are those of the specification function |
| FailOver.FailOverContext.GetSrvDataStatus | src/providers/fail_over.c:259-286 | the lookup's data becomes its expiry-adjusted data and the status read is its status |
| FailOver.FailOverContext.SetSrvDataStatus | src/providers/fail_over.c:289-296 | only the lookup's status and timestamp change, to the given status and `now` |
| FailOver.FailOverContext.SetServerCommonStatus | src/providers/fail_over.c:1076-1084 | only the entry's status and timestamp change |
| FailOver.FailOverContext.SetServerStatus | src/providers/fail_over.c:1087-1095 | a named server's entry gets the status and `now`; a nameless server changes nothing |
| FailOver.FailOverContext.SetPortStatus | src/providers/fail_over.c:1098-1109 | the port gets the status and `now`; a working port also marks its name working and makes the server active, so it then looks working |
| FailOver.FailOverContext.MarkPort | src/providers/fail_over.c:1102-1103 | only the server's port status and timestamp change, to the given status and `now`, and the context stays valid |
| FailOver.FailOverContext.MakeActive | src/providers/fail_over.c:1106 | only the server's service changes, and only in its active server, which becomes this server; the context stays valid |
| FailOver.FailOverContext.GetFirstServerEntity | src/providers/fail_over.c:612-655 | the chosen server, new records and service are those of the selection function; EOK if and only if a server was chosen, otherwise ENOENT |
| FailOver.FailOverContext.WalkServers | src/providers/fail_over.c:628-654 | the walk's choice, records and service are those of the round-robin function |
| FailOver.FailOverContext.ScanHalves | src/providers/fail_over.c:630-647 | the two loops together give the two-part walk's result |
| FailOver.FailOverContext.ScanList | src/providers/fail_over.c:630-647 | one list loop gives the walk function's result, and a found server is in the walked part |
| FailOver.FailOverContext.CheckAt | src/providers/fail_over.c:631-634 | one loop step matches one step of the walk function |
| FailOver.FailOverContext.FindRun | src/providers/fail_over.c:227-237 | the two pointer walks find the start and end of the run of servers from the same lookup |
| FailOver.FailOverContext.CollapseSrvLookup | src/providers/fail_over.c:220-256 | the lookup becomes neutral with a zero timestamp; a produced server's run is replaced by the meta server, with active and last tried adjusted |
| FailOver.FailOverContext.ResolveSrvSend | src/providers/fail_over.c:911-975 | by expiry-adjusted lookup status: expired collapses and queries, neutral queries, not resolved fails with EIO, resolved returns the server at once |
| FailOver.FailOverContext.PortInUse | src/providers/fail_over.c:1011-1017 | the loop reports whether any listed server has the port |
| FailOver.FailOverContext.CreateSrvServer | src/providers/fail_over.c:1019-1025 | a new record for the answer's host and port, linked to the lookup's meta server |
| FailOver.FailOverContext.AddSrvReplies | src/providers/fail_over.c:1009-1032 | exactly the kept records become new servers, in answer order, under fresh handles |
| FailOver.FailOverContext.AddReply | src/providers/fail_over.c:1009-1031 | a record whose port is used is skipped; otherwise one server is created for it |
| FailOver.FailOverContext.SpliceServers | src/providers/fail_over.c:1034-1041 | the new servers replace the meta server in the list, and a last tried meta server hands over to the first of them |
| FailOver.FailOverContext.ResolveSrvDone | src/providers/fail_over.c:978-1056 | a failed lookup marks the meta port not working and the lookup not resolved; otherwise the kept servers are created; if none are kept the result is EIO and the lookup is not resolved; otherwise they are spliced in, the lookup is resolved and the first new server is returned |
| FailOver.FailOverContext.AcceptAnswer | src/providers/fail_over.c:1009-1056 | the answer's kept records are created, spliced in and the lookup is resolved, or EIO with the lookup not resolved when none are kept |
| FailOver.FailOverContext.ResolveServiceServer | src/providers/fail_over.c:794-829 | an unresolved name starts a lookup of the entry's name and becomes resolving; a name being resolved waits; any other status is ready |

## Left out

- The tevent request machinery is not modelled: `fo_resolve_service_send`, `_cont`, `_done` and `_recv`, `set_lookup_hook`, `resolve_srv_recv` and the request destructors. Their decisions are modelled instead, as `ResolveSrvSend`, `ResolveSrvDone` and `ResolveServiceServer`.
- Calls into the resolver library (`resolv_gethostbyname_send`, `resolv_getsrv_send`) are not modelled. A lookup's outcome is a parameter.
- `resolv_sort_srv_reply` is not modelled. The answer is taken in the order the sort would return it, and a failed sort is treated like a failed lookup.
- Memory allocation is not modelled: talloc, every ENOMEM path, and the destructors `service_destructor` and `server_common_destructor`. In the model, name entries are never freed, and servers dropped by a collapse stay as unreferenced records. In the source, `server_common_destructor` removes a freed entry from the list. So once a collapse has freed the last servers using a host's entry, a later SRV answer naming that host gets a fresh NAME_NOT_RESOLVED entry, and the host is looked up again. The model instead reuses the old entry and keeps its old status.
- `fo_context_init` is modelled only for the two timeouts it copies. The options struct is a parameter.
- The `str_*` status names and all debug logging are not modelled.
- The getters `fo_get_server_user_data`, `fo_get_server_port`, `fo_get_server_name` and `fo_get_server_hostent` are field reads, so they are left out. Host entries and `family_order` are not modelled.
- The clock (`gettimeofday`) is the parameter `now`.
- `util/dlinklist.h` is not part of this model. Lists are sequences, and list links are positions in them.
- `infp_monitor_init`, `infp_process_init`, `main` and the pac responder are process setup, so they are left out.
- D-Bus message construction is not modelled. Failures to append reply arguments are a boolean `appendOk`.
- The method names, the service name and the version come from headers that are not part of this model, so they are parameters.
- `fopen` and `fread` are modelled as a file that is either missing (with its errno) or holds a string. A NUL byte inside the XML, which would truncate the C string, is not modelled.
- FailOver.FailOverContext.SetPortStatus: requires that a server marked working be listed in its own service, so that the active server is always a listed one.
- FailOver.FailOverContext.CollapseSrvLookup: requires two things. The active and last tried servers must be the collapsed server or come from outside the lookup. The meta server must not be listed while a server it produced is.
- FailOver.FailOverContext.ResolveSrvSend: carries the same requirement as `CollapseSrvLookup`, needed only when the lookup has expired.
- FailOver.FailOverContext.ResolveSrvDone: on an answer, requires that the meta server be listed in its service, that it not be the active server, and that the service list hold known servers only. A failed lookup requires none of these.
- FailOver.FailOverContext.AcceptAnswer: requires that the meta server be listed in its service, that it not be the active server, and that the service list hold known servers only.
- FailOver.FailOverContext.AddSrvReplies: requires that the service list hold known servers only.
- PermissionCheck.ExampleActions: covers decoding only. The reply to such a request follows from `AllOrNothing`.
