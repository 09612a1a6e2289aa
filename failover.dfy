/** The fail-over context (`fo_ctx`) as a class: the registry of services,
    the server records and their list membership, the shared name entries
    and the SRV lookups, with the operations that add to them, read and
    set their statuses, pick a server and rewrite a service's list around
    an SRV lookup. */
module FailOver {
  import opened Common
  import opened FailOverSpec
  import opened FailOverSrv

  /** Service names are unique and the order list holds exactly the
      registered names. */
  predicate RegistryOk(services: map<string, Service>, order: seq<string>)
  {
    Distinct(order) &&
    (forall i :: 0 <= i < |order| ==> order[i] in services) &&
    (forall n :: n in services ==> n in order)
  }

  /** Every server record has an id below the next one to hand out, a
      valid name entry, a registered service and, when it takes part in an
      SRV lookup, that lookup's data; every lookup belongs to a record. */
  predicate StoreOk(servers: map<ServerId, Server>, commons: seq<ServerCommon>, srvData: map<ServerId, SrvData>,
                    services: map<string, Service>, nextId: nat)
  {
    (forall id :: id in servers ==>
      id < nextId && HeapServer(Heap(servers, commons), id) && servers[id].service in services &&
      (servers[id].srv.Some? ==> servers[id].srv.value in srvData)) &&
    (forall m :: m in srvData ==> m in servers)
  }

  predicate ServicesOk(services: map<string, Service>, h: Heap)
  {
    forall n :: n in services ==> ServiceOk(services[n], h)
  }

  /** A server of the list is the one `fo_add_server` would add again:
      same port, same caller data, and both nameless or named alike
      ignoring case. */
  predicate SameServer(h: Heap, id: ServerId, name: Option<string>, port: int, userData: int)
    requires HeapServer(h, id)
  {
    var s := h.servers[id];
    s.port == port && s.userData == userData &&
    ((name.None? && s.common.None?) ||
     (name.Some? && s.common.Some? && EqualsIgnoreCase(name.value, h.commons[s.common.value].name)))
  }

  predicate HasServer(h: Heap, list: seq<ServerId>, name: Option<string>, port: int, userData: int)
    requires ListIn(h, list)
  {
    exists k :: 0 <= k < |list| && SameServer(h, list[k], name, port, userData)
  }

  /** A server of the list is an SRV lookup `fo_add_srv_server` would add
      again: same caller data, and domain and protocol alike ignoring
      case. */
  predicate SameLookup(servers: map<ServerId, Server>, srvData: map<ServerId, SrvData>, id: ServerId,
                       domain: string, proto: string, userData: int)
    requires id in servers && (servers[id].srv.Some? ==> servers[id].srv.value in srvData)
  {
    var s := servers[id];
    s.userData == userData && s.srv.Some? &&
    EqualsIgnoreCase(srvData[s.srv.value].domain, domain) && EqualsIgnoreCase(srvData[s.srv.value].proto, proto)
  }

  predicate HasLookup(servers: map<ServerId, Server>, srvData: map<ServerId, SrvData>, list: seq<ServerId>,
                      domain: string, proto: string, userData: int)
    requires forall k :: 0 <= k < |list| ==> list[k] in servers && (servers[list[k]].srv.Some? ==> servers[list[k]].srv.value in srvData)
  {
    exists k :: 0 <= k < |list| && SameLookup(servers, srvData, list[k], domain, proto, userData)
  }

  /** Registering a new name keeps the registry, the records and every
      service's list valid. */
  lemma NewServiceKeepsValid(services: map<string, Service>, order: seq<string>, servers: map<ServerId, Server>,
                             commons: seq<ServerCommon>, srvData: map<ServerId, SrvData>, nextId: nat, name: string)
    requires RegistryOk(services, order) && StoreOk(servers, commons, srvData, services, nextId)
    requires ServicesOk(services, Heap(servers, commons)) && name !in services
    ensures var services' := services[name := Service(None, None, [])];
      RegistryOk(services', [name] + order) && StoreOk(servers, commons, srvData, services', nextId) &&
      ServicesOk(services', Heap(servers, commons))
  {
    var services' := services[name := Service(None, None, [])];
    var order' := [name] + order;
    forall i, j | 0 <= i < j < |order'|
      ensures order'[i] != order'[j]
    {
      if i > 0 {
        assert order'[i] == order[i - 1];
      }
      assert order'[j] == order[j - 1];
    }
    forall n | n in services'
      ensures n in order'
    {
      if n != name {
        var k :| 0 <= k < |order| && order[k] == n;
        assert order'[k + 1] == n;
      }
    }
  }

  /** Adding a record for a new handle, with a valid name entry in a
      possibly longer common list, keeps the records and every service's
      list valid. */
  lemma AddRecordKeepsValid(services: map<string, Service>, servers: map<ServerId, Server>, commons: seq<ServerCommon>,
                            srvData: map<ServerId, SrvData>, nextId: nat, s: Server, commons': seq<ServerCommon>,
                            srvData': map<ServerId, SrvData>)
    requires StoreOk(servers, commons, srvData, services, nextId) && ServicesOk(services, Heap(servers, commons))
    requires |commons| <= |commons'| && commons'[..|commons|] == commons
    requires srvData.Keys <= srvData'.Keys <= srvData.Keys + {nextId}
    requires s.service in services && (s.common.Some? ==> s.common.value < |commons'|)
    requires s.srv.Some? ==> s.srv.value in srvData'
    ensures var servers' := servers[nextId := s];
      StoreOk(servers', commons', srvData', services, nextId + 1) && ServicesOk(services, Heap(servers', commons'))
  {
    var servers' := servers[nextId := s];
    var h, h' := Heap(servers, commons), Heap(servers', commons');
    assert forall id :: HeapServer(h, id) ==> HeapServer(h', id);
    forall n | n in services
      ensures ServiceOk(services[n], h')
    {
      var svc := services[n];
      assert forall i :: 0 <= i < |svc.servers| ==> HeapServer(h, svc.servers[i]);
    }
  }

  /** Appending a listed-nowhere record to one service's list keeps the
      records and every service's list valid. */
  lemma AppendServerKeepsValid(services: map<string, Service>, servers: map<ServerId, Server>, commons: seq<ServerCommon>,
                               srvData: map<ServerId, SrvData>, nextId: nat, name: string, id: ServerId)
    requires StoreOk(servers, commons, srvData, services, nextId) && ServicesOk(services, Heap(servers, commons))
    requires name in services && HeapServer(Heap(servers, commons), id) && id !in services[name].servers
    ensures var svc := services[name];
      var services' := services[name := svc.(servers := svc.servers + [id])];
      StoreOk(servers, commons, srvData, services', nextId) && ServicesOk(services', Heap(servers, commons))
  {
    var svc := services[name];
    var list := svc.servers + [id];
    forall i, j | 0 <= i < j < |list|
      ensures list[i] != list[j]
    {
      if j < |svc.servers| {
        assert list[i] == svc.servers[i] && list[j] == svc.servers[j];
      } else {
        assert list[i] == svc.servers[i];
      }
    }
    assert forall i :: 0 <= i < |svc.servers| ==> list[i] == svc.servers[i];
  }

  /** Records that differ only in statuses and timestamps. */
  predicate StatusOnly(servers: map<ServerId, Server>, servers': map<ServerId, Server>)
  {
    servers'.Keys == servers.Keys &&
    forall id :: id in servers ==>
      servers'[id].common == servers[id].common && servers'[id].srv == servers[id].srv &&
      servers'[id].service == servers[id].service
  }

  /** Changing statuses and timestamps keeps the records and every
      service's list valid. */
  lemma StatusChangeKeepsValid(services: map<string, Service>, servers: map<ServerId, Server>, commons: seq<ServerCommon>,
                               srvData: map<ServerId, SrvData>, nextId: nat, servers': map<ServerId, Server>,
                               commons': seq<ServerCommon>)
    requires StoreOk(servers, commons, srvData, services, nextId) && ServicesOk(services, Heap(servers, commons))
    requires StatusOnly(servers, servers') && |commons'| == |commons|
    ensures StoreOk(servers', commons', srvData, services, nextId) && ServicesOk(services, Heap(servers', commons'))
  {
    var h, h' := Heap(servers, commons), Heap(servers', commons');
    assert forall id :: HeapServer(h, id) ==> HeapServer(h', id);
    forall n | n in services
      ensures ServiceOk(services[n], h')
    {
      var svc := services[n];
      assert forall i :: 0 <= i < |svc.servers| ==> HeapServer(h, svc.servers[i]);
    }
  }

  /** Making a listed server its service's active one keeps the registry
      and the lists valid. */
  lemma ActivateKeepsValid(services: map<string, Service>, h: Heap, svc: string, id: ServerId)
    requires ServicesOk(services, h) && svc in services
    requires id in services[svc].servers
    ensures ServicesOk(services[svc := services[svc].(active := Some(id))], h)
  {
    var s := services[svc];
    assert ListIn(h, s.servers);
    var k :| 0 <= k < |s.servers| && s.servers[k] == id;
    assert HeapServer(h, s.servers[k]);
  }

  /** Changing SRV lookup data without adding or removing lookups keeps
      the records valid. */
  lemma SrvDataChangeKeepsValid(services: map<string, Service>, servers: map<ServerId, Server>, commons: seq<ServerCommon>,
                                srvData: map<ServerId, SrvData>, nextId: nat, srvData': map<ServerId, SrvData>)
    requires StoreOk(servers, commons, srvData, services, nextId)
    requires srvData'.Keys == srvData.Keys
    ensures StoreOk(servers, commons, srvData', services, nextId)
  {
  }

  /** Replacing one service by a valid one keeps the lists valid. */
  lemma ServiceUpdateKeepsValid(services: map<string, Service>, h: Heap, name: string, svc: Service)
    requires ServicesOk(services, h) && ServiceOk(svc, h)
    ensures ServicesOk(services[name := svc], h)
  {
  }

  /** A second update of the same key replaces the first. */
  lemma UpdateTwice<K, V>(m: map<K, V>, k: K, x: V, y: V)
    ensures m[k := x][k := y] == m[k := y]
  {
  }

  /** A listed server that no server of the run shares a lookup with
      stays listed after collapsing the run. */
  lemma StaysAfterCollapse(servers: map<ServerId, Server>, list: seq<ServerId>, lo: nat, hi: nat, meta: ServerId, x: ServerId)
    requires lo <= hi < |list| && x in list && !SharesSrv(servers, x, meta)
    requires forall k :: lo <= k <= hi ==> SharesSrv(servers, list[k], meta)
    ensures x in Collapsed(list, lo, hi, meta)
  {
    CollapsedMembers(list, lo, hi, meta);
    var k :| 0 <= k < |list| && list[k] == x;
    if k < lo {
      assert list[..lo][k] == x;
    } else {
      assert list[hi + 1..][k - hi - 1] == x;
    }
  }

  /** Collapsing the run around server `id` onto its meta server keeps the
      service valid, when the active and last tried servers are `id`
      itself or outside the lookup. */
  lemma CollapsedServiceOk(svc: Service, h: Heap, id: ServerId, meta: ServerId, p: nat, lo: nat, hi: nat)
    requires ServiceOk(svc, h) && HeapServer(h, meta) && meta !in svc.servers
    requires lo <= p <= hi < |svc.servers| && svc.servers[p] == id
    requires forall k :: lo <= k <= hi ==> SharesSrv(h.servers, svc.servers[k], meta)
    requires svc.active.Some? && svc.active != Some(id) ==> !SharesSrv(h.servers, svc.active.value, meta)
    requires svc.lastTried.Some? && svc.lastTried != Some(id) ==> !SharesSrv(h.servers, svc.lastTried.value, meta)
    ensures ServiceOk(Service(if svc.active == Some(id) then None else svc.active,
                              if svc.lastTried == Some(id) then Some(meta) else svc.lastTried,
                              Collapsed(svc.servers, lo, hi, meta)), h)
  {
    var list := svc.servers;
    var c := Collapsed(list, lo, hi, meta);
    CollapsedDistinct(list, lo, hi, meta);
    CollapsedMembers(list, lo, hi, meta);
    forall k | 0 <= k < |c|
      ensures HeapServer(h, c[k])
    {
      if c[k] != meta {
        assert c[k] in list;
        var j :| 0 <= j < |list| && list[j] == c[k];
      }
    }
    if svc.active.Some? && svc.active != Some(id) {
      StaysAfterCollapse(h.servers, list, lo, hi, meta, svc.active.value);
    }
    if svc.lastTried.Some? && svc.lastTried != Some(id) {
      StaysAfterCollapse(h.servers, list, lo, hi, meta, svc.lastTried.value);
    }
  }

  /** The service after `collapse_srv_lookup` on server `id` of lookup
      `meta`. */
  function CollapseService(servers: map<ServerId, Server>, svc: Service, id: ServerId, meta: ServerId): (r: Service)
    requires id in svc.servers
    ensures meta in r.servers
    ensures r.active.Some? ==> r.active != Some(id) && r.active == svc.active
    ensures svc.lastTried == Some(id) ==> r.lastTried == Some(meta)
  {
    var p := IndexOf(svc.servers, id);
    var lo, hi := BlockStart(servers, svc.servers, p, meta), BlockEnd(servers, svc.servers, p, meta);
    CollapsedMembers(svc.servers, lo, hi, meta);
    Service(if svc.active == Some(id) then None else svc.active,
            if svc.lastTried == Some(id) then Some(meta) else svc.lastTried,
            Collapsed(svc.servers, lo, hi, meta))
  }

  /** What `resolve_srv_send` leads to: a query to send on behalf of a
      server, an error, or a server whose lookup is already resolved. */
  datatype SrvStep = SendQuery(meta: ServerId, query: string) | SrvFailed(error: int) | SrvDone(server: ServerId)

  /** The ids handed out to `count` new records, starting at `from`. */
  function Fresh(from: nat, count: nat): (r: seq<ServerId>)
    ensures |r| == count && forall i :: 0 <= i < count ==> r[i] == from + i
  {
    seq(count, i requires 0 <= i => from + i)
  }

  /** Consecutive fresh ids are all different. */
  lemma FreshDistinct(from: nat, count: nat)
    ensures Distinct(Fresh(from, count))
  {
  }

  /** A server moved into a lookup's run keeps the records valid, the
      lookup being known. */
  lemma LinkKeepsValid(services: map<string, Service>, servers: map<ServerId, Server>, commons: seq<ServerCommon>,
                       srvData: map<ServerId, SrvData>, nextId: nat, id: ServerId, meta: ServerId)
    requires StoreOk(servers, commons, srvData, services, nextId) && ServicesOk(services, Heap(servers, commons))
    requires id in servers && meta in srvData
    ensures var servers' := servers[id := servers[id].(srv := Some(meta))];
      StoreOk(servers', commons, srvData, services, nextId) && ServicesOk(services, Heap(servers', commons))
  {
    var servers' := servers[id := servers[id].(srv := Some(meta))];
    var h, h' := Heap(servers, commons), Heap(servers', commons);
    UpdateKeepsShape(h, id, servers[id].(srv := Some(meta)), commons);
    SameShapeKeepsServers(h, h');
    forall n | n in services
      ensures ServiceOk(services[n], h')
    {
      var svc := services[n];
      assert forall k :: 0 <= k < |svc.servers| ==> HeapServer(h, svc.servers[k]);
    }
  }

  /** The records agree on the listed servers, so the same ports are in use. */
  lemma PortUsedSame(servers: map<ServerId, Server>, servers': map<ServerId, Server>, list: seq<ServerId>, port: int)
    requires ListKnown(servers, list)
    requires forall x :: x in servers ==> x in servers' && servers'[x] == servers[x]
    ensures ListKnown(servers', list) && PortUsed(servers', list, port) == PortUsed(servers, list, port)
  {
    if PortUsed(servers, list, port) {
      var k :| 0 <= k < |list| && servers[list[k]].port == port;
      assert servers'[list[k]].port == port;
    }
  }

  /** Attaching one more name does not move the entry any earlier name
      was found at. */
  lemma AttachKeepsFinds(commons: seq<ServerCommon>, kept: seq<SrvReply>, host: string)
    requires forall i :: 0 <= i < |kept| ==> FindCommon(commons, kept[i].host).Some?
    ensures forall i :: 0 <= i < |kept| ==>
      FindCommon(WithCommon(commons, host).0, kept[i].host) == FindCommon(commons, kept[i].host)
  {
    var after := WithCommon(commons, host).0;
    assert after == commons + after[|commons|..];
    forall i | 0 <= i < |kept|
      ensures FindCommon(after, kept[i].host) == FindCommon(commons, kept[i].host)
    {
      FindCommonStable(commons, after[|commons|..], kept[i].host);
    }
  }

  /** A listed server other than the one at `p` stays listed after
      expanding at `p`. */
  lemma StaysAfterExpand(list: seq<ServerId>, p: nat, news: seq<ServerId>, x: ServerId)
    requires p < |list| && x in list && x != list[p]
    ensures x in Expanded(list, p, news)
  {
    ExpandedMembers(list, p, news);
    var k :| 0 <= k < |list| && list[k] == x;
    if k < p {
      assert list[..p][k] == x;
    } else {
      assert list[p + 1..][k - p - 1] == x;
    }
  }

  /** Replacing the meta server at `p` by fresh valid servers keeps the
      service valid, the first of them taking over the last tried mark. */
  lemma ExpandedServiceOk(svc: Service, h: Heap, meta: ServerId, p: nat, news: seq<ServerId>)
    requires ServiceOk(svc, h) && p < |svc.servers| && svc.servers[p] == meta && svc.active != Some(meta)
    requires |news| > 0 && Distinct(news) && ListIn(h, news)
    requires forall x :: x in news ==> x !in svc.servers
    ensures ServiceOk(svc.(servers := Expanded(svc.servers, p, news),
                           lastTried := if svc.lastTried == Some(meta) then Some(news[0]) else svc.lastTried), h)
  {
    var list := svc.servers;
    var e := Expanded(list, p, news);
    ExpandedDistinct(list, p, news);
    ExpandedMembers(list, p, news);
    forall k | 0 <= k < |e|
      ensures HeapServer(h, e[k])
    {
      if e[k] in news {
        var j :| 0 <= j < |news| && news[j] == e[k];
      } else {
        assert e[k] in list;
        var j :| 0 <= j < |list| && list[j] == e[k];
      }
    }
    if svc.active.Some? {
      StaysAfterExpand(list, p, news, svc.active.value);
    }
    if svc.lastTried.Some? && svc.lastTried != Some(meta) {
      StaysAfterExpand(list, p, news, svc.lastTried.value);
    }
  }

  /** The outcome of the SRV query `resolve_srv_send` started: an error
      from the resolver, or the answer's records. */
  datatype SrvLookup = LookupFailed(error: int) | Answer(replies: seq<SrvReply>)

  /** The records after one new server per kept SRV record was made:
      fresh ids in record order, the old records untouched, each new one
      with the caller data, the record's port, a neutral port status, the
      lookup `meta` and the name entry of the record's host. */
  ghost predicate RepliesAdded(servers0: map<ServerId, Server>, commons0: seq<ServerCommon>, nextId0: nat,
                               servers: map<ServerId, Server>, commons: seq<ServerCommon>, nextId: nat,
                               kept: seq<SrvReply>, news: seq<ServerId>, service: string, meta: ServerId, userData: int)
  {
    news == Fresh(nextId0, |kept|) && nextId == nextId0 + |kept| &&
    commons == CommonsFor(commons0, kept) &&
    KeysAdded(servers0, servers, news) &&
    RecordsAdded(servers, commons, kept, news, service, meta, userData)
  }

  /** The record ids are the old ones and the new ones, the old records
      being untouched. */
  ghost predicate KeysAdded(servers0: map<ServerId, Server>, servers: map<ServerId, Server>, news: seq<ServerId>)
  {
    (forall x :: x in servers <==> x in servers0 || x in news) &&
    (forall x :: x in servers0 ==> servers[x] == servers0[x])
  }

  /** Each new record is the one made from its SRV record. */
  ghost predicate RecordsAdded(servers: map<ServerId, Server>, commons: seq<ServerCommon>, kept: seq<SrvReply>,
                               news: seq<ServerId>, service: string, meta: ServerId, userData: int)
  {
    |news| == |kept| &&
    (forall i :: 0 <= i < |kept| ==> FindCommon(commons, kept[i].host).Some?) &&
    (forall i :: 0 <= i < |news| ==>
      (news[i] in servers &&
       servers[news[i]] == Server(userData, kept[i].port, PortNeutral, Some(meta), service, 0, FindCommon(commons, kept[i].host))))
  }

  lemma KeysAddedStep(servers0: map<ServerId, Server>, servers: map<ServerId, Server>, news: seq<ServerId>,
                      id: ServerId, s: Server)
    requires KeysAdded(servers0, servers, news) && id !in servers0
    ensures KeysAdded(servers0, servers[id := s], news + [id])
  {
    forall x
      ensures x in servers[id := s] <==> x in servers0 || x in news + [id]
    {
      assert x in news + [id] <==> x in news || x == id;
    }
  }

  lemma RecordsAddedStep(servers: map<ServerId, Server>, commons: seq<ServerCommon>, kept: seq<SrvReply>,
                         news: seq<ServerId>, service: string, meta: ServerId, userData: int,
                         reply: SrvReply, id: ServerId)
    requires RecordsAdded(servers, commons, kept, news, service, meta, userData) && id !in news
    ensures RecordsAdded(servers[id := Server(userData, reply.port, PortNeutral, Some(meta), service, 0,
                                              Some(WithCommon(commons, reply.host).1))],
                         WithCommon(commons, reply.host).0, kept + [reply], news + [id], service, meta, userData)
  {
    var commons' := WithCommon(commons, reply.host).0;
    var servers' := servers[id := Server(userData, reply.port, PortNeutral, Some(meta), service, 0, Some(WithCommon(commons, reply.host).1))];
    var kept', news' := kept + [reply], news + [id];
    AttachKeepsFinds(commons, kept, reply.host);
    forall i | 0 <= i < |kept'|
      ensures FindCommon(commons', kept'[i].host).Some?
    {
      if i < |kept| {
        assert kept'[i] == kept[i];
      }
    }
    forall i | 0 <= i < |news'|
      ensures news'[i] in servers' &&
        servers'[news'[i]] == Server(userData, kept'[i].port, PortNeutral, Some(meta), service, 0, FindCommon(commons', kept'[i].host))
    {
      if i < |news| {
        assert news'[i] == news[i] && kept'[i] == kept[i];
      }
    }
  }

  /** One more kept record keeps the description above. */
  lemma RepliesAddedStep(servers0: map<ServerId, Server>, commons0: seq<ServerCommon>, nextId0: nat,
                         servers: map<ServerId, Server>, commons: seq<ServerCommon>, nextId: nat,
                         kept: seq<SrvReply>, news: seq<ServerId>, service: string, meta: ServerId, userData: int,
                         reply: SrvReply, servers': map<ServerId, Server>, commons': seq<ServerCommon>)
    requires forall x :: x in servers0 ==> x < nextId0
    requires RepliesAdded(servers0, commons0, nextId0, servers, commons, nextId, kept, news, service, meta, userData)
    requires commons' == WithCommon(commons, reply.host).0
    requires servers' == servers[nextId := Server(userData, reply.port, PortNeutral, Some(meta), service, 0,
                                                  Some(WithCommon(commons, reply.host).1))]
    ensures RepliesAdded(servers0, commons0, nextId0, servers', commons', nextId + 1, kept + [reply], news + [nextId],
                         service, meta, userData)
  {
    var kept', news' := kept + [reply], news + [nextId];
    assert kept'[..|kept|] == kept;
    assert CommonsFor(commons0, kept') == commons';
    assert news' == Fresh(nextId0, |kept'|);
    KeysAddedStep(servers0, servers, news, nextId, servers'[nextId]);
    RecordsAddedStep(servers, commons, kept, news, service, meta, userData, reply, nextId);
  }

  /** What `fo_resolve_service_server` does for a server: start a name
      lookup and wait for it, wait for the lookup already under way, or
      finish at once because the name needs no lookup. */
  datatype NameStep = StartLookup(name: string) | AwaitLookup | NameReady

  class FailOverContext {
    /** The two retry timeouts; the family order is not modelled. */
    const opts: Options
    /** The services, by name, and their order in `service_list`. */
    var services: map<string, Service>
    var serviceOrder: seq<string>
    /** Every server record ever created, by handle. */
    var servers: map<ServerId, Server>
    /** `server_common_list`, in order. */
    var commons: seq<ServerCommon>
    /** The `srv_data` of each SRV lookup, by the handle of its meta server. */
    var srvData: map<ServerId, SrvData>
    /** The handle the next server record receives. */
    var nextId: nat

    function Records(): Heap
      reads this
    {
      Heap(servers, commons)
    }

    predicate Valid()
      reads this
    {
      RegistryOk(services, serviceOrder) &&
      StoreOk(servers, commons, srvData, services, nextId) &&
      ServicesOk(services, Records())
    }

    /** `fo_context_init`: no services, no servers, no name entries. */
    constructor(opts: Options)
      ensures Valid() && this.opts == opts
      ensures services == map[] && serviceOrder == [] && servers == map[] && commons == [] && srvData == map[] && nextId == 0
    {
      this.opts := opts;
      services := map[];
      serviceOrder := [];
      servers := map[];
      commons := [];
      srvData := map[];
      nextId := 0;
    }

    /** `fo_get_service`: walk the service list comparing names exactly. */
    method GetService(name: string) returns (r: int)
      requires Valid()
      ensures r == EOK || r == ENOENT
      ensures r == EOK <==> name in services
    {
      var i := 0;
      while i < |serviceOrder|
        invariant 0 <= i <= |serviceOrder|
        invariant forall k :: 0 <= k < i ==> serviceOrder[k] != name
      {
        if serviceOrder[i] == name {
          return EOK;
        }
        i := i + 1;
      }
      return ENOENT;
    }

    /** `fo_new_service`: an existing name gives EEXIST and changes
      nothing; a new one is registered at the head of the list with no
      servers and gives EOK. */
    method NewService(name: string) returns (r: int)
      requires Valid()
      modifies this
      ensures Valid()
      ensures old(name in services) ==> r == EEXIST && services == old(services) && serviceOrder == old(serviceOrder)
      ensures old(name !in services) ==>
        r == EOK && services == old(services)[name := Service(None, None, [])] && serviceOrder == [name] + old(serviceOrder)
      ensures servers == old(servers) && commons == old(commons) && srvData == old(srvData) && nextId == old(nextId)
    {
      r := GetService(name);
      if r == EOK {
        return EEXIST;
      }
      NewServiceKeepsValid(services, serviceOrder, servers, commons, srvData, nextId, name);
      services := services[name := Service(None, None, [])];
      serviceOrder := [name] + serviceOrder;
      r := EOK;
    }

    /** `get_server_common`: the first name entry equal to the name
      ignoring case. */
    method GetServerCommon(name: string) returns (r: int, index: nat)
      ensures r == EOK || r == ENOENT
      ensures r == EOK <==> FindCommon(commons, name) == Some(index)
      ensures r == ENOENT <==> FindCommon(commons, name).None?
    {
      var i := 0;
      while i < |commons|
        invariant 0 <= i <= |commons|
        invariant forall k :: 0 <= k < i ==> !EqualsIgnoreCase(name, commons[k].name)
      {
        if EqualsIgnoreCase(name, commons[i].name) {
          return EOK, i;
        }
        i := i + 1;
      }
      return ENOENT, 0;
    }

    /** `create_server_common`: a new entry with an unresolved name and a
      zero timestamp, appended to the list. */
    method CreateServerCommon(name: string) returns (index: nat)
      modifies this
      ensures commons == old(commons) + [ServerCommon(name, NameNotResolved, 0)] && index == |old(commons)|
      ensures services == old(services) && serviceOrder == old(serviceOrder) && servers == old(servers) &&
        srvData == old(srvData) && nextId == old(nextId)
    {
      index := |commons|;
      commons := commons + [ServerCommon(name, NameNotResolved, 0)];
    }

    /** The name entry of a new server in `create_fo_server`: the one
      `get_server_common` finds, or else one `create_server_common` adds. */
    method AttachCommon(name: string) returns (index: nat)
      modifies this
      ensures (commons, index) == WithCommon(old(commons), name)
      ensures |old(commons)| <= |commons| && commons[..|old(commons)|] == old(commons)
      ensures services == old(services) && serviceOrder == old(serviceOrder) && servers == old(servers) &&
        srvData == old(srvData) && nextId == old(nextId)
    {
      var r;
      r, index := GetServerCommon(name);
      if r == ENOENT {
        index := CreateServerCommon(name);
        assert WithCommon(old(commons), name) == (old(commons) + [ServerCommon(name, NameNotResolved, 0)], |old(commons)|);
      } else {
        assert WithCommon(old(commons), name) == (old(commons), index);
      }
    }

    /** `create_fo_server`: a new record with the next handle, a neutral
      port and no SRV lookup, attached to the entry of its name when it
      has one; it is in no list yet. */
    method CreateFoServer(service: string, name: Option<string>, port: int, userData: int) returns (id: ServerId)
      requires Valid() && service in services
      modifies this
      ensures Valid()
      ensures id == old(nextId) && nextId == old(nextId) + 1 && id !in old(servers)
      ensures name.None? ==>
        commons == old(commons) && servers == old(servers)[id := Server(userData, port, PortNeutral, None, service, 0, None)]
      ensures name.Some? ==>
        commons == WithCommon(old(commons), name.value).0 &&
        servers == old(servers)[id := Server(userData, port, PortNeutral, None, service, 0, Some(WithCommon(old(commons), name.value).1))]
      ensures services == old(services) && serviceOrder == old(serviceOrder) && srvData == old(srvData)
    {
      id := nextId;
      var common: Option<nat> := None;
      if name.Some? {
        var index := AttachCommon(name.value);
        common := Some(index);
      }
      var s := Server(userData, port, PortNeutral, None, service, 0, common);
      AddRecordKeepsValid(services, old(servers), old(commons), srvData, id, s, commons, srvData);
      servers := servers[id := s];
      nextId := nextId + 1;
    }

    /** `fo_add_server`: a server of the service with the same port and
      caller data and, ignoring case, the same name (or, like it, none)
      makes the call EEXIST and changes nothing; otherwise a new record is
      made as `create_fo_server` makes it and appended to the service's
      list, and adding it again would be refused. */
    method AddServer(service: string, name: Option<string>, port: int, userData: int) returns (r: int)
      requires Valid() && service in services
      modifies this
      ensures Valid()
      ensures old(HasServer(Records(), services[service].servers, name, port, userData)) ==>
        r == EEXIST && services == old(services) && servers == old(servers) && commons == old(commons) && nextId == old(nextId)
      ensures !old(HasServer(Records(), services[service].servers, name, port, userData)) ==>
        r == EOK && nextId == old(nextId) + 1 &&
        services == old(services)[service := old(services[service]).(servers := old(services[service].servers) + [old(nextId)])] &&
        servers == old(servers)[old(nextId) := Server(userData, port, PortNeutral, None, service, 0,
                                                      if name.Some? then Some(WithCommon(old(commons), name.value).1) else None)] &&
        commons == (if name.Some? then WithCommon(old(commons), name.value).0 else old(commons))
      ensures r == EOK ==> HasServer(Records(), services[service].servers, name, port, userData)
      ensures serviceOrder == old(serviceOrder) && srvData == old(srvData)
    {
      var list := services[service].servers;
      var i := 0;
      while i < |list|
        invariant 0 <= i <= |list|
        invariant forall k :: 0 <= k < i ==> !SameServer(Records(), list[k], name, port, userData)
      {
        var s := servers[list[i]];
        if s.port == port && s.userData == userData {
          if name.None? && s.common.None? {
            return EEXIST;
          } else if name.Some? && s.common.Some? && EqualsIgnoreCase(name.value, commons[s.common.value].name) {
            return EEXIST;
          }
        }
        i := i + 1;
      }
      var id := CreateFoServer(service, name, port, userData);
      AppendServerKeepsValid(services, servers, commons, srvData, nextId, service, id);
      services := services[service := services[service].(servers := services[service].servers + [id])];
      r := EOK;
      assert services[service].servers[|list|] == id;
      assert SameServer(Records(), id, name, port, userData);
    }

    /** The record `fo_add_srv_server` makes: a meta server with the next
      handle, port 0, neutral and nameless, owning a new neutral lookup
      with a zero timestamp; it is in no list yet. */
    method CreateMetaServer(service: string, srv: string, domain: string, proto: string, userData: int) returns (id: ServerId)
      requires Valid() && service in services
      modifies this
      ensures Valid()
      ensures id == old(nextId) && nextId == old(nextId) + 1 && id !in old(servers)
      ensures servers == old(servers)[id := Server(userData, 0, PortNeutral, Some(id), service, 0, None)]
      ensures srvData == old(srvData)[id := SrvData(domain, proto, srv, SrvNeutral, 0)]
      ensures services == old(services) && serviceOrder == old(serviceOrder) && commons == old(commons)
    {
      id := nextId;
      var meta := Server(userData, 0, PortNeutral, Some(id), service, 0, None);
      var data := SrvData(domain, proto, srv, SrvNeutral, 0);
      AddRecordKeepsValid(services, servers, commons, srvData, id, meta, commons, srvData[id := data]);
      srvData := srvData[id := data];
      servers := servers[id := meta];
      nextId := nextId + 1;
    }

    /** `fo_add_srv_server`: an SRV lookup of the service with the same
      caller data and, ignoring case, the same domain and protocol makes
      the call EEXIST and changes nothing; otherwise a meta server is
      appended: port 0, neutral, nameless, owning a new neutral lookup
      with a zero timestamp. */
    method AddSrvServer(service: string, srv: string, domain: string, proto: string, userData: int) returns (r: int)
      requires Valid() && service in services
      modifies this
      ensures Valid()
      ensures old(HasLookup(servers, srvData, services[service].servers, domain, proto, userData)) ==>
        r == EEXIST && services == old(services) && servers == old(servers) && srvData == old(srvData) && nextId == old(nextId)
      ensures !old(HasLookup(servers, srvData, services[service].servers, domain, proto, userData)) ==>
        r == EOK && nextId == old(nextId) + 1 &&
        services == old(services)[service := old(services[service]).(servers := old(services[service].servers) + [old(nextId)])] &&
        servers == old(servers)[old(nextId) := Server(userData, 0, PortNeutral, Some(old(nextId)), service, 0, None)] &&
        srvData == old(srvData)[old(nextId) := SrvData(domain, proto, srv, SrvNeutral, 0)]
      ensures r == EOK ==> HasLookup(servers, srvData, services[service].servers, domain, proto, userData)
      ensures serviceOrder == old(serviceOrder) && commons == old(commons)
    {
      var list := services[service].servers;
      var i := 0;
      while i < |list|
        invariant 0 <= i <= |list|
        invariant forall k :: 0 <= k < i ==> !SameLookup(servers, srvData, list[k], domain, proto, userData)
      {
        var s := servers[list[i]];
        if s.userData == userData && s.srv.Some? {
          if EqualsIgnoreCase(srvData[s.srv.value].domain, domain) && EqualsIgnoreCase(srvData[s.srv.value].proto, proto) {
            return EEXIST;
          }
        }
        i := i + 1;
      }
      var id := CreateMetaServer(service, srv, domain, proto, userData);
      AppendServerKeepsValid(services, servers, commons, srvData, nextId, service, id);
      services := services[service := services[service].(servers := services[service].servers + [id])];
      r := EOK;
      assert services[service].servers[|list|] == id;
      EqualsIgnoreCaseReflexive(domain);
      EqualsIgnoreCaseReflexive(proto);
      assert SameLookup(servers, srvData, id, domain, proto, userData);
    }

    /** `get_server_status`, with the stale reset as written (the
      server's own timestamp is the one zeroed). */
    method GetServerStatus(id: ServerId, now: int) returns (status: ServerStatus)
      requires Valid() && id in servers
      modifies this
      ensures Valid()
      ensures (status, Records()) == ServerStatusOf(old(Records()), id, now, opts.retryTimeout)
      ensures services == old(services) && serviceOrder == old(serviceOrder) && srvData == old(srvData) && nextId == old(nextId)
    {
      var s := servers[id];
      if s.common.None? {
        return NameResolved;
      }
      var c := s.common.value;
      if opts.retryTimeout != 0 && commons[c].status == NotWorking {
        if now - commons[c].lastChange > opts.retryTimeout {
          var servers', commons' := servers[id := s.(lastChange := 0)], commons[c := commons[c].(status := NameNotResolved)];
          StatusChangeKeepsValid(services, servers, commons, srvData, nextId, servers', commons');
          servers, commons := servers', commons';
        }
      }
      status := commons[c].status;
    }

    /** `get_port_status`: a failing port past the retry timeout is reset
      to neutral and stamped with the current time. */
    method GetPortStatus(id: ServerId, now: int) returns (status: PortStatus)
      requires Valid() && id in servers
      modifies this
      ensures Valid()
      ensures (status, Records()) == PortStatusOf(old(Records()), id, now, opts.retryTimeout)
      ensures services == old(services) && serviceOrder == old(serviceOrder) && srvData == old(srvData) && nextId == old(nextId)
    {
      var s := servers[id];
      if opts.retryTimeout != 0 && s.portStatus == PortNotWorking {
        if now - s.lastChange > opts.retryTimeout {
          StatusChangeKeepsValid(services, servers, commons, srvData, nextId,
                                 servers[id := s.(portStatus := PortNeutral, lastChange := now)], commons);
          servers := servers[id := s.(portStatus := PortNeutral, lastChange := now)];
        }
      }
      status := servers[id].portStatus;
    }

    /** `service_works`: the name check, then, unless the name fails, the
      port check. */
    method ServiceWorks(id: ServerId, now: int) returns (works: bool)
      requires Valid() && id in servers
      modifies this
      ensures Valid()
      ensures (works, Records()) == FailOverSpec.ServiceWorks(old(Records()), id, now, opts.retryTimeout)
      ensures services == old(services) && serviceOrder == old(serviceOrder) && srvData == old(srvData) && nextId == old(nextId)
    {
      var status := GetServerStatus(id, now);
      if status == NotWorking {
        return false;
      }
      var port := GetPortStatus(id, now);
      works := port != PortNotWorking;
    }

    /** `get_srv_data_status`, with the SRV retry timeout. */
    method GetSrvDataStatus(meta: ServerId, now: int) returns (status: SrvStatus)
      requires Valid() && meta in srvData
      modifies this
      ensures Valid()
      ensures srvData == old(srvData)[meta := SrvStatusOf(old(srvData[meta]), now, opts.srvRetryTimeout)]
      ensures status == srvData[meta].status
      ensures services == old(services) && serviceOrder == old(serviceOrder) && servers == old(servers) &&
        commons == old(commons) && nextId == old(nextId)
    {
      var d := srvData[meta];
      if opts.srvRetryTimeout != 0 && now - d.lastChange > opts.srvRetryTimeout {
        match d.status {
          case SrvExpired =>
          case SrvNeutral =>
          case SrvResolved =>
            d := d.(status := SrvExpired, lastChange := 0);
          case SrvNotResolved =>
            d := d.(status := SrvNeutral, lastChange := 0);
        }
        SrvDataChangeKeepsValid(services, servers, commons, srvData, nextId, srvData[meta := d]);
        srvData := srvData[meta := d];
      }
      status := srvData[meta].status;
    }

    /** `set_srv_data_status`: the new status, stamped with the current time. */
    method SetSrvDataStatus(meta: ServerId, status: SrvStatus, now: int)
      requires Valid() && meta in srvData
      modifies this
      ensures Valid()
      ensures srvData == old(srvData)[meta := old(srvData[meta]).(status := status, lastChange := now)]
      ensures services == old(services) && serviceOrder == old(serviceOrder) && servers == old(servers) &&
        commons == old(commons) && nextId == old(nextId)
    {
      var d := srvData[meta].(status := status, lastChange := now);
      SrvDataChangeKeepsValid(services, servers, commons, srvData, nextId, srvData[meta := d]);
      srvData := srvData[meta := d];
    }

    /** `set_server_common_status`: the new status, stamped with the current time. */
    method SetServerCommonStatus(index: nat, status: ServerStatus, now: int)
      requires Valid() && index < |commons|
      modifies this
      ensures Valid()
      ensures commons == old(commons)[index := old(commons[index]).(status := status, lastChange := now)]
      ensures services == old(services) && serviceOrder == old(serviceOrder) && servers == old(servers) &&
        srvData == old(srvData) && nextId == old(nextId)
    {
      StatusChangeKeepsValid(services, servers, commons, srvData, nextId, servers,
                             commons[index := commons[index].(status := status, lastChange := now)]);
      commons := commons[index := commons[index].(status := status, lastChange := now)];
    }

    /** `fo_set_server_status`: sets the status of the server's name
      entry; a nameless server is left alone. */
    method SetServerStatus(id: ServerId, status: ServerStatus, now: int)
      requires Valid() && id in servers
      modifies this
      ensures Valid()
      ensures old(servers[id].common).None? ==> commons == old(commons)
      ensures old(servers[id].common).Some? ==>
        var c := old(servers[id].common.value);
        commons == old(commons)[c := old(commons[c]).(status := status, lastChange := now)]
      ensures services == old(services) && serviceOrder == old(serviceOrder) && servers == old(servers) &&
        srvData == old(srvData) && nextId == old(nextId)
    {
      if servers[id].common.None? {
        return;
      }
      SetServerCommonStatus(servers[id].common.value, status, now);
    }

    /** `fo_set_port_status`: the port's new status, stamped with the
      current time; a working port also marks the server's name working
      and makes the server its service's active one, after which it looks
      working. */
    method SetPortStatus(id: ServerId, status: PortStatus, now: int)
      requires Valid() && id in servers
      requires status == PortWorking ==> id in services[servers[id].service].servers
      modifies this
      ensures Valid()
      ensures servers == old(servers)[id := old(servers[id]).(portStatus := status, lastChange := now)]
      ensures status != PortWorking ==> commons == old(commons) && services == old(services)
      ensures status == PortWorking ==>
        services == old(services)[old(servers[id].service) := old(services[servers[id].service]).(active := Some(id))]
      ensures status == PortWorking && old(servers[id].common).None? ==> commons == old(commons)
      ensures status == PortWorking && old(servers[id].common).Some? ==>
        commons == old(commons)[old(servers[id].common.value) := old(commons[servers[id].common.value]).(status := Working, lastChange := now)]
      ensures status == PortWorking ==> HeapServer(Records(), id) && LooksWorking(Records(), id)
      ensures serviceOrder == old(serviceOrder) && srvData == old(srvData) && nextId == old(nextId)
    {
      MarkPort(id, status, now);
      if status == PortWorking {
        SetServerStatus(id, Working, now);
        assert servers[id].portStatus == PortWorking;
        assert servers[id].common.Some? ==> commons[servers[id].common.value].status == Working;
        MakeActive(id);
      }
    }

    /** The first step of `fo_set_port_status`: the port's own status and
      timestamp. */
    method MarkPort(id: ServerId, status: PortStatus, now: int)
      requires Valid() && id in servers
      modifies this
      ensures Valid()
      ensures servers == old(servers)[id := old(servers[id]).(portStatus := status, lastChange := now)]
      ensures services == old(services) && serviceOrder == old(serviceOrder) && commons == old(commons) &&
        srvData == old(srvData) && nextId == old(nextId)
    {
      var servers' := servers[id := servers[id].(portStatus := status, lastChange := now)];
      StatusChangeKeepsValid(services, servers, commons, srvData, nextId, servers', commons);
      servers := servers';
    }

    /** The last step of `fo_set_port_status` for a working port: the
      server becomes its service's active one. */
    method MakeActive(id: ServerId)
      requires Valid() && id in servers && id in services[servers[id].service].servers
      modifies this
      ensures Valid()
      ensures services == old(services)[old(servers[id].service) := old(services[servers[id].service]).(active := Some(id))]
      ensures serviceOrder == old(serviceOrder) && servers == old(servers) && commons == old(commons) &&
        srvData == old(srvData) && nextId == old(nextId)
    {
      var svc := servers[id].service;
      ActivateKeepsValid(services, Records(), svc, id);
      services := services[svc := services[svc].(active := Some(id))];
    }

    /** Replaces a service's bookkeeping by a valid one. */
    method SetService(name: string, svc: Service)
      requires Valid() && name in services && ServiceOk(svc, Records())
      modifies this
      ensures Valid()
      ensures services == old(services)[name := svc]
      ensures serviceOrder == old(serviceOrder) && servers == old(servers) && commons == old(commons) &&
        srvData == old(srvData) && nextId == old(nextId)
    {
      ServiceUpdateKeepsValid(services, Records(), name, svc);
      services := services[name := svc];
    }

    /** One step of a walk: the check of the server at position `i`,
      which either ends the walk or passes it on to the next position. */
    method CheckAt(list: seq<ServerId>, i: nat, now: int) returns (works: bool)
      requires Valid() && i < |list| && ListIn(Records(), list)
      modifies this
      ensures Valid() && ListIn(Records(), list)
      ensures works ==> Scan(old(Records()), list, i, now, opts.retryTimeout) == (Some(list[i]), Records())
      ensures !works ==> Scan(old(Records()), list, i, now, opts.retryTimeout) == Scan(Records(), list, i + 1, now, opts.retryTimeout)
      ensures services == old(services) && serviceOrder == old(serviceOrder) && srvData == old(srvData) && nextId == old(nextId)
    {
      ghost var before := Records();
      works := ServiceWorks(list[i], now);
      SameShapeKeepsServers(before, Records());
      ScanStep(before, Records(), works, list, i, now, opts.retryTimeout);
    }

    /** One walk of `get_first_server_entity` over a part of a service's
      list: every server from `from` on is checked in order until one
      works. */
    method ScanList(list: seq<ServerId>, from: nat, now: int) returns (found: Option<ServerId>)
      requires Valid() && from <= |list| && ListIn(Records(), list)
      modifies this
      ensures Valid() && ListIn(Records(), list)
      ensures (found, Records()) == Scan(old(Records()), list, from, now, opts.retryTimeout)
      ensures found.Some? ==> found.value in list[from..]
      ensures services == old(services) && serviceOrder == old(serviceOrder) && srvData == old(srvData) && nextId == old(nextId)
    {
      ghost var target := Scan(Records(), list, from, now, opts.retryTimeout);
      var i := from;
      while i < |list|
        invariant from <= i <= |list| && Valid() && ListIn(Records(), list)
        invariant Scan(Records(), list, i, now, opts.retryTimeout) == target
        invariant target == Scan(old(Records()), list, from, now, opts.retryTimeout)
        invariant services == old(services) && serviceOrder == old(serviceOrder) && srvData == old(srvData) && nextId == old(nextId)
        decreases |list| - i
      {
        var works := CheckAt(list, i, now);
        if works {
          return Some(list[i]);
        }
        i := i + 1;
      }
      return None;
    }

    /** The servers after the last tried one, then those up to it. */
    method ScanHalves(first: seq<ServerId>, second: seq<ServerId>, now: int) returns (server: Option<ServerId>)
      requires Valid() && ListIn(Records(), first) && ListIn(Records(), second)
      modifies this
      ensures Valid()
      ensures (server, Records()) == ScanBoth(old(Records()), first, second, now, opts.retryTimeout)
      ensures server.Some? ==> server.value in first || server.value in second
      ensures services == old(services) && serviceOrder == old(serviceOrder) && srvData == old(srvData) && nextId == old(nextId)
    {
      server := ScanList(first, 0, now);
      if server.None? {
        ghost var scanned := Scan(old(Records()), first, 0, now, opts.retryTimeout);
        assert Records() == scanned.1;
        SameShapeKeepsServers(old(Records()), Records());
        server := ScanList(second, 0, now);
      }
    }

    /** The two walks of `get_first_server_entity` once the active server
      is out of the picture: the servers after the last tried one, then
      those from the head up to and including it. The choice becomes the
      last tried server. */
    method WalkServers(name: string, now: int) returns (server: Option<ServerId>)
      requires Valid() && name in services
      modifies this
      ensures Valid()
      ensures var sel := RoundRobin(old(services[name]), old(Records()), now, opts.retryTimeout);
        server == sel.server && Records() == sel.heap && services == old(services)[name := sel.service]
      ensures serviceOrder == old(serviceOrder) && srvData == old(srvData) && nextId == old(nextId)
    {
      var svc := services[name];
      var halves := Halves(svc);
      ListInParts(Records(), svc.servers, halves.0);
      ListInParts(Records(), svc.servers, halves.1);
      server := ScanHalves(halves.0, halves.1, now);
      SetService(name, svc.(lastTried := server));
    }

    /** `get_first_server_entity`: the active server when it still works;
      otherwise the walks above. The choice becomes the last tried server;
      ENOENT when none works. */
    method GetFirstServerEntity(name: string, now: int) returns (r: int, server: Option<ServerId>)
      requires Valid() && name in services
      modifies this
      ensures Valid()
      ensures var sel := FirstServer(old(services[name]), old(Records()), now, opts.retryTimeout);
        server == sel.server && Records() == sel.heap && services == old(services)[name := sel.service]
      ensures r == EOK || r == ENOENT
      ensures r == EOK <==> server.Some?
      ensures serviceOrder == old(serviceOrder) && srvData == old(srvData) && nextId == old(nextId)
    {
      var svc := services[name];
      if svc.active.None? {
        server := WalkServers(name, now);
        r := if server.Some? then EOK else ENOENT;
        return;
      }
      ghost var before := Records();
      var works := ServiceWorks(svc.active.value, now);
      SameShapeKeepsServers(before, Records());
      FirstServerActive(svc, before, now, opts.retryTimeout, works, Records());
      if works {
        SetService(name, svc.(lastTried := svc.active));
        return EOK, svc.active;
      }
      ghost var sel := RoundRobin(svc.(active := None), Records(), now, opts.retryTimeout);
      SetService(name, svc.(active := None));
      server := WalkServers(name, now);
      UpdateTwice(old(services), name, svc.(active := None), sel.service);
      r := if server.Some? then EOK else ENOENT;
    }

    /** The two walks of `collapse_srv_lookup` from position `p`: back
      over the preceding servers and forward over the following ones that
      share the meta server's lookup. */
    method FindRun(list: seq<ServerId>, p: nat, meta: ServerId) returns (lo: nat, hi: nat)
      requires p < |list|
      ensures lo == BlockStart(servers, list, p, meta) && hi == BlockEnd(servers, list, p, meta)
      ensures lo <= p <= hi < |list|
    {
      lo := p;
      while lo > 0 && SharesSrv(servers, list[lo - 1], meta)
        invariant lo <= p
        invariant forall k :: lo <= k < p ==> SharesSrv(servers, list[k], meta)
      {
        lo := lo - 1;
      }
      BlockStartUnique(servers, list, p, meta, lo);
      hi := p;
      while hi + 1 < |list| && SharesSrv(servers, list[hi + 1], meta)
        invariant p <= hi < |list|
        invariant forall k :: p < k <= hi ==> SharesSrv(servers, list[k], meta)
      {
        hi := hi + 1;
      }
      BlockEndUnique(servers, list, p, meta, hi);
    }

    /** `collapse_srv_lookup`: the run of servers around `id` made by the
      same SRV lookup is replaced in the list by the lookup's meta server
      (nothing changes when `id` is the meta server itself), `id` stops
      being the active server and hands the last tried mark to the meta
      server, and the lookup goes back to neutral with a zero timestamp.
      The collapsed run can be expanded again: see
      `CollapseUndoesExpansion`. */
    method CollapseSrvLookup(id: ServerId) returns (meta: ServerId)
      requires Valid() && id in servers && servers[id].srv.Some?
      requires var svc := services[servers[id].service]; var m := servers[id].srv.value;
        id in svc.servers &&
        (id != m ==>
          (m !in svc.servers &&
           (svc.active.Some? && svc.active != Some(id) ==> !SharesSrv(servers, svc.active.value, m)) &&
           (svc.lastTried.Some? && svc.lastTried != Some(id) ==> !SharesSrv(servers, svc.lastTried.value, m))))
      modifies this
      ensures Valid()
      ensures meta == old(servers[id].srv.value)
      ensures srvData == old(srvData)[meta := old(srvData[meta]).(status := SrvNeutral, lastChange := 0)]
      ensures id == meta ==> services == old(services)
      ensures id != meta ==>
        services == old(services)[old(servers[id].service) := CollapseService(servers, old(services[servers[id].service]), id, meta)]
      ensures servers == old(servers) && commons == old(commons) && serviceOrder == old(serviceOrder) && nextId == old(nextId)
    {
      var n := servers[id].service;
      meta := servers[id].srv.value;
      if id != meta {
        var svc := services[n];
        var list := svc.servers;
        var p := IndexOf(list, id);
        var lo, hi := FindRun(list, p, meta);
        var active := if svc.active == Some(id) then None else svc.active;
        var lastTried := if svc.lastTried == Some(id) then Some(meta) else svc.lastTried;
        CollapsedServiceOk(svc, Records(), id, meta, p, lo, hi);
        SetService(n, Service(active, lastTried, Collapsed(list, lo, hi, meta)));
      }
      SetSrvDataStatus(meta, SrvNeutral, 0);
    }

    /** `resolve_srv_send`: by the refreshed status of the server's SRV
      lookup, an expired lookup is collapsed and queried again on behalf
      of its meta server, a neutral one is queried on behalf of the server
      itself, one that could not be resolved fails with EIO until its
      retry timeout passes, and a resolved one yields the server as is.
      The query is the lookup's RFC 2782 owner name. */
    method ResolveSrvSend(id: ServerId, now: int) returns (step: SrvStep)
      requires Valid() && id in servers && servers[id].srv.Some?
      requires var m := servers[id].srv.value; var svc := services[servers[id].service];
        SrvStatusOf(srvData[m], now, opts.srvRetryTimeout).status == SrvExpired ==>
          (id in svc.servers &&
           (id != m ==>
             (m !in svc.servers &&
              (svc.active.Some? && svc.active != Some(id) ==> !SharesSrv(servers, svc.active.value, m)) &&
              (svc.lastTried.Some? && svc.lastTried != Some(id) ==> !SharesSrv(servers, svc.lastTried.value, m)))))
      modifies this
      ensures Valid()
      ensures var m := old(servers[id].srv.value);
        var d := SrvStatusOf(old(srvData[m]), now, opts.srvRetryTimeout);
        match d.status
        case SrvExpired =>
          step == SendQuery(m, SrvQuery(old(srvData[m]))) &&
          srvData == old(srvData)[m := old(srvData[m]).(status := SrvNeutral, lastChange := 0)] &&
          (id != m ==> services == old(services)[old(servers[id].service) := CollapseService(servers, old(services[servers[id].service]), id, m)]) &&
          (id == m ==> services == old(services))
        case SrvNeutral =>
          step == SendQuery(id, SrvQuery(old(srvData[m]))) && srvData == old(srvData)[m := d] && services == old(services)
        case SrvNotResolved =>
          step == SrvFailed(EIO) && srvData == old(srvData) && services == old(services)
        case SrvResolved =>
          step == SrvDone(id) && srvData == old(srvData) && services == old(services)
      ensures servers == old(servers) && commons == old(commons) && serviceOrder == old(serviceOrder) && nextId == old(nextId)
    {
      var m := servers[id].srv.value;
      var status := GetSrvDataStatus(m, now);
      match status {
        case SrvExpired =>
          ghost var refreshed := srvData[m];
          var meta := CollapseSrvLookup(id);
          UpdateTwice(old(srvData), m, refreshed, refreshed.(status := SrvNeutral, lastChange := 0));
          step := SendQuery(meta, SrvQuery(srvData[meta]));
        case SrvNeutral =>
          step := SendQuery(id, SrvQuery(srvData[m]));
        case SrvNotResolved =>
          step := SrvFailed(EIO);
        case SrvResolved =>
          step := SrvDone(id);
      }
    }

    /** The port check of `resolve_srv_done`: does a server of the list use
      the port? */
    method PortInUse(list: seq<ServerId>, port: int) returns (used: bool)
      requires ListKnown(servers, list)
      ensures used == PortUsed(servers, list, port)
    {
      var k := 0;
      while k < |list|
        invariant k <= |list|
        invariant forall i :: 0 <= i < k ==> servers[list[i]].port != port
      {
        if servers[list[k]].port == port {
          return true;
        }
        k := k + 1;
      }
      return false;
    }

    /** A server made from one SRV record: `create_fo_server` with the
      record's host and port, then joined to the lookup `meta`. */
    method CreateSrvServer(service: string, host: string, port: int, userData: int, meta: ServerId) returns (id: ServerId)
      requires Valid() && service in services && meta in srvData
      modifies this
      ensures Valid()
      ensures id == old(nextId) && nextId == old(nextId) + 1 && id !in old(servers)
      ensures commons == WithCommon(old(commons), host).0
      ensures servers == old(servers)[id := Server(userData, port, PortNeutral, Some(meta), service, 0, Some(WithCommon(old(commons), host).1))]
      ensures services == old(services) && serviceOrder == old(serviceOrder) && srvData == old(srvData)
    {
      id := CreateFoServer(service, Some(host), port, userData);
      LinkKeepsValid(services, servers, commons, srvData, nextId, id, meta);
      servers := servers[id := servers[id].(srv := Some(meta))];
    }

    /** The record loop of `resolve_srv_done`: one new server per record
      whose port no server of the service's list uses, in answer order,
      each with the caller data of the server the lookup was made for,
      a neutral port, the lookup `meta` and the name entry of its host. */
    method AddSrvReplies(service: string, meta: ServerId, userData: int, replies: seq<SrvReply>) returns (news: seq<ServerId>)
      requires Valid() && service in services && meta in srvData
      requires ListKnown(servers, services[service].servers)
      modifies this
      ensures Valid()
      ensures RepliesAdded(old(servers), old(commons), old(nextId), servers, commons, nextId,
                           Kept(old(servers), old(services[service].servers), replies), news, service, meta, userData)
      ensures services == old(services) && serviceOrder == old(serviceOrder) && srvData == old(srvData)
    {
      var list := services[service].servers;
      ghost var servers0, commons0, nextId0 := servers, commons, nextId;
      assert forall x :: x in servers0 ==> x < nextId0;
      ghost var kept: seq<SrvReply> := [];
      news := [];
      var j := 0;
      while j < |replies|
        invariant j <= |replies| && Valid() && ListKnown(servers0, list)
        invariant kept == Kept(servers0, list, replies[..j])
        invariant RepliesAdded(servers0, commons0, nextId0, servers, commons, nextId, kept, news, service, meta, userData)
        invariant services == old(services) && serviceOrder == old(serviceOrder) && srvData == old(srvData)
      {
        var added := AddReply(service, meta, userData, list, replies[j], servers0, commons0, nextId0, kept, news);
        KeptNext(servers0, list, replies, j, kept, added.Some?);
        if added.Some? {
          news := news + [added.value];
          kept := kept + [replies[j]];
        }
        j := j + 1;
      }
      assert replies[..j] == replies;
    }

    /** One pass of the record loop: the record is skipped when a listed
      server uses its port, and otherwise becomes the next new server. */
    method AddReply(service: string, meta: ServerId, userData: int, list: seq<ServerId>, reply: SrvReply,
                    ghost servers0: map<ServerId, Server>, ghost commons0: seq<ServerCommon>, ghost nextId0: nat,
                    ghost kept: seq<SrvReply>, ghost news: seq<ServerId>) returns (added: Option<ServerId>)
      requires Valid() && service in services && meta in srvData && ListKnown(servers0, list)
      requires forall x :: x in servers0 ==> x < nextId0
      requires RepliesAdded(servers0, commons0, nextId0, servers, commons, nextId, kept, news, service, meta, userData)
      modifies this
      ensures Valid()
      ensures PortUsed(servers0, list, reply.port) ==>
        added.None? && servers == old(servers) && commons == old(commons) && nextId == old(nextId)
      ensures !PortUsed(servers0, list, reply.port) ==>
        added == Some(old(nextId)) &&
        RepliesAdded(servers0, commons0, nextId0, servers, commons, nextId, kept + [reply], news + [old(nextId)], service, meta, userData)
      ensures services == old(services) && serviceOrder == old(serviceOrder) && srvData == old(srvData)
    {
      PortUsedSame(servers0, servers, list, reply.port);
      var used := PortInUse(list, reply.port);
      if used {
        return None;
      }
      ghost var (serversBefore, commonsBefore) := (servers, commons);
      var id := CreateSrvServer(service, reply.host, reply.port, userData, meta);
      RepliesAddedStep(servers0, commons0, nextId0, serversBefore, commonsBefore, id, kept, news, service, meta, userData,
                       reply, servers, commons);
      return Some(id);
    }

    /** The list update of `resolve_srv_done`: the servers made from the
      answer take the place of the server the lookup was made for, and
      the first of them takes over its last tried mark. */
    method SpliceServers(service: string, meta: ServerId, news: seq<ServerId>)
      requires Valid() && service in services && meta in services[service].servers && services[service].active != Some(meta)
      requires |news| > 0 && Distinct(news) && ListIn(Records(), news)
      requires forall x :: x in news ==> x !in services[service].servers
      modifies this
      ensures Valid()
      ensures var svc := old(services[service]);
        services == old(services)[service := svc.(servers := Expanded(svc.servers, IndexOf(svc.servers, meta), news),
                                                  lastTried := if svc.lastTried == Some(meta) then Some(news[0]) else svc.lastTried)]
      ensures servers == old(servers) && commons == old(commons) && srvData == old(srvData) &&
        serviceOrder == old(serviceOrder) && nextId == old(nextId)
    {
      var svc := services[service];
      var p := IndexOf(svc.servers, meta);
      ExpandedServiceOk(svc, Records(), meta, p, news);
      SetService(service, svc.(servers := Expanded(svc.servers, p, news),
                               lastTried := if svc.lastTried == Some(meta) then Some(news[0]) else svc.lastTried));
    }

    /** `resolve_srv_done`: a failed query marks the port of the server the
      lookup was made for as not working; otherwise the answer's records
      whose ports are unused become new servers that replace it in the
      list, the first of them being the result. Without any such record,
      or after a failure, the lookup is marked not resolved and the call
      fails with the server itself as result; with them it is marked
      resolved. */
    method ResolveSrvDone(meta: ServerId, lookup: SrvLookup, now: int) returns (r: int, out: ServerId)
      requires Valid() && meta in servers && servers[meta].srv.Some?
      requires var svc := services[servers[meta].service];
        lookup.Answer? ==> meta in svc.servers && svc.active != Some(meta) && ListKnown(servers, svc.servers)
      requires lookup.LookupFailed? ==> lookup.error != EOK
      modifies this
      ensures Valid()
      ensures var m := old(servers[meta].srv.value);
        var n := old(servers[meta].service);
        var svc := old(services[n]);
        match lookup
        case LookupFailed(e) =>
          r == e && out == meta &&
          servers == old(servers)[meta := old(servers[meta]).(portStatus := PortNotWorking, lastChange := now)] &&
          srvData == old(srvData)[m := old(srvData[m]).(status := SrvNotResolved, lastChange := now)] &&
          services == old(services) && commons == old(commons) && nextId == old(nextId)
        case Answer(replies) =>
          var kept := Kept(old(servers), svc.servers, replies);
          var news := Fresh(old(nextId), |kept|);
          RepliesAdded(old(servers), old(commons), old(nextId), servers, commons, nextId, kept, news, n, m,
                       old(servers[meta].userData)) &&
          (kept == [] ==>
            r == EIO && out == meta && services == old(services) &&
            srvData == old(srvData)[m := old(srvData[m]).(status := SrvNotResolved, lastChange := now)]) &&
          (kept != [] ==>
            r == EOK && out == old(nextId) &&
            services == old(services)[n := svc.(servers := Expanded(svc.servers, IndexOf(svc.servers, meta), news),
                                                lastTried := if svc.lastTried == Some(meta) then Some(old(nextId)) else svc.lastTried)] &&
            srvData == old(srvData)[m := old(srvData[m]).(status := SrvResolved, lastChange := now)])
      ensures serviceOrder == old(serviceOrder)
    {
      var n := servers[meta].service;
      var m := servers[meta].srv.value;
      match lookup {
        case LookupFailed(e) =>
          SetPortStatus(meta, PortNotWorking, now);
          SetSrvDataStatus(m, SrvNotResolved, now);
          return e, meta;
        case Answer(replies) =>
          r, out := AcceptAnswer(meta, replies, now);
      }
    }

    /** The answer half of `resolve_srv_done`. */
    method AcceptAnswer(meta: ServerId, replies: seq<SrvReply>, now: int) returns (r: int, out: ServerId)
      requires Valid() && meta in servers && servers[meta].srv.Some?
      requires var svc := services[servers[meta].service];
        meta in svc.servers && svc.active != Some(meta) && ListKnown(servers, svc.servers)
      modifies this
      ensures Valid()
      ensures var m := old(servers[meta].srv.value);
        var n := old(servers[meta].service);
        var svc := old(services[n]);
        var kept := Kept(old(servers), svc.servers, replies);
        var news := Fresh(old(nextId), |kept|);
        RepliesAdded(old(servers), old(commons), old(nextId), servers, commons, nextId, kept, news, n, m,
                     old(servers[meta].userData)) &&
        (kept == [] ==>
          r == EIO && out == meta && services == old(services) &&
          srvData == old(srvData)[m := old(srvData[m]).(status := SrvNotResolved, lastChange := now)]) &&
        (kept != [] ==>
          r == EOK && out == old(nextId) &&
          services == old(services)[n := svc.(servers := Expanded(svc.servers, IndexOf(svc.servers, meta), news),
                                              lastTried := if svc.lastTried == Some(meta) then Some(old(nextId)) else svc.lastTried)] &&
          srvData == old(srvData)[m := old(srvData[m]).(status := SrvResolved, lastChange := now)])
      ensures serviceOrder == old(serviceOrder)
    {
      var n := servers[meta].service;
      var m := servers[meta].srv.value;
      ghost var list := services[n].servers;
      ghost var servers0, nextId0 := servers, nextId;
      assert forall x :: x in servers0 ==> x < nextId0;
      var news := AddSrvReplies(n, m, servers[meta].userData, replies);
      if |news| > 0 {
        forall x | x in news
          ensures x !in list
        {
          assert x >= nextId0;
        }
        FreshDistinct(nextId0, |news|);
        SpliceServers(n, meta, news);
        SetSrvDataStatus(m, SrvResolved, now);
        return EOK, news[0];
      }
      SetSrvDataStatus(m, SrvNotResolved, now);
      return EIO, meta;
    }

    /** `fo_resolve_service_server`: by the refreshed name status, an
      unresolved name starts a lookup of the name entry and is marked as
      being resolved, so that the next request for any server sharing the
      entry waits for it (`ResolvingStaysResolving`); a name being
      resolved waits; any other status is ready. */
    method ResolveServiceServer(id: ServerId, now: int) returns (step: NameStep)
      requires Valid() && id in servers
      modifies this
      ensures Valid()
      ensures var (st, h) := ServerStatusOf(old(Records()), id, now, opts.retryTimeout);
        (st == NameNotResolved ==>
          var c := old(servers[id].common.value);
          old(servers[id].common).Some? && step == StartLookup(h.commons[c].name) && servers == h.servers &&
          commons == h.commons[c := h.commons[c].(status := ResolvingName, lastChange := now)]) &&
        (st == ResolvingName ==> step == AwaitLookup && Records() == h) &&
        (st != NameNotResolved && st != ResolvingName ==> step == NameReady && Records() == h)
      ensures services == old(services) && serviceOrder == old(serviceOrder) && srvData == old(srvData) && nextId == old(nextId)
    {
      var status := GetServerStatus(id, now);
      match status {
        case NameNotResolved =>
          var c := servers[id].common.value;
          step := StartLookup(commons[c].name);
          SetServerStatus(id, ResolvingName, now);
        case ResolvingName =>
          step := AwaitLookup;
        case _ =>
          step := NameReady;
      }
    }
  }
}
