/** The fail-over bookkeeping as values: server, port and SRV lookup
    statuses with time-based expiry, and the specification of the
    round-robin selection of a server.

    Pointers become handles: a server is a `ServerId` into a map of server
    records, a `server_common` entry is an index into the common list and
    the `srv_data` a server shares is named by the id of its meta server.
    Times are whole seconds, passed in as `now`. */
module FailOverSpec {
  import opened Common

  type ServerId = nat

  datatype ServerStatus = NameNotResolved | ResolvingName | NameResolved | Working | NotWorking

  datatype PortStatus = PortNeutral | PortWorking | PortNotWorking

  datatype SrvStatus = SrvNeutral | SrvResolved | SrvNotResolved | SrvExpired

  /** The two retry timeouts of `fo_options`, in seconds; 0 means never. */
  datatype Options = Options(srvRetryTimeout: int, retryTimeout: int)

  /** `server_common`: what every server of one host name shares. */
  datatype ServerCommon = ServerCommon(name: string, status: ServerStatus, lastChange: int)

  /** `fo_server`. `userData` stands for the caller's opaque pointer,
      compared by identity; `srv` names the meta server whose `srv_data`
      this server shares; `common` indexes the common list. */
  datatype Server = Server(
    userData: int, port: int, portStatus: PortStatus, srv: Option<ServerId>,
    service: string, lastChange: int, common: Option<nat>)

  /** `srv_data`: the SRV query and the status of its lookup. */
  datatype SrvData = SrvData(domain: string, proto: string, srv: string, status: SrvStatus, lastChange: int)

  /** The per-service fields of `fo_service` that change. */
  datatype Service = Service(active: Option<ServerId>, lastTried: Option<ServerId>, servers: seq<ServerId>)

  /** The server records and the common list. */
  datatype Heap = Heap(servers: map<ServerId, Server>, commons: seq<ServerCommon>)

  /** `timeout && now - last > timeout`. */
  predicate Expired(timeout: int, last: int, now: int)
  {
    timeout != 0 && now - last > timeout
  }

  predicate Distinct<T(==)>(s: seq<T>)
  {
    forall i, j :: 0 <= i < j < |s| ==> s[i] != s[j]
  }

  /** The server exists and its common entry, if any, is in the list. */
  predicate HeapServer(h: Heap, id: ServerId)
  {
    id in h.servers && (h.servers[id].common.Some? ==> h.servers[id].common.value < |h.commons|)
  }

  predicate ListIn(h: Heap, list: seq<ServerId>)
  {
    forall i :: 0 <= i < |list| ==> HeapServer(h, list[i])
  }

  /** `h'` has the same servers, each with the same common entry, and a
      common list of the same length. */
  function Shape(h: Heap): (map<ServerId, Option<nat>>, nat)
  {
    (map id | id in h.servers :: h.servers[id].common, |h.commons|)
  }

  predicate SameShape(h: Heap, h': Heap)
  {
    Shape(h') == Shape(h)
  }

  lemma SameShapeKeepsServers(h: Heap, h': Heap)
    requires SameShape(h, h')
    ensures forall id :: HeapServer(h, id) <==> HeapServer(h', id)
  {
    forall id
      ensures HeapServer(h, id) <==> HeapServer(h', id)
    {
      assert id in h.servers <==> id in Shape(h).0;
      assert id in h'.servers <==> id in Shape(h').0;
      if id in h.servers {
        assert Shape(h).0[id] == h.servers[id].common;
        assert Shape(h').0[id] == h'.servers[id].common;
      }
    }
  }

  /** Rewriting one server without touching its common entry, and any
      statuses in the common list, keeps the shape. */
  lemma UpdateKeepsShape(h: Heap, id: ServerId, s: Server, commons: seq<ServerCommon>)
    requires id in h.servers && s.common == h.servers[id].common && |commons| == |h.commons|
    ensures SameShape(h, Heap(h.servers[id := s], commons))
  {
    var h' := Heap(h.servers[id := s], commons);
    assert Shape(h').0 == Shape(h).0;
  }

  lemma SameShapeTransitive(h: Heap, h': Heap, h'': Heap)
    requires SameShape(h, h') && SameShape(h', h'')
    ensures SameShape(h, h'')
  {
  }

  /** The common entry `c` went from a NOT_WORKING status older than the
      timeout to NAME_NOT_RESOLVED; its name and timestamp are kept. */
  predicate NameReset(h: Heap, h': Heap, c: nat, now: int, timeout: int)
  {
    c < |h.commons| && c < |h'.commons| &&
    h.commons[c].status == NotWorking && Expired(timeout, h.commons[c].lastChange, now) &&
    h'.commons[c] == h.commons[c].(status := NameNotResolved)
  }

  /** What status checks at time `now` may do to the record of server
      `id`. Only its port status and timestamp change. The port goes from
      NOT_WORKING to NEUTRAL, and only when that status is older than the
      timeout or when the server's name entry was reset (the zeroed
      timestamp then makes any port status look stale). The timestamp is
      kept, becomes `now` with a port reset, or becomes 0 with a name
      reset. */
  predicate ServerRefreshed(h: Heap, h': Heap, id: ServerId, now: int, timeout: int)
    requires id in h.servers && id in h'.servers
  {
    var s, s' := h.servers[id], h'.servers[id];
    var nameReset := s.common.Some? && NameReset(h, h', s.common.value, now, timeout);
    s' == s.(portStatus := s'.portStatus, lastChange := s'.lastChange) &&
    (s'.portStatus == s.portStatus ||
     (s.portStatus == PortNotWorking && s'.portStatus == PortNeutral &&
      (Expired(timeout, s.lastChange, now) || (nameReset && Expired(timeout, 0, now))))) &&
    (s'.lastChange == s.lastChange ||
     (s'.lastChange == now && s'.portStatus != s.portStatus) ||
     (s'.lastChange == 0 && nameReset))
  }

  /** `h'` is `h` after status checks at time `now`: the same servers and
      common entries, and no change but expiry resets. */
  predicate Refreshed(h: Heap, h': Heap, now: int, timeout: int)
  {
    h'.servers.Keys == h.servers.Keys && |h'.commons| == |h.commons| &&
    (forall id :: id in h.servers ==> ServerRefreshed(h, h', id, now, timeout)) &&
    (forall c :: 0 <= c < |h.commons| ==> h'.commons[c] == h.commons[c] || NameReset(h, h', c, now, timeout))
  }

  /** A reset name entry reads NAME_NOT_RESOLVED and so is not reset
      again: resets made by one round of checks survive the next. */
  lemma {:induction false} RefreshedTransitive(h: Heap, h': Heap, h'': Heap, now: int, timeout: int)
    requires Refreshed(h, h', now, timeout) && Refreshed(h', h'', now, timeout)
    ensures Refreshed(h, h'', now, timeout)
  {
    forall c | 0 <= c < |h.commons|
      ensures NameReset(h, h', c, now, timeout) ==> NameReset(h, h'', c, now, timeout)
      ensures NameReset(h', h'', c, now, timeout) ==> NameReset(h, h'', c, now, timeout)
      ensures h''.commons[c] == h.commons[c] || NameReset(h, h'', c, now, timeout)
    {
      if NameReset(h, h', c, now, timeout) {
        assert !NameReset(h', h'', c, now, timeout);
        assert h''.commons[c] == h'.commons[c];
      } else if h'.commons[c] != h.commons[c] {
        assert false;
      }
    }
    forall id | id in h.servers
      ensures ServerRefreshed(h, h'', id, now, timeout)
    {
      assert ServerRefreshed(h, h', id, now, timeout);
      assert ServerRefreshed(h', h'', id, now, timeout);
    }
  }

  /** `get_server_status`, as written: a NOT_WORKING common entry whose
      status is older than the retry timeout goes back to
      NAME_NOT_RESOLVED, and then the timestamp zeroed is the server's own,
      not the common entry's. A server without a name is always
      NAME_RESOLVED. */
  function ServerStatusOf(h: Heap, id: ServerId, now: int, timeout: int): (r: (ServerStatus, Heap))
    requires HeapServer(h, id)
    ensures SameShape(h, r.1)
    ensures h.servers[id].common.None? ==> r == (NameResolved, h)
  {
    var s := h.servers[id];
    if s.common.None? then (NameResolved, h)
    else
      var c := h.commons[s.common.value];
      if c.status == NotWorking && Expired(timeout, c.lastChange, now) then
        UpdateKeepsShape(h, id, s.(lastChange := 0), h.commons[s.common.value := c.(status := NameNotResolved)]);
        (NameNotResolved,
         Heap(h.servers[id := s.(lastChange := 0)], h.commons[s.common.value := c.(status := NameNotResolved)]))
      else (c.status, h)
  }

  /** A name lookup under way is never reset by the expiry check. */
  lemma ResolvingStaysResolving(h: Heap, id: ServerId, now: int, timeout: int)
    requires HeapServer(h, id) && h.servers[id].common.Some?
    requires h.commons[h.servers[id].common.value].status == ResolvingName
    ensures ServerStatusOf(h, id, now, timeout) == (ResolvingName, h)
  {
  }

  /** `get_port_status`: a NOT_WORKING port older than the retry timeout
      goes back to NEUTRAL, stamped with the current time. */
  function PortStatusOf(h: Heap, id: ServerId, now: int, timeout: int): (r: (PortStatus, Heap))
    requires HeapServer(h, id)
    ensures SameShape(h, r.1) && id in r.1.servers
    ensures r.0 == r.1.servers[id].portStatus
  {
    var s := h.servers[id];
    if s.portStatus == PortNotWorking && Expired(timeout, s.lastChange, now) then
      UpdateKeepsShape(h, id, s.(portStatus := PortNeutral, lastChange := now), h.commons);
      (PortNeutral, Heap(h.servers[id := s.(portStatus := PortNeutral, lastChange := now)], h.commons))
    else (s.portStatus, h)
  }

  /** The expiry rule of `get_server_status`, for all inputs. A nameless
      server reads NAME_RESOLVED. A name reads NAME_NOT_RESOLVED exactly
      when it was so, or was NOT_WORKING for longer than the timeout;
      NOT_WORKING exactly when it was so and is not yet stale; and any
      other status as it is. The records change exactly in the stale
      case, and then only in the common entry's status and in the server's
      own timestamp, which becomes 0. */
  lemma ServerStatusOutcome(h: Heap, id: ServerId, now: int, timeout: int)
    requires HeapServer(h, id)
    ensures var s := h.servers[id];
      var r := ServerStatusOf(h, id, now, timeout);
      var stale := s.common.Some? && h.commons[s.common.value].status == NotWorking &&
                   Expired(timeout, h.commons[s.common.value].lastChange, now);
      (s.common.None? ==> r.0 == NameResolved) &&
      (s.common.Some? ==>
        (r.0 == NameNotResolved <==> stale || h.commons[s.common.value].status == NameNotResolved) &&
        (r.0 == NotWorking <==> h.commons[s.common.value].status == NotWorking && !stale) &&
        (h.commons[s.common.value].status in {ResolvingName, NameResolved, Working} ==>
           r.0 == h.commons[s.common.value].status)) &&
      (r.1 == h <==> !stale) &&
      (stale ==> r.1 == Heap(h.servers[id := s.(lastChange := 0)],
                             h.commons[s.common.value := h.commons[s.common.value].(status := NameNotResolved)]))
  {
    var s := h.servers[id];
    if s.common.Some? {
      var c := s.common.value;
      var r := ServerStatusOf(h, id, now, timeout);
      if h.commons[c].status == NotWorking && Expired(timeout, h.commons[c].lastChange, now) {
        assert r.1.commons[c].status != h.commons[c].status;
      }
    }
  }

  /** The expiry rule of `get_port_status`, for all inputs. A port reads
      NEUTRAL exactly when it was so, or was NOT_WORKING for longer than
      the timeout; NOT_WORKING exactly when it was so and is not yet stale;
      WORKING exactly when it was so. The records change exactly in the
      stale case, and then the port becomes NEUTRAL stamped with `now`. */
  lemma PortStatusOutcome(h: Heap, id: ServerId, now: int, timeout: int)
    requires HeapServer(h, id)
    ensures var s := h.servers[id];
      var r := PortStatusOf(h, id, now, timeout);
      var stale := s.portStatus == PortNotWorking && Expired(timeout, s.lastChange, now);
      (r.0 == PortNeutral <==> s.portStatus == PortNeutral || stale) &&
      (r.0 == PortNotWorking <==> s.portStatus == PortNotWorking && !stale) &&
      (r.0 == PortWorking <==> s.portStatus == PortWorking) &&
      (r.1 == h <==> !stale) &&
      (stale ==> r.1 == Heap(h.servers[id := s.(portStatus := PortNeutral, lastChange := now)], h.commons))
  {
    var s := h.servers[id];
    if s.portStatus == PortNotWorking && Expired(timeout, s.lastChange, now) {
      assert PortStatusOf(h, id, now, timeout).1.servers[id].portStatus != s.portStatus;
    }
  }

  /** Reading a name status makes only expiry resets. */
  lemma ServerStatusRefreshes(h: Heap, id: ServerId, now: int, timeout: int)
    requires HeapServer(h, id)
    ensures Refreshed(h, ServerStatusOf(h, id, now, timeout).1, now, timeout)
  {
    var s := h.servers[id];
    var h' := ServerStatusOf(h, id, now, timeout).1;
    if s.common.Some? {
      var c := s.common.value;
      if h.commons[c].status == NotWorking && Expired(timeout, h.commons[c].lastChange, now) {
        assert NameReset(h, h', c, now, timeout);
        assert ServerRefreshed(h, h', id, now, timeout);
        forall other | other in h.servers && other != id
          ensures ServerRefreshed(h, h', other, now, timeout)
        {
          assert h'.servers[other] == h.servers[other];
        }
      }
    }
  }

  /** Reading a port status makes only expiry resets. */
  lemma PortStatusRefreshes(h: Heap, id: ServerId, now: int, timeout: int)
    requires HeapServer(h, id)
    ensures Refreshed(h, PortStatusOf(h, id, now, timeout).1, now, timeout)
  {
    var h' := PortStatusOf(h, id, now, timeout).1;
    assert ServerRefreshed(h, h', id, now, timeout);
    forall other | other in h.servers && other != id
      ensures ServerRefreshed(h, h', other, now, timeout)
    {
      assert h'.servers[other] == h.servers[other];
    }
  }

  /** `service_works`: the server's name is not known to be failing and
      then its port is not known to be failing; the port is not looked at
      when the name fails. */
  function ServiceWorks(h: Heap, id: ServerId, now: int, timeout: int): (r: (bool, Heap))
    requires HeapServer(h, id)
    ensures SameShape(h, r.1)
  {
    var name := ServerStatusOf(h, id, now, timeout);
    SameShapeKeepsServers(h, name.1);
    if name.0 == NotWorking then (false, name.1)
    else
      var port := PortStatusOf(name.1, id, now, timeout);
      (port.0 != PortNotWorking, port.1)
  }

  /** A server that fails now and will keep failing under any status
      check made at this time: its name is failing and not yet stale, or
      its name is not failing and its port is failing and not yet stale. */
  predicate Dead(h: Heap, id: ServerId, now: int, timeout: int)
    requires HeapServer(h, id)
  {
    var s := h.servers[id];
    if s.common.Some? && h.commons[s.common.value].status == NotWorking then
      !Expired(timeout, h.commons[s.common.value].lastChange, now)
    else
      s.portStatus == PortNotWorking && !Expired(timeout, s.lastChange, now)
  }

  /** Neither the server's name nor its port is marked as failing. */
  predicate LooksWorking(h: Heap, id: ServerId)
    requires HeapServer(h, id)
  {
    var s := h.servers[id];
    (s.common.None? || h.commons[s.common.value].status != NotWorking) && s.portStatus != PortNotWorking
  }

  /** After a check, the server works exactly when it looks working, and
      fails exactly when it is dead: a failing check leaves it failing. */
  lemma ServiceWorksOutcome(h: Heap, id: ServerId, now: int, timeout: int)
    requires HeapServer(h, id)
    ensures var (w, h') := ServiceWorks(h, id, now, timeout);
      HeapServer(h', id) && (w <==> LooksWorking(h', id)) && (!w <==> Dead(h', id, now, timeout))
  {
  }

  /** Checking a dead server again changes nothing and fails again. */
  lemma DeadIsStable(h: Heap, id: ServerId, now: int, timeout: int)
    requires HeapServer(h, id) && Dead(h, id, now, timeout)
    ensures ServiceWorks(h, id, now, timeout) == (false, h)
  {
  }

  /** Checking one server leaves every other dead server dead, even when
      the two share a common entry. */
  lemma DeadSurvivesOtherCheck(h: Heap, id: ServerId, other: ServerId, now: int, timeout: int)
    requires HeapServer(h, id) && HeapServer(h, other) && other != id && Dead(h, other, now, timeout)
    ensures var h' := ServiceWorks(h, id, now, timeout).1;
      HeapServer(h', other) && Dead(h', other, now, timeout)
  {
    var h' := ServiceWorks(h, id, now, timeout).1;
    SameShapeKeepsServers(h, h');
  }

  /** As written, the stale reset of a name zeroes the server's own
      timestamp, so the port check that follows sees a port that failed
      this very second as stale and resets it too: the server is reported
      working although its port was just marked failing. Had the common
      entry's timestamp been zeroed, the port would still be failing. */
  lemma StaleNameResetRevivesFreshPort(h: Heap, id: ServerId, now: int, timeout: int)
    requires HeapServer(h, id) && h.servers[id].common.Some?
    requires timeout > 0 && now > timeout
    requires h.commons[h.servers[id].common.value].status == NotWorking
    requires Expired(timeout, h.commons[h.servers[id].common.value].lastChange, now)
    requires h.servers[id].portStatus == PortNotWorking && h.servers[id].lastChange == now
    ensures ServiceWorks(h, id, now, timeout).0
    ensures ServiceWorks(h, id, now, timeout).1.servers[id].portStatus == PortNeutral
    ensures !Expired(timeout, h.servers[id].lastChange, now)
  {
  }

  /** Checking the servers of a list in order, from position `from`,
      until one works: the first one that does, and the statuses as the
      checks left them. */
  function Scan(h: Heap, list: seq<ServerId>, from: nat, now: int, timeout: int): (r: (Option<ServerId>, Heap))
    requires from <= |list| && ListIn(h, list)
    ensures SameShape(h, r.1)
    decreases |list| - from, 1
  {
    if from == |list| then (None, h) else ScanAt(h, list, from, now, timeout)
  }

  /** The check of the server at position `from`, which either ends the
      walk or passes it on, with the records it left, to the next one. */
  function ScanAt(h: Heap, list: seq<ServerId>, from: nat, now: int, timeout: int): (r: (Option<ServerId>, Heap))
    requires from < |list| && ListIn(h, list)
    ensures SameShape(h, r.1)
    decreases |list| - from, 0
  {
    var check := ServiceWorks(h, list[from], now, timeout);
    SameShapeKeepsServers(h, check.1);
    if check.0 then (Some(list[from]), check.1)
    else Scan(check.1, list, from + 1, now, timeout)
  }

  /** One step of the walk: a working server ends it, a failing one
      passes on to the next with the records the check left. */
  lemma ScanStep(h: Heap, h': Heap, works: bool, list: seq<ServerId>, i: nat, now: int, timeout: int)
    requires i < |list| && ListIn(h, list) && ListIn(h', list)
    requires ServiceWorks(h, list[i], now, timeout) == (works, h')
    ensures works ==> Scan(h, list, i, now, timeout) == (Some(list[i]), h')
    ensures !works ==> Scan(h, list, i, now, timeout) == Scan(h', list, i + 1, now, timeout)
  {
  }

  /** A scan leaves every dead server dead. */
  lemma {:induction false} ScanKeepsDead(h: Heap, list: seq<ServerId>, from: nat, now: int, timeout: int, y: ServerId)
    requires from <= |list| && ListIn(h, list) && HeapServer(h, y) && Dead(h, y, now, timeout)
    ensures var h' := Scan(h, list, from, now, timeout).1;
      HeapServer(h', y) && Dead(h', y, now, timeout)
    decreases |list| - from
  {
    if from < |list| {
      var h1 := ServiceWorks(h, list[from], now, timeout).1;
      SameShapeKeepsServers(h, h1);
      if list[from] == y {
        DeadIsStable(h, y, now, timeout);
      } else {
        DeadSurvivesOtherCheck(h, list[from], y, now, timeout);
      }
      if !ServiceWorks(h, list[from], now, timeout).0 {
        ScanKeepsDead(h1, list, from + 1, now, timeout, y);
      }
    }
  }

  /** A scan that returns a server returns the first one from `from` on
      that works: every server between is dead once the scan is over, and
      the one returned looks working. */
  lemma {:induction false} ScanFound(h: Heap, list: seq<ServerId>, from: nat, now: int, timeout: int) returns (j: nat)
    requires from <= |list| && ListIn(h, list) && Scan(h, list, from, now, timeout).0.Some?
    ensures var h' := Scan(h, list, from, now, timeout).1;
      ListIn(h', list) && from <= j < |list| && Some(list[j]) == Scan(h, list, from, now, timeout).0 &&
      LooksWorking(h', list[j]) &&
      forall i :: from <= i < j ==> Dead(h', list[i], now, timeout)
    decreases |list| - from
  {
    var h' := Scan(h, list, from, now, timeout).1;
    SameShapeKeepsServers(h, h');
    var h1 := ServiceWorks(h, list[from], now, timeout).1;
    ServiceWorksOutcome(h, list[from], now, timeout);
    if ServiceWorks(h, list[from], now, timeout).0 {
      j := from;
    } else {
      SameShapeKeepsServers(h, h1);
      j := ScanFound(h1, list, from + 1, now, timeout);
      forall i | from <= i < j
        ensures Dead(h', list[i], now, timeout)
      {
        if i == from {
          ScanKeepsDead(h1, list, from + 1, now, timeout, list[from]);
        }
      }
    }
  }

  /** A scan that returns nothing leaves the server at any position from
      `from` on dead. */
  lemma {:induction false} ScanNoneAt(h: Heap, list: seq<ServerId>, from: nat, now: int, timeout: int, i: nat)
    requires from <= i < |list| && ListIn(h, list) && Scan(h, list, from, now, timeout).0.None?
    ensures var h' := Scan(h, list, from, now, timeout).1;
      HeapServer(h', list[i]) && Dead(h', list[i], now, timeout)
    decreases |list| - from
  {
    var h1 := ServiceWorks(h, list[from], now, timeout).1;
    SameShapeKeepsServers(h, h1);
    if i == from {
      ServiceWorksOutcome(h, list[from], now, timeout);
      ScanKeepsDead(h1, list, from + 1, now, timeout, list[from]);
    } else {
      ScanNoneAt(h1, list, from + 1, now, timeout, i);
    }
  }

  /** A scan that returns nothing leaves every server from `from` on dead. */
  lemma ScanNone(h: Heap, list: seq<ServerId>, from: nat, now: int, timeout: int)
    requires from <= |list| && ListIn(h, list) && Scan(h, list, from, now, timeout).0.None?
    ensures var h' := Scan(h, list, from, now, timeout).1;
      ListIn(h', list) && forall i :: from <= i < |list| ==> Dead(h', list[i], now, timeout)
  {
    var h' := Scan(h, list, from, now, timeout).1;
    SameShapeKeepsServers(h, h');
    forall i | from <= i < |list|
      ensures Dead(h', list[i], now, timeout)
    {
      ScanNoneAt(h, list, from, now, timeout, i);
    }
  }

  /** A check changes nothing but the server's port status and timestamp
      and its common entry's status. */
  lemma ServiceWorksRefreshes(h: Heap, id: ServerId, now: int, timeout: int)
    requires HeapServer(h, id)
    ensures Refreshed(h, ServiceWorks(h, id, now, timeout).1, now, timeout)
  {
    var name := ServerStatusOf(h, id, now, timeout);
    ServerStatusRefreshes(h, id, now, timeout);
    if name.0 != NotWorking {
      SameShapeKeepsServers(h, name.1);
      PortStatusRefreshes(name.1, id, now, timeout);
      RefreshedTransitive(h, name.1, PortStatusOf(name.1, id, now, timeout).1, now, timeout);
    }
  }

  /** A scan changes nothing but port statuses, server timestamps and
      common statuses. */
  lemma {:induction false} ScanRefreshes(h: Heap, list: seq<ServerId>, from: nat, now: int, timeout: int)
    requires from <= |list| && ListIn(h, list)
    ensures Refreshed(h, Scan(h, list, from, now, timeout).1, now, timeout)
    decreases |list| - from
  {
    if from < |list| {
      var h1 := ServiceWorks(h, list[from], now, timeout).1;
      ServiceWorksRefreshes(h, list[from], now, timeout);
      if !ServiceWorks(h, list[from], now, timeout).0 {
        SameShapeKeepsServers(h, h1);
        ScanRefreshes(h1, list, from + 1, now, timeout);
        RefreshedTransitive(h, h1, Scan(h1, list, from + 1, now, timeout).1, now, timeout);
      }
    }
  }

  /** The position of a server in a list. */
  function IndexOf(list: seq<ServerId>, x: ServerId): (k: nat)
    requires x in list
    ensures k < |list| && list[k] == x
    ensures forall i :: 0 <= i < k ==> list[i] != x
  {
    if list[0] == x then 0 else 1 + IndexOf(list[1..], x)
  }

  /** A service's bookkeeping is consistent with the records: its list
      holds existing servers, each once, and the active and the last tried
      servers are in the list. */
  predicate ServiceOk(svc: Service, h: Heap)
  {
    Distinct(svc.servers) && ListIn(h, svc.servers) &&
    (svc.active.Some? ==> svc.active.value in svc.servers && HeapServer(h, svc.active.value)) &&
    (svc.lastTried.Some? ==> svc.lastTried.value in svc.servers)
  }

  /** The two parts of the list walked when the active server does not
      work: the servers after the last tried one, then those from the head
      up to and including the last tried one; when none was tried, nothing
      and then the whole list. */
  function Halves(svc: Service): (r: (seq<ServerId>, seq<ServerId>))
    requires svc.lastTried.Some? ==> svc.lastTried.value in svc.servers
    ensures r.1 + r.0 == svc.servers
    ensures svc.lastTried.None? ==> r.0 == []
    ensures svc.lastTried.Some? ==> |r.1| > 0 && r.1[|r.1| - 1] == svc.lastTried.value
    ensures forall x :: x in svc.servers <==> x in r.0 || x in r.1
    ensures forall x :: x in r.0 ==> x in svc.servers
    ensures forall x :: x in r.1 ==> x in svc.servers
  {
    if svc.lastTried.None? then ([], svc.servers)
    else
      var k := IndexOf(svc.servers, svc.lastTried.value);
      assert svc.servers == svc.servers[..k + 1] + svc.servers[k + 1..];
      (svc.servers[k + 1..], svc.servers[..k + 1])
  }

  /** The order servers are tried in when the active one does not work:
      a rotation of the list that ends with the last tried server. */
  function Rotation(svc: Service): (r: seq<ServerId>)
    requires svc.lastTried.Some? ==> svc.lastTried.value in svc.servers
    ensures |r| == |svc.servers|
    ensures forall x :: x in svc.servers <==> x in r
    ensures svc.lastTried.Some? ==> r[|r| - 1] == svc.lastTried.value
    ensures exists k :: 0 <= k <= |svc.servers| && r == svc.servers[k..] + svc.servers[..k]
  {
    var (after, upTo) := Halves(svc);
    assert after == svc.servers[|upTo|..] && upTo == svc.servers[..|upTo|];
    after + upTo
  }

  lemma ListInParts(h: Heap, list: seq<ServerId>, part: seq<ServerId>)
    requires ListIn(h, list) && forall x :: x in part ==> x in list
    ensures ListIn(h, part)
  {
    forall i | 0 <= i < |part|
      ensures HeapServer(h, part[i])
    {
      assert part[i] in list;
    }
  }

  /** Scanning one list and, when it yields nothing, a second one. */
  function ScanBoth(h: Heap, first: seq<ServerId>, second: seq<ServerId>, now: int, timeout: int): (r: (Option<ServerId>, Heap))
    requires ListIn(h, first) && ListIn(h, second)
    ensures SameShape(h, r.1)
  {
    var (r1, h1) := Scan(h, first, 0, now, timeout);
    if r1.Some? then (r1, h1)
    else
      SameShapeKeepsServers(h, h1);
      var r := Scan(h1, second, 0, now, timeout);
      SameShapeTransitive(h, h1, r.1);
      r
  }

  /** The second scan of a pair, when the first found nothing, returns the
      first server of the concatenation that works. */
  lemma ScanBothFoundSecond(h: Heap, first: seq<ServerId>, second: seq<ServerId>, now: int, timeout: int)
    returns (j: nat)
    requires ListIn(h, first) && ListIn(h, second) && Scan(h, first, 0, now, timeout).0.None?
    requires ScanBoth(h, first, second, now, timeout).0.Some?
    ensures var (r, h') := ScanBoth(h, first, second, now, timeout);
      var order := first + second;
      ListIn(h', order) && j < |order| && Some(order[j]) == r && LooksWorking(h', order[j]) &&
      forall i :: 0 <= i < j ==> Dead(h', order[i], now, timeout)
  {
    var h1 := Scan(h, first, 0, now, timeout).1;
    var order := first + second;
    ScanNone(h, first, 0, now, timeout);
    SameShapeKeepsServers(h, h1);
    var h' := Scan(h1, second, 0, now, timeout).1;
    assert ScanBoth(h, first, second, now, timeout) == Scan(h1, second, 0, now, timeout);
    var j' := ScanFound(h1, second, 0, now, timeout);
    j := |first| + j';
    SameShapeKeepsServers(h, h');
    forall i | 0 <= i < j
      ensures Dead(h', order[i], now, timeout)
    {
      if i < |first| {
        ScanKeepsDead(h1, second, 0, now, timeout, first[i]);
      } else {
        assert order[i] == second[i - |first|];
      }
    }
    ListInParts(h', second, second);
    assert ListIn(h', order) by {
      forall i | 0 <= i < |order|
        ensures HeapServer(h', order[i])
      {
        if i < |first| { assert HeapServer(h, first[i]); } else { assert order[i] == second[i - |first|]; }
      }
    }
  }

  /** A pair of scans returns the first server of the concatenation that
      works: every server before it is dead, the one returned looks working. */
  lemma ScanBothFound(h: Heap, first: seq<ServerId>, second: seq<ServerId>, now: int, timeout: int)
    returns (j: nat)
    requires ListIn(h, first) && ListIn(h, second) && ScanBoth(h, first, second, now, timeout).0.Some?
    ensures var (r, h') := ScanBoth(h, first, second, now, timeout);
      var order := first + second;
      ListIn(h', order) && j < |order| && Some(order[j]) == r && LooksWorking(h', order[j]) &&
      forall i :: 0 <= i < j ==> Dead(h', order[i], now, timeout)
  {
    if Scan(h, first, 0, now, timeout).0.Some? {
      var h' := Scan(h, first, 0, now, timeout).1;
      var order := first + second;
      j := ScanFound(h, first, 0, now, timeout);
      SameShapeKeepsServers(h, h');
      assert forall i :: 0 <= i < |first| ==> order[i] == first[i];
      assert ListIn(h', order) by {
        forall i | 0 <= i < |order|
          ensures HeapServer(h', order[i])
        {
          if i < |first| { assert HeapServer(h, first[i]); } else { assert HeapServer(h, second[i - |first|]); }
        }
      }
    } else {
      j := ScanBothFoundSecond(h, first, second, now, timeout);
    }
  }

  /** A pair of scans that returns nothing leaves every server of both
      lists dead. */
  lemma ScanBothNone(h: Heap, first: seq<ServerId>, second: seq<ServerId>, now: int, timeout: int)
    requires ListIn(h, first) && ListIn(h, second) && ScanBoth(h, first, second, now, timeout).0.None?
    ensures var h' := ScanBoth(h, first, second, now, timeout).1;
      ListIn(h', first + second) && forall y :: y in first + second ==> Dead(h', y, now, timeout)
  {
    var h1 := Scan(h, first, 0, now, timeout).1;
    ScanNone(h, first, 0, now, timeout);
    SameShapeKeepsServers(h, h1);
    var h' := Scan(h1, second, 0, now, timeout).1;
    ScanNone(h1, second, 0, now, timeout);
    SameShapeKeepsServers(h1, h');
    forall y | y in first + second
      ensures HeapServer(h', y) && Dead(h', y, now, timeout)
    {
      if y in first {
        var i :| 0 <= i < |first| && first[i] == y;
        ScanKeepsDead(h1, second, 0, now, timeout, y);
      } else {
        var i :| 0 <= i < |second| && second[i] == y;
      }
    }
  }

  /** A pair of scans leaves every dead server dead. */
  lemma ScanBothKeepsDead(h: Heap, first: seq<ServerId>, second: seq<ServerId>, now: int, timeout: int, y: ServerId)
    requires ListIn(h, first) && ListIn(h, second) && HeapServer(h, y) && Dead(h, y, now, timeout)
    ensures var h' := ScanBoth(h, first, second, now, timeout).1;
      HeapServer(h', y) && Dead(h', y, now, timeout)
  {
    ScanKeepsDead(h, first, 0, now, timeout, y);
    var h1 := Scan(h, first, 0, now, timeout).1;
    SameShapeKeepsServers(h, h1);
    if Scan(h, first, 0, now, timeout).0.None? {
      ScanKeepsDead(h1, second, 0, now, timeout, y);
    }
  }

  /** The result of `get_first_server_entity`: the server chosen, if any,
      the service's new bookkeeping and the statuses the checks left. */
  datatype Selection = Selection(server: Option<ServerId>, service: Service, heap: Heap)

  /** The list walk of `get_first_server_entity`. Whatever is found
      becomes the last tried server; when nothing is, the last tried
      server is cleared. */
  function RoundRobin(svc: Service, h: Heap, now: int, timeout: int): (r: Selection)
    requires ServiceOk(svc, h)
    ensures SameShape(h, r.heap)
    ensures r.service == svc.(lastTried := r.server)
  {
    var (first, second) := Halves(svc);
    ListInParts(h, svc.servers, first);
    ListInParts(h, svc.servers, second);
    var (found, h') := ScanBoth(h, first, second, now, timeout);
    Selection(found, svc.(lastTried := found), h')
  }

  /** `get_first_server_entity`: the active server when it still works;
      otherwise the active server is cleared and the list is walked. */
  function FirstServer(svc: Service, h: Heap, now: int, timeout: int): (r: Selection)
    requires ServiceOk(svc, h)
    ensures SameShape(h, r.heap) && r.service.servers == svc.servers
    ensures r.server == r.service.lastTried
  {
    if svc.active.None? then RoundRobin(svc, h, now, timeout)
    else
      var (w, h1) := ServiceWorks(h, svc.active.value, now, timeout);
      if w then Selection(svc.active, svc.(lastTried := svc.active), h1)
      else
        SameShapeKeepsServers(h, h1);
        var r := RoundRobin(svc.(active := None), h1, now, timeout);
        SameShapeTransitive(h, h1, r.heap);
        r
  }

  /** The two outcomes of checking the active server: it is kept when it
      works; otherwise it is dropped and the list is walked with the
      records the check left. */
  lemma FirstServerActive(svc: Service, h: Heap, now: int, timeout: int, works: bool, h1: Heap)
    requires ServiceOk(svc, h) && svc.active.Some?
    requires ServiceWorks(h, svc.active.value, now, timeout) == (works, h1)
    ensures works ==> FirstServer(svc, h, now, timeout) == Selection(svc.active, svc.(lastTried := svc.active), h1)
    ensures !works ==> ServiceOk(svc.(active := None), h1)
    ensures !works ==> FirstServer(svc, h, now, timeout) == RoundRobin(svc.(active := None), h1, now, timeout)
  {
    SameShapeKeepsServers(h, h1);
  }

  /** The active server that looks working is kept: it is checked, found
      working, chosen again, and nothing is reset. */
  lemma ActiveLookingWorkingIsKept(svc: Service, h: Heap, now: int, timeout: int)
    requires ServiceOk(svc, h) && svc.active.Some? && LooksWorking(h, svc.active.value)
    ensures FirstServer(svc, h, now, timeout).server == svc.active
    ensures FirstServer(svc, h, now, timeout).heap == h
  {
  }

  /** `get_first_server_entity` when it finds a server: the active server
      if it still works, and then nothing changes but the last tried
      server; otherwise the active server is cleared and dead, and the
      result is the first server in rotation order that works, every
      server before it being dead. The result becomes the last tried
      server. */
  lemma SelectionFound(svc: Service, h: Heap, now: int, timeout: int) returns (j: nat)
    requires ServiceOk(svc, h) && FirstServer(svc, h, now, timeout).server.Some?
    ensures var r := FirstServer(svc, h, now, timeout);
      var order := Rotation(svc);
      HeapServer(r.heap, r.server.value) && LooksWorking(r.heap, r.server.value) && r.service.lastTried == r.server &&
      if svc.active.Some? && r.server == svc.active then
        r.service == svc.(lastTried := svc.active)
      else
        r.service == svc.(active := None, lastTried := r.server) &&
        (svc.active.Some? ==> HeapServer(r.heap, svc.active.value) && Dead(r.heap, svc.active.value, now, timeout)) &&
        ListIn(r.heap, order) && j < |order| && Some(order[j]) == r.server &&
        forall i :: 0 <= i < j ==> Dead(r.heap, order[i], now, timeout)
  {
    j := 0;
    if svc.active.None? {
      j := WalkFound(svc, h, now, timeout);
    } else {
      var a := svc.active.value;
      ServiceWorksOutcome(h, a, now, timeout);
      if !ServiceWorks(h, a, now, timeout).0 {
        j := SelectionFoundAfterActive(svc, h, now, timeout);
      }
    }
  }

  /** `SelectionFound` for a walk over the whole rotation. */
  lemma WalkFound(svc: Service, h: Heap, now: int, timeout: int) returns (j: nat)
    requires ServiceOk(svc, h) && RoundRobin(svc, h, now, timeout).server.Some?
    ensures var r := RoundRobin(svc, h, now, timeout);
      var order := Rotation(svc);
      ListIn(r.heap, order) && j < |order| && Some(order[j]) == r.server && LooksWorking(r.heap, order[j]) &&
      forall i :: 0 <= i < j ==> Dead(r.heap, order[i], now, timeout)
  {
    var (first, second) := Halves(svc);
    ListInParts(h, svc.servers, first);
    ListInParts(h, svc.servers, second);
    j := ScanBothFound(h, first, second, now, timeout);
  }

  /** Past a failed active server, selection is the walk over the
      statuses that check left, with the active server cleared. */
  lemma SelectionAfterActive(svc: Service, h: Heap, now: int, timeout: int)
    requires ServiceOk(svc, h) && svc.active.Some? && !ServiceWorks(h, svc.active.value, now, timeout).0
    ensures var h1 := ServiceWorks(h, svc.active.value, now, timeout).1;
      ServiceOk(svc.(active := None), h1) &&
      FirstServer(svc, h, now, timeout) == RoundRobin(svc.(active := None), h1, now, timeout) &&
      HeapServer(h1, svc.active.value) && Dead(h1, svc.active.value, now, timeout)
  {
    var h1 := ServiceWorks(h, svc.active.value, now, timeout).1;
    ServiceWorksOutcome(h, svc.active.value, now, timeout);
    SameShapeKeepsServers(h, h1);
  }

  /** A walk leaves every dead server dead. */
  lemma WalkKeepsDead(svc: Service, h: Heap, now: int, timeout: int, y: ServerId)
    requires ServiceOk(svc, h) && HeapServer(h, y) && Dead(h, y, now, timeout)
    ensures var h' := RoundRobin(svc, h, now, timeout).heap;
      HeapServer(h', y) && Dead(h', y, now, timeout)
  {
    var (first, second) := Halves(svc);
    ListInParts(h, svc.servers, first);
    ListInParts(h, svc.servers, second);
    ScanBothKeepsDead(h, first, second, now, timeout, y);
  }

  /** `SelectionFound` when the active server was set and failed. */
  lemma SelectionFoundAfterActive(svc: Service, h: Heap, now: int, timeout: int) returns (j: nat)
    requires ServiceOk(svc, h) && svc.active.Some? && !ServiceWorks(h, svc.active.value, now, timeout).0
    requires FirstServer(svc, h, now, timeout).server.Some?
    ensures var r := FirstServer(svc, h, now, timeout);
      var order := Rotation(svc);
      HeapServer(r.heap, r.server.value) && LooksWorking(r.heap, r.server.value) &&
      r.service == svc.(active := None, lastTried := r.server) &&
      HeapServer(r.heap, svc.active.value) && Dead(r.heap, svc.active.value, now, timeout) &&
      ListIn(r.heap, order) && j < |order| && Some(order[j]) == r.server &&
      forall i :: 0 <= i < j ==> Dead(r.heap, order[i], now, timeout)
  {
    var h1 := ServiceWorks(h, svc.active.value, now, timeout).1;
    var svc1 := svc.(active := None);
    SelectionAfterActive(svc, h, now, timeout);
    j := WalkFound(svc1, h1, now, timeout);
    WalkKeepsDead(svc1, h1, now, timeout, svc.active.value);
    assert Rotation(svc1) == Rotation(svc);
  }

  /** `get_first_server_entity` when it finds nothing (ENOENT): every
      server of the list, and the former active server, is dead, and both
      the active and the last tried server are cleared. */
  lemma SelectionNone(svc: Service, h: Heap, now: int, timeout: int)
    requires ServiceOk(svc, h) && FirstServer(svc, h, now, timeout).server.None?
    ensures var r := FirstServer(svc, h, now, timeout);
      ListIn(r.heap, svc.servers) &&
      r.service == svc.(active := None, lastTried := None) &&
      (forall y :: y in svc.servers ==> Dead(r.heap, y, now, timeout)) &&
      (svc.active.Some? ==> HeapServer(r.heap, svc.active.value) && Dead(r.heap, svc.active.value, now, timeout))
  {
    if svc.active.None? {
      WalkNone(svc, h, now, timeout);
    } else {
      var h1 := ServiceWorks(h, svc.active.value, now, timeout).1;
      var svc1 := svc.(active := None);
      SelectionAfterActive(svc, h, now, timeout);
      WalkNone(svc1, h1, now, timeout);
      WalkKeepsDead(svc1, h1, now, timeout, svc.active.value);
    }
  }

  /** A walk that finds nothing leaves every server of the list dead. */
  lemma WalkNone(svc: Service, h: Heap, now: int, timeout: int)
    requires ServiceOk(svc, h) && RoundRobin(svc, h, now, timeout).server.None?
    ensures var r := RoundRobin(svc, h, now, timeout);
      ListIn(r.heap, svc.servers) && r.service == svc.(lastTried := None) &&
      forall y :: y in svc.servers ==> Dead(r.heap, y, now, timeout)
  {
    var (first, second) := Halves(svc);
    ListInParts(h, svc.servers, first);
    ListInParts(h, svc.servers, second);
    ScanBothNone(h, first, second, now, timeout);
    ListInParts(RoundRobin(svc, h, now, timeout).heap, first + second, svc.servers);
  }

  /** A pair of scans changes nothing but statuses and timestamps. */
  lemma ScanBothRefreshes(h: Heap, first: seq<ServerId>, second: seq<ServerId>, now: int, timeout: int)
    requires ListIn(h, first) && ListIn(h, second)
    ensures Refreshed(h, ScanBoth(h, first, second, now, timeout).1, now, timeout)
  {
    var h1 := Scan(h, first, 0, now, timeout).1;
    ScanRefreshes(h, first, 0, now, timeout);
    if Scan(h, first, 0, now, timeout).0.None? {
      SameShapeKeepsServers(h, h1);
      ScanRefreshes(h1, second, 0, now, timeout);
      RefreshedTransitive(h, h1, ScanBoth(h, first, second, now, timeout).1, now, timeout);
    }
  }

  /** Selecting a server changes no record but port statuses, server
      timestamps and common statuses. */
  lemma FirstServerRefreshes(svc: Service, h: Heap, now: int, timeout: int)
    requires ServiceOk(svc, h)
    ensures Refreshed(h, FirstServer(svc, h, now, timeout).heap, now, timeout)
  {
    var svc1, h1 := svc, h;
    if svc.active.Some? {
      ServiceWorksRefreshes(h, svc.active.value, now, timeout);
      if ServiceWorks(h, svc.active.value, now, timeout).0 {
        return;
      }
      SelectionAfterActive(svc, h, now, timeout);
      svc1, h1 := svc.(active := None), ServiceWorks(h, svc.active.value, now, timeout).1;
    }
    var (first, second) := Halves(svc1);
    ListInParts(h1, svc1.servers, first);
    ListInParts(h1, svc1.servers, second);
    ScanBothRefreshes(h1, first, second, now, timeout);
    if svc.active.Some? {
      RefreshedTransitive(h, h1, FirstServer(svc, h, now, timeout).heap, now, timeout);
    }
  }
}
