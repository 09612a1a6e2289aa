/** The handlers InfoPipe registers with the monitor: identity, ping and
    reload, and the NULL-terminated table that binds them to method names.
    The method names, the service name and the version are defined outside
    this file, so they are parameters here. */
module MonitorMethods {
  import opened Common

  datatype Handler = Identity | Ping | Reload

  /** One argument appended to a method return. */
  datatype ReplyArg = StringArg(s: string) | Uint16Arg(v: int)

  /** A method return with its arguments, or a handler failure. */
  datatype MethodReply = MethodReturn(args: seq<ReplyArg>) | HandlerFailed(errno: int)

  /** What the identity handler announces about the service. */
  datatype ServiceInfo = ServiceInfo(name: string, version: int)

  predicate ValidInfo(info: ServiceInfo)
  {
    0 <= info.version < 0x1_0000
  }

  /** `service_identity`: the service name and its 16-bit version; a
      failure to append the arguments is EIO. */
  function ServiceIdentity(info: ServiceInfo, appendOk: bool): (r: MethodReply)
    requires ValidInfo(info)
    ensures appendOk <==> r.MethodReturn?
    ensures r.MethodReturn? ==>
              |r.args| == 2 && r.args[0] == StringArg(info.name) &&
              r.args[1].Uint16Arg? && r.args[1].v == info.version && 0 <= r.args[1].v < 0x1_0000
    ensures r.HandlerFailed? ==> r.errno == EIO
  {
    if appendOk then MethodReturn([StringArg(info.name), Uint16Arg(info.version)]) else HandlerFailed(EIO)
  }

  /** `service_pong`: an empty method return; a failure to append is EIO. */
  function ServicePong(appendOk: bool): (r: MethodReply)
    ensures appendOk ==> r == MethodReturn([])
    ensures !appendOk ==> r == HandlerFailed(EIO)
  {
    if appendOk then MethodReturn([]) else HandlerFailed(EIO)
  }

  /** `service_reload`: nothing is reloaded; the receipt is acknowledged
      exactly as a ping is. */
  function ServiceReload(appendOk: bool): (r: MethodReply)
  {
    ServicePong(appendOk)
  }

  /** Running the handler a table entry names. */
  function Run(h: Handler, info: ServiceInfo, appendOk: bool): (r: MethodReply)
    requires ValidInfo(info)
  {
    match h
    case Identity => ServiceIdentity(info, appendOk)
    case Ping => ServicePong(appendOk)
    case Reload => ServiceReload(appendOk)
  }

  /** Every handler fails exactly when appending to its reply fails, and
      then with EIO; only identity answers with arguments, ping and reload
      with an empty method return. */
  lemma HandlerFailsOnlyOnAppend(h: Handler, info: ServiceInfo, appendOk: bool)
    requires ValidInfo(info)
    ensures Run(h, info, appendOk).HandlerFailed? <==> !appendOk
    ensures Run(h, info, appendOk).HandlerFailed? ==> Run(h, info, appendOk).errno == EIO
    ensures Run(h, info, appendOk).MethodReturn? && h != Identity ==> Run(h, info, appendOk).args == []
    ensures Run(h, info, appendOk).MethodReturn? && h == Identity ==>
              Run(h, info, appendOk).args == [StringArg(info.name), Uint16Arg(info.version)]
  {
  }

  /** The names the monitor calls the three methods by. */
  datatype MethodNames = MethodNames(identity: string, ping: string, reload: string)

  /** `mon_sbus_methods`, without its NULL terminator. */
  function MonitorTable(names: MethodNames): (t: seq<(string, Handler)>)
    ensures |t| == 3
    ensures t[0] == (names.identity, Identity) && t[1] == (names.ping, Ping) && t[2] == (names.reload, Reload)
  {
    [(names.identity, Identity), (names.ping, Ping), (names.reload, Reload)]
  }

  /** Walking a method table up to its terminator: the handler of the first
      entry carrying the name, or none. */
  function Lookup(table: seq<(string, Handler)>, name: string): (r: Option<Handler>)
    ensures r.None? <==> forall i :: 0 <= i < |table| ==> table[i].0 != name
    ensures r.Some? ==> exists i :: 0 <= i < |table| && table[i] == (name, r.value) &&
                                   forall j :: 0 <= j < i ==> table[j].0 != name
  {
    if table == [] then None
    else if table[0].0 == name then Some(table[0].1)
    else
      var r := Lookup(table[1..], name);
      if r.Some? then
        var i :| 0 <= i < |table[1..]| && table[1..][i] == (name, r.value) &&
                 forall j :: 0 <= j < i ==> table[1..][j].0 != name;
        assert table[i + 1] == (name, r.value);
        r
      else r
  }

  /** Reload is answered exactly as ping is, whatever the outcome of
      appending. */
  lemma ReloadIsPing(info: ServiceInfo, appendOk: bool)
    requires ValidInfo(info)
    ensures Run(Reload, info, appendOk) == Run(Ping, info, appendOk)
    ensures Run(Reload, info, appendOk) == MethodReturn([]) <==> appendOk
  {
  }

  /** With three distinct names each method reaches its own handler and any
      other name reaches none. */
  lemma MonitorDispatch(names: MethodNames, name: string)
    requires names.identity != names.ping && names.identity != names.reload && names.ping != names.reload
    ensures Lookup(MonitorTable(names), names.identity) == Some(Identity)
    ensures Lookup(MonitorTable(names), names.ping) == Some(Ping)
    ensures Lookup(MonitorTable(names), names.reload) == Some(Reload)
    ensures Lookup(MonitorTable(names), name).None? <==>
      name != names.identity && name != names.ping && name != names.reload
  {
    var t := MonitorTable(names);
    assert t[1..][1..] == [t[2]];
  }
}
