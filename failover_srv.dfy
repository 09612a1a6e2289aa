/** The SRV side of fail-over as values: the expiry of an SRV lookup's
    status, the query string, the block of servers one lookup expanded
    into, the replies a lookup keeps, and the shared name entries the new
    servers are attached to. */
module FailOverSrv {
  import opened Common
  import opened FailOverSpec

  /** `get_srv_data_status`: past the SRV retry timeout a resolved lookup
      becomes expired and a failed one neutral, both with a zeroed
      timestamp; nothing else ever changes. */
  function SrvStatusOf(d: SrvData, now: int, timeout: int): (r: SrvData)
    ensures r == d.(status := r.status, lastChange := r.lastChange)
    ensures !Expired(timeout, d.lastChange, now) ==> r == d
    ensures r != d ==> Expired(timeout, d.lastChange, now) && r.lastChange == 0
  {
    if Expired(timeout, d.lastChange, now) then
      match d.status
      case SrvResolved => d.(status := SrvExpired, lastChange := 0)
      case SrvNotResolved => d.(status := SrvNeutral, lastChange := 0)
      case _ => d
    else d
  }

  /** Which status a check reports: expired exactly when the lookup was
      expired already or was resolved and is now stale; neutral exactly
      when it was neutral or failed and is now stale; the other two only
      when they were so and are not stale. */
  lemma SrvStatusOutcome(d: SrvData, now: int, timeout: int)
    ensures var s := SrvStatusOf(d, now, timeout).status;
      (s == SrvExpired <==> d.status == SrvExpired || (d.status == SrvResolved && Expired(timeout, d.lastChange, now))) &&
      (s == SrvNeutral <==> d.status == SrvNeutral || (d.status == SrvNotResolved && Expired(timeout, d.lastChange, now))) &&
      (s == SrvResolved <==> d.status == SrvResolved && !Expired(timeout, d.lastChange, now)) &&
      (s == SrvNotResolved <==> d.status == SrvNotResolved && !Expired(timeout, d.lastChange, now))
  {
  }

  /** Checking twice at the same time is checking once. */
  lemma SrvStatusIdempotent(d: SrvData, now: int, timeout: int)
    ensures SrvStatusOf(SrvStatusOf(d, now, timeout), now, timeout) == SrvStatusOf(d, now, timeout)
  {
  }

  /** `get_srv_query`: the owner name of the SRV records, `_srv._proto.domain`,
      as section "The format of the SRV RR" of RFC 2782 writes it. */
  function SrvQuery(d: SrvData): (q: string)
    ensures |q| == |d.srv| + |d.proto| + |d.domain| + 4
    ensures q[0] == '_' && q[|d.srv| + 1] == '.' && q[|d.srv| + 2] == '_' && q[|d.srv| + |d.proto| + 3] == '.'
  {
    "_" + d.srv + "._" + d.proto + "." + d.domain
  }

  predicate NoDot(s: string)
  {
    forall i :: 0 <= i < |s| ==> s[i] != '.'
  }

  /** The position of the first dot, or the length when there is none. */
  function FirstDot(s: string): (k: nat)
    ensures k <= |s| && (k < |s| ==> s[k] == '.')
    ensures forall i :: 0 <= i < k ==> s[i] != '.'
  {
    if s == [] then 0
    else if s[0] == '.' then 0
    else 1 + FirstDot(s[1..])
  }

  /** Reading a query back: the service label up to the first dot, the
      protocol label up to the next one, and the rest as the domain. */
  function ParseSrvQuery(q: string): (r: Option<(string, string, string)>)
  {
    if |q| < 1 || q[0] != '_' then None
    else
      var rest := q[1..];
      var i := FirstDot(rest);
      if i + 1 >= |rest| || rest[i + 1] != '_' then None
      else
        match ParseLabel(rest[i + 2..])
        case None => None
        case Some((proto, domain)) => Some((rest[..i], proto, domain))
  }

  /** A label up to the first dot and what follows that dot. */
  function ParseLabel(s: string): (r: Option<(string, string)>)
  {
    var j := FirstDot(s);
    if j == |s| then None else Some((s[..j], s[j + 1..]))
  }

  lemma {:induction false} FirstDotAfter(a: string, b: string)
    requires NoDot(a)
    ensures FirstDot(a + "." + b) == |a|
  {
    if a != [] {
      assert (a + "." + b)[1..] == a[1..] + "." + b;
      FirstDotAfter(a[1..], b);
    }
  }

  lemma ParseLabelOf(a: string, b: string)
    requires NoDot(a)
    ensures ParseLabel(a + "." + b) == Some((a, b))
  {
    FirstDotAfter(a, b);
    assert (a + "." + b)[..|a|] == a;
    assert (a + "." + b)[|a| + 1..] == b;
  }

  /** The query of a lookup whose service and protocol labels hold no dot
      reads back as those labels and the domain. */
  lemma SrvQueryRoundTrip(d: SrvData)
    requires NoDot(d.srv) && NoDot(d.proto)
    ensures ParseSrvQuery(SrvQuery(d)) == Some((d.srv, d.proto, d.domain))
  {
    var tail := d.proto + "." + d.domain;
    var rest := d.srv + "." + ("_" + tail);
    assert SrvQuery(d) == "_" + rest;
    assert SrvQuery(d)[1..] == rest;
    FirstDotAfter(d.srv, "_" + tail);
    assert rest[|d.srv| + 1] == '_';
    assert rest[|d.srv| + 2..] == tail;
    assert rest[..|d.srv|] == d.srv;
    ParseLabelOf(d.proto, d.domain);
  }

  /** Two lookups with dot-free labels send the same query only when they
      ask the same question. */
  lemma SrvQueryInjective(a: SrvData, b: SrvData)
    requires NoDot(a.srv) && NoDot(a.proto) && NoDot(b.srv) && NoDot(b.proto)
    requires SrvQuery(a) == SrvQuery(b)
    ensures a.srv == b.srv && a.proto == b.proto && a.domain == b.domain
  {
    SrvQueryRoundTrip(a);
    SrvQueryRoundTrip(b);
  }

  /** The server shares the `srv_data` of meta server `m`. */
  predicate SharesSrv(servers: map<ServerId, Server>, x: ServerId, m: ServerId)
  {
    x in servers && servers[x].srv == Some(m)
  }

  /** The first position of the run of servers sharing `m`'s lookup that
      ends at `p`. */
  function BlockStart(servers: map<ServerId, Server>, list: seq<ServerId>, p: nat, m: ServerId): (lo: nat)
    requires p < |list|
    ensures lo <= p
    ensures forall k :: lo <= k < p ==> SharesSrv(servers, list[k], m)
    ensures lo == 0 || !SharesSrv(servers, list[lo - 1], m)
  {
    if p > 0 && SharesSrv(servers, list[p - 1], m) then BlockStart(servers, list, p - 1, m) else p
  }

  /** The last position of the run of servers sharing `m`'s lookup that
      starts at `p`. */
  function BlockEnd(servers: map<ServerId, Server>, list: seq<ServerId>, p: nat, m: ServerId): (hi: nat)
    requires p < |list|
    ensures p <= hi < |list|
    ensures forall k :: p < k <= hi ==> SharesSrv(servers, list[k], m)
    ensures hi + 1 == |list| || !SharesSrv(servers, list[hi + 1], m)
    decreases |list| - p
  {
    if p + 1 < |list| && SharesSrv(servers, list[p + 1], m) then BlockEnd(servers, list, p + 1, m) else p
  }

  /** The list with positions `lo` to `hi` replaced by the meta server. */
  function Collapsed(list: seq<ServerId>, lo: nat, hi: nat, meta: ServerId): (r: seq<ServerId>)
    requires lo <= hi < |list|
    ensures |r| == |list| - (hi - lo)
    ensures r[..lo] == list[..lo] && r[lo] == meta && r[lo + 1..] == list[hi + 1..]
  {
    list[..lo] + [meta] + list[hi + 1..]
  }

  /** The list with position `p` replaced by the servers `news`. */
  function Expanded(list: seq<ServerId>, p: nat, news: seq<ServerId>): (r: seq<ServerId>)
    requires p < |list|
    ensures |r| == |list| - 1 + |news|
    ensures r[..p] == list[..p] && r[p..p + |news|] == news && r[p + |news|..] == list[p + 1..]
  {
    list[..p] + news + list[p + 1..]
  }

  /** After collapsing, the list holds the meta server and exactly the
      servers outside the run. */
  lemma CollapsedMembers(list: seq<ServerId>, lo: nat, hi: nat, meta: ServerId)
    requires lo <= hi < |list|
    ensures forall x :: x in Collapsed(list, lo, hi, meta) <==> x == meta || x in list[..lo] || x in list[hi + 1..]
  {
  }

  /** Joining two duplicate-free lists with no common member gives a
      duplicate-free list. */
  lemma DistinctConcat(a: seq<ServerId>, b: seq<ServerId>)
    requires Distinct(a) && Distinct(b)
    requires forall x :: x in a ==> x !in b
    ensures Distinct(a + b)
  {
    var c := a + b;
    forall i, j | 0 <= i < j < |c|
      ensures c[i] != c[j]
    {
      if j < |a| {
        assert c[i] == a[i] && c[j] == a[j];
      } else if i >= |a| {
        assert c[i] == b[i - |a|] && c[j] == b[j - |a|];
      } else {
        assert c[i] == a[i] && c[j] == b[j - |a|];
        assert a[i] in a;
      }
    }
  }

  /** Collapsing a duplicate-free list onto a meta server not in it keeps
      it free of duplicates. */
  lemma CollapsedDistinct(list: seq<ServerId>, lo: nat, hi: nat, meta: ServerId)
    requires lo <= hi < |list| && Distinct(list) && meta !in list
    ensures Distinct(Collapsed(list, lo, hi, meta))
  {
    var a, b := list[..lo], list[hi + 1..];
    assert Distinct(a) by {
      forall i, j | 0 <= i < j < |a| ensures a[i] != a[j] { assert a[i] == list[i] && a[j] == list[j]; }
    }
    assert Distinct(b) by {
      forall i, j | 0 <= i < j < |b| ensures b[i] != b[j] { assert b[i] == list[hi + 1 + i] && b[j] == list[hi + 1 + j]; }
    }
    forall i, j | 0 <= i < |a| && 0 <= j < |b|
      ensures a[i] != b[j]
    {
      assert a[i] == list[i] && b[j] == list[hi + 1 + j];
    }
    forall x | x in a
      ensures x !in [meta]
    {
      var i :| 0 <= i < |a| && a[i] == x;
      assert list[i] == x;
    }
    DistinctConcat(a, [meta]);
    forall j | 0 <= j < |b|
      ensures b[j] != meta
    {
      assert b[j] == list[hi + 1 + j];
    }
    DistinctConcat(a + [meta], b);
  }

  /** After expanding, the list holds the new servers and exactly the
      servers other than the one at `p`. */
  lemma ExpandedMembers(list: seq<ServerId>, p: nat, news: seq<ServerId>)
    requires p < |list|
    ensures forall x :: x in Expanded(list, p, news) <==> x in news || x in list[..p] || x in list[p + 1..]
  {
  }

  /** Expanding a duplicate-free list by duplicate-free servers none of
      which is listed keeps it free of duplicates. */
  lemma ExpandedDistinct(list: seq<ServerId>, p: nat, news: seq<ServerId>)
    requires p < |list| && Distinct(list) && Distinct(news)
    requires forall x :: x in news ==> x !in list
    ensures Distinct(Expanded(list, p, news))
  {
    var a, b := list[..p], list[p + 1..];
    assert Distinct(a) by {
      forall i, j | 0 <= i < j < |a| ensures a[i] != a[j] { assert a[i] == list[i] && a[j] == list[j]; }
    }
    assert Distinct(b) by {
      forall i, j | 0 <= i < j < |b| ensures b[i] != b[j] { assert b[i] == list[p + 1 + i] && b[j] == list[p + 1 + j]; }
    }
    forall i, j | 0 <= i < |a| && 0 <= j < |b|
      ensures a[i] != b[j]
    {
      assert a[i] == list[i] && b[j] == list[p + 1 + j];
    }
    forall i | 0 <= i < |a|
      ensures a[i] !in news
    {
      assert a[i] == list[i];
    }
    DistinctConcat(a, news);
    forall j | 0 <= j < |b|
      ensures b[j] !in a + news
    {
      assert b[j] == list[p + 1 + j];
    }
    DistinctConcat(a + news, b);
  }

  /** The run start is the only position meeting its description. */
  lemma BlockStartUnique(servers: map<ServerId, Server>, list: seq<ServerId>, p: nat, m: ServerId, lo: nat)
    requires lo <= p < |list|
    requires forall k :: lo <= k < p ==> SharesSrv(servers, list[k], m)
    requires lo == 0 || !SharesSrv(servers, list[lo - 1], m)
    ensures BlockStart(servers, list, p, m) == lo
  {
  }

  /** The run end is the only position meeting its description. */
  lemma BlockEndUnique(servers: map<ServerId, Server>, list: seq<ServerId>, p: nat, m: ServerId, hi: nat)
    requires p <= hi < |list|
    requires forall k :: p < k <= hi ==> SharesSrv(servers, list[k], m)
    requires hi + 1 == |list| || !SharesSrv(servers, list[hi + 1], m)
    ensures BlockEnd(servers, list, p, m) == hi
  {
  }

  /** Collapsing undoes expanding: when a meta server that no neighbour
      shares a lookup with is replaced by servers that all share it,
      collapsing at any of them finds exactly that block and puts the
      meta server back, giving the list as it was. */
  lemma CollapseUndoesExpansion(servers: map<ServerId, Server>, list: seq<ServerId>, p: nat, news: seq<ServerId>, m: ServerId, q: nat)
    requires p < |list| && list[p] == m && q < |news|
    requires forall k :: 0 <= k < |news| ==> SharesSrv(servers, news[k], m)
    requires p == 0 || !SharesSrv(servers, list[p - 1], m)
    requires p + 1 == |list| || !SharesSrv(servers, list[p + 1], m)
    ensures var e := Expanded(list, p, news);
      BlockStart(servers, e, p + q, m) == p && BlockEnd(servers, e, p + q, m) == p + |news| - 1 &&
      Collapsed(e, p, p + |news| - 1, m) == list
  {
    var e := Expanded(list, p, news);
    ExpandedRunStart(servers, list, p, news, m, q);
    ExpandedRunEnd(servers, list, p, news, m, q);
    assert e[..p] == list[..p] && e[p + |news|..] == list[p + 1..];
    assert list == list[..p] + [m] + list[p + 1..];
  }

  lemma ExpandedRunStart(servers: map<ServerId, Server>, list: seq<ServerId>, p: nat, news: seq<ServerId>, m: ServerId, q: nat)
    requires p < |list| && q < |news|
    requires forall k :: 0 <= k < |news| ==> SharesSrv(servers, news[k], m)
    requires p == 0 || !SharesSrv(servers, list[p - 1], m)
    ensures BlockStart(servers, Expanded(list, p, news), p + q, m) == p
  {
    var e := Expanded(list, p, news);
    forall k | p <= k < p + q
      ensures SharesSrv(servers, e[k], m)
    {
      assert e[k] == e[p..p + |news|][k - p];
    }
    if p > 0 {
      assert e[p - 1] == e[..p][p - 1];
    }
    BlockStartUnique(servers, e, p + q, m, p);
  }

  lemma ExpandedRunEnd(servers: map<ServerId, Server>, list: seq<ServerId>, p: nat, news: seq<ServerId>, m: ServerId, q: nat)
    requires p < |list| && q < |news|
    requires forall k :: 0 <= k < |news| ==> SharesSrv(servers, news[k], m)
    requires p + 1 == |list| || !SharesSrv(servers, list[p + 1], m)
    ensures BlockEnd(servers, Expanded(list, p, news), p + q, m) == p + |news| - 1
  {
    var e := Expanded(list, p, news);
    forall k | p + q < k <= p + |news| - 1
      ensures SharesSrv(servers, e[k], m)
    {
      assert e[k] == e[p..p + |news|][k - p];
    }
    if p + |news| < |e| {
      assert e[p + |news|] == e[p + |news|..][0];
    }
    BlockEndUnique(servers, e, p + q, m, p + |news| - 1);
  }

  /** One SRV record of a lookup's answer: a target host and a port. */
  datatype SrvReply = SrvReply(host: string, port: int)

  predicate ListKnown(servers: map<ServerId, Server>, list: seq<ServerId>)
  {
    forall k :: 0 <= k < |list| ==> list[k] in servers
  }

  /** Some server of the list already uses the port; its host is not
      looked at. */
  predicate PortUsed(servers: map<ServerId, Server>, list: seq<ServerId>, port: int)
    requires ListKnown(servers, list)
  {
    exists k :: 0 <= k < |list| && servers[list[k]].port == port
  }

  /** The replies `resolve_srv_done` turns into servers, in answer order:
      those whose port no server of the service list uses. */
  function Kept(servers: map<ServerId, Server>, list: seq<ServerId>, replies: seq<SrvReply>): (r: seq<SrvReply>)
    requires ListKnown(servers, list)
    ensures |r| <= |replies|
  {
    if replies == [] then []
    else
      var last := replies[|replies| - 1];
      Kept(servers, list, replies[..|replies| - 1]) + (if PortUsed(servers, list, last.port) then [] else [last])
  }

  /** One more record: kept or not by its port alone. */
  lemma KeptStep(servers: map<ServerId, Server>, list: seq<ServerId>, replies: seq<SrvReply>, j: nat)
    requires ListKnown(servers, list) && j < |replies|
    ensures Kept(servers, list, replies[..j + 1]) ==
      Kept(servers, list, replies[..j]) + (if PortUsed(servers, list, replies[j].port) then [] else [replies[j]])
  {
    assert replies[..j + 1][..j] == replies[..j];
  }

  /** The record loop's bookkeeping: what is kept after one more record,
      given whether its port was found unused. */
  lemma KeptNext(servers: map<ServerId, Server>, list: seq<ServerId>, replies: seq<SrvReply>, j: nat,
                 kept: seq<SrvReply>, unused: bool)
    requires ListKnown(servers, list) && j < |replies|
    requires kept == Kept(servers, list, replies[..j])
    requires unused <==> !PortUsed(servers, list, replies[j].port)
    ensures Kept(servers, list, replies[..j + 1]) == if unused then kept + [replies[j]] else kept
  {
    KeptStep(servers, list, replies, j);
  }

  /** A reply is kept exactly when its port is unused. */
  lemma {:induction false} KeptMembers(servers: map<ServerId, Server>, list: seq<ServerId>, replies: seq<SrvReply>)
    requires ListKnown(servers, list)
    ensures forall r :: r in Kept(servers, list, replies) <==> r in replies && !PortUsed(servers, list, r.port)
  {
    if replies != [] {
      var init := replies[..|replies| - 1];
      KeptMembers(servers, list, init);
      assert replies == init + [replies[|replies| - 1]];
    }
  }

  /** As written, a reply naming a host no server has is still dropped
      when its port is taken by some other host. */
  lemma UsedPortDropsNewHost(servers: map<ServerId, Server>, list: seq<ServerId>, reply: SrvReply, k: nat)
    requires ListKnown(servers, list) && k < |list| && servers[list[k]].port == reply.port
    ensures Kept(servers, list, [reply]) == []
  {
    assert [reply][..0] == [];
  }

  /** As written, the check looks only at the service list, not at the
      servers made from earlier replies: a reply repeated in the answer
      becomes two servers. */
  lemma RepeatedReplyKeptTwice(servers: map<ServerId, Server>, list: seq<ServerId>, reply: SrvReply)
    requires ListKnown(servers, list) && !PortUsed(servers, list, reply.port)
    ensures Kept(servers, list, [reply, reply]) == [reply, reply]
  {
    assert [reply, reply][..1] == [reply];
    assert [reply][..0] == [];
  }

  /** `get_server_common`'s search: the first entry whose name equals the
      given one ignoring case. */
  function FindCommon(commons: seq<ServerCommon>, name: string): (r: Option<nat>)
    ensures r.Some? ==>
      r.value < |commons| && EqualsIgnoreCase(name, commons[r.value].name) &&
      forall k :: 0 <= k < r.value ==> !EqualsIgnoreCase(name, commons[k].name)
    ensures r.None? ==> forall k :: 0 <= k < |commons| ==> !EqualsIgnoreCase(name, commons[k].name)
  {
    if commons == [] then None
    else if EqualsIgnoreCase(name, commons[0].name) then Some(0)
    else
      var r := FindCommon(commons[1..], name);
      if r.Some? then Some(r.value + 1) else None
  }

  /** Appending entries does not change a search that already succeeds. */
  lemma FindCommonStable(commons: seq<ServerCommon>, more: seq<ServerCommon>, name: string)
    requires FindCommon(commons, name).Some?
    ensures FindCommon(commons + more, name) == FindCommon(commons, name)
  {
    var i := FindCommon(commons, name).value;
    var j := FindCommon(commons + more, name);
    assert forall k :: 0 <= k < |commons| ==> (commons + more)[k] == commons[k];
  }

  /** The entry a new server with this name is attached to: the existing
      one of the same name ignoring case, or a new one appended at the end
      with an unresolved name and a zero timestamp. */
  function WithCommon(commons: seq<ServerCommon>, name: string): (r: (seq<ServerCommon>, nat))
    ensures r.1 < |r.0| && FindCommon(r.0, name) == Some(r.1)
    ensures FindCommon(commons, name).Some? ==> r.0 == commons
    ensures FindCommon(commons, name).None? ==> r.0 == commons + [ServerCommon(name, NameNotResolved, 0)]
  {
    match FindCommon(commons, name)
    case Some(i) => (commons, i)
    case None =>
      var r := commons + [ServerCommon(name, NameNotResolved, 0)];
      assert r[|commons|].name == name;
      EqualsIgnoreCaseReflexive(name);
      assert forall k :: 0 <= k < |commons| ==> r[k] == commons[k];
      (r, |commons|)
  }

  /** Names equal ignoring case find the same entry. */
  lemma {:induction false} FindCommonCaseless(commons: seq<ServerCommon>, a: string, b: string)
    requires EqualsIgnoreCase(a, b)
    ensures FindCommon(commons, a) == FindCommon(commons, b)
  {
    if commons != [] {
      SameCaseClass(a, b, commons[0].name);
      FindCommonCaseless(commons[1..], a, b);
    }
  }

  /** Servers whose names are equal ignoring case share one entry: once
      the first has its entry, the second is given that same entry and no
      entry is added. */
  lemma SharedEntry(commons: seq<ServerCommon>, a: string, b: string)
    requires EqualsIgnoreCase(a, b)
    ensures WithCommon(WithCommon(commons, a).0, b) == WithCommon(commons, a)
  {
    FindCommonCaseless(WithCommon(commons, a).0, a, b);
  }

  /** No two entries have names equal ignoring case. */
  predicate NamesDistinct(commons: seq<ServerCommon>)
  {
    forall i, j :: 0 <= i < j < |commons| ==> !EqualsIgnoreCase(commons[i].name, commons[j].name)
  }

  /** Attaching a name never creates a second entry for a name already
      present, in any letter case. */
  lemma WithCommonKeepsNamesDistinct(commons: seq<ServerCommon>, name: string)
    requires NamesDistinct(commons)
    ensures NamesDistinct(WithCommon(commons, name).0)
  {
    var r := WithCommon(commons, name).0;
    if FindCommon(commons, name).None? {
      forall i, j | 0 <= i < j < |r|
        ensures !EqualsIgnoreCase(r[i].name, r[j].name)
      {
        if j == |commons| {
          EqualsIgnoreCaseIsFoldedEquality(r[i].name, name);
          EqualsIgnoreCaseIsFoldedEquality(name, r[i].name);
        }
      }
    }
  }

  /** The common list after attaching one server per reply, in order. */
  function CommonsFor(commons: seq<ServerCommon>, replies: seq<SrvReply>): (r: seq<ServerCommon>)
    ensures |commons| <= |r| && r[..|commons|] == commons
  {
    if replies == [] then commons
    else
      var before := CommonsFor(commons, replies[..|replies| - 1]);
      assert before[..|commons|] == commons;
      var after := WithCommon(before, replies[|replies| - 1].host).0;
      assert after[..|before|] == before;
      after
  }

  /** Every reply's host finds its entry among the resulting commons. */
  lemma {:induction false} CommonsForFinds(commons: seq<ServerCommon>, replies: seq<SrvReply>, i: nat)
    requires i < |replies|
    ensures FindCommon(CommonsFor(commons, replies), replies[i].host).Some?
  {
    var init := replies[..|replies| - 1];
    var before := CommonsFor(commons, init);
    var after := CommonsFor(commons, replies);
    if i < |replies| - 1 {
      CommonsForFinds(commons, init, i);
      assert init[i] == replies[i];
      if FindCommon(before, replies[|replies| - 1].host).None? {
        FindCommonStable(before, [ServerCommon(replies[|replies| - 1].host, NameNotResolved, 0)], replies[i].host);
      }
    }
  }
}
