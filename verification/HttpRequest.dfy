/** HTTP requests reconstructed from the connection the sample opened last and the handle the request
    hangs on. Nothing is reset between processes. */
module HttpRequest {
  import opened PyModel

  /** `WebRequest` stands for WinHttpGetProxyForUrl and InternetOpenUrl, which are treated alike. */
  datatype Call =
    | Connect(host: Value, port: Value, ret: Value)
    | OpenRequest(handle: Value, path: Value, ret: Value)
    | WebRequest(url: Value)

  datatype Row = Row(uris: seq<Value>, curHandle: Value, port: Value)

  /** An entry of the report: a marked call, or a URL with its parts not yet joined. */
  datatype Entry = Mark(pid: nat) | Request(host: Value, port: Value, uri: Value) | Url(url: Value)

  type Trace = seq<Event<Call>>

  predicate Truthy(v: Value) {
    match v
    case Absent => false
    case Number(n) => n != 0
    case Text(s) => s != ""
  }

  /** `any(domain in v for domain in passlist)`; None when the test raises because v is no text. */
  function Listed(passlist: seq<string>, v: Value): Option<bool> {
    if v.Text? then Some(exists i :: 0 <= i < |passlist| && Contains(v.s, passlist[i]))
    else if passlist == [] then Some(false)
    else None
  }

  predicate Admitted(passlist: seq<string>, v: Value) {
    Listed(passlist, v) == Some(false)
  }

  predicate RealPath(v: Value) { v != Text("/") && v != Text("") }

  // ---- closed forms over the trace ----

  /** The host of the last InternetConnect. */
  ghost function LastHost(t: Trace): Value {
    if t == [] then Text("")
    else if Last(t).call.Connect? then Last(t).call.host
    else LastHost(Front(t))
  }

  /** The one handle a request can hang on: the result of the last connect, or of the last request
      accepted since. No host is involved. */
  ghost function Token(passlist: seq<string>, t: Trace): Value
    decreases t, 0
  {
    if t == [] then Absent
    else if Last(t).call.Connect? then Text(Str(Last(t).call.ret))
    else if Accepts(passlist, Front(t), Last(t)) then Last(t).call.ret
    else Token(passlist, Front(t))
  }

  /** The trace t makes e a request of the last host. */
  ghost predicate Accepts(passlist: seq<string>, t: Trace, e: Event<Call>)
    decreases t, 1
  {
    && e.call.OpenRequest? && RealPath(e.call.path)
    && Truthy(LastHost(t)) && Admitted(passlist, LastHost(t))
    && Text(Str(e.call.handle)) == Token(passlist, t)
  }

  /** The paths requested from host h, in order. */
  ghost function Uris(passlist: seq<string>, t: Trace, h: Value): seq<Value> {
    if t == [] then []
    else if Accepts(passlist, Front(t), Last(t)) && LastHost(Front(t)) == h
    then Uris(passlist, Front(t), h) + [Last(t).call.path]
    else Uris(passlist, Front(t), h)
  }

  /** Some connect to h passed the pass list. */
  ghost predicate Connected(passlist: seq<string>, t: Trace, h: Value) {
    Admitted(passlist, h) && exists e :: e in t && e.call.Connect? && e.call.host == h
  }

  /** The port of the last connect to h. */
  ghost function Port(t: Trace, h: Value): Value {
    if t == [] then Absent
    else if Last(t).call.Connect? && Last(t).call.host == h then Last(t).call.port
    else Port(Front(t), h)
  }

  ghost predicate UrlSeen(passlist: seq<string>, e: Event<Call>) {
    e.call.WebRequest? && Truthy(e.call.url) && Admitted(passlist, e.call.url)
  }

  ghost predicate Requested(passlist: seq<string>, t: Trace, u: Value) {
    exists e :: e in t && UrlSeen(passlist, e) && e.call.url == u
  }

  ghost function Marks(passlist: seq<string>, t: Trace): seq<Entry> {
    if t == [] then []
    else if UrlSeen(passlist, Last(t)) && Last(t).proc.id != 0 then Marks(passlist, Front(t)) + [Mark(Last(t).proc.id)]
    else Marks(passlist, Front(t))
  }

  /** The call makes a pass-list test on something that is no text. */
  ghost predicate Raises(passlist: seq<string>, t: Trace, e: Event<Call>) {
    match e.call
    case Connect(h, _, _) => Listed(passlist, h).None?
    case OpenRequest(_, _, _) => Listed(passlist, LastHost(t)).None?
    case WebRequest(u) => Truthy(u) && Listed(passlist, u).None?
  }

  // ---- what the closed forms mean ----

  /** A path is listed under h exactly when some accepted request for it came while h was the last
      host. */
  lemma {:induction false} UrisMeaning(w: seq<string>, t: Trace, h: Value, u: Value)
    ensures u in Uris(w, t, h) <==>
            exists i :: 0 <= i < |t| && Accepts(w, t[..i], t[i]) && LastHost(t[..i]) == h && t[i].call.path == u
  {
    if t != [] {
      var f := Front(t);
      UrisMeaning(w, f, h, u);
      hide Accepts, LastHost;
      forall i | 0 <= i < |f| ensures t[..i] == f[..i] && t[i] == f[i] {
      }
      assert t[..|f|] == f;
      if u in Uris(w, f, h) {
        var i :| 0 <= i < |f| && Accepts(w, f[..i], f[i]) && LastHost(f[..i]) == h && f[i].call.path == u;
        assert t[..i] == f[..i] && t[i] == f[i];
      }
    }
  }

  /** The handle comes from the latest connect or accepted request: nothing after it changed it. */
  lemma {:induction false} TokenOrigin(w: seq<string>, t: Trace) returns (i: nat)
    requires exists e :: e in t && e.call.Connect?
    ensures i < |t| && Token(w, t) == Token(w, t[..i + 1])
    ensures t[i].call.Connect? || Accepts(w, t[..i], t[i])
    ensures forall j: nat :: i < j < |t| ==> !t[j].call.Connect? && !Accepts(w, t[..j], t[j])
  {
    var f, e := Front(t), Last(t);
    assert t[..|t|] == t && t[..|t| - 1] == f;
    if e.call.Connect? || Accepts(w, f, e) {
      i := |t| - 1;
    } else {
      i := TokenOrigin(w, f);
      hide Accepts;
      assert t[..i + 1] == f[..i + 1] && t[..i] == f[..i];
      forall j: nat | i < j < |t| ensures !t[j].call.Connect? && !Accepts(w, t[..j], t[j]) {
        if j < |f| { assert t[..j] == f[..j] && t[j] == f[j]; }
      }
    }
  }

  lemma {:induction false} AcceptedHostIsConnected(w: seq<string>, t: Trace)
    requires Truthy(LastHost(t)) && Admitted(w, LastHost(t))
    ensures Connected(w, t, LastHost(t))
  {
    if t != [] {
      assert t == Front(t) + [Last(t)];
      if !Last(t).call.Connect? { AcceptedHostIsConnected(w, Front(t)); }
    }
  }

  /** Every path hangs on a connected host, which is not on the pass list. */
  lemma {:induction false} UrisNeedHost(w: seq<string>, t: Trace, h: Value)
    requires Uris(w, t, h) != []
    ensures Connected(w, t, h) && Truthy(h)
  {
    assert t == Front(t) + [Last(t)];
    if Accepts(w, Front(t), Last(t)) && LastHost(Front(t)) == h {
      AcceptedHostIsConnected(w, Front(t));
    } else {
      UrisNeedHost(w, Front(t), h);
    }
  }

  // ---- the same in full ----

  lemma ListedInFull(w: seq<string>, v: Value)
    ensures Listed(w, v).None? <==> !v.Text? && w != []
    ensures Listed(w, v) == Some(true) <==>
      v.Text? && exists i, before, rest :: 0 <= i < |w| && v.s == before + w[i] + rest
  {
    hide Contains;
    if v.Text? {
      forall i | 0 <= i < |w| ensures Contains(v.s, w[i]) <==> exists before, rest :: v.s == before + w[i] + rest {
        ContainsInFull(v.s, w[i]);
      }
    }
  }

  lemma {:induction false} LastHostInFull(t: Trace, i: nat)
    requires i < |t| && t[i].call.Connect? && forall j :: i < j < |t| ==> !t[j].call.Connect?
    ensures LastHost(t) == t[i].call.host
  {
    if i < |t| - 1 { LastHostInFull(Front(t), i); }
  }

  lemma {:induction false} PortInFull(t: Trace, h: Value, i: nat)
    requires i < |t| && t[i].call.Connect? && t[i].call.host == h
    requires forall j :: i < j < |t| && t[j].call.Connect? ==> t[j].call.host != h
    ensures Port(t, h) == t[i].call.port
  {
    if i < |t| - 1 { PortInFull(Front(t), h, i); }
  }

  lemma AcceptsInFull(w: seq<string>, t: Trace, e: Event<Call>)
    ensures Accepts(w, t, e) <==>
      && e.call.OpenRequest? && e.call.path != Text("/") && e.call.path != Text("")
      && LastHost(t) != Absent && LastHost(t) != Number(0) && LastHost(t) != Text("")
      && Listed(w, LastHost(t)) == Some(false)
      && Token(w, t) == Text(Str(e.call.handle))
  {
    hide LastHost, Token, Listed, Str;
  }

  lemma RequestedInFull(w: seq<string>, t: Trace, u: Value)
    ensures Requested(w, t, u) <==>
      && u != Absent && u != Number(0) && u != Text("") && Listed(w, u) == Some(false)
      && exists i: nat :: i < |t| && t[i].call == WebRequest(u)
  {
    hide Listed;
    if e :| e in t && UrlSeen(w, e) && e.call.url == u {
      var i :| 0 <= i < |t| && t[i] == e;
      assert t[i].call == WebRequest(u);
    }
    if i: nat :| i < |t| && t[i].call == WebRequest(u) { assert t[i] in t; }
  }

  // ---- one more event ----

  lemma HeadSnoc(w: seq<string>, t: Trace, e: Event<Call>)
    ensures LastHost(t + [e]) == if e.call.Connect? then e.call.host else LastHost(t)
    ensures Token(w, t + [e]) ==
            if e.call.Connect? then Text(Str(e.call.ret)) else if Accepts(w, t, e) then e.call.ret else Token(w, t)
    ensures Marks(w, t + [e]) == if UrlSeen(w, e) && e.proc.id != 0 then Marks(w, t) + [Mark(e.proc.id)] else Marks(w, t)
  {
    assert Front(t + [e]) == t;
  }

  lemma ConnectSnoc(w: seq<string>, t: Trace, e: Event<Call>, h: Value)
    ensures Port(t + [e], h) == if e.call.Connect? && e.call.host == h then e.call.port else Port(t, h)
    ensures Connected(w, t + [e], h) <==>
            Connected(w, t, h) || (e.call.Connect? && e.call.host == h && Admitted(w, h))
  {
    assert Front(t + [e]) == t;
  }

  lemma RequestSnoc(w: seq<string>, t: Trace, e: Event<Call>, h: Value)
    ensures Uris(w, t + [e], h) ==
            if Accepts(w, t, e) && LastHost(t) == h then Uris(w, t, h) + [e.call.path] else Uris(w, t, h)
  {
    assert Front(t + [e]) == t;
  }

  lemma UrlSnoc(w: seq<string>, t: Trace, e: Event<Call>, u: Value)
    ensures Requested(w, t + [e], u) <==> Requested(w, t, u) || (UrlSeen(w, e) && e.call.url == u)
  {
    assert Front(t + [e]) == t;
    if Requested(w, t, u) {
      var d :| d in t && UrlSeen(w, d) && d.call.url == u;
      assert d in t + [e];
    }
    if UrlSeen(w, e) { assert e in t + [e]; }
  }

  lemma {:induction false} MarksAreRequests(w: seq<string>, t: Trace)
    ensures Marks(w, t) != [] ==> exists u :: Requested(w, t, u)
    ensures forall x :: x in Marks(w, t) ==> x.Mark?
  {
    if t != [] {
      var f, e := Front(t), Last(t);
      MarksAreRequests(w, f);
      assert f + [e] == t;
      if UrlSeen(w, e) {
        UrlSnoc(w, f, e, e.call.url);
      } else if u :| Requested(w, f, u) {
        UrlSnoc(w, f, e, u);
      }
    }
  }

  // ---- requests on one connection ----

  /** Call i of s, made after trace t, is accepted. */
  ghost predicate AcceptedAt(passlist: seq<string>, t: Trace, s: Trace, i: nat) {
    i < |s| && Accepts(passlist, t + s[..i], s[i])
  }

  /** Call i is the latest accepted one of s. */
  ghost predicate LatestAccepted(passlist: seq<string>, t: Trace, s: Trace, i: nat) {
    AcceptedAt(passlist, t, s, i) && forall j: nat :: i < j ==> !AcceptedAt(passlist, t, s, j)
  }

  ghost predicate NoneAccepted(passlist: seq<string>, t: Trace, s: Trace) {
    forall i: nat :: !AcceptedAt(passlist, t, s, i)
  }

  ghost predicate NoConnect(s: Trace) { forall e :: e in s ==> !e.call.Connect? }

  lemma AcceptedSnoc(w: seq<string>, t: Trace, s: Trace, e: Event<Call>)
    ensures forall i: nat :: AcceptedAt(w, t, s + [e], i) <==> AcceptedAt(w, t, s, i) || (i == |s| && Accepts(w, t + s, e))
  {
    hide Accepts;
    var u := s + [e];
    assert u[..|s|] == s && u[|s|] == e;
    assert forall i: nat :: i < |s| ==> u[..i] == s[..i] && u[i] == s[i];
  }

  /** Between two connects the handle is that of the latest accepted request, or still the first. */
  lemma {:induction false} TokenAfter(w: seq<string>, t: Trace, s: Trace)
    requires NoConnect(s)
    ensures LastHost(t + s) == LastHost(t)
    ensures NoneAccepted(w, t, s) ==> Token(w, t + s) == Token(w, t)
    ensures forall i: nat :: LatestAccepted(w, t, s, i) ==> Token(w, t + s) == s[i].call.ret
    ensures NoneAccepted(w, t, s) || exists i: nat :: LatestAccepted(w, t, s, i)
  {
    if s == [] {
      assert t + s == t;
    } else {
      hide Accepts, Token, LastHost;
      var f, e := Front(s), Last(s);
      assert s == f + [e] && e in s;
      assert t + s == (t + f) + [e];
      TokenAfter(w, t, f);
      HeadSnoc(w, t + f, e);
      AcceptedSnoc(w, t, f, e);
      if Accepts(w, t + f, e) {
        assert LatestAccepted(w, t, s, |f|);
      } else {
        assert forall i: nat :: AcceptedAt(w, t, s, i) <==> AcceptedAt(w, t, f, i);
        assert forall i: nat :: LatestAccepted(w, t, s, i) <==> LatestAccepted(w, t, f, i);
      }
    }
  }

  /** Another request on the handle of the connection is seen exactly when no request was accepted since
      the connect, or the latest accepted one returned the very handle of the connection. */
  lemma RequestOnConnection(w: seq<string>, t: Trace, c: Event<Call>, s: Trace, b: Event<Call>)
    requires c.call.Connect? && Truthy(c.call.host) && Admitted(w, c.call.host)
    requires NoConnect(s)
    requires b.call.OpenRequest? && RealPath(b.call.path) && Str(b.call.handle) == Str(c.call.ret)
    ensures Accepts(w, t + [c] + s, b) <==>
            || NoneAccepted(w, t + [c], s)
            || exists i: nat :: LatestAccepted(w, t + [c], s, i) && s[i].call.ret == Text(Str(c.call.ret))
  {
    hide Token, LastHost, Listed, Str, NoneAccepted, LatestAccepted;
    HeadSnoc(w, t, c);
    TokenAfter(w, t + [c], s);
    LatestIsOne(w, t + [c], s);
  }

  lemma LatestIsOne(w: seq<string>, t: Trace, s: Trace)
    ensures forall i: nat, j: nat :: LatestAccepted(w, t, s, i) && LatestAccepted(w, t, s, j) ==> i == j
    ensures NoneAccepted(w, t, s) ==> forall i: nat :: !LatestAccepted(w, t, s, i)
  {
    hide AcceptedAt;
  }

  /** In particular two requests in a row on a new connection: the first is seen, and the second exactly
      when the first returned the handle of the connection. */
  lemma SecondRequestOnConnection(w: seq<string>, t: Trace, c: Event<Call>, a: Event<Call>, b: Event<Call>)
    requires c.call.Connect? && Truthy(c.call.host) && Admitted(w, c.call.host)
    requires a.call.OpenRequest? && RealPath(a.call.path) && Str(a.call.handle) == Str(c.call.ret)
    requires b.call.OpenRequest? && RealPath(b.call.path) && Str(b.call.handle) == Str(c.call.ret)
    ensures Accepts(w, t + [c], a)
    ensures Accepts(w, t + [c] + [a], b) <==> a.call.ret == Text(Str(c.call.ret))
  {
    hide Accepts, Listed, Str;
    assert t + [c] + [] == t + [c];
    RequestOnConnection(w, t, c, [], a);
    RequestOnConnection(w, t, c, [a], b);
    AcceptedSnoc(w, t + [c], [], a);
    assert [] + [a] == [a];
    assert LatestAccepted(w, t + [c], [a], 0);
  }

  // ---- the signature ----

  /** The table agrees with the trace. The handle of a row matters only for the last host: every
      other row gets a new handle before it can be used again. */
  ghost predicate TableOf(w: seq<string>, t: Trace, request: map<Value, Row>) {
    && (forall h :: h in request <==> Connected(w, t, h))
    && (forall h :: h in request ==> request[h].uris == Uris(w, t, h) && request[h].port == Port(t, h))
    && (LastHost(t) in request ==> request[LastHost(t)].curHandle == Token(w, t))
  }

  lemma TableConnect(w: seq<string>, t: Trace, e: Event<Call>, request: map<Value, Row>)
    requires TableOf(w, t, request) && e.call.Connect?
    ensures !Admitted(w, e.call.host) ==> TableOf(w, t + [e], request)
    ensures Admitted(w, e.call.host) ==>
              TableOf(w, t + [e], request[e.call.host :=
                Row(if e.call.host in request then request[e.call.host].uris else [], Text(Str(e.call.ret)), e.call.port)])
  {
    hide Uris, Token, Port, LastHost, Listed;
    HeadSnoc(w, t, e);
    forall h { ConnectSnoc(w, t, e, h); }
    forall h { RequestSnoc(w, t, e, h); }
    UnconnectedHasNoUris(w, t, e.call.host);
  }

  class HttpRequest {
    const passlist: seq<string>
    var request: map<Value, Row>
    var lasthost: Value
    var urls: set<Value>
    var data: seq<Entry>
    ghost var history: Trace

    ghost predicate Valid()
      reads this
    {
      && lasthost == LastHost(history)
      && TableOf(passlist, history, request)
      && (forall u :: u in urls <==> Requested(passlist, history, u))
      && data == Marks(passlist, history)
    }

    constructor (passlist: seq<string>)
      ensures Valid() && history == [] && this.passlist == passlist
    {
      this.passlist := passlist;
      request, lasthost, urls, data, history := map[], Text(""), {}, [], [];
    }

    method OnConnect(e: Event<Call>) returns (v: Verdict)
      requires Valid() && e.call.Connect?
      modifies this
      ensures Valid() && history == old(history) + [e]
      ensures v == if Raises(passlist, old(history), e) then Rejected else Streaming
    {
      hide TableOf, Token, LastHost, Requested, Marks, Listed;
      HeadSnoc(passlist, history, e);
      forall u { UrlSnoc(passlist, history, e, u); }
      TableConnect(passlist, history, e, request);
      var host := e.call.host;
      lasthost := host;
      v := Streaming;
      var listed := Listed(passlist, host);
      if listed.None? {
        v := Rejected;
      } else if !listed.value {
        if host !in request { request := request[host := Row([], Absent, Absent)]; }
        request := request[host := request[host].(curHandle := Text(Str(e.call.ret)), port := e.call.port)];
        assert request == old(request)[host := request[host]];
      }
      history := history + [e];
    }

    /** The table is only read where it has a row: no lookup in it can fail. */
    method OnOpenRequest(e: Event<Call>) returns (v: Verdict)
      requires Valid() && e.call.OpenRequest?
      modifies this
      ensures Valid() && history == old(history) + [e]
      ensures v == if Raises(passlist, old(history), e) then Rejected else Streaming
    {
      hide Uris, Token, Port, LastHost, Connected, Requested, Marks, Listed, Str;
      HeadSnoc(passlist, history, e);
      forall h { ConnectSnoc(passlist, history, e, h); }
      forall h { RequestSnoc(passlist, history, e, h); }
      forall u { UrlSnoc(passlist, history, e, u); }
      v := Streaming;
      var listed := Listed(passlist, lasthost);
      if listed.None? {
        v := Rejected;
      } else if !listed.value && Truthy(lasthost) {
        AcceptedHostIsConnected(passlist, history);
        if Text(Str(e.call.handle)) == request[lasthost].curHandle {
          var uri := e.call.path;
          if uri != Text("/") && uri != Text("") {
            var row := request[lasthost];
            request := request[lasthost := row.(uris := row.uris + [uri], curHandle := e.call.ret)];
          }
        }
      }
      history := history + [e];
    }

    method OnWebRequest(e: Event<Call>) returns (v: Verdict)
      requires Valid() && e.call.WebRequest?
      modifies this
      ensures Valid() && history == old(history) + [e]
      ensures v == if Raises(passlist, old(history), e) then Rejected else Streaming
    {
      hide Uris, Token, Port, LastHost, Connected, Requested, Marks, Listed;
      HeadSnoc(passlist, history, e);
      forall h { ConnectSnoc(passlist, history, e, h); }
      forall h { RequestSnoc(passlist, history, e, h); }
      forall u { UrlSnoc(passlist, history, e, u); }
      v := Streaming;
      var url := e.call.url;
      if Truthy(url) {
        var listed := Listed(passlist, url);
        if listed.None? {
          v := Rejected;
        } else if !listed.value {
          urls := urls + {url};
          if e.proc.id != 0 { data := data + [Mark(e.proc.id)]; }
        }
      }
      history := history + [e];
    }

    /** The signature never matches before the end, and raises exactly on a pass-list test of
        something that is no text. */
    method OnCall(e: Event<Call>) returns (v: Verdict)
      requires Valid()
      modifies this
      ensures Valid() && history == old(history) + [e]
      ensures v == if Raises(passlist, old(history), e) then Rejected else Streaming
    {
      match e.call
      case Connect(_, _, _) => v := OnConnect(e);
      case OpenRequest(_, _, _) => v := OnOpenRequest(e);
      case WebRequest(_) => v := OnWebRequest(e);
    }

    /** The first loop of `on_complete`: every row of the table. */
    method ReportRows()
      requires forall x :: x in data ==> x.Mark?
      modifies `data
      ensures ListsHosts(request, request.Keys, old(data), data)
    {
      hide ListsHosts, Requests;
      var hosts := request.Keys;
      ghost var done: set<Value> := {};
      ListsNone(request, data);
      while hosts != {}
        invariant hosts <= request.Keys && done == request.Keys - hosts
        invariant ListsHosts(request, done, old(data), data)
        decreases hosts
      {
        var host :| host in hosts;
        ListsOneMore(request, done, host, old(data), data);
        hosts := hosts - {host};
        done := done + {host};
        ReportRow(host);
      }
      assert done == request.Keys;
    }

    method ReportRow(host: Value)
      requires host in request
      modifies `data
      ensures data == old(data) + Requests(host, request[host].port, request[host].uris)
    {
      var row := request[host];
      for i := 0 to |row.uris|
        invariant data == old(data) + Requests(host, row.port, row.uris[..i])
      {
        data := data + [Request(host, row.port, row.uris[i])];
        assert row.uris[..i + 1] == row.uris[..i] + [row.uris[i]];
      }
      assert row.uris[..|row.uris|] == row.uris;
    }

    /** The second loop: every URL. */
    method ReportUrls()
      modifies `data
      ensures forall x :: x in data <==> x in old(data) || (x.Url? && x.url in urls)
      ensures forall h :: RequestsTo(data, h) == RequestsTo(old(data), h)
    {
      hide RequestsTo;
      var rest := urls;
      while rest != {}
        invariant rest <= urls
        invariant forall x :: x in data <==> x in old(data) || (x.Url? && x.url in urls - rest)
        invariant forall h :: RequestsTo(data, h) == RequestsTo(old(data), h)
        decreases rest
      {
        var url :| url in rest;
        rest := rest - {url};
        forall h { RequestsToSnoc(data, Url(url), h); }
        data := data + [Url(url)];
      }
    }

    /** The report lists, for every host, exactly the requested paths in order, and exactly the
        requested URLs; it decides the verdict. */
    method OnComplete() returns (matched: bool)
      requires Valid()
      modifies `data
      ensures forall h :: RequestsTo(data, h) == Requests(h, Port(history, h), Uris(passlist, history, h))
      ensures forall h :: |RequestsTo(data, h)| == |Uris(passlist, history, h)|
      ensures forall h, k: nat :: k < |Uris(passlist, history, h)| ==>
        && RequestsTo(data, h)[k].Request? && RequestsTo(data, h)[k].host == h
        && RequestsTo(data, h)[k].port == Port(history, h) && RequestsTo(data, h)[k].uri == Uris(passlist, history, h)[k]
      ensures forall u :: Url(u) in data <==> Requested(passlist, history, u)
      ensures forall q :: Mark(q) in data <==> Mark(q) in Marks(passlist, history)
      ensures matched <==> (exists h :: Uris(passlist, history, h) != []) || (exists u :: Requested(passlist, history, u))
    {
      hide Uris, Port, Requested, Connected, Marks, Token, LastHost, RequestsTo;
      MarksAreRequests(passlist, history);
      forall h { UnconnectedHasNoUris(passlist, history, h); }
      ReportRows();
      ReportUrls();
      matched := |data| > 0;
      VerdictMeaning(passlist, history, data);
    }
  }

  /** The entries of one row. */
  function Requests(host: Value, port: Value, uris: seq<Value>): seq<Entry> {
    seq(|uris|, i requires 0 <= i < |uris| => Request(host, port, uris[i]))
  }

  /** What the data says about one host, in order. */
  ghost function RequestsTo(data: seq<Entry>, h: Value): seq<Entry> {
    if data == [] then []
    else if Last(data).Request? && Last(data).host == h then RequestsTo(Front(data), h) + [Last(data)]
    else RequestsTo(Front(data), h)
  }

  lemma RequestsToSnoc(data: seq<Entry>, x: Entry, h: Value)
    ensures RequestsTo(data + [x], h) == if x.Request? && x.host == h then RequestsTo(data, h) + [x] else RequestsTo(data, h)
  {
    assert Front(data + [x]) == data;
  }

  lemma {:induction false} RequestsToConcat(a: seq<Entry>, b: seq<Entry>, h: Value)
    ensures RequestsTo(a + b, h) == RequestsTo(a, h) + RequestsTo(b, h)
  {
    if b == [] {
      assert a + b == a;
    } else {
      RequestsToConcat(a, Front(b), h);
      assert Front(a + b) == a + Front(b);
    }
  }

  lemma {:induction false} RequestsToMember(data: seq<Entry>, x: Entry, h: Value)
    ensures x in RequestsTo(data, h) <==> x in data && x.Request? && x.host == h
  {
    if data != [] {
      RequestsToMember(Front(data), x, h);
      assert data == Front(data) + [Last(data)];
    }
  }

  lemma {:induction false} RequestsToRow(g: Value, port: Value, uris: seq<Value>, h: Value)
    ensures RequestsTo(Requests(g, port, uris), h) == if g == h then Requests(g, port, uris) else []
  {
    if uris != [] {
      RequestsToRow(g, port, Front(uris), h);
      assert Requests(g, port, uris) == Requests(g, port, Front(uris)) + [Request(g, port, Last(uris))];
      RequestsToSnoc(Requests(g, port, Front(uris)), Request(g, port, Last(uris)), h);
    }
  }

  lemma RequestsToAppended(data: seq<Entry>, g: Value, port: Value, uris: seq<Value>, h: Value)
    ensures RequestsTo(data + Requests(g, port, uris), h) ==
            if g == h then RequestsTo(data, h) + Requests(g, port, uris) else RequestsTo(data, h)
  {
    hide RequestsTo, Requests;
    RequestsToConcat(data, Requests(g, port, uris), h);
    RequestsToRow(g, port, uris, h);
  }

  /** The rows of the hosts in `done` are listed, each exactly once, and nothing else was added. */
  ghost predicate ListsHosts(request: map<Value, Row>, done: set<Value>, marks: seq<Entry>, data: seq<Entry>)
    requires done <= request.Keys
  {
    && (forall x :: x in data && !x.Request? <==> x in marks)
    && (forall h :: RequestsTo(data, h) == if h in done then Requests(h, request[h].port, request[h].uris) else [])
  }

  lemma ListsNone(request: map<Value, Row>, marks: seq<Entry>)
    requires forall x :: x in marks ==> x.Mark?
    ensures ListsHosts(request, {}, marks, marks)
  {
    forall h ensures RequestsTo(marks, h) == [] {
      if RequestsTo(marks, h) != [] { RequestsToMember(marks, RequestsTo(marks, h)[0], h); }
    }
  }

  lemma ListsOneMore(request: map<Value, Row>, done: set<Value>, h: Value, marks: seq<Entry>, data: seq<Entry>)
    requires done <= request.Keys && h in request && h !in done
    requires ListsHosts(request, done, marks, data)
    ensures ListsHosts(request, done + {h}, marks, data + Requests(h, request[h].port, request[h].uris))
  {
    var after := data + Requests(h, request[h].port, request[h].uris);
    RowsAreRequests(data, h, request[h].port, request[h].uris);
    hide Requests, RequestsTo;
    forall g ensures RequestsTo(after, g) == if g in done + {h} then Requests(g, request[g].port, request[g].uris) else [] {
      RequestsToAppended(data, h, request[h].port, request[h].uris, g);
    }
  }

  lemma RowsAreRequests(data: seq<Entry>, h: Value, port: Value, uris: seq<Value>)
    ensures forall x :: x in data + Requests(h, port, uris) && !x.Request? <==> x in data && !x.Request?
  {
  }

  lemma VerdictMeaning(w: seq<string>, t: Trace, data: seq<Entry>)
    requires forall h :: RequestsTo(data, h) == Requests(h, Port(t, h), Uris(w, t, h))
    requires forall u :: Url(u) in data <==> Requested(w, t, u)
    requires forall q :: Mark(q) in data <==> Mark(q) in Marks(w, t)
    ensures data != [] <==> (exists h :: Uris(w, t, h) != []) || (exists u :: Requested(w, t, u))
  {
    hide Uris, Requested, Marks, Port, RequestsTo;
    MarksAreRequests(w, t);
    if data != [] {
      var x := data[0];
      assert x in data;
      match x {
        case Mark(_) => assert x in Marks(w, t);
        case Request(h, _, _) =>
          RequestsToMember(data, x, h);
          assert Uris(w, t, h) != [];
        case Url(u) => assert Requested(w, t, u);
      }
    }
    if h :| Uris(w, t, h) != [] {
      RequestsToMember(data, RequestsTo(data, h)[0], h);
    }
    if u :| Requested(w, t, u) {
      assert Url(u) in data;
    }
  }

  lemma UnconnectedHasNoUris(w: seq<string>, t: Trace, h: Value)
    ensures !Connected(w, t, h) ==> Uris(w, t, h) == []
  {
    if Uris(w, t, h) != [] { UrisNeedHost(w, t, h); }
  }

  /** The whole run. No reported host or URL is on the pass list. */
  method Evaluate(passlist: seq<string>, t: Trace) returns (matched: bool, data: seq<Entry>)
    ensures forall h :: RequestsTo(data, h) == Requests(h, Port(t, h), Uris(passlist, t, h))
    ensures forall h :: |RequestsTo(data, h)| == |Uris(passlist, t, h)|
    ensures forall h, k: nat :: k < |Uris(passlist, t, h)| ==>
      && RequestsTo(data, h)[k].Request? && RequestsTo(data, h)[k].host == h
      && RequestsTo(data, h)[k].port == Port(t, h) && RequestsTo(data, h)[k].uri == Uris(passlist, t, h)[k]
    ensures forall u :: Url(u) in data <==> Requested(passlist, t, u)
    ensures forall x :: x in data && x.Request? ==> Admitted(passlist, x.host)
    ensures forall x :: x in data && x.Url? ==> Admitted(passlist, x.url)
    ensures matched <==> (exists h :: Uris(passlist, t, h) != []) || (exists u :: Requested(passlist, t, u))
  {
    hide Uris, Port, LastHost, Token, Marks, RequestsTo;
    var sig := new HttpRequest(passlist);
    for i := 0 to |t|
      invariant sig.Valid() && sig.history == t[..i] && fresh(sig) && sig.passlist == passlist
    {
      var v := sig.OnCall(t[i]);
    }
    assert t[..|t|] == t;
    matched := sig.OnComplete();
    data := sig.data;
    forall x | x in data && x.Request? ensures Admitted(passlist, x.host) {
      RequestsToMember(data, x, x.host);
      UnconnectedHasNoUris(passlist, t, x.host);
    }
  }
}
