/** The HTTP base address the remote client derives from the WebSocket
    address (`wsToHttpBase`), on an already-parsed URL record. */
module RemoteUrl {

  /** The parts of a WHATWG URL the rewrite touches. `protocol` keeps its
      trailing colon and `host` includes a non-default port. */
  datatype Url = Url(protocol: string, host: string, pathname: string, search: string)

  predicate EndsWith(s: string, suffix: string) {
    |suffix| <= |s| && s[|s| - |suffix|..] == suffix
  }

  /** The schemes whose URLs have a tuple origin. */
  predicate HasTupleOrigin(protocol: string) {
    protocol in ["http:", "https:", "ws:", "wss:", "ftp:"]
  }

  /** `url.origin`: scheme, "//" and host for a tuple origin, "null" otherwise. */
  function Origin(u: Url): string {
    if HasTupleOrigin(u.protocol) then u.protocol + "//" + u.host else "null"
  }

  function HttpProtocol(protocol: string): string {
    if protocol == "ws:" then "http:"
    else if protocol == "wss:" then "https:"
    else protocol
  }

  /** The URL object after the rewrite: secure and plain WebSocket schemes
      become their HTTP counterparts, and a path ending in "/ws" collapses to
      the root with the query dropped. */
  function HttpBaseUrl(u: Url): (r: Url)
    ensures r.host == u.host
    ensures r.protocol != "ws:" && r.protocol != "wss:"
    ensures u.protocol !in ["ws:", "wss:"] ==> r.protocol == u.protocol
    ensures EndsWith(u.pathname, "/ws") ==> r.pathname == "/" && r.search == ""
    ensures !EndsWith(u.pathname, "/ws") ==> r.pathname == u.pathname && r.search == u.search
  {
    var withProtocol := u.(protocol := HttpProtocol(u.protocol));
    if EndsWith(withProtocol.pathname, "/ws") then withProtocol.(pathname := "/", search := "")
    else withProtocol
  }

  function WsToHttpBase(u: Url): (r: string)
    ensures u.protocol == "ws:" ==> r == "http://" + u.host + HttpBaseUrl(u).pathname
    ensures u.protocol == "wss:" ==> r == "https://" + u.host + HttpBaseUrl(u).pathname
    ensures u.protocol !in ["ws:", "wss:"] ==> r == Origin(u) + HttpBaseUrl(u).pathname
  {
    var base := HttpBaseUrl(u);
    Origin(base) + base.pathname
  }

  /** The path the base keeps: "/" for a WebSocket endpoint path, otherwise
      the path unchanged. */
  lemma BasePath(u: Url)
    ensures HttpBaseUrl(u).pathname == if EndsWith(u.pathname, "/ws") then "/" else u.pathname
  {
  }

  /** The query string never reaches the result. */
  lemma WsToHttpBaseIgnoresSearch(u: Url, search: string)
    ensures WsToHttpBase(u.(search := search)) == WsToHttpBase(u)
  {
  }

  /** Rewriting an address that is already an HTTP base changes nothing. */
  lemma HttpBaseUrlIdempotent(u: Url)
    ensures HttpBaseUrl(HttpBaseUrl(u)) == HttpBaseUrl(u)
    ensures WsToHttpBase(HttpBaseUrl(u)) == WsToHttpBase(u)
  {
    var b := HttpBaseUrl(u);
    if EndsWith(u.pathname, "/ws") {
      assert !EndsWith(b.pathname, "/ws");
    }
  }

  /** Two concrete rewrites: the plain endpoint at the root, and a secure
      endpoint below a path, which keeps neither the path nor the "/ws". */
  lemma Examples()
    ensures WsToHttpBase(Url("ws:", "host", "/ws", "")) == "http://host/"
    ensures WsToHttpBase(Url("wss:", "host", "/path/ws", "?clientId=1")) == "https://host/"
  {
    assert EndsWith("/ws", "/ws");
    assert "/path/ws"[5..] == "/ws";
  }
}
