/** The tunnel client of src/lib.rs: a host parsed from a URI, its display
    form, and the decisions `Connection::connect` takes before anything is
    sent: which URI is parsed first, which address is dialed, which host
    the credentials are looked up for, and what the CONNECT request holds.

    The URI parser is not modelled: a URI is its text and its authority,
    an optional host with an optional port. Dialing the proxy and the
    HTTP/1.1 client handshake are a parameter, `transport`, from the
    address dialed to what came of it. */
module Hconnect {
  import W = Wrappers
  import opened Ints
  import Auth
  import Decimal

  /** The authority of a URI: its host and, if written, its port. */
  datatype Authority = Authority(host: string, port: W.Option<u16>)

  /** A parsed URI: its text and its authority, if it has one. */
  datatype Uri = Uri(text: string, authority: W.Option<Authority>)

  /** A host name and a port, both taken from a URI. */
  datatype Host = Host(name: string, port: u16) {

    /** The address to dial: the name and the port the display form
        shows. */
    function Addr(): (r: (string, u16))
      ensures SplitHostPort(ToString()) == W.Some((r.0, r.1 as nat))
    {
      (name, port)
    }

    /** The display form `name:port`; it can be split back into the name
        and the port, whatever the name holds (an IPv6 literal included),
        because the numeral after the last colon has no colon. */
    function ToString(): (s: string)
      ensures SplitHostPort(s) == W.Some((name, port as nat))
    {
      var s := name + ":" + Decimal.Format(port as nat);
      SplitDisplay(name, Decimal.Format(port as nat));
      Decimal.ParseFormat(port as nat);
      s
    }
  }

  /** The errors of the tunnel client. */
  datatype Error =
    | Io(cause: string)                                  // an I/O error, here: the peer address
    | Http(cause: string)                                // the request could not be built
    | Hyper(cause: string)                               // an HTTP wire error
    | InvalidUri(uri: Uri)                               // a URI without host or port
    | Connect(proxy: Host, cause: string)                // dialing the proxy failed
    | Handshake(target: Host, proxyAddr: string, cause: string) // the HTTP/1.1 handshake failed
    | Auth(inner: Auth.Error)                            // the credential provider failed

  /** `Host::from_uri`: the authority's host and port; a URI without an
      authority, or whose authority has no port, is `InvalidUri` carrying
      that URI. No default port is ever assumed. */
  function FromUri(uri: Uri): (r: W.Result<Host, Error>)
    ensures r.Ok? <==> uri.authority.Some? && uri.authority.value.port.Some?
    ensures r.Err? ==> r.error == InvalidUri(uri)
    ensures r.Ok? ==> (r.value.name == uri.authority.value.host
                       && r.value.port == uri.authority.value.port.value)
  {
    match uri.authority
    case None => W.Err(InvalidUri(uri))
    case Some(a) =>
      match a.port
      case None => W.Err(InvalidUri(uri))
      case Some(p) => W.Ok(Host(a.host, p))
  }

  // -----------------------------------------------------------------------
  // Splitting the display form back (the partner of Host.ToString)

  /** The position of the last `:` in `s`, if any. */
  function LastColon(s: string): (r: W.Option<nat>)
    ensures r.None? <==> ':' !in s
    ensures r.Some? ==> r.value < |s| && s[r.value] == ':' && ':' !in s[r.value + 1..]
  {
    if s == [] then W.None
    else if s[|s| - 1] == ':' then W.Some(|s| - 1)
    else
      var r := LastColon(s[..|s| - 1]);
      assert s == s[..|s| - 1] + [s[|s| - 1]];
      match r
      case None => W.None
      case Some(i) =>
        assert s[i + 1..] == s[..|s| - 1][i + 1..] + [s[|s| - 1]];
        W.Some(i)
  }

  /** Splits `name:port` at its last colon and reads the port numeral. */
  function SplitHostPort(s: string): W.Option<(string, nat)> {
    match LastColon(s)
    case None => W.None
    case Some(i) =>
      match Decimal.Parse(s[i + 1..])
      case None => W.None
      case Some(n) => W.Some((s[..i], n))
  }

  /** Appending `:` and a string without a colon puts the last colon
      right after the name. */
  lemma SplitDisplay(name: string, digits: string)
    requires ':' !in digits
    ensures var s := name + ":" + digits;
      LastColon(s) == W.Some(|name|) && s[..|name|] == name && s[|name| + 1..] == digits
  {
    var s := name + ":" + digits;
    assert s[|name|] == ':';
    assert s[|name| + 1..] == digits;
    assert s[..|name|] == name;
  }

  // -----------------------------------------------------------------------
  // The request

  datatype Header = Header(name: string, value: string)

  /** The request sent to the proxy: its method, its URI and its headers;
      its body is empty. */
  datatype Request = Request(verb: string, uri: Uri, headers: seq<Header>)

  /** Header names as the `http` crate spells them. */
  const HOST: string := "host"
  const PROXY_AUTHORIZATION: string := "proxy-authorization"

  /** The value of the first header called `name`, if any. */
  function HeaderValue(headers: seq<Header>, name: string): (r: W.Option<string>)
    ensures r.None? <==> forall i | 0 <= i < |headers| :: headers[i].name != name
    ensures r.Some? ==> exists i | 0 <= i < |headers| :: headers[i] == Header(name, r.value)
  {
    if headers == [] then W.None
    else if headers[0].name == name then W.Some(headers[0].value)
    else
      var r := HeaderValue(headers[1..], name);
      if r.Some? then
        var i :| 0 <= i < |headers[1..]| && headers[1..][i] == Header(name, r.value);
        assert headers[i + 1] == Header(name, r.value);
        r
      else r
  }

  /** The CONNECT request for `target`: the target URI as written, a `host`
      header with the target's name only (no port), and a
      `proxy-authorization` header exactly when there is a token. */
  function BuildRequest(targetUri: Uri, target: Host, token: W.Option<Auth.Token>): (r: Request)
    ensures r.verb == "CONNECT" && r.uri == targetUri
    ensures HeaderValue(r.headers, HOST) == W.Some(target.name)
    ensures HeaderValue(r.headers, PROXY_AUTHORIZATION).Some? <==> token.Some?
    ensures token.Some? ==> HeaderValue(r.headers, PROXY_AUTHORIZATION) == W.Some(token.value.value)
    ensures forall i | 0 <= i < |r.headers| :: r.headers[i].name in {HOST, PROXY_AUTHORIZATION}
    ensures forall i, j | 0 <= i < j < |r.headers| :: r.headers[i].name != r.headers[j].name
    ensures |r.headers| == if token.Some? then 2 else 1
  {
    var headers := [Header(HOST, target.name)];
    match token
    case None => Request("CONNECT", targetUri, headers)
    case Some(t) => Request("CONNECT", targetUri, headers + [Header(PROXY_AUTHORIZATION, t.value)])
  }

  // -----------------------------------------------------------------------
  // Connection::connect up to the request

  /** What came of dialing the proxy and of the HTTP/1.1 client handshake. */
  datatype Link =
    | Ready(peer: string)                        // connected to `peer`, handshake done
    | DialFailed(cause: string)                  // the TCP connection failed
    | NoPeerAddr(cause: string)                  // the peer address could not be read
    | HandshakeFailed(peer: string, cause: string) // the HTTP/1.1 handshake failed

  /** Dialing and handshaking, as a function of the address dialed. */
  type Transport = ((string, u16)) -> Link

  /** The error of each failed transport step, with its context: the
      proxy for a failed dial, the target and the peer for a failed
      handshake. */
  function LinkResult(link: Link, proxy: Host, target: Host): (r: W.Result<string, Error>)
    ensures r.Ok? <==> link.Ready?
    ensures r.Ok? ==> r.value == link.peer
    ensures link.DialFailed? ==> r == W.Err(Connect(proxy, link.cause))
    ensures link.NoPeerAddr? ==> r == W.Err(Io(link.cause))
    ensures link.HandshakeFailed? ==> r == W.Err(Handshake(target, link.peer, link.cause))
  {
    match link
    case Ready(peer) => W.Ok(peer)
    case DialFailed(cause) => W.Err(Connect(proxy, cause))
    case NoPeerAddr(cause) => W.Err(Io(cause))
    case HandshakeFailed(peer, cause) => W.Err(Handshake(target, peer, cause))
  }

  function WrapAuth(e: Auth.Error): Error {
    Error.Auth(e)
  }

  /** The request `Connection::connect` sends, or the error it stops with,
      in the order of the source: the proxy URI, the target URI, the dial
      to the proxy's address, the credential lookup for the proxy's name,
      and then the request. */
  function ConnectRequest(proxyUri: Uri, targetUri: Uri, authorization: Auth.Authenticator,
                          kerberos: Auth.Kerberos, transport: Transport): (r: W.Result<Request, Error>)
    ensures r.Ok? <==> && FromUri(proxyUri).Ok? && FromUri(targetUri).Ok?
                       && transport(FromUri(proxyUri).value.Addr()).Ready?
                       && authorization.ForHost(FromUri(proxyUri).value.name, kerberos).Ok?
  {
    var proxy :- FromUri(proxyUri);
    var target :- FromUri(targetUri);
    var _ :- LinkResult(transport(proxy.Addr()), proxy, target);
    var token :- authorization.ForHost(proxy.name, kerberos).MapErr(WrapAuth);
    W.Ok(BuildRequest(targetUri, target, token))
  }

  // -----------------------------------------------------------------------
  // Properties

  /** A parsed host displays as its authority's `host:port`, and the
      display form splits back into exactly that host and port. */
  lemma DisplayRoundTrip(uri: Uri)
    requires FromUri(uri).Ok?
    ensures var a := uri.authority.value;
      FromUri(uri).value.ToString() == a.host + ":" + Decimal.Format(a.port.value as nat)
    ensures var a := uri.authority.value;
      SplitHostPort(FromUri(uri).value.ToString()) == W.Some((a.host, a.port.value as nat))
  {
  }

  /** The proxy URI is parsed first: an invalid proxy URI is the error,
      whatever the target URI, the provider and the network would do. */
  lemma ProxyParsedFirst(proxyUri: Uri, targetUri: Uri, authorization: Auth.Authenticator,
                         kerberos: Auth.Kerberos, transport: Transport)
    requires FromUri(proxyUri).Err?
    ensures ConnectRequest(proxyUri, targetUri, authorization, kerberos, transport)
            == W.Err(InvalidUri(proxyUri))
  {
  }

  /** With a valid proxy URI, an invalid target URI is the error, before
      anything is dialed. */
  lemma TargetParsedSecond(proxyUri: Uri, targetUri: Uri, authorization: Auth.Authenticator,
                           kerberos: Auth.Kerberos, transport: Transport)
    requires FromUri(proxyUri).Ok? && FromUri(targetUri).Err?
    ensures ConnectRequest(proxyUri, targetUri, authorization, kerberos, transport)
            == W.Err(InvalidUri(targetUri))
  {
  }

  /** Only the proxy's address is dialed: two networks that behave alike
      for the proxy's `(name, port)` give the same outcome. */
  lemma DialsProxyOnly(proxyUri: Uri, targetUri: Uri, authorization: Auth.Authenticator,
                       kerberos: Auth.Kerberos, t1: Transport, t2: Transport)
    requires FromUri(proxyUri).Ok?
    requires var a := proxyUri.authority.value; t1((a.host, a.port.value)) == t2((a.host, a.port.value))
    ensures ConnectRequest(proxyUri, targetUri, authorization, kerberos, t1)
            == ConnectRequest(proxyUri, targetUri, authorization, kerberos, t2)
  {
  }

  /** A failed dial is reported with the proxy, a failed handshake with
      the target and the peer, both before any credential is looked up. */
  lemma TransportErrors(proxyUri: Uri, targetUri: Uri, authorization: Auth.Authenticator,
                        kerberos: Auth.Kerberos, transport: Transport)
    requires FromUri(proxyUri).Ok? && FromUri(targetUri).Ok?
    ensures var proxy, target := FromUri(proxyUri).value, FromUri(targetUri).value;
      var link := transport(proxy.Addr());
      var r := ConnectRequest(proxyUri, targetUri, authorization, kerberos, transport);
      && (link.DialFailed? ==> r == W.Err(Error.Connect(proxy, link.cause)))
      && (link.NoPeerAddr? ==> r == W.Err(Io(link.cause)))
      && (link.HandshakeFailed? ==> r == W.Err(Handshake(target, link.peer, link.cause)))
  {
  }

  /** The credentials are those of the proxy's host name: two providers
      that answer alike for that name give the same outcome, whatever they
      would answer for the target. */
  lemma LooksUpProxyName(proxyUri: Uri, targetUri: Uri, a1: Auth.Authenticator, a2: Auth.Authenticator,
                         kerberos: Auth.Kerberos, transport: Transport)
    requires FromUri(proxyUri).Ok?
    requires a1.ForHost(proxyUri.authority.value.host, kerberos) == a2.ForHost(proxyUri.authority.value.host, kerberos)
    ensures ConnectRequest(proxyUri, targetUri, a1, kerberos, transport)
            == ConnectRequest(proxyUri, targetUri, a2, kerberos, transport)
  {
  }

  /** A provider error stops the connection as `Error::Auth`, and no
      request is built. */
  lemma AuthErrorAborts(proxyUri: Uri, targetUri: Uri, authorization: Auth.Authenticator,
                        kerberos: Auth.Kerberos, transport: Transport)
    requires FromUri(proxyUri).Ok? && FromUri(targetUri).Ok?
    requires transport(FromUri(proxyUri).value.Addr()).Ready?
    requires authorization.ForHost(proxyUri.authority.value.host, kerberos).Err?
    ensures ConnectRequest(proxyUri, targetUri, authorization, kerberos, transport)
            == W.Err(Error.Auth(authorization.ForHost(proxyUri.authority.value.host, kerberos).error))
  {
  }

  /** A netrc table with no entry for the proxy fails the connection with
      `NoEntry` for the proxy's name, even when it has one for the target. */
  lemma NetrcWithoutProxyEntry(proxyUri: Uri, targetUri: Uri, n: Auth.Netrc,
                               kerberos: Auth.Kerberos, transport: Transport)
    requires FromUri(proxyUri).Ok? && FromUri(targetUri).Ok?
    requires transport(FromUri(proxyUri).value.Addr()).Ready?
    requires forall i | 0 <= i < |n.hosts| :: n.hosts[i].0 != proxyUri.authority.value.host
    ensures ConnectRequest(proxyUri, targetUri, Auth.Authenticator.Netrc(n), kerberos, transport)
            == W.Err(Error.Auth(Auth.NoEntry(proxyUri.authority.value.host)))
  {
  }

  /** When both URIs parse, the proxy is reached and the provider answers,
      the request is built: for the target, with the provider's answer for
      the proxy's name. */
  lemma RequestBuilt(proxyUri: Uri, targetUri: Uri, authorization: Auth.Authenticator,
                     kerberos: Auth.Kerberos, transport: Transport)
    requires FromUri(proxyUri).Ok? && FromUri(targetUri).Ok?
    requires transport(FromUri(proxyUri).value.Addr()).Ready?
    requires authorization.ForHost(proxyUri.authority.value.host, kerberos).Ok?
    ensures ConnectRequest(proxyUri, targetUri, authorization, kerberos, transport)
            == W.Ok(BuildRequest(targetUri, FromUri(targetUri).value,
                                 authorization.ForHost(proxyUri.authority.value.host, kerberos).value))
  {
  }

  /** The request that is sent: `CONNECT` to the target URI as written,
      `host` set to the target's name without its port, and
      `proxy-authorization` present exactly when the provider returned a
      token for the proxy's name, with that token as its value. */
  lemma RequestContents(proxyUri: Uri, targetUri: Uri, authorization: Auth.Authenticator,
                        kerberos: Auth.Kerberos, transport: Transport)
    requires ConnectRequest(proxyUri, targetUri, authorization, kerberos, transport).Ok?
    ensures var req := ConnectRequest(proxyUri, targetUri, authorization, kerberos, transport).value;
      var answer := authorization.ForHost(proxyUri.authority.value.host, kerberos);
      && req.verb == "CONNECT" && req.uri == targetUri
      && HeaderValue(req.headers, HOST) == W.Some(targetUri.authority.value.host)
      && answer.Ok?
      && (HeaderValue(req.headers, PROXY_AUTHORIZATION).Some? <==> answer.value.Some?)
      && (answer.value.Some? ==> HeaderValue(req.headers, PROXY_AUTHORIZATION) == W.Some(answer.value.value.value))
  {
  }
}
