/** The proxy credential provider of src/auth.rs: for a host name it
    produces the value of a `Proxy-Authorization` header, or no value, or
    an error. Three providers exist, a closed choice: none, static
    credentials from a netrc table, and a Kerberos (SPNEGO "Negotiate")
    token.

    Opening and parsing the netrc file is not part of this model: a
    `Netrc` holds the table the parser produced. The Kerberos library is a
    parameter, `kerberos`, from a service principal name to the initial
    context token or an error message. */
module Auth {
  import W = Wrappers
  import opened Ints
  import Base64
  import Utf8

  type Result<T> = W.Result<T, Error>

  /** The errors of the credential provider. */
  datatype Error =
    | File(path: string, cause: string)  // the netrc file could not be opened
    | Netrc(cause: string)               // the netrc file could not be parsed
    | Negotiate(message: string)         // the Kerberos library failed
    | NoEntry(host: string)              // the netrc table has no entry for the host

  /** A value for the `Proxy-Authorization` header: scheme, space, payload. */
  datatype Token = Token(value: string)

  /** One `machine` entry of a netrc file: a login and an optional password. */
  datatype Machine = Machine(login: string, password: W.Option<string>)

  /** The Kerberos library's `ClientCtx::new` for a service principal: the
      initial context token, or the library's error message. */
  type Kerberos = string -> W.Result<seq<u8>, string>

  const BasicScheme: string := "Basic "
  const NegotiateScheme: string := "Negotiate "

  /** The user-pass string of a netrc entry: `login:password`, or the bare
      login when the entry has no password. */
  function Credential(m: Machine): (r: string)
    ensures m.password.None? ==> r == m.login
    ensures m.password.Some? ==> (|r| == |m.login| + 1 + |m.password.value| && r[..|m.login|] == m.login
                                  && r[|m.login|] == ':' && r[|m.login| + 1..] == m.password.value)
    ensures ':' !in m.login ==> SplitCredential(r) == (m.login, m.password)
  {
    match m.password
    case Some(p) =>
      SplitAfterLogin(m.login, p);
      m.login + ":" + p
    case None => m.login
  }

  /** The Basic token for a netrc entry: the scheme, then the base64 of the
      UTF-8 bytes of the user-pass string. */
  function BasicToken(m: Machine): (r: Token)
    ensures HasScheme(r, BasicScheme)
    ensures Payload(r, BasicScheme) == W.Some(Utf8.Encode(Credential(m)))
  {
    var bytes := Utf8.Encode(Credential(m));
    var r := Token(BasicScheme + Base64.Encode(bytes));
    assert r.value[|BasicScheme|..] == Base64.Encode(bytes);
    Base64.DecodeEncode(bytes);
    r
  }

  /** The index of the first entry whose host is exactly `host`. */
  function Find(hosts: seq<(string, Machine)>, host: string): (r: W.Option<nat>)
    ensures r.None? <==> forall i | 0 <= i < |hosts| :: hosts[i].0 != host
    ensures r.Some? ==> r.value < |hosts| && hosts[r.value].0 == host
    ensures r.Some? ==> forall j | 0 <= j < r.value :: hosts[j].0 != host
  {
    if hosts == [] then W.None
    else if hosts[0].0 == host then W.Some(0)
    else match Find(hosts[1..], host)
      case None => W.None
      case Some(i) => W.Some(i + 1)
  }

  /** A parsed netrc file: its `(host, machine)` entries in file order. */
  datatype Netrc = Netrc(hosts: seq<(string, Machine)>) {

    /** The Basic token of the first entry for `host`; `NoEntry(host)` when
        there is none. A table never answers "no token". */
    function ForHost(host: string): (r: Result<W.Option<Token>>)
      ensures r.Err? <==> forall i | 0 <= i < |hosts| :: hosts[i].0 != host
      ensures r.Err? ==> r.error == NoEntry(host)
      ensures r.Ok? ==> r.value.Some? && HasScheme(r.value.value, BasicScheme)
    {
      match Find(hosts, host)
      case None => W.Err(NoEntry(host))
      case Some(i) => W.Ok(W.Some(BasicToken(hosts[i].1)))
    }
  }

  /** The Kerberos service principal of a proxy host: the service class
      `HTTP`, a slash, and the host name as given. */
  function Principal(host: string): (r: string)
    ensures |r| == |host| + 5 && r[..5] == "HTTP/" && r[5..] == host
  {
    "HTTP/" + host
  }

  /** The Negotiate provider; it has no state of its own. */
  datatype Negotiate = Negotiate {

    /** The Negotiate token for `host`: the scheme, then the base64 of the
        initial context token for principal `HTTP/<host>`. A library
        failure becomes `Negotiate(message)`. */
    function ForHost(host: string, kerberos: Kerberos): (r: Result<W.Option<Token>>)
      ensures r.Ok? <==> kerberos(Principal(host)).Ok?
      ensures r.Ok? ==> r.value.Some? && HasScheme(r.value.value, NegotiateScheme)
      ensures r.Ok? ==> Payload(r.value.value, NegotiateScheme) == W.Some(kerberos(Principal(host)).value)
      ensures r.Err? ==> r.error == Error.Negotiate(kerberos(Principal(host)).error)
    {
      match kerberos(Principal(host))
      case Err(message) => W.Err(Error.Negotiate(message))
      case Ok(bytes) =>
        var t := Token(NegotiateScheme + Base64.Encode(bytes));
        assert t.value[|NegotiateScheme|..] == Base64.Encode(bytes);
        Base64.DecodeEncode(bytes);
        W.Ok(W.Some(t))
    }
  }

  /** The provider chosen for the run. */
  datatype Authenticator = None | Netrc(netrc: Netrc) | Negotiate(negotiate: Negotiate) {

    /** The token for `host` from the chosen provider. Only the `None`
        provider answers "no token"; the other two either produce a token
        of their scheme or fail with an error of their kind. */
    function ForHost(host: string, kerberos: Kerberos): (r: Result<W.Option<Token>>)
      ensures None? ==> r == W.Ok(W.None)
      ensures r == W.Ok(W.None) ==> None?
      ensures Netrc? && r.Ok? ==> HasScheme(r.value.value, BasicScheme)
      ensures Netrc? && r.Err? ==> r.error == NoEntry(host)
      ensures Negotiate? && r.Ok? ==> HasScheme(r.value.value, NegotiateScheme)
      ensures Negotiate? && r.Err? ==> r.error.Negotiate?
    {
      match this
      case None => W.Ok(W.None)
      case Netrc(n) => n.ForHost(host)
      case Negotiate(n) => n.ForHost(host, kerberos)
    }
  }

  // -----------------------------------------------------------------------
  // Reading tokens back

  predicate HasScheme(t: Token, scheme: string) {
    |scheme| <= |t.value| && t.value[..|scheme|] == scheme
  }

  /** The bytes carried by a token of the given scheme, or `None`. */
  function Payload(t: Token, scheme: string): W.Option<seq<u8>> {
    if HasScheme(t, scheme) then Base64.Decode(t.value[|scheme|..]) else W.None
  }

  /** The user-pass string a Basic token carries, or `None`. */
  function BasicCredential(t: Token): W.Option<string> {
    match Payload(t, BasicScheme)
    case None => W.None
    case Some(bytes) => Utf8.Decode(bytes)
  }

  /** The position of the first `:` in `s`, if any. */
  function FirstColon(s: string): (r: W.Option<nat>)
    ensures r.None? <==> ':' !in s
    ensures r.Some? ==> r.value < |s| && s[r.value] == ':' && ':' !in s[..r.value]
  {
    if s == [] then W.None
    else if s[0] == ':' then W.Some(0)
    else match FirstColon(s[1..])
      case None => W.None
      case Some(i) =>
        assert s[..i + 1] == [s[0]] + s[1..][..i];
        W.Some(i + 1)
  }

  /** Splits a user-pass string as section 2 of RFC 7617 does: the user-id
      ends at the first colon; no colon means no password. */
  function SplitCredential(s: string): (string, W.Option<string>) {
    match FirstColon(s)
    case None => (s, W.None)
    case Some(i) => (s[..i], W.Some(s[i + 1..]))
  }

  /** A colon written after a colon-free login is the first colon. */
  lemma SplitAfterLogin(login: string, password: string)
    ensures ':' !in login ==> SplitCredential(login + ":" + password) == (login, W.Some(password))
  {
    if ':' !in login {
      var s := login + ":" + password;
      assert s[..|login|] == login && s[|login|] == ':';
      assert FirstColon(s) == W.Some(|login|);
      assert s[|login| + 1..] == password;
    }
  }

  // -----------------------------------------------------------------------
  // Properties

  /** The netrc provider answers with the Basic token of the FIRST entry
      whose host equals `host` exactly; later entries for the same host
      and entries for other hosts play no part. */
  lemma NetrcFirstMatch(n: Netrc, host: string, i: nat)
    requires i < |n.hosts| && n.hosts[i].0 == host
    requires forall j | 0 <= j < i :: n.hosts[j].0 != host
    ensures n.ForHost(host) == W.Ok(W.Some(BasicToken(n.hosts[i].1)))
  {
  }

  /** A Basic token decodes to exactly the user-pass string it was built
      from: `login:password`, or the bare login without a colon. */
  lemma BasicTokenDecodes(m: Machine)
    ensures BasicCredential(BasicToken(m)) == W.Some(Credential(m))
  {
    Utf8.DecodeEncode(Credential(m));
  }

  /** For a login without a colon (the user-id of RFC 7617 may not contain
      one), the token gives back the login and the password, and tells an
      entry without password from one with an empty password. */
  lemma BasicTokenRecoversEntry(m: Machine)
    requires ':' !in m.login
    ensures var c := BasicCredential(BasicToken(m));
      c.Some? && SplitCredential(c.value) == (m.login, m.password)
  {
    BasicTokenDecodes(m);
  }

  /** Two entries whose logins contain no colon get the same Basic token
      only if they are the same entry. */
  lemma BasicTokenInjective(m1: Machine, m2: Machine)
    requires ':' !in m1.login && ':' !in m2.login
    requires BasicToken(m1) == BasicToken(m2)
    ensures m1 == m2
  {
    BasicTokenRecoversEntry(m1);
    BasicTokenRecoversEntry(m2);
  }

  /** A login that contains a colon is not protected: the entry `a:b` with
      no password and the entry `a` with password `b` send the same token. */
  lemma ColonInLoginCollides()
    ensures BasicToken(Machine("a:b", W.None)) == BasicToken(Machine("a", W.Some("b")))
  {
    assert Credential(Machine("a", W.Some("b"))) == "a:b";
  }

  /** The provider hands the inner provider's answer through unchanged. */
  lemma ForHostDelegates(a: Authenticator, host: string, kerberos: Kerberos)
    ensures a.Netrc? ==> a.ForHost(host, kerberos) == a.netrc.ForHost(host)
    ensures a.Negotiate? ==> a.ForHost(host, kerberos) == a.negotiate.ForHost(host, kerberos)
  {
  }

  /** A header value may hold visible ASCII characters and spaces. */
  predicate IsHeaderText(s: string) {
    forall i | 0 <= i < |s| :: ' ' <= s[i] <= '~'
  }

  /** A scheme of header text followed by a base64 payload is header text. */
  lemma EncodedIsHeaderText(scheme: string, bytes: seq<u8>)
    requires IsHeaderText(scheme)
    ensures IsHeaderText(scheme + Base64.Encode(bytes))
  {
    var payload := Base64.Encode(bytes);
    assert forall i | 0 <= i < |payload| :: Base64.IsAlphabetChar(payload[i]) || payload[i] == Base64.Pad;
  }

  /** Every token a provider produces is a valid header value, so attaching
      it to the request cannot fail. */
  lemma TokensAreHeaderText(a: Authenticator, host: string, kerberos: Kerberos)
    requires a.ForHost(host, kerberos).Ok? && a.ForHost(host, kerberos).value.Some?
    ensures IsHeaderText(a.ForHost(host, kerberos).value.value.value)
  {
    match a
    case Netrc(n) =>
      var m := n.hosts[Find(n.hosts, host).value].1;
      assert a.ForHost(host, kerberos).value.value == BasicToken(m);
      EncodedIsHeaderText(BasicScheme, Utf8.Encode(Credential(m)));
    case Negotiate(n) =>
      EncodedIsHeaderText(NegotiateScheme, kerberos(Principal(host)).value);
  }
}
