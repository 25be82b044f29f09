# hconnect: the proxy credentials and the CONNECT request, in Dafny

hconnect opens a TCP tunnel to a target host through an HTTP proxy by
sending it a `CONNECT` request. This project models the logic of the
library around that request. Everything in it is a pure function, and
lemmas prove its properties.

- **The credential provider** (`src/auth.rs`, module `Auth`). An
  `Authenticator` is one of three providers: `None`, `Netrc` or
  `Negotiate`. `for_host` gives a `Proxy-Authorization` value for a host
  name, or no value, or an error.
  - `Netrc` looks up the first entry of the parsed netrc table whose host
    is exactly the name. It builds `login:password`, or the bare login
    when the entry has no password, and answers `Basic ` followed by the
    base64 of that string's UTF-8 bytes. A missing host is the error
    `NoEntry(host)`; it is never "no token".
  - `Negotiate` asks Kerberos for the initial context token of the
    principal `HTTP/<host>` and answers `Negotiate ` followed by its
    base64. A library failure becomes `Negotiate(message)`.
- **The tunnel client** (`src/lib.rs`, module `Hconnect`).
  - `Host::from_uri` takes the host and the port of a URI's authority.
    A missing authority or a missing port is `InvalidUri`; no default
    port is used.
  - `Display` writes `name:port`, and `addr` gives `(name, port)`.
  - `Connection::connect` first parses the proxy URI, then the target
    URI. It dials the proxy's address and does the HTTP/1.1 handshake.
    It starts a `CONNECT <target URI>` request with a `host` header
    holding the target's name, without its port. It asks the provider
    for the proxy's host name, adds a `proxy-authorization` header
    exactly when the provider gave a token, and finishes the request.
    `ConnectRequest` models this sequence, with its errors in the same
    order. It assembles the request after the lookup. That gives the
    same outcome, because the request builder holds back its errors
    until the request is finished.

Supporting modules:

- `Base64`: section 4 of RFC 4648 (standard alphabet, `=` padding).
- `Utf8`: the byte form of a Rust `str`.
- `Decimal`: Rust's rendering of an unsigned integer.

Each of these three has a decoder as its partner, with a proved round
trip.

Two external collaborators are parameters:

- `kerberos`: the Kerberos library's `ClientCtx::new`, from a principal
  name to the initial context token or an error message.
- `transport`: from the address dialed to what the TCP connection and the
  HTTP/1.1 handshake came to.

A URI is modelled by its text and its authority: an optional host, with
an optional port.

The code sends the `CONNECT` request once and has no handling of a `407`
answer. The `host` header carries the target's name without its port.

## Model

| member | source | states |
|---|---|---|
| `Auth.Credential` | src/auth.rs:63-67 | For every login: with a password the user-pass string is the login, a colon and the password; without one it is the bare login. For a login without a colon, splitting the user-pass string at its first colon, as section 2 of RFC 7617 does, gives back exactly the login and the optional password. |
| `Auth.BasicToken` | src/auth.rs:68-69 | The token has the `Basic ` scheme, and its payload base64-decodes to exactly the UTF-8 bytes of the user-pass string. |
| `Auth.Principal` | src/auth.rs:82 | The principal is the service class `HTTP`, a slash, and then the host name unchanged. |
| `Auth.Find` | src/auth.rs:62 | The index found is that of the first entry whose host equals the name exactly; `None` exactly when no entry has that host. |
| `Auth.Netrc.ForHost` | src/auth.rs:61-74 | Fails exactly when no entry has the host, and then with `NoEntry` carrying the queried name. Otherwise it always gives a token, and that token has the `Basic ` scheme; it never answers "no token". |
| `Auth.NetrcFirstMatch` | src/auth.rs:62-70 | The token is the Basic token of the first entry for the host, in table order; later entries for the same host play no part. |
| `Auth.BasicTokenDecodes` | src/auth.rs:63-69 | Removing `Basic `, base64-decoding and UTF-8-decoding the token gives exactly `login:password`, or the bare login when there is no password. |
| `Auth.BasicTokenRecoversEntry` | src/auth.rs:63-67 | For a login without a colon, splitting the decoded credential at its first colon gives back the login and the optional password. So an entry without a password (no trailing colon) and one with an empty password are told apart. |
| `Auth.BasicTokenInjective` | src/auth.rs:63-69 | Two entries whose logins have no colon get the same token only if they are equal. |
| `Auth.ColonInLoginCollides` | src/auth.rs:63-66 | The entry with login `a:b` and no password and the entry with login `a` and password `b` send the same token. |
| `Auth.Negotiate.ForHost` | src/auth.rs:81-89 | Succeeds exactly when the Kerberos call for principal `HTTP/<host>` does. A success is always a token with scheme `Negotiate ` whose payload decodes to exactly the context token. A failure is `Negotiate` carrying the library's message. |
| `Auth.Authenticator.ForHost` | src/auth.rs:120-126 | `None` gives `Ok(None)` for every host, and only `None` gives it. Netrc tokens are `Basic ` and Netrc errors are `NoEntry(host)`. Negotiate tokens are `Negotiate ` and Negotiate errors are `Negotiate`. |
| `Auth.ForHostDelegates` | src/auth.rs:123-124 | For the `Netrc` and `Negotiate` providers, the answer is exactly the inner provider's answer for the same host. |
| `Auth.TokensAreHeaderText` | src/auth.rs:68-87 | Every token a provider returns consists of visible ASCII characters and spaces, so it is a valid header value. |
| `Base64.Encode` | src/auth.rs:68 | Every character of an encoding is in the standard alphabet or is `=`. |
| `Base64.EncodeLength` | src/auth.rs:68 | An encoding of n bytes has 4·⌈n/3⌉ characters. |
| `Base64.DecodeEncode` | src/auth.rs:68 | Decoding the encoding of any byte string gives back exactly that byte string. |
| `Base64.TestVectors` | src/auth.rs:68 | The encoder gives the test vectors of section 10 of RFC 4648 (`""`, `Zg==`, `Zm8=`, `Zm9v`, `Zm9vYg==`, `Zm9vYmE=`, `Zm9vYmFy`). It also encodes `[0xfb, 0xff]` as `+/8=`, which reaches the values 62 and 63. These fix the bit order, the padding, `+` and `/`, and every character the vectors contain. |
| `Base64.EncodeInjective` | src/auth.rs:68 | Distinct byte strings have distinct encodings. |
| `Utf8.Encode` | src/auth.rs:68 | A string of n characters has between n and 4n bytes. |
| `Utf8.TestVectors` | src/auth.rs:68 | One character of each encoded length gets its UTF-8 bytes: `A` is `41`, U+00E9 is `C3 A9`, U+20AC is `E2 82 AC`, and U+1F600 is `F0 9F 98 80`. |
| `Utf8.DecodeEncode` | src/auth.rs:68 | Decoding the UTF-8 bytes of any string gives back exactly that string. |
| `Utf8.EncodeInjective` | src/auth.rs:68 | Distinct strings have distinct UTF-8 bytes. |
| `Decimal.Format` | src/lib.rs:114 | The port numeral is non-empty and consists of digits. A numeral starting with `0` is exactly `0`, so there are no leading zeros. |
| `Decimal.ParseFormat` | src/lib.rs:114 | Reading the numeral back gives the number. |
| `Hconnect.FromUri` | src/lib.rs:119-131 | Succeeds exactly when the URI has an authority that has a port; no default port is used. The host then holds the authority's host and port unchanged. A failure is `InvalidUri` carrying that URI. |
| `Hconnect.Host.ToString` | src/lib.rs:112-116 | The display form splits at its last colon back into exactly the name and the port, whatever the name holds. |
| `Hconnect.Host.Addr` | src/lib.rs:133-135 | The address dialed is the name and the port that the display form shows. |
| `Hconnect.DisplayRoundTrip` | src/lib.rs:114 | A parsed host displays as the authority's `host` + `:` + the decimal port, and that text splits back into the same host and port. |
| `Hconnect.BuildRequest` | src/lib.rs:79-87 | The method is `CONNECT` and the URI is the target URI. The `host` header is the target's name. `proxy-authorization` is present exactly when there is a token, with the token as its value. No other header is set, and no header name appears twice: there is one header without a token and two with one. |
| `Hconnect.LinkResult` | src/lib.rs:66-77 | The transport outcome passes only when the proxy was reached and the handshake done, and it then gives the peer. A failed dial is `Connect` with the proxy host. A failed peer-address query is `Io`. A failed handshake is `Handshake` with the target host and the peer. |
| `Hconnect.ConnectRequest` | src/lib.rs:63-88 | A request is built exactly when both URIs parse, the proxy is reached and handshaken, and the provider answers without error for the proxy's name. |
| `Hconnect.RequestBuilt` | src/lib.rs:79-88 | When all of these succeed, the result is the CONNECT request for the target, carrying the provider's answer for the proxy's name. |
| `Hconnect.ProxyParsedFirst` | src/lib.rs:63 | An invalid proxy URI is the error, even when the target URI is invalid too. |
| `Hconnect.TargetParsedSecond` | src/lib.rs:64 | With a valid proxy URI, an invalid target URI is the error, before anything is dialed. |
| `Hconnect.DialsProxyOnly` | src/lib.rs:66 | Only the proxy's `(name, port)` is dialed: two networks that behave alike at that address give the same outcome. |
| `Hconnect.TransportErrors` | src/lib.rs:66-77 | A failed dial is `Connect` with the proxy host. A failed peer-address query is `Io`. A failed handshake is `Handshake` with the target host and the peer. Each comes before any credential lookup. |
| `Hconnect.LooksUpProxyName` | src/lib.rs:83 | The credentials are looked up for the proxy's host name only: providers that agree on that name give the same outcome. |
| `Hconnect.AuthErrorAborts` | src/lib.rs:83 | A provider error ends the connection as `Error::Auth` of that error, and no request is built. |
| `Hconnect.NetrcWithoutProxyEntry` | src/lib.rs:83 | With a netrc table that has no entry for the proxy, the outcome is `Auth(NoEntry(proxy name))`, even when the table has an entry for the target. |
| `Hconnect.RequestContents` | src/lib.rs:79-88 | A built request is `CONNECT` to the target URI, with `host` equal to the target's name without its port. It has `proxy-authorization` exactly when the provider returned a token for the proxy's name, and then the value is that token. |

## Left out

- Reading the netrc file is left out: `NetrcPath::open`, `NetrcPath::default`, `FromStr` and `Display` for `NetrcPath` (src/auth.rs:22-55). This is file I/O, a home-directory lookup and a grammar parsed by an external crate. A `Netrc` holds the parsed table. The errors `File` and `Netrc` are declared but no modelled operation produces them.
- The Kerberos library (`ClientCtx::new`, src/auth.rs:84) is a foreign call. It is the parameter `kerberos`. The pending context it also returns is dropped by the source and is not modelled.
- Dialing the proxy, reading the peer address and the HTTP/1.1 client handshake (src/lib.rs:66-77) are network I/O. Only their outcomes are modelled, through `transport`.
- Sending the request, the upgrade of the connection and the concurrent `join` (src/lib.rs:90-97) are network I/O and concurrency. `ConnectRequest` ends with the request, so the `Hyper` errors these steps raise are not modelled.
- `Connection::copy_bidirectional` (src/lib.rs:100-106) is byte relaying over sockets and is not modelled.
- The `Http` error of `request.body(..)?` (src/lib.rs:88) comes from header validation inside the `http` crate, which is not part of this model. The tokens are proved to be valid header text (`Auth.TokensAreHeaderText`). The other header value, `host`, is the target's host name. In the source, that name comes from the `http` crate's URI grammar, which admits no control characters. The model's `Authority.host` is an arbitrary string, so the model relies on that grammar and does not produce this error.
- URI parsing by the `http` crate is not modelled. A URI is its text and an optional authority of a host and an optional port.
- src/main.rs (a standalone binary with floating-point timeouts and stdin/stdout copying) and src/io_ext.rs (forwarding of async I/O calls) are not part of this model.
- `Token::as_str` is the field `value` of `Token`. The constructors `Authenticator::none`, `netrc` and `negotiate` are the datatype's constructors.
