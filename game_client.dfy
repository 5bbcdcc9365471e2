/** The `GameClient` of src/lcu.rs: the discovered port and token, the
    encoded token, and the HTTP client built from them, which `build_client`
    overwrites and `retry` rebuilds when the API stops answering.
    The process queries, the local API's listening port and the outcome of
    reqwest's `ClientBuilder::build` are an environment passed in. */
module LcuClient {
  import opened Results
  import Text
  import Discovery
  import Base64

  /** What a reqwest `Client` was built with: its default `Authorization`
      header and whether it accepts invalid certificates.
      `Client::default()` has neither. */
  datatype HttpClient = HttpClient(authorization: Option<string>, acceptsInvalidCerts: bool)

  const DefaultClient: HttpClient := HttpClient(None, false)

  /** The world one operation runs in: how the two process queries end,
      the port on which the local API serves its self-signed certificate
      (None when the game client is not running), and whether reqwest's
      `ClientBuilder::build` succeeds (else its error message). */
  datatype Env = Env(
    wmic: Discovery.CommandOutput,
    powershell: Discovery.CommandOutput,
    apiPort: Option<string>,
    builder: Result<(), string>)

  const Origin: string := "https://127.0.0.1:"

  /** A request to `url` made with `client` obtains a response (of any
      status): it goes to the port the API listens on, and the client
      accepts the API's self-signed certificate. */
  predicate Responds(env: Env, url: string, client: HttpClient) {
    env.apiPort.Some? && Origin + env.apiPort.value + "/" <= url && client.acceptsInvalidCerts
  }

  /** `header::HeaderValue::from_str`: every byte must be visible ASCII
      (32 to 126), a tab, or part of a multi-byte UTF-8 sequence. */
  predicate IsHeaderChar(c: char) {
    c == '\t' || (' ' <= c && c != '\U{7F}')
  }

  function HeaderValueFromStr(s: string): (r: Result<string, string>)
    ensures r.Ok? <==> forall i :: 0 <= i < |s| ==> IsHeaderChar(s[i])
    ensures r.Ok? ==> r.value == s
  {
    if forall i :: 0 <= i < |s| ==> IsHeaderChar(s[i]) then Ok(s)
    else Err("failed to parse header value")
  }

  /** The fixed user name `riot`, the token, Base64 of the UTF-8 bytes:
      decoding gives back the bytes of `riot:<token>`. */
  function EncodeAuthToken(token: string): (e: string)
    ensures Base64.Decode(e) == Some(Base64.Utf8("riot:" + token))
  {
    Base64.DecodeEncode(Base64.Utf8("riot:" + token));
    Base64.Encode(Base64.Utf8("riot:" + token))
  }

  /** The `?` after `HeaderValue::from_str` never fires: Base64 output is
      visible ASCII, so a header built from any token is accepted. */
  lemma AuthorizationHeaderIsValid(token: string)
    ensures HeaderValueFromStr("Basic " + EncodeAuthToken(token)) == Ok("Basic " + EncodeAuthToken(token))
  {
    var e := EncodeAuthToken(token);
    Base64.EncodeAlphabet(Base64.Utf8("riot:" + token));
    var h := "Basic " + e;
    forall i | 0 <= i < |h| ensures IsHeaderChar(h[i]) {
      if i >= 6 {
        assert h[i] == e[i - 6];
      }
    }
  }

  /** The header carries the token: decoding what follows `Basic ` gives
      back the bytes of `riot:<token>`. */
  lemma AuthorizationHeaderCarriesToken(token: string)
    ensures var h := "Basic " + EncodeAuthToken(token);
      Base64.Decode(h[6..]) == Some(Base64.Utf8("riot:" + token))
  {
    var h := "Basic " + EncodeAuthToken(token);
    assert h[6..] == EncodeAuthToken(token);
  }

  /** The client `build_client` installs for a given encoded token: it
      sends the token as Basic credentials, and, accepting the API's
      self-signed certificate, gets a response for any URL on the port the
      API listens on. */
  function AuthenticatedClient(encoded: string): (c: HttpClient)
    ensures c.authorization == Some("Basic " + encoded)
    ensures forall env: Env, url: string ::
      Responds(env, url, c) <==> env.apiPort.Some? && Origin + env.apiPort.value + "/" <= url
  {
    HttpClient(Some("Basic " + encoded), true)
  }

  /** `build_url`'s text for a port and a path: every leading `/` of the
      path is dropped and exactly one separates it from the origin. */
  function Url(port: string, path: string): (url: string)
    ensures var rest := Text.TrimStart(path, '/');
      && url == Origin + port + "/" + rest
      && rest == path[|path| - |rest|..]
      && (rest == [] || rest[0] != '/')
  {
    Origin + port + "/" + Text.TrimStart(path, '/')
  }

  /** Leading slashes make no difference to the URL. */
  lemma UrlIgnoresLeadingSlashes(port: string, path: string)
    ensures Url(port, "/" + path) == Url(port, path)
  {
    Text.TrimStartAbsorbs(path, '/');
    assert [('/')] + path == "/" + path;
  }

  /** Between two all-digit ports, the probe of one reaches the API on the
      other exactly when they are the same port text. */
  lemma RespondsIffSamePort(env: Env, port: string, path: string, client: HttpClient)
    requires env.apiPort.Some? && Discovery.AllInClass(Discovery.AsciiDigit, env.apiPort.value)
    requires Discovery.AllInClass(Discovery.AsciiDigit, port)
    requires client.acceptsInvalidCerts
    ensures Responds(env, Url(port, path), client) <==> env.apiPort.value == port
  {
    var url := Url(port, path);
    var rest := Text.TrimStart(path, '/');
    var p := env.apiPort.value;
    assert url == Origin + (port + "/" + rest);
    if p == port {
      PrefixOfConcat(Origin + p + "/", rest);
    }
    if Responds(env, url, client) {
      ResponseMeansSamePort(p, port, rest);
    }
  }

  lemma ResponseMeansSamePort(p: string, port: string, rest: string)
    requires Discovery.AllInClass(Discovery.AsciiDigit, p)
    requires Discovery.AllInClass(Discovery.AsciiDigit, port)
    requires Origin + p + "/" <= Origin + (port + "/" + rest)
    ensures p == port
  {
    assert Origin + p + "/" == Origin + (p + "/");
    DropCommonPrefix(Origin, p + "/", port + "/" + rest);
    DigitPortsAgree(p, port, rest);
  }

  lemma PrefixOfConcat(a: string, b: string)
    ensures a <= a + b
  {
    assert (a + b)[..|a|] == a;
  }

  lemma DropCommonPrefix(a: string, x: string, y: string)
    requires a + x <= a + y
    ensures x <= y
  {
    assert forall i :: 0 <= i < |x| ==> x[i] == (a + x)[|a| + i] == (a + y)[|a| + i] == y[i];
  }

  /** A `/` ends an all-digit port, so one all-digit port followed by `/`
      is a prefix of another followed by `/` only when they are equal. */
  lemma {:induction false} DigitPortsAgree(p: string, port: string, rest: string)
    requires Discovery.AllInClass(Discovery.AsciiDigit, p)
    requires Discovery.AllInClass(Discovery.AsciiDigit, port)
    requires p + "/" <= port + "/" + rest
    ensures p == port
    decreases |p|
  {
    assert (p + "/")[0] == (port + "/" + rest)[0];
    assert p != [] ==> (p + "/")[0] == p[0];
    assert port != [] ==> (port + "/" + rest)[0] == port[0];
    if p != [] && port != [] {
      assert (p + "/")[1..] == p[1..] + "/";
      assert (port + "/" + rest)[1..] == port[1..] + "/" + rest;
      DigitPortsAgree(p[1..], port[1..], rest);
    }
  }

  class GameClient {
    var port: string
    var authToken: string
    var authTokenEncoded: string
    var client: HttpClient

    /** `GameClient::new`: the default (empty) fields, then one
        `build_client` whose error is only reported. */
    constructor (env: Env)
      ensures var d := Discovery.BuildWmicWmi(env.wmic, env.powershell);
        if d.Err? then
          port == "" && authToken == "" && authTokenEncoded == "" && client == DefaultClient
        else
          && port == d.value.port && authToken == d.value.authToken
          && authTokenEncoded == EncodeAuthToken(d.value.authToken)
          && client == (if env.builder.Ok? then AuthenticatedClient(authTokenEncoded) else DefaultClient)
    {
      port, authToken, authTokenEncoded, client := "", "", "", DefaultClient;
      new;
      var _ := BuildClient(env);
    }

    /** `status`: the help endpoint at `build_url("help")` answers,
        whatever the status code. An answer needs a running API and a
        client that accepts its certificate. */
    predicate Status(env: Env)
      reads this
      ensures Status(env) ==> env.apiPort.Some? && client.acceptsInvalidCerts
    {
      Responds(env, Url(port, "help"), client)
    }

    /** `build_client`. Discovery runs before any field is written, so a
        failed discovery changes nothing. After it, `port`, `auth_token`
        and `auth_token_encoded` are written before the client is built,
        so a failing `ClientBuilder::build` leaves them new and the client
        old. */
    method BuildClient(env: Env) returns (r: Result<(), string>)
      modifies this
      ensures var d := Discovery.BuildWmicWmi(env.wmic, env.powershell);
        d.Err? ==> r == Err(d.error) && unchanged(this)
      ensures var d := Discovery.BuildWmicWmi(env.wmic, env.powershell);
        d.Ok? ==>
          && port == d.value.port && authToken == d.value.authToken
          && authTokenEncoded == EncodeAuthToken(authToken)
          && (env.builder.Ok? ==> r == Ok(()) && client == AuthenticatedClient(authTokenEncoded))
          && (env.builder.Err? ==> r == Err(env.builder.error) && client == old(client))
    {
      var discovered := Discovery.BuildWmicWmi(env.wmic, env.powershell);
      if discovered.Err? {
        return Err(discovered.error);
      }
      port := discovered.value.port;
      authToken := discovered.value.authToken;
      authTokenEncoded := EncodeAuthToken(authToken);
      var header := HeaderValueFromStr("Basic " + authTokenEncoded);
      AuthorizationHeaderIsValid(authToken);
      if env.builder.Err? {
        return Err(env.builder.error);
      }
      client := HttpClient(Some(header.value), true);
      r := Ok(());
    }

    /** `retry`: nothing happens while the API answers; otherwise the client
        is rebuilt and `build_client`'s result returned. */
    method Retry(env: Env) returns (r: Result<(), string>)
      modifies this
      ensures old(Status(env)) ==> r == Ok(()) && unchanged(this)
      ensures var d := Discovery.BuildWmicWmi(env.wmic, env.powershell);
        !old(Status(env)) && d.Err? ==> r == Err(d.error) && unchanged(this)
      ensures var d := Discovery.BuildWmicWmi(env.wmic, env.powershell);
        !old(Status(env)) && d.Ok? ==>
          && port == d.value.port && authToken == d.value.authToken
          && authTokenEncoded == EncodeAuthToken(authToken)
          && (env.builder.Ok? ==> r == Ok(()) && client == AuthenticatedClient(authTokenEncoded))
          && (env.builder.Err? ==> r == Err(env.builder.error) && client == old(client))
    {
      if Status(env) {
        return Ok(());
      }
      r := BuildClient(env);
    }
  }

  /** After a successful rebuild the client is online exactly when the API
      listens on the port that was discovered; offline otherwise. */
  lemma OnlineAfterBuild(env: Env, c: GameClient)
    requires Discovery.BuildWmicWmi(env.wmic, env.powershell).Ok?
    requires env.apiPort.Some? ==> Discovery.AllInClass(Discovery.AsciiDigit, env.apiPort.value)
    requires c.port == Discovery.BuildWmicWmi(env.wmic, env.powershell).value.port
    requires c.client == AuthenticatedClient(c.authTokenEncoded)
    ensures c.Status(env) <==> env.apiPort == Some(c.port)
  {
    if env.apiPort.Some? {
      RespondsIffSamePort(env, c.port, "help", c.client);
    }
  }

  /** A probe made with the default client, which rejects the API's
      certificate, never gets a response. */
  lemma DefaultClientIsOffline(env: Env, url: string)
    ensures !Responds(env, url, DefaultClient)
  {
  }
}
