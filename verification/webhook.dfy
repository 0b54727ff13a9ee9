/** `WebhookService`: one delivery attempt of an SMS payload. The settings
    validity check, the HMAC-SHA256 primitive and the HTTP exchange are
    parameters: `isValid` stands for `AppSettings.isValid()`, `mac` for
    `javax.crypto.Mac`, and `network` for building the OkHttp client and
    call and executing it, including every exception those steps can raise
    (a rejected URL or timeout, a connection or I/O failure). */
module Webhook {
  import opened Types
  import Utf8
  import Base64
  import Hex
  import Payload

  datatype AppSettings = AppSettings(
    webhookUrl: string,
    authUsername: string,
    authPassword: string,
    hmacEnabled: bool,
    hmacSecret: string,
    retryCount: int32,
    timeoutSeconds: int32)

  datatype Header = Header(name: string, value: string)

  datatype Request = Request(
    verb: string,
    url: string,
    headers: seq<Header>,
    body: seq<uint8>,
    bodyMediaType: string,
    connectTimeoutSeconds: int,
    readTimeoutSeconds: int,
    writeTimeoutSeconds: int)

  /** What executing the call gives: a response status, or an exception. */
  datatype Exchange = Response(code: int) | Failure

  /** What the MAC primitive gives: the digest bytes, or an exception. */
  datatype MacOutcome = Digest(bytes: seq<int8>) | MacError

  /** The outcome of `sendSmsToWebhook`, together with the request it built
      (none when it returned before building one). */
  datatype Attempt = Attempt(success: bool, request: Option<Request>)

  const JsonMediaType: string := "application/json; charset=utf-8"

  /** Kotlin's `Char.isWhitespace()` on the JVM: Java whitespace or a Unicode
      space separator (which adds the no-break spaces). */
  predicate IsWhitespace(c: char)
  {
    var x := c as int;
    (0x09 <= x <= 0x0D) || (0x1C <= x <= 0x20) || x == 0xA0 || x == 0x1680
    || (0x2000 <= x <= 0x200A) || x == 0x2028 || x == 0x2029 || x == 0x202F
    || x == 0x205F || x == 0x3000
  }

  /** `String.isBlank()`: empty or whitespace only. */
  predicate IsBlank(s: string) { forall i :: 0 <= i < |s| ==> IsWhitespace(s[i]) }

  /** `response.isSuccessful`. */
  predicate IsSuccessful(code: int) { 200 <= code <= 299 }

  /** Whether the `X-Signature` header is added. */
  predicate SignsRequests(settings: AppSettings)
  {
    settings.hmacEnabled && !IsBlank(settings.hmacSecret)
  }

  /** The first header with the given name. */
  function Lookup(headers: seq<Header>, name: string): (r: Option<string>)
    ensures r.Some? <==> exists i :: 0 <= i < |headers| && headers[i].name == name
    ensures r.Some? ==> exists i :: 0 <= i < |headers| && headers[i] == Header(name, r.value)
  {
    if headers == [] then None
    else if headers[0].name == name then Some(headers[0].value)
    else
      var r := Lookup(headers[1..], name);
      if r.Some? then
        var i :| 0 <= i < |headers[1..]| && headers[1..][i] == Header(name, r.value);
        assert headers[i + 1] == Header(name, r.value);
        r
      else r
  }

  /** The credentials `"$username:$password"` as the UTF-8 bytes that are encoded. */
  function Credentials(username: string, password: string): seq<uint8>
  {
    Utf8.Encode(username + ":" + password)
  }

  /** `buildBasicAuthHeader`: `"Basic "` and the one-line base64 of the
      credentials (section 2 of RFC 7617). */
  function BuildBasicAuthHeader(username: string, password: string): (h: string)
    ensures |h| == 6 + 4 * ((|Credentials(username, password)| + 2) / 3)
    ensures h[..6] == "Basic "
    ensures Base64.Decode(h[6..]) == Some(Credentials(username, password))
    ensures Utf8.Decode(Base64.Decode(h[6..]).value) == Some(username + ":" + password)
    ensures forall i :: 6 <= i < |h| ==> Base64.IsAlphabet(h[i]) || h[i] == '='
  {
    var bytes := Credentials(username, password);
    var encoded := Base64.Encode(bytes);
    Base64.EncodeLength(bytes);
    Base64.RoundTrip(bytes);
    Base64.EncodeCharacters(bytes);
    Utf8.RoundTrip(username + ":" + password);
    var h := "Basic " + encoded;
    assert h[6..] == encoded;
    assert forall i :: 6 <= i < |h| ==> h[i] == encoded[i - 6];
    h
  }

  /** `computeHmacSignature`: the digest of the payload's UTF-8 bytes under
      the secret's UTF-8 bytes, in lowercase hex; `""` if the MAC throws. */
  function ComputeHmacSignature(payload: string, secret: string,
                                mac: (seq<uint8>, seq<uint8>) -> MacOutcome): (sig: string)
    ensures mac(Utf8.Encode(secret), Utf8.Encode(payload)).MacError? ==> sig == ""
    ensures mac(Utf8.Encode(secret), Utf8.Encode(payload)).Digest? ==>
      var d := mac(Utf8.Encode(secret), Utf8.Encode(payload)).bytes;
      |sig| == 2 * |d| && Hex.Decode(sig) == Some(d)
  {
    match mac(Utf8.Encode(secret), Utf8.Encode(payload))
    case MacError => ""
    case Digest(d) =>
      Hex.RoundTrip(d);
      Hex.Encode(d)
  }

  /** The headers added to the request for the JSON text `json`. */
  function RequestHeaderList(json: string, settings: AppSettings,
                             mac: (seq<uint8>, seq<uint8>) -> MacOutcome): seq<Header>
  {
    var base := [Header("Content-Type", "application/json"),
                 Header("Authorization", BuildBasicAuthHeader(settings.authUsername, settings.authPassword))];
    if SignsRequests(settings)
    then base + [Header("X-Signature", ComputeHmacSignature(json, settings.hmacSecret, mac))]
    else base
  }

  /** The request `sendSmsToWebhook` builds once the settings are valid. */
  function BuildRequest(payload: Payload.SmsPayload, settings: AppSettings,
                        mac: (seq<uint8>, seq<uint8>) -> MacOutcome): Request
  {
    var json := Payload.Encode(Payload.ServiceEncoder, payload);
    var t := settings.timeoutSeconds as int;
    Request("POST", settings.webhookUrl, RequestHeaderList(json, settings, mac), Utf8.Encode(json), JsonMediaType, t, t, t)
  }

  /** `sendSmsToWebhook`. */
  function SendSmsToWebhook(payload: Payload.SmsPayload, settings: AppSettings,
                            isValid: AppSettings -> bool,
                            mac: (seq<uint8>, seq<uint8>) -> MacOutcome,
                            network: Request -> Exchange): (a: Attempt)
    ensures !isValid(settings) ==> a == Attempt(false, None)
    ensures isValid(settings) ==> a.request == Some(BuildRequest(payload, settings, mac))
    ensures a.success <==>
      isValid(settings) && network(a.request.value).Response? && IsSuccessful(network(a.request.value).code)
  {
    if !isValid(settings) then Attempt(false, None)
    else
      var request := BuildRequest(payload, settings, mac);
      match network(request)
      case Failure => Attempt(false, Some(request))
      case Response(code) => Attempt(IsSuccessful(code), Some(request))
  }

  // ------------------------------------------------------------ properties

  /** The request is a POST of the compact JSON body to the configured URL,
      with one timeout for connecting, reading and writing, and the body
      decodes back to the payload. */
  lemma RequestShape(payload: Payload.SmsPayload, settings: AppSettings,
                     mac: (seq<uint8>, seq<uint8>) -> MacOutcome)
    ensures var r := BuildRequest(payload, settings, mac);
      && r.verb == "POST"
      && r.url == settings.webhookUrl
      && r.bodyMediaType == JsonMediaType
      && r.connectTimeoutSeconds == r.readTimeoutSeconds == r.writeTimeoutSeconds == settings.timeoutSeconds as int
      && Utf8.Decode(r.body).Some?
      && Payload.Decode(Utf8.Decode(r.body).value) == Some(payload)
  {
    var json := Payload.Encode(Payload.ServiceEncoder, payload);
    Utf8.RoundTrip(json);
    Payload.RoundTrip(Payload.ServiceEncoder, payload);
  }

  /** The headers, in the order they are added: `Content-Type:
      application/json`, then the Basic credentials, then `X-Signature` if
      and only if HMAC is enabled with a non-blank secret. */
  lemma RequestHeaders(payload: Payload.SmsPayload, settings: AppSettings,
                       mac: (seq<uint8>, seq<uint8>) -> MacOutcome)
    ensures var hs := BuildRequest(payload, settings, mac).headers;
      && |hs| == (if SignsRequests(settings) then 3 else 2)
      && hs[0] == Header("Content-Type", "application/json")
      && hs[1] == Header("Authorization", BuildBasicAuthHeader(settings.authUsername, settings.authPassword))
      && (SignsRequests(settings) ==>
            hs[2] == Header("X-Signature", ComputeHmacSignature(Payload.Encode(Payload.ServiceEncoder, payload), settings.hmacSecret, mac)))
      && Lookup(hs, "Authorization") == Some(BuildBasicAuthHeader(settings.authUsername, settings.authPassword))
      && (Lookup(hs, "X-Signature").Some? <==> SignsRequests(settings))
  {
    var json := Payload.Encode(Payload.ServiceEncoder, payload);
    var hs := RequestHeaderList(json, settings, mac);
    assert BuildRequest(payload, settings, mac).headers == hs;
    var auth := BuildBasicAuthHeader(settings.authUsername, settings.authPassword);
    assert hs[0] == Header("Content-Type", "application/json");
    assert hs[1] == Header("Authorization", auth);
    assert hs[1..][0] == hs[1];
    assert Lookup(hs, "Authorization") == Lookup(hs[1..], "Authorization");
    if SignsRequests(settings) {
      assert hs[2].name == "X-Signature";
    } else {
      assert |hs| == 2;
      assert hs[0].name != "X-Signature" && hs[1].name != "X-Signature";
    }
  }

  /** The signature covers exactly the bytes that are posted as the body,
      keyed with the secret's UTF-8 bytes; if the MAC throws, the header is
      still sent, empty. */
  lemma SignatureCoversBody(payload: Payload.SmsPayload, settings: AppSettings,
                            mac: (seq<uint8>, seq<uint8>) -> MacOutcome)
    requires SignsRequests(settings)
    ensures var r := BuildRequest(payload, settings, mac);
      var outcome := mac(Utf8.Encode(settings.hmacSecret), r.body);
      && Lookup(r.headers, "X-Signature").Some?
      && (outcome.MacError? ==> Lookup(r.headers, "X-Signature") == Some(""))
      && (outcome.Digest? ==> Hex.Decode(Lookup(r.headers, "X-Signature").value) == Some(outcome.bytes))
  {
    var json := Payload.Encode(Payload.ServiceEncoder, payload);
    var hs := RequestHeaderList(json, settings, mac);
    assert BuildRequest(payload, settings, mac).headers == hs;
    var sig := ComputeHmacSignature(json, settings.hmacSecret, mac);
    assert hs[0].name != "X-Signature" && hs[1].name != "X-Signature";
    assert hs[2] == Header("X-Signature", sig);
    assert hs[1..][1..][0] == hs[2];
    assert Lookup(hs, "X-Signature") == Lookup(hs[1..][1..], "X-Signature") == Some(sig);
  }

  /** An HMAC-SHA256 digest (32 bytes) becomes 64 lowercase hex digits. */
  lemma SignatureLength(payload: string, secret: string, mac: (seq<uint8>, seq<uint8>) -> MacOutcome)
    requires mac(Utf8.Encode(secret), Utf8.Encode(payload)).Digest?
    requires |mac(Utf8.Encode(secret), Utf8.Encode(payload)).bytes| == 32
    ensures |ComputeHmacSignature(payload, secret, mac)| == 64
    ensures forall i :: 0 <= i < 64 ==> Hex.IsLowerHexDigit(ComputeHmacSignature(payload, secret, mac)[i])
  {
    Hex.EncodeLowercase(mac(Utf8.Encode(secret), Utf8.Encode(payload)).bytes);
  }

  /** Invalid settings: no request, and the result is `false`, whatever the
      network would have answered. */
  lemma InvalidSettingsNeverSend(payload: Payload.SmsPayload, settings: AppSettings,
                                 isValid: AppSettings -> bool,
                                 mac: (seq<uint8>, seq<uint8>) -> MacOutcome,
                                 network: Request -> Exchange, other: Request -> Exchange)
    requires !isValid(settings)
    ensures SendSmsToWebhook(payload, settings, isValid, mac, network) ==
            SendSmsToWebhook(payload, settings, isValid, mac, other)
    ensures !SendSmsToWebhook(payload, settings, isValid, mac, network).success
  {
  }

  /** With valid settings the outcome is decided by the one exchange of the
      built request: `true` exactly for a 2xx status; any exception gives
      `false`. */
  lemma OutcomeMapping(payload: Payload.SmsPayload, settings: AppSettings,
                       isValid: AppSettings -> bool,
                       mac: (seq<uint8>, seq<uint8>) -> MacOutcome,
                       network: Request -> Exchange)
    requires isValid(settings)
    ensures var a := SendSmsToWebhook(payload, settings, isValid, mac, network);
      var x := network(BuildRequest(payload, settings, mac));
      && (x.Failure? ==> !a.success)
      && (x.Response? ==> (a.success <==> 200 <= x.code <= 299))
  {
  }

  /** Printable ASCII only: what the HTTP client allows in a header value. */
  predicate IsPrintable(s: string) { forall j :: 0 <= j < |s| ==> 0x20 <= s[j] as int < 0x7F }

  lemma ContentTypePrintable()
    ensures IsPrintable("application/json")
  {
  }

  lemma AlphabetPrintable(c: char)
    requires Base64.IsAlphabet(c) || c == '='
    ensures 0x20 <= c as int < 0x7F
  {
  }

  lemma AuthPrintable(username: string, password: string)
    ensures IsPrintable(BuildBasicAuthHeader(username, password))
  {
    var auth := BuildBasicAuthHeader(username, password);
    forall j | 0 <= j < |auth| ensures 0x20 <= auth[j] as int < 0x7F {
      if j < 6 {
        assert auth[j] == auth[..6][j];
      } else {
        AlphabetPrintable(auth[j]);
      }
    }
  }

  lemma SignaturePrintable(json: string, secret: string, mac: (seq<uint8>, seq<uint8>) -> MacOutcome)
    ensures IsPrintable(ComputeHmacSignature(json, secret, mac))
  {
    match mac(Utf8.Encode(secret), Utf8.Encode(json))
    case MacError =>
    case Digest(d) => Hex.EncodeLowercase(d);
  }

  /** Header values are printable ASCII, so the HTTP client's header-value
      check accepts them whatever the credentials contain. */
  lemma HeaderValuesPrintable(json: string, settings: AppSettings,
                              mac: (seq<uint8>, seq<uint8>) -> MacOutcome)
    ensures forall i :: 0 <= i < |RequestHeaderList(json, settings, mac)| ==>
      IsPrintable(RequestHeaderList(json, settings, mac)[i].value)
  {
    var hs := RequestHeaderList(json, settings, mac);
    var auth := BuildBasicAuthHeader(settings.authUsername, settings.authPassword);
    var sig := ComputeHmacSignature(json, settings.hmacSecret, mac);
    AuthPrintable(settings.authUsername, settings.authPassword);
    SignaturePrintable(json, settings.hmacSecret, mac);
    ContentTypePrintable();
    forall i | 0 <= i < |hs| ensures IsPrintable(hs[i].value) {
      if i == 0 {
        assert hs[0].value == "application/json";
      } else if i == 1 {
        assert hs[1].value == auth;
      } else {
        assert hs[2].value == sig;
      }
    }
  }

  /** The bytes of `user:pass`, one by one. */
  predicate IsUserPass(bs: seq<uint8>)
  {
    |bs| == 9 && bs[0] == 117 && bs[1] == 115 && bs[2] == 101 && bs[3] == 114 && bs[4] == 58
    && bs[5] == 112 && bs[6] == 97 && bs[7] == 115 && bs[8] == 115
  }

  lemma AuthHeaderFor(username: string, password: string)
    requires IsUserPass(Credentials(username, password))
    ensures BuildBasicAuthHeader(username, password) == "Basic " + "dXNlcjpwYXNz"
  {
    var bs := Credentials(username, password);
    AuthHeaderText(username, password);
    Base64.EncodeBlocks(bs);
    Base64.ExampleBlocks();
  }

  lemma AuthHeaderText(username: string, password: string)
    ensures BuildBasicAuthHeader(username, password) == "Basic " + Base64.Encode(Credentials(username, password))
  {
  }

  /** The documented example: `user` / `pass` gives `Basic dXNlcjpwYXNz`. */
  lemma BasicAuthExample()
    ensures BuildBasicAuthHeader("user", "pass") == "Basic " + "dXNlcjpwYXNz"
  {
    CredentialsExample();
    AuthHeaderFor("user", "pass");
  }

  lemma CredentialsExample()
    ensures IsUserPass(Credentials("user", "pass"))
  {
    var text := "user" + ":" + "pass";
    assert text == "user:pass";
    assert Utf8.IsAscii(text);
    Utf8.AsciiEncoding(text);
  }
}
