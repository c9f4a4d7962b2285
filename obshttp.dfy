/**
 * The request pieces both enrollment scripts share: the browser-like default
 * headers, the bearer-token header, the enrollment endpoint and its body, and
 * the rule that a 401 reply discards the token.
 */
module ObsHttp {
  import opened Wrappers
  import opened PyJson
  import opened OrderedDict
  import opened OptionSeqs

  const UserAgent := "Mozilla/5.0 (Windows NT 10.0; Win64; x64) AppleWebKit/537.36 (KHTML, like Gecko) Chrome/120.0.0.0 Safari/537.36"

  /** The enrollment endpoint both scripts post to. */
  const DersKayitUrl := "https://obs.itu.edu.tr/api/ders-kayit/v21"

  /** HTTP status of an expired or rejected token. */
  const Unauthorized := 401

  /** The header names the scripts send. */
  datatype HeaderName =
    | UserAgentHeader | Accept | AcceptLanguage | ContentType
    | SecChUa | SecChUaMobile | SecChUaPlatform
    | SecFetchDest | SecFetchMode | SecFetchSite | Priority
    | Authorization

  /** The name as it goes on the wire. */
  function HeaderText(n: HeaderName): string {
    match n
    case UserAgentHeader => "User-Agent"
    case Accept => "Accept"
    case AcceptLanguage => "Accept-Language"
    case ContentType => "Content-Type"
    case SecChUa => "sec-ch-ua"
    case SecChUaMobile => "sec-ch-ua-mobile"
    case SecChUaPlatform => "sec-ch-ua-platform"
    case SecFetchDest => "Sec-Fetch-Dest"
    case SecFetchMode => "Sec-Fetch-Mode"
    case SecFetchSite => "Sec-Fetch-Site"
    case Priority => "Priority"
    case Authorization => "Authorization"
  }

  type Headers = Dict<HeaderName, string>

  /** A JWT as the scripts hold it: Python `None` or a string. */
  type Token = Option<string>

  /** `if token:` — a token counts only when it is a non-empty string. */
  predicate HasToken(t: Token) {
    t.Some? && t.value != ""
  }

  /** The default header names, in insertion order. */
  const DefaultHeaderNames := [
    UserAgentHeader, Accept, AcceptLanguage, ContentType, SecChUa, SecChUaMobile,
    SecChUaPlatform, SecFetchDest, SecFetchMode, SecFetchSite, Priority]

  /** The position of a header name among the default ones; `Authorization` comes after them all. */
  function Rank(n: HeaderName): nat {
    match n
    case UserAgentHeader => 0
    case Accept => 1
    case AcceptLanguage => 2
    case ContentType => 3
    case SecChUa => 4
    case SecChUaMobile => 5
    case SecChUaPlatform => 6
    case SecFetchDest => 7
    case SecFetchMode => 8
    case SecFetchSite => 9
    case Priority => 10
    case Authorization => 11
  }

  /** The value of each default header. */
  function DefaultValue(n: HeaderName): string {
    match n
    case UserAgentHeader => UserAgent
    case Accept => "application/json"
    case AcceptLanguage => "tr-TR,tr;q=0.9,en;q=0.8"
    case ContentType => "application/json"
    case SecChUa => "\"Not_A Brand\";v=\"8\", \"Chromium\";v=\"120\", \"Google Chrome\";v=\"120\""
    case SecChUaMobile => "?0"
    case SecChUaPlatform => "\"Windows\""
    case SecFetchDest => "empty"
    case SecFetchMode => "cors"
    case SecFetchSite => "same-origin"
    case Priority => "u=1, i"
    case Authorization => ""
  }

  /**
   * `_default_headers()` / `default_headers()`: a JSON request from a desktop
   * Chrome; it carries no `Authorization` header.
   */
  function DefaultHeaders(): (h: Headers)
    ensures h.order == DefaultHeaderNames
    ensures forall n :: n in h.entries <==> n in DefaultHeaderNames
    ensures Authorization !in h.entries
    ensures forall n :: n in h.entries ==> h.entries[n] == DefaultValue(n)
  {
    Dict(DefaultHeaderNames, map n | n in DefaultHeaderNames :: DefaultValue(n))
  }

  /** Every default header is listed once, so the default headers are a well-formed dict. */
  lemma DefaultHeadersValid()
    ensures DefaultHeaders().Valid()
  {
    var ns := DefaultHeaderNames;
    assert forall i :: 0 <= i < |ns| ==> Rank(ns[i]) == i;
  }

  /** `build_headers_with_auth(token)`: the default headers, plus `Authorization: Bearer <token>` for a token. */
  function BuildHeadersWithAuth(token: Token): Headers {
    var h := DefaultHeaders();
    if HasToken(token) then h.Put(Authorization, "Bearer " + token.value) else h
  }

  /**
   * The authorization header is present exactly when there is a token and then
   * carries it; every other header is a default one, unchanged.
   */
  lemma AuthHeader(token: Token)
    ensures Authorization in BuildHeadersWithAuth(token).entries <==> HasToken(token)
    ensures HasToken(token) ==> BuildHeadersWithAuth(token).entries[Authorization] == "Bearer " + token.value
    ensures forall n :: n != Authorization ==>
              (n in BuildHeadersWithAuth(token).entries <==> n in DefaultHeaders().entries)
    ensures forall n :: n != Authorization && n in DefaultHeaders().entries ==>
              BuildHeadersWithAuth(token).entries[n] == DefaultHeaders().entries[n]
    ensures BuildHeadersWithAuth(token).Valid()
  {
    DefaultHeadersValid();
    DefaultHeaders().PutValid(Authorization, "Bearer " + (if token.Some? then token.value else ""));
  }

  /** A list of strings as the JSON array `requests` sends. */
  function JsonStrings(xs: seq<string>): (v: Json)
    ensures v.JList? && |v.items| == |xs|
    ensures forall i :: 0 <= i < |xs| ==> v.items[i] == JStr(xs[i])
  {
    MapSeqAt((s: string) => JStr(s), xs);
    JList(MapSeq((s: string) => JStr(s), xs))
  }

  /** The JSON body `{"ECRN": add, "SCRN": drop}`: CRNs to add and CRNs to drop. */
  function EnrollBody(add: seq<string>, drop: seq<string>): (body: Json)
    ensures body.JObj?
    ensures Get(body.fields, "ECRN") == Some(JsonStrings(add))
    ensures Get(body.fields, "SCRN") == Some(JsonStrings(drop))
  {
    JObj([Field("ECRN", JsonStrings(add)), Field("SCRN", JsonStrings(drop))])
  }

  /** A POST to the enrollment endpoint. */
  datatype Request = Request(url: string, headers: Headers, body: Json)

  /** The token a caller keeps after a reply: discarded on 401, otherwise unchanged. */
  function TokenAfter(status: int, token: Token): (t: Token)
    ensures t.None? <==> status == Unauthorized || token.None?
    ensures t.Some? ==> t == token
  {
    if status == Unauthorized then None else token
  }
}
