/**
 * obs_login: taking the JWT out of the body of `GET /ogrenci/auth/jwt`, and
 * the retry loop around the browser login. The login itself (Playwright
 * driving the single sign-on pages) is foreign: each attempt's outcome is
 * an input.
 */
module ObsLogin {
  import opened Wrappers
  import opened PyText
  import opened PyJson

  /** How many times the browser login is tried. */
  const MaxLoginRetries := 3

  /** The keys of a JSON reply that may hold the token, in the order they are tried. */
  const JwtKeys := ["token", "accessToken", "access_token", "jwt", "data"]

  // ---------------------------------------------------------------------
  // _extract_jwt_from_response
  // ---------------------------------------------------------------------

  /** A character of the class `[A-Za-z0-9_-]`. */
  predicate IsJwtChar(c: char) {
    ('A' <= c <= 'Z') || ('a' <= c <= 'z') || ('0' <= c <= '9') || c == '_' || c == '-'
  }

  /** One dot-separated part of a bare JWT: at least one character of the class. */
  predicate IsSegment(s: string) {
    s != [] && forall i :: 0 <= i < |s| ==> IsJwtChar(s[i])
  }

  /** The whole text has the shape `xxx.yyy.zzz` of the bare-JWT pattern. */
  predicate IsBareJwt(s: string) {
    var parts := Split(s, '.');
    |parts| == 3 && IsSegment(parts[0]) && IsSegment(parts[1]) && IsSegment(parts[2])
  }

  /** Three segments joined by dots match the pattern. */
  lemma BareJwtOfSegments(a: string, b: string, c: string)
    requires IsSegment(a) && IsSegment(b) && IsSegment(c)
    ensures IsBareJwt(a + ['.'] + b + ['.'] + c)
  {
    Join3(a, b, c, '.');
    SplitJoin([a, b, c], '.');
  }

  /** A text matching the pattern is its three segments joined by dots, and nothing around them. */
  lemma BareJwtSegments(s: string)
    requires IsBareJwt(s)
    ensures var parts := Split(s, '.'); s == parts[0] + ['.'] + parts[1] + ['.'] + parts[2]
    ensures Stripped(s)
  {
    var parts := Split(s, '.');
    JoinSplit(s, '.');
    assert parts == [parts[0], parts[1], parts[2]];
    Join3(parts[0], parts[1], parts[2], '.');
    assert s[0] == parts[0][0];
    assert s[|s| - 1] == parts[2][|parts[2]| - 1];
  }

  /** `None` stands for Python's `None`; a JSON `null` decodes to it. */
  function PyValue(v: Json): (r: Option<Json>)
    ensures r.None? <==> v.JNull?
    ensures r.Some? ==> r.value == v
  {
    if v.JNull? then None else Some(v)
  }

  /**
   * What one key of a decoded dict decides: a non-empty string is the token,
   * a dict holding `token` gives that value (which may be `None` or not a
   * string); anything else lets the search go on.
   */
  function KeyHit(fields: seq<Field>, key: string): Option<Option<Json>> {
    match Get(fields, key)
    case Some(JStr(s)) => if s != "" then Some(Some(JStr(s))) else None
    case Some(JObj(inner)) => if Has(inner, "token") then Some(PyValue(Get(inner, "token").value)) else None
    case _ => None
  }

  /** The decision of the first key, from the i-th on, that decides. */
  function FirstHit(fields: seq<Field>, i: nat): Option<Option<Json>>
    requires i <= |JwtKeys|
    decreases |JwtKeys| - i
  {
    if i == |JwtKeys| then None
    else if KeyHit(fields, JwtKeys[i]).Some? then KeyHit(fields, JwtKeys[i])
    else FirstHit(fields, i + 1)
  }

  /** What a decoded body gives: the dict search, or the decoded string itself. */
  function DecodedJwt(data: Json): Option<Json> {
    match data
    case JObj(fields) => if FirstHit(fields, 0).Some? then FirstHit(fields, 0).value else None
    case JStr(_) => Some(data)
    case _ => None
  }

  /**
   * The token in a reply body (`None` standing for a missing body);
   * `decode` is `json.loads`, `None` where it raises.
   */
  function JwtOf(body: Option<string>, decode: string -> Option<Json>): Option<Json> {
    var text := Strip(if body.Some? then body.value else "");
    if text == "" then None
    else if IsBareJwt(text) then Some(JStr(text))
    else if decode(text).None? then None
    else DecodedJwt(decode(text).value)
  }

  /** `_extract_jwt_from_response(body)`. */
  method ExtractJwt(body: Option<string>, decode: string -> Option<Json>) returns (jwt: Option<Json>)
    ensures jwt == JwtOf(body, decode)
  {
    var text := Strip(if body.Some? then body.value else "");
    if text == "" {
      return None;
    }
    if IsBareJwt(text) {
      return Some(JStr(text));
    }
    var data := decode(text);
    if data.None? {
      return None;
    }
    if data.value.JObj? {
      var fields := data.value.fields;
      for i := 0 to |JwtKeys|
        invariant FirstHit(fields, 0) == FirstHit(fields, i)
      {
        var hit := KeyHit(fields, JwtKeys[i]);
        if hit.Some? {
          return hit.value;
        }
      }
    }
    if data.value.JStr? {
      return Some(data.value);
    }
    return None;
  }

  /** An empty or all-blank body gives no token. */
  lemma JwtOfBlank(body: Option<string>, decode: string -> Option<Json>)
    requires body.None? || forall i :: 0 <= i < |body.value| ==> IsSpace(body.value[i])
    ensures JwtOf(body, decode) == None
  {
    if body.Some? {
      StripEmpty(body.value);
    } else {
      StripEmpty("");
    }
  }

  /** A bare JWT, with blanks around it or not, is returned as it is, whatever the decoder would do. */
  lemma JwtOfBare(body: string, decode: string -> Option<Json>)
    requires IsBareJwt(Strip(body))
    ensures JwtOf(Some(body), decode) == Some(JStr(Strip(body)))
  {
    BareJwtSegments(Strip(body));
  }

  /** `xxx.yyy.zzz` itself comes back unchanged. */
  lemma JwtOfSegments(a: string, b: string, c: string, decode: string -> Option<Json>)
    requires IsSegment(a) && IsSegment(b) && IsSegment(c)
    ensures JwtOf(Some(a + ['.'] + b + ['.'] + c), decode) == Some(JStr(a + ['.'] + b + ['.'] + c))
  {
    var s := a + ['.'] + b + ['.'] + c;
    BareJwtOfSegments(a, b, c);
    BareJwtSegments(s);
    StripStripped(s);
  }

  /** An undecodable body that is not a bare JWT gives no token. */
  lemma JwtOfUndecodable(body: string, decode: string -> Option<Json>)
    requires Strip(body) != "" && !IsBareJwt(Strip(body)) && decode(Strip(body)).None?
    ensures JwtOf(Some(body), decode) == None
  {
  }

  /** The keys are tried in order: the first key that decides gives the answer. */
  lemma {:induction false} FirstHitIsFirst(fields: seq<Field>, from: nat, i: nat)
    requires from <= i < |JwtKeys|
    requires KeyHit(fields, JwtKeys[i]).Some?
    requires forall j :: from <= j < i ==> KeyHit(fields, JwtKeys[j]).None?
    ensures FirstHit(fields, from) == KeyHit(fields, JwtKeys[i])
    decreases i - from
  {
    if from < i {
      FirstHitIsFirst(fields, from + 1, i);
    }
  }

  /** When no key decides, the search gives nothing. */
  lemma {:induction false} FirstHitNone(fields: seq<Field>, from: nat)
    requires from <= |JwtKeys|
    requires forall j :: from <= j < |JwtKeys| ==> KeyHit(fields, JwtKeys[j]).None?
    ensures FirstHit(fields, from).None?
    decreases |JwtKeys| - from
  {
    if from < |JwtKeys| {
      FirstHitNone(fields, from + 1);
    }
  }

  /** Whatever the search decides comes from one of the keys, all keys before it deciding nothing. */
  lemma {:induction false} FirstHitSource(fields: seq<Field>, from: nat)
    requires from <= |JwtKeys|
    requires FirstHit(fields, from).Some?
    ensures exists i :: from <= i < |JwtKeys| && FirstHit(fields, from) == KeyHit(fields, JwtKeys[i]) &&
              forall j :: from <= j < i ==> KeyHit(fields, JwtKeys[j]).None?
    decreases |JwtKeys| - from
  {
    if KeyHit(fields, JwtKeys[from]).None? {
      FirstHitSource(fields, from + 1);
    }
  }

  /** A dict whose keys all fail, and a decoded value neither dict nor string, give no token. */
  lemma DecodedJwtNone(data: Json)
    requires data.JObj? ==> forall j :: 0 <= j < |JwtKeys| ==> KeyHit(data.fields, JwtKeys[j]).None?
    requires !data.JStr?
    ensures DecodedJwt(data) == None
  {
    if data.JObj? {
      FirstHitNone(data.fields, 0);
    }
  }

  /** A non-empty `token` string is the token; a decoded string is returned even when empty. */
  lemma DecodedJwtDirect()
    ensures DecodedJwt(JObj([Field("token", JStr("abc"))])) == Some(JStr("abc"))
    ensures DecodedJwt(JStr("")) == Some(JStr(""))
  {
  }

  /** An empty `token` does not stop the search: a later `jwt` key is used. */
  lemma DecodedJwtSkipsEmpty()
    ensures DecodedJwt(JObj([Field("token", JStr("")), Field("jwt", JStr("xyz"))])) == Some(JStr("xyz"))
  {
    var f := [Field("token", JStr("")), Field("jwt", JStr("xyz"))];
    assert "token" != "jwt";
    assert Get(f, "jwt") == Some(JStr("xyz"));
    assert KeyHit(f, JwtKeys[0]).None?;
    assert KeyHit(f, JwtKeys[1]).None?;
    assert KeyHit(f, JwtKeys[2]).None?;
    FirstHitIsFirst(f, 0, 3);
  }

  /** A nested `data.token` is used, a `null` one giving `None`. */
  lemma DecodedJwtNested(v: Json)
    ensures DecodedJwt(JObj([Field("data", JObj([Field("token", v)]))])) == PyValue(v)
  {
    var f := [Field("data", JObj([Field("token", v)]))];
    assert "token" != "data" && "accessToken" != "data" && "access_token" != "data" && "jwt" != "data";
    assert f[1..] == [];
    forall j | 0 <= j < 4 ensures KeyHit(f, JwtKeys[j]).None? {
      assert Get(f, JwtKeys[j]) == Get(f[1..], JwtKeys[j]);
    }
    assert KeyHit(f, JwtKeys[4]) == Some(PyValue(v));
    FirstHitIsFirst(f, 0, 4);
  }

  /** A token that is not a string under a top-level key is passed over. */
  lemma DecodedJwtNonString()
    ensures DecodedJwt(JObj([Field("accessToken", JInt(7))])) == None
  {
    var f := [Field("accessToken", JInt(7))];
    FirstHitNone(f, 0);
  }

  // ---------------------------------------------------------------------
  // get_jwt_with_playwright
  // ---------------------------------------------------------------------

  /** How one login attempt ends: an exception, or the value it returns. */
  datatype Attempt = Raised | Returned(token: Option<Json>)

  /** `get_jwt_with_playwright` either cannot start, or gives a token or `None`. */
  datatype LoginResult = PlaywrightMissing | LoginDone(token: Option<Json>)

  /** The attempt counts: it returned a truthy value. */
  predicate TokenGot(a: Attempt) {
    a.Returned? && a.token.Some? && Truthy(a.token.value)
  }

  /** The token of the first attempt from the k-th to the last allowed that gets one. */
  function FirstLogin(attempt: nat -> Attempt, k: nat): Option<Json>
    requires k >= 1
    decreases MaxLoginRetries + 1 - k
  {
    if k > MaxLoginRetries then None
    else if TokenGot(attempt(k)) then attempt(k).token
    else FirstLogin(attempt, k + 1)
  }

  /**
   * `get_jwt_with_playwright`: `attempt(k)` is how the k-th call of the
   * login ends. `tries` is the number of attempts made.
   */
  method GetJwtWithPlaywright(hasPlaywright: bool, attempt: nat -> Attempt) returns (result: LoginResult, tries: nat)
    ensures !hasPlaywright ==> result == PlaywrightMissing && tries == 0
    ensures hasPlaywright ==> result == LoginDone(FirstLogin(attempt, 1))
    ensures hasPlaywright ==> 1 <= tries <= MaxLoginRetries
    ensures hasPlaywright ==> forall k :: 1 <= k < tries ==> !TokenGot(attempt(k))
    ensures hasPlaywright && tries < MaxLoginRetries ==> TokenGot(attempt(tries))
  {
    if !hasPlaywright {
      return PlaywrightMissing, 0;
    }
    for k := 1 to MaxLoginRetries + 1
      invariant FirstLogin(attempt, 1) == FirstLogin(attempt, k)
      invariant forall j :: 1 <= j < k ==> !TokenGot(attempt(j))
    {
      tries := k;
      var outcome := attempt(k);
      if outcome.Returned? && outcome.token.Some? && Truthy(outcome.token.value) {
        return LoginDone(outcome.token), tries;
      }
    }
    return LoginDone(None), MaxLoginRetries;
  }

  /** A login result always holds a truthy value or nothing. */
  lemma {:induction false} FirstLoginTruthy(attempt: nat -> Attempt, k: nat)
    requires k >= 1
    ensures FirstLogin(attempt, k).Some? ==> Truthy(FirstLogin(attempt, k).value)
    decreases MaxLoginRetries + 1 - k
  {
    if k <= MaxLoginRetries && !TokenGot(attempt(k)) {
      FirstLoginTruthy(attempt, k + 1);
    }
  }

  /** Only the first three attempts matter: two logins that agree on them end alike. */
  lemma {:induction false} FirstLoginIgnoresLater(a: nat -> Attempt, b: nat -> Attempt, k: nat)
    requires k >= 1
    requires forall j :: 1 <= j <= MaxLoginRetries ==> a(j) == b(j)
    ensures FirstLogin(a, k) == FirstLogin(b, k)
    decreases MaxLoginRetries + 1 - k
  {
    if k <= MaxLoginRetries {
      FirstLoginIgnoresLater(a, b, k + 1);
    }
  }

  /** When every attempt raises or returns nothing truthy, the result is `None`. */
  lemma {:induction false} FirstLoginNone(attempt: nat -> Attempt, k: nat)
    requires k >= 1
    requires forall j :: k <= j <= MaxLoginRetries ==> !TokenGot(attempt(j))
    ensures FirstLogin(attempt, k) == None
    decreases MaxLoginRetries + 1 - k
  {
    if k <= MaxLoginRetries {
      FirstLoginNone(attempt, k + 1);
    }
  }
}
