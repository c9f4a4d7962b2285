/**
 * itu_obs_enroll.py, the minimal timed enrollment script: it reads the
 * credentials, the target time and the CRN lists, obtains a JWT, waits for
 * the target time, sends one enrollment request and then one more each time
 * the user types `1`.
 *
 * Its `parse_target_time` is line for line `_parse_target_time` of
 * itu_obs_ders_kayit.py, so the target time is DersKayitConfig.ParseTargetTime
 * here too, and `default_headers` and DERS_KAYIT_URL are those of ObsHttp.
 */
module Enroll {
  import opened Wrappers
  import opened PyText
  import opened PyJson
  import opened OptionSeqs
  import opened Seqs
  import opened ObsHttp
  import opened DersKayitWait

  /** TARGET_TIME's initial value. */
  const DefaultTargetTime := "14:00:00.500"

  /** Below 0.01 s this script's wait spins without sleeping. */
  const EnrollSpinThreshold := 10000

  // ---------------------------------------------------------------------
  // prompt_time, prompt_crns
  // ---------------------------------------------------------------------

  /** `prompt_time(default)` for the typed line `line`: the trimmed line, or the default when it is blank. */
  function PromptTime(line: string, default: string): string {
    var s := Strip(line);
    if s == "" then default else s
  }

  /**
   * An all-blank line takes the default; any other line gives its text
   * without the surrounding whitespace, non-empty and trimmed.
   */
  lemma PromptTimeAnswer(line: string, default: string)
    ensures (forall i :: 0 <= i < |line| ==> IsSpace(line[i])) <==> PromptTime(line, default) == default && Strip(line) == ""
    ensures var t := PromptTime(line, default); var k := |line| - |LStrip(line)|;
            Strip(line) != "" ==> t != "" && Stripped(t) && k + |t| <= |line| && t == line[k..k + |t|]
  {
    StripEmpty(line);
    StripSlice(line);
  }

  /** One comma-separated piece: its trimmed text, unless that is empty. */
  function CrnPiece(p: string): Option<string> {
    if Strip(p) == "" then None else Some(Strip(p))
  }

  /** `prompt_crns(label)` for the typed line `line`: the non-blank trimmed pieces between commas, in order. */
  function PromptCrns(line: string): seq<string> {
    var raw := Strip(line);
    if raw == "" then [] else Somes(MapSeq(CrnPiece, Split(raw, ',')))
  }

  /** Every CRN read is non-empty, trimmed and free of commas. */
  lemma PromptCrnsShape(line: string)
    ensures forall i :: 0 <= i < |PromptCrns(line)| ==>
              PromptCrns(line)[i] != "" && Stripped(PromptCrns(line)[i]) && ',' !in PromptCrns(line)[i]
  {
    var raw := Strip(line);
    if raw != "" {
      var parts := Split(raw, ',');
      var xs := MapSeq(CrnPiece, parts);
      SplitPieces(raw, ',');
      MapSeqAt(CrnPiece, parts);
      forall i | 0 <= i < |PromptCrns(line)|
        ensures PromptCrns(line)[i] != "" && Stripped(PromptCrns(line)[i]) && ',' !in PromptCrns(line)[i]
      {
        var c := PromptCrns(line)[i];
        InSomes(xs, c);
        var j :| 0 <= j < |xs| && xs[j] == Some(c);
        StripSubset(parts[j]);
      }
    }
  }

  /** Trimmed non-empty CRNs are read back as they are. */
  lemma {:induction false} CrnPiecesOfPlain(crns: seq<string>)
    requires forall i :: 0 <= i < |crns| ==> crns[i] != "" && Stripped(crns[i])
    ensures Somes(MapSeq(CrnPiece, crns)) == crns
  {
    if crns != [] {
      var init := crns[..|crns| - 1];
      var last := crns[|crns| - 1];
      CrnPiecesOfPlain(init);
      StripStripped(last);
      FrontLast(crns);
      MapSeqSnoc(CrnPiece, init, last);
      SomesSnoc(MapSeq(CrnPiece, init), CrnPiece(last));
    }
  }

  /**
   * Round trip: non-empty, trimmed, comma-free CRNs typed as one
   * comma-separated line are read back as the same list in the same order.
   */
  lemma PromptCrnsRoundTrip(crns: seq<string>)
    requires |crns| >= 1
    requires forall i :: 0 <= i < |crns| ==> crns[i] != "" && Stripped(crns[i]) && ',' !in crns[i]
    ensures PromptCrns(Join(crns, ',')) == crns
  {
    var line := Join(crns, ',');
    JoinFirst(crns, ',');
    JoinLast(crns, ',');
    StripStripped(line);
    SplitJoin(crns, ',');
    CrnPiecesOfPlain(crns);
  }

  /** A blank line gives no CRNs. */
  lemma PromptCrnsBlank(line: string)
    requires forall i :: 0 <= i < |line| ==> IsSpace(line[i])
    ensures PromptCrns(line) == []
  {
    StripEmpty(line);
  }

  // ---------------------------------------------------------------------
  // send_request
  // ---------------------------------------------------------------------

  /**
   * `send_request(session, token)` with the CRN lists `add` and `drop`, for a
   * reply with status `status`: the POST it makes and the token it keeps.
   */
  function SendRequest(add: seq<string>, drop: seq<string>, token: Token, status: int): (Request, Token) {
    (Request(DersKayitUrl, BuildHeadersWithAuth(token), EnrollBody(add, drop)), TokenAfter(status, token))
  }

  /**
   * The request goes to the enrollment endpoint with the default headers,
   * the bearer header exactly when there is a token, and both CRN lists in
   * its body; a 401 reply drops the token and any other reply keeps it.
   */
  lemma SendRequestContents(add: seq<string>, drop: seq<string>, token: Token, status: int)
    ensures SendRequest(add, drop, token, status).0.url == DersKayitUrl
    ensures SendRequest(add, drop, token, status).0.headers == BuildHeadersWithAuth(token)
    ensures Authorization in SendRequest(add, drop, token, status).0.headers.entries <==> HasToken(token)
    ensures SendRequest(add, drop, token, status).0.body.JObj?
    ensures Get(SendRequest(add, drop, token, status).0.body.fields, "ECRN") == Some(JsonStrings(add))
    ensures Get(SendRequest(add, drop, token, status).0.body.fields, "SCRN") == Some(JsonStrings(drop))
    ensures SendRequest(add, drop, token, status).1 == if status == Unauthorized then None else token
  {
    AuthHeader(token);
  }

  /** The token the k-th request is sent with, `reply(i)` being the status of the i-th reply. */
  function TokenBefore(token: Token, reply: nat -> int, k: nat): Token {
    if k == 0 then token else TokenAfter(reply(k - 1), TokenBefore(token, reply, k - 1))
  }

  /** The tokens the first `count` requests are sent with. */
  function TokensSent(token: Token, reply: nat -> int, count: nat): (ts: seq<Token>)
    ensures |ts| == count
  {
    if count == 0 then [] else TokensSent(token, reply, count - 1) + [TokenBefore(token, reply, count - 1)]
  }

  /** The k-th request is sent with the token held after the k replies before it. */
  lemma {:induction false} TokensSentAt(token: Token, reply: nat -> int, count: nat)
    ensures forall k :: 0 <= k < count ==> TokensSent(token, reply, count)[k] == TokenBefore(token, reply, k)
  {
    if count > 0 {
      TokensSentAt(token, reply, count - 1);
    }
  }

  /** Each request is the one `send_request` makes with the token beside it and the reply's status. */
  predicate SentWith(requests: seq<Request>, tokens: seq<Token>, add: seq<string>, drop: seq<string>, reply: nat -> int) {
    && |requests| == |tokens|
    && (requests != [] ==>
          var n := |requests| - 1;
          && SentWith(requests[..n], tokens[..n], add, drop, reply)
          && requests[n] == SendRequest(add, drop, tokens[n], reply(n)).0)
  }

  /** The k-th request is the one sent with the k-th token after the k-th reply's predecessors. */
  lemma {:induction false} SentWithAt(requests: seq<Request>, tokens: seq<Token>, add: seq<string>, drop: seq<string>, reply: nat -> int)
    requires SentWith(requests, tokens, add, drop, reply)
    ensures |requests| == |tokens|
    ensures forall k :: 0 <= k < |requests| ==> requests[k] == SendRequest(add, drop, tokens[k], reply(k)).0
  {
    if requests != [] {
      var n := |requests| - 1;
      SentWithAt(requests[..n], tokens[..n], add, drop, reply);
    }
  }

  /**
   * The script never renews its token: once a reply is 401, every later
   * request goes out without an `Authorization` header.
   */
  lemma {:induction false} NoAuthAfterRejection(token: Token, reply: nat -> int, k: nat, j: nat)
    requires k < j && reply(k) == Unauthorized
    ensures TokenBefore(token, reply, j) == None
    ensures Authorization !in BuildHeadersWithAuth(TokenBefore(token, reply, j)).entries
    decreases j
  {
    if j > k + 1 {
      NoAuthAfterRejection(token, reply, k, j - 1);
    }
    AuthHeader(TokenBefore(token, reply, j));
  }

  /** Until a reply is 401, every request carries the token the script started with. */
  lemma {:induction false} TokenKeptUntilRejection(token: Token, reply: nat -> int, j: nat)
    requires forall k :: 0 <= k < j ==> reply(k) != Unauthorized
    ensures TokenBefore(token, reply, j) == token
  {
    if j > 0 {
      TokenKeptUntilRejection(token, reply, j - 1);
    }
  }

  // ---------------------------------------------------------------------
  // wait_until
  // ---------------------------------------------------------------------

  /** The passes of this script's wait loop for the readings before the target. */
  function EnrollSteps(readings: seq<int>, target: int): (steps: seq<Step>)
    ensures |steps| == |readings|
    ensures forall i :: 0 <= i < |readings| ==> steps[i] == PrecisionStep(target - readings[i], EnrollSpinThreshold)
  {
    if readings == [] then []
    else
      var n := |readings| - 1;
      EnrollSteps(readings[..n], target) + [PrecisionStep(target - readings[n], EnrollSpinThreshold)]
  }

  /** Sleeps never carry the wait past the target, and it spins only in the last hundredth of a second. */
  lemma EnrollStepsNeverOversleep(readings: seq<int>, target: int)
    requires forall i :: 0 <= i < |readings| ==> readings[i] < target
    ensures forall i :: 0 <= i < |readings| ==> match EnrollSteps(readings, target)[i]
              case Refresh(_) => false
              case Sleep(d) => 0 < d <= target - readings[i]
              case Spin => target - readings[i] <= EnrollSpinThreshold
  {
  }

  datatype WaitResult =
    | BadTime             // ValueError from the parse or from datetime.replace
    | PastTarget          // SystemExit(1): the target is not after the first reading
    | TargetReached(at: nat)
    | ClockEnded          // every reading of the trace was before the target

  /**
   * `wait_until(target)`: `clock[0]` is the reading the target is checked
   * against, and `clock[1..]` the readings of successive passes.
   */
  method WaitUntil(targetText: string, clock: seq<int>) returns (result: WaitResult, steps: seq<Step>)
    ensures TargetInstant(targetText).None? ==> result == BadTime && steps == []
    ensures TargetInstant(targetText).Some? && |clock| == 0 ==> result == ClockEnded && steps == []
    ensures TargetInstant(targetText).Some? && |clock| > 0 && TargetInstant(targetText).value <= clock[0] ==>
              result == PastTarget && steps == []
    ensures TargetInstant(targetText).Some? && |clock| > 0 && TargetInstant(targetText).value > clock[0] ==>
              var target := TargetInstant(targetText).value;
              var n := FirstReached(clock, target, 1);
              && result == (if n < |clock| then TargetReached(n) else ClockEnded)
              && steps == EnrollSteps(clock[1..n], target)
  {
    var targetToday := TargetInstant(targetText);
    if targetToday.None? {
      return BadTime, [];
    }
    if |clock| == 0 {
      return ClockEnded, [];
    }
    var target := targetToday.value;
    if target <= clock[0] {
      return PastTarget, [];
    }
    var n;
    n, steps := EnrollWaitLoop(target, clock);
    result := if n < |clock| then TargetReached(n) else ClockEnded;
  }

  /** The `while True` loop of `wait_until`, from the reading after the check. */
  method EnrollWaitLoop(target: int, clock: seq<int>) returns (n: nat, steps: seq<Step>)
    requires |clock| >= 1
    ensures n == FirstReached(clock, target, 1)
    ensures steps == EnrollSteps(clock[1..n], target)
  {
    steps := [];
    var i := 1;
    while i < |clock| && clock[i] < target
      invariant 1 <= i <= |clock|
      invariant FirstReached(clock, target, 1) == FirstReached(clock, target, i)
      invariant steps == EnrollSteps(clock[1..i], target)
      decreases |clock| - i
    {
      var delta := target - clock[i];
      var step;
      if delta > CoarseThreshold {
        step := Sleep(Min(CoarseSleep, delta / 2));
      } else if delta > EnrollSpinThreshold {
        step := Sleep(delta);
      } else {
        step := Spin;
      }
      assert step == PrecisionStep(delta, EnrollSpinThreshold);
      EnrollStepsTake(clock, target, i);
      steps := steps + [step];
      i := i + 1;
    }
    n := i;
  }

  /** The passes for one more reading add that reading's step. */
  lemma EnrollStepsTake(clock: seq<int>, target: int, i: nat)
    requires 1 <= i < |clock|
    ensures EnrollSteps(clock[1..i + 1], target) ==
              EnrollSteps(clock[1..i], target) + [PrecisionStep(target - clock[i], EnrollSpinThreshold)]
  {
    assert clock[1..i + 1][..i - 1] == clock[1..i];
  }

  // ---------------------------------------------------------------------
  // main
  // ---------------------------------------------------------------------

  /** The answer asks for one more request: it is `1` once trimmed. */
  predicate IsOne(answer: string) {
    Strip(answer) == "1"
  }

  /** How many answers in a row, from `from` on, are `1` once trimmed. */
  function LeadingOnes(choices: seq<string>, from: nat): (n: nat)
    requires from <= |choices|
    ensures from + n <= |choices|
    ensures forall i :: from <= i < from + n ==> IsOne(choices[i])
    ensures from + n < |choices| ==> !IsOne(choices[from + n])
    decreases |choices| - from
  {
    if from == |choices| || !IsOne(choices[from]) then 0 else 1 + LeadingOnes(choices, from + 1)
  }

  /** How `main` ends. */
  datatype RunOutcome =
    | NoLoginModule       // obs_login could not be imported
    | EmptyCredentials
    | NoCrns              // both CRN lists empty
    | NoJwt               // get_jwt returned no token
    | WaitFailed(why: WaitResult)
    | Sent(requests: seq<Request>)

  /** The trimmed username and the password are both non-empty. */
  predicate CredentialsGiven(username: string, password: string) {
    Strip(username) != "" && password != ""
  }

  /** The checks `main` makes before it waits pass. */
  predicate Admitted(hasLogin: bool, username: string, password: string, add: seq<string>, drop: seq<string>, jwt: Token) {
    hasLogin && CredentialsGiven(username, password) && (add != [] || drop != []) && HasToken(jwt)
  }

  /**
   * `main()`: the lines typed at the prompts, whether obs_login is
   * available, what `get_jwt` returns, the clock readings of the wait, the
   * status `reply(k)` of the k-th reply, and the answers typed after the
   * requests (the end of `choices` is end of input). It stops at the first
   * failed check; otherwise it sends one request and one more for each `1`
   * typed in a row.
   */
  method EnrollMain(hasLogin: bool, username: string, password: string, timeLine: string, addLine: string,
                    dropLine: string, jwt: Token, clock: seq<int>, reply: nat -> int, choices: seq<string>)
    returns (outcome: RunOutcome)
    ensures !hasLogin ==> outcome == NoLoginModule
    ensures hasLogin && !CredentialsGiven(username, password) ==> outcome == EmptyCredentials
    ensures hasLogin && CredentialsGiven(username, password) && PromptCrns(addLine) == [] && PromptCrns(dropLine) == [] ==>
              outcome == NoCrns
    ensures hasLogin && CredentialsGiven(username, password) && (PromptCrns(addLine) != [] || PromptCrns(dropLine) != []) && !HasToken(jwt) ==>
              outcome == NoJwt
    ensures Admitted(hasLogin, username, password, PromptCrns(addLine), PromptCrns(dropLine), jwt) ==>
              if WaitReached(PromptTime(timeLine, DefaultTargetTime), clock)
              then outcome.Sent? &&
                   SentWith(outcome.requests, TokensSent(jwt, reply, 1 + LeadingOnes(choices, 0)), PromptCrns(addLine), PromptCrns(dropLine), reply)
              else outcome.WaitFailed? && !outcome.why.TargetReached?
  {
    if !hasLogin {
      return NoLoginModule;
    }
    var user := Strip(username);
    if user == "" || password == "" {
      return EmptyCredentials;
    }
    var targetTime := PromptTime(timeLine, DefaultTargetTime);
    var add := PromptCrns(addLine);
    var drop := PromptCrns(dropLine);
    if add == [] && drop == [] {
      return NoCrns;
    }
    if !HasToken(jwt) {
      return NoJwt;
    }
    var waited, _ := WaitUntil(targetTime, clock);
    if !waited.TargetReached? {
      return WaitFailed(waited);
    }
    var requests := SendAndRepeat(add, drop, jwt, reply, choices);
    outcome := Sent(requests);
  }

  /** Whether `wait_until` returns, so that the first request goes out. */
  predicate WaitReached(targetText: string, clock: seq<int>) {
    && TargetInstant(targetText).Some?
    && |clock| > 0
    && TargetInstant(targetText).value > clock[0]
    && FirstReached(clock, TargetInstant(targetText).value, 1) < |clock|
  }

  /** The first request, then the `while True` loop of `main` that sends one more for each `1`. */
  method SendAndRepeat(add: seq<string>, drop: seq<string>, jwt: Token, reply: nat -> int, choices: seq<string>)
    returns (requests: seq<Request>)
    ensures SentWith(requests, TokensSent(jwt, reply, 1 + LeadingOnes(choices, 0)), add, drop, reply)
  {
    var sent := SendRequest(add, drop, jwt, reply(0));
    SentWithStep([], [], add, drop, reply, jwt);
    requests := RepeatWhileOne(add, drop, jwt, reply, choices, [] + [sent.0], sent.1);
  }

  /** The `while True` loop of `main` after the first request, holding `token`. */
  method RepeatWhileOne(add: seq<string>, drop: seq<string>, jwt: Token, reply: nat -> int, choices: seq<string>,
                        first: seq<Request>, token: Token)
    returns (requests: seq<Request>)
    requires SentWith(first, [jwt], add, drop, reply) && token == TokenBefore(jwt, reply, 1)
    ensures SentWith(requests, TokensSent(jwt, reply, 1 + LeadingOnes(choices, 0)), add, drop, reply)
  {
    requests := first;
    var held := token;
    ghost var tokens := [jwt];
    var k := 0;
    while k < |choices| && IsOne(choices[k])
      invariant RepeatedSoFar(choices, k, tokens, held, jwt, reply)
      invariant SentWith(requests, tokens, add, drop, reply)
      decreases |choices| - k
    {
      var sent := SendRequest(add, drop, held, reply(k + 1));
      SentWithStep(requests, tokens, add, drop, reply, held);
      RepeatedStep(choices, k, tokens, held, jwt, reply);
      requests := requests + [sent.0];
      tokens := tokens + [held];
      held := sent.1;
      k := k + 1;
    }
    LeadingOnesUnique(choices, 0, k);
  }

  /** After `k` answers `1`: the tokens of the first request and one per answer, and the token the next one goes out with. */
  ghost predicate RepeatedSoFar(choices: seq<string>, k: nat, tokens: seq<Token>, token: Token, jwt: Token, reply: nat -> int) {
    && k <= |choices|
    && (forall i :: 0 <= i < k ==> IsOne(choices[i]))
    && tokens == TokensSent(jwt, reply, k + 1)
    && token == TokenBefore(jwt, reply, k + 1)
  }

  /** One more request, sent with `token`, keeps each request beside its token. */
  lemma SentWithStep(requests: seq<Request>, tokens: seq<Token>, add: seq<string>, drop: seq<string>, reply: nat -> int, token: Token)
    requires SentWith(requests, tokens, add, drop, reply)
    ensures SentWith(requests + [SendRequest(add, drop, token, reply(|tokens|)).0], tokens + [token], add, drop, reply)
  {
    SnocFront(requests, SendRequest(add, drop, token, reply(|tokens|)).0);
    SnocFront(tokens, token);
  }

  /** One more answer `1` sends with the token held and keeps what the reply leaves. */
  lemma RepeatedStep(choices: seq<string>, k: nat, tokens: seq<Token>, token: Token, jwt: Token, reply: nat -> int)
    requires RepeatedSoFar(choices, k, tokens, token, jwt, reply)
    requires k < |choices| && IsOne(choices[k])
    ensures RepeatedSoFar(choices, k + 1, tokens + [token], TokenAfter(reply(k + 1), token), jwt, reply)
  {
  }

  /** Only one count of answers can be the run of leading `1`s. */
  lemma {:induction false} LeadingOnesUnique(choices: seq<string>, from: nat, k: nat)
    requires from <= k <= |choices|
    requires forall i :: from <= i < k ==> IsOne(choices[i])
    requires k == |choices| || !IsOne(choices[k])
    ensures LeadingOnes(choices, from) == k - from
    decreases k - from
  {
    if from < k {
      LeadingOnesUnique(choices, from + 1, k);
    }
  }
}
