/**
 * The token and reply rules of itu_obs_ders_kayit.py: reusing or renewing
 * the JWT, the enrollment POST, and the classification of the API's JSON
 * reply into (all ok, added CRNs, failed CRNs, message).
 */
module DersKayitApi {
  import opened Wrappers
  import opened PyText
  import opened PyJson
  import opened OptionSeqs
  import opened Seqs
  import opened ObsHttp

  // ---------------------------------------------------------------------
  // ensure_token / send_ders_kayit
  // ---------------------------------------------------------------------

  /**
   * `ensure_token(session, current)`: a usable current token is returned as
   * it is and no login happens; otherwise the outcome of `do_login` is
   * returned. `login` is that outcome; the flag says whether it was needed.
   */
  function EnsureToken(current: Token, login: Token): (r: (Token, bool))
    ensures r.1 <==> !HasToken(current)
    ensures HasToken(current) ==> r.0 == current
    ensures !HasToken(current) ==> r.0 == login
  {
    if HasToken(current) then (current, false) else (login, true)
  }

  /**
   * `send_ders_kayit(session, crns, token)` for a reply with status `status`:
   * the POST it makes and the token it hands back.
   */
  function SendDersKayit(crns: seq<string>, token: Token, status: int): (r: (Request, Token))
    ensures r.0.url == DersKayitUrl
    ensures r.0.headers == BuildHeadersWithAuth(token)
    ensures r.0.body.JObj?
    ensures Get(r.0.body.fields, "ECRN") == Some(JsonStrings(crns))
    ensures Get(r.0.body.fields, "SCRN") == Some(JsonStrings([]))
    ensures r.1 == if status == Unauthorized then None else token
  {
    (Request(DersKayitUrl, BuildHeadersWithAuth(token), EnrollBody(crns, [])), TokenAfter(status, token))
  }

  /**
   * After a 401 the next `ensure_token` logs in again; after any other
   * status a usable token is kept and no login happens.
   */
  lemma RejectedTokenRenewed(crns: seq<string>, token: Token, status: int, login: Token)
    ensures status == Unauthorized ==> EnsureToken(SendDersKayit(crns, token, status).1, login) == (login, true)
    ensures status != Unauthorized && HasToken(token) ==>
              EnsureToken(SendDersKayit(crns, token, status).1, login) == (token, false)
  {
  }

  /** The request carries `Authorization: Bearer <token>` exactly when there is a token. */
  lemma SendDersKayitAuth(crns: seq<string>, token: Token, status: int)
    ensures Authorization in SendDersKayit(crns, token, status).0.headers.entries <==> HasToken(token)
    ensures HasToken(token) ==>
              SendDersKayit(crns, token, status).0.headers.entries[Authorization] == "Bearer " + token.value
  {
    AuthHeader(token);
  }

  // ---------------------------------------------------------------------
  // parse_response
  // ---------------------------------------------------------------------

  /** What `parse_response` sees of a reply: its status, its text and `response.json()` (None: not JSON). */
  datatype Reply = Reply(status: int, text: string, json: Option<Json>)

  /**
   * `(all ok, added CRNs, failed CRNs, message)`. The message is whatever
   * value the reply's message field holds, so it is a JSON value.
   */
  datatype Verdict = Verdict(ok: bool, added: seq<string>, failed: seq<string>, message: Json)

  const SuccessMessage := "Başarılı"
  const NoFlagMessage := "Başarılı (yanıt ayrıştırılamadı)"
  const NotDictMessage := "Hata: Yanıt sözlük değil"
  const BadJsonPrefix := "Hata: Geçersiz JSON - "
  const PartialFailureMessage := "Bazı dersler alınamadı"
  const UnknownMessage := "Bilinmeyen yanıt"

  /** The fields that may list the added courses, in the order they are tried. */
  const AddedKeys := ["eklenenDersler", "eklenen", "added", "kayitYapilanDersler", "data"]

  /** The success flag: `success`, else `basarili`, else `isSuccess`, else None. */
  function SuccessFlag(fields: seq<Field>): Json {
    GetOr(fields, "success", GetOr(fields, "basarili", GetOr(fields, "isSuccess", JNull)))
  }

  /** The message of a failure: `message`, else `mesaj`, else `error`, else "". */
  function FailureMessage(fields: seq<Field>): Json {
    GetOr(fields, "message", GetOr(fields, "mesaj", GetOr(fields, "error", JStr(""))))
  }

  /** The list of failed CRNs: `errors`, else `hatalar`, else `failedCRNs`, else []. */
  function FailureList(fields: seq<Field>): Json {
    GetOr(fields, "errors", GetOr(fields, "hatalar", GetOr(fields, "failedCRNs", JList([]))))
  }

  /** The CRN an element of a CRN list names: `str(x["crn"])` for a dict with a `crn` key, a string as it is. */
  function ItemCrn(x: Json): Option<string> {
    match x
    case JObj(fs) => if Has(fs, "crn") then Some(PyStr(Get(fs, "crn").value)) else None
    case JStr(s) => Some(s)
    case _ => None
  }

  /** The CRNs a list names, in order; other elements are skipped. */
  function CrnsOf(items: seq<Json>): seq<string> {
    if items == [] then []
    else CrnsOf(items[..|items| - 1]) + (match ItemCrn(items[|items| - 1]) case Some(c) => [c] case None => [])
  }

  /** The CRNs of the list grow by what the next element names. */
  lemma CrnsOfStep(items: seq<Json>, j: nat)
    requires j < |items|
    ensures CrnsOf(items[..j + 1]) == CrnsOf(items[..j]) + match ItemCrn(items[j]) case Some(c) => [c] case None => []
  {
    TakeSnoc(items, j);
    assert items[..j + 1][..j] == items[..j];
  }

  /** The values of the candidate fields, in the order they are tried (None when absent). */
  function Candidates(fields: seq<Field>): (vals: seq<Json>)
    ensures |vals| == |AddedKeys|
  {
    seq(|AddedKeys|, i requires 0 <= i < |AddedKeys| => GetOr(fields, AddedKeys[i], JNull))
  }

  /** The one CRN a candidate value that is not a list adds: `str(v["crn"])` for a dict with a `crn` key. */
  function OwnCrn(v: Json): seq<string> {
    if v.JObj? && Has(v.fields, "crn") then [PyStr(Get(v.fields, "crn").value)] else []
  }

  /**
   * The added CRNs from the k-th candidate value on: the first value that is
   * a list contributes that list's CRNs and ends the search; a dict with a
   * `crn` contributes that one CRN and the search goes on.
   */
  function AddedFrom(vals: seq<Json>, k: nat): seq<string>
    decreases |vals| - k
  {
    if k >= |vals| then []
    else if vals[k].JList? then CrnsOf(vals[k].items)
    else OwnCrn(vals[k]) + AddedFrom(vals, k + 1)
  }

  /** The CRNs found so far followed by those still to find are the whole result, one value further on. */
  lemma AddedAccumulate(vals: seq<Json>, k: nat, added: seq<string>)
    requires k < |vals| && !vals[k].JList?
    requires added + AddedFrom(vals, k) == AddedFrom(vals, 0)
    ensures (added + OwnCrn(vals[k])) + AddedFrom(vals, k + 1) == AddedFrom(vals, 0)
  {
    assert added + (OwnCrn(vals[k]) + AddedFrom(vals, k + 1)) == (added + OwnCrn(vals[k])) + AddedFrom(vals, k + 1);
  }

  /** What `parse_response` returns for a reply. */
  function ReplyVerdict(reply: Reply): Verdict {
    match reply.json
    case None => Verdict(false, [], [], JStr(BadJsonPrefix + Take(reply.text, 200)))
    case Some(data) =>
      if !data.JObj? then Verdict(false, [], [], JStr(NotDictMessage))
      else
        var flag := SuccessFlag(data.fields);
        if flag == JBool(true) then Verdict(true, AddedFrom(Candidates(data.fields), 0), [], JStr(SuccessMessage))
        else if flag == JBool(false) then
          var msg := FailureMessage(data.fields);
          var errs := FailureList(data.fields);
          Verdict(false, [], if errs.JList? then CrnsOf(errs.items) else [],
                  if Truthy(msg) then msg else JStr(PartialFailureMessage))
        else if reply.status == 200 then Verdict(true, [], [], JStr(NoFlagMessage))
        else
          var head := Take(reply.text, 150);
          Verdict(false, [], [], JStr(if head != "" then head else UnknownMessage))
  }

  /** `for x in items: ...append(...)`: appends the CRNs the list names. */
  method AppendCrns(acc: seq<string>, items: seq<Json>) returns (r: seq<string>)
    ensures r == acc + CrnsOf(items)
  {
    r := acc;
    for j := 0 to |items|
      invariant r == acc + CrnsOf(items[..j])
    {
      CrnsOfStep(items, j);
      var x := items[j];
      if x.JObj? && Has(x.fields, "crn") {
        r := r + [PyStr(Get(x.fields, "crn").value)];
      } else if x.JStr? {
        r := r + [x.s];
      }
    }
    TakeAll(items);
  }

  /**
   * The search over the candidate fields: the CRNs found are those of the
   * specification, whatever the field contents.
   */
  method CollectAdded(fields: seq<Field>) returns (added: seq<string>)
    ensures added == AddedFrom(Candidates(fields), 0)
  {
    ghost var vals := Candidates(fields);
    added := [];
    var k := 0;
    while k < |AddedKeys|
      invariant k <= |AddedKeys|
      invariant added + AddedFrom(vals, k) == AddedFrom(vals, 0)
      decreases |AddedKeys| - k
    {
      var v := GetOr(fields, AddedKeys[k], JNull);
      assert v == vals[k];
      if v.JList? {
        added := AppendCrns(added, v.items);
        return;
      }
      AddedAccumulate(vals, k, added);
      if v.JObj? && Has(v.fields, "crn") {
        added := added + [PyStr(Get(v.fields, "crn").value)];
      } else {
        AppendEmpty(added);
      }
      k := k + 1;
    }
    AppendEmpty(added);
  }


  /** `parse_response(response)`. */
  method ParseResponse(reply: Reply) returns (v: Verdict)
    ensures v == ReplyVerdict(reply)
  {
    if reply.json.None? {
      return Verdict(false, [], [], JStr(BadJsonPrefix + Take(reply.text, 200)));
    }
    var data := reply.json.value;
    if !data.JObj? {
      return Verdict(false, [], [], JStr(NotDictMessage));
    }
    var success := SuccessFlag(data.fields);
    if success == JBool(true) {
      var added := CollectAdded(data.fields);
      return Verdict(true, added, [], JStr(SuccessMessage));
    }
    if success == JBool(false) {
      var msg := FailureMessage(data.fields);
      var errs := FailureList(data.fields);
      var failed := [];
      if errs.JList? {
        failed := AppendCrns([], errs.items);
        assert [] + CrnsOf(errs.items) == CrnsOf(errs.items);
      }
      return Verdict(false, [], failed, if Truthy(msg) then msg else JStr(PartialFailureMessage));
    }
    if reply.status == 200 {
      return Verdict(true, [], [], JStr(NoFlagMessage));
    }
    var head := Take(reply.text, 150);
    v := Verdict(false, [], [], JStr(if head != "" then head else UnknownMessage));
  }

  // ---------------------------------------------------------------------
  // Properties of the reply classification
  // ---------------------------------------------------------------------

  /**
   * The flag falls back on key presence, not truthiness: a `success` key
   * holding None is taken as it is.
   */
  lemma SuccessFlagFallback(fields: seq<Field>)
    ensures Has(fields, "success") ==> SuccessFlag(fields) == Get(fields, "success").value
    ensures !Has(fields, "success") && Has(fields, "basarili") ==> SuccessFlag(fields) == Get(fields, "basarili").value
    ensures !Has(fields, "success") && !Has(fields, "basarili") && Has(fields, "isSuccess") ==>
              SuccessFlag(fields) == Get(fields, "isSuccess").value
    ensures !Has(fields, "success") && !Has(fields, "basarili") && !Has(fields, "isSuccess") ==> SuccessFlag(fields) == JNull
  {
  }

  /** The failure message falls back on key presence: `message`, then `mesaj`, then `error`, then "". */
  lemma FailureMessageFallback(fields: seq<Field>)
    ensures Has(fields, "message") ==> FailureMessage(fields) == Get(fields, "message").value
    ensures !Has(fields, "message") && Has(fields, "mesaj") ==> FailureMessage(fields) == Get(fields, "mesaj").value
    ensures !Has(fields, "message") && !Has(fields, "mesaj") && Has(fields, "error") ==>
              FailureMessage(fields) == Get(fields, "error").value
    ensures !Has(fields, "message") && !Has(fields, "mesaj") && !Has(fields, "error") ==> FailureMessage(fields) == JStr("")
  {
  }

  /** The failure list falls back on key presence: `errors`, then `hatalar`, then `failedCRNs`, then []. */
  lemma FailureListFallback(fields: seq<Field>)
    ensures Has(fields, "errors") ==> FailureList(fields) == Get(fields, "errors").value
    ensures !Has(fields, "errors") && Has(fields, "hatalar") ==> FailureList(fields) == Get(fields, "hatalar").value
    ensures !Has(fields, "errors") && !Has(fields, "hatalar") && Has(fields, "failedCRNs") ==>
              FailureList(fields) == Get(fields, "failedCRNs").value
    ensures !Has(fields, "errors") && !Has(fields, "hatalar") && !Has(fields, "failedCRNs") ==> FailureList(fields) == JList([])
  {
  }

  /**
   * All ok exactly for a dict reply whose flag is `True`, or that has no
   * boolean flag and came with status 200.
   */
  lemma VerdictOk(reply: Reply)
    ensures ReplyVerdict(reply).ok <==>
              reply.json.Some? && reply.json.value.JObj? &&
              var flag := SuccessFlag(reply.json.value.fields);
              flag == JBool(true) || (!flag.JBool? && reply.status == 200)
  {
  }

  /** CRNs are reported added only under a `True` flag, and failed only under a `False` flag. */
  lemma VerdictListsNeedFlag(reply: Reply)
    ensures ReplyVerdict(reply).added != [] ==>
              reply.json.Some? && reply.json.value.JObj? && SuccessFlag(reply.json.value.fields) == JBool(true)
    ensures ReplyVerdict(reply).failed != [] ==>
              reply.json.Some? && reply.json.value.JObj? && SuccessFlag(reply.json.value.fields) == JBool(false)
    ensures ReplyVerdict(reply).ok ==> ReplyVerdict(reply).failed == []
  {
  }

  /** Every outcome carries a message that is not empty, falling back on a fixed text. */
  lemma VerdictMessage(reply: Reply)
    ensures Truthy(ReplyVerdict(reply).message)
  {
  }

  /** The search over the candidate values ends at the first list when nothing before it adds a CRN. */
  lemma {:induction false} AddedFromFirstList(vals: seq<Json>, j: nat, k: nat)
    requires j <= k < |vals| && vals[k].JList?
    requires forall i :: j <= i < k ==> !vals[i].JList? && !(vals[i].JObj? && Has(vals[i].fields, "crn"))
    ensures AddedFrom(vals, j) == CrnsOf(vals[k].items)
    decreases k - j
  {
    if j < k {
      AddedFromFirstList(vals, j + 1, k);
      assert AddedFrom(vals, j) == [] + AddedFrom(vals, j + 1);
      EmptyAppend(AddedFrom(vals, j + 1));
    }
  }

  /** A list of strings names exactly those strings: the format of the request body reads back. */
  lemma {:induction false} CrnsOfStrings(xs: seq<string>)
    ensures CrnsOf(JsonStrings(xs).items) == xs
  {
    if xs != [] {
      var n := |xs| - 1;
      var items := JsonStrings(xs).items;
      assert items[..n] == JsonStrings(xs[..n]).items;
      CrnsOfStrings(xs[..n]);
      FrontLast(xs);
    }
  }
}
