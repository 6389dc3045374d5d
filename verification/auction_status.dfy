/**
 * The /status command (server/server.js): the guard on the chat's session, fetchAuctionStatus
 * through axiosRetry, and the numbers formatAuctionStatus puts in its report. The Markdown text
 * and its toLocaleString formatting are left out; a report is the limit and bid step it shows.
 */
module AuctionStatus {
  import opened Wrappers
  import opened Text
  import opened Js
  import opened Retry
  import opened Sessions
  import opened Bidding

  /** The status endpoint for an auction id. */
  function StatusUrl(auctionId: string): string {
    "https://api.lelang.go.id/api/v1/pelaksanaan/" + auctionId + "/status-lelang?dcp=true"
  }

  /** A session string passes `if (cookies)` exactly when it is set and non-empty. */
  predicate Given(v: Option<string>) {
    v.Some? && v.value != ""
  }

  /** The headers of the status request: Origin and Referer, Cookie for truthy cookies and
      Authorization for a truthy token; unlike the bid requests, no Content-Type. */
  function StatusHeaders(cookies: Option<string>, bearerToken: Option<string>): (h: map<string, string>)
    ensures "Origin" in h && h["Origin"] == "https://lelang.go.id"
    ensures "Referer" in h && h["Referer"] == "https://lelang.go.id/"
    ensures "Content-Type" !in h
    ensures "Cookie" in h <==> Given(cookies)
    ensures "Cookie" in h ==> h["Cookie"] == cookies.value
    ensures "Authorization" in h <==> Given(bearerToken)
    ensures "Authorization" in h ==> h["Authorization"] == "Bearer " + bearerToken.value
    ensures h.Keys <= {"Origin", "Referer", "Cookie", "Authorization"}
  {
    var fixed := map["Origin" := "https://lelang.go.id", "Referer" := "https://lelang.go.id/"];
    var withCookie := if Given(cookies) then fixed["Cookie" := cookies.value] else fixed;
    if Given(bearerToken) then withCookie["Authorization" := "Bearer " + bearerToken.value] else withCookie
  }

  /** The GET the /status command sends for a session. */
  function StatusRequest(session: Session): Request
    requires session.auctionId.Some?
  {
    Request(StatusUrl(session.auctionId.value), StatusHeaders(session.cookies, session.bearerToken), JNull)
  }

  /** { success: true, data: response.data } or { success: false, error: error.message }. */
  datatype FetchResult = Fetched(data: JsValue) | FetchFailed(error: string)

  /** fetchAuctionStatus: one retried GET; its body on success, the last error otherwise. */
  function FetchAuctionStatus(outcomes: nat -> Attempt<Response, string>): (f: FetchResult)
    ensures f.Fetched? <==> exists i: nat :: i < DefaultRetries && outcomes(i).Ok?
    ensures f.Fetched? ==> exists i: nat :: i < DefaultRetries && outcomes(i).Ok? && outcomes(i).response.data == f.data
                                             && FailedBefore(outcomes, i)
    ensures f.FetchFailed? ==> outcomes(DefaultRetries - 1) == Failed(f.error)
  {
    RetryFromSpec(outcomes, 0, DefaultRetries);
    var o := RetryOutcome(outcomes, DefaultRetries);
    var k := RetryAttempts(outcomes, DefaultRetries);
    if o.Returned? then
      assert outcomes(k - 1).Ok?;
      Fetched(o.response.data)
    else
      assert k == DefaultRetries && FailedBefore(outcomes, DefaultRetries);
      FetchFailed(o.error)
  }

  /** What formatAuctionStatus shows: the data-unavailable text, or a report with the limit and
      the bid step. As written it can also throw a TypeError. */
  datatype Formatted = Unavailable | Report(nilaiLimit: Num, kelipatanBid: Num) | FormatThrew

  /** statusData.data.data?.lotLelang, for statusData = { success: true, data }. */
  function LotOf(data: JsValue): Option<JsValue> {
    GetOpt(Get(data, "data"), "lotLelang")
  }

  /** lot.nilaiLimit ? parseInt(lot.nilaiLimit.toString().replace(/\D/g, '')) : 0, as written:
      without `?.`, reading the field of a missing or null lot throws. */
  function NilaiLimitAsWritten(lot: Option<JsValue>): (r: Option<Num>)
    ensures r.None? <==> lot.None? || lot.value.JNull?
    ensures r.Some? && !Present(Get(lot.value, "nilaiLimit")) ==> r == Some(Int(0))
  {
    if lot.None? || lot.value.JNull? then None
    else
      var v := Get(lot.value, "nilaiLimit");
      if Present(v) then Some(ParseInt(Digits(ToJsString(v.value)))) else Some(Int(0))
  }

  /** The same with lot?.nilaiLimit, as every other read of lot in the function is written. */
  function NilaiLimit(lot: Option<JsValue>): (n: Num)
    ensures lot.Some? && !lot.value.JNull? ==> NilaiLimitAsWritten(lot) == Some(n)
  {
    var v := GetOpt(lot, "nilaiLimit");
    if Present(v) then ParseInt(Digits(ToJsString(v.value))) else Int(0)
  }

  /** The limit shown is the number the field's digits form; 0 without the field or lot; NaN
      for a truthy field with no digit at all. */
  lemma LimitOfDigits(lot: Option<JsValue>)
    ensures var v := GetOpt(lot, "nilaiLimit");
            NilaiLimit(lot) == if !Present(v) then Int(0)
                               else if Digits(ToJsString(v.value)) == [] then NaN
                               else Int(DecimalValue(Digits(ToJsString(v.value))))
  {
    var v := GetOpt(lot, "nilaiLimit");
    if Present(v) {
      ParseIntDigits(Digits(ToJsString(v.value)));
    }
  }

  /** A numeric limit shows as itself. */
  lemma LimitOfNumber(lot: JsValue, n: nat)
    requires Get(lot, "nilaiLimit") == Some(JNum(n))
    ensures NilaiLimit(Some(lot)) == Int(n)
  {
    if n > 0 {
      var d := NatToString(n);
      assert ToJsString(JNum(n)) == d;
      DigitsOfDigits(d);
      ParseIntDigits(d);
    }
  }

  /** formatAuctionStatus as written. */
  function FormatAsWritten(data: JsValue): (f: Formatted)
    ensures f == FormatThrew <==> Truthy(data) && (LotOf(data).None? || LotOf(data).value.JNull?)
    ensures f.Unavailable? <==> !Truthy(data)
  {
    if !Truthy(data) then Unavailable
    else
      var lot := LotOf(data);
      match NilaiLimitAsWritten(lot)
      case None => FormatThrew
      case Some(limit) => Report(limit, ParseInt(StringOf(GetOpt(lot, "kelipatanBid"))))
  }

  /** formatAuctionStatus with the limit read through lot?.nilaiLimit: it never throws. */
  function Format(data: JsValue): (f: Formatted)
    ensures !f.FormatThrew?
    ensures f.Unavailable? <==> !Truthy(data)
    ensures FormatAsWritten(data) != FormatThrew ==> f == FormatAsWritten(data)
  {
    if !Truthy(data) then Unavailable
    else
      var lot := LotOf(data);
      Report(NilaiLimit(lot), ParseInt(StringOf(GetOpt(lot, "kelipatanBid"))))
  }

  /** A response body without data.lotLelang makes the source's formatAuctionStatus throw, while
      the corrected one reports a limit of 0 and an unknown bid step. */
  lemma MissingLotThrows()
    ensures FormatAsWritten(JObject(map["data" := JObject(map[])])) == FormatThrew
    ensures Format(JObject(map["data" := JObject(map[])])) == Report(Int(0), NaN)
  {
    var body := JObject(map["data" := JObject(map[])]);
    assert LotOf(body).None?;
    assert StringOf(None) == "undefined";
    assert ParseInt("undefined") == NaN by {
      assert TrimStart("undefined") == "undefined" by {
        assert LeadingSpaces("undefined") == 0;
      }
    }
  }

  // ---------------------------------------------------------------------------------------
  // The command

  /** What the bot answers to /status. */
  datatype StatusReply = NotSet | FetchError(error: string) | Status(report: Formatted)

  /** /status: refuse without an auction id and send nothing; else fetch, sending the status
      request once per attempt, and report the failure or the status. */
  function StatusCommand(store: Store, chat: ChatId, outcomes: nat -> Attempt<Response, string>)
    : (r: (StatusReply, seq<Request>))
    ensures r.0.NotSet? <==> !StatusProceeds(store, chat)
    ensures r.0.NotSet? ==> r.1 == []
    ensures r.0.FetchError? <==> StatusProceeds(store, chat) && FetchAuctionStatus(outcomes).FetchFailed?
    ensures r.0.Status? ==> r.0.report == Format(FetchAuctionStatus(outcomes).data)
    ensures !r.0.NotSet? ==> |r.1| == RetryAttempts(outcomes, DefaultRetries)
                             && forall i :: 0 <= i < |r.1| ==>
                                  r.1[i].url == StatusUrl(store[chat].auctionId.value)
                                  && r.1[i].headers == StatusHeaders(store[chat].cookies, store[chat].bearerToken)
  {
    if !StatusProceeds(store, chat) then (NotSet, [])
    else
      var sent := Repeat(StatusRequest(store[chat]), RetryAttempts(outcomes, DefaultRetries));
      match FetchAuctionStatus(outcomes)
      case FetchFailed(e) => (FetchError(e), sent)
      case Fetched(data) => (Status(Format(data)), sent)
  }

  /** After /setauction with an id, /status fetches the status of that id, at least once. */
  lemma StatusAfterSetAuction(store: Store, chat: ChatId, id: string, outcomes: nat -> Attempt<Response, string>)
    requires |id| > 0 && forall j :: 0 <= j < |id| ==> InClass(id[j], IdChars)
    ensures var s := HandleSetter(store, chat, SetAuction, "/setauction " + id);
            StatusCommand(s, chat, outcomes).0 != NotSet && s[chat].auctionId == Some(id)
    ensures var r := StatusCommand(HandleSetter(store, chat, SetAuction, "/setauction " + id), chat, outcomes);
            |r.1| >= 1 && forall i :: 0 <= i < |r.1| ==> r.1[i].url == StatusUrl(id)
  {
    SetAuctionStores(store, chat, id);
  }
}
