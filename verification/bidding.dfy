/**
 * sendBidToAPI (server/server.js): open a bid session, and only once that has succeeded submit
 * the bid, each request going through axiosRetry with its default three attempts. The two
 * transports are the attempt outcomes of each request; the bid time is a parameter.
 */
module Bidding {
  import opened Wrappers
  import opened Text
  import opened Js
  import opened Retry

  const StartUrl: string := "https://bidding.lelang.go.id/api/v1/pelaksanaan/lelang/mulai-sesi"
  const BidUrl: string := "https://bidding.lelang.go.id/api/v1/pelaksanaan/lelang/pengajuan-penawaran"

  /** An HTTP response: its status and its decoded body. */
  datatype Response = Response(status: int, data: JsValue)

  /** A request as axios sends it: URL, headers and JSON body. */
  datatype Request = Request(url: string, headers: map<string, string>, payload: JsValue)

  /** { success: true, result } or { success: false, error: error.message }. */
  datatype BidResult = Succeeded(result: JsValue) | BidFailed(error: string)

  /** The headers of both requests: the three fixed ones, Authorization for a truthy token and
      Cookie for truthy cookies. */
  function Headers(bearerToken: Option<JsValue>, cookies: Option<JsValue>): (h: map<string, string>)
    ensures "Content-Type" in h && h["Content-Type"] == "application/json"
    ensures "Origin" in h && h["Origin"] == "https://lelang.go.id"
    ensures "Referer" in h && h["Referer"] == "https://lelang.go.id/"
    ensures "Authorization" in h <==> Present(bearerToken)
    ensures "Authorization" in h ==> h["Authorization"] == "Bearer " + StringOf(bearerToken)
    ensures "Cookie" in h <==> Present(cookies)
    ensures "Cookie" in h ==> h["Cookie"] == StringOf(cookies)
    ensures h.Keys <= {"Content-Type", "Origin", "Referer", "Authorization", "Cookie"}
  {
    var fixed := map["Content-Type" := "application/json", "Origin" := "https://lelang.go.id",
                     "Referer" := "https://lelang.go.id/"];
    var withToken := if Present(bearerToken) then fixed["Authorization" := "Bearer " + StringOf(bearerToken)] else fixed;
    if Present(cookies) then withToken["Cookie" := StringOf(cookies)] else withToken
  }

  /** A number as JSON.stringify writes it: NaN becomes null. */
  function NumJson(n: Num): JsValue {
    match n
    case NaN => JNull
    case Int(i) => JNum(i)
  }

  /** { auctionId: String(auctionId) } */
  function StartPayload(auctionId: Option<JsValue>): JsValue {
    JObject(map["auctionId" := JStr(StringOf(auctionId))])
  }

  /** { auctionId: String(auctionId), bidAmount: parseInt(amount), bidTime, passkey: String(passkey) } */
  function BidPayload(auctionId: Option<JsValue>, amount: Option<JsValue>, bidTime: string,
                      passkey: Option<JsValue>): JsValue {
    JObject(map["auctionId" := JStr(StringOf(auctionId)),
                "bidAmount" := NumJson(ParseInt(StringOf(amount))),
                "bidTime" := JStr(bidTime),
                "passkey" := JStr(StringOf(passkey))])
  }

  /** The bid body carries the id and the passkey as strings, whatever their type, and an
      integer amount as that integer; an amount given as a digit string is read in decimal. */
  lemma BidPayloadFields(auctionId: Option<JsValue>, amount: Option<JsValue>, bidTime: string,
                         passkey: Option<JsValue>)
    ensures var p := BidPayload(auctionId, amount, bidTime, passkey);
            p.JObject? && p.fields.Keys == {"auctionId", "bidAmount", "bidTime", "passkey"}
            && p.fields["auctionId"] == JStr(StringOf(auctionId))
            && p.fields["passkey"] == JStr(StringOf(passkey))
            && p.fields["auctionId"] == StartPayload(auctionId).fields["auctionId"]
    ensures amount.Some? && amount.value.JNum? ==>
              BidPayload(auctionId, amount, bidTime, passkey).fields["bidAmount"] == amount.value
    ensures amount.Some? && amount.value.JStr? && AllDigits(amount.value.s) && amount.value.s != "" ==>
              BidPayload(auctionId, amount, bidTime, passkey).fields["bidAmount"]
              == JNum(DecimalValue(amount.value.s))
    ensures amount.None? ==> BidPayload(auctionId, amount, bidTime, passkey).fields["bidAmount"] == JNull
  {
    BidPayloadShape(auctionId, amount, bidTime, passkey);
    if amount.Some? && amount.value.JNum? {
      BidAmountNumber(auctionId, amount.value, bidTime, passkey);
    }
    if amount.Some? && amount.value.JStr? && AllDigits(amount.value.s) && amount.value.s != "" {
      BidAmountDigits(auctionId, amount.value.s, bidTime, passkey);
    }
    if amount.None? {
      BidAmountMissing(auctionId, bidTime, passkey);
    }
  }

  lemma BidPayloadShape(auctionId: Option<JsValue>, amount: Option<JsValue>, bidTime: string,
                        passkey: Option<JsValue>)
    ensures var p := BidPayload(auctionId, amount, bidTime, passkey);
            p.JObject? && p.fields.Keys == {"auctionId", "bidAmount", "bidTime", "passkey"}
            && p.fields["auctionId"] == JStr(StringOf(auctionId))
            && p.fields["passkey"] == JStr(StringOf(passkey))
            && p.fields["auctionId"] == StartPayload(auctionId).fields["auctionId"]
  {
    PayloadKeysDistinct();
    var p := BidPayload(auctionId, amount, bidTime, passkey);
    assert p.fields.Keys == {"auctionId", "bidAmount", "bidTime", "passkey"};
  }

  /** The four keys of the bid body are different texts. */
  lemma PayloadKeysDistinct()
    ensures "auctionId" != "bidAmount" && "auctionId" != "bidTime" && "auctionId" != "passkey"
    ensures "bidAmount" != "bidTime" && "bidAmount" != "passkey" && "bidTime" != "passkey"
  {
    assert "auctionId"[0] != "bidAmount"[0] && |"auctionId"| != |"bidTime"| && |"auctionId"| != |"passkey"|;
    assert |"bidAmount"| != |"bidTime"| && |"bidAmount"| != |"passkey"| && "bidTime"[0] != "passkey"[0];
  }

  lemma BidAmountNumber(auctionId: Option<JsValue>, amount: JsValue, bidTime: string,
                        passkey: Option<JsValue>)
    requires amount.JNum?
    ensures BidPayload(auctionId, Some(amount), bidTime, passkey).fields["bidAmount"] == amount
  {
    ParseIntRoundTrip(amount.n);
  }

  lemma BidAmountDigits(auctionId: Option<JsValue>, s: string, bidTime: string,
                        passkey: Option<JsValue>)
    requires AllDigits(s) && s != ""
    ensures BidPayload(auctionId, Some(JStr(s)), bidTime, passkey).fields["bidAmount"]
            == JNum(DecimalValue(s))
  {
    ParseIntDigits(s);
  }

  lemma BidAmountMissing(auctionId: Option<JsValue>, bidTime: string, passkey: Option<JsValue>)
    ensures BidPayload(auctionId, None, bidTime, passkey).fields["bidAmount"] == JNull
  {
    assert StringOf(None) == "undefined";
    assert ParseInt("undefined") == NaN by {
      assert TrimStart("undefined") == "undefined" by {
        assert LeadingSpaces("undefined") == 0;
      }
    }
  }

  /** k copies of one request. */
  function Repeat(r: Request, k: nat): (rs: seq<Request>)
    ensures |rs| == k && forall i :: 0 <= i < k ==> rs[i] == r
  {
    seq(k, _ => r)
  }

  /** m copies of one request followed by n of another. */
  lemma RepeatsAt(a: Request, m: nat, b: Request, n: nat)
    ensures var rs := Repeat(a, m) + Repeat(b, n);
            |rs| == m + n && forall i :: 0 <= i < m + n ==> rs[i] == if i < m then a else b
  {
  }

  /** sendBidToAPI: the start request until it succeeds or its attempts run out, then, only after
      a started session, the bid request the same way. The requests made are returned in order. */
  function SendBid(auctionId: Option<JsValue>, passkey: Option<JsValue>, amount: Option<JsValue>,
                   cookies: Option<JsValue>, bearerToken: Option<JsValue>, bidTime: string,
                   start: nat -> Attempt<Response, string>, submit: nat -> Attempt<Response, string>)
    : (r: (BidResult, seq<Request>))
    ensures r.0.Succeeded? <==>
              RetryOutcome(start, DefaultRetries).Returned? && RetryOutcome(submit, DefaultRetries).Returned?
    ensures r.0.Succeeded? ==> r.0.result == RetryOutcome(submit, DefaultRetries).response.data
    ensures RetryOutcome(start, DefaultRetries).Thrown? ==>
              r.0 == BidFailed(RetryOutcome(start, DefaultRetries).error)
              && forall i :: 0 <= i < |r.1| ==> r.1[i].url == StartUrl
    ensures RetryOutcome(start, DefaultRetries).Returned? && RetryOutcome(submit, DefaultRetries).Thrown? ==>
              r.0 == BidFailed(RetryOutcome(submit, DefaultRetries).error)
    ensures |r.1| == RetryAttempts(start, DefaultRetries)
                     + (if RetryOutcome(start, DefaultRetries).Returned? then RetryAttempts(submit, DefaultRetries) else 0)
    ensures forall i :: 0 <= i < |r.1| ==>
              r.1[i].headers == Headers(bearerToken, cookies)
              && (r.1[i].url == BidUrl <==> i >= RetryAttempts(start, DefaultRetries))
    ensures forall i :: 0 <= i < |r.1| ==>
              r.1[i].payload == if i < RetryAttempts(start, DefaultRetries) then StartPayload(auctionId)
                                else BidPayload(auctionId, amount, bidTime, passkey)
  {
    var headers := Headers(bearerToken, cookies);
    var startRequest := Request(StartUrl, headers, StartPayload(auctionId));
    var bidRequest := Request(BidUrl, headers, BidPayload(auctionId, amount, bidTime, passkey));
    var started := RetryOutcome(start, DefaultRetries);
    var sent := Repeat(startRequest, RetryAttempts(start, DefaultRetries));
    if started.Thrown? then
      (BidFailed(started.error), sent)
    else
      var submitted := RetryOutcome(submit, DefaultRetries);
      var all := sent + Repeat(bidRequest, RetryAttempts(submit, DefaultRetries));
      RepeatsAt(startRequest, RetryAttempts(start, DefaultRetries), bidRequest, RetryAttempts(submit, DefaultRetries));
      if submitted.Returned? then (Succeeded(submitted.response.data), all)
      else (BidFailed(submitted.error), all)
  }

  /** Only the request's transport decides the result: no passkey, token or cookie is checked
      beforehand, so even a bid without any of them is sent once the session starts. */
  lemma NoPresenceCheck(auctionId: Option<JsValue>, amount: Option<JsValue>, bidTime: string,
                        start: nat -> Attempt<Response, string>, submit: nat -> Attempt<Response, string>)
    requires start(0).Ok? && submit(0).Ok?
    ensures SendBid(auctionId, None, amount, None, None, bidTime, start, submit).0
            == Succeeded(submit(0).response.data)
    ensures SendBid(auctionId, None, amount, None, None, bidTime, start, submit).1
            == [Request(StartUrl, Headers(None, None), StartPayload(auctionId)),
                Request(BidUrl, Headers(None, None), BidPayload(auctionId, amount, bidTime, None))]
  {
    FirstAttemptOk(start, DefaultRetries);
    FirstAttemptOk(submit, DefaultRetries);
    var headers := Headers(None, None);
    var startRequest := Request(StartUrl, headers, StartPayload(auctionId));
    var bidRequest := Request(BidUrl, headers, BidPayload(auctionId, amount, bidTime, None));
    assert Repeat(startRequest, 1) == [startRequest];
    assert Repeat(bidRequest, 1) == [bidRequest];
  }
}
