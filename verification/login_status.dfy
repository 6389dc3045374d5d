/**
 * The popup's login logic (extension/popup.js): resolveLoginStatus over the decoded session
 * cookie, and the periodic checkLoginStatus that combines it with the page's own flag and
 * reports the logged-in to logged-out transition. Cookie lookup, cookie decoding, tab queries
 * and messaging are inputs.
 */
module LoginStatus {
  import opened Wrappers
  import opened Text
  import opened Js

  /** What resolveLoginStatus gives: null, a boolean, or the TypeError raised by calling
      toLowerCase on a truthy `raw` field that is not a string. */
  datatype Resolution = Unknown | Known(loggedIn: bool) | Threw

  /** The list the `status` branch compares the lower-cased text with. */
  const StatusWords: seq<string> := ["login", "loggedin", "active", "true", "1", "LOGIN"]

  /** The list the string and `raw` branches compare the lower-cased text with. */
  const LoginWords: seq<string> := ["login", "loggedin", "true", "1", "active"]

  /** The five strict equalities of the `statusLogin` branch. */
  predicate StatusLoginAccepts(v: JsValue) {
    v == JBool(true) || v == JStr("true") || v == JStr("1") || v == JNum(1) || v == JStr("LOGIN")
  }

  /** typeof v === 'object' for a value already known to be truthy. */
  predicate IsObject(v: JsValue) {
    v.JObject? || v.JArray?
  }

  /** A JSON value never holds undefined, so a field is defined exactly when it is present. */
  predicate Defined(v: JsValue, key: string) {
    Get(v, key).Some?
  }

  /** The record branches: is one of the three status fields defined? */
  predicate HasStatusField(v: JsValue) {
    IsObject(v) && (Defined(v, "isLoggedIn") || Defined(v, "statusLogin") || Defined(v, "status"))
  }

  /** resolveLoginStatus: null for a falsy input; for a record the first defined field of
      isLoggedIn, statusLogin, status decides; a string is always logged in; otherwise a
      truthy `raw` string is, and anything else is null. */
  function ResolveLoginStatus(data: Option<JsValue>): (r: Resolution)
    ensures !Present(data) ==> r == Unknown
    ensures Present(data) && data.value.JStr? ==> r == Known(true)
    ensures r == Known(false) ==> Present(data) && HasStatusField(data.value)
    ensures r == Threw <==>
              Present(data) && data.value.JObject? && !HasStatusField(data.value)
              && Present(Get(data.value, "raw")) && !Get(data.value, "raw").value.JStr?
  {
    if !Present(data) then Unknown
    else
      var v := data.value;
      if IsObject(v) && Defined(v, "isLoggedIn") then
        Known(Truthy(Get(v, "isLoggedIn").value))
      else if IsObject(v) && Defined(v, "statusLogin") then
        Known(StatusLoginAccepts(Get(v, "statusLogin").value))
      else if IsObject(v) && Defined(v, "status") then
        Known(ToLower(ToJsString(Get(v, "status").value)) in StatusWords)
      else if v.JStr? then
        Known(ToLower(v.s) in LoginWords || |v.s| > 0)
      else if Present(Get(v, "raw")) then
        var raw := Get(v, "raw").value;
        if raw.JStr? then Known(ToLower(raw.s) in LoginWords || |raw.s| > 0) else Threw
      else
        Unknown
  }

  /** A defined isLoggedIn decides by its truthiness, whatever else the record holds. */
  lemma IsLoggedInFirst(fields: map<string, JsValue>, key: string, x: JsValue)
    requires "isLoggedIn" in fields && key != "isLoggedIn"
    ensures ResolveLoginStatus(Some(JObject(fields[key := x]))) == Known(Truthy(fields["isLoggedIn"]))
    ensures ResolveLoginStatus(Some(JObject(fields))) == Known(Truthy(fields["isLoggedIn"]))
  {
  }

  /** Without isLoggedIn, a defined statusLogin decides by the five accepted values, whatever
      status or raw say. */
  lemma StatusLoginSecond(fields: map<string, JsValue>, key: string, x: JsValue)
    requires "isLoggedIn" !in fields && "statusLogin" in fields
    requires key != "isLoggedIn" && key != "statusLogin"
    ensures ResolveLoginStatus(Some(JObject(fields[key := x]))) == Known(StatusLoginAccepts(fields["statusLogin"]))
  {
  }

  /** Lower-cased text never reads LOGIN. */
  lemma LowerIsNotUpper(s: string)
    ensures ToLower(s) != "LOGIN"
  {
    if |s| == 5 {
      assert ToLower(s)[0] == LowerChar(s[0]) != 'L';
    }
  }

  /** With neither of the first two fields, status decides: its lower-cased String() is one of
      login, loggedin, active, true, 1. The upper-case LOGIN in the list can never match. */
  lemma StatusThird(fields: map<string, JsValue>)
    requires "isLoggedIn" !in fields && "statusLogin" !in fields && "status" in fields
    ensures ResolveLoginStatus(Some(JObject(fields)))
            == Known(ToLower(ToJsString(fields["status"])) in LoginWords)
  {
    var t := ToLower(ToJsString(fields["status"]));
    LowerIsNotUpper(ToJsString(fields["status"]));
    assert t in StatusWords <==> t in LoginWords;
  }

  /** statusLogin is compared case-sensitively and status is not: 'login' is refused in the
      first and accepted in the second, while 'LOGIN' is accepted in both. */
  lemma CaseAsymmetry()
    ensures ResolveLoginStatus(Some(JObject(map["statusLogin" := JStr("login")]))) == Known(false)
    ensures ResolveLoginStatus(Some(JObject(map["statusLogin" := JStr("LOGIN")]))) == Known(true)
    ensures ResolveLoginStatus(Some(JObject(map["status" := JStr("login")]))) == Known(true)
    ensures ResolveLoginStatus(Some(JObject(map["status" := JStr("LOGIN")]))) == Known(true)
  {
    StatusAnyCase("LOGIN");
    StatusAnyCase("login");
  }

  /** A status field whose text lowers to 'login' resolves to logged in. */
  lemma StatusAnyCase(word: string)
    requires ToLower(word) == "login"
    ensures ResolveLoginStatus(Some(JObject(map["status" := JStr(word)]))) == Known(true)
  {
    var m := map["status" := JStr(word)];
    assert Get(JObject(m), "status") == Some(JStr(word));
  }

  /** The record parseSessionCookie makes of a cookie that is not JSON. */
  function RawSession(value: string): JsValue {
    JObject(map["raw" := JStr(value)])
  }

  /** A non-empty raw cookie value always reads as logged in, and an empty one as null: the raw
      branch never answers false. */
  lemma RawSessionLogin(value: string)
    ensures value != "" ==> ResolveLoginStatus(Some(RawSession(value))) == Known(true)
    ensures value == "" ==> ResolveLoginStatus(Some(RawSession(value))) == Unknown
  {
    assert Get(RawSession(value), "raw") == Some(JStr(value));
  }

  // ---------------------------------------------------------------------------------------
  // checkLoginStatus

  /** What one check reads: the decoded session data (None when no session cookie is found),
      the active tab's URL (None without a tab or URL) and the content script's reply
      (None when it is undefined). */
  datatype Observation = Observation(session: Option<JsValue>, tabUrl: Option<string>,
                                     response: Option<JsValue>)

  /** response && !response.error ? Boolean(response.isLoggedIn) : false */
  predicate PageLogin(response: Option<JsValue>) {
    Present(response) && !Present(GetOpt(response, "error")) && Present(GetOpt(response, "isLoggedIn"))
  }

  /** The cookie's verdict: false without a session. */
  function CookieLogin(session: Option<JsValue>): Resolution {
    if session.None? then Known(false) else ResolveLoginStatus(session)
  }

  /** The result of one check, whether it handled a logout, and the remembered status. */
  datatype LoginCheck = LoginCheck(result: Option<bool>, logout: bool, last: Option<bool>)

  /** checkLoginStatus: null when resolving the cookie throws or the active tab is not on the
      auction site, and the remembered status is kept; otherwise cookieLogin || pageLogin, a
      boolean, which becomes the remembered status, with a logout handled on true to false. */
  function CheckLoginStatus(last: Option<bool>, obs: Observation): (c: LoginCheck)
    ensures c.result.None? <==>
              CookieLogin(obs.session) == Threw || obs.tabUrl.None? || !Contains(obs.tabUrl.value, "lelang.go.id/")
    ensures c.result.Some? ==> (c.result.value <==> CookieLogin(obs.session) == Known(true) || PageLogin(obs.response))
    ensures c.logout <==> last == Some(true) && c.result == Some(false)
    ensures c.last == if c.result.Some? then c.result else last
  {
    var cookie := CookieLogin(obs.session);
    if cookie == Threw || obs.tabUrl.None? || !Contains(obs.tabUrl.value, "lelang.go.id/") then
      LoginCheck(None, false, last)
    else
      var current := cookie == Known(true) || PageLogin(obs.response);
      LoginCheck(Some(current), last == Some(true) && !current, Some(current))
  }

  /** The checks the 10-second interval makes from a remembered status: one per observation,
      until a check handles a logout, which clears the interval. */
  function Checks(last: Option<bool>, obs: seq<Observation>): (cs: seq<LoginCheck>)
    ensures |cs| <= |obs| && (obs != [] ==> |cs| >= 1)
    ensures forall i :: 0 <= i < |cs| - 1 ==> !cs[i].logout
    ensures |cs| < |obs| ==> cs[|cs| - 1].logout
    decreases |obs|
  {
    if obs == [] then []
    else
      var c := CheckLoginStatus(last, obs[0]);
      if c.logout then [c] else [c] + Checks(c.last, obs[1..])
  }

  /** The reference reading of the remembered status: the most recent non-null result, or the
      initial status when there is none. */
  function LastResult(init: Option<bool>, rs: seq<Option<bool>>): Option<bool>
    decreases |rs|
  {
    if rs == [] then init else LastResult(if rs[0].Some? then rs[0] else init, rs[1..])
  }

  function Results(cs: seq<LoginCheck>): (rs: seq<Option<bool>>)
    ensures |rs| == |cs| && forall i :: 0 <= i < |cs| ==> rs[i] == cs[i].result
  {
    seq(|cs|, i requires 0 <= i < |cs| => cs[i].result)
  }

  /** The results of all checks but the first are the results after the first. */
  lemma ResultsTail(cs: seq<LoginCheck>, j: nat)
    requires 1 <= j <= |cs|
    ensures Results(cs)[..j][1..] == Results(cs[1..])[..j - 1]
  {
    var a, b := Results(cs)[..j][1..], Results(cs[1..])[..j - 1];
    assert |a| == |b|;
    forall i | 0 <= i < |a| ensures a[i] == b[i] {
      assert a[i] == Results(cs)[i + 1] == cs[i + 1].result;
    }
  }

  /** The k-th check is checkLoginStatus on the k-th observation, with the status the check
      before it left remembered (the initial one for the first check). */
  lemma {:induction false} ChecksFollowObservations(last: Option<bool>, obs: seq<Observation>, k: nat)
    requires k < |Checks(last, obs)|
    ensures Checks(last, obs)[k]
            == CheckLoginStatus(if k == 0 then last else Checks(last, obs)[k - 1].last, obs[k])
    decreases k
  {
    var cs := Checks(last, obs);
    var c := CheckLoginStatus(last, obs[0]);
    assert cs[0] == c;
    if k > 0 {
      assert !c.logout;
      var tail := Checks(c.last, obs[1..]);
      assert cs == [c] + tail;
      ChecksFollowObservations(c.last, obs[1..], k - 1);
      assert cs[k] == tail[k - 1] && obs[1..][k - 1] == obs[k];
      if k > 1 {
        assert cs[k - 1] == tail[k - 2];
      }
    }
  }

  /** After each check the popup remembers the most recent non-null result, and a logout is
      handled exactly when that remembered status was true and the check returns false. */
  lemma {:induction false} ChecksRememberLastResult(last: Option<bool>, obs: seq<Observation>, k: nat)
    requires k < |Checks(last, obs)|
    ensures Checks(last, obs)[k].last == LastResult(last, Results(Checks(last, obs))[..k + 1])
    ensures Checks(last, obs)[k].logout <==>
              LastResult(last, Results(Checks(last, obs))[..k]) == Some(true)
              && Checks(last, obs)[k].result == Some(false)
    decreases k
  {
    var cs := Checks(last, obs);
    var c := CheckLoginStatus(last, obs[0]);
    var rs := Results(cs);
    assert cs[0] == c;
    if k > 0 {
      assert !c.logout;
      var tail := Checks(c.last, obs[1..]);
      assert cs == [c] + tail;
      ChecksRememberLastResult(c.last, obs[1..], k - 1);
      var trs := Results(tail);
      assert tail == cs[1..];
      ResultsTail(cs, k + 1);
      ResultsTail(cs, k);
      assert cs[k] == tail[k - 1];
      var next := if rs[0].Some? then rs[0] else last;
      assert next == c.last;
      assert LastResult(last, rs[..k + 1]) == LastResult(next, rs[..k + 1][1..]);
      assert LastResult(last, rs[..k]) == LastResult(next, rs[..k][1..]);
    } else {
      assert rs[..1] == [c.result];
      assert rs[..0] == [];
      assert LastResult(last, rs[..1]) == LastResult(if c.result.Some? then c.result else last, []);
    }
  }
}
