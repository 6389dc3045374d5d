/**
 * The service worker's change detector (extension/background.js): one slot holding the previous
 * lot snapshot, the three alerts raised by comparing it with each new snapshot, and the reset
 * performed on a logout message.
 */
module Background {
  import opened Wrappers
  import opened Text
  import opened Js
  import opened Content

  /** The notifications the detector shows, with the values their messages interpolate. */
  datatype Alert =
    | NewHigherBid(amount: int, lot: string)
    | Outbid(price: Option<Num>)
    | EndingSoon(countdown: string)
    | SessionEnded

  /** A price that passes `if (price)`: present, a number and not 0 (NaN is falsy). */
  predicate PriceTruthy(p: Option<Num>) {
    p.Some? && p.value.Int? && p.value.value != 0
  }

  /** newData.kode || 'Unknown' */
  function LotLabel(kode: Option<string>): (s: string)
    ensures kode.Some? && kode.value != "" ==> s == kode.value
    ensures kode.None? || kode.value == "" ==> s == "Unknown"
  {
    if kode.Some? && kode.value != "" then kode.value else "Unknown"
  }

  /** The minutes left by a countdown text of exactly four colon-separated parts,
      days·1440 + hours·60 + minutes; the seconds part is ignored. */
  function EndingSoonMinutes(countdown: string): (m: Option<int>)
    ensures m.Some? <==> Count(countdown, ':') == 3
    ensures m.Some? ==> m.value >= 0
    ensures m.Some? ==> var parts := Split(countdown, ':');
              m.value == DecimalValue(Digits(parts[0])) * 1440 + DecimalValue(Digits(parts[1])) * 60
                         + DecimalValue(Digits(parts[2]))
  {
    var parts := Split(countdown, ':');
    if |parts| == 4 then
      Some(FieldValue(parts[0]) * 24 * 60 + FieldValue(parts[1]) * 60 + FieldValue(parts[2]))
    else
      None
  }

  /** The ending-soon window: strictly positive and at most 10 minutes. */
  predicate InEndingWindow(countdown: string) {
    var m := EndingSoonMinutes(countdown);
    m.Some? && 0 < m.value <= 10
  }

  /** `if (newData.currentPrice && previousData.currentPrice)`, a rise, and not the user's bid. */
  predicate HigherBidSeen(prev: LotData, cur: LotData) {
    PriceTruthy(cur.currentPrice) && PriceTruthy(prev.currentPrice)
    && cur.currentPrice.value.value > prev.currentPrice.value.value && !cur.isYourBid
  }

  /** The ending-soon test as the source writes it. */
  predicate EndingSoonSeen(prev: LotData, cur: LotData) {
    cur.countdown.Some? && cur.countdown.value != "" && InEndingWindow(cur.countdown.value)
    && (prev.countdown.None? || prev.countdown.value == "" || prev.countdown != cur.countdown)
  }

  /** The ending-soon test needs no emptiness checks: a countdown in the window has three
      separators, so it is never empty, and a stored empty countdown differs from it anyway. */
  lemma EndingSoonSimplified(prev: LotData, cur: LotData)
    ensures EndingSoonSeen(prev, cur) <==>
              cur.countdown.Some? && InEndingWindow(cur.countdown.value) && prev.countdown != cur.countdown
  {
    if cur.countdown.Some? && InEndingWindow(cur.countdown.value) {
      assert Count(cur.countdown.value, ':') == 3;
      assert cur.countdown.value != "";
    }
  }

  /** The outcome of one comparison: which of the three notifications are shown. */
  datatype Alerts = Alerts(newHigherBid: Option<Alert>, outbid: Option<Alert>, endingSoon: Option<Alert>)

  /** The notifications in the order they are shown. */
  function Shown(a: Alerts): (r: seq<Alert>)
    ensures |r| <= 3
    ensures forall x :: x in r <==> Some(x) in {a.newHigherBid, a.outbid, a.endingSoon}
  {
    (if a.newHigherBid.Some? then [a.newHigherBid.value] else [])
    + (if a.outbid.Some? then [a.outbid.value] else [])
    + (if a.endingSoon.Some? then [a.endingSoon.value] else [])
  }

  /** The comparison of a new snapshot with the stored one. The outbid notice does not depend
      on the price movement and can come together with the new-higher-bid notice; its price is
      reported as it is, missing included. */
  function Detect(prev: LotData, cur: LotData): (r: Alerts)
    ensures r.newHigherBid.Some? <==>
              PriceTruthy(cur.currentPrice) && PriceTruthy(prev.currentPrice)
              && cur.currentPrice.value.value > prev.currentPrice.value.value && !cur.isYourBid
    ensures r.newHigherBid.Some? ==> r.newHigherBid.value == NewHigherBid(cur.currentPrice.value.value, LotLabel(cur.kode))
    ensures r.outbid.Some? <==> prev.isYourBid && !cur.isYourBid
    ensures r.outbid.Some? ==> r.outbid.value == Outbid(cur.currentPrice)
    ensures r.endingSoon.Some? <==>
              cur.countdown.Some? && InEndingWindow(cur.countdown.value) && prev.countdown != cur.countdown
    ensures r.endingSoon.Some? ==> r.endingSoon == Some(EndingSoon(cur.countdown.value))
  {
    EndingSoonSimplified(prev, cur);
    Alerts(
      if HigherBidSeen(prev, cur) then Some(NewHigherBid(cur.currentPrice.value.value, LotLabel(cur.kode))) else None,
      if prev.isYourBid && !cur.isYourBid then Some(Outbid(cur.currentPrice)) else None,
      if EndingSoonSeen(prev, cur) then Some(EndingSoon(cur.countdown.value)) else None)
  }

  /** The detector as written: the outbid message calls toLocaleString on the new price, which
      throws when that price is null. The throw ends the call after the new-higher-bid check
      (which cannot fire without a price), so nothing is shown, the ending-soon check is
      skipped and the stored snapshot is not updated; `crashed` reports it. */
  function DetectAsWritten(prev: LotData, cur: LotData): (r: (Alerts, bool))
    ensures r.1 <==> prev.isYourBid && !cur.isYourBid && cur.currentPrice.None?
    ensures !r.1 ==> r.0 == Detect(prev, cur)
    ensures r.1 ==> Shown(r.0) == []
  {
    if prev.isYourBid && !cur.isYourBid && cur.currentPrice.None? then
      (Alerts(None, None, None), true)
    else
      (Detect(prev, cur), false)
  }

  // ---------------------------------------------------------------------------------------
  // The message boundary

  /** A number after the JSON encoding of runtime messages: NaN is written as null. */
  function JsonNumber(p: Option<Num>): (r: Option<Num>)
    ensures r.None? <==> p.None? || p == Some(NaN)
    ensures r.Some? ==> r == p && r.value.Int?
  {
    match p
    case Some(Int(n)) => Some(Int(n))
    case _ => None
  }

  /** The snapshot as the service worker receives it: the scraped price and limit pass through
      JSON, every other field the detector reads arrives as sent. */
  function Received(d: LotData): (r: LotData)
    ensures r.currentPrice == JsonNumber(d.currentPrice) && r.nilaiLimit == JsonNumber(d.nilaiLimit)
    ensures r.isYourBid == d.isYourBid && r.countdown == d.countdown && r.kode == d.kode
    ensures r.isLoggedIn == d.isLoggedIn && r.highestBidText == d.highestBidText
  {
    d.(currentPrice := JsonNumber(d.currentPrice), nilaiLimit := JsonNumber(d.nilaiLimit))
  }

  // ---------------------------------------------------------------------------------------
  // The previous-snapshot slot and the message handler

  datatype Monitor = Monitor(previous: Option<LotData>)

  /** checkForImportantChanges with the outbid message guarded: the first snapshot is stored
      silently; every later one is compared with the stored one and then stored. */
  function Check(m: Monitor, data: LotData): (r: (Monitor, seq<Alert>))
    ensures r.0 == Monitor(Some(data))
    ensures m.previous.None? ==> r.1 == []
    ensures m.previous.Some? ==> r.1 == Shown(Detect(m.previous.value, data))
  {
    match m.previous
    case None => (Monitor(Some(data)), [])
    case Some(prev) => (Monitor(Some(data)), Shown(Detect(prev, data)))
  }

  /** Whether checking a received snapshot against the stored one throws at the outbid message. */
  predicate OutbidThrows(m: Monitor, data: LotData) {
    m.previous.Some? && DetectAsWritten(m.previous.value, data).1
  }

  /** checkForImportantChanges as written: a throwing call shows nothing and leaves the stored
      snapshot as it was. */
  function CheckAsWritten(m: Monitor, data: LotData): (r: (Monitor, seq<Alert>))
    ensures m.previous.None? ==> r == (Monitor(Some(data)), [])
    ensures OutbidThrows(m, data) ==> r == (m, [])
    ensures !OutbidThrows(m, data) ==> r == Check(m, data)
  {
    match m.previous
    case None => (Monitor(Some(data)), [])
    case Some(prev) =>
      var (alerts, crashed) := DetectAsWritten(prev, data);
      if crashed then (m, Shown(alerts)) else (Monitor(Some(data)), Shown(alerts))
  }

  /** The listener as the source writes it, or with the outbid message guarded. */
  datatype Version = AsWritten | Corrected

  /** The message listener: snapshots, as received, go to the detector; a logout shows the
      session-ended notification and empties the slot; other actions change nothing. */
  function Handle(v: Version, m: Monitor, msg: Message): (r: (Monitor, seq<Alert>))
    ensures msg.UserLoggedOut? ==> r == (Monitor(None), [SessionEnded])
    ensures msg.OtherAction? ==> r == (m, [])
    ensures msg.AutoRefreshData? && v.AsWritten? && OutbidThrows(m, Received(msg.data)) ==> r == (m, [])
    ensures msg.AutoRefreshData? && !(v.AsWritten? && OutbidThrows(m, Received(msg.data))) ==>
              r.0 == Monitor(Some(Received(msg.data)))
              && r.1 == if m.previous.None? then [] else Shown(Detect(m.previous.value, Received(msg.data)))
  {
    match msg
    case AutoRefreshData(data) =>
      if v.AsWritten? then CheckAsWritten(m, Received(data)) else Check(m, Received(data))
    case UserLoggedOut => (Monitor(None), [SessionEnded])
    case OtherAction => (m, [])
  }

  /** The messages handled in order: the final slot and all notifications shown. The slot
      only ever holds what it started with, nothing, or a snapshot received in the run. */
  function Run(v: Version, m: Monitor, msgs: seq<Message>): (r: (Monitor, seq<Alert>))
    ensures r.0 == m || r.0.previous.None?
            || exists i :: 0 <= i < |msgs| && msgs[i].AutoRefreshData? && r.0.previous == Some(Received(msgs[i].data))
    decreases |msgs|
  {
    if msgs == [] then (m, [])
    else
      var step := Handle(v, m, msgs[0]);
      var rest := Run(v, step.0, msgs[1..]);
      assert forall j :: 0 <= j < |msgs| - 1 ==> msgs[1..][j] == msgs[j + 1];
      (rest.0, step.1 + rest.1)
  }

  /** Running two message lists one after the other is running their concatenation. */
  lemma {:induction false} RunAppend(v: Version, m: Monitor, a: seq<Message>, b: seq<Message>)
    ensures Run(v, m, a + b) == (Run(v, Run(v, m, a).0, b).0, Run(v, m, a).1 + Run(v, Run(v, m, a).0, b).1)
    decreases |a|
  {
    if a == [] {
      assert a + b == b;
      assert Run(v, m, a).1 + Run(v, m, b).1 == Run(v, m, b).1;
    } else {
      assert (a + b)[0] == a[0];
      assert (a + b)[1..] == a[1..] + b;
      var step := Handle(v, m, a[0]);
      RunAppend(v, step.0, a[1..], b);
      var mid := Run(v, step.0, a[1..]);
      assert Run(v, m, a) == (mid.0, step.1 + mid.1);
      var tail := Run(v, mid.0, b);
      assert Run(v, m, a + b) == (tail.0, step.1 + (mid.1 + tail.1));
      assert step.1 + (mid.1 + tail.1) == (step.1 + mid.1) + tail.1;
    }
  }

  /** After the last snapshot message, with no logout after it, the slot holds that snapshot
      as received; as written, it still holds the one before when the outbid message threw. */
  lemma RunStoresLastSnapshot(v: Version, m: Monitor, msgs: seq<Message>, k: nat)
    requires k < |msgs| && msgs[k].AutoRefreshData?
    requires forall j :: k < j < |msgs| ==> msgs[j].OtherAction?
    ensures var before := Run(v, m, msgs[..k]).0;
            var d := Received(msgs[k].data);
            Run(v, m, msgs).0 == if v.AsWritten? && OutbidThrows(before, d) then before else Monitor(Some(d))
  {
    var a, b := msgs[..k], msgs[k..];
    assert msgs == a + b;
    RunAppend(v, m, a, b);
    var before := Run(v, m, a).0;
    assert b[0] == msgs[k];
    var step := Handle(v, before, b[0]);
    var rest := b[1..];
    assert forall j :: 0 <= j < |rest| ==> rest[j] == msgs[k + 1 + j];
    RunIdle(v, step.0, rest);
    assert Run(v, before, b).0 == Run(v, step.0, rest).0;
  }

  /** Messages other than snapshots and logouts leave the slot alone and show nothing. */
  lemma {:induction false} RunIdle(v: Version, m: Monitor, msgs: seq<Message>)
    requires forall j :: 0 <= j < |msgs| ==> msgs[j].OtherAction?
    ensures Run(v, m, msgs).0 == m && Run(v, m, msgs).1 == []
    decreases |msgs|
  {
    if msgs != [] {
      var rest := msgs[1..];
      assert forall j :: 0 <= j < |rest| ==> rest[j] == msgs[j + 1];
      assert Handle(v, m, msgs[0]) == (m, []);
      RunIdle(v, m, rest);
      assert Run(v, m, msgs).0 == m;
      assert Run(v, m, msgs).1 == [] + [];
    }
  }

  /** After a logout the next snapshot is a silent baseline again, as written too. */
  lemma LogoutThenBaseline(v: Version, m: Monitor, data: LotData)
    ensures Run(v, m, [UserLoggedOut, AutoRefreshData(data)]).0 == Monitor(Some(Received(data)))
    ensures Run(v, m, [UserLoggedOut, AutoRefreshData(data)]).1 == [SessionEnded]
  {
    var cleared := Monitor(None);
    var one := [AutoRefreshData(data)];
    assert one[1..] == [];
    assert !OutbidThrows(cleared, Received(data));
    assert Handle(v, cleared, one[0]) == (Monitor(Some(Received(data))), []);
    assert Run(v, cleared, one).0 == Monitor(Some(Received(data)));
    assert Run(v, cleared, one).1 == [];
    var msgs := [UserLoggedOut, AutoRefreshData(data)];
    assert msgs[1..] == one;
    assert Handle(v, m, msgs[0]) == (cleared, [SessionEnded]);
    assert Run(v, m, msgs).1 == [SessionEnded] + [];
    assert [SessionEnded] + [] == [SessionEnded];
  }

  /** The content script's tick seen by the service worker: on a logout transition the only
      notification is the session-ended one and the slot ends up holding the new snapshot as a
      baseline. */
  lemma ContentLogoutTick(v: Version, m: Monitor, last: UserLogin, page: Page)
    requires last == LoginFlag(true) && page.userButton.Some? && Trim(page.userButton.value) == "LOGIN"
    ensures Run(v, m, ContentTick(last, page).0).0 == Monitor(Some(Received(ScrapeLotData(page))))
    ensures Run(v, m, ContentTick(last, page).0).1 == [SessionEnded]
  {
    var data := ScrapeLotData(page);
    assert LogoutSeen(last, data.isLoggedIn);
    assert ContentTick(last, page).0 == [UserLoggedOut, AutoRefreshData(data)];
    LogoutThenBaseline(v, m, data);
  }

  // ---------------------------------------------------------------------------------------
  // The defect in the outbid message

  /** As written, losing the top position to a snapshot without a price raises no outbid alert
      and keeps the stale snapshot, so the comparison after it is made against the old one. */
  lemma OutbidWithoutPriceAsWritten(prev: LotData, cur: LotData)
    requires prev.isYourBid && !cur.isYourBid && cur.currentPrice.None?
    ensures var r := CheckAsWritten(Monitor(Some(prev)), cur);
            r.0 == Monitor(Some(prev)) && (forall a :: a in r.1 ==> !a.Outbid?)
    ensures Outbid(None) in Check(Monitor(Some(prev)), cur).1
    ensures Check(Monitor(Some(prev)), cur).0 == Monitor(Some(cur))
  {
    assert Detect(prev, cur).outbid == Some(Outbid(None));
  }

  /** An Rp run that starts with a comma gives no digit to parseInt. */
  lemma CommaPriceIsNaN()
    ensures PriceOf("Rp,5") == Some(NaN) && !Contains("Rp,5", "(Anda)")
  {
    var t := "Rp,5";
    assert LeftmostMatch(t, "Rp", PriceChars, 0) by {
      assert t[0..2] == "Rp";
    }
    assert t[2..4] == ",5";
    CaptureAt(t, "Rp", PriceChars, 0, ",5");
    assert Remove(",5", '.') == ",5" by {
      assert ",5"[1..] == "5" && "5"[1..] == [];
    }
  }

  /** A highest-bid text whose Rp run starts with a comma scrapes as NaN, which reaches the
      worker as null: as written, losing the top position to it throws in the same way, while
      the corrected listener reports the outbid without a price. */
  lemma NaNPriceThrowsAsWritten(prev: LotData, page: Page)
    requires prev.isYourBid && page.highestBid == Some("Rp,5")
    ensures ScrapeLotData(page).currentPrice == Some(NaN)
    ensures Handle(AsWritten, Monitor(Some(prev)), AutoRefreshData(ScrapeLotData(page))) == (Monitor(Some(prev)), [])
    ensures Outbid(None) in Handle(Corrected, Monitor(Some(prev)), AutoRefreshData(ScrapeLotData(page))).1
  {
    assert Trim("Rp,5") == "Rp,5" by { TrimPlain("Rp,5"); }
    CommaPriceIsNaN();
    var d := Received(ScrapeLotData(page));
    assert d.currentPrice.None? && !d.isYourBid;
    assert OutbidThrows(Monitor(Some(prev)), d);
    assert Detect(prev, d).outbid == Some(Outbid(None));
  }
}
