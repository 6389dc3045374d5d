/**
 * The text-level part of the content script's page scrape (extension/content.js): the highest
 * bid, own-bid flag, bid history, lot details, login flag and auction id, computed from the
 * texts the DOM queries return, and the logout check of the 5-second loop.
 */
module Content {
  import opened Wrappers
  import opened Text
  import opened Js

  // ---------------------------------------------------------------------------------------
  // Prices

  /** The amount in a text: the group of /Rp([\d.,]+)/, dots removed, through parseInt.
      None is null (no match); a run with no leading digit gives NaN. */
  function PriceOf(text: string): (p: Option<Num>)
    ensures p.None? <==> forall i :: !MatchAt(text, "Rp", PriceChars, i)
    ensures match Capture(text, "Rp", PriceChars)
            case None => p.None?
            case Some(run) =>
              var u := Remove(run, '.');
              p == Some(if u != [] && IsDigit(u[0]) then Int(DecimalValue(LeadingDigits(u))) else NaN)
    ensures p.Some? && p.value.Int? ==> p.value.value >= 0
  {
    match Capture(text, "Rp", PriceChars)
    case None => None
    case Some(run) =>
      var u := Remove(run, '.');
      assert forall i :: 0 <= i < |u| ==> IsDigit(u[i]) || u[i] == ',' by {
        forall i | 0 <= i < |u| ensures IsDigit(u[i]) || u[i] == ',' {
          assert u[i] in u;
        }
      }
      ParseIntDigitsCommas(u);
      Some(ParseInt(u))
  }

  /** n left-padded with zeros to three digits: one thousands group. */
  function Group3(n: nat): (s: string)
    requires n < 1000
    ensures |s| == 3 && AllDigits(s) && DecimalValue(s) == n
  {
    var c0, c1, c2 := DigitChar(n / 100), DigitChar(n / 10 % 10), DigitChar(n % 10);
    assert [c0, c1, c2][..2] == [c0, c1] && [c0, c1][..1] == [c0] && [c0][..0] == [];
    assert DecimalValue([c0]) == n / 100;
    assert DecimalValue([c0, c1]) == 10 * (n / 100) + n / 10 % 10;
    [c0, c1, c2]
  }

  /** The page's way of writing an amount: decimal digits grouped in thousands by dots
      ("1.500.000"). */
  function Grouped(n: nat): string {
    if n < 1000 then NatToString(n) else Grouped(n / 1000) + "." + Group3(n % 1000)
  }

  lemma {:induction false} GroupedChars(n: nat)
    ensures var g := Grouped(n);
            |g| > 0 && IsDigit(g[0]) && forall i :: 0 <= i < |g| ==> InClass(g[i], PriceChars)
  {
    if n >= 1000 {
      GroupedChars(n / 1000);
      var a := Grouped(n / 1000);
      var b := Group3(n % 1000);
      var g := a + "." + b;
      assert Grouped(n) == g;
      forall i | 0 <= i < |g| ensures InClass(g[i], PriceChars) {
        if i < |a| { assert g[i] == a[i]; }
        else if i > |a| { assert g[i] == b[i - |a| - 1]; }
      }
    }
  }

  lemma {:induction false} GroupedDigits(n: nat)
    ensures var u := Remove(Grouped(n), '.');
            |u| > 0 && IsDigit(u[0]) && AllDigits(u) && DecimalValue(u) == n
  {
    if n < 1000 {
      var d := NatToString(n);
      assert '.' !in d;
      RemoveAbsent(d, '.');
    } else {
      GroupedDigits(n / 1000);
      var a := Grouped(n / 1000);
      var b := Group3(n % 1000);
      assert '.' !in b;
      assert a + "." + b == a + ("." + b);
      RemoveAppend(a, "." + b, '.');
      RemoveAppend(".", b, '.');
      RemoveAbsent(b, '.');
      assert Remove(".", '.') == [] by { assert "."[1..] == []; }
      var ra := Remove(a, '.');
      assert Remove(Grouped(n), '.') == ra + b;
      DecimalAppend(ra, b);
      var q, r := n / 1000, n % 1000;
      assert Pow10(3) == 1000;
      assert DecimalValue(ra + b) == q * 1000 + r;
      assert (ra + b)[0] == ra[0];
    }
  }

  /** Reading back a grouped amount gives the amount: the price parser inverts the page's
      thousands format. */
  lemma PriceOfGrouped(n: nat, rest: string)
    requires rest == [] || !InClass(rest[0], PriceChars)
    ensures PriceOf("Rp" + Grouped(n) + rest) == Some(Int(n))
  {
    var g := Grouped(n);
    var s := "Rp" + g + rest;
    GroupedChars(n);
    GroupedDigits(n);
    assert s[0..2] == "Rp";
    assert s[2] == g[0];
    assert LeftmostMatch(s, "Rp", PriceChars, 0);
    assert s[2..2 + |g|] == g;
    if rest != [] { assert s[2 + |g|] == rest[0]; }
    CaptureAt(s, "Rp", PriceChars, 0, g);
    var u := Remove(g, '.');
    LeadingDigitsOfDigits(u);
  }

  /** highestBidText.includes('(Anda)') when the text is non-empty, false otherwise. */
  function IsYourBid(highestBidText: Option<string>): (r: bool)
    ensures r <==> highestBidText.Some? && Contains(highestBidText.value, "(Anda)")
  {
    match highestBidText
    case None => false
    case Some(t) => |t| > 0 && Contains(t, "(Anda)")
  }

  /** The current price: null unless the highest-bid text is non-empty and matches. */
  function CurrentPriceOf(highestBidText: Option<string>): (p: Option<Num>)
    ensures p.Some? ==> highestBidText.Some? && exists i :: MatchAt(highestBidText.value, "Rp", PriceChars, i)
    ensures highestBidText.Some? ==> p == PriceOf(highestBidText.value)
  {
    match highestBidText
    case None => None
    case Some(t) => if |t| > 0 then PriceOf(t) else None
  }

  // ---------------------------------------------------------------------------------------
  // Bid history

  datatype HistoryEntry = HistoryEntry(price: Num, isYours: bool)

  /** The entry one history row contributes: none unless its trimmed text has an Rp price. */
  function EntryOf(row: string): (e: Option<HistoryEntry>)
    ensures e.Some? <==> exists i :: MatchAt(Trim(row), "Rp", PriceChars, i)
    ensures e.Some? ==> e.value.isYours == Contains(Trim(row), "(Anda)")
    ensures e.Some? ==> Some(e.value.price) == PriceOf(Trim(row))
  {
    var text := Trim(row);
    match PriceOf(text)
    case None => None
    case Some(n) => Some(HistoryEntry(n, Contains(text, "(Anda)")))
  }

  /** The rows with a price, in page order, each with its own (Anda) flag. */
  function BidHistory(rows: seq<string>): (h: seq<HistoryEntry>)
    ensures |h| <= |rows|
    ensures h == [] <==> forall i :: 0 <= i < |rows| ==> EntryOf(rows[i]).None?
    ensures forall j :: 0 <= j < |h| ==> exists i :: 0 <= i < |rows| && EntryOf(rows[i]) == Some(h[j])
  {
    FilterMap(EntryOf, rows)
  }

  /** The history of concatenated row lists is the concatenation of their histories. */
  lemma BidHistoryAppend(a: seq<string>, b: seq<string>)
    ensures BidHistory(a + b) == BidHistory(a) + BidHistory(b)
  {
    FilterMapAppend(EntryOf, a, b);
  }

  /** A single row contributes exactly its entry, or nothing when it has no price. */
  lemma BidHistorySingle(row: string)
    ensures BidHistory([row]) == match EntryOf(row) case None => [] case Some(e) => [e]
  {
    assert [row][1..] == [];
  }

  // ---------------------------------------------------------------------------------------
  // Lot details

  /** One detail row: the texts of its caption (p.font-medium) and value container, None when
      the element is missing. */
  datatype DetailRow = DetailRow(caption: Option<string>, value: Option<string>)

  /** The lot-detail fields the rest of the system reads. None covers both null and undefined. */
  datatype Details = Details(kode: Option<string>, nilaiLimit: Option<Num>, nilaiLimitText: Option<string>)

  predicate HasLabel(row: DetailRow, caption: string) {
    row.caption.Some? && row.value.Some? && Trim(row.caption.value) == caption
  }

  /** The rows searched: the primary selector's, else the alternative selector's, else the
      disclosure panel's when there is one. */
  function DetailRows(primary: seq<DetailRow>, alternative: seq<DetailRow>, panel: Option<seq<DetailRow>>): (rows: seq<DetailRow>)
    ensures |primary| > 0 ==> rows == primary
    ensures |primary| == 0 && |alternative| > 0 ==> rows == alternative
    ensures |primary| == 0 && |alternative| == 0 ==> rows == panel.GetOr([])
  {
    if |primary| > 0 then primary
    else if |alternative| > 0 then alternative
    else if panel.Some? then panel.value
    else alternative
  }

  function ApplyRow(d: Details, row: DetailRow): Details {
    if row.caption.None? || row.value.None? then d
    else
      var caption := Trim(row.caption.value);
      var value := Trim(row.value.value);
      if caption == "Kode" then d.(kode := Some(value))
      else if caption == "Nilai Limit" then d.(nilaiLimit := PriceOf(value), nilaiLimitText := Some(value))
      else d
  }

  /** A row sets the code only when captioned Kode, and the limit text only when captioned
      Nilai Limit. */
  lemma ApplyRowFields(d: Details, row: DetailRow)
    ensures ApplyRow(d, row).kode
            == if HasLabel(row, "Kode") then Some(Trim(row.value.value)) else d.kode
    ensures ApplyRow(d, row).nilaiLimitText
            == if HasLabel(row, "Nilai Limit") then Some(Trim(row.value.value)) else d.nilaiLimitText
  {
    assert "Kode" != "Nilai Limit" by { assert |"Kode"| != |"Nilai Limit"|; }
  }

  /** The details after visiting the rows in order; a later row overwrites an earlier one. */
  function LotDetails(rows: seq<DetailRow>): (d: Details)
    ensures d.nilaiLimit.Some? ==> d.nilaiLimitText.Some?
  {
    if rows == [] then Details(None, None, None)
    else ApplyRow(LotDetails(rows[..|rows| - 1]), rows[|rows| - 1])
  }

  /** The index of the last row with the given caption and a value container, if any. */
  function LastLabelled(rows: seq<DetailRow>, caption: string): (r: Option<nat>)
    ensures r.None? <==> forall i :: 0 <= i < |rows| ==> !HasLabel(rows[i], caption)
    ensures r.Some? ==> r.value < |rows| && HasLabel(rows[r.value], caption)
                        && forall j :: r.value < j < |rows| ==> !HasLabel(rows[j], caption)
  {
    if rows == [] then None
    else if HasLabel(rows[|rows| - 1], caption) then Some(|rows| - 1)
    else LastLabelled(rows[..|rows| - 1], caption)
  }

  /** The trimmed value text of that last row. */
  function ValueOfLast(rows: seq<DetailRow>, caption: string): Option<string> {
    match LastLabelled(rows, caption)
    case None => None
    case Some(i) => Some(Trim(rows[i].value.value))
  }

  /** The code is the value of the last row captioned Kode. */
  lemma {:induction false} LotDetailsKode(rows: seq<DetailRow>)
    ensures LotDetails(rows).kode == ValueOfLast(rows, "Kode")
  {
    if rows != [] {
      var init, last := rows[..|rows| - 1], rows[|rows| - 1];
      LotDetailsKode(init);
      ApplyRowFields(LotDetails(init), last);
      assert LotDetails(rows) == ApplyRow(LotDetails(init), last);
      if HasLabel(last, "Kode") {
        assert ValueOfLast(rows, "Kode") == Some(Trim(last.value.value));
      } else {
        assert ValueOfLast(rows, "Kode") == ValueOfLast(init, "Kode") by {
          assert LastLabelled(rows, "Kode") == LastLabelled(init, "Kode");
          var r := LastLabelled(init, "Kode");
          if r.Some? { assert rows[r.value] == init[r.value]; }
        }
      }
    }
  }

  /** The limit text is the value of the last row captioned Nilai Limit. */
  lemma {:induction false} LotDetailsLimitText(rows: seq<DetailRow>)
    ensures LotDetails(rows).nilaiLimitText == ValueOfLast(rows, "Nilai Limit")
  {
    if rows != [] {
      var init, last := rows[..|rows| - 1], rows[|rows| - 1];
      LotDetailsLimitText(init);
      ApplyRowFields(LotDetails(init), last);
      assert LotDetails(rows) == ApplyRow(LotDetails(init), last);
      if HasLabel(last, "Nilai Limit") {
        assert ValueOfLast(rows, "Nilai Limit") == Some(Trim(last.value.value));
      } else {
        assert ValueOfLast(rows, "Nilai Limit") == ValueOfLast(init, "Nilai Limit") by {
          assert LastLabelled(rows, "Nilai Limit") == LastLabelled(init, "Nilai Limit");
          var r := LastLabelled(init, "Nilai Limit");
          if r.Some? { assert rows[r.value] == init[r.value]; }
        }
      }
    }
  }

  /** The limit price is always the Rp parse of the limit text kept beside it, and null
      when there is no limit row. */
  lemma {:induction false} LotDetailsLimitPrice(rows: seq<DetailRow>)
    ensures var d := LotDetails(rows);
            d.nilaiLimit == match d.nilaiLimitText case None => None case Some(t) => PriceOf(t)
  {
    if rows != [] {
      LotDetailsLimitPrice(rows[..|rows| - 1]);
    }
  }

  // ---------------------------------------------------------------------------------------
  // Login flag and auction id

  /** userName && userName !== 'LOGIN': null for no user element, '' for an empty name,
      otherwise a boolean. */
  datatype UserLogin = NoUserName | EmptyUserName | LoginFlag(loggedIn: bool)

  function LoginOf(userName: Option<string>): (r: UserLogin)
    ensures r == LoginFlag(false) <==> userName == Some("LOGIN")
    ensures r == LoginFlag(true) <==> userName.Some? && userName.value != "" && userName.value != "LOGIN"
    ensures r == NoUserName <==> userName.None?
  {
    match userName
    case None => NoUserName
    case Some(n) => if n == "" then EmptyUserName else LoginFlag(n != "LOGIN")
  }

  const DetailPath: string := "detail-open-bidding/"

  /** The group of /detail-open-bidding\/([a-f0-9-]+)/ in the page URL, or null. */
  function AuctionUuid(url: string): (r: Option<string>)
    ensures r.None? <==> forall i :: !MatchAt(url, DetailPath, IdChars, i)
    ensures r.Some? ==> |r.value| > 0 && forall j :: 0 <= j < |r.value| ==> InClass(r.value[j], IdChars)
  {
    Capture(url, DetailPath, IdChars)
  }

  /** The id written after the first detail-open-bidding/ of a URL is the one extracted. */
  lemma AuctionUuidOfUrl(p: string, id: string, rest: string)
    requires !Contains(p + DetailPath[..|DetailPath| - 1], DetailPath)
    requires id != [] && forall j :: 0 <= j < |id| ==> InClass(id[j], IdChars)
    requires rest == [] || !InClass(rest[0], IdChars)
    ensures AuctionUuid(p + DetailPath + id + rest) == Some(id)
  {
    var s := p + DetailPath + id + rest;
    var q := p + DetailPath[..|DetailPath| - 1];
    var L := |DetailPath|;
    forall j | 0 <= j < |p| ensures !MatchAt(s, DetailPath, IdChars, j) {
      if MatchAt(s, DetailPath, IdChars, j) {
        assert s[..|q|] == q;
        OccursInPrefix(s, q, DetailPath, j);
        assert false;
      }
    }
    assert s[|p|..|p| + L] == DetailPath;
    assert s[|p| + L] == id[0];
    assert LeftmostMatch(s, DetailPath, IdChars, |p|);
    assert s[|p| + L..|p| + L + |id|] == id;
    if rest != [] { assert s[|p| + L + |id|] == rest[0]; }
    CaptureAt(s, DetailPath, IdChars, |p|, id);
  }

  // ---------------------------------------------------------------------------------------
  // The scrape

  /** What the DOM queries return, as raw element texts (None: no element). */
  datatype Page = Page(
    countdown: Option<string>,
    highestBid: Option<string>,
    historyRows: seq<string>,
    detailRows: seq<DetailRow>,
    altDetailRows: seq<DetailRow>,
    panelRows: Option<seq<DetailRow>>,
    userButton: Option<string>,
    url: string)

  /** The scraped lot snapshot the content script sends to the service worker. */
  datatype LotData = LotData(
    isLoggedIn: UserLogin,
    userName: Option<string>,
    auctionUuid: Option<string>,
    countdown: Option<string>,
    currentPrice: Option<Num>,
    highestBidText: Option<string>,
    isYourBid: bool,
    bidHistory: seq<HistoryEntry>,
    kode: Option<string>,
    nilaiLimit: Option<Num>,
    nilaiLimitText: Option<string>)

  /** element ? element.textContent.trim() : null */
  function TextOf(element: Option<string>): Option<string> {
    match element
    case None => None
    case Some(t) => Some(Trim(t))
  }

  function ScrapeLotData(page: Page): (d: LotData)
    ensures d.currentPrice.Some? ==> d.highestBidText.Some?
    ensures d.isYourBid ==> d.highestBidText.Some? && Contains(d.highestBidText.value, "(Anda)")
    ensures d.isLoggedIn == LoginFlag(false) <==> page.userButton.Some? && Trim(page.userButton.value) == "LOGIN"
    ensures d.highestBidText.None? <==> page.highestBid.None?
  {
    var highest := TextOf(page.highestBid);
    var details := LotDetails(DetailRows(page.detailRows, page.altDetailRows, page.panelRows));
    var userName := TextOf(page.userButton);
    LotData(
      LoginOf(userName), userName, AuctionUuid(page.url), TextOf(page.countdown),
      CurrentPriceOf(highest), highest, IsYourBid(highest), BidHistory(page.historyRows),
      details.kode, details.nilaiLimit, details.nilaiLimitText)
  }

  /** The scrape does not keep price and own-bid flag together: a highest-bid text with
      (Anda) and no Rp amount yields an own bid without a price. */
  lemma OwnBidWithoutPrice(page: Page)
    requires page.highestBid == Some("(Anda)")
    ensures ScrapeLotData(page).isYourBid && ScrapeLotData(page).currentPrice.None?
  {
    var t := "(Anda)";
    assert Trim(t) == t;
    assert OccursAt(t, "(Anda)", 0);
    forall i ensures !MatchAt(t, "Rp", PriceChars, i) {
      if MatchAt(t, "Rp", PriceChars, i) {
        assert false;
      }
    }
  }

  // ---------------------------------------------------------------------------------------
  // The 5-second loop

  /** The messages the content script sends to the service worker. */
  datatype Message = AutoRefreshData(data: LotData) | UserLoggedOut | OtherAction

  /** lastLoginStatus === true && data.isLoggedIn === false */
  predicate LogoutSeen(last: UserLogin, current: UserLogin) {
    last == LoginFlag(true) && current == LoginFlag(false)
  }

  /** One tick: scrape, send the logout message on a true-to-false transition, remember the
      new flag, and send the snapshot. The initial lastLoginStatus (null) is NoUserName. */
  function ContentTick(last: UserLogin, page: Page): (r: (seq<Message>, UserLogin))
    ensures r.1 == ScrapeLotData(page).isLoggedIn
    ensures UserLoggedOut in r.0 <==>
              last == LoginFlag(true) && page.userButton.Some? && Trim(page.userButton.value) == "LOGIN"
    ensures |r.0| > 0 && r.0[|r.0| - 1] == AutoRefreshData(ScrapeLotData(page))
  {
    var data := ScrapeLotData(page);
    var logout := if LogoutSeen(last, data.isLoggedIn) then [UserLoggedOut] else [];
    (logout + [AutoRefreshData(data)], data.isLoggedIn)
  }

  /** Ticks over a sequence of page states: all messages sent, and the final remembered flag. */
  function ContentRun(last: UserLogin, pages: seq<Page>): (r: (seq<Message>, UserLogin))
    ensures |pages| <= |r.0| <= 2 * |pages|
    ensures pages != [] ==> r.0[|r.0| - 1].AutoRefreshData?
    decreases |pages|
  {
    if pages == [] then ([], last)
    else
      var tick := ContentTick(last, pages[0]);
      var rest := ContentRun(tick.1, pages[1..]);
      var all := tick.0 + rest.0;
      assert rest.0 != [] ==> all[|all| - 1] == rest.0[|rest.0| - 1];
      (all, rest.1)
  }

  /** After a run the remembered flag is that of the last page, whatever came before. */
  lemma {:induction false} ContentRunRemembersLast(last: UserLogin, pages: seq<Page>)
    requires pages != []
    ensures ContentRun(last, pages).1 == LoginOf(TextOf(pages[|pages| - 1].userButton))
    decreases |pages|
  {
    var t := ContentTick(last, pages[0]);
    var rest := pages[1..];
    assert ContentRun(last, pages).1 == ContentRun(t.1, rest).1;
    if rest == [] {
      assert ContentRun(t.1, rest).1 == t.1;
    } else {
      ContentRunRemembersLast(t.1, rest);
      assert rest[|rest| - 1] == pages[|pages| - 1];
    }
  }
}
