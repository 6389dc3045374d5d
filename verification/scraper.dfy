/**
 * The scraper helpers (extension/content-scraper.js): the bidding PIN with its selector
 * precedence and copy-button fallback, the current price, and the lot code, over the texts
 * the DOM queries return.
 */
module Scraper {
  import opened Wrappers
  import opened Text
  import opened Js
  import opened Content

  // ---------------------------------------------------------------------------------------
  // getPasskey

  /** The PIN one element contributes: the first six consecutive digits of a text that
      mentions PIN Bidding; nothing otherwise. */
  function PinOf(text: string): (r: Option<string>)
    ensures r.Some? ==> Contains(text, "PIN Bidding") && |r.value| == 6 && AllDigits(r.value)
    ensures Contains(text, "PIN Bidding") ==> r == SixDigits(text)
  {
    if Contains(text, "PIN Bidding") then SixDigits(text) else None
  }

  /** The index of the last element that provides a PIN. */
  function LastPinAt(texts: seq<string>): (r: Option<nat>)
    ensures r.None? <==> forall i :: 0 <= i < |texts| ==> PinOf(texts[i]).None?
    ensures r.Some? ==> r.value < |texts| && PinOf(texts[r.value]).Some?
                        && forall j :: r.value < j < |texts| ==> PinOf(texts[j]).None?
  {
    if texts == [] then None
    else if PinOf(texts[|texts| - 1]).Some? then Some(|texts| - 1)
    else
      var init := texts[..|texts| - 1];
      assert forall i :: 0 <= i < |init| ==> init[i] == texts[i];
      LastPinAt(init)
  }

  /** The PIN left by one selector's forEach: the last element that provides one wins. */
  function LastPin(texts: seq<string>): (r: Option<string>)
    ensures r.None? <==> forall i :: 0 <= i < |texts| ==> PinOf(texts[i]).None?
    ensures r.Some? ==> exists i :: 0 <= i < |texts| && PinOf(texts[i]) == r
                                    && forall j :: i < j < |texts| ==> PinOf(texts[j]).None?
  {
    match LastPinAt(texts)
    case None => None
    case Some(i) => PinOf(texts[i])
  }

  /** A button element: its text and the text of its closest detail-row ancestor, if any. */
  datatype Button = Button(text: string, container: Option<string>)

  /** The index of the first button whose text mentions Salin PIN Bidding (Array.find). */
  function FirstCopyButton(buttons: seq<Button>): (r: Option<nat>)
    ensures r.None? <==> forall i :: 0 <= i < |buttons| ==> !Contains(buttons[i].text, "Salin PIN Bidding")
    ensures r.Some? ==> r.value < |buttons| && Contains(buttons[r.value].text, "Salin PIN Bidding")
                        && forall j :: 0 <= j < r.value ==> !Contains(buttons[j].text, "Salin PIN Bidding")
  {
    if buttons == [] then None
    else if Contains(buttons[0].text, "Salin PIN Bidding") then Some(0)
    else
      match FirstCopyButton(buttons[1..])
      case None => None
      case Some(i) =>
        assert forall j :: 1 <= j < |buttons| ==> buttons[1..][j - 1] == buttons[j];
        Some(i + 1)
  }

  /** The fallback: the first six digits anywhere in the first copy button's row. The row text
      need not mention PIN Bidding. */
  function CopyButtonPin(buttons: seq<Button>): (r: Option<string>)
    ensures r.Some? ==> |r.value| == 6 && AllDigits(r.value)
    ensures r.Some? ==> FirstCopyButton(buttons).Some?
                        && buttons[FirstCopyButton(buttons).value].container.Some?
                        && r == SixDigits(buttons[FirstCopyButton(buttons).value].container.value)
    ensures FirstCopyButton(buttons).Some? && buttons[FirstCopyButton(buttons).value].container.Some? ==>
              r == SixDigits(buttons[FirstCopyButton(buttons).value].container.value)
  {
    match FirstCopyButton(buttons)
    case None => None
    case Some(i) =>
      match buttons[i].container
      case None => None
      case Some(t) => SixDigits(t)
  }

  /** One selector's forEach: every element with a PIN overwrites the passkey. */
  method SelectorPin(elements: seq<string>) returns (passkey: Option<string>)
    ensures passkey == LastPin(elements)
  {
    passkey := None;
    var i := 0;
    while i < |elements|
      invariant 0 <= i <= |elements|
      invariant passkey == LastPin(elements[..i])
    {
      var prefix := elements[..i + 1];
      assert prefix[..i] == elements[..i] && prefix[i] == elements[i];
      var pin := PinOf(elements[i]);
      if pin.Some? {
        assert LastPinAt(prefix) == Some(i);
        assert LastPin(prefix) == pin;
        passkey := pin;
      } else {
        assert LastPinAt(prefix) == LastPinAt(elements[..i]);
        assert LastPin(prefix) == LastPin(elements[..i]);
      }
      i := i + 1;
    }
    assert elements[..i] == elements;
  }

  /** getPasskey: the selectors are tried in order and the first one whose elements give a PIN
      decides; only when none does is the copy button consulted. */
  method GetPasskey(selectors: seq<seq<string>>, buttons: seq<Button>) returns (passkey: Option<string>)
    ensures passkey.Some? ==> |passkey.value| == 6 && AllDigits(passkey.value)
    ensures (exists k :: 0 <= k < |selectors| && LastPin(selectors[k]).Some?) ==>
              exists k :: 0 <= k < |selectors| && passkey == LastPin(selectors[k])
                          && forall j :: 0 <= j < k ==> LastPin(selectors[j]).None?
    ensures (forall k :: 0 <= k < |selectors| ==> LastPin(selectors[k]).None?) ==>
              passkey == CopyButtonPin(buttons)
  {
    var k := 0;
    while k < |selectors|
      invariant 0 <= k <= |selectors|
      invariant forall j :: 0 <= j < k ==> LastPin(selectors[j]).None?
    {
      passkey := SelectorPin(selectors[k]);
      if passkey.Some? {
        return;
      }
      k := k + 1;
    }
    passkey := CopyButtonPin(buttons);
  }

  // ---------------------------------------------------------------------------------------
  // getCurrentPrice and getLotCode

  /** getCurrentPrice: null without the element or an Rp match, else the dot-stripped parse of
      the trimmed text. */
  function GetCurrentPrice(element: Option<string>): (p: Option<Num>)
    ensures element.None? ==> p.None?
    ensures element.Some? ==> p == PriceOf(Trim(element.value))
  {
    match element
    case None => None
    case Some(t) => PriceOf(Trim(t))
  }

  /** The scraper's price agrees with the content script's, including the empty text. */
  lemma CurrentPriceAgrees(element: Option<string>)
    ensures GetCurrentPrice(element) == CurrentPriceOf(TextOf(element))
  {
    if element.Some? && Trim(element.value) == [] {
      assert PriceOf([]).None?;
    }
  }

  /** getLotCode: visits the detail rows in order, keeping the value of every row captioned
      Kode that has a value container, so the last such row wins. */
  method GetLotCode(rows: seq<DetailRow>) returns (kode: Option<string>)
    ensures kode.None? <==> forall i :: 0 <= i < |rows| ==> !HasLabel(rows[i], "Kode")
    ensures kode.Some? ==> exists i :: 0 <= i < |rows| && HasLabel(rows[i], "Kode")
                                       && kode.value == Trim(rows[i].value.value)
                                       && forall j :: i < j < |rows| ==> !HasLabel(rows[j], "Kode")
    ensures kode == ValueOfLast(rows, "Kode")
  {
    kode := None;
    var i := 0;
    while i < |rows|
      invariant 0 <= i <= |rows|
      invariant kode == ValueOfLast(rows[..i], "Kode")
    {
      var prefix := rows[..i + 1];
      assert prefix[..i] == rows[..i];
      assert prefix[i] == rows[i];
      var row := rows[i];
      if row.caption.Some? && Trim(row.caption.value) == "Kode" {
        if row.value.Some? {
          kode := Some(Trim(row.value.value));
        }
      }
      if !HasLabel(rows[i], "Kode") {
        var r := LastLabelled(rows[..i], "Kode");
        if r.Some? { assert prefix[r.value] == rows[..i][r.value]; }
      }
      i := i + 1;
    }
    assert rows[..i] == rows;
    var r := LastLabelled(rows, "Kode");
    if r.Some? { assert HasLabel(rows[r.value], "Kode"); }
  }

  /** When the primary detail selector finds rows, the scraper's lot code and the content
      script's agree. */
  lemma LotCodeAgrees(primary: seq<DetailRow>, alternative: seq<DetailRow>, panel: Option<seq<DetailRow>>)
    requires |primary| > 0
    ensures ValueOfLast(primary, "Kode") == LotDetails(DetailRows(primary, alternative, panel)).kode
  {
    LotDetailsKode(primary);
  }
}
