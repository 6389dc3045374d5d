/**
 * The bot's per-chat session map (server/server.js): the four setter commands, each storing one
 * trimmed capture group in one field of the chat's session, and the /status guard that refuses
 * a chat without an auction id. Telegram delivery and replies are left out; a message is its
 * chat id and text.
 */
module Sessions {
  import opened Wrappers
  import opened Text

  type ChatId = int

  /** A session object: every field undefined until its setter runs. */
  datatype Session = Session(bearerToken: Option<string>, cookies: Option<string>,
                             auctionId: Option<string>, passBidding: Option<string>)

  /** The `{}` a setter creates for a chat without a session. */
  const Empty: Session := Session(None, None, None, None)

  datatype Field = BearerToken | Cookies | AuctionId | PassBidding

  function FieldOf(s: Session, f: Field): Option<string> {
    match f
    case BearerToken => s.bearerToken
    case Cookies => s.cookies
    case AuctionId => s.auctionId
    case PassBidding => s.passBidding
  }

  /** session[f] = v */
  function With(s: Session, f: Field, v: string): (r: Session)
    ensures FieldOf(r, f) == Some(v)
    ensures forall g :: g != f ==> FieldOf(r, g) == FieldOf(s, g)
  {
    match f
    case BearerToken => s.(bearerToken := Some(v))
    case Cookies => s.(cookies := Some(v))
    case AuctionId => s.(auctionId := Some(v))
    case PassBidding => s.(passBidding := Some(v))
  }

  /** Sessions are equal when all their fields are. */
  lemma SessionExt(a: Session, b: Session)
    requires forall f :: FieldOf(a, f) == FieldOf(b, f)
    ensures a == b
  {
    assert FieldOf(a, BearerToken) == FieldOf(b, BearerToken);
    assert FieldOf(a, Cookies) == FieldOf(b, Cookies);
    assert FieldOf(a, AuctionId) == FieldOf(b, AuctionId);
    assert FieldOf(a, PassBidding) == FieldOf(b, PassBidding);
  }

  /** userSessions */
  type Store = map<ChatId, Session>

  /** userSessions.get(chatId), or the fresh `{}` when there is none. */
  function SessionOf(store: Store, chat: ChatId): Session {
    if chat in store then store[chat] else Empty
  }

  /** The shared body of the setters: create the session if absent, then assign one field. */
  function Set(store: Store, chat: ChatId, f: Field, v: string): (r: Store)
    ensures r.Keys == store.Keys + {chat}
    ensures FieldOf(r[chat], f) == Some(v)
    ensures forall g :: g != f ==> FieldOf(r[chat], g) == FieldOf(SessionOf(store, chat), g)
    ensures forall c :: c in store && c != chat ==> r[c] == store[c]
  {
    store[chat := With(SessionOf(store, chat), f, v)]
  }

  /** Setting two different fields, or fields of two different chats, commutes. */
  lemma SetCommutes(store: Store, c1: ChatId, f1: Field, v1: string, c2: ChatId, f2: Field, v2: string)
    requires c1 != c2 || f1 != f2
    ensures Set(Set(store, c1, f1, v1), c2, f2, v2) == Set(Set(store, c2, f2, v2), c1, f1, v1)
  {
    var a := Set(Set(store, c1, f1, v1), c2, f2, v2);
    var b := Set(Set(store, c2, f2, v2), c1, f1, v1);
    assert a.Keys == b.Keys;
    forall c | c in a.Keys
      ensures a[c] == b[c]
    {
      forall f
        ensures FieldOf(a[c], f) == FieldOf(b[c], f)
      {
      }
      SessionExt(a[c], b[c]);
    }
  }

  /** Setting a field twice keeps only the second value. */
  lemma SetOverwrites(store: Store, chat: ChatId, f: Field, v1: string, v2: string)
    ensures Set(Set(store, chat, f, v1), chat, f, v2) == Set(store, chat, f, v2)
  {
    var a := Set(Set(store, chat, f, v1), chat, f, v2);
    var b := Set(store, chat, f, v2);
    forall g
      ensures FieldOf(a[chat], g) == FieldOf(b[chat], g)
    {
    }
    SessionExt(a[chat], b[chat]);
    assert a.Keys == b.Keys;
  }

  // ---------------------------------------------------------------------------------------
  // The setter commands

  datatype Command = SetToken | SetCookies | SetAuction | SetPassBidding

  /** The literal part of each handler's expression: /\/settoken (.+)/ and so on. */
  function Prefix(cmd: Command): string {
    match cmd
    case SetToken => "/settoken "
    case SetCookies => "/setcookies "
    case SetAuction => "/setauction "
    case SetPassBidding => "/setPassBidding "
  }

  /** The class of the capture group: [a-f0-9-]+ for /setauction, .+ for the others. */
  function GroupClass(cmd: Command): CharClass {
    if cmd == SetAuction then IdChars else LineChars
  }

  function Target(cmd: Command): Field {
    match cmd
    case SetToken => BearerToken
    case SetCookies => Cookies
    case SetAuction => AuctionId
    case SetPassBidding => PassBidding
  }

  /** The value a command's handler would store for a message: its trimmed capture group, or
      None when the expression does not match and the handler does not run. */
  function Argument(cmd: Command, text: string): (a: Option<string>)
    ensures a.None? <==> forall i :: !MatchAt(text, Prefix(cmd), GroupClass(cmd), i)
    ensures cmd == SetAuction && a.Some? ==>
              |a.value| > 0 && forall j :: 0 <= j < |a.value| ==> InClass(a.value[j], IdChars)
  {
    match Capture(text, Prefix(cmd), GroupClass(cmd))
    case None => None
    case Some(g) =>
      if cmd == SetAuction then
        TrimPlain(g);
        Some(Trim(g))
      else Some(Trim(g))
  }

  /** One setter handler on one message. */
  function HandleSetter(store: Store, chat: ChatId, cmd: Command, text: string): (r: Store)
    ensures Argument(cmd, text).None? ==> r == store
    ensures Argument(cmd, text).Some? ==>
              r.Keys == store.Keys + {chat}
              && FieldOf(r[chat], Target(cmd)) == Argument(cmd, text)
              && (forall g :: g != Target(cmd) ==> FieldOf(r[chat], g) == FieldOf(SessionOf(store, chat), g))
              && (forall c :: c in store && c != chat ==> r[c] == store[c])
  {
    match Argument(cmd, text)
    case None => store
    case Some(v) => Set(store, chat, Target(cmd), v)
  }

  /** What one handler leaves in a field of the chat's session. */
  lemma SetterField(store: Store, chat: ChatId, cmd: Command, text: string, g: Field)
    ensures FieldOf(SessionOf(HandleSetter(store, chat, cmd, text), chat), g)
            == if g == Target(cmd) && Argument(cmd, text).Some? then Argument(cmd, text)
               else FieldOf(SessionOf(store, chat), g)
  {
  }

  /** One handler leaves every other chat alone. */
  lemma SetterOthers(store: Store, chat: ChatId, cmd: Command, text: string)
    ensures var r := HandleSetter(store, chat, cmd, text);
            forall c :: c != chat ==> (c in r <==> c in store) && (c in store ==> r[c] == store[c])
  {
  }

  /** After the four handlers in turn, a command's field holds its argument when it matched
      and is kept otherwise: the other handlers write other fields. */
  lemma SettersField(store: Store, chat: ChatId, text: string, cmd: Command)
    ensures var s1 := HandleSetter(store, chat, SetToken, text);
            var s2 := HandleSetter(s1, chat, SetCookies, text);
            var s3 := HandleSetter(s2, chat, SetAuction, text);
            var s4 := HandleSetter(s3, chat, SetPassBidding, text);
            FieldOf(SessionOf(s4, chat), Target(cmd))
            == if Argument(cmd, text).Some? then Argument(cmd, text)
               else FieldOf(SessionOf(store, chat), Target(cmd))
  {
    var s1 := HandleSetter(store, chat, SetToken, text);
    var s2 := HandleSetter(s1, chat, SetCookies, text);
    var s3 := HandleSetter(s2, chat, SetAuction, text);
    var g := Target(cmd);
    SetterField(store, chat, SetToken, text, g);
    SetterField(s1, chat, SetCookies, text, g);
    SetterField(s2, chat, SetAuction, text, g);
    SetterField(s3, chat, SetPassBidding, text, g);
    match cmd
    case SetToken =>
    case SetCookies =>
    case SetAuction =>
    case SetPassBidding =>
  }

  /** Every handler whose expression matches runs on the message, in registration order: each
      field of the chat's session holds its command's argument when that command matches and
      is kept otherwise, and no other chat changes. */
  function HandleMessage(store: Store, chat: ChatId, text: string): (r: Store)
    ensures forall cmd :: FieldOf(SessionOf(r, chat), Target(cmd))
                          == if Argument(cmd, text).Some? then Argument(cmd, text)
                             else FieldOf(SessionOf(store, chat), Target(cmd))
    ensures forall c :: c != chat ==> (c in r <==> c in store) && (c in store ==> r[c] == store[c])
  {
    var s1 := HandleSetter(store, chat, SetToken, text);
    var s2 := HandleSetter(s1, chat, SetCookies, text);
    var s3 := HandleSetter(s2, chat, SetAuction, text);
    var s4 := HandleSetter(s3, chat, SetPassBidding, text);
    assert forall cmd :: FieldOf(SessionOf(s4, chat), Target(cmd))
                         == if Argument(cmd, text).Some? then Argument(cmd, text)
                            else FieldOf(SessionOf(store, chat), Target(cmd)) by {
      forall cmd
        ensures FieldOf(SessionOf(s4, chat), Target(cmd))
                == if Argument(cmd, text).Some? then Argument(cmd, text)
                   else FieldOf(SessionOf(store, chat), Target(cmd))
      {
        SettersField(store, chat, text, cmd);
      }
    }
    assert forall c :: c != chat ==> (c in s4 <==> c in store) && (c in store ==> s4[c] == store[c]) by {
      SetterOthers(store, chat, SetToken, text);
      SetterOthers(s1, chat, SetCookies, text);
      SetterOthers(s2, chat, SetAuction, text);
      SetterOthers(s3, chat, SetPassBidding, text);
    }
    s4
  }

  /** The handlers touch different fields, so the order they run in does not matter: running
      them in reverse gives the same sessions. */
  lemma HandlerOrderIrrelevant(store: Store, chat: ChatId, text: string)
    ensures HandleMessage(store, chat, text)
            == HandleSetter(HandleSetter(HandleSetter(HandleSetter(store, chat, SetPassBidding, text),
                                                      chat, SetAuction, text), chat, SetCookies, text),
                            chat, SetToken, text)
  {
    // Bubble the last handler to the front, then the next, by swapping neighbours.
    var t := HandleSetter(store, chat, SetToken, text);
    var tc := HandleSetter(t, chat, SetCookies, text);
    HandlersCommute(tc, chat, SetAuction, SetPassBidding, text);
    HandlersCommute(t, chat, SetCookies, SetPassBidding, text);
    var p := HandleSetter(store, chat, SetPassBidding, text);
    HandlersCommute(store, chat, SetToken, SetPassBidding, text);
    var pt := HandleSetter(p, chat, SetToken, text);
    HandlersCommute(pt, chat, SetCookies, SetAuction, text);
    HandlersCommute(p, chat, SetToken, SetAuction, text);
    var pa := HandleSetter(p, chat, SetAuction, text);
    HandlersCommute(pa, chat, SetToken, SetCookies, text);
  }

  /** Two different setter handlers commute on any message. */
  lemma HandlersCommute(store: Store, chat: ChatId, c1: Command, c2: Command, text: string)
    requires c1 != c2
    ensures HandleSetter(HandleSetter(store, chat, c1, text), chat, c2, text)
            == HandleSetter(HandleSetter(store, chat, c2, text), chat, c1, text)
  {
    var a1, a2 := Argument(c1, text), Argument(c2, text);
    var s1, s2 := HandleSetter(store, chat, c1, text), HandleSetter(store, chat, c2, text);
    if a1.Some? && a2.Some? {
      var f1, f2 := Target(c1), Target(c2);
      SetterSets(store, chat, c1, text);
      SetterSets(store, chat, c2, text);
      SetterSets(s1, chat, c2, text);
      SetterSets(s2, chat, c1, text);
      SetCommutes(store, chat, f1, a1.value, chat, f2, a2.value);
    }
  }

  /** A handler whose expression matches stores its argument with Set. */
  lemma SetterSets(store: Store, chat: ChatId, cmd: Command, text: string)
    ensures Argument(cmd, text).Some? ==>
              HandleSetter(store, chat, cmd, text) == Set(store, chat, Target(cmd), Argument(cmd, text).value)
  {
  }

  /** A message /setauction followed by an id stores exactly that id. */
  lemma SetAuctionStores(store: Store, chat: ChatId, id: string)
    requires |id| > 0 && forall j :: 0 <= j < |id| ==> InClass(id[j], IdChars)
    ensures HandleSetter(store, chat, SetAuction, "/setauction " + id) == Set(store, chat, AuctionId, id)
  {
    var text := "/setauction " + id;
    assert text[..|Prefix(SetAuction)|] == Prefix(SetAuction);
    assert text[|Prefix(SetAuction)|..] == id;
    assert LeftmostMatch(text, Prefix(SetAuction), IdChars, 0);
    CaptureAt(text, Prefix(SetAuction), IdChars, 0, id);
    TrimPlain(id);
  }

  // ---------------------------------------------------------------------------------------
  // /status

  /** `if (!session || !session.auctionId)`: /status proceeds only for a chat whose session
      holds a non-empty auction id. */
  predicate StatusProceeds(store: Store, chat: ChatId) {
    chat in store && store[chat].auctionId.Some? && store[chat].auctionId.value != ""
  }

  /** Once /setauction has stored an id, /status proceeds for that chat; the other setters
      never change whether it does. */
  lemma StatusAfterSetters(store: Store, chat: ChatId, cmd: Command, text: string)
    ensures cmd == SetAuction && Argument(cmd, text).Some? ==> StatusProceeds(HandleSetter(store, chat, cmd, text), chat)
    ensures cmd != SetAuction ==> (StatusProceeds(HandleSetter(store, chat, cmd, text), chat)
                                   <==> StatusProceeds(store, chat))
  {
    var r := HandleSetter(store, chat, cmd, text);
    if cmd != SetAuction && Argument(cmd, text).Some? {
      assert FieldOf(r[chat], AuctionId) == FieldOf(SessionOf(store, chat), AuctionId);
    }
  }
}
