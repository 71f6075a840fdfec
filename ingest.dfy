/** The two bot handlers: storing the links of a (possibly edited) message, and
    answering /rssfeed with the group's feed URL. The preview fetch and the clock
    are inputs: `previews[k]` is what the fetcher returned for the k-th URL of
    the message (the empty record when the request or the parse failed), and
    `stamps[k]` is the time read when that URL's row was built. */
module Ingest {
  import opened Types
  import opened Compose
  import opened UrlExtract
  import opened Tables
  import opened LinkStore

  /** The parts of a Telegram message the handlers read. */
  datatype Message = Message(
    chat: ChatId,
    messageId: int,
    senderFirstName: Option<string>,  // None when the message has no sender
    text: Option<string>,
    caption: Option<string>)

  /** An update carries a new message, an edited one, or neither. */
  datatype Update = Update(message: Option<Message>, editedMessage: Option<Message>)

  /** `update.message or update.edited_message`. */
  function EffectiveMessage(u: Update): (m: Option<Message>)
    ensures u.message.Some? ==> m == u.message
    ensures u.message.None? ==> m == u.editedMessage
  {
    if u.message.Some? then u.message else u.editedMessage
  }

  /** `message.text or message.caption or ""`. */
  function MessageText(m: Message): (t: string)
    ensures Truthy(m.text) ==> t == m.text.value
    ensures !Truthy(m.text) && Truthy(m.caption) ==> t == m.caption.value
    ensures t == "" <==> !Truthy(m.text) && !Truthy(m.caption)
  {
    if Truthy(m.text) then m.text.value
    else if Truthy(m.caption) then m.caption.value
    else ""
  }

  /** The URLs an update carries; none without a message. */
  function UpdateUrls(u: Update): (urls: seq<string>)
    ensures forall k :: 0 <= k < |urls| ==> IsUrl(urls[k])
    ensures EffectiveMessage(u).None? ==> urls == []
  {
    match EffectiveMessage(u)
    case None => []
    case Some(m) => FindAll(MessageText(m))
  }

  /** A message whose text and caption are both empty or absent carries no URL. */
  lemma NoTextNoUrls(u: Update)
    requires EffectiveMessage(u).Some?
    requires !Truthy(EffectiveMessage(u).value.text) && !Truthy(EffectiveMessage(u).value.caption)
    ensures UpdateUrls(u) == []
  {
    FindAllEmptyIff("");
  }

  /** The rows handle_message composes for a message, one per URL in order. */
  function MessageLinks(m: Message, urls: seq<string>, previews: seq<OGData>, stamps: seq<Date>): (links: seq<LinkData>)
    requires |previews| == |urls| && |stamps| == |urls|
    ensures |links| == |urls|
  {
    if urls == [] then []
    else
      [ComposeLink(urls[0], previews[0], SenderName(m.senderFirstName), m.messageId, stamps[0])]
        + MessageLinks(m, urls[1..], previews[1..], stamps[1..])
  }

  /** The k-th row is composed from the k-th URL, its preview and its time. */
  lemma {:induction false} MessageLinksAt(m: Message, urls: seq<string>, previews: seq<OGData>, stamps: seq<Date>)
    requires |previews| == |urls| && |stamps| == |urls|
    ensures forall k :: 0 <= k < |urls| ==>
      MessageLinks(m, urls, previews, stamps)[k]
      == ComposeLink(urls[k], previews[k], SenderName(m.senderFirstName), m.messageId, stamps[k])
  {
    if urls != [] {
      MessageLinksAt(m, urls[1..], previews[1..], stamps[1..]);
    }
  }

  /** Each row carries its URL, the message id, the image and the time of its
      fetch; its title is the truthy fetched title, else the URL, so never
      empty; its description gives back exactly the truthy fetched description. */
  lemma MessageLinksSpec(m: Message, urls: seq<string>, previews: seq<OGData>, stamps: seq<Date>)
    requires |previews| == |urls| && |stamps| == |urls|
    requires forall k :: 0 <= k < |urls| ==> IsUrl(urls[k])
    ensures var links := MessageLinks(m, urls, previews, stamps);
      forall k :: 0 <= k < |links| ==>
      && links[k].url == urls[k]
      && links[k].title != ""
      && links[k].messageId == Some(m.messageId)
      && links[k].date == stamps[k]
      && links[k].image == previews[k].image
      && (Truthy(previews[k].title) ==> links[k].title == previews[k].title.value)
      && (!Truthy(previews[k].title) ==> links[k].title == urls[k])
      && FetchedDescription(links[k].description, SenderName(m.senderFirstName))
         == (if Truthy(previews[k].description) then previews[k].description.value else "")
  {
    var name := SenderName(m.senderFirstName);
    var links := MessageLinks(m, urls, previews, stamps);
    MessageLinksAt(m, urls, previews, stamps);
    forall k | 0 <= k < |links|
      ensures links[k].title != ""
      ensures FetchedDescription(links[k].description, name)
           == (if Truthy(previews[k].description) then previews[k].description.value else "")
    {
      assert IsUrl(urls[k]);
      DescriptionRoundTrip(name, previews[k]);
    }
  }

  /** Every description credits the sender, "Unknown" when there is none. */
  lemma DescriptionsCreditSender(m: Message, urls: seq<string>, previews: seq<OGData>, stamps: seq<Date>, k: nat)
    requires |previews| == |urls| && |stamps| == |urls|
    requires k < |urls|
    ensures var d := MessageLinks(m, urls, previews, stamps)[k].description;
      var shared := AttributionPrefix + (if m.senderFirstName.Some? then m.senderFirstName.value else UnknownSender);
      |d| >= |shared| && d[..|shared|] == shared
  {
    MessageLinksAt(m, urls, previews, stamps);
  }

  /** handle_message. Without a message or without a URL in it, nothing happens.
      Otherwise the rows of (chat, message) are purged first and then the
      composed rows are saved, one per URL, in order. */
  method HandleMessage(store: Store, u: Update, previews: seq<OGData>, stamps: seq<Date>) returns (outcome: Outcome)
    requires store.Valid()
    requires |previews| == |UpdateUrls(u)| && |stamps| == |UpdateUrls(u)|
    modifies store
    ensures store.Valid()
    ensures store.groups == old(store.groups)
    ensures UpdateUrls(u) == [] ==>
      outcome == Pass && store.rows == old(store.rows) && store.nextId == old(store.nextId)
    ensures UpdateUrls(u) != [] ==>
      var m := EffectiveMessage(u).value;
      var links := MessageLinks(m, UpdateUrls(u), previews, stamps);
      && (m.chat in old(store.groups) ==>
            && outcome == Pass
            && store.rows == Purge(old(store.rows), m.chat, m.messageId) + NewRows(old(store.nextId), m.chat, links)
            && store.nextId == old(store.nextId) + |links|
            && MessageRows(store.rows, m.chat, m.messageId) == NewRows(old(store.nextId), m.chat, links))
      && (m.chat !in old(store.groups) ==>
            outcome == Failure(ForeignKeyViolation) && store.rows == old(store.rows) && store.nextId == old(store.nextId))
  {
    var urls := UpdateUrls(u);
    if urls == [] {
      return Pass;
    }
    var m := EffectiveMessage(u).value;
    store.DeleteGroupLinks(m.chat, m.messageId);
    if m.chat !in store.groups {
      PurgeAbsentChat(old(store.rows), m.chat, m.messageId);
    }
    var links := MessageLinks(m, urls, previews, stamps);
    outcome := SaveLinks(store, m.chat, links);
    MessageLinksSpec(m, urls, previews, stamps);
    IngestReplacesMessageRows(old(store.rows), m.chat, m.messageId, old(store.nextId), links);
  }

  /** The loop of handle_message: save the rows one by one, in order. The
      first save refused by the foreign key ends the handler; since the chat's
      membership cannot change in between, that is the first save or none. */
  method SaveLinks(store: Store, chat: ChatId, links: seq<LinkData>) returns (outcome: Outcome)
    requires store.Valid()
    modifies store
    ensures store.Valid()
    ensures store.groups == old(store.groups)
    ensures chat in old(store.groups) || links == [] ==>
      && outcome == Pass
      && store.rows == old(store.rows) + NewRows(old(store.nextId), chat, links)
      && store.nextId == old(store.nextId) + |links|
    ensures chat !in old(store.groups) && links != [] ==>
      outcome == Failure(ForeignKeyViolation) && store.rows == old(store.rows) && store.nextId == old(store.nextId)
  {
    ghost var firstId := store.nextId;
    outcome := Pass;
    var i := 0;
    while i < |links|
      invariant 0 <= i <= |links|
      invariant store.Valid()
      invariant store.groups == old(store.groups)
      invariant outcome == Pass
      invariant i > 0 ==> chat in store.groups
      invariant store.nextId == firstId + i
      invariant store.rows == old(store.rows) + NewRows(firstId, chat, links[..i])
    {
      outcome := store.SaveLink(chat, links[i]);
      if outcome.Failure? {
        return;
      }
      assert outcome.value == ();
      assert links[..i + 1] == links[..i] + [links[i]];
      NewRowsSnoc(firstId, chat, links[..i], links[i]);
      i := i + 1;
    }
    assert links[..i] == links;
  }

  /** What the /rssfeed handler does: no reply, or a reply text. */
  datatype Reply = NoReply | ReplyText(text: string)

  /** handle_rssfeed_command: only a new (not edited) message with a non-zero
      chat id is answered, with the feed URL of the chat's token, which is
      created on first use from `candidate`; a candidate already held by
      another chat makes the insert fail. */
  method HandleRssfeedCommand(store: Store, u: Update, appUrl: string, candidate: Token)
    returns (r: Result<Reply, StoreError>)
    requires store.Valid()
    modifies store
    ensures store.Valid()
    ensures store.rows == old(store.rows) && store.nextId == old(store.nextId)
    ensures u.message.None? || u.message.value.chat == 0 ==>
      r == Success(NoReply) && store.groups == old(store.groups)
    ensures u.message.Some? && u.message.value.chat != 0 ==>
      var chat := u.message.value.chat;
      && (chat in old(store.groups) ==>
            r == Success(ReplyText(FeedLinkReply(appUrl, old(store.groups)[chat]))) && store.groups == old(store.groups))
      && (chat !in old(store.groups) && !TokenIssued(old(store.groups), candidate) ==>
            r == Success(ReplyText(FeedLinkReply(appUrl, candidate))) && store.groups == old(store.groups)[chat := candidate])
      && (chat !in old(store.groups) && TokenIssued(old(store.groups), candidate) ==>
            r == Failure(UniqueViolation) && store.groups == old(store.groups))
    ensures r.Success? && r.value.ReplyText? ==>
      var chat := u.message.value.chat;
      chat in store.groups && r.value == ReplyText(FeedLinkReply(appUrl, store.groups[chat]))
  {
    if u.message.None? || u.message.value.chat == 0 {
      return Success(NoReply);
    }
    var chat := u.message.value.chat;
    var token := store.GetGroupToken(chat, candidate);
    match token
    case Failure(e) =>
      return Failure(e);
    case Success(t) =>
      return Success(ReplyText(FeedLinkReply(appUrl, t)));
  }

  /** Asking twice gives the same feed URL, whatever candidate the second request draws. */
  method RssfeedTwice(store: Store, u: Update, appUrl: string, candidate1: Token, candidate2: Token)
    returns (first: Result<Reply, StoreError>, second: Result<Reply, StoreError>)
    requires store.Valid()
    modifies store
    ensures first.Success? ==> second == first
  {
    first := HandleRssfeedCommand(store, u, appUrl, candidate1);
    second := HandleRssfeedCommand(store, u, appUrl, candidate2);
  }
}
