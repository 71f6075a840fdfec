/** The /rss endpoint: the token gate and the feed built from a group's newest
    links. The feed is a value (items with their fields); its XML rendering and
    the static channel strings are not part of this model. */
module Feed {
  import opened Types
  import opened Compose
  import opened Tables
  import opened LinkStore

  /** How many links a feed shows. */
  const FeedLimit: int := 50

  /** The MIME type every image enclosure declares. */
  const ImageMimeType: string := "image/jpeg"

  datatype Enclosure = Enclosure(url: string, mimeType: string)

  datatype Item = Item(
    title: string,
    link: string,
    description: string,
    pubDate: Date,
    guid: string,
    enclosure: Option<Enclosure>)

  /** The channel's build time and its items, in order. */
  datatype Channel = Channel(lastBuildDate: Date, items: seq<Item>)

  /** The HTTP error the endpoint raises. */
  datatype HttpError = HttpError(status: int, detail: string)

  const Unauthorized: HttpError := HttpError(401, "Unauthorized: Invalid token")

  /** The item for one stored link; an image enclosure only when the image is truthy. */
  function ItemOf(link: LinkData): (item: Item)
    ensures item.title == link.title && item.link == link.url && item.description == link.description
    ensures item.pubDate == link.date
    ensures item.guid == Guid(link.url, link.date)
    ensures item.enclosure.Some? <==> Truthy(link.image)
    ensures item.enclosure.Some? ==> item.enclosure.value == Enclosure(link.image.value, ImageMimeType)
  {
    var enclosure := if Truthy(link.image) then Some(Enclosure(link.image.value, ImageMimeType)) else None;
    Item(link.title, link.url, link.description, link.date, Guid(link.url, link.date), enclosure)
  }

  /** Two items share a guid only when they come from the same URL at the same time. */
  lemma ItemGuidsDistinguishLinks(a: LinkData, b: LinkData)
    requires ItemOf(a).guid == ItemOf(b).guid
    ensures a.url == b.url && a.date == b.date
  {
    GuidInjective(a.url, a.date, b.url, b.date);
  }

  /** One item per row, in order. */
  function ItemsOf(rows: seq<Row>): (items: seq<Item>)
    ensures |items| == |rows|
  {
    if rows == [] then [] else [ItemOf(rows[0].data)] + ItemsOf(rows[1..])
  }

  lemma {:induction false} ItemsOfAt(rows: seq<Row>)
    ensures forall k :: 0 <= k < |rows| ==> ItemsOf(rows)[k] == ItemOf(rows[k].data)
  {
    if rows != [] {
      ItemsOfAt(rows[1..]);
    }
  }

  /** The items of a chat's feed: one per row of its newest-first window of 50. */
  ghost function FeedItems(rows: seq<Row>, chat: ChatId): seq<Item>
  {
    ItemsOf(Window(rows, chat, FeedLimit))
  }

  /** The feed holds min(50, n) items for a chat with n stored links, newest
      first, each built from a stored link of that chat, and no stored link
      is used twice. */
  lemma FeedItemsSpec(rows: seq<Row>, chat: ChatId)
    ensures var items := FeedItems(rows, chat); var n := |ChatRows(rows, chat)|;
      && |items| == (if n < FeedLimit then n else FeedLimit)
      && (forall k, l :: 0 <= k < l < |items| ==> items[k].pubDate >= items[l].pubDate)
      && (forall k :: 0 <= k < |items| ==>
            exists r :: r in rows && r.chat == chat && items[k] == ItemOf(r.data))
      && multiset(Window(rows, chat, FeedLimit)) <= multiset(ChatRows(rows, chat))
  {
    WindowSize(rows, chat, FeedLimit);
    FeedNewestFirst(rows, chat);
    FeedFromChat(rows, chat);
  }

  lemma FeedNewestFirst(rows: seq<Row>, chat: ChatId)
    ensures var items := FeedItems(rows, chat);
      forall k, l :: 0 <= k < l < |items| ==> items[k].pubDate >= items[l].pubDate
  {
    var w := Window(rows, chat, FeedLimit);
    WindowNewestFirst(rows, chat, FeedLimit);
    ItemsOfAt(w);
  }

  lemma FeedFromChat(rows: seq<Row>, chat: ChatId)
    ensures var items := FeedItems(rows, chat);
      forall k :: 0 <= k < |items| ==> exists r :: r in rows && r.chat == chat && items[k] == ItemOf(r.data)
  {
    var w := Window(rows, chat, FeedLimit);
    var items := FeedItems(rows, chat);
    WindowSize(rows, chat, FeedLimit);
    WindowOfChat(rows, chat, FeedLimit);
    ItemsOfAt(w);
    forall k | 0 <= k < |items|
      ensures exists r :: r in rows && r.chat == chat && items[k] == ItemOf(r.data)
    {
      assert w[k] in multiset(ChatRows(rows, chat));
      assert w[k] in ChatRows(rows, chat);
    }
  }

  /** No stored link of the chat left out of the feed is newer than any item in it. */
  lemma FeedOmitsNothingNewer(rows: seq<Row>, chat: ChatId, r: Row, k: nat)
    requires r in rows && r.chat == chat && r !in Window(rows, chat, FeedLimit)
    requires k < |FeedItems(rows, chat)|
    ensures r.data.date <= FeedItems(rows, chat)[k].pubDate
  {
    WindowOmitsNothingNewer(rows, chat, FeedLimit);
    ItemsOfAt(Window(rows, chat, FeedLimit));
  }

  /** generate_rss: the chat's links from get_links(chat, 50), one item each, in order. */
  method GenerateRss(store: Store, chat: ChatId, now: Date) returns (channel: Channel)
    ensures channel.lastBuildDate == now
    ensures channel.items == FeedItems(store.rows, chat)
  {
    var links := store.GetLinks(chat, FeedLimit);
    ghost var w := Window(store.rows, chat, FeedLimit);
    ItemsOfAt(w);
    var items: seq<Item> := [];
    var i := 0;
    while i < |links|
      invariant 0 <= i <= |links|
      invariant |items| == i
      invariant forall k :: 0 <= k < i ==> items[k] == ItemOf(links[k])
    {
      items := items + [ItemOf(links[i])];
      i := i + 1;
    }
    channel := Channel(now, items);
  }

  /** rss_feed: the token must be exactly some group's token, else 401; the feed
      is then that group's, and with unique tokens that group is the only one. */
  method RssFeed(store: Store, token: Token, now: Date) returns (r: Result<Channel, HttpError>)
    requires store.Valid()
    ensures r.Failure? <==> !TokenIssued(store.groups, token)
    ensures r.Failure? ==> r.error == Unauthorized
    ensures r.Success? ==>
      && r.value.lastBuildDate == now
      && r.value.items == FeedItems(store.rows, TokenOwner(store.groups, token))
  {
    var chat := store.LookupChat(token);
    match chat
    case None =>
      return Failure(Unauthorized);
    case Some(c) =>
      var channel := GenerateRss(store, c, now);
      return Success(channel);
  }
}
