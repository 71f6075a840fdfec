# links2rss: the message-to-feed pipeline, modelled in Dafny

links2rss is a Telegram bot and a small HTTP server in one process. The bot
watches group messages. It extracts every `http://` or `https://` URL from
each one and, in a group that has already asked for its feed with
`/rssfeed`, stores one row per URL, with a title and a description taken from
the page's link preview. In any other group the first insert fails on the
foreign key and nothing is stored. On `/rssfeed` the bot replies with a
secret feed URL for the group. The server answers `GET /rss?token=…` with an RSS feed of the
group's 50 newest links, and refuses an unknown token with 401.

This project models that pipeline over an in-memory picture of the two SQLite
tables:

- `types.dfy` holds the shared values: `Option`, `Result`, the link-preview
  record `OGData`, the stored `LinkData`, and the two constraint failures
  (foreign key, unique).
- `url_extract.dfy` models `URL_PATTERN.findall`.
  - The pattern's character class `[$-_@.&+]` is a range from `$` to `_`, so
    the allowed characters are `a`–`z`, everything from `$` to `_`, and `!`.
    That range takes in upper case, digits, `%`, `(`, `)`, `,` and `\`.
  - A match is the scheme followed by the longest run of allowed characters.
    A trailing `,` or `)` therefore belongs to the URL.
  - The scanner moves left to right and resumes after each match.
  - It is proved equal to the one leftmost, non-overlapping, greedy reading.
- `compose.dfy` holds the pure expressions:
  - the sender name, with "Unknown" when the message has no sender;
  - the title fallback and the "Shared by …" description;
  - the item guid `url + "_" + timestamp`;
  - the text of the `/rssfeed` reply.
- `tables.dfy` holds the table-level functions:
  - the three table invariants: tokens unique, the foreign key, ids ascending;
  - the `DELETE` by chat and message;
  - the `ORDER BY date DESC LIMIT n` window;
  - the lemmas about them.
- `link_store.dfy` is the class `Store`, with fields `groups`, `rows` and
  `nextId`. `get_group_token`, `save_link` and `delete_group_links` update
  them in place. `get_links` and the token lookup of `/rss` only read them.
- `ingest.dfy` holds the two bot handlers, `handle_message` and
  `handle_rssfeed_command`.
- `feed.dfy` holds `generate_rss` and the `/rss` endpoint's token gate.

Inputs that come from outside the program are parameters:

- `previews[k]` is the link preview the fetcher returned for the k-th URL of
  a message. When the request or the parse failed, it is the empty record.
- `stamps[k]` is the clock reading taken for that URL's row.
- `candidate` is the freshly drawn uuid for a new group.
- `now` is the feed's build time.
- `appUrl` is the configured public URL.

## Model

| member | source | states |
|---|---|---|
| UrlExtract.Allowed | main.py:52 | the pattern's repeated character class: `a`–`z`, everything from `$` to `_`, and `!` |
| UrlExtract.IsUrl | main.py:52 | a whole string the pattern matches: `https://` or `http://`, then one or more allowed characters |
| UrlExtract.MatchEnd | main.py:52 | a match at i ends after i, within the text, at the end of the text or at a character the pattern rejects (that it is a URL is MatchEndIsLongestUrl) |
| UrlExtract.MatchEndIsLongestUrl | main.py:52 | the match at i is a URL (scheme plus one or more allowed characters) and no longer substring from i is one; no match at i means no URL starts at i |
| UrlExtract.Spans | main.py:259 | the scan of findall: try a match at each position, resume after a match's end, otherwise one character on (its properties are SpansLeftmost) |
| UrlExtract.FindAll | main.py:259 | every string findall returns begins with `https://` or `http://` followed by one or more allowed characters |
| UrlExtract.SpansLeftmost | main.py:259 | the reported matches start at or after the scan position, are matches that end where the match ends, appear in left-to-right order without overlap, and every position where a match could start lies inside a reported one |
| UrlExtract.LeftmostSpansUnique | main.py:259 | any list of spans with those three properties is exactly the scanner's, so findall's result is determined |
| UrlExtract.FindAllEmptyIff | main.py:259-261 | findall returns nothing exactly when no substring of the text is a URL |
| Compose.SenderName | main.py:264 | the sender's first name, or "Unknown" without a sender |
| Compose.Attribution | main.py:278 | "Shared by " followed by the name |
| Compose.ComposeTitle | main.py:274 | the fetched title when truthy, else the URL; never empty for a non-empty URL |
| Compose.ComposeDescription | main.py:275-282 | starts with the attribution; equals it exactly when the fetched description is missing or empty; otherwise continues with " - " and that description |
| Compose.DescriptionRoundTrip | main.py:275-282 | the fetched description can be recovered from the composed one: the truthy description, or "" |
| Compose.FetchFailureDegrades | main.py:274-282 | with the empty preview of a failed fetch, the title is the URL and the description is the attribution alone |
| Compose.DecimalText | main.py:333 | the timestamp's text is one or more decimal digits, at least two from 10 on |
| Compose.DecimalTextInjective | main.py:333 | distinct timestamps have distinct texts |
| Compose.ComposeLink | main.py:284-291 | the stored link for one URL: the URL, the composed title and description, the date, the preview's image and the message id (its properties are MessageLinksSpec and FetchFailureDegrades) |
| Compose.Guid | main.py:333 | the guid is the URL, "_", then the timestamp digits |
| Compose.GuidInjective | main.py:333 | equal guids come from the same URL and the same timestamp |
| Compose.FeedUrl | main.py:309 | the feed URL is the app URL, "/rss?token=", then the token |
| Compose.FeedLinkReply | main.py:309-311 | the reply text ends with the whole feed URL, and so with the group's token |
| Tables.TokensUnique | main.py:84-88 | `token UNIQUE`: no two chats hold the same token; chat_id is the key |
| Tables.RowsReferenceGroups | main.py:93-105 | the foreign key: every link row's chat has a groups row |
| Tables.IdsAscending | main.py:96 | AUTOINCREMENT: ids rise in table order and lie below the next id to hand out |
| Tables.TokenOwner | main.py:359-360 | the chat holding a token holds it, and with unique tokens it is the only one |
| Tables.IdsAscendFromOrdered | main.py:96 | AUTOINCREMENT ids lie below the next id and strictly rise in table order |
| Tables.AppendKeepsIdsAscending | main.py:143-157 | appending a row with the next id keeps the ids rising |
| Tables.Purge | main.py:200 | a row survives the DELETE exactly when it was in the table and is not of that chat and message |
| Tables.PurgeKeepsOtherMessages | main.py:200 | the rows of every other (chat, message) pair are unchanged, in order |
| Tables.PurgeKeepsOtherChats | main.py:200 | the rows of every other chat are unchanged, in order |
| Tables.PurgeAbsentChat | main.py:200 | deleting for a chat that has no rows changes nothing |
| Tables.PurgeKeepsIdsAscending | main.py:200 | deleting keeps the ids rising |
| Tables.NoMessageRowsAfterPurge | main.py:200 | after the DELETE no row of that chat and message is left |
| Tables.MessageRows | main.py:200 | selects exactly the rows of one chat and message |
| Tables.ChatRows | main.py:171-172 | selects exactly the rows of one chat (`WHERE chat_id = ?`) |
| Tables.NewRows | main.py:143-157 | the rows appended for a list of links: consecutive ids from the next id, this chat, each link's fields |
| Tables.IngestReplacesMessageRows | main.py:266-292 | after purge-then-append, the rows of that message are exactly the new ones, whatever the table held before |
| Tables.IngestKeepsOtherMessages | main.py:266-292 | purge-then-append leaves the rows of every other message of every chat as they were |
| Tables.InsertByDate | main.py:172 | inserting into the date order adds exactly the one row |
| Tables.InsertByDateNewestFirst | main.py:172 | inserting into a newest-first list keeps it newest first |
| Tables.SortNewestFirst | main.py:172 | `ORDER BY date DESC` permutes the selected rows |
| Tables.SortNewestFirstSorted | main.py:172 | the sorted rows are in non-increasing date order |
| Tables.Limit | main.py:172 | `LIMIT n` keeps the first n rows, or all of them when n is negative or at least the count |
| Tables.Window | main.py:169-175 | `WHERE chat_id = ? ORDER BY date DESC LIMIT ?` over the table (its properties are WindowSpec) |
| Tables.WindowSpec | main.py:169-175 | the window of get_links holds min(limit, n) rows (n when the limit is negative), all of the chat, newest first, drawn from the table, and no row of the chat left out is newer than one kept |
| Tables.WindowSize | main.py:172 | the window's size and that it is drawn from the chat's rows |
| Tables.WindowOfChat | main.py:171-172 | every row of the window belongs to the chat |
| Tables.WindowNewestFirst | main.py:172 | the window is in non-increasing date order |
| Tables.WindowOmitsNothingNewer | main.py:172 | no row of the chat left out of the window is newer than any row in it |
| LinkStore.Store.Valid | main.py:84-105 | the store's state meets the schema: unique tokens, the foreign key, rising ids |
| LinkStore.Store.constructor | main.py:82-106 | a fresh database: both tables empty, ids start at 1, invariants hold |
| LinkStore.Store.GetGroupToken | main.py:112-132 | an existing token is returned with nothing changed; otherwise exactly the (chat, candidate) row is added and other groups are untouched; a candidate already in use fails on UNIQUE with nothing changed; after success the chat holds the returned token |
| LinkStore.Store.SaveLink | main.py:135-158 | succeeds exactly when the chat has a groups row, then appends exactly one row with the next id and the given fields and leaves every existing row unchanged; otherwise fails on the foreign key with nothing changed |
| LinkStore.Store.GetLinks | main.py:161-189 | returns the data of the window's rows, in the window's order |
| LinkStore.Store.DeleteGroupLinks | main.py:192-201 | the table becomes the purged table; groups and ids are unchanged; the invariants hold |
| LinkStore.Store.LookupChat | main.py:358-363 | finds a chat exactly when some group holds the token, and that group is the only one |
| Ingest.EffectiveMessage | main.py:254 | the new message if present, else the edited one |
| Ingest.MessageText | main.py:258 | the text when truthy, else the caption when truthy, else ""; empty exactly when both are missing or empty |
| Ingest.UpdateUrls | main.py:254-259 | every extracted string is a URL; an update without a message yields none |
| Ingest.NoTextNoUrls | main.py:258-261 | a message whose text and caption are both missing or empty yields no URL |
| Ingest.MessageLinks | main.py:269-291 | one composed link per URL |
| Ingest.MessageLinksAt | main.py:269-291 | the k-th link is composed from the k-th URL, its preview and its clock reading |
| Ingest.MessageLinksSpec | main.py:273-291 | each link carries its URL, the message id, the preview's image and its clock reading; its title is the truthy fetched title, else the URL, so never empty; its description gives back exactly the truthy fetched description |
| Ingest.DescriptionsCreditSender | main.py:264-282 | every description starts with "Shared by " and the sender's first name, or "Unknown" without a sender |
| Ingest.HandleMessage | main.py:252-292 | without a message or a URL the store is untouched; otherwise, for a registered chat, the table becomes the purged table followed by one new row per URL in order, and the message's rows are exactly those; for an unregistered chat the first save fails on the foreign key and the table is unchanged; groups never change |
| Ingest.SaveLinks | main.py:269-292 | saves the rows in order with consecutive ids; for an unregistered chat the first save fails and nothing changes |
| Ingest.HandleRssfeedCommand | main.py:297-312 | no reply without a new message or with chat id 0; otherwise the reply carries the chat's existing token or the newly registered candidate, or the insert fails on UNIQUE; the reply always names the token the chat now holds |
| Ingest.RssfeedTwice | main.py:302-311 | once /rssfeed has succeeded, asking again gives the same reply, whatever the second candidate |
| Feed.ItemOf | main.py:327-337 | the item carries the link's title, URL, description and date, the guid of URL and date, and an image/jpeg enclosure exactly when the image is truthy |
| Feed.ItemGuidsDistinguishLinks | main.py:333 | two items share a guid only when they come from the same URL at the same time |
| Feed.ItemsOf | main.py:327-337 | one item per row, in order |
| Feed.FeedItems | main.py:317-337 | the items of a chat's feed: one per row of its newest-first window of 50 |
| Feed.ItemsOfAt | main.py:327-337 | the k-th item is built from the k-th row |
| Feed.FeedItemsSpec | main.py:317-337 | a feed holds min(50, n) items for a chat with n links, newest first, each built from a stored link of that chat, and the rows behind the items are drawn from the chat's rows without repetition |
| Feed.FeedNewestFirst | main.py:317 | the items are in non-increasing date order |
| Feed.FeedFromChat | main.py:317 | every item comes from a stored link of that chat |
| Feed.FeedOmitsNothingNewer | main.py:317 | no link of the chat left out of the feed is newer than an item in it |
| Feed.GenerateRss | main.py:315-339 | the feed's items are those of the chat's window of 50, one per link, in order |
| Feed.RssFeed | main.py:352-366 | fails with 401 "Unauthorized: Invalid token" exactly when no group holds the token; otherwise serves the feed of that group |

## Left out

- fetch_og_tags (HTTP through httpx, HTML parsing): its result, one per URL, is the `previews` input.
- `datetime.now()`, `strftime` and `fromisoformat`: dates are whole numbers. The stored date is assumed to read back unchanged.
- Compose.Guid: the guid's timestamp is the date's decimal digits, not Python's float rendering of `timestamp()`.
- `uuid.uuid4()`: the drawn token is the `candidate` input. A candidate already held by another group fails on the UNIQUE constraint, as the insert would.
- XML serialisation and escaping, the channel's static title and description strings, and `pubDate` formatting. The feed is a value: its build time and its items.
- The channel's `link` element, `APP_URL + "/rss/" + chat_id`, is built per chat (main.py:323). The model's channel does not carry it.
- The `token` query parameter is not percent-decoded. Tokens are uuids, which need no escaping.
- The SQLite PRAGMAs, WAL mode, busy timeouts, commits, and the concurrency between the bot and the server. The tables are plain state.
- The `db_conn is None` guards, the unused global `links`, and the `/` and `/health` routes.
- FastAPI, uvicorn and the telegram Application wiring. This covers `reply_text`, Markdown parsing of the reply, and the 422 FastAPI returns when `token` is missing.
- Logging with `print`.
- Chat ids are stored as their decimal text. The model keys the tables by the integer, which that text determines one-to-one.
- Tables.SortNewestFirst: rows with equal dates keep table order. SQLite leaves that order unspecified. Store.GetLinks, Feed.GenerateRss and Feed.RssFeed equate their results with Window and FeedItems, so their contracts fix ties to table order, which is one of the orders SQLite may return.
- Ingest.HandleMessage: previews and clock readings are supplied one per extracted URL. The fetch that interleaves with the saves in the source is therefore not ordered against them. The store is unaffected by that order.
