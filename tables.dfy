/** The two SQLite tables as values, and the queries the store runs on them:
    `groups(chat_id PRIMARY KEY, token UNIQUE)` and
    `links(id AUTOINCREMENT, chat_id REFERENCES groups, url, title, description, image, message_id, date)`. */
module Tables {
  import opened Types

  /** One row of `links`: its autoincrement id, its chat and the stored link. */
  datatype Row = Row(id: nat, chat: ChatId, data: LinkData)

  /** `token UNIQUE`: no two chats hold the same token (chat_id is the map's key). */
  ghost predicate TokensUnique(groups: map<ChatId, Token>)
  {
    forall c1, c2 :: c1 in groups && c2 in groups && groups[c1] == groups[c2] ==> c1 == c2
  }

  /** The foreign key, enforced: every row's chat has a `groups` row. */
  ghost predicate RowsReferenceGroups(groups: map<ChatId, Token>, rows: seq<Row>)
  {
    forall k :: 0 <= k < |rows| ==> rows[k].chat in groups
  }

  /** AUTOINCREMENT: ids rise in table order and are all below the next id to hand out. */
  ghost predicate IdsAscending(rows: seq<Row>, nextId: nat)
  {
    IdsAscendFrom(rows, 0, nextId)
  }

  /** Every id is at least lo and below nextId, and each row's id is below the next row's. */
  ghost predicate IdsAscendFrom(rows: seq<Row>, lo: int, nextId: nat)
    decreases |rows|
  {
    rows == [] || (lo <= rows[0].id < nextId && IdsAscendFrom(rows[1..], rows[0].id + 1, nextId))
  }

  /** The recursive reading is the plain one: ids lie in [lo, nextId) and strictly rise in table order. */
  lemma {:induction false} IdsAscendFromOrdered(rows: seq<Row>, lo: int, nextId: nat)
    requires IdsAscendFrom(rows, lo, nextId)
    ensures forall k :: 0 <= k < |rows| ==> lo <= rows[k].id < nextId
    ensures forall k, l :: 0 <= k < l < |rows| ==> rows[k].id < rows[l].id
    decreases |rows|
  {
    if rows != [] {
      var tail := rows[1..];
      IdsAscendFromOrdered(tail, rows[0].id + 1, nextId);
      assert forall k :: 1 <= k < |rows| ==> rows[k] == tail[k - 1];
    }
  }

  /** Appending a row with the next id keeps ids rising, with the next id one higher. */
  lemma {:induction false} AppendKeepsIdsAscending(rows: seq<Row>, lo: int, nextId: nat, r: Row)
    requires IdsAscendFrom(rows, lo, nextId) && lo <= nextId && r.id == nextId
    ensures IdsAscendFrom(rows + [r], lo, nextId + 1)
    decreases |rows|
  {
    if rows != [] {
      AppendKeepsIdsAscending(rows[1..], rows[0].id + 1, nextId, r);
      assert (rows + [r])[1..] == rows[1..] + [r];
    }
  }

  ghost predicate Consistent(groups: map<ChatId, Token>, rows: seq<Row>, nextId: nat)
  {
    TokensUnique(groups) && RowsReferenceGroups(groups, rows) && IdsAscending(rows, nextId)
  }

  /** Some chat holds this token. */
  ghost predicate TokenIssued(groups: map<ChatId, Token>, token: Token)
  {
    exists c :: c in groups && groups[c] == token
  }

  /** The chat holding a token; the only one when tokens are unique. */
  ghost function TokenOwner(groups: map<ChatId, Token>, token: Token): (chat: ChatId)
    requires TokenIssued(groups, token)
    ensures chat in groups && groups[chat] == token
    ensures TokensUnique(groups) ==> forall c :: c in groups && groups[c] == token ==> c == chat
  {
    var chat :| chat in groups && groups[chat] == token; chat
  }

  /** The rows `DELETE ... WHERE chat_id = ? AND message_id = ?` removes. */
  predicate OfMessage(r: Row, chat: ChatId, messageId: int)
  {
    r.chat == chat && r.data.messageId == Some(messageId)
  }

  /** The table after `DELETE FROM links WHERE chat_id = ? AND message_id = ?`. */
  function Purge(rows: seq<Row>, chat: ChatId, messageId: int): (kept: seq<Row>)
    ensures |kept| <= |rows|
    ensures forall r :: r in kept <==> r in rows && !OfMessage(r, chat, messageId)
  {
    if rows == [] then []
    else
      var rest := Purge(rows[1..], chat, messageId);
      if OfMessage(rows[0], chat, messageId) then rest else [rows[0]] + rest
  }

  /** The rows of one message of one chat, in table order. */
  function MessageRows(rows: seq<Row>, chat: ChatId, messageId: int): (sel: seq<Row>)
    ensures forall r :: r in sel <==> r in rows && OfMessage(r, chat, messageId)
  {
    if rows == [] then []
    else
      var rest := MessageRows(rows[1..], chat, messageId);
      if OfMessage(rows[0], chat, messageId) then [rows[0]] + rest else rest
  }

  /** The rows of one chat, in table order (`WHERE chat_id = ?`). */
  function ChatRows(rows: seq<Row>, chat: ChatId): (sel: seq<Row>)
    ensures forall r :: r in sel <==> r in rows && r.chat == chat
    ensures |sel| <= |rows|
  {
    if rows == [] then []
    else
      var rest := ChatRows(rows[1..], chat);
      if rows[0].chat == chat then [rows[0]] + rest else rest
  }

  lemma {:induction false} PurgeAppend(a: seq<Row>, b: seq<Row>, chat: ChatId, messageId: int)
    ensures Purge(a + b, chat, messageId) == Purge(a, chat, messageId) + Purge(b, chat, messageId)
  {
    if a != [] {
      assert (a + b)[1..] == a[1..] + b;
      PurgeAppend(a[1..], b, chat, messageId);
    } else {
      assert a + b == b;
    }
  }

  lemma {:induction false} MessageRowsAppend(a: seq<Row>, b: seq<Row>, chat: ChatId, messageId: int)
    ensures MessageRows(a + b, chat, messageId) == MessageRows(a, chat, messageId) + MessageRows(b, chat, messageId)
  {
    if a != [] {
      assert (a + b)[1..] == a[1..] + b;
      MessageRowsAppend(a[1..], b, chat, messageId);
    } else {
      assert a + b == b;
    }
  }

  /** Purging one message leaves the rows of every other (chat, message) pair as they were. */
  lemma {:induction false} PurgeKeepsOtherMessages(rows: seq<Row>, chat: ChatId, messageId: int, chat': ChatId, messageId': int)
    requires chat != chat' || messageId != messageId'
    ensures MessageRows(Purge(rows, chat, messageId), chat', messageId') == MessageRows(rows, chat', messageId')
  {
    if rows != [] {
      PurgeKeepsOtherMessages(rows[1..], chat, messageId, chat', messageId');
    }
  }

  /** Purging a message of one chat leaves every other chat's rows as they were. */
  lemma {:induction false} PurgeKeepsOtherChats(rows: seq<Row>, chat: ChatId, messageId: int, chat': ChatId)
    requires chat != chat'
    ensures ChatRows(Purge(rows, chat, messageId), chat') == ChatRows(rows, chat')
  {
    if rows != [] {
      PurgeKeepsOtherChats(rows[1..], chat, messageId, chat');
    }
  }

  /** Nothing of a chat without rows is purged. */
  lemma {:induction false} PurgeAbsentChat(rows: seq<Row>, chat: ChatId, messageId: int)
    requires forall k :: 0 <= k < |rows| ==> rows[k].chat != chat
    ensures Purge(rows, chat, messageId) == rows
  {
    if rows != [] {
      PurgeAbsentChat(rows[1..], chat, messageId);
    }
  }

  /** Purging keeps the remaining rows in table order, so ids still rise. */
  lemma {:induction false} PurgeKeepsIdsAscending(rows: seq<Row>, chat: ChatId, messageId: int, lo: int, nextId: nat)
    requires IdsAscendFrom(rows, lo, nextId)
    ensures IdsAscendFrom(Purge(rows, chat, messageId), lo, nextId)
    decreases |rows|
  {
    if rows != [] {
      PurgeKeepsIdsAscending(rows[1..], chat, messageId, rows[0].id + 1, nextId);
      var rest := Purge(rows[1..], chat, messageId);
      if OfMessage(rows[0], chat, messageId) && rest != [] {
        assert IdsAscendFrom(rest[1..], rest[0].id + 1, nextId);
      }
    }
  }

  /** The rows save_link appends for the links of one message, ids from firstId on. */
  function NewRows(firstId: nat, chat: ChatId, links: seq<LinkData>): (rows: seq<Row>)
    ensures |rows| == |links|
    ensures forall k :: 0 <= k < |rows| ==> rows[k] == Row(firstId + k, chat, links[k])
  {
    seq(|links|, k requires 0 <= k < |links| => Row(firstId + k, chat, links[k]))
  }

  /** Saving one more link extends the new rows by one row with the next id. */
  lemma NewRowsSnoc(firstId: nat, chat: ChatId, links: seq<LinkData>, link: LinkData)
    ensures NewRows(firstId, chat, links + [link]) == NewRows(firstId, chat, links) + [Row(firstId + |links|, chat, link)]
  {
    var a, b := NewRows(firstId, chat, links + [link]), NewRows(firstId, chat, links) + [Row(firstId + |links|, chat, link)];
    assert |a| == |b|;
    forall k | 0 <= k < |a| ensures a[k] == b[k] {
    }
  }

  /** Re-ingesting a message leaves exactly the new rows for it: none of an earlier
      ingestion survives, whatever the table held before. */
  lemma IngestReplacesMessageRows(rows: seq<Row>, chat: ChatId, messageId: int, firstId: nat, links: seq<LinkData>)
    requires forall k :: 0 <= k < |links| ==> links[k].messageId == Some(messageId)
    ensures MessageRows(Purge(rows, chat, messageId) + NewRows(firstId, chat, links), chat, messageId)
         == NewRows(firstId, chat, links)
  {
    var purged := Purge(rows, chat, messageId);
    MessageRowsAppend(purged, NewRows(firstId, chat, links), chat, messageId);
    NoMessageRowsAfterPurge(rows, chat, messageId);
    AllOfMessage(NewRows(firstId, chat, links), chat, messageId);
  }

  /** Ingesting a message leaves the rows of every other (chat, message) pair as they were. */
  lemma IngestKeepsOtherMessages(rows: seq<Row>, chat: ChatId, messageId: int, firstId: nat, links: seq<LinkData>,
                                 chat': ChatId, messageId': int)
    requires chat != chat' || messageId != messageId'
    requires forall k :: 0 <= k < |links| ==> links[k].messageId == Some(messageId)
    ensures MessageRows(Purge(rows, chat, messageId) + NewRows(firstId, chat, links), chat', messageId')
         == MessageRows(rows, chat', messageId')
  {
    var added := NewRows(firstId, chat, links);
    MessageRowsAppend(Purge(rows, chat, messageId), added, chat', messageId');
    PurgeKeepsOtherMessages(rows, chat, messageId, chat', messageId');
    NoneOfMessage(added, chat', messageId');
  }

  lemma {:induction false} NoMessageRowsAfterPurge(rows: seq<Row>, chat: ChatId, messageId: int)
    ensures MessageRows(Purge(rows, chat, messageId), chat, messageId) == []
  {
    if rows != [] {
      NoMessageRowsAfterPurge(rows[1..], chat, messageId);
    }
  }

  lemma {:induction false} AllOfMessage(rows: seq<Row>, chat: ChatId, messageId: int)
    requires forall k :: 0 <= k < |rows| ==> OfMessage(rows[k], chat, messageId)
    ensures MessageRows(rows, chat, messageId) == rows
  {
    if rows != [] {
      AllOfMessage(rows[1..], chat, messageId);
    }
  }

  lemma {:induction false} NoneOfMessage(rows: seq<Row>, chat: ChatId, messageId: int)
    requires forall k :: 0 <= k < |rows| ==> !OfMessage(rows[k], chat, messageId)
    ensures MessageRows(rows, chat, messageId) == []
  {
    if rows != [] {
      NoneOfMessage(rows[1..], chat, messageId);
    }
  }

  /** `ORDER BY date DESC`. */
  predicate NewestFirst(s: seq<Row>)
  {
    forall k, l :: 0 <= k < l < |s| ==> s[k].data.date >= s[l].data.date
  }

  /** Insert r before the first row that is not newer than it. */
  function InsertByDate(r: Row, s: seq<Row>): (res: seq<Row>)
    ensures multiset(res) == multiset(s) + multiset{r}
    ensures |res| == |s| + 1
    ensures res[0] == r || (s != [] && res[0] == s[0])
  {
    if s == [] || r.data.date >= s[0].data.date then [r] + s
    else
      assert s == [s[0]] + s[1..];
      [s[0]] + InsertByDate(r, s[1..])
  }

  lemma {:induction false} InsertByDateNewestFirst(r: Row, s: seq<Row>)
    requires NewestFirst(s)
    ensures NewestFirst(InsertByDate(r, s))
  {
    if s != [] && r.data.date < s[0].data.date {
      var rest := InsertByDate(r, s[1..]);
      InsertByDateNewestFirst(r, s[1..]);
      assert s[1..] != [] ==> s[1..][0] == s[1];
      assert s[0].data.date >= rest[0].data.date;
      var res := [s[0]] + rest;
      forall k, l | 0 <= k < l < |res| ensures res[k].data.date >= res[l].data.date {
        assert res[l] == rest[l - 1];
        if k > 0 {
          assert res[k] == rest[k - 1];
        }
      }
    }
  }

  /** The rows newest first; rows with equal dates keep table order. */
  function SortNewestFirst(s: seq<Row>): (res: seq<Row>)
    ensures multiset(res) == multiset(s)
  {
    if s == [] then []
    else
      assert s == [s[0]] + s[1..];
      InsertByDate(s[0], SortNewestFirst(s[1..]))
  }

  lemma {:induction false} SortNewestFirstSorted(s: seq<Row>)
    ensures NewestFirst(SortNewestFirst(s))
  {
    if s != [] {
      SortNewestFirstSorted(s[1..]);
      InsertByDateNewestFirst(s[0], SortNewestFirst(s[1..]));
    }
  }

  /** SQLite's `LIMIT n`: a negative n means no limit. */
  function Limit(s: seq<Row>, limit: int): (res: seq<Row>)
    ensures |res| == if 0 <= limit < |s| then limit else |s|
    ensures res == s[..|res|]
  {
    if 0 <= limit < |s| then s[..limit] else s
  }

  /** `SELECT ... WHERE chat_id = ? ORDER BY date DESC LIMIT ?`. */
  function Window(rows: seq<Row>, chat: ChatId, limit: int): seq<Row>
  {
    Limit(SortNewestFirst(ChatRows(rows, chat)), limit)
  }

  /** The window holds only that chat's rows, newest first, as many as the limit
      allows, drawn from the table; no row of the chat left out is newer than
      any row in it. */
  lemma WindowSpec(rows: seq<Row>, chat: ChatId, limit: int)
    ensures var w := Window(rows, chat, limit); var n := |ChatRows(rows, chat)|;
      && |w| == (if 0 <= limit < n then limit else n)
      && (forall k :: 0 <= k < |w| ==> w[k].chat == chat)
      && NewestFirst(w)
      && multiset(w) <= multiset(ChatRows(rows, chat))
      && (forall r, k :: r in rows && r.chat == chat && r !in w && 0 <= k < |w| ==> r.data.date <= w[k].data.date)
  {
    WindowSize(rows, chat, limit);
    WindowOfChat(rows, chat, limit);
    WindowNewestFirst(rows, chat, limit);
    WindowOmitsNothingNewer(rows, chat, limit);
  }

  lemma WindowSize(rows: seq<Row>, chat: ChatId, limit: int)
    ensures var w := Window(rows, chat, limit); var n := |ChatRows(rows, chat)|;
      |w| == (if 0 <= limit < n then limit else n)
    ensures multiset(Window(rows, chat, limit)) <= multiset(ChatRows(rows, chat))
  {
    var own := ChatRows(rows, chat);
    var sorted := SortNewestFirst(own);
    var w := Window(rows, chat, limit);
    assert |multiset(sorted)| == |multiset(own)|;
    assert sorted == w + sorted[|w|..];
    assert multiset(sorted) == multiset(w) + multiset(sorted[|w|..]);
  }

  lemma WindowOfChat(rows: seq<Row>, chat: ChatId, limit: int)
    ensures forall k :: 0 <= k < |Window(rows, chat, limit)| ==> Window(rows, chat, limit)[k].chat == chat
  {
    var own := ChatRows(rows, chat);
    var sorted := SortNewestFirst(own);
    var w := Window(rows, chat, limit);
    forall k | 0 <= k < |w| ensures w[k].chat == chat {
      assert w[k] == sorted[k];
      assert sorted[k] in multiset(own);
    }
  }

  lemma WindowNewestFirst(rows: seq<Row>, chat: ChatId, limit: int)
    ensures NewestFirst(Window(rows, chat, limit))
  {
    var sorted := SortNewestFirst(ChatRows(rows, chat));
    SortNewestFirstSorted(ChatRows(rows, chat));
    var w := Window(rows, chat, limit);
    forall k, l | 0 <= k < l < |w| ensures w[k].data.date >= w[l].data.date {
      assert w[k] == sorted[k] && w[l] == sorted[l];
    }
  }

  lemma WindowOmitsNothingNewer(rows: seq<Row>, chat: ChatId, limit: int)
    ensures var w := Window(rows, chat, limit);
      forall r, k :: r in rows && r.chat == chat && r !in w && 0 <= k < |w| ==> r.data.date <= w[k].data.date
  {
    var own := ChatRows(rows, chat);
    var sorted := SortNewestFirst(own);
    SortNewestFirstSorted(own);
    var w := Window(rows, chat, limit);
    forall r, k | r in rows && r.chat == chat && r !in w && 0 <= k < |w|
      ensures r.data.date <= w[k].data.date
    {
      assert r in multiset(own);
      assert r in multiset(sorted);
      var j :| 0 <= j < |sorted| && sorted[j] == r;
      assert j >= |w|;
      assert w[k] == sorted[k];
    }
  }
}
