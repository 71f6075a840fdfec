/** The link store: the `groups` and `links` tables behind one connection,
    and the functions of the bot that read and write them. */
module LinkStore {
  import opened Types
  import opened Tables

  class Store {
    /** `groups`: chat_id (primary key) to token (unique). */
    var groups: map<ChatId, Token>
    /** `links`, in rowid order. */
    var rows: seq<Row>
    /** The id AUTOINCREMENT hands to the next inserted row. */
    var nextId: nat

    ghost predicate Valid()
      reads this
    {
      Consistent(groups, rows, nextId)
    }

    /** A freshly created database: both tables empty, ids start at 1. */
    constructor ()
      ensures Valid()
      ensures groups == map[] && rows == [] && nextId == 1
    {
      groups := map[];
      rows := [];
      nextId := 1;
    }

    /** get_group_token: the chat's token, created from `candidate` on first use.
        An existing token is returned and nothing changes; otherwise exactly one
        (chat, candidate) row is added, unless the candidate is already some
        other chat's token, which the UNIQUE constraint rejects. */
    method GetGroupToken(chat: ChatId, candidate: Token) returns (r: Result<Token, StoreError>)
      requires Valid()
      modifies this
      ensures Valid()
      ensures rows == old(rows) && nextId == old(nextId)
      ensures chat in old(groups) ==> r == Success(old(groups)[chat]) && groups == old(groups)
      ensures chat !in old(groups) && !TokenIssued(old(groups), candidate) ==>
        r == Success(candidate) && groups == old(groups)[chat := candidate]
      ensures chat !in old(groups) && TokenIssued(old(groups), candidate) ==>
        r == Failure(UniqueViolation) && groups == old(groups)
      ensures r.Success? ==> chat in groups && groups[chat] == r.value
    {
      if chat in groups {
        return Success(groups[chat]);
      }
      if exists c :: c in groups && groups[c] == candidate {
        return Failure(UniqueViolation);
      }
      groups := groups[chat := candidate];
      return Success(candidate);
    }

    /** save_link: append one row carrying the link, or fail on the foreign key
        when the chat has no `groups` row; existing rows never change. */
    method SaveLink(chat: ChatId, link: LinkData) returns (outcome: Outcome)
      requires Valid()
      modifies this
      ensures Valid()
      ensures groups == old(groups)
      ensures outcome.Success? <==> chat in old(groups)
      ensures outcome.Success? ==> rows == old(rows) + [Row(old(nextId), chat, link)] && nextId == old(nextId) + 1
      ensures outcome.Failure? ==> outcome.error == ForeignKeyViolation && rows == old(rows) && nextId == old(nextId)
    {
      if chat !in groups {
        return Failure(ForeignKeyViolation);
      }
      AppendKeepsIdsAscending(rows, 0, nextId, Row(nextId, chat, link));
      rows := rows + [Row(nextId, chat, link)];
      nextId := nextId + 1;
      return Pass;
    }

    /** get_links: the chat's links, newest first, at most `limit` of them
        (a negative limit is no limit), copied out of the query's rows. */
    method GetLinks(chat: ChatId, limit: int) returns (links: seq<LinkData>)
      ensures |links| == |Window(rows, chat, limit)|
      ensures forall k :: 0 <= k < |links| ==> links[k] == Window(rows, chat, limit)[k].data
    {
      var window := Window(rows, chat, limit);
      links := [];
      var i := 0;
      while i < |window|
        invariant 0 <= i <= |window|
        invariant |links| == i
        invariant forall k :: 0 <= k < i ==> links[k] == window[k].data
      {
        links := links + [window[i].data];
        i := i + 1;
      }
    }

    /** delete_group_links: remove exactly the rows of this chat and message. */
    method DeleteGroupLinks(chat: ChatId, messageId: int)
      requires Valid()
      modifies this
      ensures Valid()
      ensures groups == old(groups) && nextId == old(nextId)
      ensures rows == Purge(old(rows), chat, messageId)
    {
      PurgeKeepsIdsAscending(rows, chat, messageId, 0, nextId);
      var kept := Purge(rows, chat, messageId);
      assert forall k :: 0 <= k < |kept| ==> kept[k] in rows;
      rows := kept;
    }

    /** The lookup of the /rss endpoint: the chat whose token matches exactly, if any;
        with unique tokens there is at most one. */
    method LookupChat(token: Token) returns (chat: Option<ChatId>)
      requires Valid()
      ensures chat.Some? <==> TokenIssued(groups, token)
      ensures chat.Some? ==> chat.value in groups && groups[chat.value] == token
      ensures chat.Some? ==> forall c :: c in groups && groups[c] == token ==> c == chat.value
    {
      if c :| c in groups && groups[c] == token {
        return Some(c);
      }
      return None;
    }
  }
}
