/**
 * The conversation side of the store: resolving a user pair to its
 * conversation (creating one when none matches), the point lookup, and a
 * user's conversation list hydrated from `conversations`.
 */
module ConversationModel {
  import opened Wrappers
  import opened Ordered
  import opened Pagination
  import opened Schema

  /** A conversation as `get_conversation` and the user listing return it. */
  datatype Conversation = Conversation(
    id: ConversationId,
    user1Id: Option<UserId>,
    user2Id: Option<UserId>,
    lastMessageAt: Timestamp,
    lastMessageContent: Option<string>)

  function ToConversation(c: ConversationRow): Conversation
  {
    Conversation(c.conversationId, c.user1Id, c.user2Id, c.lastMessageAt, c.lastMessageContent)
  }

  /** `get_conversation`: the stored row's fields, or None when no row has the id. */
  function GetConversation(db: Db, id: ConversationId): (r: Option<Conversation>)
    ensures r.None? <==> forall x :: x in db.conversations ==> x.conversationId != id
    ensures r.Some? ==> (r.value.id == id
                         && exists x :: x in db.conversations && x.conversationId == id && r.value == ToConversation(x))
  {
    match Lookup(db.conversations, id)
    case None => None
    case Some(c) => Some(ToConversation(c))
  }

  /**
   * The row the creating INSERT leaves under `id`.  The INSERT lists every
   * column except last_message_content, which therefore keeps whatever a row
   * already stored under `id` held.
   */
  function Inserted(rows: seq<ConversationRow>, id: ConversationId, a: UserId, b: UserId, now: Timestamp)
    : (r: ConversationRow)
    ensures r.conversationId == id && Matches(r, a, b)
    ensures r.user1Id == Some(a) && r.user2Id == Some(b)
    ensures r.createdAt == Some(now) && r.lastMessageAt == now
    ensures Lookup(rows, id).None? ==> r.lastMessageContent.None?
    ensures Lookup(rows, id).Some? ==> r.lastMessageContent == Lookup(rows, id).value.lastMessageContent
  {
    var content := match Lookup(rows, id) case Some(c) => c.lastMessageContent case None => None;
    ConversationRow(id, Some(a), Some(b), Some(now), now, content)
  }

  /**
   * `create_or_get_conversation(a, b)` at time `now`: the first stored row
   * matching the pair in either order, with nothing written; otherwise a row
   * inserted under id (number of rows) + 1, and the record of that insert.
   */
  function Resolve(db: Db, a: UserId, b: UserId, now: Timestamp): (r: (ConversationRow, Db))
    ensures Matches(r.0, a, b)
    ensures r.1.messages == db.messages && r.1.messagesByUser == db.messagesByUser
         && r.1.conversationsByUser == db.conversationsByUser
  {
    match FirstMatch(db.conversations, a, b)
    case Some(c) => (c, db)
    case None =>
      var id := |db.conversations| + 1;
      (ConversationRow(id, Some(a), Some(b), Some(now), now, None),
       db.(conversations := Upsert(db.conversations, Inserted(db.conversations, id, a, b, now), ConversationKey)))
  }

  lemma ResolveValid(db: Db, a: UserId, b: UserId, now: Timestamp)
    requires Valid(db)
    ensures Valid(Resolve(db, a, b, now).1)
  {
    if FirstMatch(db.conversations, a, b).None? {
      var id := |db.conversations| + 1;
      UpsertSorted(db.conversations, Inserted(db.conversations, id, a, b, now), ConversationKey);
    }
  }

  /**
   * When a row matches the pair, it is returned as stored and the tables are
   * unchanged.  When none does, the record has id (number of rows) + 1, the
   * pair in the given order, created_at = last_message_at = now and no last
   * message; the table then holds the inserted row under that id, and only
   * `conversations` changed.
   */
  lemma ResolveOutcome(db: Db, a: UserId, b: UserId, now: Timestamp)
    requires Valid(db)
    ensures var (c, db') := Resolve(db, a, b, now);
      match FirstMatch(db.conversations, a, b)
      case Some(found) => c == found && db' == db
      case None =>
        && c == ConversationRow(|db.conversations| + 1, Some(a), Some(b), Some(now), now, None)
        && Lookup(db'.conversations, c.conversationId) == Some(Inserted(db.conversations, c.conversationId, a, b, now))
        && db' == db.(conversations := db'.conversations)
        && forall id :: (id != c.conversationId ==> Lookup(db'.conversations, id) == Lookup(db.conversations, id))
  {
    if FirstMatch(db.conversations, a, b).None? {
      var id := |db.conversations| + 1;
      var row := Inserted(db.conversations, id, a, b, now);
      var rows' := Upsert(db.conversations, row, ConversationKey);
      UpsertSorted(db.conversations, row, ConversationKey);
      LookupFinds(rows', row);
      forall other | other != id
        ensures Lookup(rows', other) == Lookup(db.conversations, other)
      {
        UpsertLookupOther(db.conversations, row, other);
      }
    }
  }

  /** After resolving, the pair's first match is the stored row under the returned id. */
  lemma ResolveStored(db: Db, a: UserId, b: UserId, now: Timestamp)
    requires Valid(db)
    ensures var (c, db') := Resolve(db, a, b, now);
      && Lookup(db'.conversations, c.conversationId).Some?
      && FirstMatch(db'.conversations, a, b) == Lookup(db'.conversations, c.conversationId)
  {
    var (c, db') := Resolve(db, a, b, now);
    var rows := db.conversations;
    match FirstMatch(rows, a, b)
    case Some(found) =>
      LookupFinds(rows, found);
    case None =>
      var row := Inserted(rows, c.conversationId, a, b, now);
      var rows' := Upsert(rows, row, ConversationKey);
      UpsertSorted(rows, row, ConversationKey);
      LookupFinds(rows', row);
      forall y | y in rows' && y != row
        ensures !Matches(y, a, b)
      {
        UpsertMembers(rows, row, ConversationKey, y);
      }
      FirstMatchOnly(rows', a, b, row);
  }

  /**
   * Resolving (a, b) and then (b, a) yields the same conversation id, and the
   * second call writes nothing.
   */
  lemma ResolveSwappedPair(db: Db, a: UserId, b: UserId, now: Timestamp, later: Timestamp)
    requires Valid(db)
    ensures var (c1, db1) := Resolve(db, a, b, now);
      var (c2, db2) := Resolve(db1, b, a, later);
      c2.conversationId == c1.conversationId && db2 == db1
  {
    var (c1, db1) := Resolve(db, a, b, now);
    ResolveStored(db, a, b, now);
    FirstMatchSymmetric(db1.conversations, a, b);
    var found := FirstMatch(db1.conversations, b, a);
    assert found.Some? && found.value.conversationId == c1.conversationId;
  }

  /**
   * The id (number of rows) + 1 is fresh exactly when no row holds it; with
   * dense ids it always is, and then the insert adds one row and keeps the
   * ids dense.
   */
  lemma ResolveAllocatesFresh(db: Db, a: UserId, b: UserId, now: Timestamp)
    requires Valid(db) && DenseIds(db.conversations)
    requires FirstMatch(db.conversations, a, b).None?
    ensures var (c, db') := Resolve(db, a, b, now);
      && Lookup(db.conversations, c.conversationId).None?
      && multiset(db'.conversations) == multiset(db.conversations) + multiset{Inserted(db.conversations, c.conversationId, a, b, now)}
      && DenseIds(db'.conversations)
  {
    var rows := db.conversations;
    var id := |rows| + 1;
    var row := Inserted(rows, id, a, b, now);
    assert forall x :: x in rows ==> x.conversationId != id;
    UpsertFresh(rows, row, ConversationKey);
    var rows' := Upsert(rows, row, ConversationKey);
    forall k | 0 <= k < |rows'|
      ensures 1 <= rows'[k].conversationId <= |rows'|
    {
      assert rows'[k] in multiset(rows');
      if rows'[k] != row {
        assert rows'[k] in multiset(rows);
      }
    }
  }

  lemma ResolveKeepsDense(db: Db, a: UserId, b: UserId, now: Timestamp)
    requires Valid(db) && DenseIds(db.conversations)
    ensures DenseIds(Resolve(db, a, b, now).1.conversations)
  {
    if FirstMatch(db.conversations, a, b).None? {
      ResolveAllocatesFresh(db, a, b, now);
    }
  }

  /**
   * Creating a conversation only when the either-order filter finds none keeps
   * every unordered pair in at most one row.  This needs no assumption about
   * the ids: an overwrite by a colliding id replaces a row, it never adds a
   * second row for a pair.
   */
  lemma ResolveKeepsPairsUnique(db: Db, a: UserId, b: UserId, now: Timestamp)
    requires Valid(db) && PairsUnique(db.conversations)
    ensures PairsUnique(Resolve(db, a, b, now).1.conversations)
  {
    var rows := db.conversations;
    if FirstMatch(rows, a, b).None? {
      var row := Inserted(rows, |rows| + 1, a, b, now);
      var rows' := Upsert(rows, row, ConversationKey);
      forall x, y, c, d | x in rows' && y in rows' && Matches(x, c, d) && Matches(y, c, d)
        ensures x == y
      {
        UpsertMembers(rows, row, ConversationKey, x);
        UpsertMembers(rows, row, ConversationKey, y);
      }
    }
  }

  /**
   * With ids that are not 1..n the count-based id can name an existing row:
   * here the single stored conversation has id 2, so resolving a new pair
   * allocates 2 again and the upsert overwrites it.  The earlier pair no
   * longer resolves to any row, the stored row keeps the old last message,
   * and the returned record says there is none.  Pairs still stay unique
   * (`ResolveKeepsPairsUnique`): the old pair is lost, not duplicated.
   */
  lemma CountBasedIdOverwrites()
    ensures var stored := ConversationRow(2, Some(7), Some(8), Some(0), 5, Some("hi"));
      var db := EmptyDb.(conversations := [stored]);
      var (c, db') := Resolve(db, 1, 3, 10);
      && Valid(db)
      && c.conversationId == 2
      && db'.conversations == [ConversationRow(2, Some(1), Some(3), Some(10), 10, Some("hi"))]
      && c.lastMessageContent == None
      && FirstMatch(db'.conversations, 7, 8).None?
  {
    var stored := ConversationRow(2, Some(7), Some(8), Some(0), 5, Some("hi"));
    var db := EmptyDb.(conversations := [stored]);
    assert !Matches(stored, 1, 3);
    assert FirstMatch(db.conversations, 1, 3).None?;
    assert Lookup(db.conversations, 2) == Some(stored);
  }

  // ---------------------------------------------------------------------
  // A user's conversation list
  // ---------------------------------------------------------------------

  /** The details of each listed entry, in order; an entry whose lookup misses is dropped. */
  function Hydrate(entries: seq<UserConversationRow>, rows: seq<ConversationRow>): (r: seq<Conversation>)
    ensures |r| <= |entries|
  {
    if entries == [] then []
    else
      var init := Hydrate(entries[..|entries| - 1], rows);
      match Lookup(rows, entries[|entries| - 1].conversationId)
      case Some(d) => init + [ToConversation(d)]
      case None => init
  }

  /** Hydration works entry by entry: it keeps the order of the page and drops only missing entries. */
  lemma {:induction false} HydrateAppend(e1: seq<UserConversationRow>, e2: seq<UserConversationRow>, rows: seq<ConversationRow>)
    ensures Hydrate(e1 + e2, rows) == Hydrate(e1, rows) + Hydrate(e2, rows)
    decreases |e2|
  {
    if e2 == [] {
      assert e1 + e2 == e1;
    } else {
      var init := e2[..|e2| - 1];
      HydrateAppend(e1, init, rows);
      assert (e1 + e2)[..|e1 + e2| - 1] == e1 + init;
    }
  }

  /** Every listed conversation is exactly what `get_conversation` returns for its id. */
  lemma {:induction false} HydrateFromLookups(entries: seq<UserConversationRow>, db: Db)
    ensures forall c :: c in Hydrate(entries, db.conversations) ==> GetConversation(db, c.id) == Some(c)
  {
    if entries != [] {
      HydrateFromLookups(entries[..|entries| - 1], db);
    }
  }

  /** When every entry's conversation exists, nothing is dropped and the k-th result details the k-th entry. */
  lemma {:induction false} HydrateAllFound(entries: seq<UserConversationRow>, rows: seq<ConversationRow>)
    requires forall k :: 0 <= k < |entries| ==> Lookup(rows, entries[k].conversationId).Some?
    ensures |Hydrate(entries, rows)| == |entries|
    ensures forall k :: (0 <= k < |entries|
      ==> Hydrate(entries, rows)[k] == ToConversation(Lookup(rows, entries[k].conversationId).value))
  {
    if entries != [] {
      var init := entries[..|entries| - 1];
      HydrateAllFound(init, rows);
    }
  }

  /** When no entry's conversation exists, the page comes back empty rather than failing. */
  lemma {:induction false} HydrateNoneFound(entries: seq<UserConversationRow>, rows: seq<ConversationRow>)
    requires forall k :: 0 <= k < |entries| ==> Lookup(rows, entries[k].conversationId).None?
    ensures Hydrate(entries, rows) == []
  {
    if entries != [] {
      HydrateNoneFound(entries[..|entries| - 1], rows);
    }
  }

  /** `get_user_conversations`: a page of the user's `conversations_by_user` partition, hydrated; `total` counts the partition's entries. */
  function ListUserConversations(db: Db, user: UserId, page: int, limit: int): (r: ReadResult<PageResult<Conversation>>)
    ensures r.Ok? <==> ValidLimit(if page > 1 then limit * page else limit)
    ensures r.Ok? ==> (r.value.total == |Partition(db.conversationsByUser, user)|
                       && r.value.page == page && r.value.limit == limit
                       && |r.value.data| <= limit)
  {
    var rows := Partition(db.conversationsByUser, user);
    match Paginate(rows, page, limit)
    case None => QueryFailed
    case Some(p) => Ok(PageResult(|rows|, page, limit, Hydrate(p, db.conversations)))
  }

  /** A page of the user's list details the window of entries at offset (page - 1) * limit, most recent first. */
  lemma ListUserConversationsWindow(db: Db, user: UserId, page: int, limit: int)
    requires page >= 1 && limit >= 1 && ValidLimit(limit * page)
    ensures var rows := Partition(db.conversationsByUser, user);
      ListUserConversations(db, user, page, limit)
        == Ok(PageResult(|rows|, page, limit,
                         Hydrate(rows[Min((page - 1) * limit, |rows|)..Min(page * limit, |rows|)], db.conversations)))
  {
    PageWindow(Partition(db.conversationsByUser, user), page, limit);
  }
}
