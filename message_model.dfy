/**
 * The message side of the store: the fan-out write of one sent message and
 * the two paginated reads of a conversation's messages.
 */
module MessageModel {
  import opened Wrappers
  import opened Ordered
  import opened Pagination
  import opened Schema

  /** A message as the model layer returns it, from a write or a listing. */
  datatype Message = Message(
    id: MessageId,
    conversationId: ConversationId,
    senderId: UserId,
    receiverId: UserId,
    content: string,
    createdAt: Timestamp)

  // ---------------------------------------------------------------------
  // The fan-out write
  // ---------------------------------------------------------------------

  /** The projection of a message into a user's `messages_by_user` partition. */
  function ForUser(u: UserId, m: MessageRow): UserMessageRow
  {
    UserMessageRow(u, m.conversationId, m.timestamp, m.messageId, m.senderId, m.receiverId, m.content)
  }

  /** The participant a user talks to in a message from `senderId` to `receiverId`. */
  function OtherUser(u: UserId, senderId: UserId, receiverId: UserId): UserId
  {
    if u == senderId then receiverId else senderId
  }

  /** The `conversations_by_user` row a user's partition receives for a message. */
  function ConversationEntry(u: UserId, m: MessageRow): UserConversationRow
  {
    UserConversationRow(u, m.conversationId, OtherUser(u, m.senderId, m.receiverId), m.timestamp, m.content)
  }

  /** The `messages_by_user` writes for `users`, in order. */
  function WriteUserMessages(t: map<UserId, seq<UserMessageRow>>, users: seq<UserId>, m: MessageRow)
    : map<UserId, seq<UserMessageRow>>
  {
    if users == [] then t
    else
      Put(WriteUserMessages(t, users[..|users| - 1], m), ForUser(users[|users| - 1], m),
          UserMessageKey, UserMessageOwner)
  }

  /** The `conversations_by_user` writes for `users`, in order. */
  function WriteUserConversations(t: map<UserId, seq<UserConversationRow>>, users: seq<UserId>, m: MessageRow)
    : map<UserId, seq<UserConversationRow>>
  {
    if users == [] then t
    else
      Put(WriteUserConversations(t, users[..|users| - 1], m), ConversationEntry(users[|users| - 1], m),
          UserConversationKey, UserConversationOwner)
  }

  /** The row `conversations` holds for the message's conversation once it is updated. */
  function Touched(rows: seq<ConversationRow>, m: MessageRow): (r: ConversationRow)
    ensures r.conversationId == m.conversationId
    ensures r.lastMessageAt == m.timestamp && r.lastMessageContent == Some(m.content)
    ensures Lookup(rows, m.conversationId).Some? ==>
      (var c := Lookup(rows, m.conversationId).value;
       r.user1Id == c.user1Id && r.user2Id == c.user2Id && r.createdAt == c.createdAt)
    ensures Lookup(rows, m.conversationId).None? ==> (r.user1Id.None? && r.user2Id.None? && r.createdAt.None?)
  {
    match Lookup(rows, m.conversationId)
    case Some(c) => c.(lastMessageAt := m.timestamp, lastMessageContent := Some(m.content))
    case None => ConversationRow(m.conversationId, None, None, None, m.timestamp, Some(m.content))
  }

  /**
   * `UPDATE conversations SET last_message_at, last_message_content WHERE
   * conversation_id`: an upsert, so a missing row is created with only these
   * columns set.
   */
  function UpdateLastMessage(rows: seq<ConversationRow>, m: MessageRow): (r: seq<ConversationRow>)
    ensures Touched(rows, m) in r
    ensures Lookup(r, m.conversationId).Some?
    ensures |rows| <= |r| <= |rows| + 1
  {
    Upsert(rows, Touched(rows, m), ConversationKey)
  }

  /** The tables after `create_message`: the message row, two projections, the conversation update, two conversation entries. */
  function WriteMessage(db: Db, m: MessageRow): (r: Db)
    ensures m in Partition(r.messages, m.conversationId)
    ensures Lookup(r.conversations, m.conversationId).Some?
    ensures |db.conversations| <= |r.conversations| <= |db.conversations| + 1
  {
    var users := [m.senderId, m.receiverId];
    Db(Put(db.messages, m, MessageKey, MessageConversation),
       WriteUserMessages(db.messagesByUser, users, m),
       WriteUserConversations(db.conversationsByUser, users, m),
       UpdateLastMessage(db.conversations, m))
  }

  /**
   * The message record for a stored row: what `create_message` returns for
   * the row it wrote, and what a listing returns for each row it fetched
   * (`created_at` is the row's timestamp).
   */
  function Created(m: MessageRow): Message
  {
    Message(m.messageId, m.conversationId, m.senderId, m.receiverId, m.content, m.timestamp)
  }

  // ---------------------------------------------------------------------
  // Properties of the fan-out write
  // ---------------------------------------------------------------------

  lemma {:induction false} WriteUserMessagesValid(t: map<UserId, seq<UserMessageRow>>, users: seq<UserId>, m: MessageRow)
    requires TableValid(t, UserMessageKey, UserMessageOwner)
    ensures TableValid(WriteUserMessages(t, users, m), UserMessageKey, UserMessageOwner)
  {
    if users != [] {
      WriteUserMessagesValid(t, users[..|users| - 1], m);
      PutValid(WriteUserMessages(t, users[..|users| - 1], m), ForUser(users[|users| - 1], m),
               UserMessageKey, UserMessageOwner);
    }
  }

  lemma {:induction false} WriteUserConversationsValid(t: map<UserId, seq<UserConversationRow>>, users: seq<UserId>, m: MessageRow)
    requires TableValid(t, UserConversationKey, UserConversationOwner)
    ensures TableValid(WriteUserConversations(t, users, m), UserConversationKey, UserConversationOwner)
  {
    if users != [] {
      WriteUserConversationsValid(t, users[..|users| - 1], m);
      PutValid(WriteUserConversations(t, users[..|users| - 1], m), ConversationEntry(users[|users| - 1], m),
               UserConversationKey, UserConversationOwner);
    }
  }

  /** The fan-out write keeps every table in clustering order and every row in its own partition. */
  lemma WriteMessageValid(db: Db, m: MessageRow)
    requires Valid(db)
    ensures Valid(WriteMessage(db, m))
  {
    var users := [m.senderId, m.receiverId];
    PutValid(db.messages, m, MessageKey, MessageConversation);
    WriteUserMessagesValid(db.messagesByUser, users, m);
    WriteUserConversationsValid(db.conversationsByUser, users, m);
    UpsertSorted(db.conversations, Touched(db.conversations, m), ConversationKey);
  }

  /**
   * `messages`: the conversation's partition gains the message and keeps
   * every other row whose key differs; if no row had the message's
   * (timestamp, message_id) key it grows by exactly this one row.  No other
   * conversation's partition changes.
   */
  lemma MessageRowWritten(db: Db, m: MessageRow)
    requires Valid(db)
    ensures var part := Partition(db.messages, m.conversationId);
      var part' := Partition(WriteMessage(db, m).messages, m.conversationId);
      && m in part'
      && (forall x :: x in part' <==> x == m || (x in part && MessageKey(x) != MessageKey(m)))
      && ((forall x :: x in part ==> MessageKey(x) != MessageKey(m))
            ==> multiset(part') == multiset(part) + multiset{m})
    ensures forall c :: (c != m.conversationId
      ==> Partition(WriteMessage(db, m).messages, c) == Partition(db.messages, c))
  {
    var part := Partition(db.messages, m.conversationId);
    forall x
      ensures x in Partition(WriteMessage(db, m).messages, m.conversationId)
          <==> x == m || (x in part && MessageKey(x) != MessageKey(m))
    {
      PutMembers(db.messages, m, MessageKey, MessageConversation, m.conversationId, x);
    }
    if forall x :: x in part ==> MessageKey(x) != MessageKey(m) {
      UpsertFresh(part, m, MessageKey);
    }
  }

  /**
   * `messages_by_user`: the sender's and the receiver's partitions each hold
   * a projection carrying the message's id, timestamp, participants and
   * content; no other user's partition changes.
   */
  lemma UserMessageRowsWritten(db: Db, m: MessageRow)
    requires Valid(db)
    ensures var t := WriteMessage(db, m).messagesByUser;
      && UserMessageRow(m.senderId, m.conversationId, m.timestamp, m.messageId, m.senderId, m.receiverId, m.content)
           in Partition(t, m.senderId)
      && UserMessageRow(m.receiverId, m.conversationId, m.timestamp, m.messageId, m.senderId, m.receiverId, m.content)
           in Partition(t, m.receiverId)
      && (forall u, x :: ((u == m.senderId || u == m.receiverId)
            && x in Partition(db.messagesByUser, u) && UserMessageKey(x) != UserMessageKey(ForUser(u, m))
            ==> x in Partition(t, u)))
      && (forall u, x :: ((u == m.senderId || u == m.receiverId) && x in Partition(t, u)
            ==> x == ForUser(u, m) || x in Partition(db.messagesByUser, u)))
      && forall u :: (u != m.senderId && u != m.receiverId ==> Partition(t, u) == Partition(db.messagesByUser, u))
  {
    var t := db.messagesByUser;
    var t1 := Put(t, ForUser(m.senderId, m), UserMessageKey, UserMessageOwner);
    var t2 := Put(t1, ForUser(m.receiverId, m), UserMessageKey, UserMessageOwner);
    assert [m.senderId, m.receiverId][..1] == [m.senderId] && [m.senderId][..0] == [];
    assert WriteUserMessages(t, [m.senderId], m) == t1;
    assert WriteUserMessages(t, [m.senderId, m.receiverId], m) == t2;
    PutValid(t, ForUser(m.senderId, m), UserMessageKey, UserMessageOwner);
    forall u: UserId, x: UserMessageRow | u == m.senderId || u == m.receiverId
      ensures x in Partition(t, u) && UserMessageKey(x) != UserMessageKey(ForUser(u, m)) ==> x in Partition(t2, u)
      ensures x in Partition(t2, u) ==> x == ForUser(u, m) || x in Partition(t, u)
    {
      PutMembers(t, ForUser(m.senderId, m), UserMessageKey, UserMessageOwner, u, x);
      PutMembers(t1, ForUser(m.receiverId, m), UserMessageKey, UserMessageOwner, u, x);
    }
  }

  /**
   * `conversations_by_user`: each participant's partition gains an entry
   * naming the other participant, stamped with the message's time and
   * content.  Because last_message_at is part of the key, an earlier entry
   * for the same conversation stays beside it; no other user's partition
   * changes.
   */
  lemma UserConversationRowsWritten(db: Db, m: MessageRow)
    requires Valid(db)
    ensures var t := WriteMessage(db, m).conversationsByUser;
      && UserConversationRow(m.senderId, m.conversationId, m.receiverId, m.timestamp, m.content)
           in Partition(t, m.senderId)
      && UserConversationRow(m.receiverId, m.conversationId, m.senderId, m.timestamp, m.content)
           in Partition(t, m.receiverId)
      && (forall x :: x in Partition(db.conversationsByUser, m.senderId) && x.lastMessageAt != m.timestamp
            ==> x in Partition(t, m.senderId))
      && (forall x :: x in Partition(db.conversationsByUser, m.receiverId) && x.lastMessageAt != m.timestamp
            ==> x in Partition(t, m.receiverId))
      && (forall u, x :: ((u == m.senderId || u == m.receiverId)
            ==> (x in Partition(t, u)
                 <==> x == ConversationEntry(u, m)
                      || (x in Partition(db.conversationsByUser, u)
                          && UserConversationKey(x) != UserConversationKey(ConversationEntry(u, m))))))
      && forall u :: (u != m.senderId && u != m.receiverId
           ==> Partition(t, u) == Partition(db.conversationsByUser, u))
  {
    var t := db.conversationsByUser;
    var es, er := ConversationEntry(m.senderId, m), ConversationEntry(m.receiverId, m);
    var t1 := Put(t, es, UserConversationKey, UserConversationOwner);
    var t2 := Put(t1, er, UserConversationKey, UserConversationOwner);
    assert [m.senderId, m.receiverId][..1] == [m.senderId] && [m.senderId][..0] == [];
    assert WriteUserConversations(t, [m.senderId], m) == t1;
    assert WriteUserConversations(t, [m.senderId, m.receiverId], m) == t2;
    PutValid(t, es, UserConversationKey, UserConversationOwner);
    forall u: UserId, x: UserConversationRow | (u == m.senderId || u == m.receiverId) && x in Partition(t, u) && x.lastMessageAt != m.timestamp
      ensures x in Partition(t2, u)
    {
      assert UserConversationKey(x)[0] != UserConversationKey(es)[0];
      assert UserConversationKey(x)[0] != UserConversationKey(er)[0];
      PutMembers(t, es, UserConversationKey, UserConversationOwner, u, x);
      PutMembers(t1, er, UserConversationKey, UserConversationOwner, u, x);
    }
    forall u: UserId, x: UserConversationRow | u == m.senderId || u == m.receiverId
      ensures x in Partition(t2, u)
          <==> x == ConversationEntry(u, m)
               || (x in Partition(t, u) && UserConversationKey(x) != UserConversationKey(ConversationEntry(u, m)))
    {
      PutMembers(t, es, UserConversationKey, UserConversationOwner, u, x);
      PutMembers(t1, er, UserConversationKey, UserConversationOwner, u, x);
    }
  }

  /**
   * `conversations`: the conversation's row now carries the message's time
   * and content, and keeps its participants and creation time (null if the
   * row did not exist); every other conversation's row is unchanged.
   */
  lemma ConversationUpdated(db: Db, m: MessageRow)
    requires Valid(db)
    ensures var rows' := WriteMessage(db, m).conversations;
      var before := Lookup(db.conversations, m.conversationId);
      && Lookup(rows', m.conversationId).Some?
      && Lookup(rows', m.conversationId).value.lastMessageAt == m.timestamp
      && Lookup(rows', m.conversationId).value.lastMessageContent == Some(m.content)
      && Lookup(rows', m.conversationId).value.user1Id == (if before.Some? then before.value.user1Id else None)
      && Lookup(rows', m.conversationId).value.user2Id == (if before.Some? then before.value.user2Id else None)
      && Lookup(rows', m.conversationId).value.createdAt == (if before.Some? then before.value.createdAt else None)
      && forall id :: (id != m.conversationId ==> Lookup(rows', id) == Lookup(db.conversations, id))
  {
    WriteMessageValid(db, m);
    var rows := db.conversations;
    var row := Touched(rows, m);
    var rows' := Upsert(rows, row, ConversationKey);
    assert rows' == WriteMessage(db, m).conversations;
    LookupFinds(rows', row);
    forall id | id != m.conversationId
      ensures Lookup(rows', id) == Lookup(rows, id)
    {
      UpsertLookupOther(rows, row, id);
    }
  }

  /** Updating an existing conversation keeps the table's size and the id at every position. */
  lemma UpdateKeepsIds(rows: seq<ConversationRow>, m: MessageRow)
    requires SortedBy(rows, ConversationKey)
    requires Lookup(rows, m.conversationId).Some?
    ensures |UpdateLastMessage(rows, m)| == |rows|
    ensures forall k :: 0 <= k < |rows| ==> UpdateLastMessage(rows, m)[k].conversationId == rows[k].conversationId
  {
    var stored := Lookup(rows, m.conversationId).value;
    var i :| 0 <= i < |rows| && rows[i] == stored;
    var touched := Touched(rows, m);
    assert touched.conversationId == rows[i].conversationId;
    UpsertReplaces(rows, touched, ConversationKey, i);
    SpliceAt(rows, touched, i);
  }

  /**
   * The UPDATE never touches the users of a row (a row it creates has none),
   * so every unordered pair stays in at most one row.
   */
  /** The touched row holds a pair only if the stored row it updates already held it. */
  lemma TouchedMatches(rows: seq<ConversationRow>, m: MessageRow, c: UserId, d: UserId)
    ensures Matches(Touched(rows, m), c, d)
        ==> (Lookup(rows, m.conversationId).Some? && Matches(Lookup(rows, m.conversationId).value, c, d))
  {
  }

  lemma UpdateKeepsPairsUnique(rows: seq<ConversationRow>, m: MessageRow)
    requires SortedBy(rows, ConversationKey) && PairsUnique(rows)
    ensures PairsUnique(UpdateLastMessage(rows, m))
  {
    var touched := Touched(rows, m);
    var rows' := UpdateLastMessage(rows, m);
    forall x, y, c, d | x in rows' && y in rows' && Matches(x, c, d) && Matches(y, c, d)
      ensures x == y
    {
      UpsertMembers(rows, touched, ConversationKey, x);
      UpsertMembers(rows, touched, ConversationKey, y);
      TouchedMatches(rows, m, c, d);
    }
  }

  /** Updating an existing conversation keeps the ids 1..n. */
  lemma UpdateKeepsDense(rows: seq<ConversationRow>, m: MessageRow)
    requires SortedBy(rows, ConversationKey) && DenseIds(rows)
    requires Lookup(rows, m.conversationId).Some?
    ensures DenseIds(UpdateLastMessage(rows, m))
  {
    UpdateKeepsIds(rows, m);
    var rows' := UpdateLastMessage(rows, m);
    forall k | 0 <= k < |rows'|
      ensures 1 <= rows'[k].conversationId <= |rows'|
    {
      assert rows'[k].conversationId == rows[k].conversationId;
    }
  }

  // ---------------------------------------------------------------------
  // The paginated reads
  // ---------------------------------------------------------------------

  /** The listing's records, one per fetched row and in the same order. */
  function FormatMessages(rows: seq<MessageRow>): (r: seq<Message>)
    ensures |r| == |rows|
    ensures forall k :: 0 <= k < |rows| ==> r[k] == Created(rows[k])
  {
    seq(|rows|, i requires 0 <= i < |rows| => Created(rows[i]))
  }

  /** `get_conversation_messages`: one page of the conversation's partition, newest first, with its size as `total`. */
  function ListMessages(db: Db, cid: ConversationId, page: int, limit: int): (r: ReadResult<PageResult<Message>>)
    ensures r.Ok? <==> ValidLimit(if page > 1 then limit * page else limit)
    ensures r.Ok? ==> (r.value.total == |Partition(db.messages, cid)|
                       && r.value.page == page && r.value.limit == limit
                       && |r.value.data| <= limit)
  {
    var rows := Partition(db.messages, cid);
    match Paginate(rows, page, limit)
    case None => QueryFailed
    case Some(p) => Ok(PageResult(|rows|, page, limit, FormatMessages(p)))
  }

  /** The rows with `timestamp < before`, in clustering order. */
  function Before(rows: seq<MessageRow>, before: Timestamp): (r: seq<MessageRow>)
    ensures |r| <= |rows|
    ensures forall k :: 0 <= k < |r| ==> r[k].timestamp < before
  {
    if rows == [] then []
    else (if rows[0].timestamp < before then [rows[0]] else []) + Before(rows[1..], before)
  }

  /** The rows with `timestamp >= before`, in clustering order. */
  function AtOrAfter(rows: seq<MessageRow>, before: Timestamp): (r: seq<MessageRow>)
    ensures forall k :: 0 <= k < |r| ==> r[k].timestamp >= before
  {
    if rows == [] then []
    else (if rows[0].timestamp >= before then [rows[0]] else []) + AtOrAfter(rows[1..], before)
  }

  /** `get_messages_before_timestamp`: the same pagination over the rows older than `before`; `total` counts those rows. */
  function ListMessagesBefore(db: Db, cid: ConversationId, before: Timestamp, page: int, limit: int)
    : (r: ReadResult<PageResult<Message>>)
    ensures r.Ok? <==> ValidLimit(if page > 1 then limit * page else limit)
    ensures r.Ok? ==> (r.value.total == |Before(Partition(db.messages, cid), before)|
                       && r.value.page == page && r.value.limit == limit
                       && |r.value.data| <= limit
                       && forall k :: 0 <= k < |r.value.data| ==> r.value.data[k].createdAt < before)
  {
    var rows := Before(Partition(db.messages, cid), before);
    match Paginate(rows, page, limit)
    case None => QueryFailed
    case Some(p) => Ok(PageResult(|rows|, page, limit, FormatMessages(p)))
  }

  /** A page of messages is the formatted window of the partition at offset (page - 1) * limit. */
  lemma ListMessagesWindow(db: Db, cid: ConversationId, page: int, limit: int)
    requires page >= 1 && limit >= 1 && ValidLimit(limit * page)
    ensures var rows := Partition(db.messages, cid);
      ListMessages(db, cid, page, limit)
        == Ok(PageResult(|rows|, page, limit,
                         FormatMessages(rows[Min((page - 1) * limit, |rows|)..Min(page * limit, |rows|)])))
  {
    PageWindow(Partition(db.messages, cid), page, limit);
  }

  /** Timestamps never increase along a partition of `messages`. */
  lemma NewestFirst(rows: seq<MessageRow>, i: int, j: int)
    requires SortedBy(rows, MessageKey)
    requires 0 <= i < j < |rows|
    ensures rows[i].timestamp >= rows[j].timestamp
  {
    assert LexLess(MessageKey(rows[i]), MessageKey(rows[j]));
  }

  /** Timestamps never increase along the rows. */
  ghost predicate NewestFirstOrder(rows: seq<MessageRow>)
  {
    forall i, j :: 0 <= i < j < |rows| ==> rows[i].timestamp >= rows[j].timestamp
  }

  lemma {:induction false} NoneAtOrAfter(rows: seq<MessageRow>, before: Timestamp)
    requires forall k :: 0 <= k < |rows| ==> rows[k].timestamp < before
    ensures AtOrAfter(rows, before) == []
  {
    if rows != [] {
      NoneAtOrAfter(rows[1..], before);
    }
  }

  lemma SplitOlderHead(rows: seq<MessageRow>, before: Timestamp)
    requires rows != []
    requires forall k :: 0 <= k < |rows| ==> rows[k].timestamp < before
    requires rows[1..] == AtOrAfter(rows[1..], before) + Before(rows[1..], before)
    ensures rows == AtOrAfter(rows, before) + Before(rows, before)
  {
    var tail := rows[1..];
    NoneAtOrAfter(tail, before);
    assert Before(rows, before) == [rows[0]] + Before(tail, before);
    assert rows == [rows[0]] + tail;
  }

  lemma SplitNewerHead(rows: seq<MessageRow>, before: Timestamp)
    requires rows != [] && rows[0].timestamp >= before
    requires rows[1..] == AtOrAfter(rows[1..], before) + Before(rows[1..], before)
    ensures rows == AtOrAfter(rows, before) + Before(rows, before)
  {
    var tail := rows[1..];
    assert AtOrAfter(rows, before) == [rows[0]] + AtOrAfter(tail, before);
    assert rows == [rows[0]] + tail;
  }

  lemma {:induction false} SplitAtTimestamp(rows: seq<MessageRow>, before: Timestamp)
    requires NewestFirstOrder(rows)
    ensures rows == AtOrAfter(rows, before) + Before(rows, before)
  {
    if rows != [] {
      var tail := rows[1..];
      assert NewestFirstOrder(tail) by {
        forall i, j | 0 <= i < j < |tail|
          ensures tail[i].timestamp >= tail[j].timestamp
        {
          assert tail[i] == rows[i + 1] && tail[j] == rows[j + 1];
        }
      }
      SplitAtTimestamp(tail, before);
      if rows[0].timestamp < before {
        SplitOlderHead(rows, before);
      } else {
        SplitNewerHead(rows, before);
      }
    }
  }

  /**
   * In a partition kept newest first, the rows at or after `before` form a
   * prefix and the older rows the rest: the two listings are disjoint and
   * together give back the whole history, in order.
   */
  lemma BeforeIsSuffix(rows: seq<MessageRow>, before: Timestamp)
    requires SortedBy(rows, MessageKey)
    ensures rows == AtOrAfter(rows, before) + Before(rows, before)
  {
    forall i, j | 0 <= i < j < |rows|
      ensures rows[i].timestamp >= rows[j].timestamp
    {
      NewestFirst(rows, i, j);
    }
    SplitAtTimestamp(rows, before);
  }

  /** A page of the before-timestamp read is the formatted window of the older rows, which are the tail of the partition. */
  lemma ListMessagesBeforeWindow(db: Db, cid: ConversationId, before: Timestamp, page: int, limit: int)
    requires Valid(db)
    requires page >= 1 && limit >= 1 && ValidLimit(limit * page)
    ensures var all := Partition(db.messages, cid);
      var rows := Before(all, before);
      && all == AtOrAfter(all, before) + rows
      && ListMessagesBefore(db, cid, before, page, limit)
           == Ok(PageResult(|rows|, page, limit,
                            FormatMessages(rows[Min((page - 1) * limit, |rows|)..Min(page * limit, |rows|)])))
  {
    var all := Partition(db.messages, cid);
    BeforeIsSuffix(all, before);
    PageWindow(Before(all, before), page, limit);
  }

  /** A message newer than every row of its conversation is the first entry of page 1 after it is written. */
  lemma NewestMessageLeadsPageOne(db: Db, m: MessageRow, limit: int)
    requires Valid(db)
    requires ValidLimit(limit)
    requires forall x :: x in Partition(db.messages, m.conversationId) ==> x.timestamp < m.timestamp
    ensures var r := ListMessages(WriteMessage(db, m), m.conversationId, 1, limit);
      r.Ok? && |r.value.data| >= 1 && r.value.data[0] == Created(m)
  {
    var part := Partition(db.messages, m.conversationId);
    var db' := WriteMessage(db, m);
    var part' := Partition(db'.messages, m.conversationId);
    assert part' == Upsert(part, m, MessageKey);
    if part != [] {
      assert LexLess(MessageKey(m), MessageKey(part[0]));
    }
    assert part'[0] == m;
    ListMessagesWindow(db', m.conversationId, 1, limit);
  }
}
