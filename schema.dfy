/**
 * The four denormalised tables of the message store, held in memory.
 *
 * `messages`, `messages_by_user` and `conversations_by_user` map a partition
 * key to the partition's rows in clustering order.  `conversations` has a
 * partition per conversation id and no clustering column; it is kept as one
 * sequence sorted by id, which is also the order in which a full-table scan
 * returns its rows in this model.
 */
module Schema {
  import opened Wrappers
  import opened Ordered

  type UserId = int
  type ConversationId = int
  /** A message's uuid, compared as the store compares uuids: ascending. */
  type MessageId = int
  /** A `timestamp` column; the clock is an input of every writing operation. */
  type Timestamp = int

  /** `messages`: partition conversation_id, clustering (timestamp DESC, message_id ASC). */
  datatype MessageRow = MessageRow(
    conversationId: ConversationId,
    timestamp: Timestamp,
    messageId: MessageId,
    senderId: UserId,
    receiverId: UserId,
    content: string)

  function MessageKey(m: MessageRow): seq<int>
  {
    [-m.timestamp, m.messageId]
  }

  function MessageConversation(m: MessageRow): int
  {
    m.conversationId
  }

  /** `messages_by_user`: partition user_id, clustering (conversation_id ASC, timestamp DESC, message_id ASC). */
  datatype UserMessageRow = UserMessageRow(
    userId: UserId,
    conversationId: ConversationId,
    timestamp: Timestamp,
    messageId: MessageId,
    senderId: UserId,
    receiverId: UserId,
    content: string)

  function UserMessageKey(m: UserMessageRow): seq<int>
  {
    [m.conversationId, -m.timestamp, m.messageId]
  }

  function UserMessageOwner(m: UserMessageRow): int
  {
    m.userId
  }

  /** `conversations_by_user`: partition user_id, clustering (last_message_at DESC, conversation_id ASC). */
  datatype UserConversationRow = UserConversationRow(
    userId: UserId,
    conversationId: ConversationId,
    otherUserId: UserId,
    lastMessageAt: Timestamp,
    lastMessageContent: string)

  function UserConversationKey(c: UserConversationRow): seq<int>
  {
    [-c.lastMessageAt, c.conversationId]
  }

  function UserConversationOwner(c: UserConversationRow): int
  {
    c.userId
  }

  /**
   * `conversations`: primary key conversation_id.  The participants and the
   * creation time are null in a row that only an UPDATE has written.
   */
  datatype ConversationRow = ConversationRow(
    conversationId: ConversationId,
    user1Id: Option<UserId>,
    user2Id: Option<UserId>,
    createdAt: Option<Timestamp>,
    lastMessageAt: Timestamp,
    lastMessageContent: Option<string>)

  function ConversationKey(c: ConversationRow): seq<int>
  {
    [c.conversationId]
  }

  datatype Db = Db(
    messages: map<ConversationId, seq<MessageRow>>,
    messagesByUser: map<UserId, seq<UserMessageRow>>,
    conversationsByUser: map<UserId, seq<UserConversationRow>>,
    conversations: seq<ConversationRow>)

  const EmptyDb := Db(map[], map[], map[], [])

  /**
   * Every partition is in clustering order and holds only rows whose
   * partition-key column names that partition.
   */
  ghost predicate Valid(db: Db)
  {
    && TableValid(db.messages, MessageKey, MessageConversation)
    && TableValid(db.messagesByUser, UserMessageKey, UserMessageOwner)
    && TableValid(db.conversationsByUser, UserConversationKey, UserConversationOwner)
    && SortedBy(db.conversations, ConversationKey)
  }

  lemma EmptyDbValid()
    ensures Valid(EmptyDb)
  {
  }

  /** The ids in `conversations` are exactly 1..n, n being its number of rows (the keys are distinct). */
  ghost predicate DenseIds(rows: seq<ConversationRow>)
  {
    forall k :: 0 <= k < |rows| ==> 1 <= rows[k].conversationId <= |rows|
  }

  /** `SELECT * FROM conversations WHERE conversation_id = id`: the row stored under `id`, if any. */
  function Lookup(rows: seq<ConversationRow>, id: ConversationId): (r: Option<ConversationRow>)
    ensures r.Some? ==> r.value in rows && r.value.conversationId == id
    ensures r.None? <==> forall x :: x in rows ==> x.conversationId != id
  {
    if rows == [] then None
    else if rows[0].conversationId == id then Some(rows[0])
    else Lookup(rows[1..], id)
  }

  /** In a table in key order a conversation id names at most one row, which the point lookup finds. */
  lemma {:induction false} LookupFinds(rows: seq<ConversationRow>, x: ConversationRow)
    requires SortedBy(rows, ConversationKey)
    requires x in rows
    ensures Lookup(rows, x.conversationId) == Some(x)
  {
    if rows[0] != x {
      if rows[0].conversationId == x.conversationId {
        var j :| 0 <= j < |rows| && rows[j] == x;
        LexLessIrreflexive(ConversationKey(x));
        assert false;
      }
      assert x in rows[1..];
      LookupFinds(rows[1..], x);
    }
  }

  /** Writing one conversation's row leaves what every other id looks up to unchanged. */
  lemma UpsertLookupOther(rows: seq<ConversationRow>, row: ConversationRow, id: ConversationId)
    requires SortedBy(rows, ConversationKey)
    requires id != row.conversationId
    ensures Lookup(Upsert(rows, row, ConversationKey), id) == Lookup(rows, id)
  {
    var rows' := Upsert(rows, row, ConversationKey);
    UpsertSorted(rows, row, ConversationKey);
    var l := Lookup(rows, id);
    if l.Some? {
      UpsertMembers(rows, row, ConversationKey, l.value);
      LookupFinds(rows', l.value);
    } else {
      var l' := Lookup(rows', id);
      if l'.Some? {
        UpsertMembers(rows, row, ConversationKey, l'.value);
      }
    }
  }

  /** The filter `(user1_id = a AND user2_id = b) OR (user1_id = b AND user2_id = a)`. */
  predicate Matches(c: ConversationRow, a: UserId, b: UserId)
  {
    (c.user1Id == Some(a) && c.user2Id == Some(b)) || (c.user1Id == Some(b) && c.user2Id == Some(a))
  }

  /** At most one conversation row holds any unordered pair of users. */
  ghost predicate PairsUnique(rows: seq<ConversationRow>)
  {
    forall x, y, c, d :: x in rows && y in rows && Matches(x, c, d) && Matches(y, c, d) ==> x == y
  }

  /** The first row of a scan of `conversations` that matches the pair in either order. */
  function FirstMatch(rows: seq<ConversationRow>, a: UserId, b: UserId): (r: Option<ConversationRow>)
    ensures r.Some? ==> r.value in rows && Matches(r.value, a, b)
    ensures r.None? <==> forall x :: x in rows ==> !Matches(x, a, b)
  {
    if rows == [] then None
    else if Matches(rows[0], a, b) then Some(rows[0])
    else FirstMatch(rows[1..], a, b)
  }

  /** The match is the earliest matching row in scan order. */
  lemma {:induction false} FirstMatchIsFirst(rows: seq<ConversationRow>, a: UserId, b: UserId)
    requires FirstMatch(rows, a, b).Some?
    ensures exists i :: 0 <= i < |rows| && rows[i] == FirstMatch(rows, a, b).value
                     && forall j :: 0 <= j < i ==> !Matches(rows[j], a, b)
  {
    if !Matches(rows[0], a, b) {
      FirstMatchIsFirst(rows[1..], a, b);
      var i :| 0 <= i < |rows[1..]| && rows[1..][i] == FirstMatch(rows[1..], a, b).value
               && forall j :: 0 <= j < i ==> !Matches(rows[1..][j], a, b);
      assert rows[i + 1] == FirstMatch(rows, a, b).value;
      forall j | 0 <= j < i + 1
        ensures !Matches(rows[j], a, b)
      {
        if j > 0 {
          assert rows[j] == rows[1..][j - 1];
        }
      }
    } else {
      assert rows[0] == FirstMatch(rows, a, b).value;
    }
  }

  /** The lookup does not depend on the order in which the pair is given. */
  lemma {:induction false} FirstMatchSymmetric(rows: seq<ConversationRow>, a: UserId, b: UserId)
    ensures FirstMatch(rows, a, b) == FirstMatch(rows, b, a)
  {
    if rows != [] {
      FirstMatchSymmetric(rows[1..], a, b);
    }
  }

  /** A scan whose only matching row is `x` finds `x`. */
  lemma {:induction false} FirstMatchOnly(rows: seq<ConversationRow>, a: UserId, b: UserId, x: ConversationRow)
    requires x in rows && Matches(x, a, b)
    requires forall y :: y in rows && y != x ==> !Matches(y, a, b)
    ensures FirstMatch(rows, a, b) == Some(x)
  {
    if rows[0] != x {
      assert x in rows[1..];
      FirstMatchOnly(rows[1..], a, b, x);
    }
  }

  /** A scan finds the row at `i` when it matches and no earlier row does. */
  lemma {:induction false} FirstMatchAt(rows: seq<ConversationRow>, a: UserId, b: UserId, i: nat)
    requires i < |rows| && Matches(rows[i], a, b)
    requires forall j :: 0 <= j < i ==> !Matches(rows[j], a, b)
    ensures FirstMatch(rows, a, b) == Some(rows[i])
  {
    if i > 0 {
      FirstMatchAt(rows[1..], a, b, i - 1);
    }
  }
}
