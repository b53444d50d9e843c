/**
 * The message controller: sending resolves the pair's conversation and then
 * writes the message into it; the two listings check that the conversation
 * exists before reading its messages.
 */
module MessageController {
  import opened Wrappers
  import opened Ordered
  import opened Pagination
  import opened Schema
  import opened MessageModel
  import opened ConversationModel
  import opened CassandraModels

  /** The body of a send request. */
  datatype MessageCreate = MessageCreate(senderId: UserId, receiverId: UserId, content: string)

  /** What an endpoint answers: its result, a not-found signal, or a generic failure. */
  datatype Response<T> = Success(value: T) | NotFound | Failed

  /**
   * The effect of `send_message` on the tables: resolve the pair (clock
   * reading `now`), then write the message into the resolved conversation
   * (clock reading `timestamp`, fresh id `messageId`).
   */
  function Send(db: Db, req: MessageCreate, now: Timestamp, timestamp: Timestamp, messageId: MessageId)
    : (r: (Message, Db))
    ensures r.0.id == messageId && r.0.createdAt == timestamp
    ensures r.0.senderId == req.senderId && r.0.receiverId == req.receiverId && r.0.content == req.content
    ensures Matches(Resolve(db, req.senderId, req.receiverId, now).0, req.senderId, req.receiverId)
         && r.0.conversationId == Resolve(db, req.senderId, req.receiverId, now).0.conversationId
    ensures MessageRow(r.0.conversationId, timestamp, messageId, req.senderId, req.receiverId, req.content)
         in Partition(r.1.messages, r.0.conversationId)
    ensures Lookup(r.1.conversations, r.0.conversationId).Some?
  {
    var (conversation, db1) := Resolve(db, req.senderId, req.receiverId, now);
    var row := MessageRow(conversation.conversationId, timestamp, messageId, req.senderId, req.receiverId, req.content);
    (Created(row), WriteMessage(db1, row))
  }

  /** `send_message`: returns the created message's id, participants, content, time and conversation. */
  method SendMessage(store: Store, req: MessageCreate, now: Timestamp, timestamp: Timestamp, messageId: MessageId)
    returns (resp: Message)
    requires store.Valid()
    modifies store
    ensures store.Valid()
    ensures (resp, store.State()) == Send(old(store.State()), req, now, timestamp, messageId)
  {
    var conversation := store.CreateOrGetConversation(req.senderId, req.receiverId, now);
    var message := store.CreateMessage(req.senderId, req.receiverId, req.content,
                                       conversation.conversationId, timestamp, messageId);
    resp := Message(message.id, message.conversationId, message.senderId, message.receiverId,
                    message.content, message.createdAt);
  }

  /**
   * After a send, the response carries the request's participants and
   * content, the fresh id and time, and the id the pair resolves to; that
   * conversation now exists, is between the two users, and its last message
   * is this one.
   */
  lemma SendReadsBack(db: Db, req: MessageCreate, now: Timestamp, timestamp: Timestamp, messageId: MessageId)
    requires Valid(db)
    ensures var (resp, db') := Send(db, req, now, timestamp, messageId);
      var cid := Resolve(db, req.senderId, req.receiverId, now).0.conversationId;
      && resp == Message(messageId, cid, req.senderId, req.receiverId, req.content, timestamp)
      && Valid(db')
      && GetConversation(db', cid).Some?
      && GetConversation(db', cid).value.lastMessageAt == timestamp
      && GetConversation(db', cid).value.lastMessageContent == Some(req.content)
      && ((GetConversation(db', cid).value.user1Id == Some(req.senderId)
             && GetConversation(db', cid).value.user2Id == Some(req.receiverId))
          || (GetConversation(db', cid).value.user1Id == Some(req.receiverId)
             && GetConversation(db', cid).value.user2Id == Some(req.senderId)))
  {
    var (c, db1) := Resolve(db, req.senderId, req.receiverId, now);
    var row := MessageRow(c.conversationId, timestamp, messageId, req.senderId, req.receiverId, req.content);
    ResolveValid(db, req.senderId, req.receiverId, now);
    ResolveStored(db, req.senderId, req.receiverId, now);
    WriteMessageValid(db1, row);
    ConversationUpdated(db1, row);
  }

  /**
   * The conversation row a send leaves behind is the pair's first match,
   * so a reply from the receiver resolves to the same conversation and
   * creates nothing.
   */
  lemma SendThenReplySameConversation(db: Db, req: MessageCreate, now: Timestamp, timestamp: Timestamp,
                                      messageId: MessageId, later: Timestamp)
    requires Valid(db)
    ensures var (resp, db') := Send(db, req, now, timestamp, messageId);
      var (c, db'') := Resolve(db', req.receiverId, req.senderId, later);
      c.conversationId == resp.conversationId && db'' == db'
  {
    var a, b := req.senderId, req.receiverId;
    var (c1, db1) := Resolve(db, a, b, now);
    var row := MessageRow(c1.conversationId, timestamp, messageId, a, b, req.content);
    ResolveValid(db, a, b, now);
    ResolveStored(db, a, b, now);
    var rows1 := db1.conversations;
    var stored := Lookup(rows1, c1.conversationId).value;
    FirstMatchIsFirst(rows1, a, b);
    var i :| 0 <= i < |rows1| && rows1[i] == stored && forall j :: 0 <= j < i ==> !Matches(rows1[j], a, b);
    var touched := Touched(rows1, row);
    assert touched == stored.(lastMessageAt := timestamp, lastMessageContent := Some(req.content));
    UpsertReplaces(rows1, touched, ConversationKey, i);
    var rows2 := WriteMessage(db1, row).conversations;
    assert rows2 == rows1[..i] + [touched] + rows1[i + 1..];
    assert rows2[i] == touched;
    forall j | 0 <= j < i
      ensures !Matches(rows2[j], a, b)
    {
      assert rows2[j] == rows1[j];
    }
    FirstMatchAt(rows2, a, b, i);
    FirstMatchSymmetric(rows2, a, b);
  }

  /** A table whose ids are 1..n keeps that shape through any send, so the count-based id never overwrites a row. */
  lemma SendKeepsIdsDense(db: Db, req: MessageCreate, now: Timestamp, timestamp: Timestamp, messageId: MessageId)
    requires Valid(db) && DenseIds(db.conversations)
    ensures DenseIds(Send(db, req, now, timestamp, messageId).1.conversations)
  {
    var a, b := req.senderId, req.receiverId;
    var (c1, db1) := Resolve(db, a, b, now);
    var row := MessageRow(c1.conversationId, timestamp, messageId, a, b, req.content);
    ResolveValid(db, a, b, now);
    ResolveStored(db, a, b, now);
    ResolveKeepsDense(db, a, b, now);
    UpdateKeepsDense(db1.conversations, row);
  }

  /** A send keeps every unordered pair of users in at most one conversation. */
  lemma SendKeepsPairsUnique(db: Db, req: MessageCreate, now: Timestamp, timestamp: Timestamp, messageId: MessageId)
    requires Valid(db) && PairsUnique(db.conversations)
    ensures PairsUnique(Send(db, req, now, timestamp, messageId).1.conversations)
  {
    var (c1, db1) := Resolve(db, req.senderId, req.receiverId, now);
    var row := MessageRow(c1.conversationId, timestamp, messageId, req.senderId, req.receiverId, req.content);
    ResolveValid(db, req.senderId, req.receiverId, now);
    ResolveKeepsPairsUnique(db, req.senderId, req.receiverId, now);
    UpdateKeepsPairsUnique(db1.conversations, row);
  }

  /** A message newer than every earlier one in its conversation is the first entry of page 1 after the send. */
  lemma SendThenNewestFirst(db: Db, req: MessageCreate, now: Timestamp, timestamp: Timestamp,
                            messageId: MessageId, limit: int)
    requires Valid(db) && ValidLimit(limit)
    requires var cid := Resolve(db, req.senderId, req.receiverId, now).0.conversationId;
      forall x :: x in Partition(db.messages, cid) ==> x.timestamp < timestamp
    ensures var (resp, db') := Send(db, req, now, timestamp, messageId);
      var r := ListMessages(db', resp.conversationId, 1, limit);
      r.Ok? && |r.value.data| >= 1 && r.value.data[0] == resp
  {
    var (c1, db1) := Resolve(db, req.senderId, req.receiverId, now);
    var row := MessageRow(c1.conversationId, timestamp, messageId, req.senderId, req.receiverId, req.content);
    ResolveValid(db, req.senderId, req.receiverId, now);
    NewestMessageLeadsPageOne(db1, row, limit);
  }

  /**
   * `get_conversation_messages`: not found when the conversation does not
   * exist, without reading messages; otherwise the model's page unchanged,
   * or a generic failure when its query failed.
   */
  function GetConversationMessages(store: Store, conversationId: ConversationId, page: int, limit: int)
    : (r: Response<PageResult<Message>>)
    reads store
    ensures r.NotFound? <==> GetConversation(store.State(), conversationId).None?
    ensures r.Success? ==> ListMessages(store.State(), conversationId, page, limit) == Ok(r.value)
    ensures r.Failed? ==> ListMessages(store.State(), conversationId, page, limit).QueryFailed?
  {
    var db := store.State();
    if GetConversation(db, conversationId).None? then NotFound
    else
      match ListMessages(db, conversationId, page, limit)
      case Ok(result) => Success(PageResult(result.total, result.page, result.limit, result.data))
      case QueryFailed => Failed
  }

  /**
   * `get_messages_before_timestamp`: the same guard, then the model's page
   * of messages older than `before` unchanged, or a generic failure.
   */
  function GetMessagesBeforeTimestamp(store: Store, conversationId: ConversationId, before: Timestamp,
                                      page: int, limit: int)
    : (r: Response<PageResult<Message>>)
    reads store
    ensures r.NotFound? <==> GetConversation(store.State(), conversationId).None?
    ensures r.Success? ==> ListMessagesBefore(store.State(), conversationId, before, page, limit) == Ok(r.value)
    ensures r.Failed? ==> ListMessagesBefore(store.State(), conversationId, before, page, limit).QueryFailed?
  {
    var db := store.State();
    if GetConversation(db, conversationId).None? then NotFound
    else
      match ListMessagesBefore(db, conversationId, before, page, limit)
      case Ok(result) => Success(PageResult(result.total, result.page, result.limit, result.data))
      case QueryFailed => Failed
  }
}
