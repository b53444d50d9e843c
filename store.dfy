/**
 * The store as the model classes use it: four tables updated in place, one
 * write at a time, by `create_message` and `create_or_get_conversation`, and
 * read by `get_user_conversations`.  Each method is proved against the
 * function over table values that specifies it.
 */
module CassandraModels {
  import opened Wrappers
  import opened Ordered
  import opened Pagination
  import opened Schema
  import opened MessageModel
  import opened ConversationModel

  class Store {
    var messages: map<ConversationId, seq<MessageRow>>
    var messagesByUser: map<UserId, seq<UserMessageRow>>
    var conversationsByUser: map<UserId, seq<UserConversationRow>>
    var conversations: seq<ConversationRow>

    /** The four tables as one value. */
    function State(): Db
      reads this
    {
      Db(messages, messagesByUser, conversationsByUser, conversations)
    }

    ghost predicate Valid()
      reads this
    {
      Schema.Valid(State())
    }

    constructor ()
      ensures Valid() && State() == EmptyDb
    {
      messages, messagesByUser, conversationsByUser, conversations := map[], map[], map[], [];
    }

    /**
     * `create_message`: writes the message under `conversationId` with the
     * clock reading `timestamp` and the fresh id `messageId`, then its two
     * projections, the conversation's last message and the two participants'
     * conversation entries; returns the message's record.
     */
    method CreateMessage(senderId: UserId, receiverId: UserId, content: string,
                         conversationId: ConversationId, timestamp: Timestamp, messageId: MessageId)
      returns (m: Message)
      requires Valid()
      modifies this
      ensures Valid()
      ensures State() == WriteMessage(old(State()),
                                      MessageRow(conversationId, timestamp, messageId, senderId, receiverId, content))
      ensures m == Message(messageId, conversationId, senderId, receiverId, content, timestamp)
    {
      var row := MessageRow(conversationId, timestamp, messageId, senderId, receiverId, content);
      ghost var db := State();
      ghost var db' := WriteMessage(db, row);
      WriteMessageValid(db, row);
      messages := Put(messages, row, MessageKey, MessageConversation);
      assert messages == db'.messages;
      InsertUserMessages(row);
      assert messagesByUser == db'.messagesByUser;
      UpdateConversation(row);
      assert conversations == db'.conversations;
      InsertConversationEntries(row);
      assert State() == db';
      m := Message(messageId, conversationId, senderId, receiverId, content, timestamp);
    }

    /** The `UPDATE conversations` statement of `create_message`. */
    method UpdateConversation(row: MessageRow)
      modifies this`conversations
      ensures conversations == UpdateLastMessage(old(conversations), row)
    {
      conversations := UpdateLastMessage(conversations, row);
    }

    /** The `messages_by_user` loop of `create_message`: one projection for the sender, then one for the receiver. */
    method InsertUserMessages(row: MessageRow)
      modifies this`messagesByUser
      ensures messagesByUser == WriteUserMessages(old(messagesByUser), [row.senderId, row.receiverId], row)
    {
      var users := [row.senderId, row.receiverId];
      for i := 0 to |users|
        invariant messagesByUser == WriteUserMessages(old(messagesByUser), users[..i], row)
      {
        messagesByUser := Put(messagesByUser, ForUser(users[i], row), UserMessageKey, UserMessageOwner);
        assert users[..i + 1][..i] == users[..i];
      }
      assert users[..|users|] == users;
    }

    /**
     * The `conversations_by_user` loop of `create_message`: for each
     * participant, an entry naming the other one.
     */
    method InsertConversationEntries(row: MessageRow)
      modifies this`conversationsByUser
      ensures conversationsByUser
           == WriteUserConversations(old(conversationsByUser), [row.senderId, row.receiverId], row)
    {
      var users := [row.senderId, row.receiverId];
      for i := 0 to |users|
        invariant conversationsByUser == WriteUserConversations(old(conversationsByUser), users[..i], row)
      {
        var u := users[i];
        var other := if u == row.senderId then row.receiverId else row.senderId;
        conversationsByUser := Put(conversationsByUser,
                                   UserConversationRow(u, row.conversationId, other, row.timestamp, row.content),
                                   UserConversationKey, UserConversationOwner);
        assert users[..i + 1][..i] == users[..i];
      }
      assert users[..|users|] == users;
    }

    /**
     * `create_or_get_conversation(user1Id, user2Id)` with the clock reading
     * `now`: returns the first row matching the pair in either order, or
     * inserts one under id (number of rows) + 1.
     */
    method CreateOrGetConversation(user1Id: UserId, user2Id: UserId, now: Timestamp)
      returns (c: ConversationRow)
      requires Valid()
      modifies this
      ensures Valid()
      ensures (c, State()) == Resolve(old(State()), user1Id, user2Id, now)
    {
      var found := FirstMatch(conversations, user1Id, user2Id);
      if found.Some? {
        return found.value;
      }
      var newId := |conversations| + 1;
      conversations := Upsert(conversations, Inserted(conversations, newId, user1Id, user2Id, now), ConversationKey);
      c := ConversationRow(newId, Some(user1Id), Some(user2Id), Some(now), now, None);
      ResolveValid(old(State()), user1Id, user2Id, now);
    }

    /**
     * `get_user_conversations`: counts the user's entries, fetches one page
     * of them and looks each one up in `conversations`, keeping the details
     * found.
     */
    method GetUserConversations(userId: UserId, page: int, limit: int)
      returns (r: ReadResult<PageResult<Conversation>>)
      ensures r == ListUserConversations(State(), userId, page, limit)
    {
      var rows := Partition(conversationsByUser, userId);
      var total := |rows|;
      var fetched := Paginate(rows, page, limit);
      if fetched.None? {
        return QueryFailed;
      }
      var entries := fetched.value;
      var formatted: seq<Conversation> := [];
      for i := 0 to |entries|
        invariant formatted == Hydrate(entries[..i], conversations)
      {
        var detail := Lookup(conversations, entries[i].conversationId);
        if detail.Some? {
          formatted := formatted + [ToConversation(detail.value)];
        }
        assert entries[..i + 1][..i] == entries[..i];
      }
      assert entries[..|entries|] == entries;
      r := Ok(PageResult(total, page, limit, formatted));
    }
  }
}
