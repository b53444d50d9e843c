# Messenger storage core, modelled in Dafny

This project models the storage core of a small FastAPI messaging service that runs on
Cassandra. Users send messages to each other, each pair of users shares one conversation, and
clients page through the messages of a conversation (optionally only those older than a given
time) and through a user's conversations.

The model follows the code in `app/models/cassandra_models.py` and
`app/controllers/message_controller.py`:

- **Tables.** The keyspace is the datatype `Schema.Db`, which holds four tables.
  - `messages`, `messages_by_user` and `conversations_by_user` are maps from partition key to
    the partition's rows.
  - `conversations` is a single sequence of rows.
- **Row order and writes.** Every partition is kept strictly sorted by its clustering key
  (`Ordered.SortedBy`). A key is a `seq<int>` compared lexicographically, with DESC columns
  negated. Every `INSERT` or `UPDATE` is an upsert (`Ordered.Upsert`): it replaces the row with
  the same key or inserts the new row in order.
- **The store.** `CassandraModels.Store` is a class with the four tables as fields. Its methods
  (`CreateMessage`, `CreateOrGetConversation`, `GetUserConversations`) change those fields the
  way the Python static methods issue their statements. Each method is proved against the pure
  function over `Db` that specifies it.
- **Queries.** `SELECT ... LIMIT n` scans the first `n` rows of a partition in clustering order.
  It fails unless `n` is a positive CQL `int`.
- **Pagination.** Page `p > 1` scans `limit * p` rows and keeps the Python slice
  `[(p-1)*limit : p*limit]`. Any other page scans `limit` rows (`Pagination.Paginate`).
- **The controller.** Its three handlers wrap the model.
  - `send_message` is "create or get the conversation, then create the message"
    (`MessageController.Send`).
  - The two readers answer `NotFound` when `get_conversation` finds nothing, and `Failed`
    when the query fails.
- **Clock and ids.** `datetime.utcnow()` and `uuid.uuid4()` become parameters: `now`,
  `timestamp` and `messageId`. Timestamps are integers.

Two behaviours of the code are modelled as written:

- New conversation ids are the number of rows in `conversations` plus one
  (`app/models/cassandra_models.py:409-413`). The code itself notes, at lines 409-410, that
  production use needs a better id strategy. The model keeps the count-based id:
  - `ConversationModel.CountBasedIdOverwrites` exhibits the overwrite when ids are not `1..n`.
  - `ConversationModel.ResolveAllocatesFresh` and `MessageController.SendKeepsIdsDense` prove
    that ids stay `1..n`, and so never collide, when `conversations` is written only through
    `send_message` and `create_or_get_conversation`. `create_message` called alone with an id
    that no row has creates a row under that id (its UPDATE is an upsert), which can break
    `1..n`.
  - Whatever the ids, each unordered pair of users is held by at most one conversation row
    (`Schema.PairsUnique`): `ConversationModel.ResolveKeepsPairsUnique`,
    `MessageModel.UpdateKeepsPairsUnique` and `MessageController.SendKeepsPairsUnique` prove
    that every write keeps this. An overwrite by a colliding id loses a pair; it never
    duplicates one.
- The code has no rollback or partial-failure policy. `create_message` issues its six writes
  one after the other.

## Model

| member | source | states |
|---|---|---|
| Ordered.Upsert | scripts/setup_db.py:79-127 | a write into a clustered partition: the written row is present and the partition grows by at most one row |
| Ordered.UpsertMembers | scripts/setup_db.py:79-127 | after an upsert into a sorted partition, a row is present exactly when it is the written row or an old row with a different primary key |
| Ordered.UpsertSorted | scripts/setup_db.py:79-127 | an upsert keeps the partition in clustering order |
| Ordered.UpsertFresh | scripts/setup_db.py:79-127 | a row whose key is new is added: the multiset of rows grows by exactly that row |
| Ordered.UpsertReplaces | scripts/setup_db.py:79-127 | a row whose key is already present replaces the stored row at the same position and leaves the rest in place |
| Ordered.Put | scripts/setup_db.py:79-127 | a write touches only the partition named by the row's partition key, and the row is in it afterwards |
| Ordered.PutMembers | scripts/setup_db.py:79-127 | membership in every partition after a write, as an if-and-only-if |
| Ordered.PutValid | scripts/setup_db.py:79-127 | a write keeps every partition sorted, with each row in the partition of its own key |
| Ordered.LexLessTransitive | scripts/setup_db.py:87 | the clustering-key order is transitive |
| Ordered.LexLessTotal | scripts/setup_db.py:87 | two distinct clustering keys are always ordered one way or the other |
| Schema.EmptyDbValid | scripts/setup_db.py:76-127 | the freshly created keyspace satisfies the table invariant |
| Schema.Lookup | app/models/cassandra_models.py:356-360 | a point read by `conversation_id` returns the stored row with that id, or nothing exactly when no row has it |
| Schema.LookupFinds | app/models/cassandra_models.py:356-360 | in a table sorted by id, every stored row is what a point read of its id returns |
| Schema.UpsertLookupOther | scripts/setup_db.py:118-126 | writing one conversation's row leaves what every other id looks up to unchanged |
| Schema.FirstMatch | app/models/cassandra_models.py:383-397 | the filtered scan for a pair returns a stored row holding the two users in either order, or nothing exactly when no row does |
| Schema.FirstMatchIsFirst | app/models/cassandra_models.py:396-398 | the row taken is the first matching row in scan order |
| Schema.FirstMatchSymmetric | app/models/cassandra_models.py:383-394 | the filter gives the same result for `(a, b)` and `(b, a)` |
| Schema.FirstMatchOnly | app/models/cassandra_models.py:383-397 | when exactly one row matches, the filter returns it |
| Schema.FirstMatchAt | app/models/cassandra_models.py:383-397 | a matching row with no matching row before it is the one the filter returns |
| Pagination.Scan | app/models/cassandra_models.py:144-149 | `LIMIT n` succeeds exactly for a positive CQL int and yields the first `min(n, size)` rows of the partition |
| Pagination.Slice | app/models/cassandra_models.py:160 | Python slicing `s[i:j]`: its length is clipped to the sequence, and element `k` is `s[i + k]` |
| Pagination.Paginate | app/models/cassandra_models.py:133-166 | the page read succeeds exactly when its LIMIT is valid, and it returns at most `limit` rows, all from the partition |
| Pagination.PageWindow | app/models/cassandra_models.py:133-166 | page `p` is exactly the rows `(p-1)*limit` up to `p*limit` of the partition, clipped to its size |
| Pagination.PageSize | app/models/cassandra_models.py:133-166 | a page is full when enough rows exist, and empty exactly when its offset is past the end |
| Pagination.PagesTile | app/models/cassandra_models.py:133-166 | pages `1..n` together are the first `n*limit` rows: no row is skipped or repeated |
| Pagination.FortyFiveRowsByTwenty | app/models/cassandra_models.py:133-166 | 45 rows with limit 20 give pages of 20, 20 and 5 rows, then an empty page |
| MessageModel.Touched | app/models/cassandra_models.py:73-86 | the row the UPDATE leaves: the message's time and content, with users and creation time kept from the stored row, or null when no row had the id |
| MessageModel.UpdateLastMessage | app/models/cassandra_models.py:73-86 | the UPDATE is an upsert: the touched row is stored, the id then looks up to a row, and the table grows by at most one row |
| MessageModel.WriteMessage | app/models/cassandra_models.py:37-104 | the six writes of `create_message`: the message lands in its conversation's partition, the conversation id then exists in `conversations`, and that table grows by at most one row |
| MessageModel.WriteUserMessagesValid | app/models/cassandra_models.py:54-71 | the per-user inserts into `messages_by_user` keep that table valid |
| MessageModel.WriteUserConversationsValid | app/models/cassandra_models.py:88-104 | the per-user inserts into `conversations_by_user` keep that table valid |
| MessageModel.WriteMessageValid | app/models/cassandra_models.py:15-113 | `create_message` keeps every table sorted and partitioned by its key |
| MessageModel.MessageRowWritten | app/models/cassandra_models.py:37-52 | the message is in its conversation's partition and replaces only a row with the same `(timestamp, message_id)`; a new key adds exactly one row; other conversations are unchanged |
| MessageModel.UserMessageRowsWritten | app/models/cassandra_models.py:54-71 | both sender and receiver get a copy of the message in `messages_by_user`; their partitions keep every old row under another key and gain nothing but that copy; no other user's partition changes |
| MessageModel.UserConversationRowsWritten | app/models/cassandra_models.py:88-104 | both participants get an entry naming the other participant with the message's time and content; each of their two partitions then holds exactly that entry and its old rows under other keys (entries for other times or other conversations stay, nothing else is added); no other user's partition changes |
| MessageModel.ConversationUpdated | app/models/cassandra_models.py:73-86 | the conversation's last message time and content are set, its users and creation time are kept (or null when the row did not exist), and no other conversation changes |
| MessageModel.UpdateKeepsIds | app/models/cassandra_models.py:73-86 | updating an existing conversation changes no row's id and no row's position |
| MessageModel.UpdateKeepsPairsUnique | app/models/cassandra_models.py:73-86 | the UPDATE, on an existing or a missing id, keeps every unordered pair of users in at most one row |
| MessageModel.UpdateKeepsDense | app/models/cassandra_models.py:73-86 | updating an existing conversation keeps the ids `1..n` |
| MessageModel.FormatMessages | app/models/cassandra_models.py:168-176 | the response has one message per fetched row, in the same order: message `k` is row `k` with `id = message_id` and `created_at = timestamp` |
| MessageModel.ListMessages | app/models/cassandra_models.py:115-184 | the read fails exactly when its LIMIT is invalid; otherwise it reports the partition's row count, echoes page and limit, and returns at most `limit` messages |
| MessageModel.ListMessagesWindow | app/models/cassandra_models.py:115-184 | page `p` of a conversation is exactly rows `(p-1)*limit` up to `p*limit` in clustering order, newest first |
| MessageModel.Before | app/models/cassandra_models.py:221-227 | the `timestamp < before` filter keeps only older rows |
| MessageModel.AtOrAfter | app/models/cassandra_models.py:221-227 | the rows the filter drops are all at or after the cut-off |
| MessageModel.ListMessagesBefore | app/models/cassandra_models.py:186-264 | like `ListMessages` over the filtered rows: `total` counts only older rows, and every returned message is older than the cut-off |
| MessageModel.NewestFirst | scripts/setup_db.py:86-87 | in a sorted partition, an earlier row is never older than a later one |
| MessageModel.SplitAtTimestamp | app/models/cassandra_models.py:221-227 | in newest-first order, the rows at or after the cut-off come first and the older rows follow |
| MessageModel.BeforeIsSuffix | app/models/cassandra_models.py:221-227 | in a sorted partition, the older-than filter yields a contiguous suffix |
| MessageModel.ListMessagesBeforeWindow | app/models/cassandra_models.py:186-264 | page `p` of the filtered read is exactly rows `(p-1)*limit` up to `p*limit` of that suffix |
| MessageModel.NewestMessageLeadsPageOne | app/models/cassandra_models.py:115-184 | a message newer than every stored one in its conversation is the first message of page 1 after it is written |
| ConversationModel.GetConversation | app/models/cassandra_models.py:346-369 | returns nothing exactly when no row has the id; otherwise returns the stored row with that id |
| ConversationModel.Inserted | app/models/cassandra_models.py:415-431 | the creating insert yields a row with the new id, the users in the given order, `now` as both creation and last-message time, and the content a row already stored under that id held (none otherwise) |
| ConversationModel.Resolve | app/models/cassandra_models.py:372-439 | the returned conversation holds the two users in either order, and only `conversations` may change |
| ConversationModel.ResolveValid | app/models/cassandra_models.py:372-439 | `create_or_get_conversation` keeps the keyspace valid |
| ConversationModel.ResolveOutcome | app/models/cassandra_models.py:372-439 | an existing match is returned and nothing is written; otherwise id `count + 1` is created with both users, `now` for both times, no content; every other id looks up as before and the other tables are unchanged |
| ConversationModel.ResolveStored | app/models/cassandra_models.py:372-439 | afterwards the returned id is stored and is what the pair filter finds |
| ConversationModel.ResolveSwappedPair | app/models/cassandra_models.py:383-397 | asking again with the users swapped returns the same conversation and writes nothing |
| ConversationModel.ResolveAllocatesFresh | app/models/cassandra_models.py:409-431 | with ids `1..n`, the id `count + 1` is unused, the insert adds exactly one row, and the ids stay `1..n` |
| ConversationModel.ResolveKeepsDense | app/models/cassandra_models.py:372-439 | `create_or_get_conversation` keeps the ids `1..n` |
| ConversationModel.ResolveKeepsPairsUnique | app/models/cassandra_models.py:383-431 | creating a conversation only when the either-order filter finds none keeps every unordered pair of users in at most one row, whatever the ids |
| ConversationModel.CountBasedIdOverwrites | app/models/cassandra_models.py:409-431 | a counterexample: when ids are not `1..n`, `count + 1` hits an existing conversation and overwrites its users, so the old pair is no longer found |
| ConversationModel.Hydrate | app/models/cassandra_models.py:322-336 | the detail lookups return at most one conversation per entry |
| ConversationModel.HydrateAppend | app/models/cassandra_models.py:322-336 | looking up a concatenation is the concatenation of the lookups |
| ConversationModel.HydrateFromLookups | app/models/cassandra_models.py:322-336 | every returned conversation is what `get_conversation` returns for its id |
| ConversationModel.HydrateAllFound | app/models/cassandra_models.py:322-336 | when every entry's conversation exists, the result has one conversation per entry, in order |
| ConversationModel.HydrateNoneFound | app/models/cassandra_models.py:322-336 | entries whose conversation is missing are skipped |
| ConversationModel.ListUserConversations | app/models/cassandra_models.py:272-343 | fails exactly when the LIMIT is invalid; otherwise `total` is the user's entry count, page and limit are echoed, and at most `limit` conversations are returned |
| ConversationModel.ListUserConversationsWindow | app/models/cassandra_models.py:272-343 | page `p` consists of the details of entries `(p-1)*limit` up to `p*limit`, most recent activity first |
| CassandraModels.Store.constructor | scripts/setup_db.py:76-127 | a new store has empty, valid tables |
| CassandraModels.Store.CreateMessage | app/models/cassandra_models.py:15-113 | applies the message's writes to all four tables, keeps them valid, and returns the message record |
| CassandraModels.Store.UpdateConversation | app/models/cassandra_models.py:73-86 | the UPDATE statement replaces the `conversations` field by `UpdateLastMessage` of its old value |
| CassandraModels.Store.InsertUserMessages | app/models/cassandra_models.py:54-71 | the loop over sender and receiver performs the `messages_by_user` inserts |
| CassandraModels.Store.InsertConversationEntries | app/models/cassandra_models.py:88-104 | the loop over sender and receiver performs the `conversations_by_user` inserts |
| CassandraModels.Store.CreateOrGetConversation | app/models/cassandra_models.py:372-439 | returns and stores what `Resolve` specifies, keeping the tables valid |
| CassandraModels.Store.GetUserConversations | app/models/cassandra_models.py:272-343 | the loop over the page's entries computes `ListUserConversations` |
| MessageController.Send | app/controllers/message_controller.py:26-48 | the response carries the message id, the clock reading, the request's sender, receiver and content, and the id of the conversation resolved for the pair (which holds the two users); the message is stored in that conversation, which then exists |
| MessageController.SendMessage | app/controllers/message_controller.py:13-53 | resolves the conversation, writes the message into it, and returns the message record |
| MessageController.SendReadsBack | app/controllers/message_controller.py:13-53 | after a send, the message's conversation exists, holds the two users, and has the message as its last message |
| MessageController.SendThenReplySameConversation | app/controllers/message_controller.py:26-40 | a reply from the receiver is filed under the same conversation as the message, and no new conversation is created |
| MessageController.SendKeepsIdsDense | app/controllers/message_controller.py:13-53 | sending keeps the conversation ids `1..n`, so count-based ids never collide |
| MessageController.SendKeepsPairsUnique | app/controllers/message_controller.py:13-53 | a send keeps every unordered pair of users in at most one conversation |
| MessageController.SendThenNewestFirst | app/controllers/message_controller.py:13-53 | a message newer than the conversation's others is first on page 1 after the send |
| MessageController.GetConversationMessages | app/controllers/message_controller.py:55-103 | `NotFound` exactly when the conversation does not exist; `Success` carries the model's page; `Failed` only when the model's query failed |
| MessageController.GetMessagesBeforeTimestamp | app/controllers/message_controller.py:105-155 | the same three outcomes for the filtered read |

## Left out

- Driver I/O is not modelled: connecting, sessions, keyspace creation and the logging around
  them. `app/db/cassandra_client.py` is not part of this model.
- `scripts/setup_db.py` and `scripts/generate_test_data.py` are not part of this model. From
  the former, only the table layout (partition and clustering keys) is used.
- The binding of the `%s` / `p1..p4` parameters into CQL text is not modelled. Each statement
  is modelled by its meaning.
- The order of a full-table scan (the pair filter in `create_or_get_conversation`) is taken
  to be ascending `conversation_id`. Cassandra uses the token order of the partition key,
  which the model does not compute.
- `COUNT(*)` is exact in the model. Concurrent writers and eventual consistency are not
  modelled: every operation runs alone.
- A write that fails part way through `create_message` is not modelled. All writes succeed.
- `uuid.uuid4()` and `datetime.utcnow()` are parameters.
  - Uuids are integers ordered ascending.
  - Timestamps are integers; their truncation to milliseconds is not modelled.
- HTTP status codes and detail strings are reduced to `Success` / `NotFound` / `Failed`.
- `MessageController.SendMessage` always succeeds. The model has no failing write, so the
  error path of `send_message` cannot happen.
- The model has no default arguments: `page` and `limit` are always passed, where the code
  defaults them to 1 and 20.
- The `messages_by_user` table is written but never read by the core, so no read of it is
  modelled.
- `ConversationModel.ListUserConversations`: `total` counts every entry of the user's
  partition, including older entries for the same conversation. This matches the code; the
  model does not deduplicate them.
- The schema's 32-bit `int` columns (user ids and `conversation_id`) reject out-of-range
  values. The model accepts any integer for ids and models the 32-bit range only for `LIMIT`.
- The `users` table is not touched by the core and is not modelled.
