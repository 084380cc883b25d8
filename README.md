# Messaging_service chat backend, modelled in Dafny

This project models the core of a FastAPI chat backend:

- **The real-time WebSocket endpoint** (`app/main.py`):
  - admission by JWT token
  - joining a chat, which puts the user in the Redis presence set `chat:{id}:users` and appends the connection to the in-process registry `connected_clients`
  - one step of the receive loop: refresh presence, persist the message, push it to the capped Redis cache `chat:{id}:messages`, broadcast it with eviction of failed connections, and queue Telegram notifications
  - disconnect cleanup
  - one cycle of the background janitor
- **The access rules** of the chat-history and chat-deletion routes.
- **The persistence operations** of `app/db/crud.py`, over tables shaped after `app/db/models.py`.
- **The message serialiser** of `app/core/utils.py`.

Module layout, one Dafny file per module:

| file | module | models |
|---|---|---|
| `wrappers.dfy` | `Wrappers` | `Option` and `Result` |
| `text.dfy` | `Text` | `str(int)`, `int(str)` and `str.split` |
| `serialize.dfy` | `Serialize` | `serialize_message` and `datetime.isoformat`, over a dict modelled as a sequence of entries |
| `crud.dfy` | `Crud` | the users, chats and messages tables (class `Database`), with the primary-key, unique and foreign-key constraints PostgreSQL enforces, and `create_user`, `get_or_create_chat`, `create_message`, `get_messages` |
| `keyvalue.dfy` | `KeyValue` | the Redis commands used (`SADD`, `SREM`, `EXPIRE`, `TTL`, `LPUSH`, `LTRIM`, `DEL`, `KEYS`) on a value-level store. A key whose set or list becomes empty disappears; `TTL` answers -2 for a missing key and -1 for a key without expiry. It also holds the key builders and the `split(":")[1]` parsing of chat keys |
| `registry.dfy` | `Registry` | the handle lists of `connected_clients`, `list.remove`, and the broadcast loop exactly as Python runs it (removing from the list being iterated) next to a snapshot-based loop |
| `realtime.dfy` | `Realtime` | class `ChatServer` with fields `clients` (`connected_clients`), `store` (Redis), `outbox` (the Celery notification queue) and `nextHandle`; the endpoint steps as methods and the janitor as a method |
| `routes.dfy` | `Routes` | `get_chat_messages` and `delete_chat` |

Behaviour modelled as the code is written:

- A send failing during a broadcast removes the failing connection from the list, but `SREM`s the *sender's* user id from the presence set.
- Only `WebSocketDisconnect` runs the cleanup. A persistence error or a missing registry entry ends the step with the connection still registered (`Ingest.PersistFailed`, `Ingest.RegistryMissing`).
- Notifications go to every other participant with a non-null, non-zero `telegram_id`, online or not. The text is `"Новое сообщение от " + sender_name + ": " + data`.
- `get_token_data` turns a decode failure or a missing `sub` into 403. It does not catch the `ValueError` of `int(sub)`, so admission with such a token crashes instead of closing with 1008.
- The presence TTL (60, `app/main.py:193` and `app/main.py:200`), the cache bound (`LTRIM 0 49`, `app/main.py:211`) and the close code 1008 ("policy violation", section 7.4.1 of RFC 6455) are literals in the code, not settings, and constants in the model.
- The notification text (`app/main.py:230`) is Russian.
- A persistence error is not caught inside the receive loop, so it ends the session without the disconnect cleanup.
- PostgreSQL text columns cannot hold U+0000, and psycopg2 refuses such a parameter with `ValueError` before the row is sent. A message or a username containing it therefore fails like a constraint violation (`Crud.NulCharacter`).
- The janitor never evicts the cache of a chat whose presence key has expired: see Findings.

## Model

| member | source | states |
|---|---|---|
| Text.IntToStrRoundTrip | app/core/auth.py:31 | `int()` applied to `str(n)` gives back `n` for every integer, negative ones included |
| Text.ParseInt | app/main.py:156 | `int(s)` on the text forms modelled: a result only for an optional `+` or `-` followed by ASCII digits; the three lemmas below give its value on each form |
| Text.ParseIntUnsigned | app/main.py:156 | every non-empty ASCII digit string, leading zeros included, is read as its decimal value |
| Text.ParseIntNegative | app/main.py:156 | `-` followed by any non-empty digit string, such as `-007`, is read as minus the digits' value |
| Text.ParseIntPositive | app/main.py:156 | `+` followed by any non-empty digit string is read as the digits' value |
| Text.IntToStr | app/core/auth.py:31 | `str(n)` for every integer: a minus sign before the digits of a negative number, and no colon; `IntToStrRoundTrip` fixes its value |
| Text.NatToStrValue | app/core/auth.py:31 | the decimal digits `str` writes for a natural number denote that number |
| Text.NatToStr | app/core/auth.py:31 | `str(n)` is a non-empty digit string with no `:` and no leading zero |
| Text.IndexOf | app/main.py:253 | the first occurrence of a character: absent iff the character does not occur, otherwise the earliest position holding it |
| Text.Split | app/main.py:253 | `split(sep)` yields at least one piece (two when `sep` occurs); no piece contains `sep`; joining the pieces with `sep` gives back the string |
| Text.SplitAtFirst | app/main.py:253 | splitting `a + sep + rest` with `sep` not in `a` yields `a` and then the pieces of `rest` |
| Text.SplitWithoutSep | app/main.py:253 | a string without the separator splits into itself alone |
| Serialize.IsoFormat | app/core/utils.py:22 | `isoformat()` text has 19 characters, or 26 when the microseconds are non-zero |
| Serialize.DateFields | app/core/utils.py:22 | the date part is `YYYY-MM-DD`: dashes at positions 4 and 7, and the year, month and day zero-padded to widths 4, 2 and 2 |
| Serialize.TimeFields | app/core/utils.py:22 | the time part is `hh:mm:ss`: colons at positions 2 and 5, and the hour, minute and second each zero-padded to width 2 |
| Serialize.IsoFormatRoundTrip | app/core/utils.py:22 | parsing the ISO 8601 text gives back the same date-time |
| Serialize.IsoFormatInjective | app/core/utils.py:22 | two date-times with the same ISO 8601 text are equal |
| Serialize.MessageDict | app/db/schemas.py:44-50 | `MessageOut.dict()` has exactly the keys `id`, `chat_id`, `sender_id`, `content`, `timestamp`, in that order |
| Serialize.SerializeValue | app/core/utils.py:21-22 | one value of the loop: a datetime becomes its `isoformat()` text, any other value is kept; `SerializedAt` states it entry by entry |
| Serialize.Serialized | app/core/utils.py:19-23 | the dict after the loop, as a function of the input; its meaning is stated by `SerializedAt`, `SerializedKeys`, `SerializedHasNoDateTime` and `SerializedIdempotent` |
| Serialize.SerializedAt | app/core/utils.py:20-22 | entry by entry: the key is kept; a datetime value becomes its `isoformat` text; any other value is kept |
| Serialize.SerializedKeys | app/core/utils.py:19-23 | the serialised dict has the same keys, in the same order, as the input |
| Serialize.SerializedHasNoDateTime | app/core/utils.py:20-23 | no value of the serialised dict is a datetime |
| Serialize.SerializedIdempotent | app/core/utils.py:17-23 | serialising a serialised dict changes nothing |
| Serialize.SerializedMessage | app/core/utils.py:17-23 | a serialised message keeps its id, chat id, sender id and content, and its timestamp becomes ISO 8601 text |
| Serialize.SerializeDict | app/core/utils.py:19-23 | the in-place loop over `items()` leaves the dict equal to the serialised dict |
| Serialize.SerializeMessage | app/core/utils.py:17-23 | `serialize_message` returns the serialised `message.dict()`, with the same key sequence |
| Crud.UserIdsAppend | app/db/crud.py:16-17 | adding a user row adds exactly its id to the set of user ids |
| Crud.ChatIdsAppend | app/db/crud.py:32-33 | adding a chat row adds exactly its id to the set of chat ids |
| Crud.FindUser | app/main.py:181 | the query by id is empty iff no user has that id, and otherwise returns a row with that id |
| Crud.FindChatById | app/main.py:104 | the query by id is empty iff no chat has that id, and otherwise returns a row with that id |
| Crud.SamePair | app/db/crud.py:26-27 | the filter of `get_or_create_chat`: the chat joins `a` and `b` in either order; `FindChatSymmetric` shows the order of `a` and `b` does not matter |
| Crud.FindChat | app/db/crud.py:26-29 | `.first()` of the either-ordering filter: empty iff no chat joins the two users; otherwise the earliest chat that does |
| Crud.FindChatSymmetric | app/db/crud.py:26-29 | the query gives the same answer with the two user ids swapped |
| Crud.FindChatOnlyMatch | app/db/crud.py:26-29 | when no unordered pair repeats, the lookup returns the one chat of the pair, whatever row order the database uses |
| Crud.UnorderedImpliesOrdered | app/db/models.py:29-31 | a chat table with no repeated unordered pair also meets `_user_pair_uc` |
| Crud.InChat | app/db/crud.py:60-61 | the filtered rows are exactly the messages of the chat, each with its multiplicity in the table |
| Crud.TimeKey | app/db/crud.py:61 | the `timestamp` column as one integer, its fields as mixed-radix digits; `TimeKeyChronological` shows it orders timestamps as `datetime` does |
| Crud.Earlier | app/db/crud.py:61 | `datetime` comparison: the first differing field, from year down to microsecond, decides |
| Crud.TimeKeyChronological | app/db/crud.py:61 | comparing keys is comparing timestamps chronologically, and two timestamps share a key only when they are equal, so sorting by the key is `ORDER BY timestamp` |
| Crud.InsertByTime | app/db/crud.py:61 | one insertion step of the sort by timestamp: the message goes before the first entry not earlier than it; `InsertByTimeSorted` states its effect |
| Crud.InsertByTimeSorted | app/db/crud.py:61 | inserting into a list sorted by timestamp keeps it sorted and adds exactly that message |
| Crud.SortByTime | app/db/crud.py:61 | `order_by(timestamp)` yields a non-decreasing permutation of its input |
| Crud.GetMessages | app/db/crud.py:56-61 | `get_messages` is a permutation of exactly the chat's messages, sorted non-decreasing by timestamp |
| Crud.UserAppendValid | app/db/models.py:14-17 | a fresh id with an unused username and e-mail keeps the users table's keys unique |
| Crud.ChatAppendValid | app/db/crud.py:30-34 | a new chat with a fresh id, existing users and an unused pair keeps the chat table valid, and keeps unordered pairs unique |
| Crud.MessageAppendValid | app/db/models.py:42-44 | a message with a fresh id, an existing chat and an existing sender keeps the message table valid |
| Crud.MessagesValidMonotone | app/db/models.py:43 | adding a chat keeps every message's foreign key to `chats` satisfied |
| Crud.ChatsValidMonotone | app/db/models.py:26-27 | adding a user keeps every chat's foreign keys to `users` satisfied |
| Crud.MessagesValidUserMonotone | app/db/models.py:44 | adding a user keeps every message's foreign key to `users` satisfied |
| Crud.Database.constructor | app/db/models.py:10-49 | an empty database is valid |
| Crud.HasNul | app/db/crud.py:17 | a string PostgreSQL's text columns refuse: one holding U+0000 |
| Crud.MessageRejected | app/db/crud.py:45-51 | the commit of `create_message` raises exactly when the content holds U+0000 or the chat or sender is missing |
| Crud.Database.CreateUser | app/db/crud.py:8-19 | fails iff the username, e-mail or hash holds U+0000 (`NulCharacter`) or the username or e-mail is taken (`UniqueViolation`), changing nothing; otherwise appends exactly one user with a fresh id, the name, the e-mail, `hash(password)` and no `telegram_id` |
| Crud.Database.GetOrCreateChat | app/db/crud.py:22-35 | the result joins the two users in some order. An existing chat is returned with the table unchanged. Otherwise exactly one chat `(a, b)` with a fresh id is added, or a foreign-key violation changes nothing. No repeated unordered pair before means none after |
| Crud.Database.CreateMessage | app/db/crud.py:38-53 | fails iff `MessageRejected` holds, changing nothing: `NulCharacter` for content holding U+0000, otherwise a foreign-key violation for a missing chat or sender; otherwise appends exactly one message with a fresh id and the given chat, sender, content and time |
| Crud.FindChatAppended | app/db/crud.py:25-33 | after a chat is inserted for a pair that had none, a lookup of that pair finds the new row, at the end |
| Crud.GetOrCreateBothOrders | app/db/crud.py:22-35 | `get_or_create_chat(a, b)` followed by `get_or_create_chat(b, a)` returns the same answer and adds at most one row |
| KeyValue.Delete | app/main.py:255 | `DEL` removes the key and its expiry and changes no other key |
| KeyValue.Ttl | app/main.py:251 | `TTL` is -2 iff the key is missing, -1 iff it exists without expiry, and otherwise the positive seconds left |
| KeyValue.SAdd | app/main.py:192 | `SADD` adds the member to the set (creating it without expiry) and changes no other key |
| KeyValue.SRem | app/main.py:218 | `SREM` removes the member; the key vanishes iff the set becomes empty; other keys are unchanged |
| KeyValue.SRemIdempotent | app/main.py:238 | a second `SREM` of the same member changes nothing |
| KeyValue.Expire | app/main.py:193 | `EXPIRE` on a missing key does nothing; on an existing key it sets the TTL and keeps the value; other keys are unchanged |
| KeyValue.LPush | app/main.py:210 | `LPUSH` puts the value at the head of the list and keeps the key's expiry; other keys are unchanged |
| KeyValue.LTrim | app/main.py:211 | `LTRIM start stop` keeps exactly positions `start..stop` of the list; other keys are unchanged |
| KeyValue.PushTrimBound | app/main.py:210-211 | after `LPUSH` then `LTRIM 0 n-1` the list has at most `n` entries, the new value first, then the former head entries in order |
| KeyValue.Elapse | app/main.py:193 | passing time removes exactly the keys whose TTL runs out, lowers the other TTLs, and keeps keys without expiry |
| KeyValue.PresenceKeys | app/main.py:248 | `KEYS chat:*:users` lists only existing keys matching the pattern, and all of them. `PresenceKeysAfterElapse` shows an expired key is never listed, and `CleanupOnLiveKeysIsNoop` takes this answer as the janitor's input |
| KeyValue.PresenceKeysAfterElapse | app/main.py:248 | after time passes, a presence key is listed exactly when it existed and had no expiry or more time to live than elapsed |
| KeyValue.IsPresenceKey | app/main.py:248 | the glob `chat:*:users`; `UsersKey` and `PresenceKeyOf` produce such keys and `PresenceIsNotCache` separates it from the cache pattern |
| KeyValue.IsCacheKey | app/main.py:255 | the glob `chat:*:messages`, the keys the janitor deletes, produced by `MessagesKey` and `CacheKeyOf` |
| KeyValue.ChatField | app/main.py:253 | `chat_key.split(":")[1]`; `ChatFieldOf` and `ChatFieldOfUsersKey` give its value |
| KeyValue.PresenceIsNotCache | app/main.py:248 | no key matches both `chat:*:users` and `chat:*:messages` |
| KeyValue.UsersKey | app/main.py:192 | `f"chat:{chat_id}:users"` matches `chat:*:users` |
| KeyValue.MessagesKey | app/main.py:210 | `f"chat:{chat_id}:messages"` matches `chat:*:messages` |
| KeyValue.CacheKeyOf | app/main.py:255 | the key the janitor deletes matches `chat:*:messages` |
| KeyValue.PresenceKeyOf | app/main.py:192 | the presence key rebuilt from a chat field matches `chat:*:users` |
| KeyValue.ChatFieldOf | app/main.py:253 | `split(":")[1]` of `"chat:" + field + ":" + rest` is `field` when `field` has no colon |
| KeyValue.ChatFieldOfUsersKey | app/main.py:253-255 | the field parsed from `chat:{id}:users` is `str(id)`, so the janitor deletes exactly `chat:{id}:messages` |
| KeyValue.ChatFieldOfMessagesKey | app/main.py:210 | the field parsed from `chat:{id}:messages` is `str(id)` and names the presence key `chat:{id}:users` |
| Registry.FirstIndex | app/main.py:217 | the position `list.remove` finds: absent exactly when `x` is not in the list, and otherwise the first position holding `x` |
| Registry.RemoveFirstSplit | app/main.py:217 | removing `x` from `pre + [x] + post`, where `pre` has no `x`, gives `pre + post` |
| Registry.RemoveFirst | app/main.py:217 | `list.remove(x)` shortens the list by one when `x` occurs, otherwise leaves it unchanged, and never adds an element |
| Registry.RemoveFirstAt | app/main.py:217 | in a list without repeats, removing the element at position `j` drops exactly that position |
| Registry.RemoveFirstKeepsNoDuplicates | app/main.py:239 | removing a handle from a list without repeats leaves no repeats and no copy of that handle |
| Registry.Without | app/main.py:213-217 | the filtered list holds exactly the handles of the list outside the evicted set |
| Registry.WithoutConcat | app/main.py:213-217 | filtering distributes over concatenation |
| Registry.BroadcastRun | app/main.py:213-217 | the as-written loop from position `i`: the final list and the handles sent to, a removal leaving the position where it is; `BroadcastRunShape` and `BroadcastGuarantees` state its effect |
| Registry.BroadcastSnapshotRun | app/main.py:213-217 | the loop over a copy of the list: each handle of the copy is sent to and removed from the live list when its send fails; `BroadcastSnapshotDelivers` states its effect |
| Registry.BroadcastRunShape | app/main.py:213-217 | from any position, the as-written loop ends with the handles before that position followed by the rest minus the evicted ones, and it only sends to the rest |
| Registry.BroadcastGuarantees | app/main.py:213-218 | the broadcast never adds a handle. The final list is the old list with exactly the attempted handles that failed removed, in order. Every attempted handle whose send raised is gone |
| Registry.BroadcastSkipsAfterEviction | app/main.py:213-217 | with the list `[h0, h1]` and `h0` failing, the as-written loop never sends to `h1` |
| Registry.BroadcastSnapshotDelivers | app/main.py:213-218 | iterating over a copy sends to every registered handle and removes exactly the failing ones |
| Realtime.GetTokenData | app/main.py:146-161 | 403 iff decoding fails or `sub` is missing; `ValueError` iff `sub` is not an optional sign followed by ASCII digits; otherwise the parsed `sub` |
| Realtime.MintedTokenAccepted | app/core/auth.py:28-32 | a token minted by `create_access_token(user_id)` yields `user_id` |
| Realtime.Admit | app/main.py:175-190 | closes with 1008 when the token is missing or empty, is rejected, or names an unknown user; crashes iff `sub` is not an integer; accepts iff the token names an existing user, whose username becomes the sender name |
| Realtime.NotificationText | app/main.py:229-231 | the text `"Новое сообщение от {sender_name}: {data}"` |
| Realtime.LinkedTelegram | app/main.py:226-228 | the `telegram_id` of participant `p` when the user exists and the id is neither null nor zero, the truthiness test of the code |
| Realtime.NotifyOne | app/main.py:225-235 | one participant: a notification to its linked `telegram_id` when it is not the sender, otherwise none |
| Realtime.NotifyAll | app/main.py:224-235 | the loop over the participants in order; `NotifyAllRecipients` states who is notified |
| Realtime.Participants | app/main.py:220-223 | the list `[user1_id, user2_id]` of the message's chat |
| Realtime.NotifyAllRecipients | app/main.py:224-235 | at most one notification per participant other than the sender. Each one carries the linked `telegram_id` of such a participant and the formatted text. Every such participant with a linked `telegram_id` gets one |
| Realtime.ChatNotifications | app/main.py:220-235 | for a chat, at most one notification per other participant, each to an other participant's `telegram_id`; none when both participants are the sender |
| Realtime.ToOut | app/main.py:207 | `MessageOut.from_orm`: the five columns of the stored row; `SerializedMessage` states what survives serialisation |
| Realtime.RegistryAppend | app/main.py:195 | appending a fresh handle keeps every handle list free of repeats |
| Realtime.RegistryRemove | app/main.py:239-241 | removing a handle or deleting a chat's entry keeps the registry valid |
| Realtime.CleanupStep | app/main.py:251-255 | one janitor iteration: a listed key whose `TTL` is -2 has `chat:{field}:messages` deleted, otherwise nothing changes |
| Realtime.CleanupRun | app/main.py:248-255 | the janitor loop over the `KEYS` answer in order; `CleanupRunEffect` states its effect |
| Realtime.CleanupRunEffect | app/main.py:248-255 | a janitor cycle deletes exactly the cache keys of listed presence keys that are missing; every other key keeps its value and TTL |
| Realtime.CleanupKeepsPresence | app/main.py:248-255 | a janitor cycle never deletes or changes a presence key |
| Realtime.CleanupOnLiveKeysIsNoop | app/main.py:248-252 | when every listed key exists, as a fresh `KEYS` answer guarantees, the janitor cycle changes nothing |
| Realtime.SweepStep | app/main.py:248-255 | the corrected iteration: a cache key whose presence key is missing is deleted |
| Realtime.SweepRun | app/main.py:248-255 | the corrected loop over the `KEYS chat:*:messages` answer; `SweepRunEffect` and `SweepEvictsOrphans` state its effect |
| Realtime.SweepRunEffect | app/main.py:248-255 | the corrected janitor deletes exactly the listed cache keys whose presence key is missing; every other key keeps its value and TTL |
| Realtime.SweepEvictsOrphans | app/main.py:248-255 | after the corrected janitor, every cache key left has its presence key, and no presence key was touched |
| Realtime.ChatServer.constructor | app/main.py:43 | a server starts with an empty registry and an empty notification queue |
| Realtime.ChatServer.Join | app/main.py:192-195 | the user is in the presence set with a 60-second TTL. The new handle is appended to the chat's list, which is created when absent. Nothing else changes |
| Realtime.ChatServer.Connect | app/main.py:175-195 | admission looks the user up in the same database the session persists to. Every rejection changes neither the registry nor the store; an accepted connection joins as `Join` states and the handle counter advances by one |
| Realtime.ChatServer.Evict | app/main.py:216-218 | the failed handle leaves the chat's list and the sender's id is removed from the presence set |
| Realtime.ChatServer.Broadcast | app/main.py:213-218 | the registry and the handles sent to are those of the as-written loop; other chats are unchanged; the sender leaves the presence set iff some attempted send raised |
| Realtime.ChatServer.BroadcastSnapshot | app/main.py:213-218 | corrected broadcast: sends to every registered handle and leaves the list minus exactly the failing ones |
| Realtime.CacheAfterRefresh | app/main.py:200-211 | on the store alone: after the presence refresh, `LPUSH` and `LTRIM 0 49`, the record is at the front of at most 49 older entries. The presence members are unchanged, the presence TTL is 60 when the key exists, and every other key is unchanged |
| Realtime.SRemKeepsCache | app/main.py:213-218 | the broadcast's `SREM` of the presence set removes at most the sender and leaves the freshly updated cache and every other key unchanged |
| Realtime.ChatServer.PersistAndCache | app/main.py:200-211 | the presence TTL is reset to 60 before persisting. The insert fails exactly when `MessageRejected` holds (content with U+0000, or a missing chat or sender), and a failed insert changes nothing else. The user and chat id counters are unchanged and the message counter advances only on success. Otherwise one message is appended, its serialised record is at index 0 of the cache, the former entries follow shifted by one, and the cache keeps at most 50 |
| Realtime.ChatServer.Receive | app/main.py:199-235 | one receive step with outcome-by-outcome effects as written: persistence failure exactly when `MessageRejected` holds, missing registry entry, or delivery with the as-written broadcast and the notifications appended to the queue. Whenever the presence set survives the step, its TTL is the 60 seconds set at the start |
| Realtime.ChatServer.Deliver | app/main.py:213-235 | after a stored and cached message: a missing registry entry changes nothing; otherwise the as-written broadcast and the notifications, with the cache update kept and at most the sender leaving the presence set |
| Realtime.ChatServer.ReceiveSnapshot | app/main.py:199-235 | the same step with the corrected broadcast: the same persistence failure condition (`MessageRejected`), every registered handle is sent the record, and a surviving presence set again has TTL 60 |
| Realtime.ChatServer.DeliverSnapshot | app/main.py:213-235 | `Deliver` with the corrected broadcast: every registered handle is sent the record and exactly the failing ones leave the list |
| Realtime.ChatServer.Disconnect | app/main.py:237-241 | the user leaves the presence set. The handle leaves the chat's list. The chat's entry is deleted exactly when its list becomes empty, so no empty list remains. A missing entry or handle leaves the registry unchanged |
| Realtime.ChatServer.Tick | app/main.py:193 | time passing acts on the store only, as `Elapse` states |
| Realtime.ChatServer.CleanupCycle | app/main.py:248-255 | the janitor loop over its `KEYS` answer leaves the store as `CleanupRun` |
| Realtime.ChatServer.CleanupCycleFixed | app/main.py:248-255 | the corrected janitor loop leaves the store as `SweepRun` |
| Realtime.ChatServer.Notify | app/main.py:224-235 | the queued notifications are exactly those `NotifyAll` selects, appended to the queue |
| Routes.StatusCode | app/main.py:106-110 | the two refusals get distinct codes, 404 and 403; `RouteStatus` ties each code to the chat table |
| Routes.RouteStatus | app/main.py:105-109 | a route answers 404 exactly when no chat has the id, and 403 exactly when the chat exists and the user is neither participant |
| Routes.Authorize | app/main.py:104-110 | 404 iff no chat has the id; 403 iff it exists and the user is neither participant; otherwise the chat, with the user a participant |
| Routes.GetChatMessages | app/main.py:98-110 | a refusal is exactly `Authorize`'s. Otherwise the chat's messages, sorted by timestamp, permuted from exactly the messages of that chat |
| Routes.DropChatMessages | app/main.py:141 | the bulk delete keeps exactly the messages of other chats |
| Routes.DropChat | app/main.py:142 | `db.delete(chat)` keeps exactly the chats with another id |
| Routes.DropChatIds | app/main.py:142 | after the delete the chat ids are the former ones minus the deleted id |
| Routes.DropChatValid | app/main.py:142-143 | deleting a chat keeps the chat table's keys, unique pair and foreign keys |
| Routes.DropChatMessagesValid | app/main.py:141-143 | deleting the chat's messages first keeps every remaining message's foreign keys satisfied once the chat is gone |
| Routes.DropChatPairsUnique | app/main.py:142 | deleting a chat keeps every unordered pair of users on at most one chat |
| Routes.DeleteChat | app/main.py:129-143 | a refusal is exactly `Authorize`'s and changes nothing. Otherwise the tables become `DropChatMessages` and `DropChat` of the old ones: exactly the chat and its messages are deleted, users are untouched, and the database stays valid |

## Left out

- Token decoding (`jwt.decode`, signatures, expiry) is the parameter `decode`, an oracle from token text to claims, because it is a library call.
- Password hashing is the parameter `hash`, because bcrypt is a foreign library. `verify_password` and the login, register and users routes are not part of this model.
- `json.dumps` is not modelled: the cache and broadcast carry the serialised dict itself.
- Telegram delivery and the Celery task are not modelled: `send_notification_task.delay` appends to the `outbox` sequence. The bot and its e-mail linking are not part of this model.
- Concurrency is not modelled: the event loop, the interleaving of sessions, `asyncio.sleep(600)` and the task start-up. Each step and one janitor cycle are single sequential operations. Time is the explicit `Tick`/`Elapse` and `now` inputs.
- FastAPI routing, dependency injection (`get_current_user` is replaced by its result, the current user's id), templates, database session lifecycle and the HTTP 204 response are left out as framework plumbing. The `get_or_create` route only forwards to `Crud.Database.GetOrCreateChat`.
- Which sends raise `WebSocketDisconnect` is the parameter `failing`. Other exceptions from a send are not modelled.
- Connections are natural-number handles, so two sessions never share a handle.
- Realtime.GetTokenData, Realtime.Admit: `int()` is modelled for optional sign and ASCII decimal digits only. The whitespace, underscore and non-ASCII digit forms Python also accepts are not modelled, because Python's number grammar is out of scope. A token carrying them is treated as not an integer.
- Crud.Database.CreateUser, Crud.Database.GetOrCreateChat, Crud.Database.CreateMessage: in PostgreSQL a failed `INSERT` still consumes its `SERIAL` value, because `nextval` is not rolled back. In the model a failed insert leaves the id counter (`nextUserId`, `nextChatId`, `nextMessageId`) unchanged, so after a failure the next assigned id can be lower than PostgreSQL's. The model promises only that every assigned id is fresh, not which value it has. A U+0000 refusal happens before the statement is sent, so it consumes no value in either.
- Crud.SortByTime: the model's order among messages with equal timestamps need not match PostgreSQL's, which is unspecified anyway. Only sortedness and permutation are stated.
- Crud.FindChat: `.first()` without `order_by` lets PostgreSQL return any matching row; the model returns the earliest. The chat table's constraint covers only the ordered pair, so it can hold both `(a, b)` and `(b, a)`, and then the model's choice is one the code does not promise. When no unordered pair repeats, as `Crud.Database.GetOrCreateChat` keeps it, only one row matches and the two agree (`Crud.FindChatOnlyMatch`).
- KeyValue.LTrim: negative indices are not modelled, because the code only uses `0 49`.
- The WebSocket endpoint does not check that the connecting user is a participant of the chat; the model keeps that omission.
- Realtime.ChatServer.Receive: a session that ends by an exception other than `WebSocketDisconnect` stays registered. The model shows this only as the outcome of one step, since no later cleanup exists.
- Redis configuration, `PING` and environment parsing (`app/core/redis.py`, `app/core/config.py`) are configuration and I/O.

## Findings

| source | as written | input that shows it | evidently intended | confidence | as-written member | corrected member |
|---|---|---|---|---|---|---|
| app/main.py:213-217 | the broadcast removes a failed connection from the list it is iterating, so Python skips the element after each removed one | chat registry `[h0, h1]` where sending to `h0` raises `WebSocketDisconnect`: `h1` stays registered but is never sent the message | every registered connection is sent each message and exactly the failed ones are removed (iterate over a copy) | not executed; medium | Registry.BroadcastSkipsAfterEviction, Realtime.ChatServer.Broadcast | Registry.BroadcastSnapshotDelivers, Realtime.ChatServer.BroadcastSnapshot, Realtime.ChatServer.ReceiveSnapshot |
| app/main.py:248-255 | the janitor asks `TTL` only of keys `KEYS chat:*:users` returned, and `KEYS` never returns an expired key, so `TTL == -2` only if the key expires between the two calls | a store with `chat:99:messages` whose presence key `chat:99:users` has expired: `KEYS` does not list it and the cache is never deleted | delete the message cache of every chat whose presence key has expired (scan `chat:*:messages` and check for the presence key) | not executed; high | Realtime.CleanupOnLiveKeysIsNoop, Realtime.ChatServer.CleanupCycle | Realtime.SweepEvictsOrphans, Realtime.ChatServer.CleanupCycleFixed |
