/**
 * The persistence operations of app/db/crud.py over the three tables of
 * app/db/models.py. The database is PostgreSQL, so the schema's
 * constraints are enforced when a row is committed: the unique indexes on
 * `users.username` and `users.email`, the primary keys, and the foreign keys
 * from `chats` to `users` and from `messages` to `chats` and `users`. A
 * violated constraint makes `commit` raise `IntegrityError`; the model
 * returns it as `Err` and leaves the tables as they were.
 */
module Crud {
  import opened Wrappers
  import opened Serialize

  datatype User = User(id: int, username: string, email: string,
                       hashedPassword: string, telegramId: Option<int>)

  datatype Chat = Chat(id: int, user1Id: int, user2Id: int)

  datatype Message = Message(id: int, chatId: int, senderId: int, content: string, timestamp: Timestamp)

  /**
   * The errors a commit can raise here: the two `IntegrityError` kinds, and
   * the `ValueError` psycopg2 raises, before the row reaches the server, for
   * a string parameter holding U+0000, which PostgreSQL text cannot store.
   */
  datatype DbError = UniqueViolation | ForeignKeyViolation | NulCharacter

  /** A string PostgreSQL's `varchar` columns refuse. */
  predicate HasNul(s: string)
  {
    '\0' in s
  }

  /**
   * When the `messages` insert of `create_message` raises: content holding
   * U+0000, or a missing chat or sender for the foreign keys.
   */
  predicate MessageRejected(chats: seq<Chat>, users: seq<User>, chatId: int, senderId: int, content: string)
  {
    HasNul(content) || chatId !in ChatIds(chats) || senderId !in UserIds(users)
  }

  function UserIds(users: seq<User>): set<int>
  {
    set i | 0 <= i < |users| :: users[i].id
  }

  function ChatIds(chats: seq<Chat>): set<int>
  {
    set i | 0 <= i < |chats| :: chats[i].id
  }

  lemma UserIdsAppend(users: seq<User>, u: User)
    ensures UserIds(users + [u]) == UserIds(users) + {u.id}
  {
    var all := users + [u];
    forall x | x in UserIds(all) ensures x in UserIds(users) + {u.id} {
      var i :| 0 <= i < |all| && all[i].id == x;
      if i < |users| { assert users[i].id == x; }
    }
    forall x | x in UserIds(users) ensures x in UserIds(all) {
      var i :| 0 <= i < |users| && users[i].id == x;
      assert all[i].id == x;
    }
    assert all[|users|].id == u.id;
  }

  lemma ChatIdsAppend(chats: seq<Chat>, c: Chat)
    ensures ChatIds(chats + [c]) == ChatIds(chats) + {c.id}
  {
    var all := chats + [c];
    forall x | x in ChatIds(all) ensures x in ChatIds(chats) + {c.id} {
      var i :| 0 <= i < |all| && all[i].id == x;
      if i < |chats| { assert chats[i].id == x; }
    }
    forall x | x in ChatIds(chats) ensures x in ChatIds(all) {
      var i :| 0 <= i < |chats| && chats[i].id == x;
      assert all[i].id == x;
    }
    assert all[|chats|].id == c.id;
  }

  /** `db.query(User).filter(User.id == id).first()`. */
  function FindUser(users: seq<User>, id: int): (r: Option<User>)
    ensures r.None? <==> id !in UserIds(users)
    ensures r.Some? ==> r.value in users && r.value.id == id
  {
    if users == [] then None
    else if users[0].id == id then Some(users[0])
    else
      var r := FindUser(users[1..], id);
      assert UserIds(users) == {users[0].id} + UserIds(users[1..]) by {
        forall x | x in UserIds(users) ensures x in {users[0].id} + UserIds(users[1..]) {
          var i :| 0 <= i < |users| && users[i].id == x;
          if i > 0 { assert users[1..][i - 1].id == x; }
        }
      }
      r
  }

  /** `db.query(Chat).filter(Chat.id == id).first()`. */
  function FindChatById(chats: seq<Chat>, id: int): (r: Option<Chat>)
    ensures r.None? <==> id !in ChatIds(chats)
    ensures r.Some? ==> r.value in chats && r.value.id == id
  {
    if chats == [] then None
    else if chats[0].id == id then Some(chats[0])
    else
      var r := FindChatById(chats[1..], id);
      assert ChatIds(chats) == {chats[0].id} + ChatIds(chats[1..]) by {
        forall x | x in ChatIds(chats) ensures x in {chats[0].id} + ChatIds(chats[1..]) {
          var i :| 0 <= i < |chats| && chats[i].id == x;
          if i > 0 { assert chats[1..][i - 1].id == x; }
        }
      }
      r
  }

  /** The filter of `get_or_create_chat`: the chat is between `a` and `b`, in either order. */
  predicate SamePair(c: Chat, a: int, b: int)
  {
    (c.user1Id == a && c.user2Id == b) || (c.user1Id == b && c.user2Id == a)
  }

  /** Position of the first chat between `a` and `b`, the row `.first()` returns. */
  function FindChat(chats: seq<Chat>, a: int, b: int): (r: Option<nat>)
    ensures r.None? <==> forall i :: 0 <= i < |chats| ==> !SamePair(chats[i], a, b)
    ensures r.Some? ==> r.value < |chats| && SamePair(chats[r.value], a, b)
    ensures r.Some? ==> forall i :: 0 <= i < r.value ==> !SamePair(chats[i], a, b)
  {
    if chats == [] then None
    else if SamePair(chats[0], a, b) then Some(0)
    else match FindChat(chats[1..], a, b)
      case None => None
      case Some(i) => Some(i + 1)
  }

  /** The lookup does not depend on the order in which the two users are given. */
  lemma {:induction false} FindChatSymmetric(chats: seq<Chat>, a: int, b: int)
    ensures FindChat(chats, a, b) == FindChat(chats, b, a)
  {
    if chats != [] {
      FindChatSymmetric(chats[1..], a, b);
    }
  }

  /** No two chats are between the same two users, in either order. */
  ghost predicate UnorderedPairsUnique(chats: seq<Chat>)
  {
    forall i, j :: 0 <= i < j < |chats| ==> !SamePair(chats[j], chats[i].user1Id, chats[i].user2Id)
  }

  /** The ordered-pair constraint `_user_pair_uc` (app/db/models.py). */
  ghost predicate OrderedPairsUnique(chats: seq<Chat>)
  {
    forall i, j :: 0 <= i < j < |chats| ==>
      !(chats[j].user1Id == chats[i].user1Id && chats[j].user2Id == chats[i].user2Id)
  }

  /** Where no unordered pair repeats, the lookup's answer is the only chat of that pair. */
  lemma FindChatOnlyMatch(chats: seq<Chat>, a: int, b: int, i: nat)
    requires UnorderedPairsUnique(chats) && i < |chats| && SamePair(chats[i], a, b)
    ensures FindChat(chats, a, b) == Some(i)
  {
  }

  lemma UnorderedImpliesOrdered(chats: seq<Chat>)
    requires UnorderedPairsUnique(chats)
    ensures OrderedPairsUnique(chats)
  {
  }

  /** Message ordering key: lexicographic in (year, month, ..., microsecond), hence chronological. */
  function TimeKey(t: Timestamp): int
  {
    Place(Place(Place(Place(Place(Place(t.year, t.month, 13), t.day, 32), t.hour, 24), t.minute, 60), t.second, 60),
          t.microsecond, 1000000)
  }

  /** The number `a` followed by the digit `x` in radix `r`. */
  function Place(a: int, x: int, r: int): int
  {
    a * r + x
  }

  /** `t < u` on naive `datetime`s: the first field that differs decides. */
  predicate Earlier(t: Timestamp, u: Timestamp)
  {
    if t.year != u.year then t.year < u.year
    else if t.month != u.month then t.month < u.month
    else if t.day != u.day then t.day < u.day
    else if t.hour != u.hour then t.hour < u.hour
    else if t.minute != u.minute then t.minute < u.minute
    else if t.second != u.second then t.second < u.second
    else t.microsecond < u.microsecond
  }

  lemma {:induction false} MulNonNegative(x: int, y: int)
    requires x >= 0 && y >= 0
    ensures x * y >= 0
  {
    if x > 0 {
      MulNonNegative(x - 1, y);
      assert x * y == (x - 1) * y + y;
    }
  }

  /** One mixed-radix digit: with both digits below `r`, the leading parts decide first. */
  lemma RadixCompare(a: int, x: int, b: int, y: int, r: int)
    requires 0 <= x < r && 0 <= y < r
    ensures Place(a, x, r) < Place(b, y, r) <==> a < b || (a == b && x < y)
    ensures Place(a, x, r) == Place(b, y, r) <==> a == b && x == y
  {
    if a < b {
      MulNonNegative(b - a - 1, r);
      assert b * r == a * r + r + (b - a - 1) * r;
    } else if b < a {
      MulNonNegative(a - b - 1, r);
      assert a * r == b * r + r + (a - b - 1) * r;
    }
  }

  /**
   * The ordering key compares timestamps chronologically, and two
   * timestamps share a key only when they are equal.
   */
  lemma TimeKeyChronological(t: Timestamp, u: Timestamp)
    ensures TimeKey(t) < TimeKey(u) <==> Earlier(t, u)
    ensures TimeKey(t) == TimeKey(u) <==> t == u
  {
    var k1, l1 := Place(t.year, t.month, 13), Place(u.year, u.month, 13);
    RadixCompare(t.year, t.month, u.year, u.month, 13);
    var k2, l2 := Place(k1, t.day, 32), Place(l1, u.day, 32);
    RadixCompare(k1, t.day, l1, u.day, 32);
    var k3, l3 := Place(k2, t.hour, 24), Place(l2, u.hour, 24);
    RadixCompare(k2, t.hour, l2, u.hour, 24);
    var k4, l4 := Place(k3, t.minute, 60), Place(l3, u.minute, 60);
    RadixCompare(k3, t.minute, l3, u.minute, 60);
    var k5, l5 := Place(k4, t.second, 60), Place(l4, u.second, 60);
    RadixCompare(k4, t.second, l4, u.second, 60);
    RadixCompare(k5, t.microsecond, l5, u.microsecond, 1000000);
  }

  predicate SortedByTime(ms: seq<Message>)
  {
    forall i, j :: 0 <= i < j < |ms| ==> TimeKey(ms[i].timestamp) <= TimeKey(ms[j].timestamp)
  }

  /** `filter(Message.chat_id == chat_id)`, in table order. */
  function InChat(ms: seq<Message>, chatId: int): (r: seq<Message>)
    ensures forall m :: m in r <==> m in ms && m.chatId == chatId
    ensures forall m :: m in multiset(r) ==> multiset(r)[m] == multiset(ms)[m]
  {
    if ms == [] then []
    else
      var rest := InChat(ms[1..], chatId);
      assert ms == [ms[0]] + ms[1..];
      if ms[0].chatId == chatId then [ms[0]] + rest else rest
  }

  lemma SortedCons(x: Message, rest: seq<Message>)
    requires SortedByTime(rest)
    requires forall y :: y in rest ==> TimeKey(x.timestamp) <= TimeKey(y.timestamp)
    ensures SortedByTime([x] + rest)
  {
    var r := [x] + rest;
    forall i, j | 0 <= i < j < |r| ensures TimeKey(r[i].timestamp) <= TimeKey(r[j].timestamp) {
      if i > 0 {
        assert r[i] == rest[i - 1] && r[j] == rest[j - 1];
      } else {
        assert r[j] == rest[j - 1] && r[j] in rest;
      }
    }
  }

  lemma SortedHeadIsLeast(x: Message, s: seq<Message>)
    requires SortedByTime(s) && s != []
    requires TimeKey(x.timestamp) <= TimeKey(s[0].timestamp)
    ensures forall y :: y in s ==> TimeKey(x.timestamp) <= TimeKey(y.timestamp)
  {
    forall y | y in s ensures TimeKey(x.timestamp) <= TimeKey(y.timestamp) {
      var k :| 0 <= k < |s| && s[k] == y;
      assert k == 0 || TimeKey(s[0].timestamp) <= TimeKey(s[k].timestamp);
    }
  }

  lemma BoundAfterInsert(x: Message, m: Message, tail: seq<Message>, rest: seq<Message>)
    requires SortedByTime([x] + tail)
    requires TimeKey(x.timestamp) < TimeKey(m.timestamp)
    requires multiset(rest) == multiset(tail) + multiset{m}
    ensures forall y :: y in rest ==> TimeKey(x.timestamp) <= TimeKey(y.timestamp)
  {
    var s := [x] + tail;
    forall y | y in rest ensures TimeKey(x.timestamp) <= TimeKey(y.timestamp) {
      assert y in multiset(rest);
      if y != m {
        assert y in multiset(tail);
        var k :| 0 <= k < |tail| && tail[k] == y;
        assert s[0] == x && s[k + 1] == y;
      }
    }
  }

  /** One insertion step of the sort: `m` goes before the first later message. */
  function InsertByTime(m: Message, s: seq<Message>): seq<Message>
  {
    if s == [] then [m]
    else if TimeKey(m.timestamp) <= TimeKey(s[0].timestamp) then [m] + s
    else [s[0]] + InsertByTime(m, s[1..])
  }

  /** Inserting into a sorted list keeps it sorted and adds exactly `m`. */
  lemma {:induction false} InsertByTimeSorted(m: Message, s: seq<Message>)
    requires SortedByTime(s)
    ensures SortedByTime(InsertByTime(m, s))
    ensures multiset(InsertByTime(m, s)) == multiset(s) + multiset{m}
    decreases |s|, 1
  {
    if s == [] {
    } else if TimeKey(m.timestamp) <= TimeKey(s[0].timestamp) {
      SortedHeadIsLeast(m, s);
      SortedCons(m, s);
    } else {
      InsertLater(m, s);
    }
  }

  lemma {:induction false} InsertLater(m: Message, s: seq<Message>)
    requires SortedByTime(s) && s != [] && TimeKey(s[0].timestamp) < TimeKey(m.timestamp)
    ensures SortedByTime(InsertByTime(m, s))
    ensures multiset(InsertByTime(m, s)) == multiset(s) + multiset{m}
    decreases |s|, 0
  {
    var tail := s[1..];
    assert s == [s[0]] + tail;
    assert SortedByTime(tail) by {
      forall i, j | 0 <= i < j < |tail| ensures TimeKey(tail[i].timestamp) <= TimeKey(tail[j].timestamp) {
        assert tail[i] == s[i + 1] && tail[j] == s[j + 1];
      }
    }
    InsertByTimeSorted(m, tail);
    var rest := InsertByTime(m, tail);
    BoundAfterInsert(s[0], m, tail, rest);
    SortedCons(s[0], rest);
  }

  /** `order_by(Message.timestamp)`: a sorted permutation of its input. */
  function SortByTime(s: seq<Message>): (r: seq<Message>)
    ensures SortedByTime(r)
    ensures multiset(r) == multiset(s)
  {
    if s == [] then []
    else
      assert s == [s[0]] + s[1..];
      InsertByTimeSorted(s[0], SortByTime(s[1..]));
      InsertByTime(s[0], SortByTime(s[1..]))
  }

  /**
   * `get_messages(db, chat_id)`: the messages of the chat, oldest first. Rows
   * that share a timestamp come out in table order, one of the orders
   * PostgreSQL may return.
   */
  function GetMessages(ms: seq<Message>, chatId: int): (r: seq<Message>)
    ensures SortedByTime(r)
    ensures multiset(r) == multiset(InChat(ms, chatId))
    ensures forall m :: m in r <==> m in ms && m.chatId == chatId
  {
    var r := SortByTime(InChat(ms, chatId));
    assert forall m :: m in r <==> m in multiset(InChat(ms, chatId));
    r
  }

  /** Primary key and the unique indexes on `username` and `email`; ids below the sequence. */
  ghost predicate UsersValid(users: seq<User>, nextId: int)
  {
    && (forall i, j :: 0 <= i < j < |users| ==>
          users[i].id != users[j].id && users[i].username != users[j].username
          && users[i].email != users[j].email)
    && (forall i :: 0 <= i < |users| ==> users[i].id < nextId)
  }

  /** Primary key, `_user_pair_uc` and the foreign keys to `users`. */
  ghost predicate ChatsValid(chats: seq<Chat>, users: seq<User>, nextId: int)
  {
    && (forall i, j :: 0 <= i < j < |chats| ==>
          chats[i].id != chats[j].id
          && !(chats[i].user1Id == chats[j].user1Id && chats[i].user2Id == chats[j].user2Id))
    && (forall i :: 0 <= i < |chats| ==> chats[i].id < nextId)
    && (forall i :: 0 <= i < |chats| ==>
          chats[i].user1Id in UserIds(users) && chats[i].user2Id in UserIds(users))
  }

  /** Primary key and the foreign keys to `chats` and `users`. */
  ghost predicate MessagesValid(messages: seq<Message>, chats: seq<Chat>, users: seq<User>, nextId: int)
  {
    && (forall i, j :: 0 <= i < j < |messages| ==> messages[i].id != messages[j].id)
    && (forall i :: 0 <= i < |messages| ==> messages[i].id < nextId)
    && (forall i :: 0 <= i < |messages| ==>
          messages[i].chatId in ChatIds(chats) && messages[i].senderId in UserIds(users))
  }

  lemma UserAppendValid(users: seq<User>, nextId: int, u: User)
    requires UsersValid(users, nextId) && u.id == nextId
    requires forall i :: 0 <= i < |users| ==> users[i].username != u.username && users[i].email != u.email
    ensures UsersValid(users + [u], nextId + 1)
    ensures UserIds(users + [u]) == UserIds(users) + {u.id}
  {
    UserIdsAppend(users, u);
  }

  lemma ChatAppendValid(chats: seq<Chat>, users: seq<User>, nextId: int, c: Chat)
    requires ChatsValid(chats, users, nextId) && c.id == nextId
    requires c.user1Id in UserIds(users) && c.user2Id in UserIds(users)
    requires forall i :: 0 <= i < |chats| ==> !SamePair(chats[i], c.user1Id, c.user2Id)
    ensures ChatsValid(chats + [c], users, nextId + 1)
    ensures ChatIds(chats + [c]) == ChatIds(chats) + {c.id}
    ensures UnorderedPairsUnique(chats) ==> UnorderedPairsUnique(chats + [c])
  {
    ChatIdsAppend(chats, c);
    var all := chats + [c];
    if UnorderedPairsUnique(chats) {
      forall i, j | 0 <= i < j < |all| ensures !SamePair(all[j], all[i].user1Id, all[i].user2Id) {
        if j == |chats| {
          assert !SamePair(chats[i], c.user1Id, c.user2Id);
        } else {
          assert all[i] == chats[i] && all[j] == chats[j];
        }
      }
    }
  }

  lemma MessageAppendValid(messages: seq<Message>, chats: seq<Chat>, users: seq<User>, nextId: int, m: Message)
    requires MessagesValid(messages, chats, users, nextId) && m.id == nextId
    requires m.chatId in ChatIds(chats) && m.senderId in UserIds(users)
    ensures MessagesValid(messages + [m], chats, users, nextId + 1)
  {
  }

  lemma MessagesValidMonotone(messages: seq<Message>, chats: seq<Chat>, c: Chat, users: seq<User>, nextId: int)
    requires MessagesValid(messages, chats, users, nextId)
    ensures MessagesValid(messages, chats + [c], users, nextId)
  {
    ChatIdsAppend(chats, c);
  }

  lemma ChatsValidMonotone(chats: seq<Chat>, users: seq<User>, u: User, nextId: int)
    requires ChatsValid(chats, users, nextId)
    ensures ChatsValid(chats, users + [u], nextId)
  {
    UserIdsAppend(users, u);
  }

  lemma MessagesValidUserMonotone(messages: seq<Message>, chats: seq<Chat>, users: seq<User>, u: User, nextId: int)
    requires MessagesValid(messages, chats, users, nextId)
    ensures MessagesValid(messages, chats, users + [u], nextId)
  {
    UserIdsAppend(users, u);
  }

  /** The three tables and their id sequences (`SERIAL` columns). */
  class Database {
    var users: seq<User>
    var chats: seq<Chat>
    var messages: seq<Message>
    var nextUserId: int
    var nextChatId: int
    var nextMessageId: int

    /** The schema's constraints: keys, unique indexes and foreign keys. */
    ghost predicate Valid()
      reads this
    {
      && UsersValid(users, nextUserId)
      && ChatsValid(chats, users, nextChatId)
      && MessagesValid(messages, chats, users, nextMessageId)
    }

    constructor ()
      ensures Valid()
      ensures users == [] && chats == [] && messages == []
    {
      users, chats, messages := [], [], [];
      nextUserId, nextChatId, nextMessageId := 1, 1, 1;
    }

    /**
     * `create_user`: stores the username, the email and `hash(password)`;
     * the raw password is not a column. `hash` stands for bcrypt.
     */
    method CreateUser(username: string, email: string, password: string, hash: string -> string)
      returns (r: Result<User, DbError>)
      requires Valid()
      modifies this
      ensures Valid()
      ensures chats == old(chats) && messages == old(messages)
      ensures nextChatId == old(nextChatId) && nextMessageId == old(nextMessageId)
      ensures r.Err? <==> || HasNul(username) || HasNul(email) || HasNul(hash(password))
                          || exists i :: 0 <= i < |old(users)| && (old(users)[i].username == username || old(users)[i].email == email)
      ensures r.Err? ==> && r.error == (if HasNul(username) || HasNul(email) || HasNul(hash(password)) then NulCharacter else UniqueViolation)
                         && users == old(users) && nextUserId == old(nextUserId)
      ensures r.Ok? ==> && r.value == User(old(nextUserId), username, email, hash(password), None)
                        && r.value.id !in UserIds(old(users))
                        && users == old(users) + [r.value]
                        && nextUserId == old(nextUserId) + 1
    {
      if HasNul(username) || HasNul(email) || HasNul(hash(password)) {
        return Err(NulCharacter);
      }
      var i := 0;
      while i < |users|
        invariant 0 <= i <= |users|
        invariant forall k :: 0 <= k < i ==> users[k].username != username && users[k].email != email
      {
        if users[i].username == username || users[i].email == email {
          return Err(UniqueViolation);
        }
        i := i + 1;
      }
      var u := User(nextUserId, username, email, hash(password), None);
      UserAppendValid(users, nextUserId, u);
      ChatsValidMonotone(chats, users, u, nextChatId);
      MessagesValidUserMonotone(messages, chats, users, u, nextMessageId);
      users := users + [u];
      nextUserId := nextUserId + 1;
      r := Ok(u);
    }

    /**
     * `get_or_create_chat(a, b)`: the first chat between `a` and `b` in either
     * order, or a new chat `(a, b)`. The insert fails on the foreign keys
     * when `a` or `b` is not a user.
     */
    method GetOrCreateChat(a: int, b: int) returns (r: Result<Chat, DbError>)
      requires Valid()
      modifies this
      ensures Valid()
      ensures users == old(users) && messages == old(messages)
      ensures nextUserId == old(nextUserId) && nextMessageId == old(nextMessageId)
      ensures r.Ok? ==> SamePair(r.value, a, b)
      ensures FindChat(old(chats), a, b).Some? ==>
                r == Ok(old(chats)[FindChat(old(chats), a, b).value]) && chats == old(chats)
                && nextChatId == old(nextChatId)
      ensures FindChat(old(chats), a, b).None? && (a !in UserIds(users) || b !in UserIds(users)) ==>
                r == Err(ForeignKeyViolation) && chats == old(chats) && nextChatId == old(nextChatId)
      ensures FindChat(old(chats), a, b).None? && a in UserIds(users) && b in UserIds(users) ==>
                && r == Ok(Chat(old(nextChatId), a, b))
                && old(nextChatId) !in ChatIds(old(chats))
                && chats == old(chats) + [r.value]
                && nextChatId == old(nextChatId) + 1
      ensures UnorderedPairsUnique(old(chats)) ==> UnorderedPairsUnique(chats)
    {
      var found := FindChat(chats, a, b);
      if found.Some? {
        return Ok(chats[found.value]);
      }
      if a !in UserIds(users) || b !in UserIds(users) {
        return Err(ForeignKeyViolation);
      }
      var c := Chat(nextChatId, a, b);
      ChatAppendValid(chats, users, nextChatId, c);
      MessagesValidMonotone(messages, chats, c, users, nextMessageId);
      chats := chats + [c];
      nextChatId := nextChatId + 1;
      r := Ok(c);
    }

    /**
     * `create_message`: appends one row stamped with `now`, the value of
     * `datetime.utcnow()` at insert time. Content holding U+0000 is refused
     * first; otherwise the insert fails on the foreign keys when the chat or
     * the sender does not exist.
     */
    method CreateMessage(chatId: int, senderId: int, content: string, now: Timestamp)
      returns (r: Result<Message, DbError>)
      requires Valid()
      modifies this
      ensures Valid()
      ensures users == old(users) && chats == old(chats)
      ensures nextUserId == old(nextUserId) && nextChatId == old(nextChatId)
      ensures r.Err? <==> MessageRejected(chats, users, chatId, senderId, content)
      ensures r.Err? ==> r.error == (if HasNul(content) then NulCharacter else ForeignKeyViolation) && messages == old(messages)
                         && nextMessageId == old(nextMessageId)
      ensures r.Ok? ==> && r.value == Message(old(nextMessageId), chatId, senderId, content, now)
                        && (forall m :: m in old(messages) ==> m.id != r.value.id)
                        && messages == old(messages) + [r.value]
                        && nextMessageId == old(nextMessageId) + 1
    {
      if HasNul(content) {
        return Err(NulCharacter);
      }
      if chatId !in ChatIds(chats) || senderId !in UserIds(users) {
        return Err(ForeignKeyViolation);
      }
      var m := Message(nextMessageId, chatId, senderId, content, now);
      MessageAppendValid(messages, chats, users, nextMessageId, m);
      messages := messages + [m];
      nextMessageId := nextMessageId + 1;
      r := Ok(m);
    }
  }

  /**
   * `get_or_create_chat(a, b)` then `get_or_create_chat(b, a)`: both calls
   * give the same chat and at most one row is added in all.
   */
  method GetOrCreateBothOrders(db: Database, a: int, b: int) returns (r1: Result<Chat, DbError>, r2: Result<Chat, DbError>)
    requires db.Valid()
    modifies db
    ensures db.Valid()
    ensures r1 == r2
    ensures |old(db.chats)| <= |db.chats| <= |old(db.chats)| + 1
  {
    r1 := db.GetOrCreateChat(a, b);
    ghost var mid := db.chats;
    FindChatSymmetric(mid, a, b);
    if r1.Ok? && FindChat(old(db.chats), a, b).None? {
      FindChatAppended(old(db.chats), r1.value, a, b);
    }
    r2 := db.GetOrCreateChat(b, a);
  }

  /** A new chat appended where its pair was missing is the one a later lookup finds. */
  lemma FindChatAppended(chats: seq<Chat>, c: Chat, a: int, b: int)
    requires FindChat(chats, a, b).None? && SamePair(c, a, b)
    ensures FindChat(chats + [c], a, b) == Some(|chats|)
  {
    var s := chats + [c];
    assert s[|chats|] == c;
    forall i | 0 <= i < |chats| ensures !SamePair(s[i], a, b) {
      assert s[i] == chats[i];
    }
  }
}
