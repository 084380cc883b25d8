/**
 * The access rules of the chat history and chat deletion routes of
 * app/main.py. Both look the chat up by id, answer 404 when it is missing
 * and 403 when the current user is neither of its two participants.
 */
module Routes {
  import opened Wrappers
  import opened Serialize
  import opened Crud

  /** The `HTTPException`s the two routes raise. */
  datatype HttpError = NotFound | Forbidden

  function StatusCode(e: HttpError): (code: int)
    ensures code == 404 <==> e.NotFound?
    ensures code == 403 <==> e.Forbidden?
  {
    match e
    case NotFound => 404
    case Forbidden => 403
  }

  /**
   * The status a route answers for `chatId` and `userId`: 404 exactly when
   * no chat has the id, 403 exactly when the chat exists and the user is
   * neither participant.
   */
  lemma RouteStatus(chats: seq<Chat>, chatId: int, userId: int)
    ensures var r := Authorize(chats, chatId, userId);
      && (r.Err? && StatusCode(r.error) == 404 <==> chatId !in ChatIds(chats))
      && (r.Err? && StatusCode(r.error) == 403 <==>
            chatId in ChatIds(chats)
            && userId != FindChatById(chats, chatId).value.user1Id
            && userId != FindChatById(chats, chatId).value.user2Id)
  {
  }

  /** The checks both routes make before acting on chat `chatId` for `userId`. */
  function Authorize(chats: seq<Chat>, chatId: int, userId: int): (r: Result<Chat, HttpError>)
    ensures r == Err(NotFound) <==> chatId !in ChatIds(chats)
    ensures r == Err(Forbidden) <==>
      chatId in ChatIds(chats)
      && userId != FindChatById(chats, chatId).value.user1Id
      && userId != FindChatById(chats, chatId).value.user2Id
    ensures r.Ok? ==> && r.value in chats && r.value.id == chatId
                      && (userId == r.value.user1Id || userId == r.value.user2Id)
  {
    match FindChatById(chats, chatId)
    case None => Err(NotFound)
    case Some(chat) =>
      if userId != chat.user1Id && userId != chat.user2Id then Err(Forbidden) else Ok(chat)
  }

  /**
   * `get_chat_messages`: for a participant, the chat's messages sorted by
   * timestamp; otherwise the error of `Authorize`.
   */
  function GetChatMessages(chats: seq<Chat>, messages: seq<Message>, chatId: int, userId: int)
    : (r: Result<seq<Message>, HttpError>)
    ensures r.Err? <==> Authorize(chats, chatId, userId).Err?
    ensures r.Err? ==> r.error == Authorize(chats, chatId, userId).error
    ensures r.Ok? ==>
      && SortedByTime(r.value)
      && multiset(r.value) == multiset(InChat(messages, chatId))
      && (forall m :: m in r.value <==> m in messages && m.chatId == chatId)
  {
    match Authorize(chats, chatId, userId)
    case Err(e) => Err(e)
    case Ok(_) => Ok(GetMessages(messages, chatId))
  }

  /** `db.query(Message).filter(Message.chat_id == chat_id).delete()`: the messages that stay. */
  function DropChatMessages(ms: seq<Message>, chatId: int): (r: seq<Message>)
    ensures forall m :: m in r <==> m in ms && m.chatId != chatId
  {
    if ms == [] then []
    else (if ms[0].chatId != chatId then [ms[0]] else []) + DropChatMessages(ms[1..], chatId)
  }

  /** `db.delete(chat)`: the chats that stay. */
  function DropChat(chats: seq<Chat>, chatId: int): (r: seq<Chat>)
    ensures forall c :: c in r <==> c in chats && c.id != chatId
  {
    if chats == [] then []
    else (if chats[0].id != chatId then [chats[0]] else []) + DropChat(chats[1..], chatId)
  }

  lemma ChatIdsCons(chats: seq<Chat>)
    requires chats != []
    ensures ChatIds(chats) == {chats[0].id} + ChatIds(chats[1..])
  {
    forall x | x in ChatIds(chats) ensures x in {chats[0].id} + ChatIds(chats[1..]) {
      var i :| 0 <= i < |chats| && chats[i].id == x;
      if i > 0 { assert chats[1..][i - 1].id == x; }
    }
    forall x | x in ChatIds(chats[1..]) ensures x in ChatIds(chats) {
      var i :| 0 <= i < |chats[1..]| && chats[1..][i].id == x;
      assert chats[i + 1].id == x;
    }
  }

  lemma {:induction false} DropChatIds(chats: seq<Chat>, chatId: int)
    ensures ChatIds(DropChat(chats, chatId)) == ChatIds(chats) - {chatId}
  {
    if chats != [] {
      DropChatIds(chats[1..], chatId);
      ChatIdsCons(chats);
      var r := DropChat(chats, chatId);
      if chats[0].id != chatId {
        ChatIdsCons(r);
        assert r[1..] == DropChat(chats[1..], chatId);
      } else {
        assert r == DropChat(chats[1..], chatId);
      }
    }
  }

  lemma ChatsTailValid(chats: seq<Chat>, users: seq<User>, nextId: int)
    requires chats != [] && ChatsValid(chats, users, nextId)
    ensures ChatsValid(chats[1..], users, nextId)
    ensures forall c :: c in chats[1..] ==>
      c.id != chats[0].id && !(c.user1Id == chats[0].user1Id && c.user2Id == chats[0].user2Id)
  {
    var tail := chats[1..];
    forall i, j | 0 <= i < j < |tail|
      ensures tail[i].id != tail[j].id
              && !(tail[i].user1Id == tail[j].user1Id && tail[i].user2Id == tail[j].user2Id)
    {
      assert tail[i] == chats[i + 1] && tail[j] == chats[j + 1];
    }
    forall c | c in tail
      ensures c.id != chats[0].id && !(c.user1Id == chats[0].user1Id && c.user2Id == chats[0].user2Id)
    {
      var k :| 0 <= k < |tail| && tail[k] == c;
      assert chats[k + 1] == c;
    }
  }

  lemma ChatsConsValid(c: Chat, rest: seq<Chat>, users: seq<User>, nextId: int)
    requires ChatsValid(rest, users, nextId)
    requires c.id < nextId && c.user1Id in UserIds(users) && c.user2Id in UserIds(users)
    requires forall x :: x in rest ==> x.id != c.id && !(x.user1Id == c.user1Id && x.user2Id == c.user2Id)
    ensures ChatsValid([c] + rest, users, nextId)
  {
    var r := [c] + rest;
    forall i, j | 0 <= i < j < |r|
      ensures r[i].id != r[j].id && !(r[i].user1Id == r[j].user1Id && r[i].user2Id == r[j].user2Id)
    {
      assert r[j] == rest[j - 1];
      if i > 0 { assert r[i] == rest[i - 1]; }
    }
  }

  /** Deleting a chat keeps the chat table's keys, unique pair constraint and foreign keys. */
  lemma {:induction false} DropChatValid(chats: seq<Chat>, users: seq<User>, nextId: int, chatId: int)
    requires ChatsValid(chats, users, nextId)
    ensures ChatsValid(DropChat(chats, chatId), users, nextId)
  {
    if chats != [] {
      ChatsTailValid(chats, users, nextId);
      DropChatValid(chats[1..], users, nextId, chatId);
      if chats[0].id != chatId {
        ChatsConsValid(chats[0], DropChat(chats[1..], chatId), users, nextId);
      }
    }
  }

  lemma MessagesTailValid(ms: seq<Message>, chats: seq<Chat>, users: seq<User>, nextId: int)
    requires ms != [] && MessagesValid(ms, chats, users, nextId)
    ensures MessagesValid(ms[1..], chats, users, nextId)
    ensures forall m :: m in ms[1..] ==> m.id != ms[0].id
  {
    var tail := ms[1..];
    forall i, j | 0 <= i < j < |tail| ensures tail[i].id != tail[j].id {
      assert tail[i] == ms[i + 1] && tail[j] == ms[j + 1];
    }
    forall m | m in tail ensures m.id != ms[0].id {
      var k :| 0 <= k < |tail| && tail[k] == m;
      assert ms[k + 1] == m;
    }
  }

  lemma MessagesConsValid(m: Message, rest: seq<Message>, chats: seq<Chat>, users: seq<User>, nextId: int)
    requires MessagesValid(rest, chats, users, nextId)
    requires m.id < nextId && m.chatId in ChatIds(chats) && m.senderId in UserIds(users)
    requires forall x :: x in rest ==> x.id != m.id
    ensures MessagesValid([m] + rest, chats, users, nextId)
  {
    var r := [m] + rest;
    forall i, j | 0 <= i < j < |r| ensures r[i].id != r[j].id {
      assert r[j] == rest[j - 1];
      if i > 0 { assert r[i] == rest[i - 1]; }
    }
  }

  /** Re-checks the message table's foreign keys against a smaller chat table. */
  lemma MessagesRetarget(ms: seq<Message>, chats: seq<Chat>, chats': seq<Chat>, users: seq<User>, nextId: int)
    requires MessagesValid(ms, chats, users, nextId)
    requires forall m :: m in ms ==> m.chatId in ChatIds(chats')
    ensures MessagesValid(ms, chats', users, nextId)
  {
    forall i | 0 <= i < |ms| ensures ms[i].chatId in ChatIds(chats') {
      assert ms[i] in ms;
    }
  }

  lemma {:induction false} DropMessagesValid(ms: seq<Message>, chats: seq<Chat>, users: seq<User>, nextId: int, chatId: int)
    requires MessagesValid(ms, chats, users, nextId)
    ensures MessagesValid(DropChatMessages(ms, chatId), chats, users, nextId)
  {
    if ms != [] {
      MessagesTailValid(ms, chats, users, nextId);
      DropMessagesValid(ms[1..], chats, users, nextId, chatId);
      if ms[0].chatId != chatId {
        MessagesConsValid(ms[0], DropChatMessages(ms[1..], chatId), chats, users, nextId);
      }
    }
  }

  /** Deleting a chat's messages first keeps the message table valid once the chat is gone. */
  lemma DropChatMessagesValid(ms: seq<Message>, chats: seq<Chat>, users: seq<User>, nextId: int, chatId: int)
    requires MessagesValid(ms, chats, users, nextId)
    ensures MessagesValid(DropChatMessages(ms, chatId), DropChat(chats, chatId), users, nextId)
  {
    var kept := DropChatMessages(ms, chatId);
    DropMessagesValid(ms, chats, users, nextId, chatId);
    DropChatIds(chats, chatId);
    forall m | m in kept ensures m.chatId in ChatIds(DropChat(chats, chatId)) {
      var k :| 0 <= k < |ms| && ms[k] == m;
    }
    MessagesRetarget(kept, chats, DropChat(chats, chatId), users, nextId);
  }

  /**
   * Deleting a chat keeps every unordered pair of users on at most one
   * chat, so with `DeleteChat`'s result the invariant `GetOrCreateChat`
   * keeps survives `delete_chat` too.
   */
  lemma {:induction false} DropChatPairsUnique(chats: seq<Chat>, chatId: int)
    requires UnorderedPairsUnique(chats)
    ensures UnorderedPairsUnique(DropChat(chats, chatId))
  {
    if chats != [] {
      var tail := chats[1..];
      forall i, j | 0 <= i < j < |tail| ensures !SamePair(tail[j], tail[i].user1Id, tail[i].user2Id) {
        assert tail[i] == chats[i + 1] && tail[j] == chats[j + 1];
      }
      DropChatPairsUnique(tail, chatId);
      var rest := DropChat(tail, chatId);
      if chats[0].id != chatId {
        var r := [chats[0]] + rest;
        forall i, j | 0 <= i < j < |r| ensures !SamePair(r[j], r[i].user1Id, r[i].user2Id) {
          assert r[j] == rest[j - 1];
          if i > 0 {
            assert r[i] == rest[i - 1];
          } else {
            assert rest[j - 1] in tail;
            var k :| 0 <= k < |tail| && tail[k] == rest[j - 1];
            assert chats[k + 1] == r[j];
          }
        }
      } else {
        assert DropChat(chats, chatId) == rest;
      }
    }
  }

  /**
   * `delete_chat`: for a participant, the chat's messages and then the chat
   * are deleted and committed; a missing chat or an outsider changes nothing.
   */
  method DeleteChat(db: Database, chatId: int, userId: int) returns (r: Result<Chat, HttpError>)
    requires db.Valid()
    modifies db
    ensures db.Valid()
    ensures r == Authorize(old(db.chats), chatId, userId)
    ensures db.users == old(db.users)
    ensures db.nextUserId == old(db.nextUserId) && db.nextChatId == old(db.nextChatId)
    ensures db.nextMessageId == old(db.nextMessageId)
    ensures r.Err? ==> db.chats == old(db.chats) && db.messages == old(db.messages)
    ensures r.Ok? ==>
      && db.messages == DropChatMessages(old(db.messages), chatId)
      && db.chats == DropChat(old(db.chats), chatId)
      && (forall m :: m in db.messages <==> m in old(db.messages) && m.chatId != chatId)
      && (forall c :: c in db.chats <==> c in old(db.chats) && c.id != chatId)
      && chatId !in ChatIds(db.chats)
  {
    r := Authorize(db.chats, chatId, userId);
    if r.Err? {
      return;
    }
    var kept := DropChatMessages(db.messages, chatId);
    var remaining := DropChat(db.chats, chatId);
    DropChatMessagesValid(db.messages, db.chats, db.users, db.nextMessageId, chatId);
    DropChatValid(db.chats, db.users, db.nextChatId, chatId);
    DropChatIds(db.chats, chatId);
    db.messages, db.chats := kept, remaining;
  }
}
