/**
 * The WebSocket chat endpoint of app/main.py: admission by token, joining
 * a chat, one step of the receive loop (presence refresh, persistence,
 * cache, broadcast, notifications), disconnect cleanup and one cycle of the
 * background janitor. The in-process registry `connected_clients`, the Redis
 * store and the notification queue are the fields of `ChatServer`. Decoding
 * a token, which handles' sends raise `WebSocketDisconnect`, the clock and
 * the passing of time are parameters.
 */
module Realtime {
  import opened Wrappers
  import opened Text
  import opened Serialize
  import opened Crud
  import opened KeyValue
  import opened Registry

  /** Seconds of presence granted by a join or a message. */
  const PresenceTtl: int := 60

  /** `LTRIM key 0 49`: the cache keeps positions 0 to 49. */
  const CacheStop: nat := 49

  /** WebSocket close code 1008, "policy violation" (section 7.4.1 of RFC 6455). */
  const PolicyViolation: int := 1008

  /** What `jwt.decode` makes of a token: a `JWTError`, or the claims with the `sub` claim if any. */
  datatype Claims = DecodeFailed | Decoded(sub: Option<string>)

  /** `HTTPException(403)` from `get_token_data`, or the `ValueError` of `int(sub)`, which it does not catch. */
  datatype TokenError = Forbidden | NotAnInteger

  /** `get_token_data`: the user id named by the token's `sub` claim. */
  function GetTokenData(c: Claims): (r: Result<int, TokenError>)
    ensures r == Err(Forbidden) <==> c.DecodeFailed? || c.sub.None?
    ensures r == Err(NotAnInteger) <==> c.Decoded? && c.sub.Some? && ParseInt(c.sub.value).None?
    ensures r.Ok? ==> c.Decoded? && c.sub.Some? && ParseInt(c.sub.value) == Some(r.value)
  {
    match c
    case DecodeFailed => Err(Forbidden)
    case Decoded(sub) =>
      match sub
      case None => Err(Forbidden)
      case Some(text) =>
        match ParseInt(text)
        case None => Err(NotAnInteger)
        case Some(id) => Ok(id)
  }

  /**
   * `create_access_token` puts `str(user_id)` in `sub`; a token that decodes
   * to those claims gives back the same user id.
   */
  lemma MintedTokenAccepted(userId: int)
    ensures GetTokenData(Decoded(Some(IntToStr(userId)))) == Ok(userId)
  {
    IntToStrRoundTrip(userId);
  }

  /** The outcome of the admission phase of `websocket_endpoint`. */
  datatype Admission =
    | Closed(code: int)                           // `websocket.close(code=1008)` and return
    | Crashed                                     // an exception the handler does not catch
    | Accepted(userId: int, senderName: string)   // `websocket.accept()`

  /**
   * Admission: no token or an empty one, a token `get_token_data` rejects,
   * and a user id without a user all close with 1008; a `sub` that is not
   * an integer raises out of the handler; otherwise the socket is accepted
   * for that user, under their username.
   */
  function Admit(token: Option<string>, decode: string -> Claims, users: seq<User>): (a: Admission)
    ensures a.Closed? ==> a.code == PolicyViolation
    ensures token.None? || token == Some("") ==> a == Closed(PolicyViolation)
    ensures a.Crashed? <==> token.Some? && token.value != "" && GetTokenData(decode(token.value)) == Err(NotAnInteger)
    ensures a.Accepted? <==>
      && token.Some? && token.value != ""
      && GetTokenData(decode(token.value)).Ok?
      && GetTokenData(decode(token.value)).value in UserIds(users)
    ensures a.Accepted? ==>
      && GetTokenData(decode(token.value)) == Ok(a.userId)
      && FindUser(users, a.userId).Some?
      && FindUser(users, a.userId).value.username == a.senderName
  {
    if token.None? || token.value == "" then Closed(PolicyViolation)
    else
      match GetTokenData(decode(token.value))
      case Err(Forbidden) => Closed(PolicyViolation)
      case Err(NotAnInteger) => Crashed
      case Ok(userId) =>
        match FindUser(users, userId)
        case None => Closed(PolicyViolation)
        case Some(sender) => Accepted(userId, sender.username)
  }

  /** A `send_notification_task.delay(telegram_id, text)` call. */
  datatype Notification = Notification(telegramId: int, text: string)

  /** The notification text: "New message from <sender>: <message>". */
  function NotificationText(senderName: string, data: string): string
  {
    "Новое сообщение от " + senderName + ": " + data
  }

  /** The Telegram id of user `p` when it is set and non-zero (Python truthiness of `telegram_id`). */
  function LinkedTelegram(users: seq<User>, p: int): Option<int>
  {
    match FindUser(users, p)
    case None => None
    case Some(u) => if u.telegramId.Some? && u.telegramId.value != 0 then u.telegramId else None
  }

  /** What the body of `for participant_id in chat_participants` enqueues for one participant. */
  function NotifyOne(p: int, senderId: int, senderName: string, data: string, users: seq<User>): seq<Notification>
  {
    if p != senderId && LinkedTelegram(users, p).Some? then
      [Notification(LinkedTelegram(users, p).value, NotificationText(senderName, data))]
    else []
  }

  /** The notifications enqueued for the participants `ps`, in order. */
  function NotifyAll(ps: seq<int>, senderId: int, senderName: string, data: string, users: seq<User>): seq<Notification>
  {
    if ps == [] then []
    else NotifyAll(ps[..|ps| - 1], senderId, senderName, data, users) + NotifyOne(ps[|ps| - 1], senderId, senderName, data, users)
  }

  /** The participants of a chat, `[chat.user1_id, chat.user2_id]`. */
  function Participants(c: Chat): seq<int>
  {
    [c.user1Id, c.user2Id]
  }

  /** The number of entries of `ps` that are not `x`. */
  function CountOthers(ps: seq<int>, x: int): nat
  {
    if ps == [] then 0 else CountOthers(ps[..|ps| - 1], x) + (if ps[|ps| - 1] != x then 1 else 0)
  }

  /**
   * Who is notified: every notification goes to a participant other than
   * the sender whose Telegram id is set, with the fixed text; every such
   * participant is notified; and there is at most one per other participant.
   * So the sender is never notified as a participant.
   */
  lemma {:induction false} NotifyAllRecipients(ps: seq<int>, senderId: int, senderName: string, data: string, users: seq<User>)
    ensures var ns := NotifyAll(ps, senderId, senderName, data, users);
      && |ns| <= CountOthers(ps, senderId)
      && (forall n :: n in ns ==>
            n.text == NotificationText(senderName, data)
            && exists p :: p in ps && p != senderId && LinkedTelegram(users, p) == Some(n.telegramId))
      && (forall p :: p in ps && p != senderId && LinkedTelegram(users, p).Some? ==>
            Notification(LinkedTelegram(users, p).value, NotificationText(senderName, data)) in ns)
  {
    if ps != [] {
      var init := ps[..|ps| - 1];
      var last := ps[|ps| - 1];
      NotifyAllRecipients(init, senderId, senderName, data, users);
      assert ps == init + [last];
      var ns := NotifyAll(ps, senderId, senderName, data, users);
      assert ns == NotifyAll(init, senderId, senderName, data, users) + NotifyOne(last, senderId, senderName, data, users);
      forall n | n in ns
        ensures exists p :: p in ps && p != senderId && LinkedTelegram(users, p) == Some(n.telegramId)
      {
        if n !in NotifyAll(init, senderId, senderName, data, users) {
          assert last in ps;
        } else {
          var p :| p in init && p != senderId && LinkedTelegram(users, p) == Some(n.telegramId);
          assert p in ps;
        }
      }
      forall p | p in ps && p != senderId && LinkedTelegram(users, p).Some?
        ensures Notification(LinkedTelegram(users, p).value, NotificationText(senderName, data)) in ns
      {
        if p != last {
          assert p in init;
        }
      }
    }
  }

  /** For a chat: notifications reach only the other participant, and only when they linked Telegram. */
  lemma ChatNotifications(c: Chat, senderId: int, senderName: string, data: string, users: seq<User>)
    ensures var ns := NotifyAll(Participants(c), senderId, senderName, data, users);
      && |ns| <= (if c.user1Id != senderId then 1 else 0) + (if c.user2Id != senderId then 1 else 0)
      && (forall n :: n in ns ==>
            n.text == NotificationText(senderName, data)
            && ((c.user1Id != senderId && LinkedTelegram(users, c.user1Id) == Some(n.telegramId))
                || (c.user2Id != senderId && LinkedTelegram(users, c.user2Id) == Some(n.telegramId))))
      && (c.user1Id == senderId && c.user2Id == senderId ==> ns == [])
  {
    var ps := Participants(c);
    NotifyAllRecipients(ps, senderId, senderName, data, users);
    assert ps[..1] == [c.user1Id] && [c.user1Id][..0] == [];
    assert CountOthers([c.user1Id], senderId) == (if c.user1Id != senderId then 1 else 0);
    assert CountOthers(ps, senderId) == CountOthers([c.user1Id], senderId) + (if c.user2Id != senderId then 1 else 0);
    var ns := NotifyAll(ps, senderId, senderName, data, users);
    forall n | n in ns
      ensures (c.user1Id != senderId && LinkedTelegram(users, c.user1Id) == Some(n.telegramId))
           || (c.user2Id != senderId && LinkedTelegram(users, c.user2Id) == Some(n.telegramId))
    {
      var p :| p in ps && p != senderId && LinkedTelegram(users, p) == Some(n.telegramId);
    }
  }

  /** One WebSocket session after admission. */
  datatype Session = Session(chatId: int, userId: int, senderName: string, handle: Handle)

  /** `MessageOut.from_orm(new_message)`. */
  function ToOut(m: Message): MessageOut
  {
    MessageOut(m.id, m.chatId, m.senderId, m.content, m.timestamp)
  }

  /** How one step of the receive loop ends. */
  datatype Ingest =
    | PersistFailed                                  // `create_message` raised; the session ends
    | RegistryMissing(message: Message, record: Dict) // `connected_clients[chat_id]` raised `KeyError`
    | Delivered(message: Message, record: Dict, sentTo: seq<Handle>, notified: seq<Notification>)

  /** Presence keys hold sets and cache keys hold lists. */
  ghost predicate StoreTyped(s: Store)
  {
    forall k :: k in s.data ==> (IsPresenceKey(k) ==> s.data[k].SetVal?) && (IsCacheKey(k) ==> s.data[k].ListVal?)
  }

  /** Each chat's handle list has no repeated handle and only handles already given out. */
  ghost predicate RegistryValid(clients: map<int, seq<Handle>>, nextHandle: nat)
  {
    forall c :: c in clients ==> NoDuplicates(clients[c]) && (forall h :: h in clients[c] ==> h < nextHandle)
  }

  /** Keys other than `k1` and `k2` are the same, with the same expiry, in `s` and `r`. */
  ghost predicate SameElsewhere(s: Store, r: Store, k1: string, k2: string)
    requires Valid(s) && Valid(r)
  {
    forall j :: j != k1 && j != k2 ==>
      && (j in r.data <==> j in s.data)
      && (j in r.data ==> r.data[j] == s.data[j])
      && Ttl(r, j) == Ttl(s, j)
  }

  /** Chats other than `chatId` keep their handle lists. */
  ghost predicate OtherChatsUnchanged(before: map<int, seq<Handle>>, after: map<int, seq<Handle>>, chatId: int)
  {
    forall c :: c != chatId ==> (c in after <==> c in before) && (c in after ==> after[c] == before[c])
  }

  /**
   * The effect of joining: `user_id` is in the presence set with a fresh
   * 60-second expiry, the handle is appended to the chat's list (created
   * when absent), and nothing else changes.
   */
  ghost predicate Joined(s: Store, clients: map<int, seq<Handle>>, r: Store, clients': map<int, seq<Handle>>,
                         chatId: int, userId: int, h: Handle)
    requires Valid(s) && Valid(r)
  {
    var pk := UsersKey(chatId);
    && pk in r.data
    && Members(r, pk) == Members(s, pk) + {userId}
    && Ttl(r, pk) == PresenceTtl
    && SameElsewhere(s, r, pk, pk)
    && clients' == clients[chatId := (if chatId in clients then clients[chatId] else []) + [h]]
  }

  lemma TypedSAdd(s: Store, k: string, m: int)
    requires Valid(s) && StoreTyped(s) && IsPresenceKey(k)
    ensures StoreTyped(SAdd(s, k, m))
  {
    PresenceIsNotCache(k);
  }

  lemma TypedSRem(s: Store, k: string, m: int)
    requires Valid(s) && StoreTyped(s) && IsPresenceKey(k)
    ensures StoreTyped(SRem(s, k, m))
  {
    PresenceIsNotCache(k);
  }

  lemma TypedLPush(s: Store, k: string, v: Dict)
    requires Valid(s) && StoreTyped(s) && IsCacheKey(k)
    ensures StoreTyped(LPush(s, k, v))
  {
    if IsPresenceKey(k) { PresenceIsNotCache(k); }
  }

  lemma TypedLTrim(s: Store, k: string, start: nat, stop: nat)
    requires Valid(s) && StoreTyped(s) && IsCacheKey(k)
    ensures StoreTyped(LTrim(s, k, start, stop))
  {
    if IsPresenceKey(k) { PresenceIsNotCache(k); }
  }

  lemma RegistryAppend(clients: map<int, seq<Handle>>, chatId: int, next: nat)
    requires RegistryValid(clients, next)
    ensures var list := if chatId in clients then clients[chatId] else [];
      RegistryValid(clients[chatId := list + [next]], next + 1)
  {
    var list := if chatId in clients then clients[chatId] else [];
    var list' := list + [next];
    assert NoDuplicates(list') by {
      forall i, j | 0 <= i < j < |list'| ensures list'[i] != list'[j] {
        if j == |list| { assert list'[i] in list; }
      }
    }
  }

  lemma RegistryRemove(clients: map<int, seq<Handle>>, chatId: int, x: Handle, next: nat)
    requires RegistryValid(clients, next) && chatId in clients
    ensures RegistryValid(clients[chatId := RemoveFirst(clients[chatId], x)], next)
    ensures RegistryValid(clients - {chatId}, next)
  {
    RemoveFirstKeepsNoDuplicates(clients[chatId], x);
  }

  /**
   * The `LPUSH` + `LTRIM 0 49` effect on the cache list at `mk`: the new
   * record is at index 0, the former entries follow shifted by one, at
   * most 50 entries are kept, and the key's expiry is unchanged.
   */
  ghost predicate CacheUpdated(s: Store, r: Store, mk: string, record: Dict)
    requires Valid(s) && Valid(r)
  {
    var old_ := Items(s, mk);
    var new_ := Items(r, mk);
    && mk in r.data
    && 1 <= |new_| <= CacheStop + 1
    && new_[0] == record
    && new_[1..] == old_[..if |old_| < CacheStop then |old_| else CacheStop]
    && Ttl(r, mk) == (if mk in s.data then Ttl(s, mk) else -1)
  }

  /** The presence refresh keeps the store typed and the chat's cache key a list or missing. */
  lemma RefreshTyped(s: Store, chatId: int)
    requires Valid(s) && StoreTyped(s)
    ensures var e := Expire(s, UsersKey(chatId), PresenceTtl);
      && StoreTyped(e) && ListOrMissing(e, MessagesKey(chatId))
      && Items(e, MessagesKey(chatId)) == Items(s, MessagesKey(chatId))
  {
    PresenceIsNotCache(UsersKey(chatId));
  }

  /**
   * Lines 200-211 on the store: after the presence refresh, the push and the
   * trim, the cache holds the record in front of at most 49 older ones, the
   * presence set keeps its members, and no other key changes.
   */
  lemma CacheAfterRefresh(s: Store, chatId: int, record: Dict)
    requires Valid(s) && StoreTyped(s)
    ensures var pk, mk := UsersKey(chatId), MessagesKey(chatId);
      var e := Expire(s, pk, PresenceTtl);
      StoreTyped(e) && ListOrMissing(e, mk) &&
      var p := LPush(e, mk, record);
      ListOrMissing(p, mk) &&
      var r := LTrim(p, mk, 0, CacheStop);
      && StoreTyped(r)
      && CacheUpdated(s, r, mk, record)
      && Members(r, pk) == Members(s, pk)
      && (pk in s.data ==> Ttl(r, pk) == PresenceTtl)
      && (pk !in s.data ==> pk !in r.data)
      && SameElsewhere(s, r, pk, mk)
  {
    var pk, mk := UsersKey(chatId), MessagesKey(chatId);
    RefreshTyped(s, chatId);
    var e := Expire(s, pk, PresenceTtl);
    TypedLPush(e, mk, record);
    var p := LPush(e, mk, record);
    TypedLTrim(p, mk, 0, CacheStop);
    PushTrimBound(e, mk, record, CacheStop + 1);
  }

  /** The broadcast's SREM of the presence set leaves the freshly updated cache as it was. */
  lemma SRemKeepsCache(s: Store, cached: Store, chatId: int, record: Dict, userId: int, removed: bool)
    requires Valid(s) && Valid(cached) && StoreTyped(cached)
    requires CacheUpdated(s, cached, MessagesKey(chatId), record)
    requires SameElsewhere(s, cached, UsersKey(chatId), MessagesKey(chatId))
    ensures var pk, mk := UsersKey(chatId), MessagesKey(chatId);
      var r := if removed then SRem(cached, pk, userId) else cached;
      && CacheUpdated(s, r, mk, record)
      && SameElsewhere(s, r, pk, mk)
      && Members(r, pk) == Members(cached, pk) - (if removed then {userId} else {})
      && (pk in r.data ==> pk in cached.data && Ttl(r, pk) == Ttl(cached, pk))
  {
    PresenceIsNotCache(UsersKey(chatId));
  }

  /** One janitor iteration: a listed presence key whose `TTL` reads -2 has its chat's cache deleted. */
  function CleanupStep(s: Store, k: string): (r: Store)
    requires Valid(s) && IsPresenceKey(k)
    ensures Valid(r)
  {
    if Ttl(s, k) == -2 then Delete(s, CacheKeyOf(ChatField(k))) else s
  }

  /** The janitor loop over the `KEYS chat:*:users` answer `listed`, in order. */
  function CleanupRun(s: Store, listed: seq<string>): (r: Store)
    requires Valid(s) && forall k :: k in listed ==> IsPresenceKey(k)
    ensures Valid(r)
  {
    if listed == [] then s
    else CleanupStep(CleanupRun(s, listed[..|listed| - 1]), listed[|listed| - 1])
  }

  /** `j` is the cache key of a listed presence key that is missing from `s`. */
  ghost predicate Orphaned(j: string, s: Store, listed: seq<string>)
  {
    exists k :: k in listed && IsPresenceKey(k) && k !in s.data && j == CacheKeyOf(ChatField(k))
  }

  /**
   * What a janitor cycle does: it deletes exactly the cache keys of listed
   * presence keys that are missing, and every other key keeps its value
   * and its expiry. In particular no presence key is deleted.
   */
  lemma {:induction false} CleanupRunEffect(s: Store, listed: seq<string>)
    requires Valid(s) && forall k :: k in listed ==> IsPresenceKey(k)
    ensures var r := CleanupRun(s, listed);
      && (forall j :: j in r.data <==> j in s.data && !Orphaned(j, s, listed))
      && (forall j :: j in r.data ==> r.data[j] == s.data[j] && Ttl(r, j) == Ttl(s, j))
  {
    if listed != [] {
      var init := listed[..|listed| - 1];
      var k := listed[|listed| - 1];
      assert listed == init + [k];
      CleanupRunEffect(s, init);
      var r' := CleanupRun(s, init);
      PresenceIsNotCache(k);
      assert k !in s.data ==> !Orphaned(k, s, init) by {
        forall k' | k' in init && IsPresenceKey(k') && k' !in s.data ensures k != CacheKeyOf(ChatField(k')) {
          PresenceIsNotCache(k);
        }
      }
      assert Ttl(r', k) == -2 <==> k !in s.data;
      var r := CleanupRun(s, listed);
      forall j ensures j in r.data <==> j in s.data && !Orphaned(j, s, listed) {
        if Orphaned(j, s, listed) && !Orphaned(j, s, init) {
          assert j == CacheKeyOf(ChatField(k)) && k !in s.data;
        }
        if Orphaned(j, s, init) {
          var k' :| k' in init && IsPresenceKey(k') && k' !in s.data && j == CacheKeyOf(ChatField(k'));
          assert k' in listed;
        }
      }
    }
  }

  /** The janitor never deletes a presence key. */
  lemma CleanupKeepsPresence(s: Store, listed: seq<string>)
    requires Valid(s) && forall k :: k in listed ==> IsPresenceKey(k)
    ensures forall j :: IsPresenceKey(j) ==>
      (j in CleanupRun(s, listed).data <==> j in s.data) && Ttl(CleanupRun(s, listed), j) == Ttl(s, j)
  {
    CleanupRunEffect(s, listed);
    forall j | IsPresenceKey(j) && Orphaned(j, s, listed) ensures false {
      var k :| k in listed && IsPresenceKey(k) && k !in s.data && j == CacheKeyOf(ChatField(k));
      PresenceIsNotCache(j);
    }
  }

  /**
   * `KEYS` lists live keys only, so on a snapshot of the store every listed
   * key reads a positive or -1 `TTL` and the cycle deletes nothing: the
   * cache of a chat whose presence set expired is never evicted.
   */
  lemma {:induction false} CleanupOnLiveKeysIsNoop(s: Store, listed: seq<string>)
    requires Valid(s) && (set k | k in listed) <= PresenceKeys(s)
    ensures CleanupRun(s, listed) == s
  {
    if listed != [] {
      CleanupOnLiveKeysIsNoop(s, listed[..|listed| - 1]);
      assert listed[|listed| - 1] in listed;
    }
  }

  /** The corrected janitor's step: a cache key whose chat has no presence set is deleted. */
  function SweepStep(s: Store, k: string): (r: Store)
    requires Valid(s) && IsCacheKey(k)
    ensures Valid(r)
  {
    if PresenceKeyOf(ChatField(k)) !in s.data then Delete(s, k) else s
  }

  /** The corrected janitor loop over the `KEYS chat:*:messages` answer `cached`. */
  function SweepRun(s: Store, cached: seq<string>): (r: Store)
    requires Valid(s) && forall k :: k in cached ==> IsCacheKey(k)
    ensures Valid(r)
  {
    if cached == [] then s
    else SweepStep(SweepRun(s, cached[..|cached| - 1]), cached[|cached| - 1])
  }

  /**
   * The intended janitor: it deletes exactly the listed cache keys whose
   * presence set is gone, and every other key keeps its value and expiry.
   */
  lemma {:induction false} SweepRunEffect(s: Store, cached: seq<string>)
    requires Valid(s) && forall k :: k in cached ==> IsCacheKey(k)
    ensures var r := SweepRun(s, cached);
      && (forall j :: j in r.data <==> j in s.data && !(j in cached && PresenceKeyOf(ChatField(j)) !in s.data))
      && (forall j :: j in r.data ==> r.data[j] == s.data[j] && Ttl(r, j) == Ttl(s, j))
  {
    if cached != [] {
      var init := cached[..|cached| - 1];
      var k := cached[|cached| - 1];
      assert k in cached && cached == init + [k];
      SweepRunEffect(s, init);
      var r' := SweepRun(s, init);
      PresenceIsNotCache(PresenceKeyOf(ChatField(k)));
      assert PresenceKeyOf(ChatField(k)) in r'.data <==> PresenceKeyOf(ChatField(k)) in s.data;
    }
  }

  /** The janitor run over one more listed key is one more step. */
  lemma CleanupRunExtend(s0: Store, listed: seq<string>, i: nat)
    requires Valid(s0) && (forall k :: k in listed ==> IsPresenceKey(k)) && i < |listed|
    ensures IsPresenceKey(listed[i])
    ensures CleanupRun(s0, listed[..i + 1]) == CleanupStep(CleanupRun(s0, listed[..i]), listed[i])
  {
    assert listed[i] in listed;
    assert listed[..i + 1] == listed[..i] + [listed[i]];
    CleanupRunSnoc(s0, listed[..i], listed[i]);
  }

  lemma CleanupRunSnoc(s0: Store, init: seq<string>, k: string)
    requires Valid(s0) && (forall j :: j in init ==> IsPresenceKey(j)) && IsPresenceKey(k)
    ensures CleanupRun(s0, init + [k]) == CleanupStep(CleanupRun(s0, init), k)
  {
    assert (init + [k])[..|init|] == init;
  }

  lemma TypedCleanupStep(s: Store, k: string)
    requires Valid(s) && StoreTyped(s) && IsPresenceKey(k)
    ensures StoreTyped(CleanupStep(s, k))
  {
    if Ttl(s, k) == -2 {
      TypedDelete(s, CacheKeyOf(ChatField(k)));
    }
  }

  /** The corrected run over one more cache key is one more step. */
  lemma SweepRunExtend(s0: Store, cached: seq<string>, i: nat)
    requires Valid(s0) && (forall k :: k in cached ==> IsCacheKey(k)) && i < |cached|
    ensures IsCacheKey(cached[i])
    ensures SweepRun(s0, cached[..i + 1]) == SweepStep(SweepRun(s0, cached[..i]), cached[i])
  {
    assert cached[i] in cached;
    assert cached[..i + 1] == cached[..i] + [cached[i]];
    SweepRunSnoc(s0, cached[..i], cached[i]);
  }

  lemma SweepRunSnoc(s0: Store, init: seq<string>, k: string)
    requires Valid(s0) && (forall j :: j in init ==> IsCacheKey(j)) && IsCacheKey(k)
    ensures SweepRun(s0, init + [k]) == SweepStep(SweepRun(s0, init), k)
  {
    assert (init + [k])[..|init|] == init;
  }

  lemma TypedSweepStep(s: Store, k: string)
    requires Valid(s) && StoreTyped(s) && IsCacheKey(k)
    ensures StoreTyped(SweepStep(s, k))
  {
    if PresenceKeyOf(ChatField(k)) !in s.data {
      TypedDelete(s, k);
    }
  }

  lemma TypedDelete(s: Store, k: string)
    requires Valid(s) && StoreTyped(s)
    ensures StoreTyped(Delete(s, k))
  {
  }

  /**
   * With every cache key of the store listed, the corrected cycle leaves no
   * cache without a presence set, and deletes no presence key.
   */
  lemma SweepEvictsOrphans(s: Store, cached: seq<string>)
    requires Valid(s) && forall k :: k in cached ==> IsCacheKey(k)
    requires forall k :: k in s.data && IsCacheKey(k) ==> k in cached
    ensures var r := SweepRun(s, cached);
      && (forall k :: k in r.data && IsCacheKey(k) ==> PresenceKeyOf(ChatField(k)) in r.data)
      && (forall j :: IsPresenceKey(j) ==> (j in r.data <==> j in s.data))
  {
    SweepRunEffect(s, cached);
    var r := SweepRun(s, cached);
    forall k | k in r.data && IsCacheKey(k) ensures PresenceKeyOf(ChatField(k)) in r.data {
      PresenceIsNotCache(PresenceKeyOf(ChatField(k)));
    }
    forall j | IsPresenceKey(j) ensures j in r.data <==> j in s.data {
      PresenceIsNotCache(j);
    }
  }

  lemma UpdateSame(m: map<int, seq<Handle>>, k: int)
    requires k in m
    ensures m[k := m[k]] == m
  {
  }

  lemma UpdateTwice(m: map<int, seq<Handle>>, k: int, a: seq<Handle>, b: seq<Handle>)
    ensures m[k := a][k := b] == m[k := b]
  {
  }

  lemma UpdateElsewhere(m: map<int, seq<Handle>>, k: int, v: seq<Handle>)
    ensures OtherChatsUnchanged(m, m[k := v], k)
  {
  }

  lemma RegistryShrink(clients: map<int, seq<Handle>>, clients': map<int, seq<Handle>>, chatId: int, next: nat)
    requires RegistryValid(clients, next) && chatId in clients && chatId in clients'
    requires OtherChatsUnchanged(clients, clients', chatId)
    requires NoDuplicates(clients'[chatId]) && forall h :: h in clients'[chatId] ==> h in clients[chatId]
    ensures RegistryValid(clients', next)
  {
  }

  class ChatServer {
    /** `connected_clients`: chat id to the handles of its open sockets. */
    var clients: map<int, seq<Handle>>
    /** The Redis store. */
    var store: Store
    /** The Celery notification tasks enqueued so far. */
    var outbox: seq<Notification>
    /** The next handle a new socket gets. */
    var nextHandle: nat

    ghost predicate Valid()
      reads this
    {
      KeyValue.Valid(store) && StoreTyped(store) && RegistryValid(clients, nextHandle)
    }

    constructor (s: Store)
      requires KeyValue.Valid(s) && StoreTyped(s)
      ensures Valid()
      ensures clients == map[] && store == s && outbox == [] && nextHandle == 0
    {
      clients := map[];
      store := s;
      outbox := [];
      nextHandle := 0;
    }

    /**
     * Lines 192-195: `SADD chat:{id}:users user_id`, `EXPIRE ... 60` and
     * `connected_clients.setdefault(chat_id, []).append(websocket)` for a
     * socket that gets a fresh handle.
     */
    method Join(chatId: int, userId: int) returns (h: Handle)
      requires Valid()
      modifies this
      ensures Valid()
      ensures h == old(nextHandle) && nextHandle == old(nextHandle) + 1
      ensures Joined(old(store), old(clients), store, clients, chatId, userId, h)
      ensures outbox == old(outbox)
    {
      var pk := UsersKey(chatId);
      h := nextHandle;
      RegistryAppend(clients, chatId, nextHandle);
      nextHandle := nextHandle + 1;
      TypedSAdd(store, pk, userId);
      store := SAdd(store, pk, userId);
      store := Expire(store, pk, PresenceTtl);
      var list := if chatId in clients then clients[chatId] else [];
      clients := clients[chatId := list + [h]];
    }

    /**
     * Lines 175-195: admission, then, for an accepted socket, the join.
     * A socket that is not accepted leaves every field as it was.
     */
    method Connect(db: Database, chatId: int, token: Option<string>, decode: string -> Claims)
      returns (a: Admission, s: Option<Session>)
      requires Valid()
      modifies this
      ensures Valid()
      ensures a == Admit(token, decode, db.users)
      ensures !a.Accepted? ==>
        && s.None?
        && clients == old(clients) && store == old(store)
        && outbox == old(outbox) && nextHandle == old(nextHandle)
      ensures a.Accepted? ==>
        && s == Some(Session(chatId, a.userId, a.senderName, old(nextHandle)))
        && nextHandle == old(nextHandle) + 1
        && Joined(old(store), old(clients), store, clients, chatId, a.userId, old(nextHandle))
        && outbox == old(outbox)
    {
      a := Admit(token, decode, db.users);
      if !a.Accepted? {
        return a, None;
      }
      var h := Join(chatId, a.userId);
      s := Some(Session(chatId, a.userId, a.senderName, h));
    }

    /**
     * Lines 216-218, the `except WebSocketDisconnect` branch of the broadcast
     * loop: remove the failing handle and SREM the sender's `user_id`.
     */
    method Evict(chatId: int, userId: int, c: Handle)
      requires chatId in clients && KeyValue.Valid(store) && StoreTyped(store)
      modifies this
      ensures clients == old(clients)[chatId := RemoveFirst(old(clients)[chatId], c)]
      ensures store == SRem(old(store), UsersKey(chatId), userId)
      ensures outbox == old(outbox) && nextHandle == old(nextHandle)
    {
      clients := clients[chatId := RemoveFirst(clients[chatId], c)];
      store := SRem(store, UsersKey(chatId), userId);
    }

    /**
     * Lines 213-218, the broadcast loop as Python runs it: positions of the
     * live list are visited in turn; a send that raises removes that handle
     * and SREMs the sender's `user_id` (not the failing client's) from the
     * presence set. `failing` are the handles whose send raises.
     */
    method Broadcast(chatId: int, userId: int, failing: set<Handle>) returns (sentTo: seq<Handle>)
      requires Valid() && chatId in clients
      modifies this
      ensures Valid()
      ensures chatId in clients
      ensures (clients[chatId], sentTo) == BroadcastRun(old(clients)[chatId], 0, failing)
      ensures OtherChatsUnchanged(old(clients), clients, chatId)
      ensures store == if exists h :: h in sentTo && h in failing
                       then SRem(old(store), UsersKey(chatId), userId) else old(store)
      ensures outbox == old(outbox) && nextHandle == old(nextHandle)
    {
      var pk := UsersKey(chatId);
      ghost var live0 := clients[chatId];
      ghost var store0 := store;
      ghost var clients0 := clients;
      ghost var run0 := BroadcastRun(live0, 0, failing);
      ghost var anyFailed := false;
      TypedSRem(store0, pk, userId);
      var i := 0;
      sentTo := [];
      while i < |clients[chatId]|
        invariant chatId in clients
        invariant OtherChatsUnchanged(clients0, clients, chatId)
        invariant NoDuplicates(clients[chatId])
        invariant forall h :: h in clients[chatId] ==> h in live0
        invariant nextHandle == old(nextHandle) && outbox == old(outbox)
        invariant i <= |clients[chatId]| + 1
        invariant BroadcastRun(clients[chatId], i, failing).0 == run0.0
        invariant sentTo + BroadcastRun(clients[chatId], i, failing).1 == run0.1
        invariant anyFailed <==> exists h :: h in sentTo && h in failing
        invariant store == if anyFailed then SRem(store0, pk, userId) else store0
        decreases |clients[chatId]| + 1 - i
      {
        var live := clients[chatId];
        var c := live[i];
        ghost var next := if c in failing then RemoveFirst(live, c) else live;
        ghost var rest := BroadcastRun(next, i + 1, failing);
        assert BroadcastRun(live, i, failing) == (rest.0, [c] + rest.1);
        if c in failing {
          RemoveFirstKeepsNoDuplicates(live, c);
          Evict(chatId, userId, c);
          if anyFailed {
            SRemIdempotent(store0, pk, userId);
          }
          anyFailed := true;
        }
        Assoc(sentTo, [c], rest.1);
        sentTo := sentTo + [c];
        assert c in sentTo;
        i := i + 1;
      }
      assert BroadcastRun(clients[chatId], i, failing) == (clients[chatId], []);
      var none: seq<Handle> := [];
      assert sentTo + none == sentTo;
      RegistryShrink(clients0, clients, chatId, nextHandle);
    }

    /**
     * The corrected broadcast, `for client in list(connected_clients[chat_id])`:
     * iterating over a copy, every registered handle is sent to, and exactly
     * the failing ones leave the list.
     */
    method BroadcastSnapshot(chatId: int, userId: int, failing: set<Handle>) returns (sentTo: seq<Handle>)
      requires Valid() && chatId in clients
      modifies this
      ensures Valid()
      ensures chatId in clients
      ensures sentTo == old(clients)[chatId]
      ensures clients[chatId] == Without(old(clients)[chatId], failing)
      ensures OtherChatsUnchanged(old(clients), clients, chatId)
      ensures store == if exists h :: h in sentTo && h in failing
                       then SRem(old(store), UsersKey(chatId), userId) else old(store)
      ensures outbox == old(outbox) && nextHandle == old(nextHandle)
    {
      var snapshot := clients[chatId];
      ghost var clients0 := clients;
      TypedSRem(store, UsersKey(chatId), userId);
      assert NoDuplicates(snapshot);
      sentTo := SendToSnapshot(chatId, userId, failing, snapshot);
      WithoutKeepsNoDuplicates(snapshot, failing);
      UpdateElsewhere(clients0, chatId, clients[chatId]);
      RegistryShrink(clients0, clients, chatId, nextHandle);
    }

    /** The loop of `BroadcastSnapshot`, over the copy `snapshot` of the chat's list. */
    method SendToSnapshot(chatId: int, userId: int, failing: set<Handle>, snapshot: seq<Handle>)
      returns (sentTo: seq<Handle>)
      requires chatId in clients && clients[chatId] == snapshot && NoDuplicates(snapshot)
      requires KeyValue.Valid(store) && StoreTyped(store)
      requires KeyValue.Valid(SRem(store, UsersKey(chatId), userId)) && StoreTyped(SRem(store, UsersKey(chatId), userId))
      modifies this
      ensures sentTo == snapshot
      ensures clients == old(clients)[chatId := Without(snapshot, failing)]
      ensures store == if exists h :: h in sentTo && h in failing
                       then SRem(old(store), UsersKey(chatId), userId) else old(store)
      ensures outbox == old(outbox) && nextHandle == old(nextHandle)
    {
      var pk := UsersKey(chatId);
      ghost var store0 := store;
      ghost var clients0 := clients;
      ghost var anyFailed := false;
      assert snapshot[..0] == [] && snapshot[0..] == snapshot;
      assert Without(snapshot[..0], failing) + snapshot[0..] == snapshot;
      UpdateSame(clients0, chatId);
      sentTo := [];
      for i := 0 to |snapshot|
        invariant clients == clients0[chatId := Without(snapshot[..i], failing) + snapshot[i..]]
        invariant sentTo == snapshot[..i]
        invariant nextHandle == old(nextHandle) && outbox == old(outbox)
        invariant anyFailed <==> exists h :: h in sentTo && h in failing
        invariant store == if anyFailed then SRem(store0, pk, userId) else store0
      {
        var c := snapshot[i];
        ghost var live := clients[chatId];
        ghost var next := if c in failing then RemoveFirst(live, c) else live;
        NotInSuffix(snapshot, i, i + 1);
        SnapshotStep(live, snapshot, i, failing);
        if c in failing {
          Evict(chatId, userId, c);
          if anyFailed {
            SRemIdempotent(store0, pk, userId);
          }
          anyFailed := true;
        }
        UpdateTwice(clients0, chatId, live, next);
        sentTo := sentTo + [c];
        assert c in sentTo;
      }
      assert snapshot[..|snapshot|] == snapshot;
      assert Without(snapshot, failing) + [] == Without(snapshot, failing);
    }

    /**
     * Lines 200-211: refresh the presence expiry, persist the message,
     * serialise it and push it on the chat's cache. A failed insert (a
     * foreign key, or content holding U+0000) raises out of the loop after
     * the refresh.
     */
    method PersistAndCache(db: Database, s: Session, data: string, now: Timestamp)
      returns (created: Result<Message, DbError>, record: Dict)
      requires Valid() && db.Valid()
      modifies this, db
      ensures Valid() && db.Valid()
      ensures db.users == old(db.users) && db.chats == old(db.chats)
      ensures db.nextUserId == old(db.nextUserId) && db.nextChatId == old(db.nextChatId)
      ensures db.nextMessageId == old(db.nextMessageId) + (if created.Ok? then 1 else 0)
      ensures clients == old(clients) && outbox == old(outbox) && nextHandle == old(nextHandle)
      ensures created.Err? <==> MessageRejected(db.chats, db.users, s.chatId, s.userId, data)
      ensures created.Err? ==>
        db.messages == old(db.messages) && store == Expire(old(store), UsersKey(s.chatId), PresenceTtl)
      ensures created.Ok? ==>
        && created.value == Message(old(db.nextMessageId), s.chatId, s.userId, data, now)
        && db.messages == old(db.messages) + [created.value]
        && record == Serialized(MessageDict(ToOut(created.value)))
        && CacheUpdated(old(store), store, MessagesKey(s.chatId), record)
        && Members(store, UsersKey(s.chatId)) == Members(old(store), UsersKey(s.chatId))
        && (UsersKey(s.chatId) in old(store).data ==> Ttl(store, UsersKey(s.chatId)) == PresenceTtl)
        && (UsersKey(s.chatId) !in old(store).data ==> UsersKey(s.chatId) !in store.data)
        && (UsersKey(s.chatId) in store.data ==> Ttl(store, UsersKey(s.chatId)) == PresenceTtl)
        && SameElsewhere(old(store), store, UsersKey(s.chatId), MessagesKey(s.chatId))
    {
      var pk := UsersKey(s.chatId);
      var mk := MessagesKey(s.chatId);
      RefreshTyped(store, s.chatId);
      store := Expire(store, pk, PresenceTtl);
      created := db.CreateMessage(s.chatId, s.userId, data, now);
      if created.Err? {
        record := [];
        return;
      }
      record := SerializeMessage(ToOut(created.value));
      CacheAfterRefresh(old(store), s.chatId, record);
      store := LPush(store, mk, record);
      store := LTrim(store, mk, 0, CacheStop);
    }

    /**
     * One iteration of the receive loop, lines 199-235, as written: the
     * broadcast walks the live list, and a chat missing from
     * `connected_clients` raises `KeyError` after the message is stored.
     * `failing` are the handles whose send raises `WebSocketDisconnect`.
     */
    method Receive(db: Database, s: Session, data: string, now: Timestamp, failing: set<Handle>)
      returns (r: Ingest)
      requires Valid() && db.Valid()
      modifies this, db
      ensures Valid() && db.Valid()
      ensures db.users == old(db.users) && db.chats == old(db.chats) && nextHandle == old(nextHandle)
      ensures db.nextUserId == old(db.nextUserId) && db.nextChatId == old(db.nextChatId)
      ensures db.nextMessageId == old(db.nextMessageId) + (if r.PersistFailed? then 0 else 1)
      ensures r.PersistFailed? <==> MessageRejected(db.chats, db.users, s.chatId, s.userId, data)
      ensures r.PersistFailed? ==>
        && store == Expire(old(store), UsersKey(s.chatId), PresenceTtl)
        && db.messages == old(db.messages)
        && clients == old(clients) && outbox == old(outbox)
      ensures !r.PersistFailed? ==>
        && r.message == Message(old(db.nextMessageId), s.chatId, s.userId, data, now)
        && db.messages == old(db.messages) + [r.message]
        && r.record == Serialized(MessageDict(ToOut(r.message)))
        && CacheUpdated(old(store), store, MessagesKey(s.chatId), r.record)
        && SameElsewhere(old(store), store, UsersKey(s.chatId), MessagesKey(s.chatId))
        && (UsersKey(s.chatId) in store.data ==> Ttl(store, UsersKey(s.chatId)) == PresenceTtl)
      ensures r.RegistryMissing? <==> !r.PersistFailed? && s.chatId !in old(clients)
      ensures r.RegistryMissing? ==>
        && clients == old(clients) && outbox == old(outbox)
        && Members(store, UsersKey(s.chatId)) == Members(old(store), UsersKey(s.chatId))
      ensures r.Delivered? ==>
        && s.chatId in clients
        && (clients[s.chatId], r.sentTo) == BroadcastRun(old(clients)[s.chatId], 0, failing)
        && OtherChatsUnchanged(old(clients), clients, s.chatId)
        && Members(store, UsersKey(s.chatId)) == Members(old(store), UsersKey(s.chatId))
             - (if exists h :: h in r.sentTo && h in failing then {s.userId} else {})
        && r.notified == NotifyAll(Participants(FindChatById(db.chats, s.chatId).value), s.userId, s.senderName, data, db.users)
        && outbox == old(outbox) + r.notified
    {
      var created, record := PersistAndCache(db, s, data, now);
      if created.Err? {
        return PersistFailed;
      }
      r := Deliver(db, s, data, created.value, record, failing, old(store));
    }

    /**
     * Lines 213-235 once the message `m` is stored and cached: the broadcast
     * as written, then the notifications; a chat missing from
     * `connected_clients` raises `KeyError`. `s0` is the store before the
     * step, against which the cache update is stated.
     */
    method Deliver(db: Database, s: Session, data: string, m: Message, record: Dict,
                   failing: set<Handle>, ghost s0: Store)
      returns (r: Ingest)
      requires Valid() && KeyValue.Valid(s0) && s.chatId in ChatIds(db.chats)
      requires CacheUpdated(s0, store, MessagesKey(s.chatId), record)
      requires SameElsewhere(s0, store, UsersKey(s.chatId), MessagesKey(s.chatId))
      requires UsersKey(s.chatId) in store.data ==> Ttl(store, UsersKey(s.chatId)) == PresenceTtl
      modifies this
      ensures Valid() && nextHandle == old(nextHandle)
      ensures !r.PersistFailed? && r.message == m && r.record == record
      ensures CacheUpdated(s0, store, MessagesKey(s.chatId), record)
      ensures SameElsewhere(s0, store, UsersKey(s.chatId), MessagesKey(s.chatId))
      ensures UsersKey(s.chatId) in store.data ==> Ttl(store, UsersKey(s.chatId)) == PresenceTtl
      ensures r.RegistryMissing? <==> s.chatId !in old(clients)
      ensures r.RegistryMissing? ==> clients == old(clients) && outbox == old(outbox) && store == old(store)
      ensures r.Delivered? ==>
        && s.chatId in clients
        && (clients[s.chatId], r.sentTo) == BroadcastRun(old(clients)[s.chatId], 0, failing)
        && OtherChatsUnchanged(old(clients), clients, s.chatId)
        && Members(store, UsersKey(s.chatId)) == Members(old(store), UsersKey(s.chatId))
             - (if exists h :: h in r.sentTo && h in failing then {s.userId} else {})
        && r.notified == NotifyAll(Participants(FindChatById(db.chats, s.chatId).value), s.userId, s.senderName, data, db.users)
        && outbox == old(outbox) + r.notified
    {
      if s.chatId !in clients {
        return RegistryMissing(m, record);
      }
      ghost var cached := store;
      var sentTo := Broadcast(s.chatId, s.userId, failing);
      var chat := FindChatById(db.chats, s.chatId);
      var notified := Notify(chat.value, s.userId, s.senderName, data, db.users);
      r := Delivered(m, record, sentTo, notified);
      SRemKeepsCache(s0, cached, s.chatId, record, s.userId, exists h :: h in sentTo && h in failing);
    }

    /**
     * The receive step with the corrected broadcast: every handle registered
     * for the chat receives the record, and exactly those whose send raised
     * leave the list.
     */
    method ReceiveSnapshot(db: Database, s: Session, data: string, now: Timestamp, failing: set<Handle>)
      returns (r: Ingest)
      requires Valid() && db.Valid()
      modifies this, db
      ensures Valid() && db.Valid()
      ensures db.users == old(db.users) && db.chats == old(db.chats) && nextHandle == old(nextHandle)
      ensures db.nextUserId == old(db.nextUserId) && db.nextChatId == old(db.nextChatId)
      ensures db.nextMessageId == old(db.nextMessageId) + (if r.PersistFailed? then 0 else 1)
      ensures r.PersistFailed? <==> MessageRejected(db.chats, db.users, s.chatId, s.userId, data)
      ensures r.PersistFailed? ==>
        && store == Expire(old(store), UsersKey(s.chatId), PresenceTtl)
        && db.messages == old(db.messages)
        && clients == old(clients) && outbox == old(outbox)
      ensures !r.PersistFailed? ==>
        && r.message == Message(old(db.nextMessageId), s.chatId, s.userId, data, now)
        && db.messages == old(db.messages) + [r.message]
        && r.record == Serialized(MessageDict(ToOut(r.message)))
        && CacheUpdated(old(store), store, MessagesKey(s.chatId), r.record)
        && SameElsewhere(old(store), store, UsersKey(s.chatId), MessagesKey(s.chatId))
        && (UsersKey(s.chatId) in store.data ==> Ttl(store, UsersKey(s.chatId)) == PresenceTtl)
      ensures r.RegistryMissing? <==> !r.PersistFailed? && s.chatId !in old(clients)
      ensures r.RegistryMissing? ==>
        && clients == old(clients) && outbox == old(outbox)
        && Members(store, UsersKey(s.chatId)) == Members(old(store), UsersKey(s.chatId))
      ensures r.Delivered? ==>
        && s.chatId in clients
        && r.sentTo == old(clients)[s.chatId]
        && clients[s.chatId] == Without(old(clients)[s.chatId], failing)
        && OtherChatsUnchanged(old(clients), clients, s.chatId)
        && Members(store, UsersKey(s.chatId)) == Members(old(store), UsersKey(s.chatId))
             - (if exists h :: h in r.sentTo && h in failing then {s.userId} else {})
        && r.notified == NotifyAll(Participants(FindChatById(db.chats, s.chatId).value), s.userId, s.senderName, data, db.users)
        && outbox == old(outbox) + r.notified
    {
      var created, record := PersistAndCache(db, s, data, now);
      if created.Err? {
        return PersistFailed;
      }
      r := DeliverSnapshot(db, s, data, created.value, record, failing, old(store));
    }

    /**
     * `Deliver` with the corrected broadcast over a copy of the chat's list.
     */
    method DeliverSnapshot(db: Database, s: Session, data: string, m: Message, record: Dict,
                   failing: set<Handle>, ghost s0: Store)
      returns (r: Ingest)
      requires Valid() && KeyValue.Valid(s0) && s.chatId in ChatIds(db.chats)
      requires CacheUpdated(s0, store, MessagesKey(s.chatId), record)
      requires SameElsewhere(s0, store, UsersKey(s.chatId), MessagesKey(s.chatId))
      requires UsersKey(s.chatId) in store.data ==> Ttl(store, UsersKey(s.chatId)) == PresenceTtl
      modifies this
      ensures Valid() && nextHandle == old(nextHandle)
      ensures !r.PersistFailed? && r.message == m && r.record == record
      ensures CacheUpdated(s0, store, MessagesKey(s.chatId), record)
      ensures SameElsewhere(s0, store, UsersKey(s.chatId), MessagesKey(s.chatId))
      ensures UsersKey(s.chatId) in store.data ==> Ttl(store, UsersKey(s.chatId)) == PresenceTtl
      ensures r.RegistryMissing? <==> s.chatId !in old(clients)
      ensures r.RegistryMissing? ==> clients == old(clients) && outbox == old(outbox) && store == old(store)
      ensures r.Delivered? ==>
        && s.chatId in clients
        && r.sentTo == old(clients)[s.chatId]
        && clients[s.chatId] == Without(old(clients)[s.chatId], failing)
        && OtherChatsUnchanged(old(clients), clients, s.chatId)
        && Members(store, UsersKey(s.chatId)) == Members(old(store), UsersKey(s.chatId))
             - (if exists h :: h in r.sentTo && h in failing then {s.userId} else {})
        && r.notified == NotifyAll(Participants(FindChatById(db.chats, s.chatId).value), s.userId, s.senderName, data, db.users)
        && outbox == old(outbox) + r.notified
    {
      if s.chatId !in clients {
        return RegistryMissing(m, record);
      }
      ghost var cached := store;
      var sentTo := BroadcastSnapshot(s.chatId, s.userId, failing);
      var chat := FindChatById(db.chats, s.chatId);
      var notified := Notify(chat.value, s.userId, s.senderName, data, db.users);
      r := Delivered(m, record, sentTo, notified);
      SRemKeepsCache(s0, cached, s.chatId, record, s.userId, exists h :: h in sentTo && h in failing);
    }

    /**
     * Lines 237-241, on `WebSocketDisconnect`: SREM the user from the
     * presence set, remove the handle (a chat missing from the registry
     * raises `KeyError`, a handle missing from the list `ValueError`), and
     * delete the chat's entry when its list becomes empty.
     */
    method Disconnect(s: Session) returns (ok: bool)
      requires Valid()
      modifies this
      ensures Valid()
      ensures store == SRem(old(store), UsersKey(s.chatId), s.userId)
      ensures ok <==> s.chatId in old(clients) && s.handle in old(clients)[s.chatId]
      ensures !ok ==> clients == old(clients)
      ensures ok ==>
        var rest := RemoveFirst(old(clients)[s.chatId], s.handle);
        && (s.chatId in clients <==> rest != [])
        && (s.chatId in clients ==> clients[s.chatId] == rest && s.handle !in clients[s.chatId])
        && OtherChatsUnchanged(old(clients), clients, s.chatId)
      ensures outbox == old(outbox) && nextHandle == old(nextHandle)
    {
      TypedSRem(store, UsersKey(s.chatId), s.userId);
      store := SRem(store, UsersKey(s.chatId), s.userId);
      if s.chatId !in clients || s.handle !in clients[s.chatId] {
        return false;
      }
      var rest := RemoveFirst(clients[s.chatId], s.handle);
      RegistryRemove(clients, s.chatId, s.handle, nextHandle);
      RemoveFirstKeepsNoDuplicates(clients[s.chatId], s.handle);
      if rest == [] {
        clients := clients - {s.chatId};
      } else {
        clients := clients[s.chatId := rest];
      }
      ok := true;
    }

    /** The clock advances by `seconds`; expired keys disappear from the store. */
    method Tick(seconds: nat)
      requires Valid()
      modifies this
      ensures Valid()
      ensures store == Elapse(old(store), seconds)
      ensures clients == old(clients) && outbox == old(outbox) && nextHandle == old(nextHandle)
    {
      store := Elapse(store, seconds);
    }

    /**
     * One janitor cycle, lines 248-255: for each key of the `KEYS
     * chat:*:users` answer `listed`, read its `TTL`; on -2, parse the chat id
     * as field 1 of the key and delete that chat's cache.
     */
    method CleanupCycle(listed: seq<string>)
      requires Valid() && forall k :: k in listed ==> IsPresenceKey(k)
      modifies this
      ensures Valid()
      ensures store == CleanupRun(old(store), listed)
      ensures clients == old(clients) && outbox == old(outbox) && nextHandle == old(nextHandle)
    {
      ghost var store0 := store;
      for i := 0 to |listed|
        invariant store == CleanupRun(store0, listed[..i])
        invariant StoreTyped(store)
        invariant clients == old(clients) && outbox == old(outbox) && nextHandle == old(nextHandle)
      {
        var chatKey := listed[i];
        CleanupRunExtend(store0, listed, i);
        TypedCleanupStep(store, chatKey);
        var ttl := Ttl(store, chatKey);
        if ttl == -2 {
          var chatId := ChatField(chatKey);
          store := Delete(store, CacheKeyOf(chatId));
        }
      }
      assert listed[..|listed|] == listed;
    }

    /**
     * The corrected janitor cycle: for each key of the `KEYS
     * chat:*:messages` answer `cached`, delete it when its chat's presence
     * set is gone.
     */
    method CleanupCycleFixed(cached: seq<string>)
      requires Valid() && forall k :: k in cached ==> IsCacheKey(k)
      modifies this
      ensures Valid()
      ensures store == SweepRun(old(store), cached)
      ensures clients == old(clients) && outbox == old(outbox) && nextHandle == old(nextHandle)
    {
      ghost var store0 := store;
      for i := 0 to |cached|
        invariant store == SweepRun(store0, cached[..i])
        invariant StoreTyped(store)
        invariant clients == old(clients) && outbox == old(outbox) && nextHandle == old(nextHandle)
      {
        var cacheKey := cached[i];
        SweepRunExtend(store0, cached, i);
        TypedSweepStep(store, cacheKey);
        if PresenceKeyOf(ChatField(cacheKey)) !in store.data {
          store := Delete(store, cacheKey);
        }
      }
      assert cached[..|cached|] == cached;
    }

    /** The notification loop of lines 220-235 for the chat `c`. */
    method Notify(c: Chat, senderId: int, senderName: string, data: string, users: seq<User>)
      returns (sent: seq<Notification>)
      modifies this
      ensures sent == NotifyAll(Participants(c), senderId, senderName, data, users)
      ensures outbox == old(outbox) + sent
      ensures clients == old(clients) && store == old(store) && nextHandle == old(nextHandle)
    {
      var participants := [c.user1Id, c.user2Id];
      sent := [];
      for j := 0 to 2
        invariant sent == NotifyAll(participants[..j], senderId, senderName, data, users)
        invariant outbox == old(outbox) + sent
        invariant clients == old(clients) && store == old(store) && nextHandle == old(nextHandle)
      {
        var p := participants[j];
        assert participants[..j + 1][..j] == participants[..j];
        if p != senderId {
          var recipient := FindUser(users, p);
          if recipient.Some? && recipient.value.telegramId.Some? && recipient.value.telegramId.value != 0 {
            var n := Notification(recipient.value.telegramId.value, NotificationText(senderName, data));
            outbox := outbox + [n];
            sent := sent + [n];
          }
        }
      }
      assert participants[..2] == participants;
    }
  }
}
