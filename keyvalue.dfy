/**
 * The Redis commands the chat backend uses, over an abstract store that maps
 * each key to a set of user ids or a list of serialised messages, with an
 * optional time to live in seconds. As in Redis, a set or list that becomes
 * empty is removed together with its key, a key created by SADD or LPUSH has
 * no expiry, `EXPIRE` on a missing key does nothing, and `TTL` answers -2 for
 * a missing key and -1 for a key without expiry. Expiry happens only when
 * time is advanced explicitly with `Elapse`.
 */
module KeyValue {
  import opened Text
  import opened Serialize

  datatype RedisValue = SetVal(members: set<int>) | ListVal(items: seq<Dict>)

  datatype Store = Store(data: map<string, RedisValue>, ttl: map<string, nat>)

  /** Every expiry belongs to a live key and is positive; no empty set or list is stored. */
  ghost predicate Valid(s: Store)
  {
    && s.ttl.Keys <= s.data.Keys
    && (forall k :: k in s.ttl ==> s.ttl[k] > 0)
    && (forall k :: k in s.data && s.data[k].SetVal? ==> s.data[k].members != {})
    && (forall k :: k in s.data && s.data[k].ListVal? ==> s.data[k].items != [])
  }

  predicate SetOrMissing(s: Store, k: string) { k !in s.data || s.data[k].SetVal? }

  predicate ListOrMissing(s: Store, k: string) { k !in s.data || s.data[k].ListVal? }

  /** The members of the set at `k`; a missing key reads as the empty set. */
  function Members(s: Store, k: string): set<int>
  {
    if k in s.data && s.data[k].SetVal? then s.data[k].members else {}
  }

  /** The list at `k`; a missing key reads as the empty list. */
  function Items(s: Store, k: string): seq<Dict>
  {
    if k in s.data && s.data[k].ListVal? then s.data[k].items else []
  }

  /** `DEL key`. */
  function Delete(s: Store, k: string): (r: Store)
    requires Valid(s)
    ensures Valid(r)
    ensures r.data.Keys == s.data.Keys - {k} && r.ttl.Keys == s.ttl.Keys - {k}
    ensures forall j :: j in r.data ==> r.data[j] == s.data[j]
    ensures forall j :: j in r.ttl ==> r.ttl[j] == s.ttl[j]
  {
    Store(s.data - {k}, s.ttl - {k})
  }

  /** `TTL key`. */
  function Ttl(s: Store, k: string): (t: int)
    requires Valid(s)
    ensures t == -2 <==> k !in s.data
    ensures t == -1 <==> k in s.data && k !in s.ttl
    ensures t >= 0 ==> t > 0 && k in s.ttl && t == s.ttl[k]
  {
    if k !in s.data then -2 else if k !in s.ttl then -1 else s.ttl[k]
  }

  /** `SADD key member`: adds to the set, creating it without expiry when missing. */
  function SAdd(s: Store, k: string, m: int): (r: Store)
    requires Valid(s)
    ensures Valid(r)
    requires SetOrMissing(s, k)
    ensures k in r.data && r.data[k].SetVal? && Members(r, k) == Members(s, k) + {m}
    ensures Ttl(r, k) == (if k in s.data then Ttl(s, k) else -1)
    ensures forall j :: j != k ==> (j in r.data <==> j in s.data) && (j in s.data ==> r.data[j] == s.data[j])
    ensures forall j :: j != k ==> Ttl(r, j) == Ttl(s, j)
  {
    Store(s.data[k := SetVal(Members(s, k) + {m})], s.ttl)
  }

  /** `SREM key member`: removes from the set; a set left empty is deleted with its key. */
  function SRem(s: Store, k: string, m: int): (r: Store)
    requires Valid(s)
    ensures Valid(r)
    requires SetOrMissing(s, k)
    ensures Members(r, k) == Members(s, k) - {m}
    ensures k in r.data <==> Members(s, k) - {m} != {}
    ensures k in r.data ==> k in s.data && r.data[k].SetVal? && Ttl(r, k) == Ttl(s, k)
    ensures forall j :: j != k ==> (j in r.data <==> j in s.data) && (j in s.data ==> r.data[j] == s.data[j])
    ensures forall j :: j != k ==> Ttl(r, j) == Ttl(s, j)
  {
    if k !in s.data then s
    else if Members(s, k) - {m} == {} then Delete(s, k)
    else Store(s.data[k := SetVal(Members(s, k) - {m})], s.ttl)
  }

  /** Removing the same member twice is removing it once. */
  lemma SRemIdempotent(s: Store, k: string, m: int)
    requires Valid(s) && SetOrMissing(s, k)
    ensures SRem(SRem(s, k, m), k, m) == SRem(s, k, m)
  {
    var r := SRem(s, k, m);
    if k in r.data {
      var left := Members(s, k) - {m};
      assert r == Store(s.data[k := SetVal(left)], s.ttl);
      assert Members(r, k) - {m} == left;
      assert r.data[k := SetVal(left)] == r.data;
    }
  }

  /** `EXPIRE key seconds`: sets the expiry of a live key; a non-positive one deletes the key. */
  function Expire(s: Store, k: string, seconds: int): (r: Store)
    requires Valid(s)
    ensures Valid(r)
    ensures k !in s.data ==> r == s
    ensures k in s.data && seconds > 0 ==> r.data == s.data && Ttl(r, k) == seconds
    ensures k in s.data && seconds <= 0 ==> k !in r.data
    ensures forall j :: j != k ==> (j in r.data <==> j in s.data) && (j in r.data ==> r.data[j] == s.data[j])
    ensures forall j :: j != k ==> Ttl(r, j) == Ttl(s, j)
  {
    if k !in s.data then s
    else if seconds <= 0 then Delete(s, k)
    else Store(s.data, s.ttl[k := seconds])
  }

  /** `LPUSH key value`: puts the value at the head, creating the list without expiry when missing. */
  function LPush(s: Store, k: string, v: Dict): (r: Store)
    requires Valid(s)
    ensures Valid(r)
    requires ListOrMissing(s, k)
    ensures k in r.data && r.data[k].ListVal? && Items(r, k) == [v] + Items(s, k)
    ensures Ttl(r, k) == (if k in s.data then Ttl(s, k) else -1)
    ensures forall j :: j != k ==> (j in r.data <==> j in s.data) && (j in s.data ==> r.data[j] == s.data[j])
    ensures forall j :: j != k ==> Ttl(r, j) == Ttl(s, j)
  {
    Store(s.data[k := ListVal([v] + Items(s, k))], s.ttl)
  }

  /** `LTRIM key start stop` for non-negative indices: keeps positions `start` to `stop` inclusive. */
  function LTrim(s: Store, k: string, start: nat, stop: nat): (r: Store)
    requires Valid(s)
    ensures Valid(r)
    requires ListOrMissing(s, k)
    ensures var xs := Items(s, k);
      Items(r, k) == if start <= stop && start < |xs| then xs[start..if stop < |xs| then stop + 1 else |xs|] else []
    ensures k in r.data ==> k in s.data && r.data[k].ListVal? && Ttl(r, k) == Ttl(s, k)
    ensures forall j :: j != k ==> (j in r.data <==> j in s.data) && (j in s.data ==> r.data[j] == s.data[j])
    ensures forall j :: j != k ==> Ttl(r, j) == Ttl(s, j)
  {
    var xs := Items(s, k);
    if k !in s.data then s
    else if start <= stop && start < |xs| then
      Store(s.data[k := ListVal(xs[start..if stop < |xs| then stop + 1 else |xs|])], s.ttl)
    else Delete(s, k)
  }

  /** `LPUSH` then `LTRIM 0 n-1`: the bounded most-recent-first cache. */
  lemma PushTrimBound(s: Store, k: string, v: Dict, n: nat)
    requires Valid(s) && ListOrMissing(s, k) && n > 0
    ensures var r := LTrim(LPush(s, k, v), k, 0, n - 1);
      && |Items(r, k)| <= n
      && Items(r, k)[0] == v
      && Items(r, k)[1..] == Items(s, k)[..if |Items(s, k)| < n - 1 then |Items(s, k)| else n - 1]
  {
    var p := LPush(s, k, v);
    var xs := Items(s, k);
    assert Items(p, k) == [v] + xs;
    var r := LTrim(p, k, 0, n - 1);
    var m := if |xs| + 1 < n then |xs| + 1 else n;
    assert Items(r, k) == ([v] + xs)[..m];
    assert ([v] + xs)[..m][1..] == xs[..m - 1];
  }

  /** Advancing the clock by `seconds`: keys whose time to live runs out are gone. */
  function Elapse(s: Store, seconds: nat): (r: Store)
    requires Valid(s)
    ensures Valid(r)
    ensures forall k :: k in s.ttl && s.ttl[k] <= seconds ==> Ttl(r, k) == -2
    ensures forall k :: k in s.ttl && s.ttl[k] > seconds ==> Ttl(r, k) == Ttl(s, k) - seconds
    ensures forall k :: k in s.data && k !in s.ttl ==> k in r.data && r.data[k] == s.data[k] && Ttl(r, k) == -1
    ensures forall k :: k in r.data ==> k in s.data && r.data[k] == s.data[k]
  {
    Store(map k | k in s.data && !(k in s.ttl && s.ttl[k] <= seconds) :: s.data[k],
          map k | k in s.ttl && s.ttl[k] > seconds && k in s.data :: s.ttl[k] - seconds)
  }

  /** Redis glob `<prefix>*<suffix>`: `*` matches any text, colons included. */
  predicate MatchesGlob(k: string, prefix: string, suffix: string)
  {
    |k| >= |prefix| + |suffix| && k[..|prefix|] == prefix && k[|k| - |suffix|..] == suffix
  }

  /** The pattern `chat:*:users`. */
  predicate IsPresenceKey(k: string)
    ensures IsPresenceKey(k) ==> MatchesGlob(k, "chat:", "")
  {
    MatchesGlob(k, "chat:", ":users")
  }

  /** The pattern `chat:*:messages`. */
  predicate IsCacheKey(k: string)
    ensures IsCacheKey(k) ==> MatchesGlob(k, "chat:", "")
  {
    MatchesGlob(k, "chat:", ":messages")
  }

  /** `KEYS chat:*:users` on the current store. */
  function PresenceKeys(s: Store): (ks: set<string>)
    ensures forall k :: k in ks ==> k in s.data && IsPresenceKey(k)
    ensures forall k :: k in s.data && IsPresenceKey(k) ==> k in ks
  {
    set k | k in s.data.Keys && IsPresenceKey(k)
  }

  /**
   * `KEYS chat:*:users` once the clock has advanced: a presence key is
   * listed exactly when it existed and had no expiry or more time to live
   * than elapsed, so an expired presence key is never listed.
   */
  lemma PresenceKeysAfterElapse(s: Store, seconds: nat, k: string)
    requires Valid(s)
    ensures k in PresenceKeys(Elapse(s, seconds)) <==>
      k in PresenceKeys(s) && (k !in s.ttl || s.ttl[k] > seconds)
  {
  }

  lemma PresenceIsNotCache(k: string)
    requires IsPresenceKey(k)
    ensures !IsCacheKey(k)
  {
    var tail := k[|k| - 6..];
    assert tail[0] == ':';
    if |k| >= 9 {
      var longer := k[|k| - 9..];
      assert longer[3] == tail[0];
    }
  }

  /** `f"chat:{chat_id}:users"`, the presence set of a chat. */
  function UsersKey(chatId: int): (k: string)
    ensures IsPresenceKey(k)
  {
    PresenceKeyOf(IntToStr(chatId))
  }

  /** `f"chat:{chat_id}:messages"`, the recent-message cache of a chat. */
  function MessagesKey(chatId: int): (k: string)
    ensures IsCacheKey(k)
  {
    CacheKeyOf(IntToStr(chatId))
  }

  /** `f"chat:{chat_id}:messages"` for the text `chat_id` read back from a key. */
  function CacheKeyOf(field: string): (k: string)
    ensures IsCacheKey(k)
  {
    var k := "chat:" + field + ":messages";
    assert k[..5] == "chat:";
    assert k[|k| - 9..] == ":messages";
    k
  }

  /** `f"chat:{chat_id}:users"` for the text `chat_id` read back from a key. */
  function PresenceKeyOf(field: string): (k: string)
    ensures IsPresenceKey(k)
  {
    var k := "chat:" + field + ":users";
    assert k[..5] == "chat:";
    assert k[|k| - 6..] == ":users";
    k
  }

  /** `key.split(":")[1]`: the chat id text of a `chat:*:...` key. */
  function ChatField(k: string): string
    requires MatchesGlob(k, "chat:", "")
  {
    assert k[..5][4] == ':';
    Split(k, ':')[1]
  }

  lemma ChatFieldOf(field: string, rest: string)
    requires ':' !in field
    ensures MatchesGlob("chat:" + field + ":" + rest, "chat:", "")
    ensures ChatField("chat:" + field + ":" + rest) == field
  {
    var k := "chat:" + field + ":" + rest;
    assert k[..5] == "chat:";
    assert k == "chat" + [':'] + (field + [':'] + rest);
    SplitAtFirst("chat", ':', field + [':'] + rest);
    SplitAtFirst(field, ':', rest);
  }

  /** Parsing field 1 of `chat:{id}:users` gives back `id`, so the janitor's cache key is that chat's. */
  lemma ChatFieldOfUsersKey(id: int)
    ensures ChatField(UsersKey(id)) == IntToStr(id)
    ensures CacheKeyOf(ChatField(UsersKey(id))) == MessagesKey(id)
  {
    var f := IntToStr(id);
    KeyShape(f, "users", ":users");
    ChatFieldOf(f, "users");
  }

  /** Field 1 of `chat:{id}:messages` is `id` as well: a cache key leads back to its presence key. */
  lemma ChatFieldOfMessagesKey(id: int)
    ensures ChatField(MessagesKey(id)) == IntToStr(id)
    ensures PresenceKeyOf(ChatField(MessagesKey(id))) == UsersKey(id)
  {
    var f := IntToStr(id);
    KeyShape(f, "messages", ":messages");
    ChatFieldOf(f, "messages");
  }

  lemma KeyShape(f: string, name: string, suffix: string)
    requires suffix == [':'] + name
    ensures "chat:" + f + suffix == "chat:" + f + ":" + name
  {
  }
}
