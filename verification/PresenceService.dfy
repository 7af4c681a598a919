/**
 The presence services as they run: methods that read and write the Redis keys, the user rows and
 the SQL rows in place. Each is proved against its function in module Presence.
 */
module PresenceService {
  import opened Common
  import opened Ordering
  import opened Presence

  /** The order of a listing, newest interaction first; the connection key breaks every tie. */
  predicate Later(a: Connection, b: Connection) {
    a.lastInteractionAt > b.lastInteractionAt ||
    (a.lastInteractionAt == b.lastInteractionAt &&
     (a.lastHeartbeatAt > b.lastHeartbeatAt ||
      (a.lastHeartbeatAt == b.lastHeartbeatAt &&
       (a.connectedAt > b.connectedAt ||
        (a.connectedAt == b.connectedAt && StringLess(b.connectionKey, a.connectionKey))))))
  }

  lemma LaterIsStrict()
    ensures StrictOrder(Later)
  {
    forall x ensures !Later(x, x) {
      StringTrichotomy(x.connectionKey, x.connectionKey);
    }
    forall x, y, z | Later(x, y) && Later(y, z) ensures Later(x, z) {
      if StringLess(z.connectionKey, y.connectionKey) && StringLess(y.connectionKey, x.connectionKey) {
        StringTransitive(z.connectionKey, y.connectionKey, x.connectionKey);
      }
    }
  }

  predicate DistinctKeys(s: seq<Connection>) {
    forall i, j :: 0 <= i < j < |s| ==> s[i].connectionKey != s[j].connectionKey
  }

  function Insert(c: Connection, s: seq<Connection>): seq<Connection> {
    if s == [] || Later(c, s[0]) then [c] + s else [s[0]] + Insert(c, s[1..])
  }

  /** Python's `sorted` with the reversed tuple key. */
  function SortLater(s: seq<Connection>): seq<Connection> {
    if s == [] then [] else Insert(s[0], SortLater(s[1..]))
  }

  lemma ConsSorted(first: Connection, rest: seq<Connection>)
    requires SortedBy(Later, rest) && forall x :: x in rest ==> Later(first, x)
    ensures SortedBy(Later, [first] + rest) && Elements([first] + rest) == {first} + Elements(rest)
  {
  }

  lemma {:induction false} InsertSorts(c: Connection, s: seq<Connection>)
    requires SortedBy(Later, s)
    requires forall x :: x in Elements(s) ==> x.connectionKey != c.connectionKey
    ensures SortedBy(Later, Insert(c, s)) && Elements(Insert(c, s)) == Elements(s) + {c}
  {
    LaterIsStrict();
    hide Later;
    if s == [] {
      assert [c] + s == [c];
    } else {
      SortedTail(Later, s);
      assert s[0] in Elements(s);
      if Later(c, s[0]) {
        assert forall x :: x in s ==> x in Elements(s);
        ConsSorted(c, s);
      } else {
        InsertSorts(c, s[1..]);
        LaterCompares(c, s[0]);
        assert forall x :: x in Insert(c, s[1..]) ==> x in Elements(Insert(c, s[1..]));
        ConsSorted(s[0], Insert(c, s[1..]));
      }
    }
  }

  lemma LaterCompares(a: Connection, b: Connection)
    requires a.connectionKey != b.connectionKey
    ensures Later(a, b) || Later(b, a)
  {
    StringTrichotomy(a.connectionKey, b.connectionKey);
  }

  lemma {:induction false} SortLaterSorts(s: seq<Connection>)
    requires DistinctKeys(s)
    ensures SortedBy(Later, SortLater(s)) && Elements(SortLater(s)) == Elements(s)
  {
    if s != [] {
      SortLaterSorts(s[1..]);
      assert Elements(s) == {s[0]} + Elements(s[1..]) by {
        assert s == [s[0]] + s[1..];
      }
      InsertSorts(s[0], SortLater(s[1..]));
    }
  }

  /** One listing, whatever order the ids were visited in. */
  lemma ListingIsUnique(a: seq<Connection>, b: seq<Connection>)
    requires SortedBy(Later, a) && SortedBy(Later, b) && Elements(a) == Elements(b)
    ensures a == b
  {
    LaterIsStrict();
    SortedListingUnique(Later, a, b);
  }

  lemma {:induction false} SortedLength(s: seq<Connection>)
    requires SortedBy(Later, s)
    ensures |Elements(s)| == |s|
  {
    if s != [] {
      LaterIsStrict();
      SortedTail(Later, s);
      SortedLength(s[1..]);
      assert s[0] in Elements(s);
    }
  }

  function QueryAll(cfg: Settings, s: System, users: seq<UserId>): System
    decreases |users|
  {
    if users == [] then s else QueryAll(cfg, Query(cfg, s, users[0]), users[1..])
  }

  function QueryPayload(cfg: Settings, s: System, users: seq<UserId>): seq<(UserId, UserRow)>
    decreases |users|
  {
    if users == [] then []
    else
      var s' := Query(cfg, s, users[0]);
      (if users[0] in s.users then [(users[0], s'.users[users[0]])] else []) + QueryPayload(cfg, s', users[1..])
  }

  /** Each id visited so far has given either its connection or a stale id. */
  ghost predicate Collected(r: Registry, visited: set<string>, found: seq<Connection>, stale: set<string>) {
    && stale == (set k | k in visited && r.Get(k).None?)
    && Elements(found) == (set k | k in visited && r.Get(k).Some? :: r.Get(k).value)
    && DistinctKeys(found)
  }

  lemma CollectOne(r: Registry, visited: set<string>, found: seq<Connection>, stale: set<string>, id: string)
    requires Collected(r, visited, found, stale) && id !in visited
    requires forall k :: r.Get(k).Some? ==> r.Get(k).value.connectionKey == k
    ensures r.Get(id).None? ==> Collected(r, visited + {id}, found, stale + {id})
    ensures r.Get(id).Some? ==> Collected(r, visited + {id}, found + [r.Get(id).value], stale)
  {
    hide Registry.Get;
    if r.Get(id).Some? {
      var c := r.Get(id).value;
      assert Elements(found + [c]) == Elements(found) + {c};
      forall i | 0 <= i < |found| ensures found[i].connectionKey != id {
        assert found[i] in Elements(found);
      }
    }
  }

  class Service {
    const cfg: Settings
    var now: int
    var connections: map<string, Expiring<Connection>>
    var members: map<UserId, Expiring<set<string>>>
    var snapshots: map<UserId, Expiring<UserRow>>
    var users: map<UserId, UserRow>
    var rows: map<string, SqlRow>

    constructor (cfg: Settings, now: int, users: map<UserId, UserRow>)
      ensures Valid() && this.cfg == cfg
      ensures View() == System(Registry(now, map[], map[]), map[], users, map[])
    {
      this.cfg := cfg;
      this.now := now;
      this.users := users;
      connections, members, snapshots, rows := map[], map[], map[], map[];
    }

    ghost function View(): System
      reads this
    {
      System(Registry(now, connections, members), snapshots, users, rows)
    }

    /** Each value key holds the snapshot of its own connection. */
    ghost predicate Valid()
      reads this
    {
      forall k :: k in connections ==> connections[k].value.connectionKey == k
    }

    method RegisterConnection(c: Connection) returns (listed: seq<Connection>)
      requires Valid()
      modifies this`connections, this`members
      ensures Valid()
      ensures View() == old(View()).(registry := old(View()).registry.Add(c, cfg.heartbeatTtl).Prune(c.userId, cfg.heartbeatTtl))
      ensures SortedBy(Later, listed) && Elements(listed) == old(View()).registry.Add(c, cfg.heartbeatTtl).Live(c.userId)
    {
      connections := connections[c.connectionKey := Expiring(c, now + cfg.heartbeatTtl)];
      var ids := if c.userId in members && now < members[c.userId].expiresAt then members[c.userId].value else {};
      members := members[c.userId := Expiring(ids + {c.connectionKey}, now + cfg.heartbeatTtl)];
      assert View().registry == old(View()).registry.Add(c, cfg.heartbeatTtl);
      hide Registry.Live, Registry.LiveKeys, Registry.Add, Registry.Prune;
      listed := ListConnections(c.userId);
    }

    method UnregisterConnection(user: UserId, key: string) returns (listed: seq<Connection>)
      requires Valid()
      modifies this`connections, this`members
      ensures Valid()
      ensures View() == old(View()).(registry := old(View()).registry.Remove(user, key).Prune(user, cfg.heartbeatTtl))
      ensures SortedBy(Later, listed) && Elements(listed) == old(View()).registry.Remove(user, key).Live(user)
    {
      connections := connections - {key};
      RemoveMembers(user, {key});
      assert View().registry == old(View()).registry.Remove(user, key);
      hide Registry.Live, Registry.LiveKeys, Registry.Remove, Registry.Prune;
      listed := ListConnections(user);
    }

    /** SREM. */
    method RemoveMembers(user: UserId, keys: set<string>)
      modifies this`members
      ensures var rest := old(View()).registry.Members(user) - keys;
              members == if rest == {} then old(members) - {user}
                         else old(members)[user := Expiring(rest, old(members)[user].expiresAt)]
    {
      if user in members && now < members[user].expiresAt && members[user].value - keys != {} {
        members := members[user := Expiring(members[user].value - keys, members[user].expiresAt)];
      } else {
        members := members - {user};
      }
    }

    /** GET. */
    method Fetch(key: string) returns (c: Option<Connection>)
      ensures c == View().registry.Get(key)
    {
      c := if key in connections && now < connections[key].expiresAt then Some(connections[key].value) else None;
    }

    /** Visits the ids in any order, and splits them into live connections and stale ids. */
    method CollectLive(ids: set<string>) returns (found: seq<Connection>, stale: set<string>)
      requires Valid()
      ensures DistinctKeys(found)
      ensures stale == set k | k in ids && View().registry.Get(k).None?
      ensures Elements(found) == set k | k in ids && View().registry.Get(k).Some? :: View().registry.Get(k).value
    {
      ghost var r := View().registry;
      KeysAreTheirOwn();
      hide Valid, Registry.Get;
      var pending := ids;
      found, stale := [], {};
      while pending != {}
        invariant pending <= ids
        invariant Collected(r, ids - pending, found, stale)
        decreases |pending|
      {
        var id :| id in pending;
        pending := pending - {id};
        var c := Fetch(id);
        CollectOne(r, ids - pending - {id}, found, stale, id);
        assert ids - pending == ids - pending - {id} + {id};
        if c.Some? {
          found := found + [c.value];
        } else {
          stale := stale + {id};
        }
      }
      assert ids - pending == ids;
    }

    lemma KeysAreTheirOwn()
      requires Valid()
      ensures forall k :: View().registry.Get(k).Some? ==> View().registry.Get(k).value.connectionKey == k
    {
    }

    /** Drops the stale ids, then extends the user's set or deletes it. */
    method WriteBack(user: UserId, stale: set<string>, anyLive: bool)
      requires View().registry.Members(user) - stale == View().registry.LiveKeys(user)
      requires anyLive <==> View().registry.LiveKeys(user) != {}
      modifies this`members
      ensures members == old(View()).registry.Prune(user, cfg.heartbeatTtl).members
    {
      assert stale == {} ==> View().registry.Members(user) - stale == View().registry.Members(user);
      if stale != {} {
        RemoveMembers(user, stale);
      }
      if anyLive {
        assert members[user].value == old(View()).registry.LiveKeys(user);
        members := members[user := Expiring(members[user].value, now + cfg.heartbeatTtl)];
      } else {
        members := members - {user};
      }
    }

    /** Lists the live connections; stale ids go, and the set is extended or deleted. */
    method ListConnections(user: UserId) returns (listed: seq<Connection>)
      requires Valid()
      modifies this`members
      ensures Valid()
      ensures View() == old(View()).(registry := old(View()).registry.Prune(user, cfg.heartbeatTtl))
      ensures SortedBy(Later, listed) && Elements(listed) == old(View()).registry.Live(user)
    {
      ghost var before := View().registry;
      var ids := if user in members && now < members[user].expiresAt then members[user].value else {};
      if ids == {} {
        members := members - {user};
        return [];
      }
      var found, stale := CollectLive(ids);
      ElementsEmpty(found);
      assert Elements(found) == before.Live(user);
      if k :| k in before.LiveKeys(user) {
        assert before.Get(k).value in before.Live(user);
      }
      WriteBack(user, stale, found != []);
      SortLaterSorts(found);
      listed := SortLater(found);
    }

    method RecomputeUserPresence(user: UserId) returns (row: UserRow)
      requires Valid() && user in users
      modifies this`members, this`users, this`snapshots
      ensures Valid()
      ensures View() == Recompute(cfg, old(View()), user) && row == users[user]
    {
      var listed := ListConnections(user);
      PresenceIgnoresOrder(listed, now);
      var computed := ComputePresence(listed, now);
      if computed != users[user].presence {
        users := users[user := UserRow(computed, now)];
      }
      snapshots := snapshots[user := Expiring(users[user], now + cfg.snapshotTtl)];
      row := users[user];
      assert users == Recompute(cfg, old(View()), user).users;
    }

    method UpsertPresenceConnection(h: Heartbeat) returns (payload: Option<UserRow>)
      requires Valid() && h.user in users
      modifies this
      ensures Valid() && now == old(now)
      ensures View() == Upsert(cfg, old(View()), h)
      ensures payload == Payload(old(View()), View(), h.user)
    {
      var c := ConnectionOf(h, now);
      if cfg.legacySql {
        rows := rows[h.key := SqlRow(c, None)];
      }
      var _ := RegisterConnection(c);
      assert View() == WriteUpsert(cfg, old(View()), h);
      var previous := users[h.user].presence;
      var row := RecomputeUserPresence(h.user);
      LogParityMismatches(h.user);
      payload := if row.presence == previous then None else Some(row);
    }

    method ClosePresenceConnection(user: UserId, key: string) returns (payload: Option<UserRow>)
      requires Valid() && user in users
      modifies this
      ensures Valid() && now == old(now)
      ensures View() == Close(cfg, old(View()), user, key)
      ensures payload == Payload(old(View()), View(), user)
    {
      if cfg.legacySql && key in rows && rows[key].connection.userId == user && rows[key].disconnectedAt.None? {
        rows := rows[key := rows[key].(disconnectedAt := Some(now))];
      }
      var _ := UnregisterConnection(user, key);
      assert View() == WriteClose(cfg, old(View()), user, key);
      var previous := users[user].presence;
      var row := RecomputeUserPresence(user);
      LogParityMismatches(user);
      payload := if row.presence == previous then None else Some(row);
    }

    method LogParityMismatches(user: UserId)
      requires Valid()
      modifies this`members
      ensures Valid() && View() == VerifyParity(cfg, old(View()), user)
    {
      if cfg.legacySql && cfg.verifyParity {
        var listed := ListConnections(user);
        SortedLength(listed);
        var _ := CompareToLegacySql(user, listed);
      }
    }

    /** Appends one line for each disagreement between the Redis listing and the open SQL rows. */
    method CompareToLegacySql(user: UserId, redis: seq<Connection>) returns (mismatches: seq<Mismatch>)
      requires |Elements(redis)| == |redis|
      ensures mismatches == Mismatches(Elements(redis), LegacyConnections(View(), user), now)
    {
      var sql := set key | key in rows && rows[key].connection.userId == user && rows[key].disconnectedAt.None? :: rows[key].connection;
      assert sql == LegacyConnections(View(), user);
      PresenceIgnoresOrder(redis, now);
      mismatches := [];
      var redisPresence, sqlPresence := ComputePresence(redis, now), PresenceOf(sql, now);
      if redisPresence != sqlPresence {
        mismatches := mismatches + [PresenceMismatch(redisPresence, sqlPresence)];
      }
      if |redis| != |sql| {
        mismatches := mismatches + [CountMismatch(|redis|, |sql|)];
      }
    }

    /** Recomputes each requested user in turn; ids without a user row are skipped. */
    method GetPresenceSnapshots(requested: seq<UserId>) returns (payload: seq<(UserId, UserRow)>)
      requires Valid()
      modifies this`members, this`users, this`snapshots
      ensures Valid()
      ensures View() == QueryAll(cfg, old(View()), requested)
      ensures payload == QueryPayload(cfg, old(View()), requested)
    {
      payload := [];
      for i := 0 to |requested|
        invariant Valid()
        invariant QueryAll(cfg, View(), requested[i..]) == QueryAll(cfg, old(View()), requested)
        invariant payload + QueryPayload(cfg, View(), requested[i..]) == QueryPayload(cfg, old(View()), requested)
      {
        var user := requested[i];
        assert requested[i..][0] == user && requested[i..][1..] == requested[i + 1..];
        if user in users {
          var row := RecomputeUserPresence(user);
          payload := payload + [(user, row)];
        }
      }
    }

    method Elapse(duration: nat)
      requires Valid()
      modifies this`now
      ensures Valid() && View() == old(View()).(registry := old(View()).registry.Elapse(duration))
    {
      now := now + duration;
    }
  }
}
