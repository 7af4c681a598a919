/**
 Presence: the Redis connection registry with its time-to-live arithmetic, the presence flag
 stored on the user row, the cached snapshot key and the dual-written SQL rows.

 Times are microseconds. Redis is a set of maps whose entries carry an expiry time; an entry
 whose expiry has passed is invisible to every command. The reference model is `Beats`: the
 last registration of every connection that has not been closed, with no expiry at all.
 */
module Presence {
  import opened Common
  import opened Ordering

  type UserId = nat

  const AFK_TIMEOUT := 60_000_000

  datatype Level = Offline | Afk | Online

  function Rank(level: Level): nat {
    match level
    case Offline => 0
    case Afk => 1
    case Online => 2
  }

  datatype Connection = Connection(
    connectionKey: string, userId: UserId, sessionId: Option<nat>, tabId: string,
    isActive: bool, lastInteractionAt: int, lastHeartbeatAt: int, connectedAt: int)

  datatype Expiring<+T> = Expiring(value: T, expiresAt: int)

  datatype RawSettings = Settings(heartbeatTtl: int, snapshotTtl: int, legacySql: bool, verifyParity: bool)

  /** Redis rejects a time to live that is not positive. */
  type Settings = s: RawSettings | s.heartbeatTtl > 0 && s.snapshotTtl > 0
    witness Settings(90_000_000, 120_000_000, true, true)

  // ----- The registry as Redis holds it -----

  datatype Registry = Registry(
    now: int,
    connections: map<string, Expiring<Connection>>,
    members: map<UserId, Expiring<set<string>>>)
  {
    /** GET of a connection key. */
    function Get(key: string): Option<Connection> {
      if key in connections && now < connections[key].expiresAt then Some(connections[key].value) else None
    }

    /** SMEMBERS of a user's set. */
    function Members(user: UserId): set<string> {
      if user in members && now < members[user].expiresAt then members[user].value else {}
    }

    function LiveKeys(user: UserId): set<string> {
      set key | key in Members(user) && Get(key).Some?
    }

    /** What a listing of the user's connections returns, as a set. */
    function Live(user: UserId): set<Connection> {
      set key | key in LiveKeys(user) :: Get(key).value
    }

    /** SET with expiry, SADD and EXPIRE. */
    function Add(c: Connection, ttl: int): Registry {
      this.(connections := connections[c.connectionKey := Expiring(c, now + ttl)],
            members := members[c.userId := Expiring(Members(c.userId) + {c.connectionKey}, now + ttl)])
    }

    /** DEL and SREM; Redis drops a set that becomes empty. */
    function Remove(user: UserId, key: string): Registry {
      var rest := Members(user) - {key};
      this.(connections := connections - {key},
            members := if rest == {} then members - {user}
                       else members[user := Expiring(rest, members[user].expiresAt)])
    }

    /** The writes a listing makes: stale ids go, and the set is extended or deleted. */
    function Prune(user: UserId, ttl: int): Registry {
      this.(members := if LiveKeys(user) == {} then members - {user}
                       else members[user := Expiring(LiveKeys(user), now + ttl)])
    }

    function Elapse(duration: nat): Registry {
      this.(now := now + duration)
    }
  }

  // ----- The reference model -----

  /** The last registration of every connection that has not been unregistered. */
  type Beats = map<string, Connection>

  predicate Fresh(c: Connection, now: int, ttl: int) {
    now < c.lastHeartbeatAt + ttl
  }

  function FreshConnections(beats: Beats, user: UserId, now: int, ttl: int): set<Connection> {
    set key | key in beats && beats[key].userId == user && Fresh(beats[key], now, ttl) :: beats[key]
  }

  /**
   A registry that represents `beats`. Every unexpired connection key is in its owner's set, and
   that set expires no earlier than the key; `owner` says which user each connection key was issued to.
   */
  ghost predicate Represents(r: Registry, beats: Beats, owner: string -> UserId, ttl: int) {
    KeysRepresent(r, beats, owner, ttl) && SetsIndex(r, owner)
  }

  ghost predicate KeysRepresent(r: Registry, beats: Beats, owner: string -> UserId, ttl: int) {
    && (forall k :: k in beats ==> beats[k].connectionKey == k && beats[k].userId == owner(k) && beats[k].lastHeartbeatAt <= r.now)
    && (forall k :: r.Get(k).Some? ==> k in beats && r.connections[k] == Expiring(beats[k], beats[k].lastHeartbeatAt + ttl))
    && (forall k :: k in beats && Fresh(beats[k], r.now, ttl) ==> r.Get(k).Some?)
  }

  ghost predicate SetsIndex(r: Registry, owner: string -> UserId) {
    && (forall k :: r.Get(k).Some? ==>
          k in r.Members(owner(k)) && r.connections[k].expiresAt <= r.members[owner(k)].expiresAt)
    && (forall u, k :: k in r.Members(u) ==> owner(k) == u)
  }

  lemma LiveIsFresh(r: Registry, beats: Beats, owner: string -> UserId, ttl: int, user: UserId)
    requires Represents(r, beats, owner, ttl)
    ensures r.Live(user) == FreshConnections(beats, user, r.now, ttl)
  {
    forall c | c in FreshConnections(beats, user, r.now, ttl) ensures c in r.Live(user) {
      assert r.Get(c.connectionKey) == Some(c) && c.connectionKey in r.LiveKeys(user);
    }
    forall c | c in r.Live(user) ensures c in FreshConnections(beats, user, r.now, ttl) {
      var key :| key in r.LiveKeys(user) && r.Get(key).value == c;
      assert owner(key) == user && beats[key] == c;
    }
  }

  lemma AddKeysRepresent(r: Registry, beats: Beats, owner: string -> UserId, ttl: int, c: Connection)
    requires ttl > 0 && KeysRepresent(r, beats, owner, ttl)
    requires c.lastHeartbeatAt == r.now && owner(c.connectionKey) == c.userId
    ensures KeysRepresent(r.Add(c, ttl), beats[c.connectionKey := c], owner, ttl)
  {
    forall k | k != c.connectionKey ensures r.Add(c, ttl).Get(k) == r.Get(k) {}
  }

  lemma AddSetsIndex(r: Registry, owner: string -> UserId, ttl: int, c: Connection, beats: Beats)
    requires ttl > 0 && SetsIndex(r, owner) && owner(c.connectionKey) == c.userId
    requires KeysRepresent(r, beats, owner, ttl)
    ensures SetsIndex(r.Add(c, ttl), owner)
  {
    var r' := r.Add(c, ttl);
    forall k | k != c.connectionKey ensures r'.Get(k) == r.Get(k) {}
    forall u | u != c.userId ensures r'.Members(u) == r.Members(u) {}
    assert r'.Members(c.userId) == r.Members(c.userId) + {c.connectionKey};
  }

  lemma AddRepresents(r: Registry, beats: Beats, owner: string -> UserId, ttl: int, c: Connection)
    requires ttl > 0 && Represents(r, beats, owner, ttl)
    requires c.lastHeartbeatAt == r.now && owner(c.connectionKey) == c.userId
    ensures Represents(r.Add(c, ttl), beats[c.connectionKey := c], owner, ttl)
  {
    hide KeysRepresent, SetsIndex, Registry.Add;
    AddKeysRepresent(r, beats, owner, ttl, c);
    AddSetsIndex(r, owner, ttl, c, beats);
  }

  lemma RemoveKeysRepresent(r: Registry, beats: Beats, owner: string -> UserId, ttl: int, user: UserId, key: string)
    requires KeysRepresent(r, beats, owner, ttl)
    ensures KeysRepresent(r.Remove(user, key), beats - {key}, owner, ttl)
  {
    forall k | k != key ensures r.Remove(user, key).Get(k) == r.Get(k) {}
  }

  lemma RemoveSetsIndex(r: Registry, owner: string -> UserId, user: UserId, key: string)
    requires SetsIndex(r, owner) && owner(key) == user
    ensures SetsIndex(r.Remove(user, key), owner)
  {
    var r' := r.Remove(user, key);
    forall k | k != key ensures r'.Get(k) == r.Get(k) {}
    forall u | u != user ensures r'.Members(u) == r.Members(u) {}
    assert r'.Members(user) == r.Members(user) - {key};
  }

  lemma RemoveRepresents(r: Registry, beats: Beats, owner: string -> UserId, ttl: int, user: UserId, key: string)
    requires Represents(r, beats, owner, ttl) && owner(key) == user
    ensures Represents(r.Remove(user, key), beats - {key}, owner, ttl)
  {
    hide KeysRepresent, SetsIndex, Registry.Remove;
    RemoveKeysRepresent(r, beats, owner, ttl, user, key);
    RemoveSetsIndex(r, owner, user, key);
  }

  /** A listing's writes are invisible: the registry still represents the same connections. */
  lemma PruneRepresents(r: Registry, beats: Beats, owner: string -> UserId, ttl: int, user: UserId)
    requires ttl > 0 && Represents(r, beats, owner, ttl)
    ensures Represents(r.Prune(user, ttl), beats, owner, ttl)
  {
    var r' := r.Prune(user, ttl);
    forall k ensures r'.Get(k) == r.Get(k) {}
    forall u | u != user ensures r'.Members(u) == r.Members(u) {}
    assert r'.Members(user) == r.LiveKeys(user);
  }

  lemma ElapseRepresents(r: Registry, beats: Beats, owner: string -> UserId, ttl: int, duration: nat)
    requires Represents(r, beats, owner, ttl)
    ensures Represents(r.Elapse(duration), beats, owner, ttl)
  {
    var r' := r.Elapse(duration);
    forall k | r'.Get(k).Some? ensures r'.Get(k) == r.Get(k) && k in r'.Members(owner(k)) {
      assert r.Get(k).Some?;
    }
    forall u, k | k in r'.Members(u) ensures k in r.Members(u) {}
    forall k | k in beats && Fresh(beats[k], r'.now, ttl) ensures r'.Get(k).Some? {
      assert r.Get(k).Some?;
    }
  }

  // ----- Presence of a set of connections -----

  predicate Engaged(c: Connection, now: int) {
    c.isActive || c.lastInteractionAt > now - AFK_TIMEOUT
  }

  /** The presence of a list of connections. */
  function ComputePresence(connections: seq<Connection>, now: int): Level {
    if connections == [] then Offline
    else if exists c :: c in connections && Engaged(c, now) then Online
    else Afk
  }

  function PresenceOf(connections: set<Connection>, now: int): Level {
    if connections == {} then Offline
    else if exists c :: c in connections && Engaged(c, now) then Online
    else Afk
  }

  /** Presence depends on which connections there are, not on their order or repetition. */
  lemma PresenceIgnoresOrder(connections: seq<Connection>, now: int)
    ensures ComputePresence(connections, now) == PresenceOf(Elements(connections), now)
  {
    ElementsEmpty(connections);
  }

  /** Fewer connections at a later time never look more present. */
  lemma PresenceIsMonotone(fewer: set<Connection>, later: int, more: set<Connection>, earlier: int)
    requires fewer <= more && earlier <= later
    ensures Rank(PresenceOf(fewer, later)) <= Rank(PresenceOf(more, earlier))
  {
    if c :| c in fewer && Engaged(c, later) {
      assert c in more && Engaged(c, earlier);
    }
  }

  // ----- The whole system -----

  datatype UserRow = UserRow(presence: Level, changedAt: int)

  datatype SqlRow = SqlRow(connection: Connection, disconnectedAt: Option<int>)

  datatype System = System(
    registry: Registry,
    snapshots: map<UserId, Expiring<UserRow>>,
    users: map<UserId, UserRow>,
    rows: map<string, SqlRow>)
  {
    function Now(): int { registry.now }

    /** Presence at this instant, whatever the user row says. */
    function Actual(user: UserId): Level {
      PresenceOf(registry.Live(user), Now())
    }

    function Snapshot(user: UserId): Option<UserRow> {
      if user in snapshots && Now() < snapshots[user].expiresAt then Some(snapshots[user].value) else None
    }
  }

  function Recompute(cfg: Settings, s: System, user: UserId): System
    requires user in s.users
  {
    var row := if s.Actual(user) != s.users[user].presence then UserRow(s.Actual(user), s.Now())
               else s.users[user];
    s.(registry := s.registry.Prune(user, cfg.heartbeatTtl),
       users := s.users[user := row],
       snapshots := s.snapshots[user := Expiring(row, s.Now() + cfg.snapshotTtl)])
  }

  datatype Heartbeat = Heartbeat(
    user: UserId, key: string, session: Option<nat>, tab: Option<string>,
    isActive: bool, interaction: Option<int>)

  function ConnectionOf(h: Heartbeat, now: int): Connection {
    Connection(h.key, h.user, h.session,
               if h.tab == None || h.tab == Some("") then h.key else h.tab.value,
               h.isActive,
               if h.interaction.None? then now else h.interaction.value,
               now, now)
  }

  /** The parity check lists the connections once more, and so prunes once more. */
  function VerifyParity(cfg: Settings, s: System, user: UserId): System {
    if cfg.legacySql && cfg.verifyParity then s.(registry := s.registry.Prune(user, cfg.heartbeatTtl)) else s
  }

  /** The SQL row, the registration and the listing that registering ends with. */
  function WriteUpsert(cfg: Settings, s: System, h: Heartbeat): System {
    var c := ConnectionOf(h, s.Now());
    s.(rows := if cfg.legacySql then s.rows[h.key := SqlRow(c, None)] else s.rows,
       registry := s.registry.Add(c, cfg.heartbeatTtl).Prune(h.user, cfg.heartbeatTtl))
  }

  function Upsert(cfg: Settings, s: System, h: Heartbeat): System
    requires h.user in s.users
  {
    VerifyParity(cfg, Recompute(cfg, WriteUpsert(cfg, s, h), h.user), h.user)
  }

  function DisconnectRow(rows: map<string, SqlRow>, user: UserId, key: string, now: int): map<string, SqlRow> {
    if key in rows && rows[key].connection.userId == user && rows[key].disconnectedAt.None?
    then rows[key := rows[key].(disconnectedAt := Some(now))]
    else rows
  }

  function WriteClose(cfg: Settings, s: System, user: UserId, key: string): System {
    s.(rows := if cfg.legacySql then DisconnectRow(s.rows, user, key, s.Now()) else s.rows,
       registry := s.registry.Remove(user, key).Prune(user, cfg.heartbeatTtl))
  }

  function Close(cfg: Settings, s: System, user: UserId, key: string): System
    requires user in s.users
  {
    VerifyParity(cfg, Recompute(cfg, WriteClose(cfg, s, user, key), user), user)
  }

  function Query(cfg: Settings, s: System, user: UserId): System {
    if user in s.users then Recompute(cfg, s, user) else s
  }

  /** What upsert and close hand to the caller for broadcast. */
  function Payload(before: System, after: System, user: UserId): Option<UserRow>
    requires user in before.users && user in after.users
  {
    if after.users[user].presence == before.users[user].presence then None else Some(after.users[user])
  }

  // ----- Runs -----

  datatype Event =
    | Upserted(heartbeat: Heartbeat)
    | Closed(user: UserId, key: string)
    | Queried(user: UserId)
    | Elapsed(duration: nat)

  /** Each connection key is used by the user it was issued to, and that user exists. */
  ghost predicate Allowed(users: set<UserId>, owner: string -> UserId, e: Event) {
    match e
    case Upserted(h) => h.user in users && owner(h.key) == h.user
    case Closed(user, key) => user in users && owner(key) == user
    case Queried(_) => true
    case Elapsed(_) => true
  }

  ghost predicate AllAllowed(users: set<UserId>, owner: string -> UserId, events: seq<Event>) {
    forall i :: 0 <= i < |events| ==> Allowed(users, owner, events[i])
  }

  function Step(cfg: Settings, s: System, e: Event): (s': System)
    requires e.Upserted? ==> e.heartbeat.user in s.users
    requires e.Closed? ==> e.user in s.users
    ensures s'.users.Keys == s.users.Keys
  {
    match e
    case Upserted(h) => Upsert(cfg, s, h)
    case Closed(user, key) => Close(cfg, s, user, key)
    case Queried(user) => Query(cfg, s, user)
    case Elapsed(duration) => s.(registry := s.registry.Elapse(duration))
  }

  ghost function Run(cfg: Settings, s: System, owner: string -> UserId, events: seq<Event>): (s': System)
    requires AllAllowed(s.users.Keys, owner, events)
    ensures s'.users.Keys == s.users.Keys
  {
    if events == [] then s
    else
      var last := |events| - 1;
      assert Allowed(s.users.Keys, owner, events[last]);
      Step(cfg, Run(cfg, s, owner, events[..last]), events[last])
  }

  function ClockAfter(start: int, events: seq<Event>): int {
    if events == [] then start
    else ClockAfter(start, events[..|events| - 1]) +
         var e := events[|events| - 1]; if e.Elapsed? then e.duration else 0
  }

  function BeatsStep(beats: Beats, now: int, e: Event): Beats {
    match e
    case Upserted(h) => beats[h.key := ConnectionOf(h, now)]
    case Closed(_, key) => beats - {key}
    case Queried(_) => beats
    case Elapsed(_) => beats
  }

  /** What the events themselves say: registrations kept until closed, with no store and no expiry. */
  function BeatsAfter(start: int, events: seq<Event>): Beats {
    if events == [] then map[]
    else
      var before := events[..|events| - 1];
      BeatsStep(BeatsAfter(start, before), ClockAfter(start, before), events[|events| - 1])
  }

  ghost predicate Initial(s: System) {
    && s.registry.connections == map[] && s.registry.members == map[]
    && s.snapshots == map[] && s.rows == map[]
    && forall u :: u in s.users ==> s.users[u].presence == Offline && s.users[u].changedAt <= s.Now()
  }

  // ----- The invariant of every reachable state -----

  ghost predicate SqlMirrors(s: System, beats: Beats) {
    && (forall k :: k in beats ==> k in s.rows && s.rows[k] == SqlRow(beats[k], None))
    && (forall k :: k in s.rows && s.rows[k].disconnectedAt.None? ==> k in beats)
  }

  ghost predicate Invariant(cfg: Settings, owner: string -> UserId, beats: Beats, s: System) {
    && Represents(s.registry, beats, owner, cfg.heartbeatTtl)
    && (forall u :: u in s.users ==> s.users[u].changedAt <= s.Now())
    && (forall u :: s.Snapshot(u).Some? ==> u in s.users && s.Snapshot(u).value == s.users[u])
    && (forall u :: u in s.users ==> Rank(s.Actual(u)) <= Rank(s.users[u].presence))
    && (cfg.legacySql ==> SqlMirrors(s, beats))
  }

  lemma InvariantInitially(cfg: Settings, owner: string -> UserId, s: System)
    requires Initial(s)
    ensures Invariant(cfg, owner, map[], s)
  {
    forall u | u in s.users ensures s.Actual(u) == Offline {
      assert s.registry.Live(u) == {};
    }
  }

  /** The steps up to the recomputation, which leave user rows and snapshots alone. */
  ghost predicate Registered(cfg: Settings, owner: string -> UserId, beats: Beats, s: System, user: UserId) {
    && Represents(s.registry, beats, owner, cfg.heartbeatTtl)
    && (forall u :: u in s.users ==> s.users[u].changedAt <= s.Now())
    && (forall u :: s.Snapshot(u).Some? ==> u in s.users && s.Snapshot(u).value == s.users[u])
    && (forall u :: u in s.users && u != user ==> Rank(s.Actual(u)) <= Rank(s.users[u].presence))
    && (cfg.legacySql ==> SqlMirrors(s, beats))
  }

  lemma PruneKeepsActual(cfg: Settings, owner: string -> UserId, beats: Beats, s: System, user: UserId, s': System)
    requires Represents(s.registry, beats, owner, cfg.heartbeatTtl)
    requires s'.registry == s.registry.Prune(user, cfg.heartbeatTtl)
    ensures Represents(s'.registry, beats, owner, cfg.heartbeatTtl)
    ensures forall u :: s'.registry.Live(u) == s.registry.Live(u) && s'.Actual(u) == s.Actual(u)
  {
    PruneRepresents(s.registry, beats, owner, cfg.heartbeatTtl, user);
    forall u ensures s'.registry.Live(u) == s.registry.Live(u) {
      LiveIsFresh(s.registry, beats, owner, cfg.heartbeatTtl, u);
      LiveIsFresh(s'.registry, beats, owner, cfg.heartbeatTtl, u);
    }
  }

  lemma PruneKeepsTime(r: Registry, user: UserId, ttl: int)
    ensures r.Prune(user, ttl).now == r.now
  {
  }

  lemma RecomputeSettles(cfg: Settings, owner: string -> UserId, beats: Beats, s: System, user: UserId)
    requires user in s.users && Registered(cfg, owner, beats, s, user)
    ensures Invariant(cfg, owner, beats, Recompute(cfg, s, user))
    ensures Recompute(cfg, s, user).users[user].presence == Recompute(cfg, s, user).Actual(user)
    ensures forall u :: Recompute(cfg, s, user).registry.Live(u) == s.registry.Live(u)
  {
    hide KeysRepresent, SetsIndex, Registry.Prune, Registry.Live;
    var s' := Recompute(cfg, s, user);
    PruneKeepsActual(cfg, owner, beats, s, user, s');
    PruneKeepsTime(s.registry, user, cfg.heartbeatTtl);
    forall u | u != user ensures s'.Snapshot(u) == s.Snapshot(u) {}
  }

  lemma VerifyParitySettles(cfg: Settings, owner: string -> UserId, beats: Beats, s: System, user: UserId)
    requires Invariant(cfg, owner, beats, s)
    ensures Invariant(cfg, owner, beats, VerifyParity(cfg, s, user))
    ensures forall u :: VerifyParity(cfg, s, user).Actual(u) == s.Actual(u)
    ensures VerifyParity(cfg, s, user).users == s.users
  {
    var s' := VerifyParity(cfg, s, user);
    if s' != s {
      PruneKeepsActual(cfg, owner, beats, s, user, s');
      forall u ensures s'.Snapshot(u) == s.Snapshot(u) {}
    }
  }

  /** A write to the registry and the SQL rows for one user leaves everything else settled. */
  lemma WriteRegisters(cfg: Settings, owner: string -> UserId, beats: Beats, s: System, beats': Beats, s': System, user: UserId)
    requires Invariant(cfg, owner, beats, s)
    requires s'.users == s.users && s'.snapshots == s.snapshots && s'.Now() == s.Now()
    requires Represents(s'.registry, beats', owner, cfg.heartbeatTtl)
    requires forall k :: owner(k) != user ==> (k in beats <==> k in beats') && (k in beats ==> beats[k] == beats'[k])
    requires cfg.legacySql ==> SqlMirrors(s', beats')
    ensures Registered(cfg, owner, beats', s', user)
  {
    hide KeysRepresent, SetsIndex, SqlMirrors;
    OthersUnmoved(cfg, owner, beats, s, beats', s', user);
    forall u ensures s'.Snapshot(u) == s.Snapshot(u) {}
  }

  lemma UpsertMirrors(cfg: Settings, s: System, beats: Beats, h: Heartbeat)
    requires cfg.legacySql && SqlMirrors(s, beats)
    ensures SqlMirrors(WriteUpsert(cfg, s, h), beats[h.key := ConnectionOf(h, s.Now())])
  {
  }

  lemma WriteUpsertRegisters(cfg: Settings, owner: string -> UserId, beats: Beats, s: System, h: Heartbeat)
    requires Invariant(cfg, owner, beats, s) && h.user in s.users && owner(h.key) == h.user
    ensures Registered(cfg, owner, beats[h.key := ConnectionOf(h, s.Now())], WriteUpsert(cfg, s, h), h.user)
  {
    hide KeysRepresent, SetsIndex, Registered, SqlMirrors;
    var c, written := ConnectionOf(h, s.Now()), WriteUpsert(cfg, s, h);
    if cfg.legacySql {
      UpsertMirrors(cfg, s, beats, h);
    }
    AddRepresents(s.registry, beats, owner, cfg.heartbeatTtl, c);
    var added := written.(registry := s.registry.Add(c, cfg.heartbeatTtl));
    PruneKeepsActual(cfg, owner, beats[h.key := c], added, h.user, written);
    WriteRegisters(cfg, owner, beats, s, beats[h.key := c], written, h.user);
  }

  lemma UpsertSettles(cfg: Settings, owner: string -> UserId, beats: Beats, s: System, h: Heartbeat)
    requires Invariant(cfg, owner, beats, s) && h.user in s.users && owner(h.key) == h.user
    ensures Invariant(cfg, owner, beats[h.key := ConnectionOf(h, s.Now())], Upsert(cfg, s, h))
    ensures Upsert(cfg, s, h).users[h.user].presence == Upsert(cfg, s, h).Actual(h.user)
  {
    hide Invariant, Registered;
    var beats' := beats[h.key := ConnectionOf(h, s.Now())];
    WriteUpsertRegisters(cfg, owner, beats, s, h);
    RecomputeSettles(cfg, owner, beats', WriteUpsert(cfg, s, h), h.user);
    VerifyParitySettles(cfg, owner, beats', Recompute(cfg, WriteUpsert(cfg, s, h), h.user), h.user);
  }

  /** Registering or closing one user's connection leaves every other user's presence alone. */
  lemma OthersUnmoved(cfg: Settings, owner: string -> UserId, beats: Beats, s: System,
                      beats': Beats, s': System, user: UserId)
    requires Represents(s.registry, beats, owner, cfg.heartbeatTtl)
    requires Represents(s'.registry, beats', owner, cfg.heartbeatTtl)
    requires s.Now() == s'.Now()
    requires forall k :: owner(k) != user ==> (k in beats <==> k in beats') && (k in beats ==> beats[k] == beats'[k])
    ensures forall u :: u != user ==> s'.Actual(u) == s.Actual(u)
  {
    forall u | u != user ensures s'.Actual(u) == s.Actual(u) {
      LiveIsFresh(s.registry, beats, owner, cfg.heartbeatTtl, u);
      LiveIsFresh(s'.registry, beats', owner, cfg.heartbeatTtl, u);
      assert FreshConnections(beats, u, s.Now(), cfg.heartbeatTtl) == FreshConnections(beats', u, s.Now(), cfg.heartbeatTtl);
    }
  }

  lemma DisconnectMirrors(s: System, s': System, beats: Beats, owner: string -> UserId, ttl: int, user: UserId, key: string)
    requires SqlMirrors(s, beats) && Represents(s.registry, beats, owner, ttl) && owner(key) == user
    requires s'.rows == DisconnectRow(s.rows, user, key, s.Now())
    ensures SqlMirrors(s', beats - {key})
  {
  }

  lemma WriteCloseRegisters(cfg: Settings, owner: string -> UserId, beats: Beats, s: System, user: UserId, key: string)
    requires Invariant(cfg, owner, beats, s) && user in s.users && owner(key) == user
    ensures Registered(cfg, owner, beats - {key}, WriteClose(cfg, s, user, key), user)
  {
    hide KeysRepresent, SetsIndex, Registered;
    var written := WriteClose(cfg, s, user, key);
    RemoveRepresents(s.registry, beats, owner, cfg.heartbeatTtl, user, key);
    var removed := written.(registry := s.registry.Remove(user, key));
    PruneKeepsActual(cfg, owner, beats - {key}, removed, user, written);
    if cfg.legacySql {
      DisconnectMirrors(s, written, beats, owner, cfg.heartbeatTtl, user, key);
    }
    WriteRegisters(cfg, owner, beats, s, beats - {key}, written, user);
  }

  lemma CloseSettles(cfg: Settings, owner: string -> UserId, beats: Beats, s: System, user: UserId, key: string)
    requires Invariant(cfg, owner, beats, s) && user in s.users && owner(key) == user
    ensures Invariant(cfg, owner, beats - {key}, Close(cfg, s, user, key))
    ensures Close(cfg, s, user, key).users[user].presence == Close(cfg, s, user, key).Actual(user)
  {
    hide Invariant, Registered;
    WriteCloseRegisters(cfg, owner, beats, s, user, key);
    RecomputeSettles(cfg, owner, beats - {key}, WriteClose(cfg, s, user, key), user);
    VerifyParitySettles(cfg, owner, beats - {key}, Recompute(cfg, WriteClose(cfg, s, user, key), user), user);
  }

  lemma ElapseSettles(cfg: Settings, owner: string -> UserId, beats: Beats, s: System, duration: nat)
    requires Invariant(cfg, owner, beats, s)
    ensures Invariant(cfg, owner, beats, s.(registry := s.registry.Elapse(duration)))
    ensures forall u :: Rank(s.(registry := s.registry.Elapse(duration)).Actual(u)) <= Rank(s.Actual(u))
  {
    var s' := s.(registry := s.registry.Elapse(duration));
    ElapseRepresents(s.registry, beats, owner, cfg.heartbeatTtl, duration);
    forall u ensures Rank(s'.Actual(u)) <= Rank(s.Actual(u)) {
      LiveIsFresh(s.registry, beats, owner, cfg.heartbeatTtl, u);
      LiveIsFresh(s'.registry, beats, owner, cfg.heartbeatTtl, u);
      PresenceIsMonotone(s'.registry.Live(u), s'.Now(), s.registry.Live(u), s.Now());
    }
    forall u | s'.Snapshot(u).Some? ensures s'.Snapshot(u) == s.Snapshot(u) {}
  }

  lemma StepKeepsInvariant(cfg: Settings, owner: string -> UserId, beats: Beats, s: System, e: Event)
    requires Invariant(cfg, owner, beats, s) && Allowed(s.users.Keys, owner, e)
    ensures Invariant(cfg, owner, BeatsStep(beats, s.Now(), e), Step(cfg, s, e))
  {
    match e
    case Upserted(h) => UpsertSettles(cfg, owner, beats, s, h);
    case Closed(user, key) => CloseSettles(cfg, owner, beats, s, user, key);
    case Queried(user) => if user in s.users { RecomputeSettles(cfg, owner, beats, s, user); }
    case Elapsed(duration) => ElapseSettles(cfg, owner, beats, s, duration);
  }

  /** Every reachable state satisfies the invariant with the reference model of its own events. */
  lemma {:induction false} ReachableInvariant(cfg: Settings, owner: string -> UserId, s: System, events: seq<Event>)
    requires Initial(s) && AllAllowed(s.users.Keys, owner, events)
    ensures Run(cfg, s, owner, events).Now() == ClockAfter(s.Now(), events)
    ensures Invariant(cfg, owner, BeatsAfter(s.Now(), events), Run(cfg, s, owner, events))
  {
    if events == [] {
      InvariantInitially(cfg, owner, s);
    } else {
      var last := |events| - 1;
      ReachableInvariant(cfg, owner, s, events[..last]);
      assert Allowed(s.users.Keys, owner, events[last]);
      StepKeepsInvariant(cfg, owner, BeatsAfter(s.Now(), events[..last]), Run(cfg, s, owner, events[..last]), events[last]);
    }
  }

  // ----- Listings over whole runs -----

  /**
   A listing returns exactly the connections registered within the last time to live and not
   unregistered since.
   */
  lemma ListingIsExact(cfg: Settings, owner: string -> UserId, s: System, events: seq<Event>, user: UserId)
    requires Initial(s) && AllAllowed(s.users.Keys, owner, events)
    ensures Run(cfg, s, owner, events).registry.Live(user)
         == FreshConnections(BeatsAfter(s.Now(), events), user, ClockAfter(s.Now(), events), cfg.heartbeatTtl)
  {
    ReachableInvariant(cfg, owner, s, events);
    LiveIsFresh(Run(cfg, s, owner, events).registry, BeatsAfter(s.Now(), events), owner, cfg.heartbeatTtl, user);
  }

  function WithoutQueries(events: seq<Event>): seq<Event> {
    if events == [] then []
    else
      var last := |events| - 1;
      WithoutQueries(events[..last]) + if events[last].Queried? then [] else [events[last]]
  }

  lemma {:induction false} QueriesLeaveReference(start: int, users: set<UserId>, owner: string -> UserId, events: seq<Event>)
    requires AllAllowed(users, owner, events)
    ensures AllAllowed(users, owner, WithoutQueries(events))
    ensures ClockAfter(start, WithoutQueries(events)) == ClockAfter(start, events)
    ensures BeatsAfter(start, WithoutQueries(events)) == BeatsAfter(start, events)
  {
    if events != [] {
      var last := |events| - 1;
      var kept := WithoutQueries(events[..last]);
      QueriesLeaveReference(start, users, owner, events[..last]);
      assert Allowed(users, owner, events[last]);
      if !events[last].Queried? {
        assert (kept + [events[last]])[..|kept|] == kept;
      } else {
        assert WithoutQueries(events) == kept;
      }
    }
  }

  /**
   Pruning stale ids, deleting empty sets and extending a set's expiry are invisible: dropping
   every query from a history changes no later listing.
   */
  lemma QueriesAreInvisible(cfg: Settings, owner: string -> UserId, s: System, events: seq<Event>, user: UserId)
    requires Initial(s) && AllAllowed(s.users.Keys, owner, events)
    ensures AllAllowed(s.users.Keys, owner, WithoutQueries(events))
    ensures Run(cfg, s, owner, WithoutQueries(events)).registry.Live(user) == Run(cfg, s, owner, events).registry.Live(user)
    ensures Run(cfg, s, owner, WithoutQueries(events)).Actual(user) == Run(cfg, s, owner, events).Actual(user)
  {
    QueriesLeaveReference(s.Now(), s.users.Keys, owner, events);
    ListingIsExact(cfg, owner, s, events, user);
    ListingIsExact(cfg, owner, s, WithoutQueries(events), user);
    ReachableInvariant(cfg, owner, s, events);
    ReachableInvariant(cfg, owner, s, WithoutQueries(events));
  }

  /**
   The promise rests on a connection key belonging to one user: reuse a key for a second user and
   the first user's listing shows the second user's connection.
   */
  lemma SharedKeyLeaks(r: Registry, ttl: int, mine: Connection, theirs: Connection)
    requires ttl > 0 && mine.connectionKey == theirs.connectionKey && mine.userId != theirs.userId
    ensures theirs in r.Add(mine, ttl).Add(theirs, ttl).Live(mine.userId)
  {
    var shared := r.Add(mine, ttl).Add(theirs, ttl);
    assert shared.Get(theirs.connectionKey) == Some(theirs);
    assert theirs.connectionKey in shared.LiveKeys(mine.userId);
  }

  // ----- The stored flag -----

  predicate Touches(e: Event, user: UserId) {
    match e
    case Upserted(h) => h.user == user
    case Closed(u, _) => u == user
    case Queried(u) => u == user
    case Elapsed(_) => false
  }

  lemma StepSettles(cfg: Settings, owner: string -> UserId, beats: Beats, s: System, e: Event, user: UserId)
    requires Invariant(cfg, owner, beats, s) && Allowed(s.users.Keys, owner, e) && user in s.users
    ensures Touches(e, user) ==> Step(cfg, s, e).users[user].presence == Step(cfg, s, e).Actual(user)
    ensures !Touches(e, user) ==> Step(cfg, s, e).users[user] == s.users[user]
    ensures s.Now() <= Step(cfg, s, e).Now()
  {
    hide KeysRepresent, SetsIndex;
    match e
    case Upserted(h) => UpsertSettles(cfg, owner, beats, s, h);
    case Closed(u, key) => CloseSettles(cfg, owner, beats, s, u, key);
    case Queried(u) => if u in s.users { RecomputeSettles(cfg, owner, beats, s, u); }
    case Elapsed(_) =>
  }

  /**
   After an upsert, close or query the stored presence is the presence of the live connections;
   the change time moves exactly when the state does, to the current time; nobody else's row moves;
   and an unexpired snapshot key agrees with the row.
   */
  lemma StoredPresenceIsActual(cfg: Settings, owner: string -> UserId, s: System, events: seq<Event>, e: Event, user: UserId)
    requires Initial(s) && AllAllowed(s.users.Keys, owner, events) && Allowed(s.users.Keys, owner, e)
    requires user in s.users
    ensures
      var before := Run(cfg, s, owner, events);
      var after := Step(cfg, before, e);
      && (Touches(e, user) ==> after.users[user].presence == after.Actual(user) && after.Snapshot(user) == Some(after.users[user]))
      && (!Touches(e, user) ==> after.users[user] == before.users[user])
      && (after.users[user].presence == before.users[user].presence ==> after.users[user] == before.users[user])
      && (after.users[user].presence != before.users[user].presence ==> after.users[user].changedAt == after.Now())
      && before.users[user].changedAt <= after.users[user].changedAt
      && (after.Snapshot(user).Some? ==> after.Snapshot(user).value == after.users[user])
  {
    hide KeysRepresent, SetsIndex;
    ReachableInvariant(cfg, owner, s, events);
    var beats, before := BeatsAfter(s.Now(), events), Run(cfg, s, owner, events);
    StepKeepsInvariant(cfg, owner, beats, before, e);
    StepSettles(cfg, owner, beats, before, e, user);
  }

  /** Without a registration of theirs, one step lowers a user's presence or leaves it alone. */
  lemma StepOnlyLowers(cfg: Settings, owner: string -> UserId, beats: Beats, s: System, e: Event, user: UserId)
    requires Invariant(cfg, owner, beats, s) && Allowed(s.users.Keys, owner, e) && user in s.users
    requires e.Upserted? ==> e.heartbeat.user != user
    ensures Rank(Step(cfg, s, e).Actual(user)) <= Rank(s.Actual(user))
    ensures Rank(Step(cfg, s, e).users[user].presence) <= Rank(s.users[user].presence)
  {
    hide KeysRepresent, SetsIndex, Upsert, Close, Recompute;
    var s', beats' := Step(cfg, s, e), BeatsStep(beats, s.Now(), e);
    StepKeepsInvariant(cfg, owner, beats, s, e);
    StepSettles(cfg, owner, beats, s, e, user);
    FreshOnlyShrinks(owner, beats, s, e, user, s'.Now(), cfg.heartbeatTtl);
    LiveIsFresh(s.registry, beats, owner, cfg.heartbeatTtl, user);
    LiveIsFresh(s'.registry, beats', owner, cfg.heartbeatTtl, user);
    PresenceIsMonotone(s'.registry.Live(user), s'.Now(), s.registry.Live(user), s.Now());
  }

  lemma FreshOnlyShrinks(owner: string -> UserId, beats: Beats, s: System, e: Event, user: UserId, later: int, ttl: int)
    requires Represents(s.registry, beats, owner, ttl) && Allowed(s.users.Keys, owner, e) && s.Now() <= later
    requires e.Upserted? ==> e.heartbeat.user != user
    ensures FreshConnections(BeatsStep(beats, s.Now(), e), user, later, ttl) <= FreshConnections(beats, user, s.Now(), ttl)
  {
  }

  lemma RunExtends(cfg: Settings, owner: string -> UserId, s: System, events: seq<Event>, e: Event)
    requires AllAllowed(s.users.Keys, owner, events) && Allowed(s.users.Keys, owner, e)
    ensures AllAllowed(s.users.Keys, owner, events + [e])
    ensures Run(cfg, s, owner, events + [e]) == Step(cfg, Run(cfg, s, owner, events), e)
  {
    assert (events + [e])[..|events|] == events;
  }

  lemma RunLowers(cfg: Settings, owner: string -> UserId, s: System, events: seq<Event>, e: Event, user: UserId)
    requires Initial(s) && user in s.users
    requires AllAllowed(s.users.Keys, owner, events) && Allowed(s.users.Keys, owner, e)
    requires e.Upserted? ==> e.heartbeat.user != user
    ensures AllAllowed(s.users.Keys, owner, events + [e])
    ensures Rank(Run(cfg, s, owner, events + [e]).Actual(user)) <= Rank(Run(cfg, s, owner, events).Actual(user))
    ensures Rank(Run(cfg, s, owner, events + [e]).users[user].presence) <= Rank(Run(cfg, s, owner, events).users[user].presence)
  {
    RunExtends(cfg, owner, s, events, e);
    ReachableInvariant(cfg, owner, s, events);
    StepOnlyLowers(cfg, owner, BeatsAfter(s.Now(), events), Run(cfg, s, owner, events), e, user);
  }

  /** Between a user's registrations both the actual and the stored presence only fall. */
  lemma {:induction false} PresenceOnlyFalls(
    cfg: Settings, owner: string -> UserId, s: System, events: seq<Event>, more: seq<Event>, user: UserId)
    requires Initial(s) && user in s.users
    requires AllAllowed(s.users.Keys, owner, events) && AllAllowed(s.users.Keys, owner, more)
    requires forall e :: e in more && e.Upserted? ==> e.heartbeat.user != user
    ensures AllAllowed(s.users.Keys, owner, events + more)
    ensures Rank(Run(cfg, s, owner, events + more).Actual(user)) <= Rank(Run(cfg, s, owner, events).Actual(user))
    ensures Rank(Run(cfg, s, owner, events + more).users[user].presence) <= Rank(Run(cfg, s, owner, events).users[user].presence)
    decreases |more|
  {
    hide Step, Run;
    if more == [] {
      assert events + more == events;
    } else {
      var e, next := more[0], events + [more[0]];
      assert e in more;
      RunLowers(cfg, owner, s, events, e, user);
      PresenceOnlyFalls(cfg, owner, s, next, more[1..], user);
      assert next + more[1..] == events + more;
    }
  }

  lemma {:induction false} SilentBeats(start: int, events: seq<Event>, more: seq<Event>, user: UserId)
    requires forall e :: e in more && e.Upserted? ==> e.heartbeat.user != user
    ensures forall k :: k in BeatsAfter(start, events + more) && BeatsAfter(start, events + more)[k].userId == user ==>
              k in BeatsAfter(start, events) && BeatsAfter(start, events + more)[k] == BeatsAfter(start, events)[k]
  {
    if more == [] {
      assert events + more == events;
    } else {
      var last := |more| - 1;
      assert (events + more)[..|events| + last] == events + more[..last];
      assert more[last] in more;
      SilentBeats(start, events, more[..last], user);
    }
  }

  /**
   A user who stops registering is offline once the time to live has passed, whatever queries and
   closes happen meanwhile, and the next query stores that.
   */
  lemma OfflineByDeadline(cfg: Settings, owner: string -> UserId, s: System, events: seq<Event>, more: seq<Event>, user: UserId)
    requires Initial(s) && user in s.users
    requires AllAllowed(s.users.Keys, owner, events) && AllAllowed(s.users.Keys, owner, events + more)
    requires forall e :: e in more && e.Upserted? ==> e.heartbeat.user != user
    requires ClockAfter(s.Now(), events + more) >= ClockAfter(s.Now(), events) + cfg.heartbeatTtl
    ensures Run(cfg, s, owner, events + more).Actual(user) == Offline
    ensures Query(cfg, Run(cfg, s, owner, events + more), user).users[user].presence == Offline
  {
    ReachableInvariant(cfg, owner, s, events);
    ReachableInvariant(cfg, owner, s, events + more);
    SilentBeats(s.Now(), events, more, user);
    ListingIsExact(cfg, owner, s, events + more, user);
    assert Run(cfg, s, owner, events + more).registry.Live(user) == {};
  }

  // ----- Parity with the legacy SQL rows -----

  datatype Mismatch =
    | PresenceMismatch(redis: Level, sql: Level)
    | CountMismatch(redisCount: nat, sqlCount: nat)

  predicate OpenRow(s: System, user: UserId, key: string) {
    key in s.rows && s.rows[key].connection.userId == user && s.rows[key].disconnectedAt.None?
  }

  /** The user's SQL rows that have not been disconnected. */
  function LegacyConnections(s: System, user: UserId): set<Connection> {
    set key | key in s.rows && OpenRow(s, user, key) :: s.rows[key].connection
  }

  function Mismatches(redis: set<Connection>, sql: set<Connection>, now: int): seq<Mismatch> {
    (if PresenceOf(redis, now) != PresenceOf(sql, now)
     then [PresenceMismatch(PresenceOf(redis, now), PresenceOf(sql, now))] else []) +
    (if |redis| != |sql| then [CountMismatch(|redis|, |sql|)] else [])
  }

  /**
   With dual writing on, the parity check is silent exactly when every open SQL row of the user
   has heartbeated within the time to live.
   */
  lemma ParityIffHeartbeating(cfg: Settings, owner: string -> UserId, s: System, events: seq<Event>, user: UserId)
    requires Initial(s) && AllAllowed(s.users.Keys, owner, events) && cfg.legacySql
    ensures
      var reached := Run(cfg, s, owner, events);
      Mismatches(reached.registry.Live(user), LegacyConnections(reached, user), reached.Now()) == [] <==>
      forall key :: OpenRow(reached, user, key) ==> Fresh(reached.rows[key].connection, reached.Now(), cfg.heartbeatTtl)
  {
    var reached, beats := Run(cfg, s, owner, events), BeatsAfter(s.Now(), events);
    ReachableInvariant(cfg, owner, s, events);
    ListingIsExact(cfg, owner, s, events, user);
    var redis, sql := reached.registry.Live(user), LegacyConnections(reached, user);
    forall c | c in redis ensures c in sql {
      assert OpenRow(reached, user, c.connectionKey);
    }
    SubsetCardinality(redis, sql);
    if redis == sql {
      forall key | OpenRow(reached, user, key) ensures Fresh(reached.rows[key].connection, reached.Now(), cfg.heartbeatTtl) {
        assert reached.rows[key].connection in sql;
      }
    } else if c :| c in sql && c !in redis {
      assert OpenRow(reached, user, c.connectionKey);
    }
  }
}
