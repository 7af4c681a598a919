/**
 Presence read off the events alone: who counts as online, away or offline, what the user row and its
 snapshot say, and what is broadcast and returned, with no registry in between.
 */
module PresenceHistories {
  import opened Common
  import opened Histories
  import opened Ordering
  import opened Presence
  import PresenceService

  // ----- The last word on a connection -----

  /** When the event with this number happens. */
  function TimeOf(start: int, events: seq<Event>, i: nat): int
    requires i <= |events|
  {
    ClockAfter(start, events[..i])
  }

  predicate Settles(e: Event, key: string) {
    (e.Upserted? && e.heartbeat.key == key) || (e.Closed? && e.key == key)
  }

  /** The event is a heartbeat, and its connection has neither sent another nor been closed since. */
  ghost predicate Stands(events: seq<Event>, i: nat) {
    && i < |events| && events[i].Upserted?
    && forall j :: i < j < |events| ==> !Settles(events[j], events[i].heartbeat.key)
  }

  /** It came within the last time to live. */
  predicate InTime(start: int, events: seq<Event>, i: nat, ttl: int)
    requires i < |events|
  {
    ClockAfter(start, events) < TimeOf(start, events, i) + ttl
  }

  /** It reports the tab in use, or an interaction within the last minute; without a report it is one itself. */
  predicate InUse(start: int, events: seq<Event>, i: nat) {
    && i < |events| && events[i].Upserted?
    && var h := events[i].heartbeat;
       h.isActive || ClockAfter(start, events) < (if h.interaction.Some? then h.interaction.value else TimeOf(start, events, i)) + 60_000_000
  }

  ghost predicate Counts(start: int, events: seq<Event>, i: nat, user: UserId, ttl: int) {
    Stands(events, i) && events[i].heartbeat.user == user && InTime(start, events, i, ttl)
  }

  ghost predicate IsPresent(start: int, events: seq<Event>, user: UserId, ttl: int) {
    exists i: nat :: Counts(start, events, i, user, ttl)
  }

  ghost predicate IsOnline(start: int, events: seq<Event>, user: UserId, ttl: int) {
    exists i: nat :: Counts(start, events, i, user, ttl) && InUse(start, events, i)
  }

  /** Online with a tab in use, away with tabs that are not, offline with none. */
  ghost function LevelBy(start: int, events: seq<Event>, user: UserId, ttl: int): Level {
    if IsOnline(start, events, user, ttl) then Online
    else if IsPresent(start, events, user, ttl) then Afk
    else Offline
  }

  /** What a connection is registered as: its last heartbeat. */
  ghost predicate Registers(start: int, events: seq<Event>, i: nat, key: string, c: Connection)
  {
    && Stands(events, i) && events[i].heartbeat.key == key
    && var h := events[i].heartbeat;
    && c.connectionKey == key && c.userId == h.user && c.sessionId == h.session && c.isActive == h.isActive
    && c.lastHeartbeatAt == TimeOf(start, events, i) && c.connectedAt == TimeOf(start, events, i)
    && c.lastInteractionAt == (if h.interaction.Some? then h.interaction.value else TimeOf(start, events, i))
    && c.tabId == (if h.tab.Some? && h.tab.value != "" then h.tab.value else key)
  }

  lemma StandsNext(events: seq<Event>, i: nat)
    requires events != []
    ensures var last := |events| - 1;
            Stands(events, i) <==>
            if i == last then events[last].Upserted?
            else Stands(events[..last], i) && !Settles(events[last], events[i].heartbeat.key)
  {
    var last := |events| - 1;
    if i < last {
      assert events[..last][i] == events[i];
      assert forall j :: i < j < last ==> events[..last][j] == events[j];
    }
  }

  lemma RegistersNext(start: int, events: seq<Event>, i: nat, key: string, c: Connection)
    requires events != [] && i < |events| - 1
    ensures Registers(start, events, i, key, c) <==>
            Registers(start, events[..|events| - 1], i, key, c) && !Settles(events[|events| - 1], key)
  {
    StandsNext(events, i);
    assert events[..|events| - 1][..i] == events[..i];
    hide Stands, Settles;
  }

  /** A connection is registered exactly when its last heartbeat stands, and as that says. */
  lemma {:induction false} BeatsExactly(start: int, events: seq<Event>, key: string, c: Connection)
    ensures key in BeatsAfter(start, events) && BeatsAfter(start, events)[key] == c <==>
            exists i :: 0 <= i < |events| && Registers(start, events, i, key, c)
  {
    if events != [] {
      var last := |events| - 1;
      var before := events[..last];
      BeatsExactly(start, before, key, c);
      LastRegisters(start, events, key, c);
      forall i: nat | i < last
        ensures Registers(start, events, i, key, c) <==>
                Registers(start, before, i, key, c) && !Settles(events[last], key)
      {
        RegistersNext(start, events, i, key, c);
      }
      hide Registers;
    }
  }

  lemma LastRegisters(start: int, events: seq<Event>, key: string, c: Connection)
    requires events != []
    ensures var last := |events| - 1;
            Registers(start, events, last, key, c) <==>
            events[last].Upserted? && events[last].heartbeat.key == key
            && c == ConnectionOf(events[last].heartbeat, ClockAfter(start, events[..last]))
  {
  }

  /** A standing heartbeat in time is one of the fresh connections. */
  lemma StandingIsFresh(start: int, events: seq<Event>, i: nat, user: UserId, ttl: int) returns (c: Connection)
    requires Counts(start, events, i, user, ttl)
    ensures c in FreshConnections(BeatsAfter(start, events), user, ClockAfter(start, events), ttl)
    ensures Engaged(c, ClockAfter(start, events)) <==> InUse(start, events, i)
  {
    var h := events[i].heartbeat;
    c := ConnectionOf(h, TimeOf(start, events, i));
    assert Registers(start, events, i, h.key, c);
    BeatsExactly(start, events, h.key, c);
    hide Stands, BeatsAfter, ClockAfter, Registers;
  }

  /** A fresh connection comes from a standing heartbeat in time. */
  lemma FreshIsStanding(start: int, events: seq<Event>, c: Connection, user: UserId, ttl: int) returns (i: nat)
    requires c in FreshConnections(BeatsAfter(start, events), user, ClockAfter(start, events), ttl)
    ensures Counts(start, events, i, user, ttl)
    ensures Engaged(c, ClockAfter(start, events)) <==> InUse(start, events, i)
  {
    var key :| key in BeatsAfter(start, events) && BeatsAfter(start, events)[key] == c && c.userId == user
               && Fresh(c, ClockAfter(start, events), ttl);
    BeatsExactly(start, events, key, c);
    i :| 0 <= i < |events| && Registers(start, events, i, key, c);
    hide BeatsAfter, ClockAfter;
  }

  lemma FreshLevel(start: int, events: seq<Event>, user: UserId, ttl: int)
    ensures PresenceOf(FreshConnections(BeatsAfter(start, events), user, ClockAfter(start, events), ttl), ClockAfter(start, events))
         == LevelBy(start, events, user, ttl)
  {
    var now, live := ClockAfter(start, events), FreshConnections(BeatsAfter(start, events), user, ClockAfter(start, events), ttl);
    hide FreshConnections, Counts, InUse, Engaged, BeatsAfter, ClockAfter;
    forall i: nat | Counts(start, events, i, user, ttl)
      ensures exists c :: c in live && (Engaged(c, now) <==> InUse(start, events, i))
    {
      var c := StandingIsFresh(start, events, i, user, ttl);
    }
    forall c | c in live
      ensures exists i: nat :: Counts(start, events, i, user, ttl) && (Engaged(c, now) <==> InUse(start, events, i))
    {
      var i := FreshIsStanding(start, events, c, user, ttl);
    }
  }

  /**
   In every reachable state a user is online exactly when one of their connections' last heartbeats
   came within the time to live and reports the tab in use or an interaction within the last minute;
   away exactly when there are such heartbeats but none of them does; and offline otherwise.
   */
  lemma LevelExactly(cfg: Settings, owner: string -> UserId, s: System, events: seq<Event>, user: UserId)
    requires Initial(s) && AllAllowed(s.users.Keys, owner, events)
    ensures Run(cfg, s, owner, events).Actual(user) == LevelBy(s.Now(), events, user, cfg.heartbeatTtl)
  {
    ListingIsExact(cfg, owner, s, events, user);
    ReachableInvariant(cfg, owner, s, events);
    FreshLevel(s.Now(), events, user, cfg.heartbeatTtl);
    hide Run, LevelBy, Invariant, FreshConnections, PresenceOf, Initial, AllAllowed;
  }

  // ----- What is stored at the last touch -----

  /** An upsert, close or query of the user writes the snapshot and the set anew, for their times to live. */
  ghost predicate Written(cfg: Settings, s: System, user: UserId) {
    && user in s.users && user in s.snapshots
    && s.snapshots[user] == Expiring(s.users[user], s.Now() + cfg.snapshotTtl)
    && (user in s.registry.members <==> s.registry.LiveKeys(user) != {})
    && (user in s.registry.members ==> s.registry.members[user] == Expiring(s.registry.LiveKeys(user), s.Now() + cfg.heartbeatTtl))
  }

  lemma PruneWrites(r: Registry, user: UserId, ttl: int)
    requires ttl > 0
    ensures var r' := r.Prune(user, ttl);
            && r'.LiveKeys(user) == r.LiveKeys(user) && r'.now == r.now
            && (user in r'.members <==> r'.LiveKeys(user) != {})
            && (user in r'.members ==> r'.members[user] == Expiring(r'.LiveKeys(user), r.now + ttl))
  {
    forall k ensures r.Prune(user, ttl).Get(k) == r.Get(k) {}
    hide Registry.Get;
  }

  lemma RecomputeWrites(cfg: Settings, s: System, user: UserId)
    requires user in s.users
    ensures Written(cfg, Recompute(cfg, s, user), user)
    ensures Written(cfg, VerifyParity(cfg, Recompute(cfg, s, user), user), user)
  {
    PruneWrites(s.registry, user, cfg.heartbeatTtl);
    PruneWrites(Recompute(cfg, s, user).registry, user, cfg.heartbeatTtl);
    hide Registry.Prune, Registry.LiveKeys;
  }

  lemma TouchWrites(cfg: Settings, s: System, e: Event, user: UserId)
    requires user in s.users && Touches(e, user)
    ensures Written(cfg, Step(cfg, s, e), user)
  {
    hide Recompute, VerifyParity, WriteUpsert, WriteClose, Written;
    match e
    case Upserted(h) =>
      UsersStay(cfg, s, WriteUpsert(cfg, s, h), h, user);
      RecomputeWrites(cfg, WriteUpsert(cfg, s, h), user);
    case Closed(_, key) =>
      ClosingKeepsUsers(cfg, s, user, key);
      RecomputeWrites(cfg, WriteClose(cfg, s, user, key), user);
    case Queried(_) => RecomputeWrites(cfg, s, user);
  }

  lemma UsersStay(cfg: Settings, s: System, s': System, h: Heartbeat, user: UserId)
    requires s' == WriteUpsert(cfg, s, h)
    ensures s'.users == s.users
  {
  }

  lemma ClosingKeepsUsers(cfg: Settings, s: System, user: UserId, key: string)
    ensures WriteClose(cfg, s, user, key).users == s.users
  {
  }

  /** The user's row, snapshot and set, as they are written. */
  ghost predicate SameWritings(s: System, s': System, user: UserId) {
    && (user in s.users <==> user in s'.users) && (user in s.users ==> s'.users[user] == s.users[user])
    && (user in s.snapshots <==> user in s'.snapshots) && (user in s.snapshots ==> s'.snapshots[user] == s.snapshots[user])
    && (user in s.registry.members <==> user in s'.registry.members)
    && (user in s.registry.members ==> s'.registry.members[user] == s.registry.members[user])
  }

  lemma RecomputingOthers(cfg: Settings, s: System, other: UserId, user: UserId)
    requires other in s.users && user != other
    ensures SameWritings(s, Recompute(cfg, s, other), user) && SameWritings(s, VerifyParity(cfg, Recompute(cfg, s, other), other), user)
  {
    hide Registry.LiveKeys, Registry.Live, PresenceOf;
  }

  lemma UpsertingOthers(cfg: Settings, s: System, h: Heartbeat, user: UserId)
    requires user != h.user
    ensures SameWritings(s, WriteUpsert(cfg, s, h), user)
  {
    hide Registry.LiveKeys, Registry.Members;
  }

  lemma ClosingOthers(cfg: Settings, s: System, other: UserId, key: string, user: UserId)
    requires user != other
    ensures SameWritings(s, WriteClose(cfg, s, other, key), user)
  {
    hide Registry.LiveKeys;
  }

  lemma OthersWritings(cfg: Settings, s: System, e: Event, user: UserId)
    requires e.Upserted? ==> e.heartbeat.user in s.users
    requires e.Closed? ==> e.user in s.users
    requires !Touches(e, user)
    ensures SameWritings(s, Step(cfg, s, e), user)
  {
    hide Recompute, VerifyParity, WriteUpsert, WriteClose;
    match e
    case Upserted(h) =>
      UsersStay(cfg, s, WriteUpsert(cfg, s, h), h, user);
      UpsertingOthers(cfg, s, h, user);
      RecomputingOthers(cfg, WriteUpsert(cfg, s, h), h.user, user);
    case Closed(other, key) =>
      ClosingKeepsUsers(cfg, s, other, key);
      ClosingOthers(cfg, s, other, key, user);
      RecomputingOthers(cfg, WriteClose(cfg, s, other, key), other, user);
    case Queried(other) => if other in s.users { RecomputingOthers(cfg, s, other, user); }
    case Elapsed(_) =>
  }

  lemma PrefixAllowed(users: set<UserId>, owner: string -> UserId, events: seq<Event>, more: seq<Event>)
    requires AllAllowed(users, owner, events + more)
    ensures AllAllowed(users, owner, events) && AllAllowed(users, owner, more)
  {
    forall i | 0 <= i < |events| ensures Allowed(users, owner, events[i]) {
      assert (events + more)[i] == events[i];
    }
    forall i | 0 <= i < |more| ensures Allowed(users, owner, more[i]) {
      assert (events + more)[|events| + i] == more[i];
    }
  }

  /** While nobody touches the user, what is written about them stays. */
  lemma {:induction false} QuietKeeps(cfg: Settings, owner: string -> UserId, s: System, events: seq<Event>,
                                      more: seq<Event>, user: UserId)
    requires AllAllowed(s.users.Keys, owner, events) && AllAllowed(s.users.Keys, owner, events + more)
    requires forall e :: e in more ==> !Touches(e, user)
    ensures SameWritings(Run(cfg, s, owner, events), Run(cfg, s, owner, events + more), user)
    decreases |more|
  {
    hide Step, Touches, SameWritings;
    if more == [] {
      assert events + more == events;
      SameAsItself(Run(cfg, s, owner, events), user);
    } else {
      var init, e := more[..|more| - 1], more[|more| - 1];
      assert events + more == (events + init) + [e];
      PrefixAllowed(s.users.Keys, owner, events + init, [e]);
      QuietKeeps(cfg, owner, s, events, init, user);
      assert Allowed(s.users.Keys, owner, [e][0]);
      RunExtends(cfg, owner, s, events + init, e);
      var before := Run(cfg, s, owner, events + init);
      OthersWritings(cfg, before, e, user);
      SameThrough(Run(cfg, s, owner, events), before, Step(cfg, before, e), user);
    }
  }

  lemma SameAsItself(s: System, user: UserId)
    ensures SameWritings(s, s, user)
  {
  }

  lemma SameThrough(a: System, b: System, c: System, user: UserId)
    requires SameWritings(a, b, user) && SameWritings(b, c, user)
    ensures SameWritings(a, c, user)
  {
  }

  /**
   The user row holds the user's level at the last upsert, close or query of theirs; the snapshot
   shows that row for its time to live; and the set of their connections is kept for a heartbeat's
   time to live, or gone when there were none.
   */
  lemma StoredExactly(cfg: Settings, owner: string -> UserId, s: System, events: seq<Event>, e: Event,
                      more: seq<Event>, user: UserId)
    requires Initial(s) && AllAllowed(s.users.Keys, owner, events + [e] + more)
    requires user in s.users && Touches(e, user) && forall later :: later in more ==> !Touches(later, user)
    ensures
      var start, touched := s.Now(), events + [e];
      var reached, level := Run(cfg, s, owner, touched + more), LevelBy(start, touched, user, cfg.heartbeatTtl);
      && reached.users[user].presence == level
      && reached.Snapshot(user) == (if ClockAfter(start, touched + more) < ClockAfter(start, touched) + cfg.snapshotTtl
                                    then Some(reached.users[user]) else None)
      && (user in reached.registry.members <==> level != Offline)
      && (level != Offline ==> reached.registry.members[user].expiresAt == ClockAfter(start, touched) + cfg.heartbeatTtl)
  {
    hide LevelBy, Touches, Allowed, ClockAfter, PresenceOf, Registry.LiveKeys, Invariant;
    var touched := events + [e];
    PrefixAllowed(s.users.Keys, owner, touched, more);
    PrefixAllowed(s.users.Keys, owner, events, [e]);
    assert Allowed(s.users.Keys, owner, [e][0]);
    RunExtends(cfg, owner, s, events, e);
    StoredPresenceIsActual(cfg, owner, s, events, e, user);
    LevelExactly(cfg, owner, s, touched, user);
    TouchWrites(cfg, Run(cfg, s, owner, events), e, user);
    QuietKeeps(cfg, owner, s, touched, more, user);
    ReachableInvariant(cfg, owner, s, touched);
    ReachableInvariant(cfg, owner, s, touched + more);
    OfflineWithoutKeys(Run(cfg, s, owner, touched), user);
    hide Run, Step;
  }

  lemma OfflineWithoutKeys(s: System, user: UserId)
    ensures s.registry.LiveKeys(user) == {} <==> s.Actual(user) == Offline
  {
    if key :| key in s.registry.LiveKeys(user) {
      assert s.registry.Get(key).value in s.registry.Live(user);
    }
  }

  /** Nothing is written about a user nobody has touched. */
  lemma UntouchedIsOffline(cfg: Settings, owner: string -> UserId, s: System, events: seq<Event>, user: UserId)
    requires Initial(s) && AllAllowed(s.users.Keys, owner, events) && user in s.users
    requires forall e :: e in events ==> !Touches(e, user)
    ensures Run(cfg, s, owner, events).users[user] == s.users[user] && s.users[user].presence == Offline
    ensures Run(cfg, s, owner, events).Snapshot(user) == None && user !in Run(cfg, s, owner, events).registry.members
  {
    hide Touches, Allowed;
    assert [] + events == events;
    QuietKeeps(cfg, owner, s, [], events, user);
    hide Step;
  }

  // ----- What is broadcast and returned -----

  /** An upsert or close announces the user's new level, as of now, exactly when it is not the stored one. */
  lemma PayloadExactly(cfg: Settings, owner: string -> UserId, s: System, events: seq<Event>, e: Event, user: UserId)
    requires Initial(s) && AllAllowed(s.users.Keys, owner, events + [e]) && AllAllowed(s.users.Keys, owner, events)
    requires user in s.users && Touches(e, user) && !e.Queried?
    ensures
      var before, after := Run(cfg, s, owner, events), Run(cfg, s, owner, events + [e]);
      var level := LevelBy(s.Now(), events + [e], user, cfg.heartbeatTtl);
      Payload(before, after, user) ==
        if level == before.users[user].presence then None else Some(UserRow(level, ClockAfter(s.Now(), events + [e])))
  {
    hide LevelBy, ClockAfter, PresenceOf, Invariant, Allowed, Touches;
    PrefixAllowed(s.users.Keys, owner, events, [e]);
    assert Allowed(s.users.Keys, owner, [e][0]);
    RunExtends(cfg, owner, s, events, e);
    StoredPresenceIsActual(cfg, owner, s, events, e, user);
    LevelExactly(cfg, owner, s, events + [e], user);
    ReachableInvariant(cfg, owner, s, events + [e]);
    hide Run, Step;
  }

  /** The user's row once it is up to date. */
  function RowNow(s: System, user: UserId): UserRow
    requires user in s.users
  {
    if s.users[user].presence == s.Actual(user) then s.users[user] else UserRow(s.Actual(user), s.Now())
  }

  /** The requested users that exist, in order, each with the row that is now right. */
  function RowsNow(s: System, requested: seq<UserId>): seq<(UserId, UserRow)> {
    if requested == [] then []
    else (if requested[0] in s.users then [(requested[0], RowNow(s, requested[0]))] else []) + RowsNow(s, requested[1..])
  }

  lemma {:induction false} RowsNowStay(s: System, s': System, requested: seq<UserId>)
    requires s'.users.Keys == s.users.Keys && forall u :: u in s.users ==> RowNow(s', u) == RowNow(s, u)
    ensures RowsNow(s', requested) == RowsNow(s, requested)
    decreases |requested|
  {
    hide RowNow;
    if requested != [] {
      RowsNowStay(s, s', requested[1..]);
    }
  }

  lemma QueryKeepsRowsNow(cfg: Settings, owner: string -> UserId, beats: Beats, s: System, user: UserId)
    requires Invariant(cfg, owner, beats, s) && user in s.users
    ensures Invariant(cfg, owner, beats, Query(cfg, s, user)) && Query(cfg, s, user).users.Keys == s.users.Keys
    ensures Query(cfg, s, user).users[user] == RowNow(s, user)
    ensures forall u :: u in s.users ==> RowNow(Query(cfg, s, user), u) == RowNow(s, u)
  {
    RecomputeSettles(cfg, owner, beats, s, user);
    hide KeysRepresent, SetsIndex, Registry.Live, PresenceOf, SqlMirrors;
    PruneKeepsTime(s.registry, user, cfg.heartbeatTtl);
  }

  lemma {:induction false} QueriesReturnRowsNow(cfg: Settings, owner: string -> UserId, beats: Beats, s: System,
                                                requested: seq<UserId>)
    requires Invariant(cfg, owner, beats, s)
    ensures PresenceService.QueryPayload(cfg, s, requested) == RowsNow(s, requested)
    decreases |requested|
  {
    hide Invariant, RowNow;
    if requested != [] {
      if requested[0] in s.users {
        QueryKeepsRowsNow(cfg, owner, beats, s, requested[0]);
      }
      var s' := Query(cfg, s, requested[0]);
      QueriesReturnRowsNow(cfg, owner, beats, s', requested[1..]);
      RowsNowStay(s, s', requested[1..]);
      hide Query;
    }
  }

  /** A query returns, for the users that exist and in the order asked, what they are at this moment. */
  lemma QueryPayloadExactly(cfg: Settings, owner: string -> UserId, s: System, events: seq<Event>, requested: seq<UserId>)
    requires Initial(s) && AllAllowed(s.users.Keys, owner, events)
    ensures PresenceService.QueryPayload(cfg, Run(cfg, s, owner, events), requested) ==
            RowsNow(Run(cfg, s, owner, events), requested)
    ensures forall u :: u in s.users ==>
              RowNow(Run(cfg, s, owner, events), u).presence == LevelBy(s.Now(), events, u, cfg.heartbeatTtl)
  {
    hide LevelBy, Invariant, AllAllowed, Initial, PresenceService.QueryPayload;
    ReachableInvariant(cfg, owner, s, events);
    QueriesReturnRowsNow(cfg, owner, BeatsAfter(s.Now(), events), Run(cfg, s, owner, events), requested);
    forall u { LevelExactly(cfg, owner, s, events, u); }
    hide RowsNow, Run;
  }

  function Queries(requested: seq<UserId>): seq<Event> {
    seq(|requested|, i requires 0 <= i < |requested| => Queried(requested[i]))
  }

  /** Asking for several users is a run of queries, one after the other. */
  lemma {:induction false} QueryAllIsARun(cfg: Settings, owner: string -> UserId, s: System, events: seq<Event>,
                                          requested: seq<UserId>)
    requires AllAllowed(s.users.Keys, owner, events)
    ensures AllAllowed(s.users.Keys, owner, events + Queries(requested))
    ensures PresenceService.QueryAll(cfg, Run(cfg, s, owner, events), requested) ==
            Run(cfg, s, owner, events + Queries(requested))
    decreases |requested|
  {
    if requested == [] {
      assert events + Queries(requested) == events;
    } else {
      var e := Queried(requested[0]);
      RunExtends(cfg, owner, s, events, e);
      QueryAllIsARun(cfg, owner, s, events + [e], requested[1..]);
      assert (events + [e]) + Queries(requested[1..]) == events + Queries(requested);
      hide Query, Run;
    }
  }

  // ----- The SQL rows -----

  /** The row of a connection says it was disconnected at this time. */
  predicate ClosedAt(s: System, key: string, time: int) {
    key in s.rows && s.rows[key].disconnectedAt == Some(time)
  }

  /** The closes of an open connection at this time. */
  function Closings(start: int, events: seq<Event>, key: string, time: int): set<nat> {
    set k | 0 <= k < |events| && events[k].Closed? && events[k].key == key
            && key in BeatsAfter(start, events[..k]) && TimeOf(start, events, k) == time
  }

  function Reopenings(events: seq<Event>, key: string): set<nat> {
    set k | 0 <= k < |events| && events[k].Upserted? && events[k].heartbeat.key == key
  }

  lemma RowsNext(cfg: Settings, s: System, e: Event)
    requires cfg.legacySql && (e.Upserted? ==> e.heartbeat.user in s.users) && (e.Closed? ==> e.user in s.users)
    ensures match e
            case Upserted(h) => h.key in Step(cfg, s, e).rows && Step(cfg, s, e).rows[h.key].disconnectedAt == None
                                && Step(cfg, s, e).rows - {h.key} == s.rows - {h.key}
            case Closed(user, key) => Step(cfg, s, e).rows == DisconnectRow(s.rows, user, key, s.Now())
            case _ => Step(cfg, s, e).rows == s.rows
  {
    hide Registry.Prune, Registry.Add, Registry.Remove, Registry.Live, PresenceOf, DisconnectRow, ConnectionOf;
  }

  lemma ClosedNext(cfg: Settings, owner: string -> UserId, beats: Beats, s: System, e: Event, key: string, time: int)
    requires cfg.legacySql && Invariant(cfg, owner, beats, s) && Allowed(s.users.Keys, owner, e)
    ensures ClosedAt(Step(cfg, s, e), key, time) <==>
            (e.Closed? && e.key == key && key in beats && s.Now() == time)
            || (ClosedAt(s, key, time) && !(e.Upserted? && e.heartbeat.key == key))
  {
    RowsNext(cfg, s, e);
    assert KeysRepresent(s.registry, beats, owner, cfg.heartbeatTtl);
    if e.Upserted? && key != e.heartbeat.key {
      assert key in s.rows <==> key in s.rows - {e.heartbeat.key};
      assert key in Step(cfg, s, e).rows <==> key in Step(cfg, s, e).rows - {e.heartbeat.key};
    }
    hide SetsIndex, Registry.Live, Registry.Get, PresenceOf, Step;
  }

  /**
   With dual writing a connection's SQL row carries the time it was closed at, since it was closed
   while open and until its next heartbeat.
   */
  lemma {:induction false} ClosedExactly(cfg: Settings, owner: string -> UserId, s: System, events: seq<Event>,
                                         key: string, time: int)
    requires Initial(s) && AllAllowed(s.users.Keys, owner, events) && cfg.legacySql
    ensures ClosedAt(Run(cfg, s, owner, events), key, time) <==>
            Since(Closings(s.Now(), events, key, time), Reopenings(events, key), |events|)
  {
    if events == [] {
      assert ClosedAt(s, key, time) == false;
    } else {
      var last := |events| - 1;
      var before := events[..last];
      hide Step, ClosedAt, Initial, Invariant, BeatsAfter;
      assert events == before + [events[last]];
      PrefixAllowed(s.users.Keys, owner, before, [events[last]]);
      assert Allowed(s.users.Keys, owner, [events[last]][0]);
      ClosedExactly(cfg, owner, s, before, key, time);
      ReachableInvariant(cfg, owner, s, before);
      ClosedNext(cfg, owner, BeatsAfter(s.Now(), before), Run(cfg, s, owner, before), events[last], key, time);
      SinceNext(Closings(s.Now(), events, key, time), Reopenings(events, key), last);
      PrefixSince(s.Now(), events, key, time);
      hide Since;
    }
  }

  lemma PrefixSince(start: int, events: seq<Event>, key: string, time: int)
    requires events != []
    ensures var before := events[..|events| - 1];
            Since(Closings(start, before, key, time), Reopenings(before, key), |before|)
            <==> Since(Closings(start, events, key, time), Reopenings(events, key), |before|)
  {
    var before := events[..|events| - 1];
    hide BeatsAfter, ClockAfter;
    forall k | 0 <= k < |before| ensures before[..k] == events[..k] && before[k] == events[k] {}
    forall k: nat | k < |before|
      ensures k in Closings(start, before, key, time) <==> k in Closings(start, events, key, time)
      ensures k in Reopenings(before, key) <==> k in Reopenings(events, key)
    {
    }
    hide Closings, Reopenings;
    forall k: nat | k < |before|
      ensures NotEnded(Reopenings(before, key), k, |before|) <==> NotEnded(Reopenings(events, key), k, |before|)
    {
    }
    assert forall k: nat :: k >= |before| ==>
            !NotEnded(Reopenings(events, key), k, |before|) && !NotEnded(Reopenings(before, key), k, |before|);
    hide NotEnded;
  }

  // ----- Parity and listings -----

  /**
   When the parity check speaks up, it reports how many connections either side has, with Redis
   having fewer; and both levels exactly when the SQL rows look more present.
   */
  lemma ParityReportsExactly(cfg: Settings, owner: string -> UserId, s: System, events: seq<Event>, user: UserId)
    requires Initial(s) && AllAllowed(s.users.Keys, owner, events) && cfg.legacySql
    ensures
      var reached := Run(cfg, s, owner, events);
      var redis, sql, now := reached.registry.Live(user), LegacyConnections(reached, user), reached.Now();
      var reports := Mismatches(redis, sql, now);
      reports == if |redis| == |sql| then []
                 else if Rank(PresenceOf(redis, now)) < Rank(PresenceOf(sql, now))
                 then [PresenceMismatch(PresenceOf(redis, now), PresenceOf(sql, now)), CountMismatch(|redis|, |sql|)]
                 else [CountMismatch(|redis|, |sql|)]
    ensures |Run(cfg, s, owner, events).registry.Live(user)| <= |LegacyConnections(Run(cfg, s, owner, events), user)|
  {
    var reached := Run(cfg, s, owner, events);
    var redis, sql, now := reached.registry.Live(user), LegacyConnections(reached, user), reached.Now();
    ReachableInvariant(cfg, owner, s, events);
    ListingIsExact(cfg, owner, s, events, user);
    FreshAreOpen(reached, BeatsAfter(s.Now(), events), user, cfg.heartbeatTtl);
    hide Run, LegacyConnections, FreshConnections, Invariant, Initial, AllAllowed;
    SubsetCardinality(redis, sql);
    PresenceIsMonotone(redis, now, sql, now);
    hide PresenceOf;
  }

  lemma FreshAreOpen(s: System, beats: Beats, user: UserId, ttl: int)
    requires SqlMirrors(s, beats)
    ensures FreshConnections(beats, user, s.Now(), ttl) <= LegacyConnections(s, user)
  {
    forall c | c in FreshConnections(beats, user, s.Now(), ttl) ensures c in LegacyConnections(s, user) {
      var key :| key in beats && beats[key] == c && c.userId == user;
      assert OpenRow(s, user, key);
    }
  }

  predicate SameTimes(a: Connection, b: Connection) {
    a.lastInteractionAt == b.lastInteractionAt && a.lastHeartbeatAt == b.lastHeartbeatAt && a.connectedAt == b.connectedAt
  }

  /** A listing shows the newest interaction first, then the newest heartbeat, and the larger key among equals. */
  lemma ListedNewestFirst(listed: seq<Connection>, i: nat, j: nat)
    requires SortedBy(PresenceService.Later, listed) && i < j < |listed|
    ensures listed[j].lastInteractionAt <= listed[i].lastInteractionAt
    ensures listed[j].lastInteractionAt == listed[i].lastInteractionAt ==>
            listed[j].lastHeartbeatAt <= listed[i].lastHeartbeatAt
    ensures SameTimes(listed[i], listed[j]) ==> StringLess(listed[j].connectionKey, listed[i].connectionKey)
  {
    assert PresenceService.Later(listed[i], listed[j]);
  }
}
