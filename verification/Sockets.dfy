/**
 Sockets and presence together: a consumer registers when it opens and on every heartbeat, and
 unregisters when it closes, always under its channel's name. So the presence registry's demand for
 one owner per connection key is met, and its listings speak about open sockets.
 */
module Sockets {
  import opened Common
  import Fanout
  import Presence
  import PresenceHistories

  type Channel = Fanout.Channel
  type UserId = nat

  datatype Action =
    | Protocol(action: Fanout.Action)
    | Beat(channel: Channel, tab: string, isActive: bool, interaction: int)
    | Query(user: UserId)
    | Pass(duration: nat)

  /** Channel names are distinct: a name leads back to its channel. */
  ghost predicate Names(name: Channel -> string, channelOf: string -> Channel) {
    forall ch :: channelOf(name(ch)) == ch
  }

  function SocketsStep(s: Fanout.System, a: Action): Fanout.System {
    if a.Protocol? then Fanout.Step(s, a.action) else s
  }

  function SocketsAfter(s: Fanout.System, actions: seq<Action>): Fanout.System {
    if actions == [] then s else SocketsStep(SocketsAfter(s, actions[..|actions| - 1]), actions[|actions| - 1])
  }

  /** The consumer whose handler now does its last piece of work, and how it ends. */
  function Finishing(s: Fanout.System, a: Action): Option<(Channel, Fanout.Status)> {
    if a.Protocol? && a.action.Work? && Fanout.Enabled(s, a.action) && s.consumers[a.action.channel].todo[0].Finish?
    then Some((a.action.channel, s.consumers[a.action.channel].todo[0].status))
    else None
  }

  /** What the presence services are asked to do: opening and heartbeats register, closing unregisters. */
  function Emitted(s: Fanout.System, name: Channel -> string, a: Action): Option<Presence.Event> {
    match a
    case Protocol(_) =>
      (match Finishing(s, a)
       case None => None
       case Some((ch, Open)) => Some(Presence.Upserted(Presence.Heartbeat(s.consumers[ch].user, name(ch), None, None, true, None)))
       case Some((ch, Closed)) => Some(Presence.Closed(s.consumers[ch].user, name(ch)))
       case Some((_, Connecting)) => None)
    case Beat(ch, tab, isActive, interaction) =>
      if Fanout.Idle(s, ch)
      then Some(Presence.Upserted(Presence.Heartbeat(s.consumers[ch].user, name(ch), None, Some(tab), isActive, Some(interaction))))
      else None
    case Query(user) => Some(Presence.Queried(user))
    case Pass(duration) => Some(Presence.Elapsed(duration))
  }

  function EventsAfter(s: Fanout.System, name: Channel -> string, actions: seq<Action>): seq<Presence.Event> {
    if actions == [] then []
    else
      var before := actions[..|actions| - 1];
      var emitted := Emitted(SocketsAfter(s, before), name, actions[|actions| - 1]);
      EventsAfter(s, name, before) + (if emitted.Some? then [emitted.value] else [])
  }

  /** Sockets only connect for users that exist. */
  ghost predicate KnownUsers(users: set<UserId>, actions: seq<Action>) {
    forall i :: 0 <= i < |actions| && actions[i].Protocol? && actions[i].action.Connect? ==> actions[i].action.user in users
  }

  // ----- Every connection key has one owner -----

  /** The user of the channel a key names. */
  function OwnerIn(s: Fanout.System, channelOf: string -> Channel): string -> UserId {
    (key: string) => if channelOf(key) in s.consumers then s.consumers[channelOf(key)].user else 0
  }

  /** The user and key of a registration or a close belong to a consumer. */
  ghost predicate FromConsumer(s: Fanout.System, users: set<UserId>, channelOf: string -> Channel, e: Presence.Event) {
    match e
    case Upserted(h) => channelOf(h.key) in s.consumers && s.consumers[channelOf(h.key)].user == h.user && h.user in users
    case Closed(user, key) => channelOf(key) in s.consumers && s.consumers[channelOf(key)].user == user && user in users
    case _ => true
  }

  ghost predicate ConsumersKnown(s: Fanout.System, users: set<UserId>) {
    forall ch :: ch in s.consumers ==> s.consumers[ch].user in users
  }

  lemma StepKeepsKnown(s: Fanout.System, a: Action, users: set<UserId>)
    requires ConsumersKnown(s, users)
    requires a.Protocol? && a.action.Connect? ==> a.action.user in users
    ensures ConsumersKnown(SocketsStep(s, a), users)
  {
    forall ch | ch in SocketsStep(s, a).consumers ensures SocketsStep(s, a).consumers[ch].user in users {
      if ch in s.consumers && a.Protocol? {
        Fanout.StepKeepsUsers(s, a.action, ch);
      } else if a.Protocol? {
        NewConsumersConnect(s, a.action, ch);
      }
    }
  }

  lemma NewConsumersConnect(s: Fanout.System, a: Fanout.Action, ch: Channel)
    requires ch !in s.consumers && ch in Fanout.Step(s, a).consumers
    ensures a.Connect? && a.channel == ch && Fanout.Step(s, a).consumers[ch].user == a.user
    ensures Fanout.Step(s, a).consumers[ch].status == Fanout.Connecting
  {
  }

  lemma EmittedFromConsumer(s: Fanout.System, users: set<UserId>, name: Channel -> string,
                            channelOf: string -> Channel, a: Action)
    requires Names(name, channelOf) && ConsumersKnown(s, users)
    ensures Emitted(s, name, a).Some? ==> FromConsumer(s, users, channelOf, Emitted(s, name, a).value)
  {
  }

  lemma FromConsumerStays(s: Fanout.System, users: set<UserId>, channelOf: string -> Channel, a: Action,
                          e: Presence.Event)
    requires FromConsumer(s, users, channelOf, e)
    ensures FromConsumer(SocketsStep(s, a), users, channelOf, e)
  {
    if a.Protocol? {
      match e
      case Upserted(h) => Fanout.StepKeepsUsers(s, a.action, channelOf(h.key));
      case Closed(_, key) => Fanout.StepKeepsUsers(s, a.action, channelOf(key));
      case _ =>
    }
  }

  lemma {:induction false} EventsFromConsumers(s: Fanout.System, users: set<UserId>, name: Channel -> string,
                                               channelOf: string -> Channel, actions: seq<Action>)
    requires s.consumers == map[] && Names(name, channelOf) && KnownUsers(users, actions)
    ensures ConsumersKnown(SocketsAfter(s, actions), users)
    ensures forall e :: e in EventsAfter(s, name, actions) ==> FromConsumer(SocketsAfter(s, actions), users, channelOf, e)
  {
    if actions != [] {
      var before, a := actions[..|actions| - 1], actions[|actions| - 1];
      EventsFromConsumers(s, users, name, channelOf, before);
      var reached := SocketsAfter(s, before);
      StepKeepsKnown(reached, a, users);
      EmittedFromConsumer(reached, users, name, channelOf, a);
      hide SocketsStep, FromConsumer, ConsumersKnown, Emitted;
      forall e | e in EventsAfter(s, name, actions) ensures FromConsumer(SocketsAfter(s, actions), users, channelOf, e) {
        FromConsumerStays(reached, users, channelOf, a, e);
      }
    }
  }

  /** The presence events of every run of sockets meet the registry's demand. */
  lemma SocketEventsAreAllowed(s: Fanout.System, users: set<UserId>, name: Channel -> string,
                               channelOf: string -> Channel, actions: seq<Action>)
    requires s.consumers == map[] && Names(name, channelOf) && KnownUsers(users, actions)
    ensures Presence.AllAllowed(users, OwnerIn(SocketsAfter(s, actions), channelOf), EventsAfter(s, name, actions))
  {
    EventsFromConsumers(s, users, name, channelOf, actions);
    var events := EventsAfter(s, name, actions);
    forall i | 0 <= i < |events|
      ensures Presence.Allowed(users, OwnerIn(SocketsAfter(s, actions), channelOf), events[i])
    {
      assert FromConsumer(SocketsAfter(s, actions), users, channelOf, events[i]);
    }
  }

  // ----- Registered means open -----

  /** Work under way never puts a consumer back to connecting. */
  ghost predicate NoRelapse(s: Fanout.System) {
    forall ch :: ch in s.consumers ==> Fanout.Finish(Fanout.Connecting) !in s.consumers[ch].todo
  }

  lemma StepKeepsNoRelapse(s: Fanout.System, a: Fanout.Action)
    requires NoRelapse(s)
    ensures NoRelapse(Fanout.Step(s, a))
  {
    if Fanout.Enabled(s, a) && a.Disconnect? {
      Fanout.DiscardsAddNothing(a.order);
    }
    forall ch | ch in Fanout.Step(s, a).consumers
      ensures Fanout.Finish(Fanout.Connecting) !in Fanout.Step(s, a).consumers[ch].todo
    {
    }
  }

  predicate IsOpen(s: Fanout.System, ch: Channel) {
    ch in s.consumers && s.consumers[ch].status == Fanout.Open
  }

  /** A consumer's status moves only when a handler finishes with one. */
  lemma StatusMovesByFinishing(s: Fanout.System, a: Action, ch: Channel)
    ensures IsOpen(SocketsStep(s, a), ch) <==>
            match Finishing(s, a)
            case Some((finisher, status)) => if finisher == ch then status == Fanout.Open else IsOpen(s, ch)
            case None => IsOpen(s, ch)
  {
    hide Fanout.React, Fanout.LiveAccess, Fanout.DisconnectOps, Fanout.ConnectOps, Fanout.SubscribedGroups, Fanout.EventOf, Fanout.Without;
  }

  /** The keys that are registered and not closed are the names of the open consumers' channels. */
  ghost predicate RegisteredAreOpen(s: Fanout.System, name: Channel -> string, beats: Presence.Beats) {
    && (forall ch :: IsOpen(s, ch) ==> name(ch) in beats && beats[name(ch)].userId == s.consumers[ch].user)
    && (forall key :: key in beats ==> exists ch :: IsOpen(s, ch) && name(ch) == key)
  }

  function BeatsThen(beats: Presence.Beats, now: int, e: Option<Presence.Event>): Presence.Beats {
    if e.Some? then Presence.BeatsStep(beats, now, e.value) else beats
  }

  lemma StepKeepsRegistered(s: Fanout.System, name: Channel -> string, channelOf: string -> Channel,
                            a: Action, beats: Presence.Beats, now: int)
    requires Names(name, channelOf) && NoRelapse(s) && RegisteredAreOpen(s, name, beats)
    ensures RegisteredAreOpen(SocketsStep(s, a), name, BeatsThen(beats, now, Emitted(s, name, a)))
  {
    var s', beats' := SocketsStep(s, a), BeatsThen(beats, now, Emitted(s, name, a));
    forall ch | IsOpen(s', ch) ensures name(ch) in beats' && beats'[name(ch)].userId == s'.consumers[ch].user {
      StatusMovesByFinishing(s, a, ch);
      OpenWasThere(s, a, ch);
      assert channelOf(name(ch)) == ch;
    }
    forall key | key in beats' ensures exists ch :: IsOpen(s', ch) && name(ch) == key {
      BeatsAreOpen(s, name, channelOf, a, beats, now, key);
    }
  }

  lemma OpenWasThere(s: Fanout.System, a: Action, ch: Channel)
    requires IsOpen(SocketsStep(s, a), ch)
    ensures ch in s.consumers && SocketsStep(s, a).consumers[ch].user == s.consumers[ch].user
  {
    if ch !in s.consumers && a.Protocol? {
      NewConsumersConnect(s, a.action, ch);
    } else if a.Protocol? {
      Fanout.StepKeepsUsers(s, a.action, ch);
    }
  }

  lemma BeatsAreOpen(s: Fanout.System, name: Channel -> string, channelOf: string -> Channel,
                     a: Action, beats: Presence.Beats, now: int, key: string)
    requires Names(name, channelOf) && NoRelapse(s) && RegisteredAreOpen(s, name, beats)
    requires key in BeatsThen(beats, now, Emitted(s, name, a))
    ensures exists ch :: IsOpen(SocketsStep(s, a), ch) && name(ch) == key
  {
    var ch: Channel;
    if key in beats {
      ch :| IsOpen(s, ch) && name(ch) == key;
    } else if a.Beat? {
      ch := a.channel;
    } else {
      ch := Finishing(s, a).value.0;
    }
    StatusMovesByFinishing(s, a, ch);
    assert IsOpen(SocketsStep(s, a), ch) && name(ch) == key;
  }

  lemma BeatsExtend(start: int, events: seq<Presence.Event>, e: Option<Presence.Event>)
    ensures Presence.BeatsAfter(start, events + (if e.Some? then [e.value] else []))
         == BeatsThen(Presence.BeatsAfter(start, events), Presence.ClockAfter(start, events), e)
  {
    if e.Some? {
      assert (events + [e.value])[..|events|] == events;
    } else {
      assert events + [] == events;
    }
  }

  lemma {:induction false} OnlyOpenAreRegistered(s: Fanout.System, name: Channel -> string, channelOf: string -> Channel,
                                                 start: int, actions: seq<Action>)
    requires s.consumers == map[] && Names(name, channelOf)
    ensures NoRelapse(SocketsAfter(s, actions))
    ensures RegisteredAreOpen(SocketsAfter(s, actions), name, Presence.BeatsAfter(start, EventsAfter(s, name, actions)))
  {
    if actions != [] {
      var before, a := actions[..|actions| - 1], actions[|actions| - 1];
      OnlyOpenAreRegistered(s, name, channelOf, start, before);
      var reached, events := SocketsAfter(s, before), EventsAfter(s, name, before);
      if a.Protocol? {
        StepKeepsNoRelapse(reached, a.action);
      }
      StepKeepsRegistered(reached, name, channelOf, a, Presence.BeatsAfter(start, events), Presence.ClockAfter(start, events));
      BeatsExtend(start, events, Emitted(reached, name, a));
      hide RegisteredAreOpen, Emitted, Fanout.Step, NoRelapse;
    }
  }

  // ----- The main result -----

  /**
   In every reachable state a user's presence listing shows exactly the user's open sockets that have
   registered or heartbeated within the time to live.
   */
  lemma ListingShowsOpenSockets(cfg: Presence.Settings, p: Presence.System, s: Fanout.System,
                                name: Channel -> string, channelOf: string -> Channel, actions: seq<Action>)
    requires Presence.Initial(p) && s.consumers == map[] && Names(name, channelOf) && KnownUsers(p.users.Keys, actions)
    ensures Presence.AllAllowed(p.users.Keys, OwnerIn(SocketsAfter(s, actions), channelOf), EventsAfter(s, name, actions))
    ensures
      var sockets, events := SocketsAfter(s, actions), EventsAfter(s, name, actions);
      var beats := Presence.BeatsAfter(p.Now(), events);
      var reached := Presence.Run(cfg, p, OwnerIn(sockets, channelOf), events);
      && (forall ch :: IsOpen(sockets, ch) ==>
            name(ch) in beats &&
            (beats[name(ch)] in reached.registry.Live(sockets.consumers[ch].user) <==>
             Presence.Fresh(beats[name(ch)], reached.Now(), cfg.heartbeatTtl)))
      && (forall user, c :: c in reached.registry.Live(user) ==>
            exists ch :: IsOpen(sockets, ch) && name(ch) == c.connectionKey && sockets.consumers[ch].user == user)
  {
    var sockets, events := SocketsAfter(s, actions), EventsAfter(s, name, actions);
    var owner := OwnerIn(sockets, channelOf);
    SocketEventsAreAllowed(s, p.users.Keys, name, channelOf, actions);
    OnlyOpenAreRegistered(s, name, channelOf, p.Now(), actions);
    Presence.ReachableInvariant(cfg, owner, p, events);
    forall user ensures Presence.Run(cfg, p, owner, events).registry.Live(user)
                     == Presence.FreshConnections(Presence.BeatsAfter(p.Now(), events), user, Presence.ClockAfter(p.Now(), events), cfg.heartbeatTtl)
    {
      Presence.ListingIsExact(cfg, owner, p, events, user);
    }
    BeatsNameTheirKey(p.Now(), events);
    hide Presence.Run, Presence.Invariant, Presence.BeatsAfter, Presence.ClockAfter, SocketsAfter, EventsAfter, Presence.AllAllowed, Names;
  }

  lemma {:induction false} BeatsNameTheirKey(start: int, events: seq<Presence.Event>)
    ensures forall key :: key in Presence.BeatsAfter(start, events) ==>
            Presence.BeatsAfter(start, events)[key].connectionKey == key
  {
    if events != [] {
      BeatsNameTheirKey(start, events[..|events| - 1]);
    }
  }

  /** The action opens the socket, or is a heartbeat that reports its tab in use, or an interaction a minute after which is not over. */
  predicate ReportsUse(s: Fanout.System, a: Action, ch: Channel, until: int) {
    Finishing(s, a) == Some((ch, Fanout.Open))
    || (a.Beat? && a.channel == ch && Fanout.Idle(s, ch) && (a.isActive || until < a.interaction + 60_000_000))
  }

  /** The registration an action of this kind makes is for the socket's user, and in use until then. */
  lemma ReportIsInUse(s: Fanout.System, name: Channel -> string, a: Action, ch: Channel,
                      until: int) returns (h: Presence.Heartbeat)
    requires ReportsUse(s, a, ch, until)
    ensures ch in s.consumers && Emitted(s, name, a) == Some(Presence.Upserted(h)) && h.user == s.consumers[ch].user
    ensures h.isActive || (h.interaction.Some? && until < h.interaction.value + 60_000_000)
    ensures ch in SocketsStep(s, a).consumers && SocketsStep(s, a).consumers[ch].user == s.consumers[ch].user
  {
    h := Emitted(s, name, a).value.heartbeat;
    if a.Protocol? {
      Fanout.StepKeepsUsers(s, a.action, ch);
    }
    hide Fanout.Step;
  }

  lemma CountsAfterPause(start: int, events: seq<Presence.Event>, h: Presence.Heartbeat, pause: nat, ttl: int)
    requires pause < ttl
    requires var until := Presence.ClockAfter(start, events) + pause;
             h.isActive || (h.interaction.Some? && until < h.interaction.value + 60_000_000)
    ensures PresenceHistories.LevelBy(start, events + [Presence.Upserted(h)] + [Presence.Elapsed(pause)], h.user, ttl) == Presence.Online
  {
    var all, last := events + [Presence.Upserted(h)] + [Presence.Elapsed(pause)], |events|;
    assert all[..last + 1][..last] ==
            events && all[..last] == events && all[..last + 1] == events + [Presence.Upserted(h)];
    assert Presence.ClockAfter(start, all[..last + 1]) == Presence.ClockAfter(start, events);
    assert Presence.ClockAfter(start, all) == Presence.ClockAfter(start, events) + pause;
    hide Presence.ClockAfter;
    assert PresenceHistories.Counts(start, all, last, h.user, ttl) && PresenceHistories.InUse(start, all, last);
  }

  /**
   Such a report makes its user online at once, in fact and in the stored row, and in fact until the
   time to live has passed or, when it only reports an interaction, the minute.
   */
  lemma ReportMakesOnline(cfg: Presence.Settings, p: Presence.System, s: Fanout.System, name: Channel -> string,
                          channelOf: string -> Channel, actions: seq<Action>, a: Action, ch: Channel, pause: nat)
    requires Presence.Initial(p) && s.consumers ==
            map[] && Names(name, channelOf) && KnownUsers(p.users.Keys, actions + [a] + [Pass(pause)])
    requires pause < cfg.heartbeatTtl
    requires ReportsUse(SocketsAfter(s, actions), a, ch, Presence.ClockAfter(p.Now(), EventsAfter(s, name, actions)) + pause)
    ensures
      var sockets, events := SocketsAfter(s, actions + [a] + [Pass(pause)]), EventsAfter(s, name, actions + [a] + [Pass(pause)]);
      && Presence.AllAllowed(p.users.Keys, OwnerIn(sockets, channelOf), events)
      && ch in sockets.consumers && sockets.consumers[ch].user in p.users
      && var reached := Presence.Run(cfg, p, OwnerIn(sockets, channelOf), events);
         && reached.Actual(sockets.consumers[ch].user) == Presence.Online
         && reached.users[sockets.consumers[ch].user].presence == Presence.Online
  {
    var before, events := SocketsAfter(s, actions), EventsAfter(s, name, actions);
    var until := Presence.ClockAfter(p.Now(), events) + pause;
    var h := ReportIsInUse(before, name, a, ch, until);
    EventsThen(s, name, actions, a);
    EventsThen(s, name, actions + [a], Pass(pause));
    SocketEventsAreAllowed(s, p.users.Keys, name, channelOf, actions + [a] + [Pass(pause)]);
    var owner, all := OwnerIn(SocketsAfter(s, actions + [a] + [Pass(pause)]), channelOf), events + [Presence.Upserted(h)];
    var elapsed := Presence.Elapsed(pause);
    assert Presence.Allowed(p.users.Keys, owner, (all + [elapsed])[|events|]);
    hide SocketsAfter, EventsAfter, Emitted, ReportsUse, Presence.PresenceOf, SocketsStep, Presence.Initial, Names, KnownUsers;
    CountsAfterPause(p.Now(), events, h, pause, cfg.heartbeatTtl);
    PresenceHistories.LevelExactly(cfg, owner, p, all + [elapsed], h.user);
    PresenceHistories.PrefixAllowed(p.users.Keys, owner, all, [elapsed]);
    OnlineAtOnce(p.Now(), events, h, cfg.heartbeatTtl, pause);
    PresenceHistories.StoredExactly(cfg, owner, p, events, Presence.Upserted(h), [elapsed], h.user);
    hide Presence.Run, PresenceHistories.LevelBy;
  }

  lemma OnlineAtOnce(start: int, events: seq<Presence.Event>, h: Presence.Heartbeat, ttl: int, pause: nat)
    requires 0 < ttl
    requires var until := Presence.ClockAfter(start, events) + pause;
             h.isActive || (h.interaction.Some? && until < h.interaction.value + 60_000_000)
    ensures PresenceHistories.LevelBy(start, events + [Presence.Upserted(h)], h.user, ttl) == Presence.Online
  {
    var all, last := events + [Presence.Upserted(h)], |events|;
    assert all[..last] == events && Presence.ClockAfter(start, all) == Presence.ClockAfter(start, events);
    hide Presence.ClockAfter;
    assert PresenceHistories.Counts(start, all, last, h.user, ttl) && PresenceHistories.InUse(start, all, last);
  }

  lemma EventsThen(s: Fanout.System, name: Channel -> string, actions: seq<Action>, a: Action)
    ensures SocketsAfter(s, actions + [a]) == SocketsStep(SocketsAfter(s, actions), a)
    ensures var emitted := Emitted(SocketsAfter(s, actions), name, a);
            EventsAfter(s, name, actions + [a]) == EventsAfter(s, name, actions) + (if emitted.Some? then [emitted.value] else [])
  {
    assert (actions + [a])[..|actions|] == actions;
    hide Emitted, SocketsStep;
  }
}
