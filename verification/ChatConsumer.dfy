/**
 The consumer as it runs: its handlers change its two subscription sets and the shared channel
 layer in place. Each handler run to its end has the effect the protocol in module Fanout gives it.
 */
module ChatConsumer {
  import opened Common
  import opened Fanout
  import Presence
  import PresenceService

  class ChannelLayer {
    var groups: set<(Group, Channel)>

    constructor ()
      ensures groups == {}
    {
      groups := {};
    }
  }

  class Socket {
    const layer: ChannelLayer
    const presence: PresenceService.Service
    const channel: Channel

    /** The channel's name, which is the connection's key in the presence registry. */
    const channelName: string
    const user: UserId
    const session: Option<nat>
    var hasUser: bool
    var status: Status
    var rooms: set<RoomId>
    var dialogs: set<DialogId>

    constructor (layer: ChannelLayer, presence: PresenceService.Service, channel: Channel, channelName: string,
                 user: UserId, session: Option<nat>)
      ensures this.layer == layer && this.presence == presence
      ensures this.channel == channel && this.channelName == channelName && this.user == user && this.session == session
      ensures !hasUser && status == Connecting && rooms == {} && dialogs == {}
    {
      this.layer, this.presence := layer, presence;
      this.channel, this.channelName := channel, channelName;
      this.user, this.session := user, session;
      hasUser, status, rooms, dialogs := false, Connecting, {}, {};
    }

    ghost function View(): Local
      reads this, layer
    {
      Local(status, GroupsOf(layer.groups, channel), rooms, dialogs)
    }

    /** No other channel's membership changed. */
    twostate predicate OthersKeepTheirGroups()
      reads this, layer
    {
      forall g, ch :: ch != channel ==> ((g, ch) in layer.groups <==> (g, ch) in old(layer.groups))
    }

    method Join(group: Group)
      modifies layer
      ensures layer.groups == old(layer.groups) + {(group, channel)}
      ensures View() == Apply(old(View()), GroupAdd(group))
    {
      layer.groups := layer.groups + {(group, channel)};
      assert GroupsOf(layer.groups, channel) == old(GroupsOf(layer.groups, channel)) + {group};
    }

    method Leave(group: Group)
      modifies layer
      ensures layer.groups == old(layer.groups) - {(group, channel)}
      ensures View() == Apply(old(View()), GroupDiscard(group))
    {
      layer.groups := layer.groups - {(group, channel)};
      assert GroupsOf(layer.groups, channel) == old(GroupsOf(layer.groups, channel)) - {group};
    }

    method JoinOwnGroups()
      modifies this`status, layer
      ensures View() == ApplyAll(old(View()), ConnectOps(user)) && OthersKeepTheirGroups()
      ensures old(View()) == Local(Connecting, {}, {}, {}) ==> Settled(View(), user)
    {
      ThreeOps(View(), ConnectOps(user));
      Join(UserGroup(user));
      Join(PresenceGroup);
      status := Open;
    }

    /** The registration a socket makes when it opens: active from now on. */
    ghost function OpeningHeartbeat(): Presence.Heartbeat {
      Presence.Heartbeat(user, channelName, session, None, true, None)
    }

    /** Without a valid session the socket closes at once; otherwise it joins its groups and registers. */
    method Connect(authenticated: bool) returns (payload: Option<Presence.UserRow>)
      requires presence.Valid() && user in presence.users
      modifies this, layer, presence
      ensures presence.Valid() && OthersKeepTheirGroups() && hasUser == (old(hasUser) || authenticated)
      ensures !authenticated ==>
        payload == None && View() == old(View()).(status := Closed) && presence.View() == old(presence.View())
      ensures authenticated ==>
        && View() == ApplyAll(old(View()), ConnectOps(user))
        && (old(View()) == Local(Connecting, {}, {}, {}) ==> Settled(View(), user))
        && presence.View() == Presence.Upsert(presence.cfg, old(presence.View()), OpeningHeartbeat())
        && payload == Presence.Payload(old(presence.View()), presence.View(), user)
    {
      if !authenticated {
        status := Closed;
        return None;
      }
      hide Presence.Upsert, Presence.Payload;
      hasUser := true;
      JoinOwnGroups();
      payload := presence.UpsertPresenceConnection(Presence.Heartbeat(user, channelName, session, None, true, None));
    }

    /** A heartbeat renews the registration under the same key. */
    method HandlePresenceHeartbeat(tab: string, isActive: bool, interaction: int) returns (payload: Option<Presence.UserRow>)
      requires presence.Valid() && user in presence.users
      modifies presence
      ensures presence.Valid()
      ensures presence.View() == Presence.Upsert(presence.cfg, old(presence.View()),
                Presence.Heartbeat(user, channelName, session, Some(tab), isActive, Some(interaction)))
      ensures payload == Presence.Payload(old(presence.View()), presence.View(), user)
    {
      hide Presence.Upsert, Presence.Payload;
      payload := presence.UpsertPresenceConnection(
        Presence.Heartbeat(user, channelName, session, Some(tab), isActive, Some(interaction)));
    }

    method HandleRoomSubscribe(db: Rooms, room: RoomId) returns (refusal: Option<AccessError>)
      modifies this, layer
      ensures OthersKeepTheirGroups()
      ensures match LiveAccess(db, room, user)
              case Failure(error) => refusal == Some(error) && View() == old(View())
              case Success(_) => refusal == None && View() == ApplyAll(old(View()), SubscribeRoomOps(room))
    {
      var access := LiveAccess(db, room, user);
      if access.Failure? {
        return Some(access.error);
      }
      TwoOps(View(), SubscribeRoomOps(room));
      Join(RoomGroup(room));
      rooms := rooms + {room};
      refusal := None;
    }

    method HandleRoomUnsubscribe(room: RoomId)
      modifies this, layer
      ensures View() == ApplyAll(old(View()), UnsubscribeRoomOps(room)) && OthersKeepTheirGroups()
    {
      TwoOps(View(), UnsubscribeRoomOps(room));
      Leave(RoomGroup(room));
      rooms := rooms - {room};
    }

    /** Subscribing to a dialog one is not part of reports that the dialog does not exist. */
    method HandleDialogSubscribe(participants: map<DialogId, (UserId, UserId)>, dialog: DialogId) returns (refusal: Option<AccessError>)
      modifies this, layer
      ensures OthersKeepTheirGroups()
      ensures if dialog in participants && (participants[dialog].0 == user || participants[dialog].1 == user)
              then refusal == None && View() == ApplyAll(old(View()), SubscribeDialogOps(dialog))
              else refusal == Some(NotFound) && View() == old(View())
    {
      if dialog !in participants || (participants[dialog].0 != user && participants[dialog].1 != user) {
        return Some(NotFound);
      }
      TwoOps(View(), SubscribeDialogOps(dialog));
      Join(DialogGroup(dialog));
      dialogs := dialogs + {dialog};
      refusal := None;
    }

    method HandleDialogUnsubscribe(dialog: DialogId)
      modifies this, layer
      ensures View() == ApplyAll(old(View()), UnsubscribeDialogOps(dialog)) && OthersKeepTheirGroups()
    {
      TwoOps(View(), UnsubscribeDialogOps(dialog));
      Leave(DialogGroup(dialog));
      dialogs := dialogs - {dialog};
    }

    /** Forwards the event, or drops it and leaves the group of a room the user may no longer hear. */
    method BroadcastEvent(db: Rooms, kind: Kind, payload: Payload) returns (sent: bool)
      modifies this, layer
      ensures OthersKeepTheirGroups()
      ensures var reaction := React(db, user, old(rooms), Broadcast(kind, payload));
              sent == reaction.sends && View() == ApplyAll(old(View()), reaction.ops)
      ensures sent <==> (RoomKind(kind) && RoomIdFromEvent(payload).Some? ==>
                           var room := RoomIdFromEvent(payload).value;
                           room in db.isPrivate && (room, user) in db.members && (room, user) !in db.banned)
      ensures !sent ==>
        var room := RoomIdFromEvent(payload).value;
        room !in rooms && (room in old(rooms) ==> RoomGroup(room) !in View().groups)
    {
      if RoomKind(kind) {
        var room := RoomIdFromEvent(payload);
        if room.Some? && LiveAccess(db, room.value, user).Failure? {
          if room.value in rooms {
            TwoOps(View(), UnsubscribeRoomOps(room.value));
            HandleRoomUnsubscribe(room.value);
          }
          return false;
        }
      }
      sent := true;
    }

    method MembershipForceRoomUnsubscribe(db: Rooms, room: RoomId)
      modifies this, layer
      ensures OthersKeepTheirGroups()
      ensures View() == ApplyAll(old(View()), React(db, user, old(rooms), ForceRoomUnsubscribe(room)).ops)
    {
      if room in rooms {
        HandleRoomUnsubscribe(room);
      }
    }

    method LeaveRooms()
      modifies layer
      ensures OthersKeepTheirGroups()
      ensures View() == old(View()).(groups := old(View()).groups - set r | r in rooms :: RoomGroup(r))
    {
      var pending := rooms;
      while pending != {}
        invariant pending <= rooms && OthersKeepTheirGroups()
        invariant View().groups == old(View()).groups - set r | r in rooms - pending :: RoomGroup(r)
        decreases |pending|
      {
        var room :| room in pending;
        Leave(RoomGroup(room));
        pending := pending - {room};
      }
    }

    method LeaveDialogs()
      modifies layer
      ensures OthersKeepTheirGroups()
      ensures View() == old(View()).(groups := old(View()).groups - set d | d in dialogs :: DialogGroup(d))
    {
      var pending := dialogs;
      while pending != {}
        invariant pending <= dialogs && OthersKeepTheirGroups()
        invariant View().groups == old(View()).groups - set d | d in dialogs - pending :: DialogGroup(d)
        decreases |pending|
      {
        var dialog :| dialog in pending;
        Leave(DialogGroup(dialog));
        pending := pending - {dialog};
      }
    }

    /** Leaves every subscribed group; the sets themselves keep their stale contents. */
    method LeaveAllGroups()
      modifies this`status, layer
      ensures OthersKeepTheirGroups()
      ensures View() == Local(Closed, old(View().groups - SubscribedGroups(View())) - {UserGroup(user), PresenceGroup}, rooms, dialogs)
      ensures old(status) == Open && old(Settled(View(), user)) ==> View().groups == {}
    {
      ghost var before := View();
      LeaveRooms();
      LeaveDialogs();
      assert View().groups == before.groups - SubscribedGroups(before);
      Leave(UserGroup(user));
      Leave(PresenceGroup);
      status := Closed;
      if before.status == Open && Settled(before, user) {
        SettledGroups(before, user);
      }
    }

    /** A socket that never had a user leaves nothing behind; another leaves its groups and unregisters. */
    method Disconnect() returns (payload: Option<Presence.UserRow>)
      requires presence.Valid() && user in presence.users
      modifies this`status, layer, presence
      ensures presence.Valid() && OthersKeepTheirGroups()
      ensures !hasUser ==> payload == None && View() == old(View()) && presence.View() == old(presence.View())
      ensures hasUser ==>
        && View() == Local(Closed, old(View().groups - SubscribedGroups(View())) - {UserGroup(user), PresenceGroup}, rooms, dialogs)
        && (old(status) == Open && old(Settled(View(), user)) ==> View().groups == {})
        && presence.View() == Presence.Close(presence.cfg, old(presence.View()), user, channelName)
        && payload == Presence.Payload(old(presence.View()), presence.View(), user)
    {
      hide Presence.Close, Presence.Payload, Settled, SubscribedGroups;
      if !hasUser {
        return None;
      }
      LeaveAllGroups();
      payload := presence.ClosePresenceConnection(user, channelName);
    }
  }

  lemma SettledGroups(local: Local, user: UserId)
    requires local.status == Open && Settled(local, user)
    ensures local.groups == SubscribedGroups(local) + {UserGroup(user), PresenceGroup}
  {
    forall g ensures g in local.groups <==> g in SubscribedGroups(local) + {UserGroup(user), PresenceGroup} {
      match g
      case RoomGroup(r) => assert g in local.groups <==> r in local.rooms;
      case DialogGroup(d) => assert g in local.groups <==> d in local.dialogs;
      case UserGroup(_) =>
      case PresenceGroup =>
    }
  }
}
