/**
 The room services as they run: guards first, then writes to the tables in place. A method that
 gives up after its first write restores what `transaction.atomic` would roll back.
 */
module RoomService {
  import opened Common
  import opened Rooms

  class Service {
    var rooms: map<RoomId, Room>
    var roles: map<(RoomId, UserId), Role>
    var bans: map<(RoomId, UserId), bool>
    var invitations: map<InvitationId, Invitation>
    var readStates: set<(RoomId, UserId)>

    constructor ()
      ensures Valid() && View() == EMPTY
    {
      rooms, roles, bans, invitations, readStates := map[], map[], map[], map[], {};
    }

    ghost function View(): Db
      reads this
    {
      Db(rooms, roles, bans, invitations, readStates)
    }

    ghost predicate Valid()
      reads this
    {
      Invariant(View())
    }

    method CreateRoom(owner: UserId, visibility: Visibility, room: RoomId) returns (error: Option<Error>)
      requires Valid()
      modifies this
      ensures Valid()
      ensures Committed(old(View()), Rooms.CreateRoom(old(View()), owner, visibility, room), View(), error)
    {
      StepKeepsInvariant(View(), Create(owner, visibility, room));
      if room in rooms { return Some(Conflict); }
      rooms := rooms[room := Room(visibility, owner)];
      roles := roles[(room, owner) := Owner];
      error := None;
    }

    method UpdateRoom(room: RoomId, actor: UserId, visibility: Option<Visibility>) returns (error: Option<Error>)
      requires Valid()
      modifies this
      ensures Valid()
      ensures Committed(old(View()), Rooms.UpdateRoom(old(View()), room, actor, visibility), View(), error)
    {
      StepKeepsInvariant(View(), Update(room, actor, visibility));
      if room !in rooms { return Some(NotFound); }
      if rooms[room].owner != actor { return Some(Forbidden); }
      if visibility.Some? {
        rooms := rooms[room := rooms[room].(visibility := visibility.value)];
      }
      error := None;
    }

    method DeleteRoom(room: RoomId, actor: UserId) returns (error: Option<Error>)
      requires Valid()
      modifies this
      ensures Valid()
      ensures Committed(old(View()), Rooms.DeleteRoom(old(View()), room, actor), View(), error)
    {
      StepKeepsInvariant(View(), Delete(room, actor));
      hide Invariant, WithoutRoom;
      if room !in rooms { return Some(NotFound); }
      if rooms[room].owner != actor { return Some(Forbidden); }
      DeleteRows(room);
      error := None;
    }

    /** The room's row and, by cascade, the rows of its memberships, bans, invitations and read states. */
    method DeleteRows(room: RoomId)
      modifies this
      ensures View() == WithoutRoom(old(View()), room)
    {
      rooms := rooms - {room};
      roles := map k | k in roles && k.0 != room :: roles[k];
      bans := map k | k in bans && k.0 != room :: bans[k];
      invitations := map i | i in invitations && invitations[i].room != room :: invitations[i];
      readStates := set k | k in readStates && k.0 != room;
    }

    method JoinRoom(room: RoomId, user: UserId) returns (error: Option<Error>)
      requires Valid()
      modifies this
      ensures Valid()
      ensures Committed(old(View()), Rooms.JoinRoom(old(View()), room, user), View(), error)
    {
      StepKeepsInvariant(View(), Join(room, user));
      if room !in rooms { return Some(NotFound); }
      if rooms[room].visibility != Public { return Some(Forbidden); }
      if (room, user) in bans && bans[(room, user)] { return Some(Forbidden); }
      if (room, user) in roles { return Some(Conflict); }
      roles := roles[(room, user) := Member];
      error := None;
    }

    method LeaveRoom(room: RoomId, user: UserId) returns (error: Option<Error>)
      requires Valid()
      modifies this
      ensures Valid()
      ensures Committed(old(View()), Rooms.LeaveRoom(old(View()), room, user), View(), error)
    {
      StepKeepsInvariant(View(), Leave(room, user));
      if room !in rooms { return Some(NotFound); }
      if (room, user) !in roles { return Some(Conflict); }
      if roles[(room, user)] == Owner || rooms[room].owner == user { return Some(Forbidden); }
      roles := roles - {(room, user)};
      readStates := readStates - {(room, user)};
      error := None;
    }

    method CreateInvitation(room: RoomId, actor: UserId, invited: UserId, id: InvitationId) returns (error: Option<Error>)
      requires Valid()
      modifies this
      ensures Valid()
      ensures Committed(old(View()), Rooms.CreateInvitation(old(View()), room, actor, invited, id), View(), error)
    {
      StepKeepsInvariant(View(), Invite(room, actor, invited, id));
      if room !in rooms || id in invitations { return Some(NotFound); }
      if (room, actor) !in roles || roles[(room, actor)] == Member { return Some(Forbidden); }
      if rooms[room].visibility != Private { return Some(Conflict); }
      if invited == actor { return Some(Invalid); }
      if (room, invited) in bans && bans[(room, invited)] { return Some(Forbidden); }
      if (room, invited) in roles { return Some(Conflict); }
      if exists i :: i in invitations && invitations[i].room == room && invitations[i].invited == invited
                     && invitations[i].status == Pending
      { return Some(Conflict); }
      invitations := invitations[id := Invitation(room, invited, actor, Pending)];
      error := None;
    }

    method AcceptInvitation(id: InvitationId, actor: UserId) returns (error: Option<Error>)
      requires Valid()
      modifies this
      ensures Valid()
      ensures Committed(old(View()), Rooms.AcceptInvitation(old(View()), id, actor), View(), error)
    {
      StepKeepsInvariant(View(), Rooms.Accept(id, actor));
      hide Invariant;
      if id !in invitations || invitations[id].invited != actor { return Some(NotFound); }
      var invitation := invitations[id];
      if invitation.status != Pending { return Some(Conflict); }
      if (invitation.room, actor) in bans && bans[(invitation.room, actor)] { return Some(Forbidden); }
      if (invitation.room, actor) !in roles {
        roles := roles[(invitation.room, actor) := Member];
      }
      invitations := invitations[id := invitation.(status := Accepted)];
      error := None;
    }

    method RejectInvitation(id: InvitationId, actor: UserId) returns (error: Option<Error>)
      requires Valid()
      modifies this
      ensures Valid()
      ensures Committed(old(View()), Rooms.RejectInvitation(old(View()), id, actor), View(), error)
    {
      StepKeepsInvariant(View(), Rooms.Reject(id, actor));
      if id !in invitations || invitations[id].invited != actor { return Some(NotFound); }
      if invitations[id].status != Pending { return Some(Conflict); }
      invitations := invitations[id := invitations[id].(status := Rejected)];
      error := None;
    }

    method PromoteAdmin(room: RoomId, actor: UserId, target: UserId) returns (error: Option<Error>)
      requires Valid()
      modifies this
      ensures Valid()
      ensures Committed(old(View()), Rooms.PromoteAdmin(old(View()), room, actor, target), View(), error)
    {
      StepKeepsInvariant(View(), Promote(room, actor, target));
      if (room, actor) !in roles || roles[(room, actor)] != Owner { return Some(Forbidden); }
      if (room, target) !in roles { return Some(NotFound); }
      if roles[(room, target)] == Owner { return Some(Forbidden); }
      if roles[(room, target)] == Admin { return Some(Conflict); }
      roles := roles[(room, target) := Admin];
      error := None;
    }

    method DemoteAdmin(room: RoomId, actor: UserId, target: UserId) returns (error: Option<Error>)
      requires Valid()
      modifies this
      ensures Valid()
      ensures Committed(old(View()), Rooms.DemoteAdmin(old(View()), room, actor, target), View(), error)
    {
      StepKeepsInvariant(View(), Demote(room, actor, target));
      if (room, actor) !in roles || roles[(room, actor)] == Member { return Some(Forbidden); }
      var actorRole := roles[(room, actor)];
      if (room, target) !in roles { return Some(NotFound); }
      if roles[(room, target)] == Owner { return Some(Forbidden); }
      if roles[(room, target)] != Admin { return Some(Conflict); }
      if actorRole == Admin && target == actor { return Some(Forbidden); }
      roles := roles[(room, target) := Member];
      error := None;
    }

    /** The ban row is looked at only after the membership is gone, so giving up must undo that. */
    method TryCreateBan(room: RoomId, actor: UserId, target: UserId) returns (error: Option<Error>)
      modifies this
      ensures Committed(old(View()), Rooms.CreateBan(old(View()), room, actor, target), View(), error)
    {
      error := ModerationRefusal(Db(rooms, roles, bans, invitations, readStates), room, actor, target);
      if error.Some? { return; }
      var savedRoles, savedReadStates := roles, readStates;
      roles := roles - {(room, target)};
      readStates := readStates - {(room, target)};
      if (room, target) in bans && bans[(room, target)] {
        roles, readStates := savedRoles, savedReadStates;
        return Some(Conflict);
      }
      bans := bans[(room, target) := true];
    }

    /** In a valid database there is never anything to undo: the target is not banned yet. */
    method CreateBan(room: RoomId, actor: UserId, target: UserId) returns (error: Option<Error>)
      requires Valid()
      modifies this
      ensures Valid()
      ensures Committed(old(View()), Rooms.CreateBan(old(View()), room, actor, target), View(), error)
      ensures error != Some(Conflict)
    {
      StepKeepsInvariant(View(), Ban(room, actor, target));
      MembersAreNotBanned(View(), room, actor, target);
      hide Invariant, Rooms.CreateBan;
      error := TryCreateBan(room, actor, target);
    }

    method RemoveBan(room: RoomId, actor: UserId, target: UserId) returns (error: Option<Error>)
      requires Valid()
      modifies this
      ensures Valid()
      ensures Committed(old(View()), Rooms.RemoveBan(old(View()), room, actor, target), View(), error)
    {
      StepKeepsInvariant(View(), Unban(room, actor, target));
      if (room, actor) !in roles || roles[(room, actor)] == Member { return Some(Forbidden); }
      if (room, target) !in bans || !bans[(room, target)] { return Some(NotFound); }
      bans := bans[(room, target) := false];
      error := None;
    }

    method MarkRead(room: RoomId, user: UserId) returns (error: Option<Error>)
      requires Valid()
      modifies this
      ensures Valid()
      ensures Committed(old(View()), Rooms.MarkRead(old(View()), room, user), View(), error)
    {
      StepKeepsInvariant(View(), Read(room, user));
      if (room, user) !in roles { return Some(NotFound); }
      if (room, user) in bans && bans[(room, user)] { return Some(NotFound); }
      readStates := readStates + {(room, user)};
      error := None;
    }
  }
}
