/**
 The room transactions: rooms, memberships and roles, bans, invitations and read states. Each
 function is one transaction; a failure stands for a raised exception, which rolls everything back.
 */
module Rooms {
  import opened Common

  type UserId = nat
  type RoomId = nat
  type InvitationId = nat

  datatype Visibility = Public | Private
  datatype Role = Owner | Admin | Member
  datatype Room = Room(visibility: Visibility, owner: UserId)
  datatype InvitationStatus = Pending | Accepted | Rejected
  datatype Invitation = Invitation(room: RoomId, invited: UserId, inviter: UserId, status: InvitationStatus)
  datatype Error = NotFound | Forbidden | Conflict | Invalid

  /** A ban row stays when the ban is lifted; its value says whether it is in force. */
  datatype Db = Db(
    rooms: map<RoomId, Room>,
    roles: map<(RoomId, UserId), Role>,
    bans: map<(RoomId, UserId), bool>,
    invitations: map<InvitationId, Invitation>,
    readStates: set<(RoomId, UserId)>)
  {
    predicate IsMember(room: RoomId, user: UserId) { (room, user) in roles }

    predicate IsBanned(room: RoomId, user: UserId) { (room, user) in bans && bans[(room, user)] }

    predicate IsAdminOrOwner(room: RoomId, user: UserId) {
      (room, user) in roles && roles[(room, user)] != Member
    }
  }

  // ----- Access checks -----

  function RequireRoomMember(db: Db, room: RoomId, user: UserId): Option<Error> {
    if db.IsMember(room, user) then None else Some(NotFound)
  }

  function RequireRoomMessageAccess(db: Db, room: RoomId, user: UserId): Option<Error> {
    var refusal := RequireRoomMember(db, room, user);
    if refusal.Some? then refusal
    else if db.IsBanned(room, user) then Some(NotFound)
    else None
  }

  /** What a moderation action on a member needs. */
  function ModerationRefusal(db: Db, room: RoomId, actor: UserId, target: UserId): Option<Error> {
    if !db.IsAdminOrOwner(room, actor) then Some(Forbidden)
    else if !db.IsMember(room, target) then Some(NotFound)
    else if db.roles[(room, target)] == Owner then Some(Forbidden)
    else if db.roles[(room, actor)] == Admin && db.roles[(room, target)] == Admin then Some(Forbidden)
    else None
  }

  // ----- Transactions -----

  function CreateRoom(db: Db, owner: UserId, visibility: Visibility, room: RoomId): Result<Db, Error> {
    if room in db.rooms then Failure(Conflict)
    else Success(db.(rooms := db.rooms[room := Room(visibility, owner)],
                     roles := db.roles[(room, owner) := Owner]))
  }

  function UpdateRoom(db: Db, room: RoomId, actor: UserId, visibility: Option<Visibility>): Result<Db, Error> {
    if room !in db.rooms then Failure(NotFound)
    else if db.rooms[room].owner != actor then Failure(Forbidden)
    else Success(if visibility.None? then db
                 else db.(rooms := db.rooms[room := db.rooms[room].(visibility := visibility.value)]))
  }

  /** Deleting the room row takes every row that refers to it along. */
  function WithoutRoom(db: Db, room: RoomId): Db {
    Db(db.rooms - {room},
       map k | k in db.roles && k.0 != room :: db.roles[k],
       map k | k in db.bans && k.0 != room :: db.bans[k],
       map i | i in db.invitations && db.invitations[i].room != room :: db.invitations[i],
       set k | k in db.readStates && k.0 != room)
  }

  function DeleteRoom(db: Db, room: RoomId, actor: UserId): Result<Db, Error> {
    if room !in db.rooms then Failure(NotFound)
    else if db.rooms[room].owner != actor then Failure(Forbidden)
    else Success(WithoutRoom(db, room))
  }

  function JoinRoom(db: Db, room: RoomId, user: UserId): Result<Db, Error> {
    if room !in db.rooms then Failure(NotFound)
    else if db.rooms[room].visibility != Public then Failure(Forbidden)
    else if db.IsBanned(room, user) then Failure(Forbidden)
    else if db.IsMember(room, user) then Failure(Conflict)
    else Success(db.(roles := db.roles[(room, user) := Member]))
  }

  function LeaveRoom(db: Db, room: RoomId, user: UserId): Result<Db, Error> {
    if room !in db.rooms then Failure(NotFound)
    else if !db.IsMember(room, user) then Failure(Conflict)
    else if db.roles[(room, user)] == Owner || db.rooms[room].owner == user then Failure(Forbidden)
    else Success(db.(roles := db.roles - {(room, user)}, readStates := db.readStates - {(room, user)}))
  }

  predicate HasPending(db: Db, room: RoomId, user: UserId) {
    exists i :: i in db.invitations && db.invitations[i].room == room && db.invitations[i].invited == user
                && db.invitations[i].status == Pending
  }

  function CreateInvitation(db: Db, room: RoomId, actor: UserId, invited: UserId, id: InvitationId): Result<Db, Error> {
    if room !in db.rooms || id in db.invitations then Failure(NotFound)
    else if !db.IsAdminOrOwner(room, actor) then Failure(Forbidden)
    else if db.rooms[room].visibility != Private then Failure(Conflict)
    else if invited == actor then Failure(Invalid)
    else if db.IsBanned(room, invited) then Failure(Forbidden)
    else if db.IsMember(room, invited) then Failure(Conflict)
    else if HasPending(db, room, invited) then Failure(Conflict)
    else Success(db.(invitations := db.invitations[id := Invitation(room, invited, actor, Pending)]))
  }

  /** Membership is found or created: an existing member keeps the role they have. */
  function AcceptInvitation(db: Db, id: InvitationId, actor: UserId): Result<Db, Error> {
    if id !in db.invitations || db.invitations[id].invited != actor then Failure(NotFound)
    else if db.invitations[id].status != Pending then Failure(Conflict)
    else if db.IsBanned(db.invitations[id].room, actor) then Failure(Forbidden)
    else
      var seat := (db.invitations[id].room, actor);
      Success(db.(roles := if seat in db.roles then db.roles else db.roles[seat := Member],
                  invitations := db.invitations[id := db.invitations[id].(status := Accepted)]))
  }

  function RejectInvitation(db: Db, id: InvitationId, actor: UserId): Result<Db, Error> {
    if id !in db.invitations || db.invitations[id].invited != actor then Failure(NotFound)
    else if db.invitations[id].status != Pending then Failure(Conflict)
    else Success(db.(invitations := db.invitations[id := db.invitations[id].(status := Rejected)]))
  }

  function PromoteAdmin(db: Db, room: RoomId, actor: UserId, target: UserId): Result<Db, Error> {
    if (room, actor) !in db.roles || db.roles[(room, actor)] != Owner then Failure(Forbidden)
    else if !db.IsMember(room, target) then Failure(NotFound)
    else if db.roles[(room, target)] == Owner then Failure(Forbidden)
    else if db.roles[(room, target)] == Admin then Failure(Conflict)
    else Success(db.(roles := db.roles[(room, target) := Admin]))
  }

  function DemoteAdmin(db: Db, room: RoomId, actor: UserId, target: UserId): Result<Db, Error> {
    if !db.IsAdminOrOwner(room, actor) then Failure(Forbidden)
    else if !db.IsMember(room, target) then Failure(NotFound)
    else if db.roles[(room, target)] == Owner then Failure(Forbidden)
    else if db.roles[(room, target)] != Admin then Failure(Conflict)
    else if db.roles[(room, actor)] == Admin && target == actor then Failure(Forbidden)
    else Success(db.(roles := db.roles[(room, target) := Member]))
  }

  /** The membership and read state go first; an existing ban row is taken up again. */
  function CreateBan(db: Db, room: RoomId, actor: UserId, target: UserId): Result<Db, Error> {
    var refusal := ModerationRefusal(db, room, actor, target);
    if refusal.Some? then Failure(refusal.value)
    else if db.IsBanned(room, target) then Failure(Conflict)
    else Success(db.(roles := db.roles - {(room, target)},
                     readStates := db.readStates - {(room, target)},
                     bans := db.bans[(room, target) := true]))
  }

  function RemoveBan(db: Db, room: RoomId, actor: UserId, target: UserId): Result<Db, Error> {
    if !db.IsAdminOrOwner(room, actor) then Failure(Forbidden)
    else if !db.IsBanned(room, target) then Failure(NotFound)
    else Success(db.(bans := db.bans[(room, target) := false]))
  }

  function MarkRead(db: Db, room: RoomId, user: UserId): Result<Db, Error> {
    var refusal := RequireRoomMessageAccess(db, room, user);
    if refusal.Some? then Failure(refusal.value)
    else Success(db.(readStates := db.readStates + {(room, user)}))
  }

  // ----- Runs -----

  datatype Request =
    | Create(owner: UserId, visibility: Visibility, room: RoomId)
    | Update(room: RoomId, actor: UserId, change: Option<Visibility>)
    | Delete(room: RoomId, actor: UserId)
    | Join(room: RoomId, user: UserId)
    | Leave(room: RoomId, user: UserId)
    | Invite(room: RoomId, actor: UserId, invited: UserId, id: InvitationId)
    | Accept(id: InvitationId, actor: UserId)
    | Reject(id: InvitationId, actor: UserId)
    | Promote(room: RoomId, actor: UserId, target: UserId)
    | Demote(room: RoomId, actor: UserId, target: UserId)
    | Ban(room: RoomId, actor: UserId, target: UserId)
    | Unban(room: RoomId, actor: UserId, target: UserId)
    | Read(room: RoomId, user: UserId)

  function Attempt(db: Db, request: Request): Result<Db, Error> {
    match request
    case Create(owner, visibility, room) => CreateRoom(db, owner, visibility, room)
    case Update(room, actor, change) => UpdateRoom(db, room, actor, change)
    case Delete(room, actor) => DeleteRoom(db, room, actor)
    case Join(room, user) => JoinRoom(db, room, user)
    case Leave(room, user) => LeaveRoom(db, room, user)
    case Invite(room, actor, invited, id) => CreateInvitation(db, room, actor, invited, id)
    case Accept(id, actor) => AcceptInvitation(db, id, actor)
    case Reject(id, actor) => RejectInvitation(db, id, actor)
    case Promote(room, actor, target) => PromoteAdmin(db, room, actor, target)
    case Demote(room, actor, target) => DemoteAdmin(db, room, actor, target)
    case Ban(room, actor, target) => CreateBan(db, room, actor, target)
    case Unban(room, actor, target) => RemoveBan(db, room, actor, target)
    case Read(room, user) => MarkRead(db, room, user)
  }

  /** A refused request changes nothing. */
  function Step(db: Db, request: Request): Db {
    match Attempt(db, request)
    case Success(db') => db'
    case Failure(_) => db
  }

  function Run(db: Db, requests: seq<Request>): Db
    decreases |requests|
  {
    if requests == [] then db else Run(Step(db, requests[0]), requests[1..])
  }

  const EMPTY := Db(map[], map[], map[], map[], {})

  // ----- The joint invariant -----

  ghost predicate OneOwner(rooms: map<RoomId, Room>, roles: map<(RoomId, UserId), Role>) {
    && (forall r :: r in rooms ==> (r, rooms[r].owner) in roles && roles[(r, rooms[r].owner)] == Owner)
    && (forall r, u :: (r, u) in roles ==> r in rooms && (roles[(r, u)] == Owner ==> rooms[r].owner == u))
  }

  ghost predicate BannedAreOut(db: Db) {
    forall r: RoomId, u: UserId :: db.IsBanned(r, u) ==> r in db.rooms && (r, u) !in db.roles
  }

  ghost predicate ReadersAreMembers(db: Db) {
    db.readStates <= db.roles.Keys
  }

  /** Two pending invitations of one user to one room. */
  predicate Rivals(db: Db, i: InvitationId, j: InvitationId) {
    && i in db.invitations && j in db.invitations
    && db.invitations[i].status == Pending && db.invitations[j].status == Pending
    && db.invitations[i].room == db.invitations[j].room && db.invitations[i].invited == db.invitations[j].invited
  }

  ghost predicate OnePending(db: Db) {
    && (forall i :: i in db.invitations ==> db.invitations[i].room in db.rooms)
    && (forall i, j :: Rivals(db, i, j) ==> i == j)
  }

  ghost predicate Invariant(db: Db) {
    OneOwner(db.rooms, db.roles) && BannedAreOut(db) && ReadersAreMembers(db) && OnePending(db)
  }

  lemma SeatingKeepsOwners(rooms: map<RoomId, Room>, roles: map<(RoomId, UserId), Role>, seat: (RoomId, UserId), role: Role)
    requires OneOwner(rooms, roles) && seat.0 in rooms && role != Owner
    requires seat in roles ==> roles[seat] != Owner
    ensures OneOwner(rooms, roles[seat := role])
  {
  }

  lemma LeavingKeepsOwners(rooms: map<RoomId, Room>, roles: map<(RoomId, UserId), Role>, seat: (RoomId, UserId))
    requires OneOwner(rooms, roles) && (seat in roles ==> roles[seat] != Owner)
    ensures OneOwner(rooms, roles - {seat})
  {
  }

  lemma StepKeepsOwners(db: Db, request: Request)
    requires OneOwner(db.rooms, db.roles) && OnePending(db)
    ensures OneOwner(Step(db, request).rooms, Step(db, request).roles)
  {
    match request
    case Create(_, _, _) =>
    case Update(_, _, _) =>
    case Delete(_, _) =>
    case _ =>
      assert forall seat :: seat in db.roles ==> seat == (seat.0, seat.1) && seat.0 in db.rooms;
      if Attempt(db, request).Success? {
        SeatsKeepOwners(db, request);
      }
  }

  /** The requests that change memberships, once they are let through. */
  lemma SeatsKeepOwners(db: Db, request: Request)
    requires OneOwner(db.rooms, db.roles) && OnePending(db) && Attempt(db, request).Success?
    requires forall seat :: seat in db.roles ==> seat.0 in db.rooms
    requires !request.Create? && !request.Update? && !request.Delete?
    ensures OneOwner(Step(db, request).rooms, Step(db, request).roles)
  {
    hide OneOwner;
    match request
    case Join(room, user) => SeatingKeepsOwners(db.rooms, db.roles, (room, user), Member);
    case Leave(room, user) => LeavingKeepsOwners(db.rooms, db.roles, (room, user));
    case Accept(id, actor) =>
      if (db.invitations[id].room, actor) !in db.roles {
        SeatingKeepsOwners(db.rooms, db.roles, (db.invitations[id].room, actor), Member);
      }
    case Promote(room, _, target) => SeatingKeepsOwners(db.rooms, db.roles, (room, target), Admin);
    case Demote(room, _, target) => SeatingKeepsOwners(db.rooms, db.roles, (room, target), Member);
    case Ban(room, _, target) => LeavingKeepsOwners(db.rooms, db.roles, (room, target));
    case _ =>
  }

  lemma StepKeepsBannedOut(db: Db, request: Request)
    requires OneOwner(db.rooms, db.roles) && BannedAreOut(db)
    ensures BannedAreOut(Step(db, request))
  {
  }

  lemma StepKeepsReaders(db: Db, request: Request)
    requires ReadersAreMembers(db)
    ensures ReadersAreMembers(Step(db, request))
  {
  }

  lemma StepKeepsPending(db: Db, request: Request)
    requires OnePending(db)
    ensures OnePending(Step(db, request))
  {
    var db' := Step(db, request);
    forall i, j | Rivals(db', i, j) ensures i == j {
      if Rivals(db, i, j) {
      }
    }
  }

  lemma StepKeepsInvariant(db: Db, request: Request)
    requires Invariant(db)
    ensures Invariant(Step(db, request))
  {
    hide Step, OneOwner, BannedAreOut, ReadersAreMembers, OnePending;
    StepKeepsOwners(db, request);
    StepKeepsBannedOut(db, request);
    StepKeepsReaders(db, request);
    StepKeepsPending(db, request);
  }

  lemma {:induction false} RunKeepsInvariant(db: Db, requests: seq<Request>)
    requires Invariant(db)
    ensures Invariant(Run(db, requests))
    decreases |requests|
  {
    if requests != [] {
      StepKeepsInvariant(db, requests[0]);
      RunKeepsInvariant(Step(db, requests[0]), requests[1..]);
    }
  }

  // ----- What follows in every reachable state -----

  /** Each room has exactly one OWNER membership, and it is its owner's. */
  lemma ExactlyOneOwner(requests: seq<Request>, room: RoomId, user: UserId)
    requires room in Run(EMPTY, requests).rooms
    ensures var db := Run(EMPTY, requests);
            (room, user) in db.roles && db.roles[(room, user)] == Owner <==> user == db.rooms[room].owner
  {
    RunKeepsInvariant(EMPTY, requests);
  }

  /** The ban check after the membership check never decides anything. */
  lemma BanCheckIsRedundant(requests: seq<Request>, room: RoomId, user: UserId)
    ensures RequireRoomMessageAccess(Run(EMPTY, requests), room, user) == RequireRoomMember(Run(EMPTY, requests), room, user)
  {
    RunKeepsInvariant(EMPTY, requests);
  }

  lemma MembersAreNotBanned(db: Db, room: RoomId, actor: UserId, target: UserId)
    requires Invariant(db)
    ensures CreateBan(db, room, actor, target) != Failure(Conflict)
    ensures CreateBan(db, room, actor, target).Success? <==> ModerationRefusal(db, room, actor, target) == None
  {
  }

  /** Banning never finds the user banned already: it succeeds exactly when moderation is allowed. */
  lemma AlreadyBannedIsUnreachable(requests: seq<Request>, room: RoomId, actor: UserId, target: UserId)
    ensures var db := Run(EMPTY, requests);
            && CreateBan(db, room, actor, target) != Failure(Conflict)
            && (CreateBan(db, room, actor, target).Success? <==> ModerationRefusal(db, room, actor, target) == None)
  {
    RunKeepsInvariant(EMPTY, requests);
    MembersAreNotBanned(Run(EMPTY, requests), room, actor, target);
  }

  /** Accepting an invitation always leaves a member, and never changes the role of one who was. */
  lemma AcceptingKeepsRoles(requests: seq<Request>, id: InvitationId, actor: UserId)
    ensures var db := Run(EMPTY, requests);
            match AcceptInvitation(db, id, actor)
            case Failure(_) => true
            case Success(db') =>
              && (db.invitations[id].room, actor) in db'.roles
              && (forall seat :: seat in db.roles ==> seat in db'.roles && db'.roles[seat] == db.roles[seat])
              && (forall seat :: seat in db'.roles && seat !in db.roles ==> db'.roles[seat] == Member)
              && Invariant(db')
  {
    RunKeepsInvariant(EMPTY, requests);
    StepKeepsInvariant(Run(EMPTY, requests), Accept(id, actor));
  }

  lemma StepKeepsOwner(db: Db, request: Request, room: RoomId)
    requires room in db.rooms && !(request.Delete? && request.room == room)
    ensures room in Step(db, request).rooms && Step(db, request).rooms[room].owner == db.rooms[room].owner
  {
  }

  /** Unless the room is deleted, its owner never changes. */
  lemma {:induction false} OwnerIsForever(db: Db, requests: seq<Request>, room: RoomId)
    requires room in db.rooms
    requires forall actor :: Delete(room, actor) !in requests
    ensures room in Run(db, requests).rooms && Run(db, requests).rooms[room].owner == db.rooms[room].owner
    decreases |requests|
  {
    hide Step;
    if requests != [] {
      assert requests[0] in requests;
      StepKeepsOwner(db, requests[0], room);
      OwnerIsForever(Step(db, requests[0]), requests[1..], room);
    }
  }

  lemma StepKeepsBan(db: Db, request: Request, room: RoomId, user: UserId)
    requires db.IsBanned(room, user) && !(request.Delete? && request.room == room)
    requires !(request.Unban? && request.room == room && request.target == user)
    ensures Step(db, request).IsBanned(room, user)
  {
  }

  /** Only lifting the ban, or deleting the room, lets a banned user back in. */
  lemma {:induction false} BanHolds(db: Db, requests: seq<Request>, room: RoomId, user: UserId)
    requires Invariant(db) && db.IsBanned(room, user)
    requires forall actor :: Unban(room, actor, user) !in requests && Delete(room, actor) !in requests
    ensures Run(db, requests).IsBanned(room, user) && !Run(db, requests).IsMember(room, user)
    decreases |requests|
  {
    hide Step;
    if requests == [] {
      assert BannedAreOut(db);
    } else {
      assert requests[0] in requests;
      StepKeepsInvariant(db, requests[0]);
      StepKeepsBan(db, requests[0], room, user);
      hide Invariant;
      BanHolds(Step(db, requests[0]), requests[1..], room, user);
    }
  }

  // ----- Who may change a membership: one step -----

  /** Owners moderate everybody else, admins only plain members. */
  predicate Outranks(actor: Role, target: Role) {
    (actor == Owner && target != Owner) || (actor == Admin && target == Member)
  }

  /** A way into a room: creating it, joining a public one, or accepting an open invitation; not past a ban. */
  predicate Enters(db: Db, request: Request, room: RoomId, user: UserId) {
    match request
    case Create(owner, _, r) => owner == user && r == room && room !in db.rooms
    case Join(r, u) =>
      r == room && u == user && room in db.rooms && db.rooms[room].visibility == Public && !db.IsBanned(room, user)
    case Accept(id, actor) =>
      && actor == user && id in db.invitations && !db.IsBanned(room, user)
      && db.invitations[id].room == room && db.invitations[id].invited == user && db.invitations[id].status == Pending
    case _ => false
  }

  lemma MembersComeByTheirOwnAct(db: Db, request: Request, room: RoomId, user: UserId)
    requires !db.IsMember(room, user) && Step(db, request).IsMember(room, user)
    ensures Enters(db, request, room, user)
    ensures Step(db, request).roles[(room, user)] == if request.Create? then Owner else Member
  {
  }

  /** A way out: the holder leaves, somebody who outranks them bans them, or the owner deletes the room. */
  predicate Exits(db: Db, request: Request, room: RoomId, user: UserId) {
    match request
    case Leave(r, u) => r == room && u == user && room in db.rooms && db.rooms[room].owner != user
    case Ban(r, actor, target) =>
      && r == room && target == user && db.IsMember(room, actor) && db.IsMember(room, user)
      && Outranks(db.roles[(room, actor)], db.roles[(room, user)])
    case Delete(r, actor) => r == room && room in db.rooms && actor == db.rooms[room].owner
    case _ => false
  }

  lemma MembersGoByRightfulActs(db: Db, request: Request, room: RoomId, user: UserId)
    requires Invariant(db) && db.IsMember(room, user) && !Step(db, request).IsMember(room, user)
    ensures Exits(db, request, room, user)
    ensures request.Ban? ==> Step(db, request).IsBanned(room, user)
  {
  }

  /** Roles move only between member and admin: up by the owner, down by another admin or the owner. */
  lemma RolesMoveByRightfulActs(db: Db, request: Request, room: RoomId, user: UserId)
    requires Invariant(db) && db.IsMember(room, user) && Step(db, request).IsMember(room, user)
    requires Step(db, request).roles[(room, user)] != db.roles[(room, user)]
    ensures match request
            case Promote(r, actor, target) =>
              && r == room && target == user && actor == db.rooms[room].owner
              && db.roles[(room, user)] == Member && Step(db, request).roles[(room, user)] == Admin
            case Demote(r, actor, target) =>
              && r == room && target == user && db.IsAdminOrOwner(room, actor) && actor != user
              && db.roles[(room, user)] == Admin && Step(db, request).roles[(room, user)] == Member
            case _ => false
  {
  }

  /** A room changes or goes by its owner's act only. */
  lemma RoomsChangeByTheirOwner(db: Db, request: Request, room: RoomId)
    requires room in db.rooms && room in Step(db, request).rooms && Step(db, request).rooms[room] != db.rooms[room]
    ensures Step(db, request).rooms[room].owner == db.rooms[room].owner
    ensures request == Update(room, db.rooms[room].owner, Some(Step(db, request).rooms[room].visibility))
  {
  }

  lemma RoomsComeFromTheirOwner(db: Db, request: Request, room: RoomId)
    requires room !in db.rooms && room in Step(db, request).rooms
    ensures request == Create(Step(db, request).rooms[room].owner, Step(db, request).rooms[room].visibility, room)
  {
  }

  /** Invitations come from admins of private rooms, to outsiders without a ban or an open invitation. */
  lemma InvitationsComeFromAdmins(db: Db, request: Request, id: InvitationId)
    requires id !in db.invitations && id in Step(db, request).invitations
    ensures var i := Step(db, request).invitations[id];
            && request == Invite(i.room, i.inviter, i.invited, id) && i.status == Pending
            && i.room in db.rooms && db.rooms[i.room].visibility == Private
            && db.IsAdminOrOwner(i.room, i.inviter)
            && !db.IsMember(i.room, i.invited) && !db.IsBanned(i.room, i.invited) && !HasPending(db, i.room, i.invited)
  {
  }

  /** An invitation is answered once, by the invited user. */
  lemma InvitationsAreAnsweredByTheInvited(db: Db, request: Request, id: InvitationId)
    requires id in db.invitations && id in Step(db, request).invitations
    requires Step(db, request).invitations[id] != db.invitations[id]
    ensures db.invitations[id].status == Pending
    ensures request == Accept(id, db.invitations[id].invited) || request == Reject(id, db.invitations[id].invited)
    ensures Step(db, request).invitations[id] == db.invitations[id].(status := if request.Accept? then Accepted else Rejected)
  {
  }

  /** Bans are lifted by admins, or vanish with the room. */
  lemma BansEndByRightfulActs(db: Db, request: Request, room: RoomId, user: UserId)
    requires Invariant(db) && room in db.rooms && db.IsBanned(room, user) && !Step(db, request).IsBanned(room, user)
    ensures request == Delete(room, db.rooms[room].owner) ||
            (request.Unban? && request.room == room && request.target == user && db.IsAdminOrOwner(room, request.actor))
  {
  }

  // ----- Who may change a membership: whole runs -----

  /** The state after the first k requests. */
  function At(requests: seq<Request>, k: nat): Db
    requires k <= |requests|
  {
    Run(EMPTY, requests[..k])
  }

  lemma {:induction false} RunExtends(db: Db, requests: seq<Request>, request: Request)
    ensures Run(db, requests + [request]) == Step(Run(db, requests), request)
    decreases |requests|
  {
    if requests == [] {
      assert requests + [request] == [request] && [request][1..] == [];
    } else {
      assert (requests + [request])[1..] == requests[1..] + [request];
      RunExtends(Step(db, requests[0]), requests[1..], request);
    }
  }

  lemma AtStart(requests: seq<Request>)
    ensures At(requests, 0) == EMPTY
  {
    assert requests[..0] == [];
  }

  lemma AtNext(requests: seq<Request>, k: nat)
    requires k < |requests|
    ensures At(requests, k + 1) == Step(At(requests, k), requests[k]) && Invariant(At(requests, k))
  {
    assert requests[..k + 1] == requests[..k] + [requests[k]];
    RunExtends(EMPTY, requests[..k], requests[k]);
    RunKeepsInvariant(EMPTY, requests[..k]);
  }

  /**
   Whoever is a member got in by an act of their own and has stayed since: they created the room,
   joined it while it was public, or accepted an invitation, and were not banned at that moment.
   */
  lemma {:induction false} MembersEnteredThemselves(requests: seq<Request>, room: RoomId, user: UserId, n: nat) returns (k: nat)
    requires n <= |requests| && At(requests, n).IsMember(room, user)
    ensures k < n && Enters(At(requests, k), requests[k], room, user)
    ensures forall j :: k < j <= n ==> At(requests, j).IsMember(room, user)
  {
    hide Step, Enters, Invariant;
    AtStart(requests);
    if n > 0 {
      AtNext(requests, n - 1);
      if At(requests, n - 1).IsMember(room, user) {
        k := MembersEnteredThemselves(requests, room, user, n - 1);
      } else {
        MembersComeByTheirOwnAct(At(requests, n - 1), requests[n - 1], room, user);
        k := n - 1;
      }
    }
  }

  /** Every invitation was issued by somebody who was then an admin or the owner of a private room. */
  lemma {:induction false} InvitationsWereIssuedByAdmins(requests: seq<Request>, id: InvitationId, n: nat) returns (k: nat)
    requires n <= |requests| && id in At(requests, n).invitations
    ensures k < n && requests[k].Invite? && requests[k].id == id
    ensures var i := At(requests, n).invitations[id];
            && requests[k] == Invite(i.room, i.inviter, i.invited, id)
            && i.room in At(requests, k).rooms && At(requests, k).rooms[i.room].visibility == Private
            && At(requests, k).IsAdminOrOwner(i.room, i.inviter) && !At(requests, k).IsBanned(i.room, i.invited)
  {
    hide Step, Invariant;
    AtStart(requests);
    if n > 0 {
      AtNext(requests, n - 1);
      if id in At(requests, n - 1).invitations {
        k := InvitationsWereIssuedByAdmins(requests, id, n - 1);
        if At(requests, n).invitations[id] != At(requests, n - 1).invitations[id] {
          InvitationsAreAnsweredByTheInvited(At(requests, n - 1), requests[n - 1], id);
        }
      } else {
        InvitationsComeFromAdmins(At(requests, n - 1), requests[n - 1], id);
        k := n - 1;
      }
    }
  }

  /** Whoever is an admin was promoted by the room's owner and has stayed one since. */
  lemma {:induction false} AdminsWerePromotedByTheOwner(requests: seq<Request>, room: RoomId, user: UserId, n: nat) returns (k: nat)
    requires n <= |requests| && At(requests, n).IsMember(room, user) && At(requests, n).roles[(room, user)] == Admin
    ensures k < n && room in At(requests, k).rooms
    ensures requests[k] == Promote(room, At(requests, k).rooms[room].owner, user)
    ensures forall j :: k < j <= n ==> At(requests, j).IsMember(room, user) && At(requests, j).roles[(room, user)] == Admin
  {
    hide Step, Invariant;
    AtStart(requests);
    if n > 0 {
      AtNext(requests, n - 1);
      var before := At(requests, n - 1);
      if !before.IsMember(room, user) {
        MembersComeByTheirOwnAct(before, requests[n - 1], room, user);
        assert false;
      } else if before.roles[(room, user)] == Admin {
        k := AdminsWerePromotedByTheOwner(requests, room, user, n - 1);
      } else {
        RolesMoveByRightfulActs(before, requests[n - 1], room, user);
        MembersHaveARoom(before, room, user);
        k := n - 1;
      }
    }
  }

  lemma MembersHaveARoom(db: Db, room: RoomId, user: UserId)
    requires Invariant(db) && db.IsMember(room, user)
    ensures room in db.rooms
  {
  }

  /** Whoever was a member once and is none at the end went in one of the three rightful ways. */
  lemma {:induction false} FormerMembersExitedRightfully(requests: seq<Request>, room: RoomId, user: UserId, from: nat, n: nat) returns (k: nat)
    requires from <= n <= |requests|
    requires At(requests, from).IsMember(room, user) && !At(requests, n).IsMember(room, user)
    ensures from <= k < n && Exits(At(requests, k), requests[k], room, user)
    decreases n
  {
    hide Step, Exits, Invariant;
    AtNext(requests, n - 1);
    if At(requests, n - 1).IsMember(room, user) {
      MembersGoByRightfulActs(At(requests, n - 1), requests[n - 1], room, user);
      k := n - 1;
    } else {
      k := FormerMembersExitedRightfully(requests, room, user, from, n - 1);
    }
  }

  /** A ban that is no longer in force was lifted by somebody who was then an admin, or went with the room. */
  lemma {:induction false} LiftedBansWereLiftedByAdmins(requests: seq<Request>, room: RoomId, user: UserId, from: nat, n: nat) returns (k: nat)
    requires from <= n <= |requests| && room in At(requests, from).rooms
    requires At(requests, from).IsBanned(room, user) && !At(requests, n).IsBanned(room, user)
    ensures from <= k < n && room in At(requests, k).rooms
    ensures requests[k] == Delete(room, At(requests, k).rooms[room].owner) ||
            (requests[k].Unban? && requests[k] == Unban(room, requests[k].actor, user) && At(requests, k).IsAdminOrOwner(room, requests[k].actor))
    decreases n - from
  {
    hide Step, Invariant;
    AtNext(requests, from);
    var now := At(requests, from);
    if !At(requests, from + 1).IsBanned(room, user) {
      BansEndByRightfulActs(now, requests[from], room, user);
      k := from;
    } else {
      if room !in At(requests, from + 1).rooms {
        GoneRoomsHaveNoBans(now, requests[from], room, user);
      }
      k := LiftedBansWereLiftedByAdmins(requests, room, user, from + 1, n);
    }
  }

  lemma GoneRoomsHaveNoBans(db: Db, request: Request, room: RoomId, user: UserId)
    requires room in db.rooms && room !in Step(db, request).rooms
    ensures !Step(db, request).IsBanned(room, user)
  {
  }

  /**
   A room's visibility is what its owner chose last, when creating or updating it, and owner and
   visibility have stood since.
   */
  lemma {:induction false} VisibilityIsTheOwnersChoice(requests: seq<Request>, room: RoomId, n: nat) returns (k: nat)
    requires n <= |requests| && room in At(requests, n).rooms
    ensures var now := At(requests, n).rooms[room];
            && k < n
            && (requests[k] == Create(now.owner, now.visibility, room) || requests[k] == Update(room, now.owner, Some(now.visibility)))
            && forall j :: k < j <= n ==> room in At(requests, j).rooms && At(requests, j).rooms[room] == now
  {
    hide Step, Invariant;
    AtStart(requests);
    if n > 0 {
      AtNext(requests, n - 1);
      var before := At(requests, n - 1);
      if room !in before.rooms {
        RoomsComeFromTheirOwner(before, requests[n - 1], room);
        k := n - 1;
      } else if At(requests, n).rooms[room] != before.rooms[room] {
        RoomsChangeByTheirOwner(before, requests[n - 1], room);
        k := n - 1;
      } else {
        k := VisibilityIsTheOwnersChoice(requests, room, n - 1);
      }
    }
  }
}
