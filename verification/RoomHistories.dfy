/**
 What the rooms hold after any run, read off the requests that were made: memberships, roles, bans,
 visibility, invitations and read states, each since the request that set it and until one that ends it.
 */
module RoomHistories {
  import opened Common
  import opened Histories
  import opened Rooms

  // ----- What begins and ends each thing -----

  predicate OwnedBy(db: Db, room: RoomId, user: UserId) {
    room in db.rooms && db.rooms[room].owner == user
  }

  predicate IsAdmin(db: Db, room: RoomId, user: UserId) {
    db.IsMember(room, user) && db.roles[(room, user)] == Admin
  }

  predicate HasVisibility(db: Db, room: RoomId, visibility: Visibility) {
    room in db.rooms && db.rooms[room].visibility == visibility
  }

  /** The owner makes a plain member an admin. */
  predicate Promotes(db: Db, request: Request, room: RoomId, user: UserId) {
    && request.Promote? && request.room == room && request.target == user && OwnedBy(db, room, request.actor)
    && db.IsMember(room, user) && db.roles[(room, user)] == Member
  }

  /** The owner or another admin makes an admin a plain member. */
  predicate Demotes(db: Db, request: Request, room: RoomId, user: UserId) {
    && request.Demote? && request.room == room && request.target == user && request.actor != user
    && (OwnedBy(db, room, request.actor) || IsAdmin(db, room, request.actor)) && IsAdmin(db, room, user)
  }

  predicate BansUser(db: Db, request: Request, room: RoomId, user: UserId) {
    request.Ban? && Exits(db, request, room, user)
  }

  predicate LiftsBan(db: Db, request: Request, room: RoomId, user: UserId) {
    (request.Unban? && request.room == room && request.target == user && db.IsAdminOrOwner(room, request.actor))
    || (request.Delete? && request.room == room && OwnedBy(db, room, request.actor))
  }

  /** The owner gives the room this visibility, in creating it or later. */
  predicate Shows(db: Db, request: Request, room: RoomId, visibility: Visibility) {
    (room !in db.rooms && request.Create? && request.room == room && request.visibility == visibility)
    || (request.Update? && request.room == room && OwnedBy(db, room, request.actor) && request.change == Some(visibility))
  }

  predicate StopsShowing(db: Db, request: Request, room: RoomId, visibility: Visibility) {
    (request.Update? && request.room == room && OwnedBy(db, room, request.actor)
     && request.change.Some? && request.change.value != visibility)
    || (request.Delete? && request.room == room && OwnedBy(db, room, request.actor))
  }

  /** An invitation comes to be what it is: issued, accepted or rejected. */
  predicate Settles(db: Db, request: Request, id: InvitationId, i: Invitation) {
    match i.status
    case Pending =>
      && request == Invite(i.room, i.inviter, i.invited, id) && id !in db.invitations
      && i.room in db.rooms && db.rooms[i.room].visibility == Private && db.IsAdminOrOwner(i.room, i.inviter)
      && !db.IsMember(i.room, i.invited) && !db.IsBanned(i.room, i.invited)
      && forall other :: other in db.invitations && db.invitations[other].room == i.room && db.invitations[other].invited == i.invited
                         ==> db.invitations[other].status != Pending
    case Accepted =>
      request == Accept(id, i.invited) && id in db.invitations && db.invitations[id] == i.(status := Pending)
      && !db.IsBanned(i.room, i.invited)
    case Rejected =>
      request == Reject(id, i.invited) && id in db.invitations && db.invitations[id] == i.(status := Pending)
  }

  predicate Unsettles(db: Db, request: Request, id: InvitationId, i: Invitation) {
    (request.Delete? && request.room == i.room && OwnedBy(db, i.room, request.actor))
    || (i.status == Pending && ((request == Accept(id, i.invited) && !db.IsBanned(i.room, i.invited))
                                || request == Reject(id, i.invited)))
  }

  predicate Reads(db: Db, request: Request, room: RoomId, user: UserId) {
    request == Read(room, user) && db.IsMember(room, user)
  }

  // ----- One step -----

  lemma MembershipNext(db: Db, request: Request, room: RoomId, user: UserId)
    requires Invariant(db)
    ensures Step(db, request).IsMember(room, user) <==>
            Enters(db, request, room, user) || (db.IsMember(room, user) && !Exits(db, request, room, user))
  {
    hide OnePending, ReadersAreMembers;
  }

  lemma PromotingNext(db: Db, request: Request, room: RoomId, user: UserId)
    requires Invariant(db) && (request.Promote? || request.Demote?)
    ensures IsAdmin(Step(db, request), room, user) <==>
            Promotes(db, request, room, user) || (IsAdmin(db, room, user) && !Demotes(db, request, room, user))
  {
    hide BannedAreOut, OnePending, ReadersAreMembers;
  }

  lemma AdminNext(db: Db, request: Request, room: RoomId, user: UserId)
    requires Invariant(db)
    ensures IsAdmin(Step(db, request), room, user) <==>
            Promotes(db, request, room, user)
            || (IsAdmin(db, room, user) && !Demotes(db, request, room, user) && !Exits(db, request, room, user))
  {
    if request.Promote? || request.Demote? {
      PromotingNext(db, request, room, user);
      hide Step, Promotes, Demotes, Invariant;
    } else {
      hide OnePending, ReadersAreMembers;
    }
  }

  lemma OwnershipNext(db: Db, request: Request, room: RoomId, user: UserId)
    ensures OwnedBy(Step(db, request), room, user) <==>
            (room !in db.rooms && request.Create? && request.room == room && request.owner == user)
            || (OwnedBy(db, room, user) && request != Delete(room, user))
  {
  }

  lemma BanNext(db: Db, request: Request, room: RoomId, user: UserId)
    requires Invariant(db)
    ensures Step(db, request).IsBanned(room, user) <==>
            BansUser(db, request, room, user) || (db.IsBanned(room, user) && !LiftsBan(db, request, room, user))
  {
    hide OnePending, ReadersAreMembers;
  }

  lemma VisibilityNext(db: Db, request: Request, room: RoomId, visibility: Visibility)
    ensures HasVisibility(Step(db, request), room, visibility) <==>
            Shows(db, request, room, visibility)
            || (HasVisibility(db, room, visibility) && !StopsShowing(db, request, room, visibility))
  {
  }

  predicate HasInvitation(db: Db, id: InvitationId, i: Invitation) {
    id in db.invitations && db.invitations[id] == i
  }

  lemma AnswersNext(db: Db, request: Request, id: InvitationId, i: Invitation)
    requires request.Accept? || request.Reject?
    ensures HasInvitation(Step(db, request), id, i) <==>
            Settles(db, request, id, i) || (HasInvitation(db, id, i) && !Unsettles(db, request, id, i))
  {
  }

  lemma InvitingNext(db: Db, request: Request, id: InvitationId, i: Invitation)
    requires request.Invite? && Invariant(db)
    ensures HasInvitation(Step(db, request), id, i) <==>
            Settles(db, request, id, i) || (HasInvitation(db, id, i) && !Unsettles(db, request, id, i))
  {
    hide OneOwner, OnePending, ReadersAreMembers;
  }

  lemma InvitationNext(db: Db, request: Request, id: InvitationId, i: Invitation)
    requires Invariant(db)
    ensures HasInvitation(Step(db, request), id, i) <==>
            Settles(db, request, id, i) || (HasInvitation(db, id, i) && !Unsettles(db, request, id, i))
  {
    if request.Accept? || request.Reject? {
      AnswersNext(db, request, id, i);
      hide Step, Settles, Unsettles;
    } else if request.Invite? {
      InvitingNext(db, request, id, i);
      hide Step, Settles, Unsettles;
    } else {
      hide OneOwner, BannedAreOut, OnePending, ReadersAreMembers;
    }
  }

  lemma ReadStateNext(db: Db, request: Request, room: RoomId, user: UserId)
    requires Invariant(db)
    ensures (room, user) in Step(db, request).readStates <==>
            Reads(db, request, room, user) || ((room, user) in db.readStates && !Exits(db, request, room, user))
  {
    hide OnePending;
  }

  // ----- Which requests are granted -----

  /** A request is one for its effect: it is made by somebody who may, and there is something to do. */
  predicate Rightful(db: Db, request: Request) {
    match request
    case Create(_, _, room) => room !in db.rooms
    case Update(room, actor, _) => OwnedBy(db, room, actor)
    case Delete(room, actor) => OwnedBy(db, room, actor)
    case Join(room, user) => Enters(db, request, room, user) && !db.IsMember(room, user)
    case Leave(room, user) => db.IsMember(room, user) && !OwnedBy(db, room, user)
    case Invite(room, actor, invited, id) => Settles(db, request, id, Invitation(room, invited, actor, Pending))
    case Accept(id, actor) => id in db.invitations && Enters(db, request, db.invitations[id].room, actor)
    case Reject(id, actor) => id in db.invitations && db.invitations[id].invited == actor && db.invitations[id].status == Pending
    case Promote(room, _, target) => Promotes(db, request, room, target)
    case Demote(room, _, target) => Demotes(db, request, room, target)
    case Ban(room, _, target) => BansUser(db, request, room, target)
    case Unban(room, _, target) => LiftsBan(db, request, room, target) && db.IsBanned(room, target)
    case Read(room, user) => db.IsMember(room, user)
  }

  /** In every reachable state a request succeeds exactly when it is rightful. */
  lemma GrantedExactly(requests: seq<Request>, request: Request)
    ensures Attempt(Run(EMPTY, requests), request).Success? <==> Rightful(Run(EMPTY, requests), request)
  {
    RunKeepsInvariant(EMPTY, requests);
    hide Run;
    GrantedWhenSound(Run(EMPTY, requests), request);
    hide *;
  }

  lemma GrantedWhenSound(db: Db, request: Request)
    requires Invariant(db)
    ensures Attempt(db, request).Success? <==> Rightful(db, request)
  {
    hide OnePending, ReadersAreMembers;
  }

  // ----- What a refusal says -----

  predicate Addressed(db: Db, id: InvitationId, user: UserId) {
    id in db.invitations && db.invitations[id].invited == user
  }

  /** What the request is about is not there, as far as the one who asks may know. */
  predicate Missing(db: Db, request: Request) {
    match request
    case Create(_, _, _) => false
    case Update(room, _, _) => room !in db.rooms
    case Delete(room, _) => room !in db.rooms
    case Join(room, _) => room !in db.rooms
    case Leave(room, _) => room !in db.rooms
    case Invite(room, _, _, id) => room !in db.rooms || id in db.invitations
    case Accept(id, actor) => !Addressed(db, id, actor)
    case Reject(id, actor) => !Addressed(db, id, actor)
    case Promote(room, actor, target) => OwnedBy(db, room, actor) && !db.IsMember(room, target)
    case Demote(room, actor, target) => db.IsAdminOrOwner(room, actor) && !db.IsMember(room, target)
    case Ban(room, actor, target) => db.IsAdminOrOwner(room, actor) && !db.IsMember(room, target)
    case Unban(room, actor, target) => db.IsAdminOrOwner(room, actor) && !db.IsBanned(room, target)
    case Read(room, user) => !db.IsMember(room, user)
  }

  /** It is there, but it has been done already, or does not go with how things stand. */
  predicate Clashes(db: Db, request: Request) {
    match request
    case Create(_, _, room) => room in db.rooms
    case Join(room, user) => db.IsMember(room, user) && HasVisibility(db, room, Public)
    case Leave(room, user) => !db.IsMember(room, user)
    case Invite(room, actor, invited, _) =>
      && db.IsAdminOrOwner(room, actor)
      && (HasVisibility(db, room, Public)
          || (invited != actor && !db.IsBanned(room, invited)
              && (db.IsMember(room, invited)
                  || exists i :: i in db.invitations && db.invitations[i].room == room && db.invitations[i].invited == invited
                                 && db.invitations[i].status == Pending)))
    case Accept(id, actor) => Addressed(db, id, actor) && db.invitations[id].status != Pending
    case Reject(id, actor) => Addressed(db, id, actor) && db.invitations[id].status != Pending
    case Promote(room, actor, target) => OwnedBy(db, room, actor) && IsAdmin(db, room, target)
    case Demote(room, actor, target) => 
      db.IsAdminOrOwner(room, actor) && db.IsMember(room, target) && db.roles[(room, target)] == Member
    case _ => false
  }

  predicate InvitesThemselves(db: Db, request: Request) {
    && request.Invite? && request.invited == request.actor && db.IsAdminOrOwner(request.room, request.actor)
    && HasVisibility(db, request.room, Private)
  }

  /**
   In every reachable state a refusal says what stands in the way: not found exactly when something
   is missing, a conflict exactly when the request clashes, invalid exactly for inviting oneself, and
   otherwise that the one who asks is not allowed to.
   */
  lemma RefusalsExactly(requests: seq<Request>, request: Request)
    requires !Rightful(Run(EMPTY, requests), request)
    ensures var db := Run(EMPTY, requests);
            Attempt(db, request) == Failure(if Missing(db, request) then NotFound
                                            else if Clashes(db, request) then Conflict
                                            else if InvitesThemselves(db, request) then Invalid
                                            else Forbidden)
  {
    RunKeepsInvariant(EMPTY, requests);
    hide Run;
    RefusalsWhenSound(Run(EMPTY, requests), request);
    hide *;
  }

  lemma RefusalsWhenSound(db: Db, request: Request)
    requires Invariant(db) && !Rightful(db, request)
    ensures Attempt(db, request) == Failure(if Missing(db, request) then NotFound
                                            else if Clashes(db, request) then Conflict
                                            else if InvitesThemselves(db, request) then Invalid
                                            else Forbidden)
  {
    hide OnePending, ReadersAreMembers;
  }

  // ----- Whole runs -----

  function Entries(requests: seq<Request>, room: RoomId, user: UserId): set<nat> {
    set k | 0 <= k < |requests| && Enters(At(requests, k), requests[k], room, user)
  }

  function Departures(requests: seq<Request>, room: RoomId, user: UserId): set<nat> {
    set k | 0 <= k < |requests| && Exits(At(requests, k), requests[k], room, user)
  }

  /** The members of a room are those who entered it and have not been made to leave or left since. */
  lemma MembersExactly(requests: seq<Request>, room: RoomId, user: UserId, n: nat)
    requires n <= |requests|
    ensures At(requests, n).IsMember(room, user) <==>
            Since(Entries(requests, room, user), Departures(requests, room, user), n)
  {
    hide Invariant, Step, At;
    AtStart(requests);
    var starts, ends := Entries(requests, room, user), Departures(requests, room, user);
    var holds := set k | 0 <= k <= |requests| && At(requests, k).IsMember(room, user);
    forall k: nat | k < n ensures k + 1 in holds <==> k in starts || (k in holds && k !in ends) {
      AtNext(requests, k);
      MembershipNext(At(requests, k), requests[k], room, user);
      hide Enters, Exits;
    }
    SinceExactly(holds, starts, ends, n);
  }

  function Promotions(requests: seq<Request>, room: RoomId, user: UserId): set<nat> {
    set k | 0 <= k < |requests| && Promotes(At(requests, k), requests[k], room, user)
  }

  function AdminEnds(requests: seq<Request>, room: RoomId, user: UserId): set<nat> {
    set k | 0 <= k < |requests|
            && (Demotes(At(requests, k), requests[k], room, user) || Exits(At(requests, k), requests[k], room, user))
  }

  /** The admins are those whom the owner promoted, unless they were demoted or departed since. */
  lemma AdminsExactly(requests: seq<Request>, room: RoomId, user: UserId, n: nat)
    requires n <= |requests|
    ensures IsAdmin(At(requests, n), room, user) <==>
            Since(Promotions(requests, room, user), AdminEnds(requests, room, user), n)
  {
    hide Invariant, Step, At;
    AtStart(requests);
    var starts, ends := Promotions(requests, room, user), AdminEnds(requests, room, user);
    var holds := set k | 0 <= k <= |requests| && IsAdmin(At(requests, k), room, user);
    forall k: nat | k < n ensures k + 1 in holds <==> k in starts || (k in holds && k !in ends) {
      AtNext(requests, k);
      AdminNext(At(requests, k), requests[k], room, user);
      hide Promotes, Demotes, Exits, IsAdmin;
    }
    SinceExactly(holds, starts, ends, n);
  }

  function Creations(requests: seq<Request>, room: RoomId, user: UserId): set<nat> {
    set k | 0 <= k < |requests|
            && room !in At(requests, k).rooms && requests[k].Create? && requests[k].room == room
            && requests[k].owner == user
  }

  function Deletions(requests: seq<Request>, room: RoomId, user: UserId): set<nat> {
    set k | 0 <= k < |requests| && requests[k] == Delete(room, user)
  }

  /** A room is its creator's until they delete it. */
  lemma OwnersExactly(requests: seq<Request>, room: RoomId, user: UserId, n: nat)
    requires n <= |requests|
    ensures OwnedBy(At(requests, n), room, user) <==>
            Since(Creations(requests, room, user), Deletions(requests, room, user), n)
  {
    hide Invariant, Step, At;
    AtStart(requests);
    var starts, ends := Creations(requests, room, user), Deletions(requests, room, user);
    var holds := set k | 0 <= k <= |requests| && OwnedBy(At(requests, k), room, user);
    forall k: nat | k < n ensures k + 1 in holds <==> k in starts || (k in holds && k !in ends) {
      AtNext(requests, k);
      OwnershipNext(At(requests, k), requests[k], room, user);
      hide OwnedBy;
    }
    SinceExactly(holds, starts, ends, n);
  }

  function BansOf(requests: seq<Request>, room: RoomId, user: UserId): set<nat> {
    set k | 0 <= k < |requests| && BansUser(At(requests, k), requests[k], room, user)
  }

  function Lifts(requests: seq<Request>, room: RoomId, user: UserId): set<nat> {
    set k | 0 <= k < |requests| && LiftsBan(At(requests, k), requests[k], room, user)
  }

  /** A ban is in force since somebody of higher rank set it, until an admin lifts it or the room goes. */
  lemma BansExactly(requests: seq<Request>, room: RoomId, user: UserId, n: nat)
    requires n <= |requests|
    ensures At(requests, n).IsBanned(room, user) <==>
            Since(BansOf(requests, room, user), Lifts(requests, room, user), n)
  {
    hide Invariant, Step, At;
    AtStart(requests);
    var starts, ends := BansOf(requests, room, user), Lifts(requests, room, user);
    var holds := set k | 0 <= k <= |requests| && At(requests, k).IsBanned(room, user);
    forall k: nat | k < n ensures k + 1 in holds <==> k in starts || (k in holds && k !in ends) {
      AtNext(requests, k);
      BanNext(At(requests, k), requests[k], room, user);
      hide BansUser, LiftsBan;
    }
    SinceExactly(holds, starts, ends, n);
  }

  function Choices(requests: seq<Request>, room: RoomId, visibility: Visibility): set<nat> {
    set k | 0 <= k < |requests| && Shows(At(requests, k), requests[k], room, visibility)
  }

  function OtherChoices(requests: seq<Request>, room: RoomId, visibility: Visibility): set<nat> {
    set k | 0 <= k < |requests| && StopsShowing(At(requests, k), requests[k], room, visibility)
  }

  /** A room has the visibility its owner gave it last. */
  lemma VisibilityExactly(requests: seq<Request>, room: RoomId, visibility: Visibility, n: nat)
    requires n <= |requests|
    ensures HasVisibility(At(requests, n), room, visibility) <==>
            Since(Choices(requests, room, visibility), OtherChoices(requests, room, visibility), n)
  {
    hide Invariant, Step, At;
    AtStart(requests);
    var starts, ends := Choices(requests, room, visibility), OtherChoices(requests, room, visibility);
    var holds := set k | 0 <= k <= |requests| && HasVisibility(At(requests, k), room, visibility);
    forall k: nat | k < n ensures k + 1 in holds <==> k in starts || (k in holds && k !in ends) {
      AtNext(requests, k);
      VisibilityNext(At(requests, k), requests[k], room, visibility);
      hide Shows, StopsShowing, HasVisibility;
    }
    SinceExactly(holds, starts, ends, n);
  }

  function Settlings(requests: seq<Request>, id: InvitationId, i: Invitation): set<nat> {
    set k | 0 <= k < |requests| && Settles(At(requests, k), requests[k], id, i)
  }

  function Unsettlings(requests: seq<Request>, id: InvitationId, i: Invitation): set<nat> {
    set k | 0 <= k < |requests| && Unsettles(At(requests, k), requests[k], id, i)
  }

  /** An invitation is pending since it was issued and until it is answered; an answered one keeps its answer. */
  lemma InvitationsExactly(requests: seq<Request>, id: InvitationId, i: Invitation, n: nat)
    requires n <= |requests|
    ensures HasInvitation(At(requests, n), id, i) <==>
            Since(Settlings(requests, id, i), Unsettlings(requests, id, i), n)
  {
    hide Invariant, Step, At;
    AtStart(requests);
    var starts, ends := Settlings(requests, id, i), Unsettlings(requests, id, i);
    var holds := set k | 0 <= k <= |requests| && HasInvitation(At(requests, k), id, i);
    forall k: nat | k < n ensures k + 1 in holds <==> k in starts || (k in holds && k !in ends) {
      AtNext(requests, k);
      InvitationNext(At(requests, k), requests[k], id, i);
      hide Settles, Unsettles, HasInvitation;
    }
    SinceExactly(holds, starts, ends, n);
  }

  function Readings(requests: seq<Request>, room: RoomId, user: UserId): set<nat> {
    set k | 0 <= k < |requests| && Reads(At(requests, k), requests[k], room, user)
  }

  /** A read state is there since the member marked the room read, and as long as they stay. */
  lemma ReadStatesExactly(requests: seq<Request>, room: RoomId, user: UserId, n: nat)
    requires n <= |requests|
    ensures (room, user) in At(requests, n).readStates <==>
            Since(Readings(requests, room, user), Departures(requests, room, user), n)
  {
    hide Invariant, Step, At;
    AtStart(requests);
    var starts, ends := Readings(requests, room, user), Departures(requests, room, user);
    var holds := set k | 0 <= k <= |requests| && (room, user) in At(requests, k).readStates;
    forall k: nat | k < n ensures k + 1 in holds <==> k in starts || (k in holds && k !in ends) {
      AtNext(requests, k);
      ReadStateNext(At(requests, k), requests[k], room, user);
      hide Reads, Exits;
    }
    SinceExactly(holds, starts, ends, n);
  }
}
