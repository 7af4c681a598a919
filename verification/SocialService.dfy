/** The social services as they run, writing their tables in place. */
module SocialService {
  import opened Common
  import opened Social

  class Service {
    const users: set<UserId>
    var requests: map<RequestId, FriendRequest>
    var friendships: set<Pair>
    var bans: map<Pair, bool>
    var dialogs: map<Pair, Dialog>

    constructor (users: set<UserId>)
      ensures Valid() && View() == Start(users)
    {
      this.users := users;
      requests, friendships, bans, dialogs := map[], {}, map[], map[];
    }

    ghost function View(): Db
      reads this
    {
      Db(users, requests, friendships, bans, dialogs)
    }

    ghost predicate Valid()
      reads this
    {
      Invariant(View())
    }

    /** An active ban in either direction. */
    method BanBetween(a: UserId, b: UserId) returns (found: bool)
      ensures found == View().HasActiveBan(a, b)
    {
      found := ((a, b) in bans && bans[(a, b)]) || ((b, a) in bans && bans[(b, a)]);
    }

    method FreezeDialogForPair(a: UserId, b: UserId, reason: Reason)
      modifies this`dialogs
      ensures View() == FreezeDialog(old(View()), a, b, reason)
    {
      var pair := Canonical(a, b);
      if pair in dialogs {
        dialogs := dialogs[pair := Dialog(true, Some(reason))];
      }
    }

    method RefreshDialogStateForPair(a: UserId, b: UserId)
      modifies this`dialogs
      ensures View() == RefreshDialog(old(View()), a, b)
    {
      var pair := Canonical(a, b);
      var isFriends := pair in friendships;
      var hasBan := BanBetween(a, b);
      if pair in dialogs {
        var reason := if isFriends && !hasBan then None else Some(FriendshipRequired);
        dialogs := dialogs[pair := Dialog(!isFriends || hasBan, reason)];
      }
    }

    method CreateFriendRequest(sender: UserId, receiver: UserId, id: RequestId) returns (error: Option<Error>)
      requires Valid()
      modifies this
      ensures Valid()
      ensures Committed(old(View()), Social.CreateFriendRequest(old(View()), sender, receiver, id), View(), error)
    {
      StepKeepsInvariant(View(), Ask(sender, receiver, id));
      if receiver !in users || id in requests { return Some(NotFound); }
      if receiver == sender { return Some(Invalid); }
      var banned := BanBetween(receiver, sender);
      if banned { return Some(Forbidden); }
      if Canonical(sender, receiver) in friendships { return Some(Conflict); }
      if exists i :: i in requests && requests[i] == FriendRequest(sender, receiver, Pending) { return Some(Conflict); }
      if exists i :: i in requests && requests[i] == FriendRequest(receiver, sender, Pending) { return Some(Conflict); }
      requests := requests[id := FriendRequest(sender, receiver, Pending)];
      error := None;
    }

    method AcceptFriendRequest(id: RequestId, actor: UserId) returns (error: Option<Error>)
      requires Valid()
      modifies this
      ensures Valid()
      ensures Committed(old(View()), Social.AcceptFriendRequest(old(View()), id, actor), View(), error)
    {
      StepKeepsInvariant(View(), Accept(id, actor));
      if id !in requests || requests[id].receiver != actor { return Some(NotFound); }
      var request := requests[id];
      if request.status != Pending { return Some(Conflict); }
      friendships := friendships + {Canonical(request.sender, request.receiver)};
      requests := requests[id := request.(status := Accepted)];
      RefreshDialogStateForPair(request.sender, request.receiver);
      error := None;
    }

    method RejectFriendRequest(id: RequestId, actor: UserId) returns (error: Option<Error>)
      requires Valid()
      modifies this
      ensures Valid()
      ensures Committed(old(View()), Social.RejectFriendRequest(old(View()), id, actor), View(), error)
    {
      StepKeepsInvariant(View(), Reject(id, actor));
      if id !in requests || requests[id].receiver != actor { return Some(NotFound); }
      if requests[id].status != Pending { return Some(Conflict); }
      requests := requests[id := requests[id].(status := Rejected)];
      error := None;
    }

    method RemoveFriend(actor: UserId, other: UserId) returns (error: Option<Error>)
      requires Valid()
      modifies this
      ensures Valid()
      ensures Committed(old(View()), Social.RemoveFriend(old(View()), actor, other), View(), error)
    {
      StepKeepsInvariant(View(), Unfriend(actor, other));
      if other !in users { return Some(NotFound); }
      if actor == other { return Some(Invalid); }
      if Canonical(actor, other) !in friendships { return Some(NotFound); }
      friendships := friendships - {Canonical(actor, other)};
      FreezeDialogForPair(actor, other, FriendshipRequired);
      error := None;
    }

    /** The friendship is deleted before the ban row is looked at, so a conflict must bring it back. */
    method CreatePeerBan(actor: UserId, target: UserId) returns (error: Option<Error>)
      requires Valid()
      modifies this
      ensures Valid()
      ensures Committed(old(View()), Social.CreatePeerBan(old(View()), actor, target), View(), error)
    {
      StepKeepsInvariant(View(), Ban(actor, target));
      if target !in users { return Some(NotFound); }
      if actor == target { return Some(Invalid); }
      var saved := friendships;
      friendships := friendships - {Canonical(actor, target)};
      if (actor, target) in bans && bans[(actor, target)] {
        friendships := saved;
        return Some(Conflict);
      }
      bans := bans[(actor, target) := true];
      FreezeDialogForPair(actor, target, PeerBanned);
      error := None;
    }

    method RemovePeerBan(actor: UserId, target: UserId) returns (error: Option<Error>)
      requires Valid()
      modifies this
      ensures Valid()
      ensures Committed(old(View()), Social.RemovePeerBan(old(View()), actor, target), View(), error)
    {
      StepKeepsInvariant(View(), Unban(actor, target));
      if (actor, target) !in bans || !bans[(actor, target)] { return Some(NotFound); }
      bans := bans[(actor, target) := false];
      RefreshDialogStateForPair(actor, target);
      error := None;
    }

    method GetOrCreateDialog(current: UserId, other: UserId) returns (error: Option<Error>, created: bool)
      requires Valid()
      modifies this
      ensures Valid()
      ensures Committed(old(View()), Social.GetOrCreateDialog(old(View()), current, other), View(), error)
      ensures created <==> error == None && Canonical(current, other) !in old(dialogs)
    {
      StepKeepsInvariant(View(), OpenDialog(current, other));
      created := false;
      var banned := BanBetween(current, other);
      if banned { return Some(Forbidden), false; }
      if current == other || Canonical(current, other) !in friendships { return Some(Forbidden), false; }
      if Canonical(current, other) !in dialogs {
        dialogs := dialogs[Canonical(current, other) := Dialog(false, None)];
        created := true;
      }
      error := None;
    }
  }
}
