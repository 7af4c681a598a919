/**
 What stands between users after any run, read off their actions: friendships, requests, bans and
 dialogs, each since the action that set it and until one that ends it.
 */
module SocialHistories {
  import opened Common
  import opened Histories
  import opened Social

  // ----- What begins and ends each thing -----

  /** The receiver of a pending request between the two accepts it. */
  predicate Agrees(db: Db, action: Action, pair: Pair) {
    && action.Accept? && action.id in db.requests && db.requests[action.id].status == Pending
    && db.requests[action.id].receiver == action.actor && Canonical(db.requests[action.id].sender, action.actor) == pair
  }

  /** One of the two bans the other, who is a user and is not banned by them yet. */
  predicate BansOther(db: Db, action: Action, source: UserId, target: UserId) {
    action == Ban(source, target) && target in db.users && source != target && !db.Bans(source, target)
  }

  /** One of the two unfriends or bans the other. */
  predicate Parts(db: Db, action: Action, pair: Pair) {
    (action.Unfriend? && Canonical(action.actor, action.other) == pair && action.other in db.users && action.actor != action.other)
    || (action.Ban? && Canonical(action.actor, action.target) == pair && BansOther(db, action, action.actor, action.target))
  }

  predicate Lifts(db: Db, action: Action, source: UserId, target: UserId) {
    action == Unban(source, target) && db.Bans(source, target)
  }

  predicate HasRequest(db: Db, id: RequestId, r: FriendRequest) {
    id in db.requests && db.requests[id] == r
  }

  /** A request comes to be what it is: asked over a clear pair, accepted or rejected by its receiver. */
  predicate Settles(db: Db, action: Action, id: RequestId, r: FriendRequest) {
    match r.status
    case Pending =>
      && action == Ask(r.sender, r.receiver, id) && id !in db.requests && r.receiver in db.users && r.sender != r.receiver
      && !db.HasActiveBan(r.sender, r.receiver) && !db.AreFriends(r.sender, r.receiver)
      && forall other :: other in db.requests && db.requests[other].status == Pending ==>
           Canonical(db.requests[other].sender, db.requests[other].receiver) != Canonical(r.sender, r.receiver)
    case Accepted => action == Accept(id, r.receiver) && HasRequest(db, id, r.(status := Pending))
    case Rejected => action == Reject(id, r.receiver) && HasRequest(db, id, r.(status := Pending))
  }

  predicate Answers(action: Action, id: RequestId, r: FriendRequest) {
    r.status == Pending && (action == Accept(id, r.receiver) || action == Reject(id, r.receiver))
  }

  /** Two unbanned friends open their dialog. */
  predicate Opens(db: Db, action: Action, pair: Pair) {
    && action.OpenDialog? && action.current != action.other && Canonical(action.current, action.other) == pair
    && db.AreFriends(action.current, action.other) && !db.HasActiveBan(action.current, action.other)
  }

  predicate FrozenByBan(db: Db, pair: Pair) {
    pair in db.dialogs && db.dialogs[pair].frozenReason == Some(PeerBanned)
  }

  predicate FreezesByBan(db: Db, action: Action, pair: Pair) {
    && pair in db.dialogs && action.Ban? && Canonical(action.actor, action.target) == pair
    && BansOther(db, action, action.actor, action.target)
  }

  /** Accepting a request or lifting a ban works the reason out anew. */
  predicate Refreshes(db: Db, action: Action, pair: Pair) {
    Agrees(db, action, pair)
    || (action.Unban? && Canonical(action.actor, action.target) == pair && Lifts(db, action, action.actor, action.target))
  }

  // ----- One step -----

  lemma FriendshipNext(db: Db, action: Action, pair: Pair)
    ensures pair in Step(db, action).friendships <==>
            Agrees(db, action, pair) || (pair in db.friendships && !Parts(db, action, pair))
  {
  }

  lemma BanNext(db: Db, action: Action, source: UserId, target: UserId)
    ensures Step(db, action).Bans(source, target) <==>
            BansOther(db, action, source, target) || (db.Bans(source, target) && !Lifts(db, action, source, target))
  {
  }

  lemma RequestNext(db: Db, action: Action, id: RequestId, r: FriendRequest)
    ensures HasRequest(Step(db, action), id, r) <==>
            Settles(db, action, id, r) || (HasRequest(db, id, r) && !Answers(action, id, r))
  {
  }

  lemma DialogNext(db: Db, action: Action, pair: Pair)
    ensures pair in Step(db, action).dialogs <==> Opens(db, action, pair) || pair in db.dialogs
  {
  }

  lemma ReasonNext(db: Db, action: Action, pair: Pair)
    requires Invariant(db)
    ensures FrozenByBan(Step(db, action), pair) <==>
            FreezesByBan(db, action, pair) || (FrozenByBan(db, pair) && !Refreshes(db, action, pair))
  {
  }

  // ----- Which actions are granted -----

  /** An action is granted for its effect; only opening a dialog that is already there does nothing. */
  predicate Rightful(db: Db, action: Action) {
    match action
    case Ask(sender, receiver, id) => Settles(db, action, id, FriendRequest(sender, receiver, Pending))
    case Accept(id, actor) => id in db.requests && db.requests[id].receiver == actor && db.requests[id].status == Pending
    case Reject(id, actor) => id in db.requests && db.requests[id].receiver == actor && db.requests[id].status == Pending
    case Unfriend(actor, other) => db.AreFriends(actor, other) && Parts(db, action, Canonical(actor, other))
    case Ban(actor, target) => BansOther(db, action, actor, target)
    case Unban(actor, target) => db.Bans(actor, target)
    case OpenDialog(current, other) => Opens(db, action, Canonical(current, other))
  }

  lemma GrantedExactly(db: Db, action: Action)
    ensures Attempt(db, action).Success? <==> Rightful(db, action)
  {
  }

  // ----- What a refusal says -----

  /** Somebody or something the action is about is not there, as far as the one who acts may know. */
  predicate Missing(db: Db, action: Action) {
    match action
    case Ask(_, receiver, id) => receiver !in db.users || id in db.requests
    case Accept(id, actor) => id !in db.requests || db.requests[id].receiver != actor
    case Reject(id, actor) => id !in db.requests || db.requests[id].receiver != actor
    case Unfriend(actor, other) => other !in db.users || (actor != other && !db.AreFriends(actor, other))
    case Ban(_, target) => target !in db.users
    case Unban(actor, target) => !db.Bans(actor, target)
    case OpenDialog(_, _) => false
  }

  predicate WithOneself(action: Action) {
    match action
    case Ask(sender, receiver, _) => sender == receiver
    case Unfriend(actor, other) => actor == other
    case Ban(actor, target) => actor == target
    case _ => false
  }

  /** A ban stands against asking, and a ban or no friendship against opening a dialog. */
  predicate Barred(db: Db, action: Action) {
    match action
    case Ask(sender, receiver, _) => db.HasActiveBan(sender, receiver)
    case OpenDialog(_, _) => true
    case _ => false
  }

  /**
   A refusal says what stands in the way: not found exactly when something is missing, invalid
   exactly for acting on oneself, forbidden exactly when barred, and otherwise that it is done already.
   */
  lemma RefusalsExactly(db: Db, action: Action)
    requires !Rightful(db, action)
    ensures Attempt(db, action) == Failure(if Missing(db, action) then NotFound
                                           else if WithOneself(action) then Invalid
                                           else if Barred(db, action) then Forbidden
                                           else Conflict)
  {
  }

  // ----- Whole runs -----

  lemma AtIsSound(users: set<UserId>, actions: seq<Action>, k: nat)
    requires k <= |actions|
    ensures Invariant(At(users, actions, k))
  {
    StartIsSound(users);
    hide Invariant;
    RunKeepsInvariant(Start(users), actions[..k]);
  }

  lemma StartIsSound(users: set<UserId>)
    ensures Invariant(Start(users))
  {
  }

  function Agreements(users: set<UserId>, actions: seq<Action>, pair: Pair): set<nat> {
    set k | 0 <= k < |actions| && Agrees(At(users, actions, k), actions[k], pair)
  }

  function Partings(users: set<UserId>, actions: seq<Action>, pair: Pair): set<nat> {
    set k | 0 <= k < |actions| && Parts(At(users, actions, k), actions[k], pair)
  }

  /** Two users are friends since one accepted the other's request, until one of them unfriends or bans the other. */
  lemma FriendshipsExactly(users: set<UserId>, actions: seq<Action>, pair: Pair, n: nat)
    requires n <= |actions|
    ensures pair in At(users, actions, n).friendships <==>
            Since(Agreements(users, actions, pair), Partings(users, actions, pair), n)
  {
    hide Step, At;
    AtStart(users, actions);
    var starts, ends := Agreements(users, actions, pair), Partings(users, actions, pair);
    var holds := set k | 0 <= k <= |actions| && pair in At(users, actions, k).friendships;
    forall k: nat | k < n ensures k + 1 in holds <==> k in starts || (k in holds && k !in ends) {
      AtNext(users, actions, k);
      FriendshipNext(At(users, actions, k), actions[k], pair);
      hide Agrees, Parts;
    }
    SinceExactly(holds, starts, ends, n);
  }

  function BansOf(users: set<UserId>, actions: seq<Action>, source: UserId, target: UserId): set<nat> {
    set k | 0 <= k < |actions| && BansOther(At(users, actions, k), actions[k], source, target)
  }

  function LiftsOf(users: set<UserId>, actions: seq<Action>, source: UserId, target: UserId): set<nat> {
    set k | 0 <= k < |actions| && Lifts(At(users, actions, k), actions[k], source, target)
  }

  /** A ban is in force since its source set it, until its source lifts it. */
  lemma BansExactly(users: set<UserId>, actions: seq<Action>, source: UserId, target: UserId, n: nat)
    requires n <= |actions|
    ensures At(users, actions, n).Bans(source, target) <==>
            Since(BansOf(users, actions, source, target), LiftsOf(users, actions, source, target), n)
  {
    hide Step, At;
    AtStart(users, actions);
    var starts, ends := BansOf(users, actions, source, target), LiftsOf(users, actions, source, target);
    var holds := set k | 0 <= k <= |actions| && At(users, actions, k).Bans(source, target);
    forall k: nat | k < n ensures k + 1 in holds <==> k in starts || (k in holds && k !in ends) {
      AtNext(users, actions, k);
      BanNext(At(users, actions, k), actions[k], source, target);
      hide BansOther, Lifts;
    }
    SinceExactly(holds, starts, ends, n);
  }

  function Settlings(users: set<UserId>, actions: seq<Action>, id: RequestId, r: FriendRequest): set<nat> {
    set k | 0 <= k < |actions| && Settles(At(users, actions, k), actions[k], id, r)
  }

  function Answerings(users: set<UserId>, actions: seq<Action>, id: RequestId, r: FriendRequest): set<nat> {
    set k | 0 <= k < |actions| && Answers(actions[k], id, r)
  }

  /**
   A friend request is pending since it was asked and until its receiver answers; an answered one
   keeps its answer.
   */
  lemma RequestsExactly(users: set<UserId>, actions: seq<Action>, id: RequestId, r: FriendRequest, n: nat)
    requires n <= |actions|
    ensures HasRequest(At(users, actions, n), id, r) <==>
            Since(Settlings(users, actions, id, r), Answerings(users, actions, id, r), n)
  {
    hide Step, At;
    AtStart(users, actions);
    var starts, ends := Settlings(users, actions, id, r), Answerings(users, actions, id, r);
    var holds := set k | 0 <= k <= |actions| && HasRequest(At(users, actions, k), id, r);
    forall k: nat | k < n ensures k + 1 in holds <==> k in starts || (k in holds && k !in ends) {
      AtNext(users, actions, k);
      RequestNext(At(users, actions, k), actions[k], id, r);
      hide Settles, Answers, HasRequest;
    }
    SinceExactly(holds, starts, ends, n);
  }

  function Openings(users: set<UserId>, actions: seq<Action>, pair: Pair): set<nat> {
    set k | 0 <= k < |actions| && Opens(At(users, actions, k), actions[k], pair)
  }

  /** A dialog is there since two unbanned friends opened it, for good. */
  lemma DialogsExactly(users: set<UserId>, actions: seq<Action>, pair: Pair, n: nat)
    requires n <= |actions|
    ensures pair in At(users, actions, n).dialogs <==> Since(Openings(users, actions, pair), {}, n)
  {
    hide Step, At;
    AtStart(users, actions);
    var starts := Openings(users, actions, pair);
    var holds := set k | 0 <= k <= |actions| && pair in At(users, actions, k).dialogs;
    forall k: nat | k < n ensures k + 1 in holds <==> k in starts || k in holds {
      AtNext(users, actions, k);
      DialogNext(At(users, actions, k), actions[k], pair);
      hide Opens;
    }
    SinceExactly(holds, starts, {}, n);
  }

  function FreezingBans(users: set<UserId>, actions: seq<Action>, pair: Pair): set<nat> {
    set k | 0 <= k < |actions| && FreezesByBan(At(users, actions, k), actions[k], pair)
  }

  function Refreshings(users: set<UserId>, actions: seq<Action>, pair: Pair): set<nat> {
    set k | 0 <= k < |actions| && Refreshes(At(users, actions, k), actions[k], pair)
  }

  /**
   A dialog names a ban as the reason of its freezing since a ban while it was open, until its state
   is worked out anew.
   */
  lemma BanReasonExactly(users: set<UserId>, actions: seq<Action>, pair: Pair, n: nat)
    requires n <= |actions|
    ensures FrozenByBan(At(users, actions, n), pair) <==>
            Since(FreezingBans(users, actions, pair), Refreshings(users, actions, pair), n)
  {
    hide Step, At;
    AtStart(users, actions);
    var starts, ends := FreezingBans(users, actions, pair), Refreshings(users, actions, pair);
    var holds := set k | 0 <= k <= |actions| && FrozenByBan(At(users, actions, k), pair);
    forall k: nat | k < n ensures k + 1 in holds <==> k in starts || (k in holds && k !in ends) {
      AtNext(users, actions, k);
      AtIsSound(users, actions, k);
      ReasonNext(At(users, actions, k), actions[k], pair);
      hide FreezesByBan, Refreshes, FrozenByBan;
    }
    SinceExactly(holds, starts, ends, n);
  }
}
