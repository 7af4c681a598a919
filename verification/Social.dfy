/**
 The social transactions: friend requests, friendships, peer bans, and the frozen flag that each
 one-to-one dialog caches from them. Each function is one transaction; a failure changes nothing.
 Users are numbered in the order of their identifiers' text.
 */
module Social {
  import opened Common

  type UserId = nat
  type RequestId = nat
  type Pair = (UserId, UserId)

  datatype Status = Pending | Accepted | Rejected
  datatype FriendRequest = FriendRequest(sender: UserId, receiver: UserId, status: Status)
  datatype Reason = PeerBanned | FriendshipRequired
  datatype Dialog = Dialog(isFrozen: bool, frozenReason: Option<Reason>)
  datatype Error = NotFound | Forbidden | Conflict | Invalid

  function Canonical(a: UserId, b: UserId): Pair {
    if a < b then (a, b) else (b, a)
  }

  datatype Db = Db(
    users: set<UserId>,
    requests: map<RequestId, FriendRequest>,
    friendships: set<Pair>,
    bans: map<Pair, bool>,
    dialogs: map<Pair, Dialog>)
  {
    predicate AreFriends(a: UserId, b: UserId) { Canonical(a, b) in friendships }

    predicate Bans(source: UserId, target: UserId) { (source, target) in bans && bans[(source, target)] }

    predicate HasActiveBan(a: UserId, b: UserId) { Bans(a, b) || Bans(b, a) }

    predicate HasPending(sender: UserId, receiver: UserId) {
      exists id :: id in requests && requests[id] == FriendRequest(sender, receiver, Pending)
    }
  }

  // ----- The cached dialog state -----

  function FreezeDialog(db: Db, a: UserId, b: UserId, reason: Reason): Db {
    var pair := Canonical(a, b);
    if pair in db.dialogs then db.(dialogs := db.dialogs[pair := Dialog(true, Some(reason))]) else db
  }

  function RefreshDialog(db: Db, a: UserId, b: UserId): Db {
    var pair := Canonical(a, b);
    var isFriends, hasBan := pair in db.friendships, db.HasActiveBan(a, b);
    if pair in db.dialogs then
      db.(dialogs := db.dialogs[pair := Dialog(!isFriends || hasBan,
                                               if isFriends && !hasBan then None else Some(FriendshipRequired))])
    else db
  }

  // ----- Transactions -----

  function CreateFriendRequest(db: Db, sender: UserId, receiver: UserId, id: RequestId): Result<Db, Error> {
    if receiver !in db.users || id in db.requests then Failure(NotFound)
    else if receiver == sender then Failure(Invalid)
    else if db.HasActiveBan(receiver, sender) then Failure(Forbidden)
    else if db.AreFriends(sender, receiver) then Failure(Conflict)
    else if db.HasPending(sender, receiver) || db.HasPending(receiver, sender) then Failure(Conflict)
    else Success(db.(requests := db.requests[id := FriendRequest(sender, receiver, Pending)]))
  }

  /** Bans are not looked at again: only the sender's attempt to ask was checked against them. */
  function AcceptFriendRequest(db: Db, id: RequestId, actor: UserId): Result<Db, Error> {
    if id !in db.requests || db.requests[id].receiver != actor then Failure(NotFound)
    else if db.requests[id].status != Pending then Failure(Conflict)
    else
      var request := db.requests[id];
      Success(RefreshDialog(
                db.(friendships := db.friendships + {Canonical(request.sender, request.receiver)},
                    requests := db.requests[id := request.(status := Accepted)]),
                request.sender, request.receiver))
  }

  function RejectFriendRequest(db: Db, id: RequestId, actor: UserId): Result<Db, Error> {
    if id !in db.requests || db.requests[id].receiver != actor then Failure(NotFound)
    else if db.requests[id].status != Pending then Failure(Conflict)
    else Success(db.(requests := db.requests[id := db.requests[id].(status := Rejected)]))
  }

  function RemoveFriend(db: Db, actor: UserId, other: UserId): Result<Db, Error> {
    if other !in db.users then Failure(NotFound)
    else if actor == other then Failure(Invalid)
    else if !db.AreFriends(actor, other) then Failure(NotFound)
    else Success(FreezeDialog(db.(friendships := db.friendships - {Canonical(actor, other)}), actor, other, FriendshipRequired))
  }

  function CreatePeerBan(db: Db, actor: UserId, target: UserId): Result<Db, Error> {
    if target !in db.users then Failure(NotFound)
    else if actor == target then Failure(Invalid)
    else if db.Bans(actor, target) then Failure(Conflict)
    else Success(FreezeDialog(db.(friendships := db.friendships - {Canonical(actor, target)},
                                  bans := db.bans[(actor, target) := true]), actor, target, PeerBanned))
  }

  function RemovePeerBan(db: Db, actor: UserId, target: UserId): Result<Db, Error> {
    if !db.Bans(actor, target) then Failure(NotFound)
    else Success(RefreshDialog(db.(bans := db.bans[(actor, target) := false]), actor, target))
  }

  /** A new dialog starts unfrozen; an existing one is returned as it is. */
  function GetOrCreateDialog(db: Db, current: UserId, other: UserId): Result<Db, Error> {
    if db.HasActiveBan(current, other) then Failure(Forbidden)
    else if current == other || !db.AreFriends(current, other) then Failure(Forbidden)
    else if Canonical(current, other) in db.dialogs then Success(db)
    else Success(db.(dialogs := db.dialogs[Canonical(current, other) := Dialog(false, None)]))
  }

  // ----- Sending to a dialog -----

  function FrozenRefusal(db: Db, dialog: Pair, sender: UserId): Option<Error> {
    if dialog !in db.dialogs || (dialog.0 != sender && dialog.1 != sender) then Some(NotFound)
    else if db.dialogs[dialog].isFrozen then Some(Forbidden)
    else None
  }

  /** The checks a new dialog message passes: the cached flag first, then friendship and bans again. */
  function SendRefusal(db: Db, dialog: Pair, sender: UserId): Option<Error> {
    var refusal := FrozenRefusal(db, dialog, sender);
    var other := if dialog.0 == sender then dialog.1 else dialog.0;
    if refusal.Some? then refusal
    else if !db.AreFriends(sender, other) || db.HasActiveBan(sender, other) then Some(Forbidden)
    else None
  }

  // ----- Runs -----

  datatype Action =
    | Ask(sender: UserId, receiver: UserId, id: RequestId)
    | Accept(id: RequestId, actor: UserId)
    | Reject(id: RequestId, actor: UserId)
    | Unfriend(actor: UserId, other: UserId)
    | Ban(actor: UserId, target: UserId)
    | Unban(actor: UserId, target: UserId)
    | OpenDialog(current: UserId, other: UserId)

  function Attempt(db: Db, action: Action): Result<Db, Error> {
    match action
    case Ask(sender, receiver, id) => CreateFriendRequest(db, sender, receiver, id)
    case Accept(id, actor) => AcceptFriendRequest(db, id, actor)
    case Reject(id, actor) => RejectFriendRequest(db, id, actor)
    case Unfriend(actor, other) => RemoveFriend(db, actor, other)
    case Ban(actor, target) => CreatePeerBan(db, actor, target)
    case Unban(actor, target) => RemovePeerBan(db, actor, target)
    case OpenDialog(current, other) => GetOrCreateDialog(db, current, other)
  }

  function Step(db: Db, action: Action): Db {
    match Attempt(db, action)
    case Success(db') => db'
    case Failure(_) => db
  }

  function Run(db: Db, actions: seq<Action>): Db
    decreases |actions|
  {
    if actions == [] then db else Run(Step(db, actions[0]), actions[1..])
  }

  function Start(users: set<UserId>): Db {
    Db(users, map[], {}, map[], map[])
  }

  // ----- The joint invariant -----

  /** The cached state of one pair's dialog says what friendships and bans say. */
  ghost predicate CacheSound(db: Db, pair: Pair) {
    pair in db.dialogs ==>
      var dialog := db.dialogs[pair];
      && (dialog.isFrozen <==> pair !in db.friendships || db.HasActiveBan(pair.0, pair.1))
      && (dialog.frozenReason == None <==> !dialog.isFrozen)
      && (dialog.frozenReason == Some(PeerBanned) ==> db.HasActiveBan(pair.0, pair.1) && pair !in db.friendships)
  }

  ghost predicate DialogsSound(db: Db) {
    forall pair :: pair in db.dialogs ==> pair.0 < pair.1 && CacheSound(db, pair)
  }

  /** The database constraint forbids two pending requests in one direction only. */
  predicate PendingBetween(db: Db, id: RequestId, pair: Pair) {
    && id in db.requests && db.requests[id].status == Pending
    && Canonical(db.requests[id].sender, db.requests[id].receiver) == pair
  }

  ghost predicate OnePendingPerPair(db: Db) {
    forall pair, i, j :: PendingBetween(db, i, pair) && PendingBetween(db, j, pair) ==> i == j
  }

  ghost predicate NoPendingBetweenFriends(db: Db) {
    forall pair, i :: PendingBetween(db, i, pair) ==> pair !in db.friendships
  }

  ghost predicate RequestsSound(db: Db) {
    && (forall i :: i in db.requests ==> db.requests[i].sender != db.requests[i].receiver)
    && OnePendingPerPair(db) && NoPendingBetweenFriends(db)
  }

  ghost predicate Invariant(db: Db) {
    DialogsSound(db) && RequestsSound(db)
  }

  ghost predicate DialogsSoundExcept(db: Db, stale: Pair) {
    forall pair :: pair in db.dialogs ==> pair.0 < pair.1 && (pair != stale ==> CacheSound(db, pair))
  }

  /** Changing one pair's friendship and bans can only make that pair's cache stale. */
  lemma ChangeMakesOneStale(db: Db, db': Db, a: UserId, b: UserId)
    requires DialogsSound(db) && db'.dialogs == db.dialogs
    requires forall pair :: pair != Canonical(a, b) ==> (pair in db.friendships <==> pair in db'.friendships)
    requires forall s: UserId, t: UserId :: (s, t) != (a, b) ==> (db.Bans(s, t) <==> db'.Bans(s, t))
    ensures DialogsSoundExcept(db', Canonical(a, b))
  {
    forall pair | pair in db'.dialogs ensures pair.0 < pair.1 && (pair != Canonical(a, b) ==> CacheSound(db', pair)) {
      assert CacheSound(db, pair);
      assert pair == (pair.0, pair.1);
    }
  }

  lemma RefreshMakesSound(db: Db, a: UserId, b: UserId)
    requires DialogsSoundExcept(db, Canonical(a, b))
    ensures DialogsSound(RefreshDialog(db, a, b))
  {
    var db' := RefreshDialog(db, a, b);
    forall pair | pair in db'.dialogs ensures pair.0 < pair.1 && CacheSound(db', pair) {
      assert pair != Canonical(a, b) ==> CacheSound(db, pair);
    }
  }

  lemma FreezeMakesSound(db: Db, a: UserId, b: UserId, reason: Reason)
    requires DialogsSoundExcept(db, Canonical(a, b)) && !db.AreFriends(a, b)
    requires reason == PeerBanned ==> db.HasActiveBan(a, b)
    ensures DialogsSound(FreezeDialog(db, a, b, reason))
  {
    var db' := FreezeDialog(db, a, b, reason);
    forall pair | pair in db'.dialogs ensures pair.0 < pair.1 && CacheSound(db', pair) {
      assert pair != Canonical(a, b) ==> CacheSound(db, pair);
    }
  }

  lemma StepKeepsDialogs(db: Db, action: Action)
    requires DialogsSound(db) && RequestsSound(db)
    ensures DialogsSound(Step(db, action))
  {
    if Attempt(db, action).Success? {
      hide DialogsSound, DialogsSoundExcept, RequestsSound;
      match action
      case Ask(_, _, id) => RequestsDoNotMatter(db, Step(db, action));
      case Accept(id, _) =>
        var r := db.requests[id];
        var befriended := db.(friendships := db.friendships + {Canonical(r.sender, r.receiver)},
                              requests := db.requests[id := r.(status := Accepted)]);
        ChangeMakesOneStale(db, befriended, r.sender, r.receiver);
        RefreshMakesSound(befriended, r.sender, r.receiver);
      case Reject(_, _) => RequestsDoNotMatter(db, Step(db, action));
      case Unfriend(actor, other) =>
        var parted := db.(friendships := db.friendships - {Canonical(actor, other)});
        ChangeMakesOneStale(db, parted, actor, other);
        FreezeMakesSound(parted, actor, other, FriendshipRequired);
      case Ban(actor, target) =>
        var banned := db.(friendships := db.friendships - {Canonical(actor, target)}, bans := db.bans[(actor, target) := true]);
        ChangeMakesOneStale(db, banned, actor, target);
        FreezeMakesSound(banned, actor, target, PeerBanned);
      case Unban(actor, target) =>
        var lifted := db.(bans := db.bans[(actor, target) := false]);
        ChangeMakesOneStale(db, lifted, actor, target);
        RefreshMakesSound(lifted, actor, target);
      case OpenDialog(current, other) => OpeningIsSound(db, current, other);
    }
  }

  lemma RequestsDoNotMatter(db: Db, db': Db)
    requires DialogsSound(db) && db' == db.(requests := db'.requests)
    ensures DialogsSound(db')
  {
    forall pair | pair in db'.dialogs ensures CacheSound(db', pair) {
      assert CacheSound(db, pair);
    }
  }

  lemma OpeningIsSound(db: Db, current: UserId, other: UserId)
    requires DialogsSound(db) && GetOrCreateDialog(db, current, other).Success?
    ensures DialogsSound(GetOrCreateDialog(db, current, other).value)
  {
    var db' := GetOrCreateDialog(db, current, other).value;
    forall pair | pair in db'.dialogs ensures pair.0 < pair.1 && CacheSound(db', pair) {
      assert pair in db.dialogs ==> CacheSound(db, pair);
    }
  }

  lemma StepKeepsRequests(db: Db, action: Action)
    requires RequestsSound(db)
    ensures RequestsSound(Step(db, action))
  {
    var db' := Step(db, action);
    forall pair, i, j | PendingBetween(db', i, pair) && PendingBetween(db', j, pair) ensures i == j {
      if PendingBetween(db, i, pair) && PendingBetween(db, j, pair) {
      }
    }
    forall pair, i | PendingBetween(db', i, pair) ensures pair !in db'.friendships {
      if action.Accept? && Attempt(db, action).Success? {
        var accepted := db.requests[action.id];
        assert PendingBetween(db, action.id, Canonical(accepted.sender, accepted.receiver));
        assert PendingBetween(db, i, pair);
      } else if PendingBetween(db, i, pair) {
      }
    }
  }

  lemma StepKeepsInvariant(db: Db, action: Action)
    requires Invariant(db)
    ensures Invariant(Step(db, action))
  {
    hide DialogsSound, RequestsSound, Step;
    StepKeepsDialogs(db, action);
    StepKeepsRequests(db, action);
  }

  lemma {:induction false} RunKeepsInvariant(db: Db, actions: seq<Action>)
    requires Invariant(db)
    ensures Invariant(Run(db, actions))
    decreases |actions|
  {
    hide Invariant, Step;
    if actions != [] {
      StepKeepsInvariant(db, actions[0]);
      RunKeepsInvariant(Step(db, actions[0]), actions[1..]);
    }
  }

  // ----- What follows in every reachable state -----

  /**
   The flag cached on a dialog is exactly "not friends, or a ban either way", with a reason exactly
   when it is set; "peer ban" is only ever the reason while a ban is in force and friendship is gone.
   */
  lemma FrozenFlagIsExact(users: set<UserId>, actions: seq<Action>, pair: Pair)
    requires pair in Run(Start(users), actions).dialogs
    ensures var db := Run(Start(users), actions);
            && (db.dialogs[pair].isFrozen <==> !db.AreFriends(pair.0, pair.1) || db.HasActiveBan(pair.0, pair.1))
            && (db.dialogs[pair].frozenReason == None <==> !db.dialogs[pair].isFrozen)
            && (db.dialogs[pair].frozenReason == Some(PeerBanned) ==> db.HasActiveBan(pair.0, pair.1) && !db.AreFriends(pair.0, pair.1))
  {
    RunKeepsInvariant(Start(users), actions);
    assert CacheSound(Run(Start(users), actions), pair) && pair == (pair.0, pair.1);
  }

  /** Looking at friendship and bans again never rejects whom the frozen check let through. */
  lemma RecheckIsRedundant(users: set<UserId>, actions: seq<Action>, dialog: Pair, sender: UserId)
    ensures var db := Run(Start(users), actions);
            SendRefusal(db, dialog, sender) == FrozenRefusal(db, dialog, sender)
  {
    RunKeepsInvariant(Start(users), actions);
    var db := Run(Start(users), actions);
    assert CacheSound(db, dialog) && dialog == (dialog.0, dialog.1);
  }

  /** One pending request per unordered pair, and none between friends. */
  lemma PendingRequestsAreRare(users: set<UserId>, actions: seq<Action>, i: RequestId, j: RequestId)
    requires var db := Run(Start(users), actions);
      && i in db.requests && j in db.requests && db.requests[i].status == Pending && db.requests[j].status == Pending
      && {db.requests[i].sender, db.requests[i].receiver} == {db.requests[j].sender, db.requests[j].receiver}
    ensures i == j
    ensures !Run(Start(users), actions).AreFriends(Run(Start(users), actions).requests[i].sender, Run(Start(users), actions).requests[i].receiver)
  {
    RunKeepsInvariant(Start(users), actions);
    var db := Run(Start(users), actions);
    var a, b := db.requests[i], db.requests[j];
    assert b.sender in {a.sender, a.receiver} && b.receiver in {a.sender, a.receiver};
    assert a.sender in {b.sender, b.receiver} && a.receiver in {b.sender, b.receiver};
    assert PendingBetween(db, i, Canonical(a.sender, a.receiver)) && PendingBetween(db, j, Canonical(a.sender, a.receiver));
  }

  /** Accepting always creates the friendship; it never finds one. */
  lemma AcceptAlwaysCreates(users: set<UserId>, actions: seq<Action>, id: RequestId, actor: UserId)
    requires AcceptFriendRequest(Run(Start(users), actions), id, actor).Success?
    ensures var db := Run(Start(users), actions);
            var db' := AcceptFriendRequest(db, id, actor).value;
            && !db.AreFriends(db.requests[id].sender, actor)
            && |db'.friendships| == |db.friendships| + 1
            && (forall a, b :: db'.AreFriends(a, b) <==> db.AreFriends(a, b) || Canonical(a, b) == Canonical(db.requests[id].sender, actor))
  {
    RunKeepsInvariant(Start(users), actions);
    var db := Run(Start(users), actions);
    assert PendingBetween(db, id, Canonical(db.requests[id].sender, db.requests[id].receiver));
  }

  // ----- Friends under a ban -----

  predicate UnderBan(db: Db, a: UserId, b: UserId) {
    db.AreFriends(a, b) && db.HasActiveBan(a, b)
  }

  ghost predicate NobodyUnderBan(db: Db) {
    forall a, b :: !UnderBan(db, a, b)
  }

  /** The receiver of a pending request accepts it while a ban between the two is in force. */
  predicate AcceptsUnderBan(db: Db, action: Action) {
    && action.Accept? && action.id in db.requests
    && db.requests[action.id].status == Pending && db.requests[action.id].receiver == action.actor
    && db.HasActiveBan(db.requests[action.id].sender, action.actor)
  }

  /** One step makes two users friends under a ban exactly when one accepts the other's request under it. */
  lemma UnderBanExactly(db: Db, action: Action, a: UserId, b: UserId)
    requires !UnderBan(db, a, b)
    ensures UnderBan(Step(db, action), a, b) <==>
            && action.Accept? && action.id in db.requests
            && db.requests[action.id].status == Pending && db.requests[action.id].receiver == action.actor
            && Canonical(db.requests[action.id].sender, action.actor) == Canonical(a, b)
            && db.HasActiveBan(a, b)
  {
  }

  lemma NobodyUnderBanExactly(db: Db, action: Action)
    requires NobodyUnderBan(db)
    ensures NobodyUnderBan(Step(db, action)) <==> !AcceptsUnderBan(db, action)
  {
    forall a, b ensures UnderBan(Step(db, action), a, b) ==> AcceptsUnderBan(db, action) {
      UnderBanExactly(db, action, a, b);
    }
    if AcceptsUnderBan(db, action) {
      UnderBanExactly(db, action, db.requests[action.id].sender, action.actor);
      assert UnderBan(Step(db, action), db.requests[action.id].sender, action.actor);
    }
  }

  /** The state after the first k actions. */
  function At(users: set<UserId>, actions: seq<Action>, k: nat): Db
    requires k <= |actions|
  {
    Run(Start(users), actions[..k])
  }

  lemma {:induction false} RunExtends(db: Db, actions: seq<Action>, action: Action)
    ensures Run(db, actions + [action]) == Step(Run(db, actions), action)
    decreases |actions|
  {
    if actions == [] {
      assert actions + [action] == [action] && [action][1..] == [];
    } else {
      assert (actions + [action])[1..] == actions[1..] + [action];
      RunExtends(Step(db, actions[0]), actions[1..], action);
    }
  }

  lemma AtStart(users: set<UserId>, actions: seq<Action>)
    ensures At(users, actions, 0) == Start(users)
  {
    assert actions[..0] == [];
  }

  lemma AtNext(users: set<UserId>, actions: seq<Action>, k: nat)
    requires k < |actions|
    ensures At(users, actions, k + 1) == Step(At(users, actions, k), actions[k])
  {
    assert actions[..k + 1] == actions[..k] + [actions[k]];
    RunExtends(Start(users), actions[..k], actions[k]);
  }

  /**
   A run never has friends under a ban exactly when none of its actions accepts a request under a
   ban: bans do not withdraw pending requests, and accepting does not look at bans.
   */
  lemma {:induction false} NeverUnderBanExactly(users: set<UserId>, actions: seq<Action>, n: nat)
    requires n <= |actions|
    ensures (forall k :: 0 <= k <= n ==> NobodyUnderBan(At(users, actions, k))) <==>
            (forall k :: 0 <= k < n ==> !AcceptsUnderBan(At(users, actions, k), actions[k]))
  {
    hide UnderBan, NobodyUnderBan, AcceptsUnderBan, Step;
    if n == 0 {
      assert actions[..0] == [];
      StartsUnbanned(users);
    } else {
      NeverUnderBanExactly(users, actions, n - 1);
      AtNext(users, actions, n - 1);
      if NobodyUnderBan(At(users, actions, n - 1)) {
        NobodyUnderBanExactly(At(users, actions, n - 1), actions[n - 1]);
      }
    }
  }

  lemma StartsUnbanned(users: set<UserId>)
    ensures NobodyUnderBan(Run(Start(users), []))
  {
  }

  /** Such a run. */
  lemma FriendsUnderABan()
    ensures var db := Run(Start({0, 1}), [Ask(0, 1, 7), Ban(1, 0), Accept(7, 1)]);
            db.AreFriends(0, 1) && db.HasActiveBan(0, 1)
  {
    var asked := Step(Start({0, 1}), Ask(0, 1, 7));
    var banned := Step(asked, Ban(1, 0));
    var accepted := Step(banned, Accept(7, 1));
    assert Canonical(0, 1) in accepted.friendships;
    assert Run(accepted, []) == accepted;
    assert [Ask(0, 1, 7), Ban(1, 0), Accept(7, 1)][1..] == [Ban(1, 0), Accept(7, 1)];
    assert [Ban(1, 0), Accept(7, 1)][1..] == [Accept(7, 1)] && [Accept(7, 1)][1..] == [];
  }

  // ----- Who may change what: one step -----

  /** A friendship starts only when the asked user accepts, and ends by an act of one of the two. */
  lemma FriendshipsChangeByTheirOwn(db: Db, action: Action, a: UserId, b: UserId)
    requires Step(db, action).AreFriends(a, b) != db.AreFriends(a, b)
    ensures match action
            case Accept(id, actor) =>
              && id in db.requests && db.requests[id].status == Pending && db.requests[id].receiver == actor
              && Canonical(db.requests[id].sender, actor) == Canonical(a, b) && !db.AreFriends(a, b)
            case Unfriend(actor, other) => Canonical(actor, other) == Canonical(a, b) && db.AreFriends(a, b)
            case Ban(actor, target) => Canonical(actor, target) == Canonical(a, b) && db.AreFriends(a, b)
            case _ => false
  {
  }

  /** A ban is set and lifted by its source alone. */
  lemma BansChangeByTheirSource(db: Db, action: Action, source: UserId, target: UserId)
    requires Step(db, action).Bans(source, target) != db.Bans(source, target)
    ensures action == if db.Bans(source, target) then Unban(source, target) else Ban(source, target)
  {
  }

  /** Asking needs an existing, different user with no ban, friendship or pending request between the two. */
  lemma AskingNeedsAClearPair(db: Db, sender: UserId, receiver: UserId, id: RequestId)
    requires id !in db.requests
    ensures CreateFriendRequest(db, sender, receiver, id).Success? <==>
            && receiver in db.users && receiver != sender
            && !db.HasActiveBan(sender, receiver) && !db.AreFriends(sender, receiver)
            && forall i :: i in db.requests && db.requests[i].status == Pending ==>
                 {db.requests[i].sender, db.requests[i].receiver} != {sender, receiver}
    ensures CreateFriendRequest(db, sender, receiver, id).Success? ==>
              Step(db, Ask(sender, receiver, id)).requests == db.requests[id := FriendRequest(sender, receiver, Pending)]
  {
    forall i | i in db.requests && {db.requests[i].sender, db.requests[i].receiver} == {sender, receiver}
      ensures (db.requests[i].sender == sender && db.requests[i].receiver == receiver)
              || (db.requests[i].sender == receiver && db.requests[i].receiver == sender)
    {
      var pair := {db.requests[i].sender, db.requests[i].receiver};
      assert db.requests[i].sender in pair && db.requests[i].receiver in pair && sender in pair && receiver in pair;
    }
  }

  /** A request is answered once, by the user it was sent to. */
  lemma RequestsAreAnsweredByTheirReceiver(db: Db, action: Action, id: RequestId)
    requires id in db.requests && id in Step(db, action).requests && Step(db, action).requests[id] != db.requests[id]
    ensures db.requests[id].status == Pending
    ensures action == Accept(id, db.requests[id].receiver) || action == Reject(id, db.requests[id].receiver)
    ensures Step(db, action).requests[id] == db.requests[id].(status := if action.Accept? then Accepted else Rejected)
  {
  }

  /** Dialogs open between unbanned friends only, start unfrozen, and never go. */
  lemma DialogsOpenBetweenFriends(db: Db, action: Action, pair: Pair)
    requires (pair in db.dialogs) != (pair in Step(db, action).dialogs)
    ensures pair !in db.dialogs && Step(db, action).dialogs[pair] == Dialog(false, None)
    ensures action.OpenDialog? && Canonical(action.current, action.other) == pair
    ensures db.AreFriends(action.current, action.other) && !db.HasActiveBan(action.current, action.other)
  {
  }

  // ----- Who may change what: whole runs -----

  /** Every request was sent by its sender to its receiver, when no ban or friendship stood between them. */
  lemma {:induction false} RequestsWereAsked(users: set<UserId>, actions: seq<Action>, id: RequestId, n: nat) returns (k: nat)
    requires n <= |actions| && id in At(users, actions, n).requests
    ensures var r := At(users, actions, n).requests[id];
            && k < n && actions[k] == Ask(r.sender, r.receiver, id)
            && !At(users, actions, k).HasActiveBan(r.sender, r.receiver) && !At(users, actions, k).AreFriends(r.sender, r.receiver)
  {
    hide Step;
    AtStart(users, actions);
    if n > 0 {
      AtNext(users, actions, n - 1);
      var before := At(users, actions, n - 1);
      if id in before.requests {
        k := RequestsWereAsked(users, actions, id, n - 1);
        if At(users, actions, n).requests[id] != before.requests[id] {
          RequestsAreAnsweredByTheirReceiver(before, actions[n - 1], id);
        }
      } else {
        RequestsComeFromTheirSender(before, actions[n - 1], id);
        k := n - 1;
      }
    }
  }

  lemma RequestsComeFromTheirSender(db: Db, action: Action, id: RequestId)
    requires id !in db.requests && id in Step(db, action).requests
    ensures var r := Step(db, action).requests[id];
            action == Ask(r.sender, r.receiver, id) && !db.HasActiveBan(r.sender, r.receiver) && !db.AreFriends(r.sender, r.receiver)
  {
  }

  /**
   Two users are friends only because one asked and then the other accepted, and neither has broken
   the friendship since.
   */
  lemma {:induction false} FriendshipsWereAgreed(users: set<UserId>, actions: seq<Action>, a: UserId, b: UserId, n: nat)
    returns (asked: nat, accepted: nat)
    requires n <= |actions| && At(users, actions, n).AreFriends(a, b)
    ensures asked < accepted < n && actions[asked].Ask? && actions[accepted].Accept?
    ensures actions[accepted] == Accept(actions[asked].id, actions[asked].receiver)
    ensures Canonical(actions[asked].sender, actions[asked].receiver) == Canonical(a, b)
    ensures forall j :: accepted < j <= n ==> At(users, actions, j).AreFriends(a, b)
  {
    hide Step;
    AtStart(users, actions);
    if n > 0 {
      AtNext(users, actions, n - 1);
      var before := At(users, actions, n - 1);
      if before.AreFriends(a, b) {
        asked, accepted := FriendshipsWereAgreed(users, actions, a, b, n - 1);
      } else {
        FriendshipsChangeByTheirOwn(before, actions[n - 1], a, b);
        accepted := n - 1;
        asked := RequestsWereAsked(users, actions, actions[n - 1].id, n - 1);
      }
    }
  }

  /** A ban in force was set by its source and not lifted since. */
  lemma {:induction false} BansWereSetByTheirSource(users: set<UserId>, actions: seq<Action>, source: UserId, target: UserId, n: nat)
    returns (k: nat)
    requires n <= |actions| && At(users, actions, n).Bans(source, target)
    ensures k < n && actions[k] == Ban(source, target)
    ensures forall j :: k < j <= n ==> At(users, actions, j).Bans(source, target)
  {
    hide Step;
    AtStart(users, actions);
    if n > 0 {
      AtNext(users, actions, n - 1);
      if At(users, actions, n - 1).Bans(source, target) {
        k := BansWereSetByTheirSource(users, actions, source, target, n - 1);
      } else {
        BansChangeByTheirSource(At(users, actions, n - 1), actions[n - 1], source, target);
        k := n - 1;
      }
    }
  }
}
