/**
 What the sockets get and where their channels are after any run, read off the actions: what is
 published, delivered and lost, and who subscribed and unsubscribed.
 */
module FanoutHistories {
  import opened Common
  import opened Histories
  import opened Fanout
  import opened Ordering

  // ----- Publications in their own words -----

  /** The room whose members a publication is for. */
  function RoomOf(p: Publication): Option<RoomId> {
    match p
    case RoomMessage(room, _) => Some(room)
    case RoomMessageRemoved(room) => Some(room)
    case RoomRead(room) => Some(room)
    case RoomMembership(room) => Some(room)
    case _ => None
  }

  /** The dialog whose users a publication is for. */
  function DialogOf(p: Publication): Option<DialogId> {
    match p
    case DialogMessage(dialog, _) => Some(dialog)
    case DialogMessageRemoved(dialog) => Some(dialog)
    case DialogRead(dialog) => Some(dialog)
    case _ => None
  }

  /** The one user a publication is for. */
  function UserOf(p: Publication): Option<UserId> {
    match p
    case RoomInvitation(user) => Some(user)
    case DialogSummary(user) => Some(user)
    case FriendRequest(user, _) => Some(user)
    case ForceUnsubscribe(user, _) => Some(user)
    case _ => None
  }

  predicate MemberOf(db: Rooms, room: RoomId, user: UserId) {
    room in db.isPrivate && (room, user) in db.members && (room, user) !in db.banned
  }

  /** It is for showing, and if it speaks of a room the user is a current unbanned member. */
  predicate MayShow(db: Rooms, p: Publication, user: UserId) {
    !p.ForceUnsubscribe? && (RoomOf(p).Some? ==> MemberOf(db, RoomOf(p).value, user))
  }

  lemma ForwardingExactly(db: Rooms, user: UserId, rooms: set<RoomId>, p: Publication)
    ensures React(db, user, rooms, EventOf(p)).sends <==> MayShow(db, p, user)
  {
  }

  lemma TargetExactly(p: Publication)
    ensures Target(p) == if RoomOf(p).Some? then RoomGroup(RoomOf(p).value)
                         else if DialogOf(p).Some? then DialogGroup(DialogOf(p).value)
                         else if UserOf(p).Some? then UserGroup(UserOf(p).value) else PresenceGroup
  {
  }

  /** What a publication is called on the wire, one name per kind of publication. */
  lemma EventTypesExactly(p: Publication, kind: Kind)
    ensures EventOf(p).Broadcast? && EventOf(p).kind == kind <==>
            match kind
            case RoomMessageCreated => p.RoomMessage? && !p.edited
            case RoomMessageUpdated => p.RoomMessage? && p.edited
            case RoomMessageDeleted => p.RoomMessageRemoved?
            case RoomReadUpdated => p.RoomRead?
            case RoomMembershipUpdated => p.RoomMembership?
            case RoomInvitationCreated => p.RoomInvitation?
            case DialogMessageCreated => p.DialogMessage? && !p.edited
            case DialogMessageUpdated => p.DialogMessage? && p.edited
            case DialogMessageDeleted => p.DialogMessageRemoved?
            case DialogReadUpdated => p.DialogRead?
            case DialogSummaryUpdated => p.DialogSummary?
            case FriendRequestCreated => p.FriendRequest? && p.isNew
            case FriendRequestUpdated => p.FriendRequest? && !p.isNew
            case PresenceUpdated => p == Presence
    ensures EventOf(p).ForceRoomUnsubscribe? <==> p.ForceUnsubscribe?
    ensures p.ForceUnsubscribe? ==> EventOf(p).room == p.room
  {
  }

  /** To whoever is no member, a private room looks like none at all; others learn that they are not allowed. */
  lemma PrivateRoomsStayHidden(db: Rooms, room: RoomId, user: UserId)
    ensures LiveAccess(db, room, user) ==
              if MemberOf(db, room, user) then Success(room)
              else if room in db.isPrivate && (!db.isPrivate[room] || (room, user) in db.members) then Failure(Forbidden)
              else Failure(NotFound)
  {
  }

  /** Rooms and dialogs change from outside only, as they are said to. */
  lemma SurroundingsNext(s: System, a: Action)
    ensures Step(s, a).db == if a.ChangeRooms? then a.db else s.db
    ensures forall d :: d in Step(s, a).dialogs <==> d in s.dialogs || (a.CreateDialog? && a.dialog == d)
    ensures forall d :: d in Step(s, a).dialogs ==>
              Step(s, a).dialogs[d] == if d in s.dialogs then s.dialogs[d] else (a.low, a.high)
  {
    hide React, EventOf;
  }

  // ----- What reaches a socket -----

  /** The state before the action with this number. */
  function At(s: System, actions: seq<Action>, k: nat): System
    requires k <= |actions|
  {
    Run(s, actions[..k])
  }

  lemma AtNext(s: System, actions: seq<Action>, k: nat)
    requires k < |actions|
    ensures At(s, actions, k + 1) == Step(At(s, actions, k), actions[k])
  {
    assert actions[..k + 1][..k] == actions[..k];
  }

  /** The entry an action takes out of the channel's inbox. */
  function TakenBy(s: System, a: Action, ch: Channel): Option<Publication> {
    if (a.Deliver? || a.Lose?) && a.channel == ch && Enabled(s, a) then Some(s.consumers[ch].inbox[a.index]) else None
  }

  /** The publication an action puts into the channel's inbox. */
  function BroughtBy(s: System, a: Action, ch: Channel): Option<Publication> {
    if a.Publish? && ch in s.consumers && (Target(a.publication), ch) in s.groups then Some(a.publication) else None
  }

  /** The publication an action shows to the channel's user. */
  function ShownBy(s: System, a: Action, ch: Channel): Option<Publication> {
    var taken := TakenBy(s, a, ch);
    if a.Deliver? && taken.Some? && MayShow(s.db, taken.value, s.consumers[ch].user) then taken else None
  }

  function Listed(p: Option<Publication>): seq<Publication> {
    if p.Some? then [p.value] else []
  }

  function Arrived(s: System, actions: seq<Action>, ch: Channel, n: nat): seq<Publication>
    requires n <= |actions|
  {
    if n == 0 then [] else Arrived(s, actions, ch, n - 1) + Listed(BroughtBy(At(s, actions, n - 1), actions[n - 1], ch))
  }

  function Taken(s: System, actions: seq<Action>, ch: Channel, n: nat): seq<Publication>
    requires n <= |actions|
  {
    if n == 0 then [] else Taken(s, actions, ch, n - 1) + Listed(TakenBy(At(s, actions, n - 1), actions[n - 1], ch))
  }

  function Shown(s: System, actions: seq<Action>, ch: Channel, n: nat): seq<Publication>
    requires n <= |actions|
  {
    if n == 0 then [] else Shown(s, actions, ch, n - 1) + Listed(ShownBy(At(s, actions, n - 1), actions[n - 1], ch))
  }

  /** What was sent over one channel's socket. */
  function SentTo(sent: seq<Delivery>, ch: Channel): seq<Publication> {
    if sent == [] then []
    else SentTo(sent[..|sent| - 1], ch) + if sent[|sent| - 1].channel == ch then [sent[|sent| - 1].publication] else []
  }

  lemma SentOnce(sent: seq<Delivery>, d: Delivery, ch: Channel)
    ensures SentTo(sent + [d], ch) == SentTo(sent, ch) + if d.channel == ch then [d.publication] else []
  {
    assert (sent + [d])[..|sent|] == sent;
  }

  lemma SentNext(s: System, a: Action, ch: Channel)
    ensures SentTo(Step(s, a).sent, ch) == SentTo(s.sent, ch) + Listed(ShownBy(s, a, ch))
  {
    hide React, EventOf, MayShow, SentTo;
    if a.Deliver? && Enabled(s, a) {
      var c := s.consumers[a.channel];
      ForwardingExactly(s.db, c.user, c.rooms, c.inbox[a.index]);
      SentOnce(s.sent, Delivery(a.channel, c.inbox[a.index]), ch);
      assert s.sent + [] == s.sent;
    }
    assert SentTo(s.sent, ch) + [] == SentTo(s.sent, ch);
  }

  /**
   What a socket has been sent is exactly, in this order, what was delivered to it at moments when
   its user could be shown it.
   */
  lemma {:induction false} SentExactly(s: System, actions: seq<Action>, ch: Channel, n: nat)
    requires Initial(s) && n <= |actions|
    ensures SentTo(At(s, actions, n).sent, ch) == Shown(s, actions, ch, n)
  {
    hide Step, ShownBy;
    if n > 0 {
      SentExactly(s, actions, ch, n - 1);
      AtNext(s, actions, n - 1);
      SentNext(At(s, actions, n - 1), actions[n - 1], ch);
      hide At, SentTo;
    }
  }

  lemma OneLess<T>(s: seq<T>, i: nat)
    requires i < |s|
    ensures multiset(Without(s, i)) + multiset([s[i]]) == multiset(s)
  {
    assert s == s[..i] + [s[i]] + s[i + 1..];
  }

  /** Publishing brings, delivering and losing take, and nothing else touches an inbox. */
  lemma InboxMoves(s: System, a: Action, ch: Channel)
    requires ch in s.consumers
    ensures var inbox, after := s.consumers[ch].inbox, Step(s, a).consumers[ch].inbox;
            if BroughtBy(s, a, ch).Some? then TakenBy(s, a, ch) == None && after == inbox + [BroughtBy(s, a, ch).value]
            else if TakenBy(s, a, ch).Some? then a.index < |inbox| && inbox[a.index] == TakenBy(s, a, ch).value && after == Without(inbox, a.index)
            else after == inbox
  {
    hide React, EventOf, Target, Without;
  }

  lemma InboxNext(s: System, a: Action, ch: Channel)
    requires ch in s.consumers
    ensures multiset(Step(s, a).consumers[ch].inbox) + multiset(Listed(TakenBy(s, a, ch)))
         == multiset(s.consumers[ch].inbox) + multiset(Listed(BroughtBy(s, a, ch)))
  {
    InboxMoves(s, a, ch);
    hide BroughtBy, TakenBy, Without, Step;
    if TakenBy(s, a, ch).Some? {
      OneLess(s.consumers[ch].inbox, a.index);
    }
  }

  /** What comes in and what goes out, added to what came in and went out before. */
  lemma Balanced(before: seq<Publication>, after: seq<Publication>, went: seq<Publication>, came: seq<Publication>,
                 goes: seq<Publication>, comes: seq<Publication>)
    requires multiset(before) + multiset(went) == multiset(came)
    requires multiset(after) + multiset(goes) == multiset(before) + multiset(comes)
    ensures multiset(after) + multiset(went + goes) == multiset(came + comes)
  {
    assert multiset(went + goes) == multiset(went) + multiset(goes);
    assert multiset(came + comes) == multiset(came) + multiset(comes);
    forall p ensures (multiset(after) + multiset(went + goes))[p] == multiset(came + comes)[p] {
      assert (multiset(before) + multiset(went))[p] == multiset(came)[p];
      assert (multiset(after) + multiset(goes))[p] == (multiset(before) + multiset(comes))[p];
    }
  }

  /**
   Nothing gets lost unsaid and nothing is made up: what was published to a channel's groups while it
   was in them is what has been delivered or lost, and what is still in its inbox.
   */
  lemma {:induction false} InboxExactly(s: System, actions: seq<Action>, ch: Channel, n: nat)
    requires Initial(s) && n <= |actions| && ch in At(s, actions, n).consumers
    ensures multiset(At(s, actions, n).consumers[ch].inbox) + multiset(Taken(s, actions, ch, n))
         == multiset(Arrived(s, actions, ch, n))
  {
    hide Step, TakenBy, BroughtBy, At, Listed;
    NoConsumersYet(s, actions);
    if n > 0 {
      AtNext(s, actions, n - 1);
      var before, a := At(s, actions, n - 1), actions[n - 1];
      if ch in before.consumers {
        InboxExactly(s, actions, ch, n - 1);
        InboxNext(before, a, ch);
        Balanced(before.consumers[ch].inbox, At(s, actions, n).consumers[ch].inbox, Taken(s, actions, ch, n - 1),
                 Arrived(s, actions, ch, n - 1), Listed(TakenBy(before, a, ch)), Listed(BroughtBy(before, a, ch)));
      } else {
        NewInbox(before, a, ch);
        NothingBefore(s, actions, ch, n - 1);
        ListedNothing();
      }
    }
  }

  lemma ListedNothing()
    ensures Listed(None) == []
  {
  }

  lemma NoConsumersYet(s: System, actions: seq<Action>)
    requires Initial(s)
    ensures At(s, actions, 0).consumers == map[]
  {
    assert actions[..0] == [];
  }

  lemma NewInbox(s: System, a: Action, ch: Channel)
    requires ch !in s.consumers
    ensures TakenBy(s, a, ch) == None && BroughtBy(s, a, ch) == None
    ensures ch in Step(s, a).consumers ==> Step(s, a).consumers[ch].inbox == []
  {
  }

  lemma {:induction false} NothingBefore(s: System, actions: seq<Action>, ch: Channel, n: nat)
    requires n <= |actions| && ch !in At(s, actions, n).consumers
    ensures Taken(s, actions, ch, n) == [] && Arrived(s, actions, ch, n) == []
  {
    hide TakenBy, BroughtBy, Step;
    if n > 0 {
      AtNext(s, actions, n - 1);
      ChannelsStay(At(s, actions, n - 1), actions[n - 1], ch);
      NewInbox(At(s, actions, n - 1), actions[n - 1], ch);
      NothingBefore(s, actions, ch, n - 1);
    }
  }

  lemma ChannelsStay(s: System, a: Action, ch: Channel)
    requires ch !in Step(s, a).consumers
    ensures ch !in s.consumers
  {
  }

  // ----- Subscriptions -----

  /** The consumer once the handler in progress is through. */
  function Outcome(s: System, ch: Channel): Local
    requires ch in s.consumers
  {
    ApplyAll(LocalOf(s, ch), s.consumers[ch].todo)
  }

  /** An idle socket subscribes to a room its user is a current unbanned member of. */
  predicate JoinsRoom(s: System, a: Action, ch: Channel, room: RoomId) {
    Idle(s, ch) && a == SubscribeRoom(ch, room) && MemberOf(s.db, room, s.consumers[ch].user)
  }

  /** The user is told to go, or an event of a room comes in that they are no current unbanned member of. */
  predicate Evicts(db: Rooms, user: UserId, p: Publication, room: RoomId) {
    (p.ForceUnsubscribe? && p.room == room) || (RoomOf(p) == Some(room) && !MemberOf(db, room, user))
  }

  predicate QuitsRoom(s: System, a: Action, ch: Channel, room: RoomId) {
    && Idle(s, ch)
    && (a == UnsubscribeRoom(ch, room)
        || (a.Deliver? && a.channel == ch && a.index < |s.consumers[ch].inbox|
            && Evicts(s.db, s.consumers[ch].user, s.consumers[ch].inbox[a.index], room)))
  }

  predicate JoinsDialog(s: System, a: Action, ch: Channel, dialog: DialogId) {
    && Idle(s, ch) && a == SubscribeDialog(ch, dialog) && dialog in s.dialogs
    && (s.dialogs[dialog].0 == s.consumers[ch].user || s.dialogs[dialog].1 == s.consumers[ch].user)
  }

  predicate QuitsDialog(s: System, a: Action, ch: Channel, dialog: DialogId) {
    Idle(s, ch) && a == UnsubscribeDialog(ch, dialog)
  }

  predicate Closes(s: System, a: Action, ch: Channel) {
    a.Disconnect? && a.channel == ch && Enabled(s, a)
  }

  lemma AccessExactly(db: Rooms, room: RoomId, user: UserId)
    ensures LiveAccess(db, room, user).Success? <==> MemberOf(db, room, user)
  {
  }

  /** The work of the handler that an action starts in this channel's consumer. */
  function Started(s: System, a: Action, ch: Channel): seq<Op>
    requires ch in s.consumers
  {
    if !Enabled(s, a) then []
    else match a
      case Disconnect(c, order) => if c == ch then DisconnectOps(order, s.consumers[ch].user) else []
      case SubscribeRoom(c, room) => if c == ch then SubscribeRoomOps(room) else []
      case UnsubscribeRoom(c, room) => if c == ch then UnsubscribeRoomOps(room) else []
      case SubscribeDialog(c, dialog) => if c == ch then SubscribeDialogOps(dialog) else []
      case UnsubscribeDialog(c, dialog) => if c == ch then UnsubscribeDialogOps(dialog) else []
      case Deliver(c, i) =>
        if c == ch then React(s.db, s.consumers[ch].user, s.consumers[ch].rooms, EventOf(s.consumers[ch].inbox[i])).ops else []
      case _ => []
  }

  lemma WorkKeepsOutcome(s: System, worker: Channel, ch: Channel)
    requires Enabled(s, Work(worker)) && ch in s.consumers
    ensures Outcome(Next(s, Work(worker)), ch) == Outcome(s, ch)
  {
    var op, s' := s.consumers[worker].todo[0], Next(s, Work(worker));
    PerformIsLocal(s, worker, op, ch);
    assert LocalOf(s', ch) == LocalOf(Perform(s, worker, op), ch);
  }

  lemma StartMakesOutcome(s: System, ch: Channel, s': System, ops: seq<Op>)
    requires Idle(s, ch) && ch in s'.consumers && s'.groups == s.groups
    requires s'.consumers[ch] == s.consumers[ch].(todo := ops, inbox := s'.consumers[ch].inbox)
    ensures Outcome(s', ch) == ApplyAll(Outcome(s, ch), ops)
  {
    assert LocalOf(s', ch) == LocalOf(s, ch);
  }

  lemma ElsewhereKeepsOutcome(s: System, s': System, ch: Channel)
    requires ch in s.consumers && ch in s'.consumers && s'.groups == s.groups
    requires s'.consumers[ch] == s.consumers[ch].(inbox := s'.consumers[ch].inbox)
    ensures Outcome(s', ch) == Outcome(s, ch)
  {
    assert LocalOf(s', ch) == LocalOf(s, ch);
  }

  lemma OutcomeNext(s: System, a: Action, ch: Channel)
    requires ch in s.consumers
    ensures Outcome(Step(s, a), ch) == ApplyAll(Outcome(s, ch), Started(s, a, ch))
  {
    hide React, EventOf, Outcome, ApplyAll, DisconnectOps, SubscribeRoomOps, UnsubscribeRoomOps, SubscribeDialogOps,
      UnsubscribeDialogOps, SubscribedGroups;
    ApplyNone(Outcome(s, ch));
    if a.Work? && Enabled(s, a) {
      WorkKeepsOutcome(s, a.channel, ch);
    } else if Started(s, a, ch) != [] || (Idle(s, ch) && Step(s, a).consumers[ch].todo == []) {
      StartMakesOutcome(s, ch, Step(s, a), Started(s, a, ch));
    } else {
      ElsewhereKeepsOutcome(s, Step(s, a), ch);
    }
  }

  lemma ApplyNone(local: Local)
    ensures ApplyAll(local, []) == local
  {
  }

  lemma RoomsNext(s: System, a: Action, ch: Channel, room: RoomId)
    requires ch in s.consumers
    ensures room in Outcome(Step(s, a), ch).rooms <==>
            JoinsRoom(s, a, ch, room) || (room in Outcome(s, ch).rooms && !QuitsRoom(s, a, ch, room))
  {
    OutcomeNext(s, a, ch);
    StartedRooms(s, a, ch, room);
    hide Outcome, Step, Started, JoinsRoom, QuitsRoom;
  }

  lemma {:induction false} DisconnectingKeepsSets(local: Local, subscribed: seq<Group>, user: UserId)
    ensures var o := ApplyAll(local, DisconnectOps(subscribed, user));
            o.rooms == local.rooms && o.dialogs == local.dialogs && o.status == Closed
  {
    var rest := [GroupDiscard(UserGroup(user)), GroupDiscard(PresenceGroup), Finish(Closed)];
    DiscardsRemove(local, subscribed, rest);
    ThreeOps(local.(groups := local.groups - Elements(subscribed)), rest);
    hide ApplyAll;
  }

  lemma StartedRooms(s: System, a: Action, ch: Channel, room: RoomId)
    requires ch in s.consumers
    ensures room in ApplyAll(Outcome(s, ch), Started(s, a, ch)).rooms <==>
            JoinsRoom(s, a, ch, room) || (room in Outcome(s, ch).rooms && !QuitsRoom(s, a, ch, room))
  {
    var o, ops := Outcome(s, ch), Started(s, a, ch);
    assert Idle(s, ch) ==> o.rooms == s.consumers[ch].rooms;
    if ops == [] {
      ApplyNone(o);
    } else if a.Disconnect? {
      DisconnectingKeepsSets(o, a.order, s.consumers[ch].user);
    } else {
      TwoOps(o, ops);
    }
    hide ApplyAll, Outcome, DisconnectOps, SubscribedGroups;
  }

  lemma StartedDialogs(s: System, a: Action, ch: Channel, dialog: DialogId)
    requires ch in s.consumers
    ensures dialog in ApplyAll(Outcome(s, ch), Started(s, a, ch)).dialogs <==>
            JoinsDialog(s, a, ch, dialog) || (dialog in Outcome(s, ch).dialogs && !QuitsDialog(s, a, ch, dialog))
  {
    var o, ops := Outcome(s, ch), Started(s, a, ch);
    if ops == [] {
      ApplyNone(o);
    } else if a.Disconnect? {
      DisconnectingKeepsSets(o, a.order, s.consumers[ch].user);
    } else {
      TwoOps(o, ops);
    }
    hide ApplyAll, Outcome, DisconnectOps, SubscribedGroups, EventOf, RoomIdFromEvent, LiveAccess;
  }

  lemma StartedStatus(s: System, a: Action, ch: Channel)
    requires ch in s.consumers
    ensures ApplyAll(Outcome(s, ch), Started(s, a, ch)).status ==
            if Closes(s, a, ch) then Closed else Outcome(s, ch).status
  {
    var o, ops := Outcome(s, ch), Started(s, a, ch);
    if ops == [] {
      ApplyNone(o);
    } else if a.Disconnect? {
      DisconnectingKeepsSets(o, a.order, s.consumers[ch].user);
    } else {
      TwoOps(o, ops);
    }
    hide ApplyAll, Outcome, SubscribedGroups, EventOf, RoomIdFromEvent, LiveAccess;
  }

  /** The socket is subscribed to the room once its handler is through. */
  predicate Follows(s: System, ch: Channel, room: RoomId) {
    ch in s.consumers && room in Outcome(s, ch).rooms
  }

  predicate FollowsDialog(s: System, ch: Channel, dialog: DialogId) {
    ch in s.consumers && dialog in Outcome(s, ch).dialogs
  }

  predicate EndsClosed(s: System, ch: Channel) {
    ch in s.consumers && Outcome(s, ch).status == Closed
  }

  lemma NewOutcome(s: System, a: Action, ch: Channel)
    requires ch !in s.consumers && ch in Step(s, a).consumers
    ensures var o := Outcome(Step(s, a), ch); o.rooms == {} && o.dialogs == {} && o.status == Open
  {
    ThreeOps(LocalOf(Step(s, a), ch), ConnectOps(a.user));
    hide ApplyAll;
  }

  lemma FollowsNext(s: System, a: Action, ch: Channel, room: RoomId)
    ensures Follows(Step(s, a), ch, room) <==>
            JoinsRoom(s, a, ch, room) || (Follows(s, ch, room) && !QuitsRoom(s, a, ch, room))
  {
    if ch in s.consumers {
      OutcomeNext(s, a, ch);
      StartedRooms(s, a, ch, room);
      StepKeepsUsers(s, a, ch);
    } else if ch in Step(s, a).consumers {
      NewOutcome(s, a, ch);
    }
    hide Outcome, Step, Started, ApplyAll, MemberOf, QuitsRoom;
  }

  lemma FollowsDialogNext(s: System, a: Action, ch: Channel, dialog: DialogId)
    ensures FollowsDialog(Step(s, a), ch, dialog) <==>
            JoinsDialog(s, a, ch, dialog) || (FollowsDialog(s, ch, dialog) && !QuitsDialog(s, a, ch, dialog))
  {
    if ch in s.consumers {
      OutcomeNext(s, a, ch);
      StartedDialogs(s, a, ch, dialog);
      StepKeepsUsers(s, a, ch);
    } else if ch in Step(s, a).consumers {
      NewOutcome(s, a, ch);
    }
    hide Outcome, Step, Started, ApplyAll, Participant, QuitsDialog;
  }

  lemma EndsClosedNext(s: System, a: Action, ch: Channel)
    ensures EndsClosed(Step(s, a), ch) <==> Closes(s, a, ch) || EndsClosed(s, ch)
  {
    if ch in s.consumers {
      OutcomeNext(s, a, ch);
      StartedStatus(s, a, ch);
      StepKeepsUsers(s, a, ch);
    } else if ch in Step(s, a).consumers {
      NewOutcome(s, a, ch);
    }
    hide Outcome, Step, Started, ApplyAll, SubscribedGroups;
  }

  lemma AtStart(s: System, actions: seq<Action>)
    ensures At(s, actions, 0) == s
  {
    assert actions[..0] == [];
  }

  function RoomJoins(s: System, actions: seq<Action>, ch: Channel, room: RoomId): set<nat> {
    set k | 0 <= k < |actions| && JoinsRoom(At(s, actions, k), actions[k], ch, room)
  }

  function RoomQuits(s: System, actions: seq<Action>, ch: Channel, room: RoomId): set<nat> {
    set k | 0 <= k < |actions| && QuitsRoom(At(s, actions, k), actions[k], ch, room)
  }

  /**
   A socket follows a room since it subscribed while its user was a current unbanned member, until
   it unsubscribes, is told to, or is handed an event of the room after its user lost the
   membership.
   */
  lemma FollowersExactly(s: System, actions: seq<Action>, ch: Channel, room: RoomId, n: nat)
    requires Initial(s) && n <= |actions|
    ensures Follows(At(s, actions, n), ch, room) <==>
            Since(RoomJoins(s, actions, ch, room), RoomQuits(s, actions, ch, room), n)
  {
    hide Step, At;
    AtStart(s, actions);
    var starts, ends := RoomJoins(s, actions, ch, room), RoomQuits(s, actions, ch, room);
    var holds := set k | 0 <= k <= |actions| && Follows(At(s, actions, k), ch, room);
    forall k: nat | k < n ensures k + 1 in holds <==> k in starts || (k in holds && k !in ends) {
      AtNext(s, actions, k);
      FollowsNext(At(s, actions, k), actions[k], ch, room);
      hide JoinsRoom, QuitsRoom, Follows;
    }
    SinceExactly(holds, starts, ends, n);
  }

  function DialogJoins(s: System, actions: seq<Action>, ch: Channel, dialog: DialogId): set<nat> {
    set k | 0 <= k < |actions| && JoinsDialog(At(s, actions, k), actions[k], ch, dialog)
  }

  function DialogQuits(s: System, actions: seq<Action>, ch: Channel, dialog: DialogId): set<nat> {
    set k | 0 <= k < |actions| && QuitsDialog(At(s, actions, k), actions[k], ch, dialog)
  }

  /** A socket follows a dialog since it subscribed as one of its users, until it unsubscribes. */
  lemma DialogFollowersExactly(s: System, actions: seq<Action>, ch: Channel, dialog: DialogId, n: nat)
    requires Initial(s) && n <= |actions|
    ensures FollowsDialog(At(s, actions, n), ch, dialog) <==>
            Since(DialogJoins(s, actions, ch, dialog), DialogQuits(s, actions, ch, dialog), n)
  {
    hide Step, At;
    AtStart(s, actions);
    var starts, ends := DialogJoins(s, actions, ch, dialog), DialogQuits(s, actions, ch, dialog);
    var holds := set k | 0 <= k <= |actions| && FollowsDialog(At(s, actions, k), ch, dialog);
    forall k: nat | k < n ensures k + 1 in holds <==> k in starts || (k in holds && k !in ends) {
      AtNext(s, actions, k);
      FollowsDialogNext(At(s, actions, k), actions[k], ch, dialog);
      hide JoinsDialog, QuitsDialog, FollowsDialog;
    }
    SinceExactly(holds, starts, ends, n);
  }

  function Disconnects(s: System, actions: seq<Action>, ch: Channel): set<nat> {
    set k | 0 <= k < |actions| && Closes(At(s, actions, k), actions[k], ch)
  }

  /** A socket is closed since it disconnected, for good. */
  lemma ClosedExactly(s: System, actions: seq<Action>, ch: Channel, n: nat)
    requires Initial(s) && n <= |actions|
    ensures EndsClosed(At(s, actions, n), ch) <==> Since(Disconnects(s, actions, ch), {}, n)
  {
    hide Step, At;
    AtStart(s, actions);
    var starts := Disconnects(s, actions, ch);
    var holds := set k | 0 <= k <= |actions| && EndsClosed(At(s, actions, k), ch);
    forall k: nat | k < n ensures k + 1 in holds <==> k in starts || k in holds {
      AtNext(s, actions, k);
      EndsClosedNext(At(s, actions, k), actions[k], ch);
      hide Closes, EndsClosed;
    }
    SinceExactly(holds, starts, {}, n);
  }

  /**
   Whatever was interleaved, a channel whose handler is through is in a room's or dialog's group
   exactly when it has not disconnected and follows the room or dialog by the actions so far.
   */
  lemma GroupsExactly(s: System, actions: seq<Action>, ch: Channel, room: RoomId, dialog: DialogId)
    requires Initial(s) && ch in Run(s, actions).consumers && Run(s, actions).consumers[ch].todo == []
    ensures
      var n, groups := |actions|, Run(s, actions).groups;
      var closed := Since(Disconnects(s, actions, ch), {}, n);
      && ((RoomGroup(room), ch) in groups <==>
            !closed && Since(RoomJoins(s, actions, ch, room), RoomQuits(s, actions, ch, room), n))
      && ((DialogGroup(dialog), ch) in groups <==>
            !closed && Since(DialogJoins(s, actions, ch, dialog), DialogQuits(s, actions, ch, dialog), n))
  {
    var reached := Run(s, actions);
    assert actions[..|actions|] == actions;
    GroupsMatchSubscriptions(s, actions, ch);
    FollowersExactly(s, actions, ch, room, |actions|);
    DialogFollowersExactly(s, actions, ch, dialog, |actions|);
    ClosedExactly(s, actions, ch, |actions|);
    ApplyNone(LocalOf(reached, ch));
    hide Run, RoomJoins, RoomQuits, DialogJoins, DialogQuits, Disconnects, Since, ApplyAll;
  }

  /**
   A publication comes to a channel whose handler is through exactly when it is about a room or
   dialog the socket follows, is for its user, or is about presence.
   */
  lemma PublishingReaches(s: System, actions: seq<Action>, ch: Channel, p: Publication)
    requires Initial(s) && Idle(Run(s, actions), ch)
    ensures
      var c := Run(s, actions).consumers[ch];
      BroughtBy(Run(s, actions), Publish(p), ch) ==
        if (if RoomOf(p).Some? then Follows(Run(s, actions), ch, RoomOf(p).value)
            else if DialogOf(p).Some? then FollowsDialog(Run(s, actions), ch, DialogOf(p).value)
            else if UserOf(p).Some? then UserOf(p).value == c.user else true)
        then Some(p) else None
  {
    GroupsMatchSubscriptions(s, actions, ch);
    TargetExactly(p);
    ApplyNone(LocalOf(Run(s, actions), ch));
    hide Run, Target, ApplyAll;
  }
}
