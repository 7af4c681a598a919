/**
 The WebSocket fan-out protocol. Every socket has a consumer with its own subscription sets; the
 channel layer keeps group membership and an inbox per channel. A handler runs its checks at once
 and then does its channel-layer work one operation at a time, so between any two operations other
 consumers, publishers and membership transactions may run. One consumer runs one handler at a time.
 */
module Fanout {
  import opened Common
  import opened Ordering

  type UserId = nat
  type RoomId = nat
  type DialogId = nat
  type Channel = nat

  // ----- Groups and what is published to them -----

  datatype Group = UserGroup(user: UserId) | PresenceGroup | RoomGroup(room: RoomId) | DialogGroup(dialog: DialogId)

  datatype ChatRef = InRoom(room: RoomId) | InDialog(dialog: DialogId)

  /** The parts of a payload the consumer looks at: a `room_id` and a message's chat. */
  datatype Payload = Payload(roomId: Option<RoomId>, message: Option<ChatRef>)

  datatype Kind =
    | RoomMessageCreated | RoomMessageUpdated | RoomMessageDeleted | RoomReadUpdated
    | RoomMembershipUpdated | RoomInvitationCreated
    | DialogMessageCreated | DialogMessageUpdated | DialogMessageDeleted | DialogReadUpdated
    | DialogSummaryUpdated | FriendRequestCreated | FriendRequestUpdated | PresenceUpdated

  /** Event types that start with "room.". */
  predicate RoomKind(kind: Kind) {
    kind.RoomMessageCreated? || kind.RoomMessageUpdated? || kind.RoomMessageDeleted? ||
    kind.RoomReadUpdated? || kind.RoomMembershipUpdated? || kind.RoomInvitationCreated?
  }

  datatype Event = Broadcast(kind: Kind, payload: Payload) | ForceRoomUnsubscribe(room: RoomId)

  /** Everything the publishers send, each with its target. */
  datatype Publication =
    | RoomMessage(room: RoomId, edited: bool)
    | RoomMessageRemoved(room: RoomId)
    | RoomRead(room: RoomId)
    | RoomMembership(room: RoomId)
    | RoomInvitation(user: UserId)
    | DialogMessage(dialog: DialogId, edited: bool)
    | DialogMessageRemoved(dialog: DialogId)
    | DialogRead(dialog: DialogId)
    | DialogSummary(user: UserId)
    | FriendRequest(user: UserId, isNew: bool)
    | Presence
    | ForceUnsubscribe(user: UserId, room: RoomId)

  function Target(p: Publication): Group {
    match p
    case RoomMessage(r, _) => RoomGroup(r)
    case RoomMessageRemoved(r) => RoomGroup(r)
    case RoomRead(r) => RoomGroup(r)
    case RoomMembership(r) => RoomGroup(r)
    case RoomInvitation(u) => UserGroup(u)
    case DialogMessage(d, _) => DialogGroup(d)
    case DialogMessageRemoved(d) => DialogGroup(d)
    case DialogRead(d) => DialogGroup(d)
    case DialogSummary(u) => UserGroup(u)
    case FriendRequest(u, _) => UserGroup(u)
    case Presence => PresenceGroup
    case ForceUnsubscribe(u, _) => UserGroup(u)
  }

  function EventOf(p: Publication): Event {
    match p
    case RoomMessage(r, edited) =>
      Broadcast(if edited then RoomMessageUpdated else RoomMessageCreated, Payload(None, Some(InRoom(r))))
    case RoomMessageRemoved(r) => Broadcast(RoomMessageDeleted, Payload(Some(r), None))
    case RoomRead(r) => Broadcast(RoomReadUpdated, Payload(Some(r), None))
    case RoomMembership(r) => Broadcast(RoomMembershipUpdated, Payload(Some(r), None))
    case RoomInvitation(_) => Broadcast(RoomInvitationCreated, Payload(None, None))
    case DialogMessage(d, edited) =>
      Broadcast(if edited then DialogMessageUpdated else DialogMessageCreated, Payload(None, Some(InDialog(d))))
    case DialogMessageRemoved(_) => Broadcast(DialogMessageDeleted, Payload(None, None))
    case DialogRead(_) => Broadcast(DialogReadUpdated, Payload(None, None))
    case DialogSummary(_) => Broadcast(DialogSummaryUpdated, Payload(None, None))
    case FriendRequest(_, isNew) =>
      Broadcast(if isNew then FriendRequestCreated else FriendRequestUpdated, Payload(None, None))
    case Presence => Broadcast(PresenceUpdated, Payload(None, None))
    case ForceUnsubscribe(_, r) => ForceRoomUnsubscribe(r)
  }

  function RoomIdFromEvent(payload: Payload): Option<RoomId> {
    if payload.roomId.Some? then payload.roomId
    else match payload.message
      case Some(InRoom(r)) => Some(r)
      case _ => None
  }

  // ----- Live access to rooms -----

  datatype Rooms = Rooms(isPrivate: map<RoomId, bool>, members: set<(RoomId, UserId)>, banned: set<(RoomId, UserId)>)

  datatype AccessError = NotFound | Forbidden

  function LiveAccess(db: Rooms, room: RoomId, user: UserId): Result<RoomId, AccessError> {
    if room !in db.isPrivate then Failure(NotFound)
    else if db.isPrivate[room] && (room, user) !in db.members then Failure(NotFound)
    else if (room, user) !in db.members || (room, user) in db.banned then Failure(Forbidden)
    else Success(room)
  }

  // ----- One consumer: its sets, its groups, and the work its handler still has to do -----

  datatype Status = Connecting | Open | Closed

  datatype Op =
    | GroupAdd(group: Group)
    | GroupDiscard(group: Group)
    | RememberRoom(room: RoomId)
    | ForgetRoom(room: RoomId)
    | RememberDialog(dialog: DialogId)
    | ForgetDialog(dialog: DialogId)
    | Finish(status: Status)

  datatype Local = Local(status: Status, groups: set<Group>, rooms: set<RoomId>, dialogs: set<DialogId>)

  function Apply(local: Local, op: Op): Local {
    match op
    case GroupAdd(g) => local.(groups := local.groups + {g})
    case GroupDiscard(g) => local.(groups := local.groups - {g})
    case RememberRoom(r) => local.(rooms := local.rooms + {r})
    case ForgetRoom(r) => local.(rooms := local.rooms - {r})
    case RememberDialog(d) => local.(dialogs := local.dialogs + {d})
    case ForgetDialog(d) => local.(dialogs := local.dialogs - {d})
    case Finish(status) => local.(status := status)
  }

  function ApplyAll(local: Local, ops: seq<Op>): Local
    decreases |ops|
  {
    if ops == [] then local else ApplyAll(Apply(local, ops[0]), ops[1..])
  }

  /** An idle open consumer is in exactly the groups its sets name; a closed one is in none. */
  ghost predicate Settled(local: Local, user: UserId) {
    match local.status
    case Connecting => false
    case Closed => local.groups == {}
    case Open =>
      && PresenceGroup in local.groups
      && (forall u :: UserGroup(u) in local.groups <==> u == user)
      && (forall r :: RoomGroup(r) in local.groups <==> r in local.rooms)
      && (forall d :: DialogGroup(d) in local.groups <==> d in local.dialogs)
  }

  function ConnectOps(user: UserId): seq<Op> {
    [GroupAdd(UserGroup(user)), GroupAdd(PresenceGroup), Finish(Open)]
  }

  function Discards(groups: seq<Group>): seq<Op> {
    if groups == [] then [] else [GroupDiscard(groups[0])] + Discards(groups[1..])
  }

  /** Leave the subscribed groups in some order, then the user's own group and the presence group. */
  function DisconnectOps(subscribed: seq<Group>, user: UserId): seq<Op> {
    Discards(subscribed) + [GroupDiscard(UserGroup(user)), GroupDiscard(PresenceGroup), Finish(Closed)]
  }

  function SubscribeRoomOps(room: RoomId): seq<Op> { [GroupAdd(RoomGroup(room)), RememberRoom(room)] }
  function UnsubscribeRoomOps(room: RoomId): seq<Op> { [GroupDiscard(RoomGroup(room)), ForgetRoom(room)] }
  function SubscribeDialogOps(dialog: DialogId): seq<Op> { [GroupAdd(DialogGroup(dialog)), RememberDialog(dialog)] }
  function UnsubscribeDialogOps(dialog: DialogId): seq<Op> { [GroupDiscard(DialogGroup(dialog)), ForgetDialog(dialog)] }

  datatype Reaction = Reaction(sends: bool, ops: seq<Op>)

  /** What a consumer does with one event from its inbox. */
  function React(db: Rooms, user: UserId, rooms: set<RoomId>, event: Event): Reaction {
    match event
    case ForceRoomUnsubscribe(room) => Reaction(false, if room in rooms then UnsubscribeRoomOps(room) else [])
    case Broadcast(kind, payload) =>
      var room := RoomIdFromEvent(payload);
      if RoomKind(kind) && room.Some? && LiveAccess(db, room.value, user).Failure? then
        Reaction(false, if room.value in rooms then UnsubscribeRoomOps(room.value) else [])
      else Reaction(true, [])
  }

  /** The groups a consumer's two subscription sets name. */
  function SubscribedGroups(local: Local): set<Group> {
    (set r | r in local.rooms :: RoomGroup(r)) + (set d | d in local.dialogs :: DialogGroup(d))
  }

  lemma {:induction false} DiscardsRemove(local: Local, groups: seq<Group>, rest: seq<Op>)
    ensures ApplyAll(local, Discards(groups) + rest) == ApplyAll(local.(groups := local.groups - Elements(groups)), rest)
    decreases |groups|
  {
    if groups == [] {
      assert Discards(groups) + rest == rest && local.groups - Elements(groups) == local.groups;
    } else {
      var after := Apply(local, GroupDiscard(groups[0]));
      var ops := Discards(groups) + rest;
      assert ops[0] == GroupDiscard(groups[0]) && ops[1..] == Discards(groups[1..]) + rest;
      assert ApplyAll(local, ops) == ApplyAll(after, Discards(groups[1..]) + rest);
      hide ApplyAll;
      DiscardsRemove(after, groups[1..], rest);
      assert groups == [groups[0]] + groups[1..];
      assert after.groups - Elements(groups[1..]) == local.groups - Elements(groups);
    }
  }

  lemma DisconnectSettles(local: Local, user: UserId, subscribed: seq<Group>)
    requires local.status == Open && Settled(local, user) && Elements(subscribed) == SubscribedGroups(local)
    ensures Settled(ApplyAll(local, DisconnectOps(subscribed, user)), user)
  {
    var rest := [GroupDiscard(UserGroup(user)), GroupDiscard(PresenceGroup), Finish(Closed)];
    DiscardsRemove(local, subscribed, rest);
    var left := local.(groups := local.groups - Elements(subscribed));
    forall g | g in local.groups && g != UserGroup(user) && g != PresenceGroup
      ensures g in SubscribedGroups(local)
    {
      match g
      case RoomGroup(r) => assert r in local.rooms;
      case DialogGroup(d) => assert d in local.dialogs;
      case UserGroup(_) =>
    }
    ThreeOps(left, rest);
  }

  lemma TwoOps(local: Local, ops: seq<Op>)
    requires |ops| == 2
    ensures ApplyAll(local, ops) == Apply(Apply(local, ops[0]), ops[1])
  {
    assert ApplyAll(Apply(local, ops[0]), ops[1..]) == ApplyAll(Apply(Apply(local, ops[0]), ops[1]), ops[1..][1..]);
  }

  lemma ThreeOps(local: Local, ops: seq<Op>)
    requires |ops| == 3
    ensures ApplyAll(local, ops) == Apply(Apply(Apply(local, ops[0]), ops[1]), ops[2])
  {
    TwoOps(Apply(local, ops[0]), ops[1..]);
  }

  // ----- The whole system -----

  datatype Consumer = Consumer(
    user: UserId, status: Status, rooms: set<RoomId>, dialogs: set<DialogId>,
    todo: seq<Op>, inbox: seq<Publication>)

  datatype Delivery = Delivery(channel: Channel, publication: Publication)

  datatype System = System(
    db: Rooms,
    dialogs: map<DialogId, (UserId, UserId)>,
    groups: set<(Group, Channel)>,
    consumers: map<Channel, Consumer>,
    sent: seq<Delivery>)

  function GroupsOf(groups: set<(Group, Channel)>, channel: Channel): set<Group> {
    set member | member in groups && member.1 == channel :: member.0
  }

  function LocalOf(s: System, channel: Channel): Local
    requires channel in s.consumers
  {
    var c := s.consumers[channel];
    Local(c.status, GroupsOf(s.groups, channel), c.rooms, c.dialogs)
  }

  datatype Action =
    | Connect(channel: Channel, user: UserId)
    | Disconnect(channel: Channel, order: seq<Group>)
    | SubscribeRoom(channel: Channel, room: RoomId)
    | UnsubscribeRoom(channel: Channel, room: RoomId)
    | SubscribeDialog(channel: Channel, dialog: DialogId)
    | UnsubscribeDialog(channel: Channel, dialog: DialogId)
    | Work(channel: Channel)
    | Deliver(channel: Channel, index: nat)
    | Lose(channel: Channel, index: nat)
    | Publish(publication: Publication)
    | ChangeRooms(db: Rooms)
    | CreateDialog(dialog: DialogId, low: UserId, high: UserId)

  predicate Idle(s: System, channel: Channel) {
    channel in s.consumers && s.consumers[channel].status == Open && s.consumers[channel].todo == []
  }

  predicate Participant(s: System, dialog: DialogId, user: UserId) {
    dialog in s.dialogs && (s.dialogs[dialog].0 == user || s.dialogs[dialog].1 == user)
  }

  predicate Enabled(s: System, a: Action) {
    match a
    case Connect(ch, _) => ch !in s.consumers
    case Disconnect(ch, order) => Idle(s, ch) && Elements(order) == SubscribedGroups(LocalOf(s, ch))
    case SubscribeRoom(ch, room) => Idle(s, ch) && LiveAccess(s.db, room, s.consumers[ch].user).Success?
    case UnsubscribeRoom(ch, _) => Idle(s, ch)
    case SubscribeDialog(ch, dialog) => Idle(s, ch) && Participant(s, dialog, s.consumers[ch].user)
    case UnsubscribeDialog(ch, _) => Idle(s, ch)
    case Work(ch) => ch in s.consumers && s.consumers[ch].todo != []
    case Deliver(ch, i) => Idle(s, ch) && i < |s.consumers[ch].inbox|
    case Lose(ch, i) => ch in s.consumers && i < |s.consumers[ch].inbox|
    case Publish(_) => true
    case ChangeRooms(_) => true
    case CreateDialog(d, _, _) => d !in s.dialogs
  }

  function WithTodo(s: System, channel: Channel, ops: seq<Op>): System
    requires channel in s.consumers
  {
    s.(consumers := s.consumers[channel := s.consumers[channel].(todo := ops)])
  }

  /** A channel-layer operation changes the shared groups; the others change the consumer. */
  function Perform(s: System, channel: Channel, op: Op): System
    requires channel in s.consumers
  {
    var c := s.consumers[channel];
    match op
    case GroupAdd(g) => s.(groups := s.groups + {(g, channel)})
    case GroupDiscard(g) => s.(groups := s.groups - {(g, channel)})
    case RememberRoom(r) => s.(consumers := s.consumers[channel := c.(rooms := c.rooms + {r})])
    case ForgetRoom(r) => s.(consumers := s.consumers[channel := c.(rooms := c.rooms - {r})])
    case RememberDialog(d) => s.(consumers := s.consumers[channel := c.(dialogs := c.dialogs + {d})])
    case ForgetDialog(d) => s.(consumers := s.consumers[channel := c.(dialogs := c.dialogs - {d})])
    case Finish(status) => s.(consumers := s.consumers[channel := c.(status := status)])
  }

  function Without<T>(s: seq<T>, i: nat): seq<T>
    requires i < |s|
  {
    s[..i] + s[i + 1..]
  }

  /** A group send copies the message to the inbox of every channel now in the group. */
  function Enqueue(s: System, p: Publication): System {
    s.(consumers := map ch | ch in s.consumers ::
         if (Target(p), ch) in s.groups then s.consumers[ch].(inbox := s.consumers[ch].inbox + [p])
         else s.consumers[ch])
  }

  function Handle(s: System, channel: Channel, index: nat): System
    requires channel in s.consumers && index < |s.consumers[channel].inbox|
  {
    var c := s.consumers[channel];
    var reaction := React(s.db, c.user, c.rooms, EventOf(c.inbox[index]));
    s.(consumers := s.consumers[channel := c.(inbox := Without(c.inbox, index), todo := reaction.ops)],
       sent := s.sent + if reaction.sends then [Delivery(channel, c.inbox[index])] else [])
  }

  function Next(s: System, a: Action): System
    requires Enabled(s, a)
  {
    match a
    case Connect(ch, user) =>
      s.(consumers := s.consumers[ch := Consumer(user, Connecting, {}, {}, ConnectOps(user), [])])
    case Disconnect(ch, order) => WithTodo(s, ch, DisconnectOps(order, s.consumers[ch].user))
    case SubscribeRoom(ch, room) => WithTodo(s, ch, SubscribeRoomOps(room))
    case UnsubscribeRoom(ch, room) => WithTodo(s, ch, UnsubscribeRoomOps(room))
    case SubscribeDialog(ch, dialog) => WithTodo(s, ch, SubscribeDialogOps(dialog))
    case UnsubscribeDialog(ch, dialog) => WithTodo(s, ch, UnsubscribeDialogOps(dialog))
    case Work(ch) => WithTodo(Perform(s, ch, s.consumers[ch].todo[0]), ch, s.consumers[ch].todo[1..])
    case Deliver(ch, i) => Handle(s, ch, i)
    case Lose(ch, i) =>
      s.(consumers := s.consumers[ch := s.consumers[ch].(inbox := Without(s.consumers[ch].inbox, i))])
    case Publish(p) => Enqueue(s, p)
    case ChangeRooms(db) => s.(db := db)
    case CreateDialog(d, low, high) => s.(dialogs := s.dialogs[d := (low, high)])
  }

  /** An action that is refused, or not possible now, changes nothing. */
  function Step(s: System, a: Action): System {
    if Enabled(s, a) then Next(s, a) else s
  }

  function Run(s: System, actions: seq<Action>): System {
    if actions == [] then s else Step(Run(s, actions[..|actions| - 1]), actions[|actions| - 1])
  }

  ghost predicate Initial(s: System) {
    s.groups == {} && s.consumers == map[] && s.sent == []
  }

  // ----- The invariant -----

  /** Finishing the handler in progress would leave the consumer settled. */
  ghost predicate Consistent(s: System, channel: Channel)
    requires channel in s.consumers
  {
    Settled(ApplyAll(LocalOf(s, channel), s.consumers[channel].todo), s.consumers[channel].user)
  }

  /** The user may hear what is said in this group: always for rooms, which are checked on delivery. */
  predicate Entitled(s: System, group: Group, user: UserId) {
    match group
    case UserGroup(u) => u == user
    case PresenceGroup => true
    case RoomGroup(_) => true
    case DialogGroup(d) => Participant(s, d, user)
  }

  ghost predicate Invariant(s: System) {
    && GroupsSound(s)
    && (forall ch :: ch in s.consumers ==> ConsumerSound(s, ch))
  }

  ghost predicate GroupsSound(s: System) {
    forall g, ch :: (g, ch) in s.groups ==> ch in s.consumers && Entitled(s, g, s.consumers[ch].user)
  }

  ghost predicate ConsumerSound(s: System, ch: Channel)
    requires ch in s.consumers
  {
    var c := s.consumers[ch];
    && Consistent(s, ch)
    && (forall op :: op in c.todo && op.GroupAdd? ==> Entitled(s, op.group, c.user))
    && (forall p :: p in c.inbox ==> Entitled(s, Target(p), c.user))
  }

  /** A consumer nobody touched stays sound. */
  lemma UntouchedStaysSound(s: System, s': System, ch: Channel)
    requires ch in s.consumers && ch in s'.consumers && s'.consumers[ch] == s.consumers[ch]
    requires LocalOf(s', ch) == LocalOf(s, ch) && ConsumerSound(s, ch)
    requires forall d :: d in s.dialogs ==> d in s'.dialogs && s'.dialogs[d] == s.dialogs[d]
    ensures ConsumerSound(s', ch)
  {
  }

  lemma WithTodoKeeps(s: System, ch: Channel, ops: seq<Op>)
    requires Invariant(s) && ch in s.consumers
    requires Settled(ApplyAll(LocalOf(s, ch), ops), s.consumers[ch].user)
    requires forall op :: op in ops && op.GroupAdd? ==> Entitled(s, op.group, s.consumers[ch].user)
    ensures Invariant(WithTodo(s, ch, ops))
  {
    hide Settled, ApplyAll;
    var s' := WithTodo(s, ch, ops);
    forall other | other in s'.consumers && other != ch ensures ConsumerSound(s', other) {
      UntouchedStaysSound(s, s', other);
    }
    assert ConsumerSound(s, ch) && LocalOf(s', ch) == LocalOf(s, ch);
  }

  /** The four subscription handlers leave an idle consumer on course to be settled again. */
  lemma SubscriptionOpsSettle(local: Local, user: UserId, room: RoomId, dialog: DialogId)
    requires local.status == Open && Settled(local, user)
    ensures Settled(ApplyAll(local, SubscribeRoomOps(room)), user)
    ensures Settled(ApplyAll(local, UnsubscribeRoomOps(room)), user)
    ensures Settled(ApplyAll(local, SubscribeDialogOps(dialog)), user)
    ensures Settled(ApplyAll(local, UnsubscribeDialogOps(dialog)), user)
  {
    TwoOps(local, SubscribeRoomOps(room));
    TwoOps(local, UnsubscribeRoomOps(room));
    TwoOps(local, SubscribeDialogOps(dialog));
    TwoOps(local, UnsubscribeDialogOps(dialog));
  }

  lemma {:induction false} DiscardsAddNothing(groups: seq<Group>)
    ensures forall op :: op in Discards(groups) ==> op.GroupDiscard?
  {
    if groups != [] {
      DiscardsAddNothing(groups[1..]);
    }
  }

  lemma PerformIsLocal(s: System, ch: Channel, op: Op, other: Channel)
    requires ch in s.consumers && other in s.consumers
    ensures LocalOf(Perform(s, ch, op), other) == if other == ch then Apply(LocalOf(s, ch), op) else LocalOf(s, other)
    ensures Perform(s, ch, op).consumers[other].todo == s.consumers[other].todo
  {
    var s' := Perform(s, ch, op);
    if op.GroupAdd? || op.GroupDiscard? {
      if other == ch {
        assert GroupsOf(s'.groups, ch) == Apply(LocalOf(s, ch), op).groups;
      } else {
        assert GroupsOf(s'.groups, other) == GroupsOf(s.groups, other);
      }
    }
  }

  lemma WorkIsConsistent(s: System, ch: Channel)
    requires ch in s.consumers && ConsumerSound(s, ch) && s.consumers[ch].todo != []
    ensures ConsumerSound(Next(s, Work(ch)), ch)
  {
    hide Settled;
    var c, s' := s.consumers[ch], Next(s, Work(ch));
    PerformIsLocal(s, ch, c.todo[0], ch);
    assert LocalOf(s', ch) == LocalOf(Perform(s, ch, c.todo[0]), ch);
  }

  lemma WorkKeepsGroups(s: System, ch: Channel)
    requires GroupsSound(s) && Enabled(s, Work(ch))
    requires forall op :: op in s.consumers[ch].todo && op.GroupAdd? ==> Entitled(s, op.group, s.consumers[ch].user)
    ensures GroupsSound(Next(s, Work(ch)))
  {
    assert s.consumers[ch].todo[0] in s.consumers[ch].todo;
  }

  lemma WorkKeeps(s: System, ch: Channel)
    requires Invariant(s) && Enabled(s, Work(ch))
    ensures Invariant(Next(s, Work(ch)))
  {
    var c, s' := s.consumers[ch], Next(s, Work(ch));
    assert ConsumerSound(s, ch);
    hide Settled, ApplyAll, GroupsSound, Entitled;
    WorkKeepsGroups(s, ch);
    WorkIsConsistent(s, ch);
    hide ConsumerSound;
    forall other | other in s'.consumers && other != ch ensures ConsumerSound(s', other) {
      PerformIsLocal(s, ch, c.todo[0], other);
      assert LocalOf(s', other) == LocalOf(Perform(s, ch, c.todo[0]), other);
      UntouchedStaysSound(s, s', other);
    }
  }

  lemma EnqueueKeeps(s: System, p: Publication)
    requires Invariant(s)
    ensures Invariant(Enqueue(s, p))
  {
    hide Settled, ApplyAll;
    var s' := Enqueue(s, p);
    forall ch | ch in s'.consumers ensures ConsumerSound(s', ch) {
      assert ConsumerSound(s, ch) && LocalOf(s', ch) == LocalOf(s, ch);
    }
  }

  lemma WithoutSubset<T>(s: seq<T>, i: nat)
    requires i < |s|
    ensures forall x :: x in Without(s, i) ==> x in s
  {
  }

  /** Whatever the event, the consumer's reaction leaves it on course to be settled. */
  lemma ReactionSettles(db: Rooms, local: Local, user: UserId, event: Event)
    requires local.status == Open && Settled(local, user)
    ensures Settled(ApplyAll(local, React(db, user, local.rooms, event).ops), user)
    ensures forall op :: op in React(db, user, local.rooms, event).ops ==> !op.GroupAdd?
  {
    hide Settled;
    match event
    case ForceRoomUnsubscribe(room) => SubscriptionOpsSettle(local, user, room, 0);
    case Broadcast(_, payload) =>
      if RoomIdFromEvent(payload).Some? {
        SubscriptionOpsSettle(local, user, RoomIdFromEvent(payload).value, 0);
      }
  }

  lemma HandleKeeps(s: System, ch: Channel, i: nat)
    requires Invariant(s) && Enabled(s, Deliver(ch, i))
    ensures Invariant(Handle(s, ch, i))
  {
    var c, s' := s.consumers[ch], Handle(s, ch, i);
    assert ConsumerSound(s, ch) && Settled(LocalOf(s, ch), c.user);
    hide Settled, ApplyAll, React;
    WithoutSubset(c.inbox, i);
    ReactionSettles(s.db, LocalOf(s, ch), c.user, EventOf(c.inbox[i]));
    assert LocalOf(s', ch) == LocalOf(s, ch);
    assert ConsumerSound(s', ch);
    hide ConsumerSound;
    forall other | other in s'.consumers && other != ch ensures ConsumerSound(s', other) {
      UntouchedStaysSound(s, s', other);
    }
  }

  lemma ConnectSettles(user: UserId)
    ensures Settled(ApplyAll(Local(Connecting, {}, {}, {}), ConnectOps(user)), user)
  {
    ThreeOps(Local(Connecting, {}, {}, {}), ConnectOps(user));
  }

  lemma ConnectKeeps(s: System, ch: Channel, user: UserId)
    requires Invariant(s) && ch !in s.consumers
    ensures Invariant(Next(s, Connect(ch, user)))
  {
    var s' := Next(s, Connect(ch, user));
    assert LocalOf(s', ch) == Local(Connecting, {}, {}, {});
    ConnectSettles(user);
    hide Settled, ApplyAll;
    assert ConsumerSound(s', ch);
    hide ConsumerSound;
    forall other | other in s'.consumers && other != ch ensures ConsumerSound(s', other) {
      UntouchedStaysSound(s, s', other);
    }
  }

  lemma IdleIsSettled(s: System, ch: Channel)
    requires Invariant(s) && Idle(s, ch)
    ensures Settled(LocalOf(s, ch), s.consumers[ch].user)
  {
    assert ConsumerSound(s, ch);
    hide Settled;
  }

  lemma DisconnectKeeps(s: System, ch: Channel, order: seq<Group>)
    requires Invariant(s) && Enabled(s, Disconnect(ch, order))
    ensures Invariant(Next(s, Disconnect(ch, order)))
  {
    hide Settled, ApplyAll, Invariant, Entitled;
    var user := s.consumers[ch].user;
    IdleIsSettled(s, ch);
    DiscardsAddNothing(order);
    DisconnectSettles(LocalOf(s, ch), user, order);
    WithTodoKeeps(s, ch, DisconnectOps(order, user));
  }

  lemma RoomHandlerKeeps(s: System, ch: Channel, room: RoomId)
    requires Invariant(s) && Idle(s, ch)
    ensures Invariant(WithTodo(s, ch, SubscribeRoomOps(room))) && Invariant(WithTodo(s, ch, UnsubscribeRoomOps(room)))
  {
    hide Settled, ApplyAll, Invariant, WithTodo;
    IdleIsSettled(s, ch);
    SubscriptionOpsSettle(LocalOf(s, ch), s.consumers[ch].user, room, 0);
    WithTodoKeeps(s, ch, SubscribeRoomOps(room));
    WithTodoKeeps(s, ch, UnsubscribeRoomOps(room));
  }

  lemma DialogHandlerKeeps(s: System, ch: Channel, dialog: DialogId)
    requires Invariant(s) && Idle(s, ch)
    ensures Participant(s, dialog, s.consumers[ch].user) ==> Invariant(WithTodo(s, ch, SubscribeDialogOps(dialog)))
    ensures Invariant(WithTodo(s, ch, UnsubscribeDialogOps(dialog)))
  {
    hide Settled, ApplyAll, Invariant, WithTodo, Participant;
    IdleIsSettled(s, ch);
    SubscriptionOpsSettle(LocalOf(s, ch), s.consumers[ch].user, 0, dialog);
    WithTodoKeeps(s, ch, UnsubscribeDialogOps(dialog));
    if Participant(s, dialog, s.consumers[ch].user) {
      WithTodoKeeps(s, ch, SubscribeDialogOps(dialog));
    }
  }

  lemma StepKeepsInvariant(s: System, a: Action)
    requires Invariant(s)
    ensures Invariant(Step(s, a))
  {
    hide Invariant, WithTodo, SubscribeRoomOps, UnsubscribeRoomOps, SubscribeDialogOps, UnsubscribeDialogOps;
    if Enabled(s, a) {
      match a
      case Connect(ch, user) => ConnectKeeps(s, ch, user);
      case Work(ch) => WorkKeeps(s, ch);
      case Deliver(ch, i) => HandleKeeps(s, ch, i);
      case Lose(ch, i) => LoseKeeps(s, ch, i);
      case Publish(p) => EnqueueKeeps(s, p);
      case ChangeRooms(_) => SurroundingsKeep(s, Next(s, a));
      case CreateDialog(_, _, _) => SurroundingsKeep(s, Next(s, a));
      case Disconnect(ch, order) => DisconnectKeeps(s, ch, order);
      case SubscribeRoom(ch, room) => RoomHandlerKeeps(s, ch, room);
      case UnsubscribeRoom(ch, room) => RoomHandlerKeeps(s, ch, room);
      case SubscribeDialog(ch, dialog) => DialogHandlerKeeps(s, ch, dialog);
      case UnsubscribeDialog(ch, dialog) => DialogHandlerKeeps(s, ch, dialog);
    }
  }

  lemma LoseKeeps(s: System, ch: Channel, i: nat)
    requires Invariant(s) && Enabled(s, Lose(ch, i))
    ensures Invariant(Next(s, Lose(ch, i)))
  {
    hide Settled, ApplyAll;
    var s' := Next(s, Lose(ch, i));
    WithoutSubset(s.consumers[ch].inbox, i);
    forall other | other in s'.consumers ensures ConsumerSound(s', other) {
      assert ConsumerSound(s, other) && LocalOf(s', other) == LocalOf(s, other);
    }
  }

  /** Room transactions and new dialogs disturb no consumer. */
  lemma SurroundingsKeep(s: System, s': System)
    requires Invariant(s) && s'.groups == s.groups && s'.consumers == s.consumers
    requires forall d :: d in s.dialogs ==> d in s'.dialogs && s'.dialogs[d] == s.dialogs[d]
    ensures Invariant(s')
  {
    forall ch | ch in s'.consumers ensures ConsumerSound(s', ch) {
      assert ConsumerSound(s, ch) && LocalOf(s', ch) == LocalOf(s, ch);
    }
  }

  lemma {:induction false} ReachableInvariant(s: System, actions: seq<Action>)
    requires Initial(s)
    ensures Invariant(Run(s, actions))
  {
    if actions != [] {
      ReachableInvariant(s, actions[..|actions| - 1]);
      StepKeepsInvariant(Run(s, actions[..|actions| - 1]), actions[|actions| - 1]);
    }
  }

  // ----- Main results -----

  /**
   Over every interleaving, a channel whose handler is not in the middle of its work is in a room or
   dialog group exactly when its consumer's set says so, in its own user's group and no other's;
   a disconnected channel is in no group.
   */
  lemma GroupsMatchSubscriptions(s: System, actions: seq<Action>, ch: Channel)
    requires Initial(s)
    requires ch in Run(s, actions).consumers && Run(s, actions).consumers[ch].todo == []
    ensures
      var reached := Run(s, actions);
      var c := reached.consumers[ch];
      && (c.status == Open ==>
           && (forall r :: (RoomGroup(r), ch) in reached.groups <==> r in c.rooms)
           && (forall d :: (DialogGroup(d), ch) in reached.groups <==> d in c.dialogs)
           && (forall u :: (UserGroup(u), ch) in reached.groups <==> u == c.user)
           && (PresenceGroup, ch) in reached.groups)
      && (c.status == Closed ==> forall g :: (g, ch) !in reached.groups)
      && c.status != Connecting
  {
    ReachableInvariant(s, actions);
    var reached := Run(s, actions);
    assert ConsumerSound(reached, ch);
    forall g ensures (g, ch) in reached.groups <==> g in LocalOf(reached, ch).groups {
      if (g, ch) in reached.groups {
        assert (g, ch).0 in LocalOf(reached, ch).groups;
      }
    }
  }

  /** Dialog groups only ever hold channels of the dialog's two users, whatever handlers are under way. */
  lemma DialogGroupsHoldParticipants(s: System, actions: seq<Action>, dialog: DialogId, ch: Channel)
    requires Initial(s) && (DialogGroup(dialog), ch) in Run(s, actions).groups
    ensures ch in Run(s, actions).consumers
    ensures Participant(Run(s, actions), dialog, Run(s, actions).consumers[ch].user)
  {
    ReachableInvariant(s, actions);
  }

  /** Every event sent to a room's group names that room, so every one of them is checked. */
  lemma RoomPublicationsCarryTheirRoom(p: Publication, room: RoomId)
    ensures Target(p) == RoomGroup(room) ==>
              EventOf(p).Broadcast? && RoomKind(EventOf(p).kind) && RoomIdFromEvent(EventOf(p).payload) == Some(room)
    ensures EventOf(p).Broadcast? && RoomIdFromEvent(EventOf(p).payload) == Some(room) ==> Target(p) == RoomGroup(room)
  {
  }

  /**
   Whatever reached a socket did so at a moment when its user was allowed to hear it: a room's event
   only while the user is a current unbanned member, even over a stale subscription and for an event
   published earlier; a dialog's event only to its participants; a user's event only to that user.
   */
  lemma SocketsOnlyHearTheirOwn(s: System, actions: seq<Action>, a: Action)
    requires Initial(s)
    ensures
      var before, after := Run(s, actions), Step(Run(s, actions), a);
      after.sent == before.sent ||
      exists ch, p :: && ch in before.consumers && after.sent == before.sent + [Delivery(ch, p)]
                      && Entitled(before, Target(p), before.consumers[ch].user)
                      && (Target(p).RoomGroup? ==>
                            && Target(p).room in before.db.isPrivate
                            && (Target(p).room, before.consumers[ch].user) in before.db.members
                            && (Target(p).room, before.consumers[ch].user) !in before.db.banned)
  {
    ReachableInvariant(s, actions);
    hide Run, Settled, ApplyAll, React;
    var before, after := Run(s, actions), Step(Run(s, actions), a);
    if a.Deliver? && Enabled(before, a) {
      DeliveryIsEntitled(before, a.channel, a.index);
    }
  }

  lemma DeliveryIsEntitled(before: System, ch: Channel, index: nat)
    requires Invariant(before) && Enabled(before, Deliver(ch, index))
    ensures
      var user, p := before.consumers[ch].user, before.consumers[ch].inbox[index];
      var after := Handle(before, ch, index);
      after.sent == before.sent ||
      (&& after.sent == before.sent + [Delivery(ch, p)]
       && Entitled(before, Target(p), user)
       && (Target(p).RoomGroup? ==> LiveAccess(before.db, Target(p).room, user).Success?))
  {
    hide Settled, ApplyAll;
    var c := before.consumers[ch];
    assert ConsumerSound(before, ch) && c.inbox[index] in c.inbox;
    if Target(c.inbox[index]).RoomGroup? {
      RoomPublicationsCarryTheirRoom(c.inbox[index], Target(c.inbox[index]).room);
    }
    hide EventOf, RoomKind, RoomIdFromEvent;
  }

  // ----- Channels as connection keys -----

  lemma StepKeepsUsers(s: System, a: Action, ch: Channel)
    requires ch in s.consumers
    ensures ch in Step(s, a).consumers && Step(s, a).consumers[ch].user == s.consumers[ch].user
  {
  }

  /**
   A channel belongs to one user for good: a name is never handed out twice. As consumers use their
   channel's name as the connection key in the presence registry, each key there has one owner.
   */
  lemma {:induction false} ChannelsKeepTheirUser(s: System, actions: seq<Action>, more: seq<Action>, ch: Channel)
    requires ch in Run(s, actions).consumers
    ensures ch in Run(s, actions + more).consumers
    ensures Run(s, actions + more).consumers[ch].user == Run(s, actions).consumers[ch].user
    decreases |more|
  {
    hide Step;
    if more == [] {
      assert actions + more == actions;
    } else {
      var last := |more| - 1;
      ChannelsKeepTheirUser(s, actions, more[..last], ch);
      assert (actions + more)[..|actions| + last] == actions + more[..last];
      StepKeepsUsers(Run(s, actions + more[..last]), more[last], ch);
    }
  }
}
