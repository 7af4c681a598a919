/**
 Rooms, friendships and messages together. The access checks that module Messages takes as verdicts
 are computed here from the rooms and the social state of the same moment, and deleting a room
 deletes its messages in the same transaction.
 */
module Chat {
  import opened Common
  import Messages
  import Rooms
  import Social

  type UserId = nat

  datatype Db = Db(rooms: Rooms.Db, social: Social.Db, messages: Messages.Db)

  datatype Request =
    | InRooms(change: Rooms.Request)
    | InSocial(action: Social.Action)
    | Upload(uploader: UserId, size: int, isImage: bool, key: Messages.StorageKey, attachment: Messages.AttachmentId,
             outcome: Messages.UploadOutcome)
    | Discard(attachment: Messages.AttachmentId, actor: UserId)
    | Post(post: Messages.Post, id: Messages.MessageId)
    | Edit(chat: Messages.Chat, id: Messages.MessageId, actor: UserId, text: Option<string>)
    | Delete(chat: Messages.Chat, id: Messages.MessageId, actor: UserId)
    | ReadDialog(dialog: Messages.DialogId, user: UserId)

  // ----- Access to a chat -----

  predicate Participates(db: Db, dialog: Social.Pair, user: UserId) {
    dialog in db.social.dialogs && (dialog.0 == user || dialog.1 == user)
  }

  /** What editing and deleting ask for: room message access, or being one of the dialog's users. */
  function AccessVerdict(db: Db, chat: Messages.Chat, actor: UserId): Option<Messages.Error> {
    match chat
    case InRoom(room) =>
      if Rooms.RequireRoomMessageAccess(db.rooms, room, actor).Some? then Some(Messages.NotFound) else None
    case InDialog(dialog) =>
      if Participates(db, dialog, actor) then None else Some(Messages.NotFound)
  }

  /** Sending to a dialog also looks at its frozen flag, the friendship and the bans. */
  function SendVerdict(db: Db, chat: Messages.Chat, sender: UserId): Option<Messages.Error> {
    match chat
    case InRoom(_) => AccessVerdict(db, chat, sender)
    case InDialog(dialog) =>
      match Social.SendRefusal(db.social, dialog, sender)
      case None => None
      case Some(NotFound) => Some(Messages.NotFound)
      case Some(_) => Some(Messages.Forbidden)
  }

  predicate Moderates(db: Db, chat: Messages.Chat, actor: UserId) {
    chat.InRoom? && db.rooms.IsAdminOrOwner(chat.room, actor)
  }

  // ----- Transactions -----

  /** The part of a request that concerns messages and attachments; dialogs' read states are module ReadStates'. */
  function OnMessages(db: Db, request: Request): Option<Messages.Request> {
    match request
    case InRooms(Delete(room, actor)) =>
      Some(Messages.RoomDeleted(
             if Rooms.DeleteRoom(db.rooms, room, actor).Success? then None else Some(Messages.Forbidden), room))
    case InRooms(_) => None
    case InSocial(_) => None
    case Upload(uploader, size, isImage, key, a, outcome) => Some(Messages.Uploaded(uploader, size, isImage, key, a, outcome))
    case Discard(a, actor) => Some(Messages.Discarded(a, actor))
    case Post(post, id) => Some(Messages.Posted(SendVerdict(db, post.chat, post.sender), post, id))
    case Edit(chat, id, actor, text) => Some(Messages.Edited(AccessVerdict(db, chat, actor), chat, id, actor, text))
    case Delete(chat, id, actor) =>
      Some(Messages.Removed(AccessVerdict(db, chat, actor), chat, id, actor, Moderates(db, chat, actor)))
    case ReadDialog(_, _) => None
  }

  function Step(db: Db, request: Request, pause: nat): Db {
    var onMessages := OnMessages(db, request);
    Db(if request.InRooms? then Rooms.Step(db.rooms, request.change) else db.rooms,
       if request.InSocial? then Social.Step(db.social, request.action) else db.social,
       if onMessages.Some? then Messages.Step(db.messages, onMessages.value, pause)
       else db.messages.(now := db.messages.now + 1 + pause))
  }

  type History = seq<(Request, nat)>

  function Run(users: set<UserId>, history: History): Db
    decreases |history|
  {
    if history == [] then Db(Rooms.EMPTY, Social.Start(users), Messages.EMPTY)
    else
      var last := |history| - 1;
      Step(Run(users, history[..last]), history[last].0, history[last].1)
  }

  // ----- The joint invariant -----

  /** The chat of every stored message exists, and in a dialog its sender is one of the two. */
  predicate InItsChat(db: Db, message: Messages.Message) {
    match message.chat
    case InRoom(room) => room in db.rooms.rooms
    case InDialog(dialog) => Participates(db, dialog, message.sender)
  }

  ghost predicate ChatsExist(db: Db) {
    forall m :: m in db.messages.messages ==> InItsChat(db, db.messages.messages[m])
  }

  ghost predicate Invariant(db: Db) {
    Rooms.Invariant(db.rooms) && Social.Invariant(db.social) && Messages.Invariant(db.messages) && ChatsExist(db)
  }

  lemma PartsKeepInvariants(db: Db, request: Request, pause: nat)
    requires Invariant(db)
    ensures var db' := Step(db, request, pause);
            Rooms.Invariant(db'.rooms) && Social.Invariant(db'.social) && Messages.Invariant(db'.messages)
  {
    hide Rooms.Invariant, Social.Invariant, Messages.Invariant, Rooms.Step, Social.Step, Messages.Step, ChatsExist;
    if request.InRooms? {
      Rooms.StepKeepsInvariant(db.rooms, request.change);
    }
    if request.InSocial? {
      Social.StepKeepsInvariant(db.social, request.action);
    }
    match OnMessages(db, request)
    case None => Messages.LaterKeeps(db.messages, db.messages.now + 1 + pause);
    case Some(r) => Messages.StepKeepsInvariant(db.messages, r, pause);
  }

  /** A sender let through is a current unbanned member, or a friend in an unfrozen dialog without a ban. */
  predicate MayTalk(db: Db, chat: Messages.Chat, sender: UserId) {
    match chat
    case InRoom(room) => db.rooms.IsMember(room, sender) && !db.rooms.IsBanned(room, sender)
    case InDialog(dialog) =>
      && Participates(db, dialog, sender) && !db.social.dialogs[dialog].isFrozen
      && db.social.AreFriends(dialog.0, dialog.1) && !db.social.HasActiveBan(dialog.0, dialog.1)
  }

  lemma SendingExactly(db: Db, chat: Messages.Chat, sender: UserId)
    ensures SendVerdict(db, chat, sender) == None <==> MayTalk(db, chat, sender)
  {
    match chat
    case InRoom(_) =>
    case InDialog(dialog) =>
      var other := if dialog.0 == sender then dialog.1 else dialog.0;
      assert dialog.0 == sender || dialog.1 == sender ==> Social.Canonical(sender, other) == Social.Canonical(dialog.0, dialog.1);
  }

  /** Chats only go with their messages: rooms by their deletion, dialogs never. */
  lemma ChatsStay(db: Db, request: Request, pause: nat, message: Messages.Message)
    requires InItsChat(db, message)
    requires !(request.InRooms? && request.change.Delete? && message.chat == Messages.InRoom(request.change.room)
               && Rooms.DeleteRoom(db.rooms, request.change.room, request.change.actor).Success?)
    ensures InItsChat(Step(db, request, pause), message)
  {
    hide Messages.Step;
    match message.chat
    case InRoom(room) =>
      if request.InRooms? {
        RoomsStay(db.rooms, request.change, room);
      }
    case InDialog(dialog) =>
      if request.InSocial? && dialog !in Social.Step(db.social, request.action).dialogs {
        Social.DialogsOpenBetweenFriends(db.social, request.action, dialog);
      }
  }

  lemma RoomsStay(db: Rooms.Db, change: Rooms.Request, room: Rooms.RoomId)
    requires room in db.rooms
    requires !(change.Delete? && change.room == room && Rooms.DeleteRoom(db, room, change.actor).Success?)
    ensures room in Rooms.Step(db, change).rooms
  {
  }

  lemma ChatsKeepExisting(db: Db, request: Request, pause: nat)
    requires Invariant(db)
    ensures ChatsExist(Step(db, request, pause))
  {
    var before, after := db.messages.messages, Step(db, request, pause).messages.messages;
    forall m | m in after ensures InItsChat(Step(db, request, pause), after[m]) {
      SurvivorsOrPosted(db, request, pause, m);
      if m in before {
        ChatsStay(db, request, pause, before[m]);
      } else {
        SendingExactly(db, after[m].chat, after[m].sender);
        RoomOfMember(db, after[m].chat, after[m].sender);
        ChatsStay(db, request, pause, after[m]);
      }
      hide Step;
    }
  }

  lemma RoomOfMember(db: Db, chat: Messages.Chat, sender: UserId)
    requires Rooms.Invariant(db.rooms) && MayTalk(db, chat, sender)
    ensures chat.InRoom? ==> chat.room in db.rooms.rooms
  {
  }

  /** A stored message was there before, in the same chat, or has just been posted by its sender. */
  lemma SurvivorsOrPosted(db: Db, request: Request, pause: nat, m: Messages.MessageId)
    requires m in Step(db, request, pause).messages.messages
    ensures var before, after := db.messages.messages, Step(db, request, pause).messages.messages;
            if m in before then
              && after[m].chat == before[m].chat && after[m].sender == before[m].sender
              && !(request.InRooms? && request.change.Delete? && before[m].chat == Messages.InRoom(request.change.room)
                   && Rooms.DeleteRoom(db.rooms, request.change.room, request.change.actor).Success?)
            else
              && request.Post? && request.id == m && SendVerdict(db, after[m].chat, after[m].sender) == None
              && request.post.chat == after[m].chat && request.post.sender == after[m].sender && request.post.text == after[m].text
  {
    hide AccessVerdict, SendVerdict, Moderates, Rooms.DeleteRoom, Rooms.Step, Social.Step;
    match OnMessages(db, request)
    case None =>
    case Some(r) =>
      if m in db.messages.messages {
        Messages.MessagesChangeByTheirAuthor(db.messages, r, pause, m);
        if r.RoomDeleted? && r.verdict == None {
          RoomMessagesGo(db.messages, r.room, pause, m);
        }
      } else {
        Messages.MessagesComeFromTheirSender(db.messages, r, pause, m);
      }
      hide Messages.Step;
  }

  lemma RoomMessagesGo(db: Messages.Db, room: Messages.RoomId, pause: nat, m: Messages.MessageId)
    requires m in Messages.Step(db, Messages.RoomDeleted(None, room), pause).messages
    ensures m in db.messages && db.messages[m].chat != Messages.InRoom(room)
  {
  }

  lemma StepKeepsInvariant(db: Db, request: Request, pause: nat)
    requires Invariant(db)
    ensures Invariant(Step(db, request, pause))
  {
    PartsKeepInvariants(db, request, pause);
    ChatsKeepExisting(db, request, pause);
    hide Step, Rooms.Invariant, Social.Invariant, Messages.Invariant, ChatsExist;
  }

  /** All three parts stay sound together, and every message's chat exists. */
  lemma {:induction false} RunKeepsInvariant(users: set<UserId>, history: History)
    ensures Invariant(Run(users, history))
    decreases |history|
  {
    hide Step;
    if history == [] {
      StartIsSound(users);
    } else {
      hide Invariant;
      var last := |history| - 1;
      RunKeepsInvariant(users, history[..last]);
      StepKeepsInvariant(Run(users, history[..last]), history[last].0, history[last].1);
    }
  }

  lemma StartIsSound(users: set<UserId>)
    ensures Invariant(Db(Rooms.EMPTY, Social.Start(users), Messages.EMPTY))
  {
    Rooms.RunKeepsInvariant(Rooms.EMPTY, []);
    Social.RunKeepsInvariant(Social.Start(users), []);
    Messages.RunKeepsInvariant(Messages.EMPTY, []);
  }

  // ----- The parts run as they do alone -----

  /** The room requests of a history, in order. */
  function RoomRequests(history: History): seq<Rooms.Request> {
    if history == [] then []
    else
      var (request, _) := history[|history| - 1];
      RoomRequests(history[..|history| - 1]) + if request.InRooms? then [request.change] else []
  }

  function SocialActions(history: History): seq<Social.Action> {
    if history == [] then []
    else
      var (request, _) := history[|history| - 1];
      SocialActions(history[..|history| - 1]) + if request.InSocial? then [request.action] else []
  }

  /** Whatever goes on in the chats, rooms and friendships are what their own requests make of them. */
  lemma {:induction false} PartsRunAlone(users: set<UserId>, history: History)
    ensures Run(users, history).rooms == Rooms.Run(Rooms.EMPTY, RoomRequests(history))
    ensures Run(users, history).social == Social.Run(Social.Start(users), SocialActions(history))
    decreases |history|
  {
    if history != [] {
      var before, request := history[..|history| - 1], history[|history| - 1].0;
      PartsRunAlone(users, before);
      hide Rooms.Step, Social.Step, OnMessages, Messages.Step, Rooms.Run, Social.Run;
      if request.InRooms? {
        Rooms.RunExtends(Rooms.EMPTY, RoomRequests(before), request.change);
      } else {
        assert RoomRequests(before) + [] == RoomRequests(before);
      }
      if request.InSocial? {
        Social.RunExtends(Social.Start(users), SocialActions(before), request.action);
      } else {
        assert SocialActions(before) + [] == SocialActions(before);
      }
    }
  }

  // ----- Who talks, and who removes -----

  /** The state before the request with this number. */
  function At(users: set<UserId>, history: History, k: nat): Db
    requires k <= |history|
  {
    Run(users, history[..k])
  }

  lemma AtNext(users: set<UserId>, history: History, k: nat)
    requires k < |history|
    ensures At(users, history, k + 1) == Step(At(users, history, k), history[k].0, history[k].1)
    ensures Invariant(At(users, history, k))
  {
    assert history[..k + 1][..k] == history[..k];
    RunKeepsInvariant(users, history[..k]);
    hide Step, Invariant;
  }

  lemma AtStart(users: set<UserId>, history: History)
    ensures At(users, history, 0).messages == Messages.EMPTY
  {
    assert history[..0] == [];
  }

  /**
   Every stored message was posted by its sender at a moment when the sender could talk in its chat:
   a current unbanned member of the room, or a friend in an unfrozen dialog with no ban either way.
   */
  lemma {:induction false} SendersCouldTalk(users: set<UserId>, history: History, m: Messages.MessageId, n: nat) returns (k: nat)
    requires n <= |history| && m in At(users, history, n).messages.messages
    ensures var message := At(users, history, n).messages.messages[m];
            && k < n && history[k].0.Post? && history[k].0.id == m
            && history[k].0.post.chat == message.chat && history[k].0.post.sender == message.sender
            && MayTalk(At(users, history, k), message.chat, message.sender)
    ensures forall j :: k < j <= n ==> m in At(users, history, j).messages.messages
  {
    hide Step, Invariant, MayTalk;
    AtStart(users, history);
    if n > 0 {
      AtNext(users, history, n - 1);
      var before, request := At(users, history, n - 1), history[n - 1].0;
      SurvivorsOrPosted(before, request, history[n - 1].1, m);
      if m in before.messages.messages {
        k := SendersCouldTalk(users, history, m, n - 1);
      } else {
        var message := At(users, history, n).messages.messages[m];
        SendingExactly(before, message.chat, message.sender);
        k := n - 1;
      }
    }
  }

  /** A rightful end of a message: by its author, by a room's admin or owner, or with the room by its owner. */
  predicate Removes(db: Db, request: Request, m: Messages.MessageId, message: Messages.Message) {
    match request
    case Delete(chat, id, actor) =>
      && id == m && chat == message.chat && AccessVerdict(db, chat, actor) == None
      && (actor == message.sender || (chat.InRoom? && db.rooms.IsAdminOrOwner(chat.room, actor)))
    case InRooms(Delete(room, actor)) =>
      message.chat == Messages.InRoom(room) && room in db.rooms.rooms && db.rooms.rooms[room].owner == actor
    case _ => false
  }

  lemma RemovedRightfully(db: Db, request: Request, pause: nat, m: Messages.MessageId)
    requires m in db.messages.messages && m !in Step(db, request, pause).messages.messages
    ensures Removes(db, request, m, db.messages.messages[m])
  {
    hide AccessVerdict, SendVerdict, Rooms.Step, Social.Step;
    match OnMessages(db, request)
    case None =>
    case Some(r) =>
      Messages.MessagesGoByRightfulActs(db.messages, r, pause, m);
      hide Messages.Step;
  }

  /** A message that is gone was removed rightfully, and until then stayed in its chat under its sender's name. */
  lemma {:induction false} GoneMessagesWereRemovedRightfully(users: set<UserId>, history: History, m: Messages.MessageId, from: nat, n: nat)
    returns (k: nat)
    requires from <= n <= |history|
    requires m in At(users, history, from).messages.messages && m !in At(users, history, n).messages.messages
    ensures from <= k < n && m in At(users, history, k).messages.messages
    ensures Removes(At(users, history, k), history[k].0, m, At(users, history, k).messages.messages[m])
    decreases n
  {
    hide Step, Invariant, Removes;
    AtNext(users, history, n - 1);
    if m in At(users, history, n - 1).messages.messages {
      RemovedRightfully(At(users, history, n - 1), history[n - 1].0, history[n - 1].1, m);
      k := n - 1;
    } else {
      k := GoneMessagesWereRemovedRightfully(users, history, m, from, n - 1);
    }
  }

  // ----- Attachments -----

  /** Who may hear what, as the rooms and dialogs stand. */
  function AudienceOf(db: Db): Messages.Audience {
    Messages.Audience(
      set seat | seat in db.rooms.roles,
      set seat | seat in db.rooms.bans && db.rooms.bans[seat],
      map dialog | dialog in db.social.dialogs :: dialog)
  }

  /**
   In every reachable state a bound attachment opens exactly for the current members of its
   message's room or the two users of its dialog, and an unbound one for its uploader alone.
   */
  lemma AttachmentsFollowMembership(users: set<UserId>, history: History, a: Messages.AttachmentId, user: UserId)
    requires a in Run(users, history).messages.attachments
    ensures var db := Run(users, history);
            var opens := Messages.AttachmentRefusal(db.messages, AudienceOf(db), a, user) == None;
            && (forall m :: Messages.Carries(db.messages, m, a) ==>
                  match db.messages.messages[m].chat
                  case InRoom(room) => opens <==> db.rooms.IsMember(room, user)
                  case InDialog(dialog) => opens <==> dialog.0 == user || dialog.1 == user)
            && ((forall m :: !Messages.Carries(db.messages, m, a)) ==> (opens <==> user == db.messages.attachments[a].uploader))
  {
    RunKeepsInvariant(users, history);
    var db := Run(users, history);
    Messages.AccessFollowsBinding(db.messages, AudienceOf(db), a, user);
    MembersMayHear(db, user);
    hide Run, Messages.AttachmentRefusal, Messages.Bound;
    assert forall m :: Messages.Carries(db.messages, m, a) ==> InItsChat(db, db.messages.messages[m]);
  }

  lemma MembersMayHear(db: Db, user: UserId)
    requires Rooms.Invariant(db.rooms)
    ensures forall room :: Messages.MayHear(AudienceOf(db), Messages.InRoom(room), user) <==> db.rooms.IsMember(room, user)
    ensures forall dialog :: dialog in db.social.dialogs ==>
              (Messages.MayHear(AudienceOf(db), Messages.InDialog(dialog), user) <==> dialog.0 == user || dialog.1 == user)
  {
  }
}
