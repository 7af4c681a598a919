/**
 Read states over the chats themselves. A run of chat requests determines which transactions of
 module Unread take place: who may post, delete, leave, ban or mark a chat read is decided by the
 rooms, dialogs and messages of the moment, and a refused request touches no row.
 */
module ReadStates {
  import opened Common
  import Chat
  import Messages
  import Rooms
  import Social
  import Unread

  type UserId = nat

  // ----- What a request does to messages and read states -----

  /** A room request that was let through. */
  function OnRoom(change: Rooms.Request): Unread.Event {
    match change
    case Delete(room, _) => Unread.ChatDeleted(Messages.InRoom(room))
    case Leave(room, user) => Unread.LeftOrBanned(Messages.InRoom(room), user)
    case Ban(room, _, target) => Unread.LeftOrBanned(Messages.InRoom(room), target)
    case Read(room, user) => Unread.MarkedRead(Messages.InRoom(room), user)
    case _ => Unread.Other
  }

  /** A message request that was let through. */
  function OnMessage(request: Messages.Request): Unread.Event {
    match request
    case Posted(_, post, id) => Unread.Sent(id, post.chat, post.sender)
    case Removed(_, _, id, _, _) => Unread.Removed(id)
    case _ => Unread.Other
  }

  function EventOf(db: Chat.Db, request: Chat.Request): Unread.Event {
    match request
    case InRooms(change) => if Rooms.Attempt(db.rooms, change).Success? then OnRoom(change) else Unread.Other
    case ReadDialog(dialog, user) =>
      if Chat.Participates(db, dialog, user) then Unread.MarkedRead(Messages.InDialog(dialog), user) else Unread.Other
    case _ =>
      match Chat.OnMessages(db, request)
      case None => Unread.Other
      case Some(r) => if Messages.Attempt(db.messages, r).Success? then OnMessage(r) else Unread.Other
  }

  /** The transactions of the first n requests. */
  function Events(users: set<UserId>, history: Chat.History, n: nat): (events: Unread.History)
    requires n <= |history|
    ensures |events| == n
  {
    if n == 0 then []
    else Events(users, history, n - 1) + [(EventOf(Chat.At(users, history, n - 1), history[n - 1].0), history[n - 1].1)]
  }

  /** Message and read-state rows as module Unread keeps them. */
  function Rows(users: set<UserId>, history: Chat.History, n: nat): Unread.Db
    requires n <= |history|
  {
    Unread.Run(0, Events(users, history, n))
  }

  lemma EventsNext(users: set<UserId>, history: Chat.History, n: nat)
    requires n < |history|
    ensures var events, event := Events(users, history, n + 1), EventOf(Chat.At(users, history, n), history[n].0);
            && events[..n] == Events(users, history, n) && events[n] == (event, history[n].1)
            && Rows(users, history, n + 1) == Unread.Step(Rows(users, history, n), event, history[n].1)
  {
    hide EventOf, Unread.Step;
    var events := Events(users, history, n + 1);
    assert events[..|events| - 1] == Events(users, history, n);
  }

  // ----- The rows are the messages -----

  function Addressed(messages: Messages.MessageRows): Unread.Stored {
    map m | m in messages :: (messages[m].chat, messages[m].sender)
  }

  ghost predicate TimesAgree(posts: seq<Unread.Post>, messages: Messages.MessageRows) {
    forall p :: p in posts ==> p.id in messages && p.createdAt == messages[p.id].createdAt
  }

  /** Room marks are keyed like the rooms' read states, and dialog marks belong to the dialog's users. */
  ghost predicate MarksAgree(marks: Unread.Marks, db: Chat.Db) {
    && (forall room: Rooms.RoomId, user: UserId :: (Messages.InRoom(room), user) in marks <==> (room, user) in db.rooms.readStates)
    && (forall dialog: Messages.DialogId, user: UserId :: (Messages.InDialog(dialog), user) in marks ==> Chat.Participates(db, dialog, user))
  }

  lemma DeletingDropsTheRoom(db: Messages.Db, room: Rooms.RoomId, pause: nat)
    ensures Addressed(Messages.Step(db, Messages.RoomDeleted(None, room), pause).messages)
         == Unread.StoredThen(Addressed(db.messages), Unread.ChatDeleted(Messages.InRoom(room)))
  {
    assert Messages.MessagesIn(db, Messages.InRoom(room)) == Unread.StoredIn(Addressed(db.messages), Messages.InRoom(room));
  }

  lemma RoomMessagesGo(db: Chat.Db, request: Chat.Request, pause: nat)
    requires request.InRooms?
    ensures Addressed(Chat.Step(db, request, pause).messages.messages)
         == Unread.StoredThen(Addressed(db.messages.messages), EventOf(db, request))
  {
    hide Rooms.DeleteRoom, Rooms.Step, Addressed, Unread.StoredIn;
    if request.change.Delete? && Rooms.DeleteRoom(db.rooms, request.change.room, request.change.actor).Success? {
      hide Messages.Step;
      DeletingDropsTheRoom(db.messages, request.change.room, pause);
    }
  }

  lemma PostingAddresses(db: Messages.Db, verdict: Option<Messages.Error>, post: Messages.Post, id: Messages.MessageId)
    requires Messages.CreateMessage(db, verdict, post, id).Success?
    ensures Addressed(Messages.CreateMessage(db, verdict, post, id).value.messages)
         == Unread.StoredThen(Addressed(db.messages), Unread.Sent(id, post.chat, post.sender))
  {
    hide Messages.ContentRefusal, Messages.LockRefusal, Messages.ReplyRefusal;
  }

  lemma DroppingForgets(db: Messages.Db, id: Messages.MessageId)
    ensures Addressed(Messages.DropMessages(db, {id}).messages) == Unread.StoredThen(Addressed(db.messages), Unread.Removed(id))
  {
  }

  lemma MessageRequestsFollow(db: Messages.Db, request: Messages.Request, pause: nat)
    requires !request.RoomDeleted?
    ensures Addressed(Messages.Step(db, request, pause).messages)
         == Unread.StoredThen(Addressed(db.messages), if Messages.Attempt(db, request).Success? then OnMessage(request) else Unread.Other)
  {
    if Messages.Attempt(db, request).Success? {
      match request
      case Posted(verdict, post, id) =>
        PostingAddresses(db, verdict, post, id);
        hide Messages.CreateMessage, Addressed, Unread.StoredThen;
      case Removed(_, _, id, _, _) =>
        DroppingForgets(Messages.DropAttachments(db, db.AttachmentsOf(id)), id);
        hide Messages.DropMessages, Addressed, Unread.StoredThen;
      case _ =>
        hide Messages.ContentRefusal;
    }
  }

  lemma StoredFollows(db: Chat.Db, request: Chat.Request, pause: nat)
    ensures Addressed(Chat.Step(db, request, pause).messages.messages)
         == Unread.StoredThen(Addressed(db.messages.messages), EventOf(db, request))
  {
    if request.InRooms? {
      RoomMessagesGo(db, request, pause);
    } else {
      hide Addressed, Messages.Attempt, Messages.Step, OnMessage, Unread.StoredThen;
      match Chat.OnMessages(db, request)
      case None => assert Unread.StoredThen(Addressed(db.messages.messages), EventOf(db, request)) == Addressed(db.messages.messages);
      case Some(r) => MessageRequestsFollow(db.messages, r, pause);
    }
  }

  /** Creation times stay, and a new message gets the time of its transaction. */
  lemma TimesFollow(db: Chat.Db, request: Chat.Request, pause: nat, m: Messages.MessageId)
    requires m in Chat.Step(db, request, pause).messages.messages
    ensures Chat.Step(db, request, pause).messages.messages[m].createdAt
         == if m in db.messages.messages then db.messages.messages[m].createdAt else db.messages.now
  {
    match Chat.OnMessages(db, request)
    case None =>
    case Some(r) =>
      if m in db.messages.messages {
        Messages.MessagesChangeByTheirAuthor(db.messages, r, pause, m);
      } else {
        Messages.MessagesComeFromTheirSender(db.messages, r, pause, m);
      }
      hide Messages.Step;
  }

  lemma ClockAgrees(db: Chat.Db, rows: Unread.Db, request: Chat.Request, pause: nat)
    requires rows.now == db.messages.now
    ensures Unread.Step(rows, EventOf(db, request), pause).now == Chat.Step(db, request, pause).messages.now
  {
    hide EventOf, Messages.Attempt, Unread.Transact;
  }

  lemma SentIsNew(db: Chat.Db, request: Chat.Request)
    ensures EventOf(db, request).Sent? ==> EventOf(db, request).id !in db.messages.messages
  {
    hide Rooms.Attempt, Messages.ContentRefusal, Messages.LockRefusal, Messages.ReplyRefusal, Messages.Bind;
  }

  lemma RowsComeAtTheirTime(rows: Unread.Db, event: Unread.Event, pause: nat, p: Unread.Post)
    requires p in Unread.Step(rows, event, pause).posts
    ensures p in rows.posts || (event.Sent? && p.id == event.id && p.createdAt == rows.now)
  {
  }

  lemma TimesStayAgreed(db: Chat.Db, rows: Unread.Db, request: Chat.Request, pause: nat)
    requires rows.now == db.messages.now && TimesAgree(rows.posts, db.messages.messages)
    requires var rows' := Unread.Step(rows, EventOf(db, request), pause);
             Unread.RowsStored(rows'.posts, Addressed(Chat.Step(db, request, pause).messages.messages))
    ensures TimesAgree(Unread.Step(rows, EventOf(db, request), pause).posts, Chat.Step(db, request, pause).messages.messages)
  {
    var posts := Unread.Step(rows, EventOf(db, request), pause).posts;
    var messages := Chat.Step(db, request, pause).messages.messages;
    SentIsNew(db, request);
    forall p | p in posts ensures p.id in messages && p.createdAt == messages[p.id].createdAt {
      RowsComeAtTheirTime(rows, EventOf(db, request), pause, p);
      TimesFollow(db, request, pause, p.id);
    }
    hide EventOf, Chat.Step, Unread.Step;
  }

  lemma ParticipantsStay(db: Chat.Db, request: Chat.Request, pause: nat, dialog: Messages.DialogId, user: UserId)
    requires Chat.Participates(db, dialog, user)
    ensures Chat.Participates(Chat.Step(db, request, pause), dialog, user)
  {
    if request.InSocial? && dialog !in Social.Step(db.social, request.action).dialogs {
      Social.DialogsOpenBetweenFriends(db.social, request.action, dialog);
    }
  }

  /** What an event makes of one read state. */
  predicate MarkedAfter(marked: bool, event: Unread.Event, chat: Messages.Chat, user: UserId) {
    event == Unread.MarkedRead(chat, user)
    || (marked && event != Unread.LeftOrBanned(chat, user) && event != Unread.ChatDeleted(chat))
  }

  lemma MarkFollows(rows: Unread.Db, event: Unread.Event, pause: nat, chat: Messages.Chat, user: UserId)
    ensures (chat, user) in Unread.Step(rows, event, pause).marks <==> MarkedAfter((chat, user) in rows.marks, event, chat, user)
  {
  }

  lemma RoomReadStatesFollow(db: Rooms.Db, change: Rooms.Request, room: Rooms.RoomId, user: UserId)
    ensures var event := if Rooms.Attempt(db, change).Success? then OnRoom(change) else Unread.Other;
            (room, user) in Rooms.Step(db, change).readStates
            <==> MarkedAfter((room, user) in db.readStates, event, Messages.InRoom(room), user)
  {
    hide Rooms.ModerationRefusal, Rooms.RequireRoomMessageAccess, Rooms.HasPending;
  }

  lemma ElsewhereNoRoomMarks(db: Chat.Db, request: Chat.Request, marked: bool, room: Rooms.RoomId, user: UserId)
    requires !request.InRooms?
    ensures MarkedAfter(marked, EventOf(db, request), Messages.InRoom(room), user) == marked
  {
    hide Messages.Attempt, Chat.OnMessages;
  }

  lemma RoomMarksStayAgreed(db: Chat.Db, rows: Unread.Db, request: Chat.Request, pause: nat, room: Rooms.RoomId, user: UserId)
    requires MarksAgree(rows.marks, db)
    ensures (Messages.InRoom(room), user) in Unread.Step(rows, EventOf(db, request), pause).marks
        <==> (room, user) in Chat.Step(db, request, pause).rooms.readStates
  {
    MarkFollows(rows, EventOf(db, request), pause, Messages.InRoom(room), user);
    hide Unread.Step, Rooms.Step, Rooms.Attempt, OnRoom, MarkedAfter, Messages.Step, Messages.Attempt, Chat.OnMessages;
    if request.InRooms? {
      RoomReadStatesFollow(db.rooms, request.change, room, user);
    } else {
      hide EventOf;
      ElsewhereNoRoomMarks(db, request, (room, user) in db.rooms.readStates, room, user);
    }
  }

  lemma MarksStayAgreed(db: Chat.Db, rows: Unread.Db, request: Chat.Request, pause: nat)
    requires MarksAgree(rows.marks, db)
    ensures MarksAgree(Unread.Step(rows, EventOf(db, request), pause).marks, Chat.Step(db, request, pause))
  {
    var marks, after := Unread.Step(rows, EventOf(db, request), pause).marks, Chat.Step(db, request, pause);
    forall room: Rooms.RoomId, user: UserId | true
      ensures (Messages.InRoom(room), user) in marks <==> (room, user) in after.rooms.readStates
    {
      RoomMarksStayAgreed(db, rows, request, pause, room, user);
    }
    forall dialog: Messages.DialogId, user: UserId | (Messages.InDialog(dialog), user) in marks
      ensures Chat.Participates(after, dialog, user)
    {
      DialogMarksBelong(db, rows, request, pause, dialog, user);
    }
    hide EventOf, Chat.Step, Unread.Step;
  }

  lemma DialogMarksBelong(db: Chat.Db, rows: Unread.Db, request: Chat.Request, pause: nat, dialog: Messages.DialogId, user: UserId)
    requires MarksAgree(rows.marks, db)
    requires (Messages.InDialog(dialog), user) in Unread.Step(rows, EventOf(db, request), pause).marks
    ensures Chat.Participates(Chat.Step(db, request, pause), dialog, user)
  {
    assert Chat.Participates(db, dialog, user) by {
      hide Chat.Step, Messages.Attempt, Rooms.Attempt, Chat.OnMessages;
    }
    ParticipantsStay(db, request, pause, dialog, user);
  }

  /** Both tables of module Unread say what the chats say. */
  ghost predicate Agrees(rows: Unread.Db, stored: Unread.Stored, db: Chat.Db) {
    && rows.now == db.messages.now && stored == Addressed(db.messages.messages)
    && TimesAgree(rows.posts, db.messages.messages) && MarksAgree(rows.marks, db)
  }

  lemma {:induction false} RowsAgree(users: set<UserId>, history: Chat.History, n: nat)
    requires n <= |history|
    ensures Agrees(Rows(users, history, n), Unread.StoredAfter(Events(users, history, n)), Chat.At(users, history, n))
  {
    hide EventOf, Chat.Step, Unread.Step, Chat.Invariant;
    if n == 0 {
      assert history[..0] == [];
    } else {
      EventsNext(users, history, n - 1);
      RowsAgree(users, history, n - 1);
      Chat.AtNext(users, history, n - 1);
      Unread.RunTracks(0, Events(users, history, n));
      AgreesNext(Chat.At(users, history, n - 1), Rows(users, history, n - 1), Unread.StoredAfter(Events(users, history, n - 1)),
                 history[n - 1].0, history[n - 1].1);
    }
  }

  lemma AgreesNext(db: Chat.Db, rows: Unread.Db, stored: Unread.Stored, request: Chat.Request, pause: nat)
    requires Agrees(rows, stored, db)
    requires var event := EventOf(db, request);
             Unread.Tracks(Unread.Step(rows, event, pause), Unread.StoredThen(stored, event))
    ensures var event := EventOf(db, request);
            Agrees(Unread.Step(rows, event, pause), Unread.StoredThen(stored, event), Chat.Step(db, request, pause))
  {
    hide EventOf, Chat.Step, Unread.Step, Unread.StoredThen, Addressed, TimesAgree, MarksAgree;
    StoredFollows(db, request, pause);
    ClockAgrees(db, rows, request, pause);
    TimesStayAgreed(db, rows, request, pause);
    MarksStayAgreed(db, rows, request, pause);
  }

  /** The chats a user has in their lists: the rooms they are a member of, and their dialogs. */
  predicate Attends(db: Chat.Db, chat: Messages.Chat, user: UserId) {
    match chat
    case InRoom(room) => db.rooms.IsMember(room, user)
    case InDialog(dialog) => Chat.Participates(db, dialog, user)
  }

  /**
   After any run the counted rows are the stored messages, in the order they were posted; the read
   states of rooms are those the room transactions keep, all held by current members, and those of
   dialogs are held by the dialog's users.
   */
  lemma RowsAreTheChats(users: set<UserId>, history: Chat.History)
    ensures var rows, db := Rows(users, history, |history|), Chat.At(users, history, |history|);
            && Unread.Chronological(rows.posts)
            && (forall p :: p in rows.posts ==>
                  && p.id in db.messages.messages && db.messages.messages[p.id].chat == p.chat
                  && db.messages.messages[p.id].sender == p.sender && db.messages.messages[p.id].createdAt == p.createdAt)
            && (forall m :: m in db.messages.messages ==> Unread.HasId(rows.posts, m))
            && (forall room: Rooms.RoomId, user: UserId :: (Messages.InRoom(room), user) in rows.marks <==> (room, user) in db.rooms.readStates)
            && (forall chat, user :: (chat, user) in rows.marks ==> Attends(db, chat, user))
  {
    RowsAgree(users, history, |history|);
    Unread.RunTracks(0, Events(users, history, |history|));
    Chat.RunKeepsInvariant(users, history[..|history|]);
    hide Chat.Run, Unread.Run, Social.Invariant, Messages.Invariant, Unread.Chronological, Unread.InThePast, Chat.ChatsExist;
    var rows, db := Rows(users, history, |history|), Chat.At(users, history, |history|);
    forall chat, user | (chat, user) in rows.marks ensures Attends(db, chat, user) {
      AttendsByMark(db, rows.marks, chat, user);
    }
    hide Chat.Invariant, Chat.Participates;
  }

  lemma AttendsByMark(db: Chat.Db, marks: Unread.Marks, chat: Messages.Chat, user: UserId)
    requires MarksAgree(marks, db) && Rooms.ReadersAreMembers(db.rooms) && (chat, user) in marks
    ensures Attends(db, chat, user)
  {
    match chat
    case InRoom(room) => assert (Messages.InRoom(room), user) in marks;
    case InDialog(dialog) => assert (Messages.InDialog(dialog), user) in marks;
  }

  // ----- Who has read what -----

  predicate Asks(request: Chat.Request, chat: Messages.Chat, user: UserId) {
    match chat
    case InRoom(room) => request == Chat.InRooms(Rooms.Read(room, user))
    case InDialog(dialog) => request == Chat.ReadDialog(dialog, user)
  }

  /** The k-th request marks the chat read for a user who attends it. */
  ghost predicate ReadAt(users: set<UserId>, history: Chat.History, k: nat, chat: Messages.Chat, user: UserId)
    requires k < |history|
  {
    Asks(history[k].0, chat, user) && Attends(Chat.At(users, history, k), chat, user)
  }

  ghost predicate StayedSince(users: set<UserId>, history: Chat.History, k: nat, n: nat, chat: Messages.Chat, user: UserId)
    requires n <= |history|
  {
    forall j :: k < j <= n ==> Attends(Chat.At(users, history, j), chat, user)
  }

  /** The user marked the chat read after that time and has attended it ever since. */
  ghost predicate HasRead(users: set<UserId>, history: Chat.History, n: nat, chat: Messages.Chat, user: UserId, time: int)
    requires n <= |history|
  {
    exists k :: 0 <= k < n && ReadAt(users, history, k, chat, user)
                && time < Chat.At(users, history, k).messages.now && StayedSince(users, history, k, n, chat, user)
  }

  /** What others posted in the chat. */
  function FromOthers(messages: Messages.MessageRows, chat: Messages.Chat, user: UserId): set<Messages.MessageId> {
    set m | m in messages && messages[m].chat == chat && messages[m].sender != user
  }

  /** What of that the user has not read. */
  ghost function UnreadBy(users: set<UserId>, history: Chat.History, n: nat, chat: Messages.Chat, user: UserId): set<Messages.MessageId>
    requires n <= |history|
  {
    var messages := Chat.At(users, history, n).messages.messages;
    set m | m in FromOthers(messages, chat, user) && !HasRead(users, history, n, chat, user, messages[m].createdAt)
  }

  lemma HasReadNext(users: set<UserId>, history: Chat.History, n: nat, chat: Messages.Chat, user: UserId, time: int)
    requires n < |history|
    ensures HasRead(users, history, n + 1, chat, user, time) <==>
            Attends(Chat.At(users, history, n + 1), chat, user) &&
            (HasRead(users, history, n, chat, user, time)
             || (ReadAt(users, history, n, chat, user) && time < Chat.At(users, history, n).messages.now))
  {
    hide Attends, ReadAt, Chat.At;
    if HasRead(users, history, n + 1, chat, user, time) {
      var k: nat :| k < n + 1 && ReadAt(users, history, k, chat, user)
                    && time < Chat.At(users, history, k).messages.now && StayedSince(users, history, k, n + 1, chat, user);
      assert StayedSince(users, history, k, n, chat, user);
    }
    if HasRead(users, history, n, chat, user, time) && Attends(Chat.At(users, history, n + 1), chat, user) {
      var k: nat :| k < n && ReadAt(users, history, k, chat, user)
                    && time < Chat.At(users, history, k).messages.now && StayedSince(users, history, k, n, chat, user);
      assert StayedSince(users, history, k, n + 1, chat, user);
    }
    if ReadAt(users, history, n, chat, user) && Attends(Chat.At(users, history, n + 1), chat, user) {
      assert StayedSince(users, history, n, n + 1, chat, user);
    }
  }

  lemma {:induction false} HasReadIsPast(users: set<UserId>, history: Chat.History, n: nat, chat: Messages.Chat, user: UserId, time: int)
    requires n <= |history| && HasRead(users, history, n, chat, user, time)
    ensures time < Chat.At(users, history, n).messages.now && Attends(Chat.At(users, history, n), chat, user)
  {
    hide Attends, ReadAt, Chat.Step, Chat.Invariant;
    HasReadNext(users, history, n - 1, chat, user, time);
    Chat.AtNext(users, history, n - 1);
    ClockMoves(Chat.At(users, history, n - 1), history[n - 1].0, history[n - 1].1);
    if HasRead(users, history, n - 1, chat, user, time) {
      HasReadIsPast(users, history, n - 1, chat, user, time);
    }
  }

  lemma ClockMoves(db: Chat.Db, request: Chat.Request, pause: nat)
    ensures db.messages.now < Chat.Step(db, request, pause).messages.now
  {
    hide Messages.Attempt;
  }

  /** Marking a chat read is an event exactly when an attending user asks for it. */
  lemma ReadsAreEvents(db: Chat.Db, request: Chat.Request, chat: Messages.Chat, user: UserId)
    requires Rooms.Invariant(db.rooms)
    ensures EventOf(db, request) == Unread.MarkedRead(chat, user) <==> Asks(request, chat, user) && Attends(db, chat, user)
  {
    hide Messages.Attempt, Chat.OnMessages;
  }

  predicate Ends(event: Unread.Event, chat: Messages.Chat, user: UserId) {
    event == Unread.LeftOrBanned(chat, user) || event == Unread.ChatDeleted(chat)
  }

  lemma MembershipFollows(db: Rooms.Db, change: Rooms.Request, room: Rooms.RoomId, user: UserId)
    requires Rooms.Invariant(db)
    ensures var ends := Ends(if Rooms.Attempt(db, change).Success? then OnRoom(change) else Unread.Other, Messages.InRoom(room), user);
            && (ends ==> !Rooms.Step(db, change).IsMember(room, user))
            && (db.IsMember(room, user) && !ends ==> Rooms.Step(db, change).IsMember(room, user))
  {
    hide Rooms.ModerationRefusal, Rooms.HasPending;
  }

  /** Nobody stops attending except by leaving, a ban, or the deletion of the room. */
  lemma AttendanceFollows(db: Chat.Db, request: Chat.Request, pause: nat, chat: Messages.Chat, user: UserId)
    requires Rooms.Invariant(db.rooms)
    ensures Ends(EventOf(db, request), chat, user) ==> !Attends(Chat.Step(db, request, pause), chat, user)
    ensures Attends(db, chat, user) && !Ends(EventOf(db, request), chat, user) ==> Attends(Chat.Step(db, request, pause), chat, user)
  {
    hide Messages.Attempt, Chat.OnMessages, Messages.Step, Rooms.Invariant;
    match chat
    case InDialog(dialog) =>
      if Chat.Participates(db, dialog, user) {
        ParticipantsStay(db, request, pause, dialog, user);
      }
      hide Chat.Participates, Chat.Step, Rooms.Attempt;
    case InRoom(room) =>
      hide Rooms.Step, Rooms.Attempt;
      if request.InRooms? {
        MembershipFollows(db.rooms, request.change, room, user);
      }
      hide OnRoom;
  }

  // ----- The counters count what is unread -----

  /** One message under one event, given whether the user had read it before and has read it after. */
  lemma OneMessage(stored: Unread.Stored, unread: set<Messages.MessageId>, event: Unread.Event, chat: Messages.Chat, user: UserId,
                   m: Messages.MessageId, before: bool, after: bool, attends: bool)
    requires m in unread <==> m in stored && stored[m].0 == chat && stored[m].1 != user && !before
    requires Ends(event, chat, user) ==> !attends
    requires event == Unread.MarkedRead(chat, user) || (before && !Ends(event, chat, user)) ==> attends
    requires after <==> attends && m in stored && (before || event == Unread.MarkedRead(chat, user))
    ensures var stored' := Unread.StoredThen(stored, event);
            m in Unread.UnreadThen(unread, stored, event, chat, user)
            <==> m in stored' && stored'[m].0 == chat && stored'[m].1 != user && !after
  {
  }

  /** The time of a message that is there now, or of the present otherwise. */
  ghost function TimeOf(db: Messages.Db, m: Messages.MessageId): int {
    if m in db.messages then db.messages[m].createdAt else db.now
  }

  lemma HasReadFollows(users: set<UserId>, history: Chat.History, n: nat, chat: Messages.Chat, user: UserId, m: Messages.MessageId)
    requires n < |history|
    ensures var db, event := Chat.At(users, history, n), EventOf(Chat.At(users, history, n), history[n].0);
            var time, attends := TimeOf(db.messages, m), Attends(Chat.At(users, history, n + 1), chat, user);
            var before := HasRead(users, history, n, chat, user, time);
            && (Ends(event, chat, user) ==> !attends)
            && (event == Unread.MarkedRead(chat, user) || (before && !Ends(event, chat, user)) ==> attends)
            && (before ==> m in db.messages.messages)
            && (HasRead(users, history, n + 1, chat, user, time) <==>
                attends && m in db.messages.messages && (before || event == Unread.MarkedRead(chat, user)))
  {
    hide HasRead, EventOf, Ends, Asks, Attends, Chat.Step, Chat.At, Social.Invariant, Rooms.Invariant;
    var db := Chat.At(users, history, n);
    var time := TimeOf(db.messages, m);
    Chat.AtNext(users, history, n);
    HasReadNext(users, history, n, chat, user, time);
    ReadsAreEvents(db, history[n].0, chat, user);
    AttendanceFollows(db, history[n].0, history[n].1, chat, user);
    if HasRead(users, history, n, chat, user, time) {
      HasReadIsPast(users, history, n, chat, user, time);
    }
    ReadingIsNoExit(EventOf(db, history[n].0), chat, user);
    PostedInThePast(db.messages, m);
    hide Chat.Invariant, Messages.Invariant;
  }

  lemma ReadingIsNoExit(event: Unread.Event, chat: Messages.Chat, user: UserId)
    ensures event == Unread.MarkedRead(chat, user) ==> !Ends(event, chat, user)
  {
  }

  lemma PostedInThePast(db: Messages.Db, m: Messages.MessageId)
    requires Messages.RepliesSound(db.messages, db.now)
    ensures m in db.messages <==> TimeOf(db, m) < db.now
  {
    if m in db.messages {
      assert Messages.ReplySound(db.messages, db.now, m);
    }
  }

  lemma UnreadNext(users: set<UserId>, history: Chat.History, n: nat, chat: Messages.Chat, user: UserId)
    requires n < |history|
    ensures var db := Chat.At(users, history, n);
            UnreadBy(users, history, n + 1, chat, user)
            == Unread.UnreadThen(UnreadBy(users, history, n, chat, user), Addressed(db.messages.messages), EventOf(db, history[n].0), chat, user)
  {
    var db, db' := Chat.At(users, history, n), Chat.At(users, history, n + 1);
    var event, unread, stored := EventOf(db, history[n].0), UnreadBy(users, history, n, chat, user), Addressed(db.messages.messages);
    Chat.AtNext(users, history, n);
    StoredFollows(db, history[n].0, history[n].1);
    forall m
      ensures m in UnreadBy(users, history, n + 1, chat, user) <==> m in Unread.UnreadThen(unread, stored, event, chat, user)
    {
      var time := TimeOf(db.messages, m);
      HasReadFollows(users, history, n, chat, user, m);
      if m in db'.messages.messages {
        TimesFollow(db, history[n].0, history[n].1, m);
      }
      OneMessage(stored, unread, event, chat, user, m, HasRead(users, history, n, chat, user, time),
                 HasRead(users, history, n + 1, chat, user, time), Attends(db', chat, user));
      hide HasRead, EventOf, Ends, Attends, Chat.Step, Chat.At, Chat.Invariant, Unread.UnreadThen, Unread.StoredThen;
    }
    hide EventOf, Chat.Step, Chat.Invariant, Unread.UnreadThen;
  }

  lemma AfterUnfolds(history: Unread.History, chat: Messages.Chat, user: UserId)
    requires history != []
    ensures var before, event := history[..|history| - 1], history[|history| - 1].0;
            Unread.UnreadAfter(history, chat, user)
            == Unread.UnreadThen(Unread.UnreadAfter(before, chat, user), Unread.StoredAfter(before), event, chat, user)
  {
    hide Unread.UnreadThen, Unread.StoredThen;
  }

  lemma NothingAtFirst(users: set<UserId>, history: Chat.History, chat: Messages.Chat, user: UserId)
    ensures Unread.UnreadAfter(Events(users, history, 0), chat, user) == UnreadBy(users, history, 0, chat, user)
  {
    hide HasRead, Chat.At;
    Chat.AtStart(users, history);
  }

  lemma {:induction false} UnreadFollows(users: set<UserId>, history: Chat.History, n: nat, chat: Messages.Chat, user: UserId)
    requires n <= |history|
    ensures Unread.UnreadAfter(Events(users, history, n), chat, user) == UnreadBy(users, history, n, chat, user)
  {
    hide *;
    if n == 0 {
      NothingAtFirst(users, history, chat, user);
    } else {
      EventsNext(users, history, n - 1);
      UnreadFollows(users, history, n - 1, chat, user);
      StoredIsAddressed(users, history, n - 1);
      UnreadNext(users, history, n - 1, chat, user);
      AfterUnfolds(Events(users, history, n), chat, user);
    }
  }

  lemma StoredIsAddressed(users: set<UserId>, history: Chat.History, n: nat)
    requires n <= |history|
    ensures Unread.StoredAfter(Events(users, history, n)) == Addressed(Chat.At(users, history, n).messages.messages)
  {
    hide Addressed, Events, Chat.At, TimesAgree, MarksAgree;
    RowsAgree(users, history, n);
  }

  /**
   In every reachable state both ways of counting give the number of stored messages of the others
   in the chat, less those that were there when the user marked it read and attended it ever since.
   */
  lemma CountersCountUnread(users: set<UserId>, history: Chat.History, chat: Messages.Chat, user: UserId)
    ensures var rows := Rows(users, history, |history|);
            && Unread.CountUnread(rows.posts, rows.marks, chat, user) == |UnreadBy(users, history, |history|, chat, user)|
            && Unread.QueryUnread(rows.posts, rows.marks, chat, user) == |UnreadBy(users, history, |history|, chat, user)|
  {
    UnreadFollows(users, history, |history|, chat, user);
    Unread.CountersMatchHistory(0, Events(users, history, |history|), chat, user);
    hide UnreadBy, Unread.Run, Unread.CountUnread, Unread.QueryUnread, Unread.UnreadAfter, Events;
  }

  /** Whoever was away and has not marked the chat read since finds everything by the others unread. */
  lemma ComingBackUnreadsAll(users: set<UserId>, history: Chat.History, away: nat, chat: Messages.Chat, user: UserId)
    requires away <= |history| && !Attends(Chat.At(users, history, away), chat, user)
    requires forall k :: away <= k < |history| ==> !Asks(history[k].0, chat, user)
    ensures var messages, rows := Chat.At(users, history, |history|).messages.messages, Rows(users, history, |history|);
            Unread.CountUnread(rows.posts, rows.marks, chat, user) == |FromOthers(messages, chat, user)|
  {
    var messages := Chat.At(users, history, |history|).messages.messages;
    CountersCountUnread(users, history, chat, user);
    forall m | m in messages ensures !HasRead(users, history, |history|, chat, user, messages[m].createdAt) {
      NotReadSince(users, history, away, chat, user, messages[m].createdAt);
    }
    hide HasRead, Chat.At, Attends, Asks, Rows, Unread.CountUnread;
    assert UnreadBy(users, history, |history|, chat, user) == FromOthers(messages, chat, user);
  }

  lemma NotReadSince(users: set<UserId>, history: Chat.History, away: nat, chat: Messages.Chat, user: UserId, time: int)
    requires away <= |history| && !Attends(Chat.At(users, history, away), chat, user)
    requires forall k :: away <= k < |history| ==> !Asks(history[k].0, chat, user)
    ensures !HasRead(users, history, |history|, chat, user, time)
  {
    hide Chat.At, Attends, Asks;
    forall k: nat | k < |history| && ReadAt(users, history, k, chat, user)
      ensures !StayedSince(users, history, k, |history|, chat, user)
    {
      assert k < away;
    }
  }
}
