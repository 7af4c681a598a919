/**
 What the chats hold after any run, read off the requests that were made: messages with their texts,
 replies and attachments, each since the request that put it there and until one that takes it away.
 */
module MessageHistories {
  import opened Common
  import opened Histories
  import opened Messages
  import Chats = Chat
  import Rooms

  // ----- What is acceptable -----

  /** Text within 3072 bytes, and something to see: a character that is no space, or an attachment. */
  predicate ShowsSomething(text: Option<string>, hasAttachments: bool) {
    && (text.Some? ==> Utf8Length(text.value) <= 3072)
    && (hasAttachments || (text.Some? && exists c :: c in text.value && !IsSpace(c)))
  }

  /** Different attachments of one's own that no message carries. */
  predicate Attachable(db: Db, user: UserId, ids: seq<AttachmentId>) {
    && (forall i, j :: 0 <= i < j < |ids| ==> ids[i] != ids[j])
    && (forall a :: a in ids ==>
          a in db.attachments && db.attachments[a].uploader == user && a !in db.roomBindings && a !in db.dialogBindings)
  }

  predicate Acceptable(db: Db, post: Post) {
    && ShowsSomething(post.text, post.attachments != [])
    && (post.replyTo.Some? ==> post.replyTo.value in db.messages && db.messages[post.replyTo.value].chat == post.chat)
    && Attachable(db, post.sender, post.attachments)
  }

  // ----- What begins and ends each thing -----

  predicate Posts(db: Db, request: Request, m: MessageId) {
    request.Posted? && request.verdict == None && request.id == m && m !in db.messages && Acceptable(db, request.post)
  }

  /** The author rewords a message. */
  predicate Rewords(db: Db, request: Request, m: MessageId) {
    && request.Edited? && request.verdict == None && request.id == m && m in db.messages
    && request.chat == db.messages[m].chat && request.actor == db.messages[m].sender
    && ShowsSomething(request.text, db.AttachmentsOf(m) != {})
  }

  /** The author or a moderator removes a message, or its room goes. */
  predicate Takes(db: Db, request: Request, m: MessageId) {
    && m in db.messages
    && match request
       case Removed(verdict, chat, id, actor, moderates) =>
         && verdict == None && id == m && chat == db.messages[m].chat
         && (actor == db.messages[m].sender || (chat.InRoom? && moderates))
       case RoomDeleted(verdict, room) => verdict == None && db.messages[m].chat == InRoom(room)
       case _ => false
  }

  /** An upload that fits and whose blob and row both get stored. */
  predicate Stores(db: Db, request: Request, a: AttachmentId) {
    && request.Uploaded? && request.attachment == a && request.outcome == Stored
    && 0 < request.size <= (if request.isImage then 3_145_728 else 20_971_520)
    && a !in db.attachments && request.key !in db.blobs
  }

  /** The uploader discards an attachment no message carries. */
  predicate Discards(db: Db, request: Request, a: AttachmentId) {
    && request.Discarded? && request.attachment == a && a in db.attachments && db.attachments[a].uploader == request.actor
    && a !in db.roomBindings && a !in db.dialogBindings
  }

  // ----- Refusals, in these words -----

  lemma ContentExactly(text: Option<string>, hasAttachments: bool)
    ensures ContentRefusal(text, hasAttachments) == None <==> ShowsSomething(text, hasAttachments)
  {
  }

  lemma LockExactly(db: Db, user: UserId, ids: seq<AttachmentId>)
    requires Bound(db)
    ensures LockRefusal(db, user, ids) == None <==> Attachable(db, user, ids)
  {
    forall a | a in db.attachments
      ensures db.attachments[a].bindingType == Unbound <==> a !in db.roomBindings && a !in db.dialogBindings
    {
      assert BindingSound(db.attachments, db.roomBindings, db.dialogBindings, db.messages, a);
    }
    hide BindingsSound, BindingSound;
  }

  /** A post succeeds exactly when its sender may send and it is acceptable. */
  lemma PostingExactly(db: Db, verdict: Option<Error>, post: Post, id: MessageId)
    requires Bound(db)
    ensures CreateMessage(db, verdict, post, id).Success? <==>
            verdict == None && id !in db.messages && Acceptable(db, post)
  {
    ContentExactly(post.text, post.attachments != []);
    LockExactly(db, post.sender, post.attachments);
    hide ContentRefusal, ShowsSomething, LockRefusal, Attachable, BindingsSound, Bind;
  }

  // ----- One step -----

  predicate IsStored(db: Db, m: MessageId, chat: Chat, sender: UserId, time: nat) {
    m in db.messages && db.messages[m].chat == chat && db.messages[m].sender == sender && db.messages[m].createdAt == time
  }

  lemma StoredNext(db: Db, request: Request, pause: nat, m: MessageId)
    requires Bound(db)
    ensures m in Step(db, request, pause).messages <==>
            Posts(db, request, m) || (m in db.messages && !Takes(db, request, m))
  {
    if request.Posted? {
      PostingExactly(db, request.verdict, request.post, request.id);
    }
    hide ContentRefusal, LockRefusal, ReplyRefusal, Acceptable, BindingsSound;
  }

  lemma PostedRow(db: Db, request: Request, pause: nat, m: MessageId)
    requires m in Step(db, request, pause).messages && m !in db.messages
    ensures request.Posted? && request.id == m
    ensures Step(db, request, pause).messages[m]
         == Message(request.post.chat, request.post.sender, request.post.text, request.post.replyTo, db.now, false)
  {
    hide ContentRefusal, LockRefusal, ReplyRefusal;
  }

  lemma EditedWords(db: Db, request: Request, pause: nat, m: MessageId)
    requires request.Edited? && m in db.messages && m in Step(db, request, pause).messages
    ensures
      var before, after := db.messages[m], Step(db, request, pause).messages[m];
      && after.text == (if Rewords(db, request, m) then request.text else before.text)
      && after.isEdited == (before.isEdited || Rewords(db, request, m))
  {
    ContentExactly(request.text, db.AttachmentsOf(m) != {});
    hide ContentRefusal, ShowsSomething, BoundTo;
  }

  lemma WordsNext(db: Db, request: Request, pause: nat, m: MessageId)
    requires m in db.messages && m in Step(db, request, pause).messages
    ensures
      var before, after := db.messages[m], Step(db, request, pause).messages[m];
      && after.chat == before.chat && after.sender == before.sender && after.createdAt == before.createdAt
      && after.text == (if Rewords(db, request, m) then request.text else before.text)
      && after.isEdited == (before.isEdited || Rewords(db, request, m))
  {
    MessagesChangeByTheirAuthor(db, request, pause, m);
    if request.Edited? {
      EditedWords(db, request, pause, m);
    }
    hide Step;
  }

  /** A reply stays one until its target is taken away. */
  lemma ReplyNext(db: Db, request: Request, pause: nat, m: MessageId)
    requires m in db.messages && m in Step(db, request, pause).messages
    ensures
      var before := db.messages[m].replyTo;
      Step(db, request, pause).messages[m].replyTo == if before.Some? && Takes(db, request, before.value) then None else before
  {
    hide ContentRefusal, LockRefusal, ReplyRefusal, BoundTo;
  }

  lemma CarriedByPosting(db: Db, request: Request, pause: nat, m: MessageId, a: AttachmentId)
    requires Bound(db) && request.Posted?
    ensures Carries(Step(db, request, pause), m, a) <==>
            (Posts(db, request, m) && a in request.post.attachments) || Carries(db, m, a)
  {
    BoundOnce(db);
    PostingExactly(db, request.verdict, request.post, request.id);
    if CreateMessage(db, request.verdict, request.post, request.id).Success? {
      CreateBindsWhatWasAsked(db, request.verdict, request.post, request.id);
      PostingAddsOne(db, request.verdict, request.post, request.id);
    }
    hide CreateMessage, Acceptable, BindingsSound, BoundTo;
  }

  lemma PostingAddsOne(db: Db, verdict: Option<Error>, post: Post, id: MessageId)
    requires CreateMessage(db, verdict, post, id).Success?
    ensures CreateMessage(db, verdict, post, id).value.messages.Keys == db.messages.Keys + {id} && id !in db.messages
  {
    hide ContentRefusal, LockRefusal, ReplyRefusal;
  }

  lemma CarriedWithout(db: Db, goneAttachments: set<AttachmentId>, goneMessages: set<MessageId>, m: MessageId,
                       a: AttachmentId)
    requires Matched(db.roomBindings, goneAttachments, goneMessages) && Matched(db.dialogBindings, goneAttachments, goneMessages)
    ensures Carries(DropMessages(DropAttachments(db, goneAttachments), goneMessages), m, a) <==>
            Carries(db, m, a) && m !in goneMessages
  {
  }

  lemma CarriedOnRemoval(db: Db, request: Request, pause: nat, m: MessageId, a: AttachmentId)
    requires Bound(db) && (request.Removed? || request.RoomDeleted?)
    ensures Carries(Step(db, request, pause), m, a) <==> Carries(db, m, a) && !Takes(db, request, m)
  {
    BoundOnce(db);
    hide Bound;
    if request.Removed? {
      CarriedWithout(db, db.AttachmentsOf(request.id), {request.id}, m, a);
    } else {
      var gone := MessagesIn(db, InRoom(request.room));
      CarriedWithout(db, (set b | b in db.roomBindings && db.roomBindings[b] in gone), gone, m, a);
    }
    hide DropMessages, DropAttachments, BoundTo;
  }

  lemma CarriedNext(db: Db, request: Request, pause: nat, m: MessageId, a: AttachmentId)
    requires Bound(db)
    ensures Carries(Step(db, request, pause), m, a) <==>
            (Posts(db, request, m) && a in request.post.attachments) || (Carries(db, m, a) && !Takes(db, request, m))
  {
    if request.Posted? {
      CarriedByPosting(db, request, pause, m, a);
      hide Step, Carries, Posts;
    } else if request.Removed? || request.RoomDeleted? {
      CarriedOnRemoval(db, request, pause, m, a);
      hide Step, Carries, Takes, Bound;
    } else {
      BoundOnce(db);
      hide ContentRefusal, BindingsSound;
    }
  }

  predicate HasAttachment(db: Db, a: AttachmentId, uploader: UserId, key: StorageKey, size: int) {
    && a in db.attachments && db.attachments[a].uploader == uploader && db.attachments[a].storageKey == key
    && db.attachments[a].size == size
  }

  /** An attachment goes when it is discarded, or with the message that carries it. */
  ghost predicate Drops(db: Db, request: Request, a: AttachmentId) {
    Discards(db, request, a) || exists m :: Carries(db, m, a) && Takes(db, request, m)
  }

  /** The attachments that go with messages are those bound to them. */
  lemma DroppedExactly(db: Db, a: AttachmentId, gone: set<MessageId>)
    requires Bound(db)
    ensures (a in db.roomBindings && db.roomBindings[a] in gone) || (a in db.dialogBindings && db.dialogBindings[a] in gone)
            <==> exists m :: m in gone && Carries(db, m, a)
  {
    BoundOnce(db);
    hide BindingsSound;
    if a in db.roomBindings && db.roomBindings[a] in gone {
      assert Carries(db, db.roomBindings[a], a);
    }
    if a in db.dialogBindings && db.dialogBindings[a] in gone {
      assert Carries(db, db.dialogBindings[a], a);
    }
  }

  lemma AttachmentsOfRemoved(db: Db, request: Request, pause: nat, a: AttachmentId)
    requires Bound(db) && (request.Removed? || request.RoomDeleted?) && a in db.attachments
    ensures if Drops(db, request, a) then a !in Step(db, request, pause).attachments
            else a in Step(db, request, pause).attachments && Step(db, request, pause).attachments[a] == db.attachments[a]
  {
    BoundOnce(db);
    if request.Removed? {
      DroppedExactly(db, a, {request.id});
    } else {
      DroppedExactly(db, a, MessagesIn(db, InRoom(request.room)));
    }
    hide BindingsSound, Discards;
  }

  lemma AttachmentNext(db: Db, request: Request, pause: nat, a: AttachmentId, uploader: UserId, key: StorageKey,
                       size: int)
    requires Bound(db)
    ensures HasAttachment(Step(db, request, pause), a, uploader, key, size) <==>
            (Stores(db, request, a) && request.uploader == uploader && request.key == key && request.size == size)
            || (HasAttachment(db, a, uploader, key, size) && !Drops(db, request, a))
  {
    if request.Removed? || request.RoomDeleted? {
      if a in db.attachments {
        AttachmentsOfRemoved(db, request, pause, a);
      }
      hide Drops, Bound;
    } else {
      hide ContentRefusal, LockRefusal, ReplyRefusal;
      if request.Discarded? && a in db.attachments {
        assert BindingSound(db.attachments, db.roomBindings, db.dialogBindings, db.messages, a);
      }
      hide Bound;
    }
  }

  // ----- Requests to the chats -----

  /** Editing and removing need membership without a ban, or being one of the dialog's users. */
  predicate MayAct(db: Chats.Db, chat: Chat, actor: UserId) {
    match chat
    case InRoom(room) => db.rooms.IsMember(room, actor) && !db.rooms.IsBanned(room, actor)
    case InDialog(dialog) => Chats.Participates(db, dialog, actor)
  }

  predicate Sends(db: Chats.Db, request: Chats.Request, m: MessageId) {
    && request.Post? && request.id == m && m !in db.messages.messages
    && Chats.MayTalk(db, request.post.chat, request.post.sender) && Acceptable(db.messages, request.post)
  }

  /** The author rewords a message while they may still act in its chat. */
  predicate Revises(db: Chats.Db, request: Chats.Request, m: MessageId) {
    && request.Edit? && request.id == m && m in db.messages.messages
    && request.chat == db.messages.messages[m].chat && request.actor == db.messages.messages[m].sender
    && MayAct(db, request.chat, request.actor) && ShowsSomething(request.text, db.messages.AttachmentsOf(m) != {})
  }

  /** The author or an admin of its room removes a message, or the owner deletes the room. */
  predicate Withdraws(db: Chats.Db, request: Chats.Request, m: MessageId) {
    && m in db.messages.messages
    && match request
       case Delete(chat, id, actor) =>
         && id == m && chat == db.messages.messages[m].chat && MayAct(db, chat, actor)
         && (actor == db.messages.messages[m].sender || (chat.InRoom? && db.rooms.IsAdminOrOwner(chat.room, actor)))
       case InRooms(Delete(room, actor)) =>
         db.messages.messages[m].chat == InRoom(room) && room in db.rooms.rooms && db.rooms.rooms[room].owner == actor
       case _ => false
  }

  lemma AccessSays(db: Chats.Db, chat: Chat, actor: UserId)
    ensures Chats.AccessVerdict(db, chat, actor) == if MayAct(db, chat, actor) then None else Some(NotFound)
  {
  }

  /** What the requests mean to the messages. */
  lemma RequestsMean(db: Chats.Db, request: Chats.Request, m: MessageId)
    ensures
      var r := Chats.OnMessages(db, request);
      && (Sends(db, request, m) <==> r.Some? && Posts(db.messages, r.value, m))
      && (Revises(db, request, m) <==> r.Some? && Rewords(db.messages, r.value, m))
      && (Withdraws(db, request, m) <==> r.Some? && Takes(db.messages, r.value, m))
  {
    match request
    case Post(post, _) => Chats.SendingExactly(db, post.chat, post.sender);
    case Edit(chat, _, actor, _) => AccessSays(db, chat, actor);
    case Delete(chat, _, actor) => AccessSays(db, chat, actor);
    case _ =>
    hide Acceptable, ShowsSomething, Chats.SendVerdict, Chats.AccessVerdict, Chats.MayTalk, MayAct;
  }

  // ----- What a refusal says -----

  /** The chat, the message in it, or one's own attachment is not there for the one who asks. */
  predicate Unseen(db: Chats.Db, request: Chats.Request) {
    match request
    case Post(post, _) => !MayAct(db, post.chat, post.sender)
    case Edit(chat, id, actor, _) => !MayAct(db, chat, actor) || !(id in db.messages.messages && db.messages.messages[id].chat == chat)
    case Delete(chat, id, actor) => !MayAct(db, chat, actor) || !(id in db.messages.messages && db.messages.messages[id].chat == chat)
    case Discard(a, actor) => !(a in db.messages.attachments && db.messages.attachments[a].uploader == actor)
    case _ => false
  }

  /** It is a dialog one may not write to now, or somebody else's message. */
  predicate Barred(db: Chats.Db, request: Chats.Request) {
    match request
    case Post(post, _) => !Chats.MayTalk(db, post.chat, post.sender)
    case Edit(_, id, actor, _) => id in db.messages.messages && db.messages.messages[id].sender != actor
    case Delete(_, id, actor) => id in db.messages.messages && db.messages.messages[id].sender != actor
    case _ => false
  }

  predicate Unacceptable(db: Chats.Db, request: Chats.Request) {
    match request
    case Post(post, _) => !Acceptable(db.messages, post)
    case Edit(_, id, _, text) => !ShowsSomething(text, db.messages.AttachmentsOf(id) != {})
    case Upload(_, size, isImage, _, _, _) => !(0 < size <= (if isImage then 3_145_728 else 20_971_520))
    case _ => false
  }

  /** Writing the blob or the row failed. */
  predicate Fails(db: Chats.Db, request: Chats.Request, outcome: UploadOutcome) {
    && request.Upload? && request.outcome == outcome && request.attachment !in db.messages.attachments
    && request.key !in db.messages.blobs
  }

  /**
   A refused request about messages or attachments says what stands in the way: not found exactly
   when what it is about is hidden from the one who asks, then forbidden, then invalid.
   */
  lemma RefusalsExactly(db: Chats.Db, request: Chats.Request)
    requires Bound(db.messages) && !request.InRooms? && !request.InSocial? && !request.ReadDialog?
    requires Attempt(db.messages, Chats.OnMessages(db, request).value).Failure?
    ensures Attempt(db.messages, Chats.OnMessages(db, request).value)
         == Failure(if Unseen(db, request) then NotFound
                    else if Barred(db, request) then Forbidden
                    else if Unacceptable(db, request) then Invalid
                    else if Fails(db, request, PutFails) then StorageFailed
                    else if Fails(db, request, RowFails) then RowRejected
                    else Conflict)
  {
    match request
    case Post(post, _) =>
      VerdictExactly(db, post.chat, post.sender);
      ContentExactly(post.text, post.attachments != []);
      LockExactly(db.messages, post.sender, post.attachments);
      hide ContentRefusal, LockRefusal, ShowsSomething, Attachable, Chats.MayTalk, MayAct, Chats.SendVerdict, Bound, Bind;
    case Edit(chat, id, actor, text) =>
      AccessSays(db, chat, actor);
      ContentExactly(text, db.messages.AttachmentsOf(id) != {});
      hide ContentRefusal, ShowsSomething, MayAct, Chats.AccessVerdict, Bound, BoundTo;
    case Delete(chat, _, actor) =>
      AccessSays(db, chat, actor);
      hide MayAct, Chats.AccessVerdict, Bound, BoundTo;
    case Discard(a, _) =>
    case Upload(_, _, _, _, _, _) =>
  }

  /** An attachment one may not open looks like one that does not exist. */
  lemma ClosedAttachmentsStayHidden(db: Db, audience: Audience, a: AttachmentId, user: UserId)
    ensures AttachmentRefusal(db, audience, a, user) == None || AttachmentRefusal(db, audience, a, user) == Some(NotFound)
    ensures a !in db.attachments ==> AttachmentRefusal(db, audience, a, user) == Some(NotFound)
  {
  }

  /**
   Whoever has no part in a chat is told it is not there; whoever may not write to a dialog now,
   that it is forbidden.
   */
  lemma VerdictExactly(db: Chats.Db, chat: Chat, sender: UserId)
    ensures Chats.SendVerdict(db, chat, sender)
         == if !MayAct(db, chat, sender) then Some(NotFound)
            else if !Chats.MayTalk(db, chat, sender) then Some(Forbidden) else None
  {
    Chats.SendingExactly(db, chat, sender);
  }

  predicate HasText(db: Db, m: MessageId, text: Option<string>) {
    m in db.messages && db.messages[m].text == text
  }

  predicate WasEdited(db: Db, m: MessageId) {
    m in db.messages && db.messages[m].isEdited
  }

  predicate RepliesTo(db: Db, m: MessageId, target: MessageId) {
    m in db.messages && db.messages[m].replyTo == Some(target)
  }

  lemma StoredAfter(db: Chats.Db, request: Chats.Request, pause: nat, m: MessageId, chat: Chat, sender: UserId, time: nat)
    requires Bound(db.messages)
    ensures IsStored(Chats.Step(db, request, pause).messages, m, chat, sender, time) <==>
            (Sends(db, request, m) && request.post.chat == chat && request.post.sender == sender && db.messages.now == time)
            || (IsStored(db.messages, m, chat, sender, time) && !Withdraws(db, request, m))
  {
    RequestsMean(db, request, m);
    SayNothingElse(db, request, m);
    hide Step, Posts, Takes, Sends, Withdraws, Bound, Chats.SendVerdict, Chats.AccessVerdict;
    match Chats.OnMessages(db, request)
    case None =>
    case Some(r) =>
      StoredNext(db.messages, r, pause, m);
      if m in Step(db.messages, r, pause).messages {
        if m in db.messages.messages {
          WordsNext(db.messages, r, pause, m);
        } else {
          PostedRow(db.messages, r, pause, m);
        }
      }
  }

  lemma TextAfter(db: Chats.Db, request: Chats.Request, pause: nat, m: MessageId, text: Option<string>)
    requires Bound(db.messages)
    ensures HasText(Chats.Step(db, request, pause).messages, m, text) <==>
            (Sends(db, request, m) && request.post.text == text) || (Revises(db, request, m) && request.text == text)
            || (HasText(db.messages, m, text) && !Withdraws(db, request, m) && !(Revises(db, request, m) && request.text != text))
  {
    RequestsMean(db, request, m);
    SayNothingElse(db, request, m);
    hide Step, Posts, Takes, Rewords, Sends, Revises, Withdraws, Bound, Chats.SendVerdict, Chats.AccessVerdict;
    match Chats.OnMessages(db, request)
    case None =>
    case Some(r) =>
      StoredNext(db.messages, r, pause, m);
      if m in Step(db.messages, r, pause).messages {
        if m in db.messages.messages {
          WordsNext(db.messages, r, pause, m);
        } else {
          PostedRow(db.messages, r, pause, m);
        }
      }
  }

  /** A request does one of the three at most. */
  lemma SayNothingElse(db: Chats.Db, request: Chats.Request, m: MessageId)
    ensures Sends(db, request, m) ==> request.Post? && m !in db.messages.messages
    ensures Revises(db, request, m) ==> request.Edit? && m in db.messages.messages && !Withdraws(db, request, m)
  {
    hide Acceptable, ShowsSomething;
  }

  lemma EditedAfter(db: Chats.Db, request: Chats.Request, pause: nat, m: MessageId)
    requires Bound(db.messages)
    ensures WasEdited(Chats.Step(db, request, pause).messages, m) <==>
            Revises(db, request, m) || (WasEdited(db.messages, m) && !Withdraws(db, request, m))
  {
    RequestsMean(db, request, m);
    SayNothingElse(db, request, m);
    hide Step, Posts, Takes, Rewords, Sends, Revises, Withdraws, Bound, Chats.SendVerdict, Chats.AccessVerdict;
    match Chats.OnMessages(db, request)
    case None =>
    case Some(r) =>
      StoredNext(db.messages, r, pause, m);
      if m in Step(db.messages, r, pause).messages {
        if m in db.messages.messages {
          WordsNext(db.messages, r, pause, m);
        } else {
          PostedRow(db.messages, r, pause, m);
        }
      }
  }

  lemma ReplyAfter(db: Chats.Db, request: Chats.Request, pause: nat, m: MessageId, target: MessageId)
    requires Bound(db.messages)
    ensures RepliesTo(Chats.Step(db, request, pause).messages, m, target) <==>
            (Sends(db, request, m) && request.post.replyTo == Some(target))
            || (RepliesTo(db.messages, m, target) && !Withdraws(db, request, m) && !Withdraws(db, request, target))
  {
    RequestsMean(db, request, m);
    RequestsMean(db, request, target);
    SayNothingElse(db, request, m);
    hide Step, Posts, Takes, Rewords, Sends, Revises, Withdraws, Bound, Chats.SendVerdict, Chats.AccessVerdict;
    match Chats.OnMessages(db, request)
    case None =>
    case Some(r) =>
      StoredNext(db.messages, r, pause, m);
      if m in Step(db.messages, r, pause).messages {
        if m in db.messages.messages {
          ReplyNext(db.messages, r, pause, m);
        } else {
          PostedRow(db.messages, r, pause, m);
        }
      }
  }

  lemma CarriedAfter(db: Chats.Db, request: Chats.Request, pause: nat, m: MessageId, a: AttachmentId)
    requires Bound(db.messages)
    ensures Carries(Chats.Step(db, request, pause).messages, m, a) <==>
            (Sends(db, request, m) && a in request.post.attachments)
            || (Carries(db.messages, m, a) && !Withdraws(db, request, m))
  {
    RequestsMean(db, request, m);
    SayNothingElse(db, request, m);
    hide Step, Posts, Takes, Sends, Withdraws, Bound, Chats.SendVerdict, Chats.AccessVerdict;
    match Chats.OnMessages(db, request)
    case None =>
    case Some(r) => CarriedNext(db.messages, r, pause, m, a);
  }

  predicate Keeps(db: Chats.Db, request: Chats.Request, a: AttachmentId) {
    && request.Upload? && request.attachment == a && request.outcome == Stored
    && 0 < request.size <= (if request.isImage then 3_145_728 else 20_971_520)
    && a !in db.messages.attachments && request.key !in db.messages.blobs
  }

  /** The uploader discards what no message carries, or the message that carries it is withdrawn. */
  ghost predicate GivesUp(db: Chats.Db, request: Chats.Request, a: AttachmentId) {
    || (&& request.Discard? && request.attachment == a && a in db.messages.attachments
        && db.messages.attachments[a].uploader == request.actor
        && a !in db.messages.roomBindings && a !in db.messages.dialogBindings)
    || exists m :: Carries(db.messages, m, a) && Withdraws(db, request, m)
  }

  lemma UploadsMean(db: Chats.Db, request: Chats.Request, a: AttachmentId)
    ensures
      var r := Chats.OnMessages(db, request);
      && (Keeps(db, request, a) <==> r.Some? && Stores(db.messages, r.value, a))
      && (GivesUp(db, request, a) <==> r.Some? && Drops(db.messages, r.value, a))
  {
    forall m ensures Withdraws(db, request, m) <==>
                     Chats.OnMessages(db, request).Some? && Takes(db.messages, Chats.OnMessages(db, request).value, m)
    {
      RequestsMean(db, request, m);
    }
    hide Withdraws, Takes, Carries, Chats.SendVerdict, Chats.AccessVerdict;
  }

  lemma AttachmentAfter(db: Chats.Db, request: Chats.Request, pause: nat, a: AttachmentId, uploader: UserId,
                        key: StorageKey, size: int)
    requires Bound(db.messages)
    ensures HasAttachment(Chats.Step(db, request, pause).messages, a, uploader, key, size) <==>
            (Keeps(db, request, a) && request.uploader == uploader && request.key == key && request.size == size)
            || (HasAttachment(db.messages, a, uploader, key, size) && !GivesUp(db, request, a))
  {
    UploadsMean(db, request, a);
    hide Step, Drops, GivesUp, Bound, Chats.SendVerdict, Chats.AccessVerdict;
    match Chats.OnMessages(db, request)
    case None =>
    case Some(r) => AttachmentNext(db.messages, r, pause, a, uploader, key, size);
  }

  // ----- Whole runs -----

  lemma NextAt(users: set<UserId>, history: Chats.History, k: nat)
    requires k < |history|
    ensures Chats.At(users, history, k + 1) == Chats.Step(Chats.At(users, history, k), history[k].0, history[k].1)
    ensures Bound(Chats.At(users, history, k).messages)
  {
    Chats.AtNext(users, history, k);
    hide Chats.Step, Chats.At, BindingsSound;
  }

  function Sendings(users: set<UserId>, history: Chats.History, m: MessageId, chat: Chat, sender: UserId,
                    time: nat): set<nat> {
    set k | 0 <= k < |history|
            && Sends(Chats.At(users, history, k), history[k].0, m) && history[k].0.post.chat == chat
            && history[k].0.post.sender == sender
            && Chats.At(users, history, k).messages.now == time
  }

  function Withdrawals(users: set<UserId>, history: Chats.History, m: MessageId): set<nat> {
    set k | 0 <= k < |history| && Withdraws(Chats.At(users, history, k), history[k].0, m)
  }

  /**
   A message is there, in its chat, under its sender's name and with its time, since that sender
   posted it there at that time while they could talk, until it is withdrawn.
   */
  lemma StoredExactly(users: set<UserId>, history: Chats.History, m: MessageId, chat: Chat, sender: UserId, time: nat,
                      n: nat)
    requires n <= |history|
    ensures IsStored(Chats.At(users, history, n).messages, m, chat, sender, time) <==>
            Since(Sendings(users, history, m, chat, sender, time), Withdrawals(users, history, m), n)
  {
    hide Chats.Step, Chats.At, Bound;
    Chats.AtStart(users, history);
    var starts, ends := Sendings(users, history, m, chat, sender, time), Withdrawals(users, history, m);
    var holds := set k | 0 <= k <= |history| && IsStored(Chats.At(users, history, k).messages, m, chat, sender, time);
    forall k: nat | k < n ensures k + 1 in holds <==> k in starts || (k in holds && k !in ends) {
      NextAt(users, history, k);
      StoredAfter(Chats.At(users, history, k), history[k].0, history[k].1, m, chat, sender, time);
      hide Sends, Withdraws, IsStored, Chats.Invariant;
    }
    SinceExactly(holds, starts, ends, n);
  }

  function Wordings(users: set<UserId>, history: Chats.History, m: MessageId, text: Option<string>): set<nat> {
    set k | 0 <= k < |history|
            && ((Sends(Chats.At(users, history, k), history[k].0, m) && history[k].0.post.text == text)
                || (Revises(Chats.At(users, history, k), history[k].0, m) && history[k].0.text == text))
  }

  function Rewordings(users: set<UserId>, history: Chats.History, m: MessageId, text: Option<string>): set<nat> {
    set k | 0 <= k < |history|
            && (Withdraws(Chats.At(users, history, k), history[k].0, m)
                || (Revises(Chats.At(users, history, k), history[k].0, m) && history[k].0.text != text))
  }

  /**
   A message has a text since its author posted it or edited it in, until they edit it again or the
   message is withdrawn.
   */
  lemma TextsExactly(users: set<UserId>, history: Chats.History, m: MessageId, text: Option<string>, n: nat)
    requires n <= |history|
    ensures HasText(Chats.At(users, history, n).messages, m, text) <==>
            Since(Wordings(users, history, m, text), Rewordings(users, history, m, text), n)
  {
    hide Chats.Step, Chats.At, Bound;
    Chats.AtStart(users, history);
    var starts, ends := Wordings(users, history, m, text), Rewordings(users, history, m, text);
    var holds := set k | 0 <= k <= |history| && HasText(Chats.At(users, history, k).messages, m, text);
    forall k: nat | k < n ensures k + 1 in holds <==> k in starts || (k in holds && k !in ends) {
      NextAt(users, history, k);
      TextAfter(Chats.At(users, history, k), history[k].0, history[k].1, m, text);
      hide Sends, Withdraws, Revises, HasText, Chats.Invariant;
    }
    SinceExactly(holds, starts, ends, n);
  }

  function Edits(users: set<UserId>, history: Chats.History, m: MessageId): set<nat> {
    set k | 0 <= k < |history| && Revises(Chats.At(users, history, k), history[k].0, m)
  }

  /** A message counts as edited since its author's first edit that went through. */
  lemma EditedExactly(users: set<UserId>, history: Chats.History, m: MessageId, n: nat)
    requires n <= |history|
    ensures WasEdited(Chats.At(users, history, n).messages, m) <==>
            Since(Edits(users, history, m), Withdrawals(users, history, m), n)
  {
    hide Chats.Step, Chats.At, Bound;
    Chats.AtStart(users, history);
    var starts, ends := Edits(users, history, m), Withdrawals(users, history, m);
    var holds := set k | 0 <= k <= |history| && WasEdited(Chats.At(users, history, k).messages, m);
    forall k: nat | k < n ensures k + 1 in holds <==> k in starts || (k in holds && k !in ends) {
      NextAt(users, history, k);
      EditedAfter(Chats.At(users, history, k), history[k].0, history[k].1, m);
      hide Revises, Withdraws, WasEdited, Chats.Invariant;
    }
    SinceExactly(holds, starts, ends, n);
  }

  function ReplyPosts(users: set<UserId>, history: Chats.History, m: MessageId, target: MessageId): set<nat> {
    set k | 0 <= k < |history|
            && Sends(Chats.At(users, history, k), history[k].0, m) && history[k].0.post.replyTo == Some(target)
  }

  function EitherWithdrawn(users: set<UserId>, history: Chats.History, m: MessageId, target: MessageId): set<nat> {
    set k | 0 <= k < |history|
            && (Withdraws(Chats.At(users, history, k), history[k].0, m)
                || Withdraws(Chats.At(users, history, k), history[k].0, target))
  }

  /** A message replies to another since it was posted as a reply to it, until one of the two is withdrawn. */
  lemma RepliesExactly(users: set<UserId>, history: Chats.History, m: MessageId, target: MessageId, n: nat)
    requires n <= |history|
    ensures RepliesTo(Chats.At(users, history, n).messages, m, target) <==>
            Since(ReplyPosts(users, history, m, target), EitherWithdrawn(users, history, m, target), n)
  {
    hide Chats.Step, Chats.At, Bound;
    Chats.AtStart(users, history);
    var starts, ends := ReplyPosts(users, history, m, target), EitherWithdrawn(users, history, m, target);
    var holds := set k | 0 <= k <= |history| && RepliesTo(Chats.At(users, history, k).messages, m, target);
    forall k: nat | k < n ensures k + 1 in holds <==> k in starts || (k in holds && k !in ends) {
      NextAt(users, history, k);
      ReplyAfter(Chats.At(users, history, k), history[k].0, history[k].1, m, target);
      hide Sends, Withdraws, RepliesTo, Chats.Invariant;
    }
    SinceExactly(holds, starts, ends, n);
  }

  function CarryingPosts(users: set<UserId>, history: Chats.History, m: MessageId, a: AttachmentId): set<nat> {
    set k | 0 <= k < |history|
            && Sends(Chats.At(users, history, k), history[k].0, m) && a in history[k].0.post.attachments
  }

  /** A message carries the attachments it was posted with, and no others, until it is withdrawn. */
  lemma CarriedExactly(users: set<UserId>, history: Chats.History, m: MessageId, a: AttachmentId, n: nat)
    requires n <= |history|
    ensures Carries(Chats.At(users, history, n).messages, m, a) <==>
            Since(CarryingPosts(users, history, m, a), Withdrawals(users, history, m), n)
  {
    hide Chats.Step, Chats.At, Bound;
    Chats.AtStart(users, history);
    var starts, ends := CarryingPosts(users, history, m, a), Withdrawals(users, history, m);
    var holds := set k | 0 <= k <= |history| && Carries(Chats.At(users, history, k).messages, m, a);
    forall k: nat | k < n ensures k + 1 in holds <==> k in starts || (k in holds && k !in ends) {
      NextAt(users, history, k);
      CarriedAfter(Chats.At(users, history, k), history[k].0, history[k].1, m, a);
      hide Sends, Withdraws, Carries, Chats.Invariant;
    }
    SinceExactly(holds, starts, ends, n);
  }

  function Uploads(users: set<UserId>, history: Chats.History, a: AttachmentId, uploader: UserId, key: StorageKey,
                   size: int): set<nat> {
    set k | 0 <= k < |history|
            && Keeps(Chats.At(users, history, k), history[k].0, a) && history[k].0.uploader == uploader
            && history[k].0.key == key
            && history[k].0.size == size
  }

  ghost function Losses(users: set<UserId>, history: Chats.History, a: AttachmentId): set<nat> {
    set k | 0 <= k < |history| && GivesUp(Chats.At(users, history, k), history[k].0, a)
  }

  /**
   An attachment is there since its upload went through, until its uploader discards it or the
   message that carries it is withdrawn.
   */
  lemma AttachmentsExactly(users: set<UserId>, history: Chats.History, a: AttachmentId, uploader: UserId,
                           key: StorageKey, size: int, n: nat)
    requires n <= |history|
    ensures HasAttachment(Chats.At(users, history, n).messages, a, uploader, key, size) <==>
            Since(Uploads(users, history, a, uploader, key, size), Losses(users, history, a), n)
  {
    hide Chats.Step, Chats.At, Bound;
    Chats.AtStart(users, history);
    var starts, ends := Uploads(users, history, a, uploader, key, size), Losses(users, history, a);
    var holds := set k | 0 <= k <= |history| && HasAttachment(Chats.At(users, history, k).messages, a, uploader, key, size);
    forall k: nat | k < n ensures k + 1 in holds <==> k in starts || (k in holds && k !in ends) {
      NextAt(users, history, k);
      AttachmentAfter(Chats.At(users, history, k), history[k].0, history[k].1, a, uploader, key, size);
      hide Keeps, GivesUp, HasAttachment, Chats.Invariant;
    }
    SinceExactly(holds, starts, ends, n);
  }
}
