/**
 Messages and their attachments: posting, editing and deleting in rooms and dialogs, uploads, and
 the stored blobs. Who may act in a chat is decided elsewhere and comes in as a verdict; whatever
 the verdicts are, the results below hold. A failure stands for a raised exception and rolls back.
 */
module Messages {
  import opened Common

  type UserId = nat
  type RoomId = nat

  /** A dialog is known by its two users, the lower one first. */
  type DialogId = (UserId, UserId)

  type MessageId = nat
  type AttachmentId = nat
  type StorageKey = nat

  const MESSAGE_TEXT_LIMIT_BYTES := 3 * 1024
  const MAX_FILE_SIZE_BYTES := 20 * 1024 * 1024
  const MAX_IMAGE_SIZE_BYTES := 3 * 1024 * 1024

  datatype Chat = InRoom(room: RoomId) | InDialog(dialog: DialogId)
  datatype BindingType = Unbound | RoomMessage | DialogMessage
  datatype Attachment = Attachment(uploader: UserId, storageKey: StorageKey, size: int, bindingType: BindingType)
  datatype Message = Message(
    chat: Chat, sender: UserId, text: Option<string>, replyTo: Option<MessageId>, createdAt: nat, isEdited: bool)
  datatype Error = NotFound | Forbidden | Conflict | Invalid | StorageFailed | RowRejected

  /** The two binding tables are unique per attachment; the clock never repeats a creation time. */
  datatype Db = Db(
    now: nat,
    messages: map<MessageId, Message>,
    attachments: map<AttachmentId, Attachment>,
    roomBindings: map<AttachmentId, MessageId>,
    dialogBindings: map<AttachmentId, MessageId>,
    blobs: set<StorageKey>)
  {
    function AttachmentsOf(message: MessageId): set<AttachmentId> {
      BoundTo(roomBindings, dialogBindings, message)
    }
  }

  type Bindings = map<AttachmentId, MessageId>

  function BoundTo(roomBindings: Bindings, dialogBindings: Bindings, message: MessageId): set<AttachmentId> {
    (set a | a in roomBindings && roomBindings[a] == message) +
    (set a | a in dialogBindings && dialogBindings[a] == message)
  }

  // ----- Message text -----

  function Utf8Length(text: string): nat {
    if text == [] then 0
    else
      var code := text[0] as int;
      (if code < 0x80 then 1 else if code < 0x800 then 2 else if code < 0x10000 then 3 else 4) + Utf8Length(text[1..])
  }

  /** How many code points n bytes of UTF-8 reach, RFC 3629 section 3. */
  function Utf8Reach(n: nat): nat {
    match n
    case 1 => 0x80
    case 2 => 0x20 * 0x40
    case 3 => 0x10 * 0x40 * 0x40
    case 4 => 0x8 * 0x40 * 0x40 * 0x40
    case _ => 0
  }

  /** A character takes the fewest bytes that reach it, and a text takes what its parts take. */
  lemma {:induction false} Utf8LengthExactly(c: char, a: string, b: string)
    ensures 1 <= Utf8Length([c]) <= 4 && Utf8Reach(Utf8Length([c]) - 1) <= c as int < Utf8Reach(Utf8Length([c]))
    ensures Utf8Length(a + b) == Utf8Length(a) + Utf8Length(b) && Utf8Length([]) == 0
    decreases |a|
  {
    if a == [] {
      assert a + b == b;
    } else {
      Utf8LengthExactly(c, a[1..], b);
      assert (a + b)[1..] == a[1..] + b;
    }
  }

  function ContentRefusal(text: Option<string>, hasAttachments: bool): Option<Error> {
    if text.Some? && Utf8Length(text.value) > MESSAGE_TEXT_LIMIT_BYTES then Some(Invalid)
    else if text.None? && !hasAttachments then Some(Invalid)
    else if text.Some? && IsBlank(text.value) && !hasAttachments then Some(Invalid)
    else None
  }

  // ----- Uploads -----

  datatype UploadOutcome = Stored | PutFails | RowFails

  /** The blob is written before the row; when the row fails the blob is deleted again. */
  function Upload(db: Db, uploader: UserId, size: int, isImage: bool, key: StorageKey, id: AttachmentId,
                  outcome: UploadOutcome): Result<Db, Error> {
    if size <= 0 then Failure(Invalid)
    else if size > (if isImage then MAX_IMAGE_SIZE_BYTES else MAX_FILE_SIZE_BYTES) then Failure(Invalid)
    else if id in db.attachments || key in db.blobs then Failure(Conflict)
    else if outcome == PutFails then Failure(StorageFailed)
    else if outcome == RowFails then Failure(RowRejected)
    else Success(db.(blobs := db.blobs + {key},
                     attachments := db.attachments[id := Attachment(uploader, key, size, Unbound)]))
  }

  /** Deleting rows deletes their binding rows and, through the delete signal, their blobs. */
  function DropAttachments(db: Db, gone: set<AttachmentId>): Db {
    db.(attachments := db.attachments - gone,
        roomBindings := db.roomBindings - gone,
        dialogBindings := db.dialogBindings - gone,
        blobs := db.blobs - set a | a in gone && a in db.attachments :: db.attachments[a].storageKey)
  }

  function DeleteUnbound(db: Db, id: AttachmentId, actor: UserId): Result<Db, Error> {
    if id !in db.attachments || db.attachments[id].uploader != actor then Failure(NotFound)
    else if db.attachments[id].bindingType != Unbound then Failure(Conflict)
    else Success(DropAttachments(db, {id}))
  }

  // ----- Posting -----

  predicate HasDuplicates(ids: seq<AttachmentId>) {
    exists i, j :: 0 <= i < j < |ids| && ids[i] == ids[j]
  }

  function LockRefusal(db: Db, user: UserId, ids: seq<AttachmentId>): Option<Error> {
    if HasDuplicates(ids) then Some(Invalid)
    else if exists a :: a in ids && a !in db.attachments then Some(Invalid)
    else if exists a :: a in ids && (db.attachments[a].uploader != user || db.attachments[a].bindingType != Unbound) then Some(Invalid)
    else None
  }

  function ReplyRefusal(db: Db, chat: Chat, replyTo: Option<MessageId>): Option<Error> {
    if replyTo.None? then None
    else if replyTo.value !in db.messages || db.messages[replyTo.value].chat != chat then Some(Invalid)
    else None
  }

  /** One binding row per attachment, in the table of the message's kind of chat. */
  function Bind(db: Db, chat: Chat, message: MessageId, ids: seq<AttachmentId>): Db {
    var kind := if chat.InRoom? then RoomMessage else DialogMessage;
    var rows := map a | a in ids :: message;
    db.(roomBindings := if chat.InRoom? then db.roomBindings + rows else db.roomBindings,
        dialogBindings := if chat.InDialog? then db.dialogBindings + rows else db.dialogBindings,
        attachments := map a | a in db.attachments ::
          if a in ids then db.attachments[a].(bindingType := kind) else db.attachments[a])
  }

  datatype Post = Post(chat: Chat, sender: UserId, text: Option<string>, replyTo: Option<MessageId>, attachments: seq<AttachmentId>)

  function CreateMessage(db: Db, verdict: Option<Error>, post: Post, id: MessageId): Result<Db, Error> {
    if verdict.Some? then Failure(verdict.value)
    else if ContentRefusal(post.text, post.attachments != []).Some? then Failure(Invalid)
    else if ReplyRefusal(db, post.chat, post.replyTo).Some? then Failure(Invalid)
    else if LockRefusal(db, post.sender, post.attachments).Some? then Failure(Invalid)
    else if id in db.messages then Failure(Conflict)
    else
      var created := db.(messages := db.messages[id := Message(post.chat, post.sender, post.text, post.replyTo, db.now, false)]);
      Success(Bind(created, post.chat, id, post.attachments))
  }

  function UpdateMessage(db: Db, verdict: Option<Error>, chat: Chat, id: MessageId, actor: UserId, text: Option<string>): Result<Db, Error> {
    if verdict.Some? then Failure(verdict.value)
    else if id !in db.messages || db.messages[id].chat != chat then Failure(NotFound)
    else if db.messages[id].sender != actor then Failure(Forbidden)
    else if ContentRefusal(text, db.AttachmentsOf(id) != {}).Some? then Failure(Invalid)
    else Success(db.(messages := db.messages[id := db.messages[id].(text := text, isEdited := true)]))
  }

  // ----- Deleting -----

  /** Deleting message rows nulls the replies that pointed at them. */
  function DropMessages(db: Db, gone: set<MessageId>): Db {
    db.(messages := map m | m in db.messages && m !in gone ::
          if db.messages[m].replyTo.Some? && db.messages[m].replyTo.value in gone
          then db.messages[m].(replyTo := None) else db.messages[m])
  }

  /** In a room its author or a moderator may delete a message; in a dialog only its author. */
  function DeleteMessage(db: Db, verdict: Option<Error>, chat: Chat, id: MessageId, actor: UserId, moderates: bool): Result<Db, Error> {
    if verdict.Some? then Failure(verdict.value)
    else if id !in db.messages || db.messages[id].chat != chat then Failure(NotFound)
    else if db.messages[id].sender != actor && !(chat.InRoom? && moderates) then Failure(Forbidden)
    else Success(DropMessages(DropAttachments(db, db.AttachmentsOf(id)), {id}))
  }

  function MessagesIn(db: Db, chat: Chat): set<MessageId> {
    set m | m in db.messages && db.messages[m].chat == chat
  }

  /** The room's attachments go first, then the room with all its messages. */
  function DeleteRoom(db: Db, verdict: Option<Error>, room: RoomId): Result<Db, Error> {
    if verdict.Some? then Failure(verdict.value)
    else
      var gone := MessagesIn(db, InRoom(room));
      var bound := set a | a in db.roomBindings && db.roomBindings[a] in gone;
      Success(DropMessages(DropAttachments(db, bound), gone))
  }

  // ----- Runs -----

  datatype Request =
    | Uploaded(uploader: UserId, size: int, isImage: bool, key: StorageKey, attachment: AttachmentId, outcome: UploadOutcome)
    | Discarded(attachment: AttachmentId, actor: UserId)
    | Posted(verdict: Option<Error>, post: Post, id: MessageId)
    | Edited(verdict: Option<Error>, chat: Chat, id: MessageId, actor: UserId, text: Option<string>)
    | Removed(verdict: Option<Error>, chat: Chat, id: MessageId, actor: UserId, moderates: bool)
    | RoomDeleted(verdict: Option<Error>, room: RoomId)

  function Attempt(db: Db, request: Request): Result<Db, Error> {
    match request
    case Uploaded(uploader, size, isImage, key, attachment, outcome) => Upload(db, uploader, size, isImage, key, attachment, outcome)
    case Discarded(attachment, actor) => DeleteUnbound(db, attachment, actor)
    case Posted(verdict, post, id) => CreateMessage(db, verdict, post, id)
    case Edited(verdict, chat, id, actor, text) => UpdateMessage(db, verdict, chat, id, actor, text)
    case Removed(verdict, chat, id, actor, moderates) => DeleteMessage(db, verdict, chat, id, actor, moderates)
    case RoomDeleted(verdict, room) => DeleteRoom(db, verdict, room)
  }

  /** The clock moves on by at least one between two transactions. */
  function Step(db: Db, request: Request, pause: nat): Db {
    var after := match Attempt(db, request) case Success(db') => db' case Failure(_) => db;
    after.(now := db.now + 1 + pause)
  }

  function Run(db: Db, requests: seq<(Request, nat)>): Db
    decreases |requests|
  {
    if requests == [] then db else Run(Step(db, requests[0].0, requests[0].1), requests[1..])
  }

  const EMPTY := Db(0, map[], map[], map[], map[], {})

  // ----- The joint invariant -----

  type Rows = map<AttachmentId, Attachment>
  type MessageRows = map<MessageId, Message>

  /** The binding column and the two binding tables tell one story. */
  ghost predicate BindingSound(attachments: Rows, inRooms: Bindings, inDialogs: Bindings, messages: MessageRows, a: AttachmentId)
    requires a in attachments
  {
    match attachments[a].bindingType
    case Unbound => a !in inRooms && a !in inDialogs
    case RoomMessage =>
      && a in inRooms && a !in inDialogs && inRooms[a] in messages
      && messages[inRooms[a]].chat.InRoom? && messages[inRooms[a]].sender == attachments[a].uploader
    case DialogMessage =>
      && a in inDialogs && a !in inRooms && inDialogs[a] in messages
      && messages[inDialogs[a]].chat.InDialog? && messages[inDialogs[a]].sender == attachments[a].uploader
  }

  ghost predicate BindingsSound(attachments: Rows, inRooms: Bindings, inDialogs: Bindings, messages: MessageRows) {
    && inRooms.Keys <= attachments.Keys && inDialogs.Keys <= attachments.Keys
    && forall a :: a in attachments ==> BindingSound(attachments, inRooms, inDialogs, messages, a)
  }

  ghost predicate BlobsMatchRows(attachments: Rows, blobs: set<StorageKey>) {
    && (forall key :: key in blobs <==> exists a :: a in attachments && attachments[a].storageKey == key)
    && (forall a, b :: a in attachments && b in attachments && a != b ==> attachments[a].storageKey != attachments[b].storageKey)
  }

  ghost predicate ContentSound(messages: MessageRows, inRooms: Bindings, inDialogs: Bindings) {
    forall m :: m in messages ==> ContentRefusal(messages[m].text, BoundTo(inRooms, inDialogs, m) != {}) == None
  }

  ghost predicate ReplySound(messages: MessageRows, now: nat, m: MessageId)
    requires m in messages
  {
    && messages[m].createdAt < now
    && (messages[m].replyTo.Some? ==>
          var target := messages[m].replyTo.value;
          && target in messages && messages[target].chat == messages[m].chat
          && messages[target].createdAt < messages[m].createdAt)
  }

  ghost predicate RepliesSound(messages: MessageRows, now: nat) {
    forall m :: m in messages ==> ReplySound(messages, now, m)
  }

  ghost predicate Invariant(db: Db) {
    && BindingsSound(db.attachments, db.roomBindings, db.dialogBindings, db.messages)
    && BlobsMatchRows(db.attachments, db.blobs)
    && ContentSound(db.messages, db.roomBindings, db.dialogBindings)
    && RepliesSound(db.messages, db.now)
  }

  ghost predicate Bound(db: Db) {
    BindingsSound(db.attachments, db.roomBindings, db.dialogBindings, db.messages)
  }

  // ----- Each transaction keeps the invariant -----

  lemma UploadKeeps(db: Db, uploader: UserId, size: int, isImage: bool, key: StorageKey, id: AttachmentId, outcome: UploadOutcome)
    requires Invariant(db) && Upload(db, uploader, size, isImage, key, id, outcome).Success?
    ensures Invariant(Upload(db, uploader, size, isImage, key, id, outcome).value)
  {
    var db' := Upload(db, uploader, size, isImage, key, id, outcome).value;
    assert BlobsMatchRows(db'.attachments, db'.blobs) by {
      forall k | k in db.blobs ensures exists a :: a in db'.attachments && db'.attachments[a].storageKey == k {
        var a :| a in db.attachments && db.attachments[a].storageKey == k;
        assert a in db'.attachments && db'.attachments[a].storageKey == k;
      }
      assert db'.attachments[id].storageKey == key;
    }
  }

  /** Exactly the attachments bound to the messages that go are among those that go. */
  ghost predicate Matched(bindings: Bindings, goneAttachments: set<AttachmentId>, goneMessages: set<MessageId>) {
    forall a :: a in bindings ==> (a in goneAttachments <==> bindings[a] in goneMessages)
  }

  lemma DropKeeps(db: Db, goneAttachments: set<AttachmentId>, goneMessages: set<MessageId>)
    requires Invariant(db)
    requires Matched(db.roomBindings, goneAttachments, goneMessages) && Matched(db.dialogBindings, goneAttachments, goneMessages)
    ensures Invariant(DropMessages(DropAttachments(db, goneAttachments), goneMessages))
  {
    DropKeepsBindings(db, goneAttachments, goneMessages);
    DropKeepsBlobs(db, goneAttachments);
    DropKeepsContent(db, goneAttachments, goneMessages);
    DropKeepsReplies(db, goneMessages);
  }

  lemma DropKeepsReplies(db: Db, goneMessages: set<MessageId>)
    requires RepliesSound(db.messages, db.now)
    ensures RepliesSound(DropMessages(db, goneMessages).messages, db.now)
  {
    var db' := DropMessages(db, goneMessages);
    forall m | m in db'.messages ensures ReplySound(db'.messages, db.now, m) {
      assert ReplySound(db.messages, db.now, m);
    }
  }

  lemma DropKeepsBindings(db: Db, goneAttachments: set<AttachmentId>, goneMessages: set<MessageId>)
    requires Bound(db)
    requires Matched(db.roomBindings, goneAttachments, goneMessages) && Matched(db.dialogBindings, goneAttachments, goneMessages)
    ensures Bound(DropMessages(DropAttachments(db, goneAttachments), goneMessages))
  {
    var db' := DropMessages(DropAttachments(db, goneAttachments), goneMessages);
    forall a | a in db'.attachments
      ensures BindingSound(db'.attachments, db'.roomBindings, db'.dialogBindings, db'.messages, a)
    {
      assert BindingSound(db.attachments, db.roomBindings, db.dialogBindings, db.messages, a);
    }
  }

  lemma DropKeepsContent(db: Db, goneAttachments: set<AttachmentId>, goneMessages: set<MessageId>)
    requires ContentSound(db.messages, db.roomBindings, db.dialogBindings)
    requires Matched(db.roomBindings, goneAttachments, goneMessages) && Matched(db.dialogBindings, goneAttachments, goneMessages)
    ensures ContentSound(DropMessages(db, goneMessages).messages, db.roomBindings - goneAttachments, db.dialogBindings - goneAttachments)
  {
    var messages := DropMessages(db, goneMessages).messages;
    hide ContentRefusal;
    forall m | m in messages
      ensures BoundTo(db.roomBindings - goneAttachments, db.dialogBindings - goneAttachments, m) == db.AttachmentsOf(m)
      ensures messages[m].text == db.messages[m].text
    {
    }
  }

  lemma DropKeepsBlobs(db: Db, gone: set<AttachmentId>)
    requires BlobsMatchRows(db.attachments, db.blobs)
    ensures BlobsMatchRows(DropAttachments(db, gone).attachments, DropAttachments(db, gone).blobs)
  {
    var db' := DropAttachments(db, gone);
    forall key | key in db'.blobs ensures exists a :: a in db'.attachments && db'.attachments[a].storageKey == key {
      var a :| a in db.attachments && db.attachments[a].storageKey == key;
      assert a in db'.attachments;
    }
    forall a | a in db'.attachments ensures db'.attachments[a].storageKey in db'.blobs {
      assert db.attachments[a].storageKey in db.blobs;
    }
  }

  /** An attachment that was asked for was unbound, and ends up bound to the new message. */
  lemma AskedIsBound(db: Db, post: Post, id: MessageId, a: AttachmentId)
    requires Bound(db) && LockRefusal(db, post.sender, post.attachments) == None
    requires a in db.attachments && a in post.attachments
    ensures var messages := db.messages[id := Message(post.chat, post.sender, post.text, post.replyTo, db.now, false)];
            var bound := Bind(db, post.chat, id, post.attachments);
            BindingSound(bound.attachments, bound.roomBindings, bound.dialogBindings, messages, a)
  {
    assert BindingSound(db.attachments, db.roomBindings, db.dialogBindings, db.messages, a);
  }

  /** The other attachments keep their bindings, which are to older messages. */
  lemma OthersStayBound(db: Db, post: Post, id: MessageId, a: AttachmentId)
    requires Bound(db) && id !in db.messages && a in db.attachments && a !in post.attachments
    ensures var messages := db.messages[id := Message(post.chat, post.sender, post.text, post.replyTo, db.now, false)];
            var bound := Bind(db, post.chat, id, post.attachments);
            BindingSound(bound.attachments, bound.roomBindings, bound.dialogBindings, messages, a)
  {
    assert BindingSound(db.attachments, db.roomBindings, db.dialogBindings, db.messages, a);
  }

  lemma CreateKeepsBindings(db: Db, verdict: Option<Error>, post: Post, id: MessageId)
    requires Bound(db) && CreateMessage(db, verdict, post, id).Success?
    ensures Bound(CreateMessage(db, verdict, post, id).value)
  {
    hide ContentRefusal, ReplyRefusal, BindingSound;
    var db' := CreateMessage(db, verdict, post, id).value;
    forall a | a in db'.attachments
      ensures BindingSound(db'.attachments, db'.roomBindings, db'.dialogBindings, db'.messages, a)
    {
      hide LockRefusal, Bound, BindingsSound;
      if a in post.attachments {
        AskedIsBound(db, post, id, a);
      } else {
        OthersStayBound(db, post, id, a);
      }
    }
    AskedExist(db, post.sender, post.attachments);
    hide LockRefusal, HasDuplicates;
  }

  lemma AskedExist(db: Db, user: UserId, ids: seq<AttachmentId>)
    requires LockRefusal(db, user, ids) == None
    ensures forall a :: a in ids ==> a in db.attachments
  {
  }

  lemma NewMessageGetsAsked(db: Db, post: Post, id: MessageId)
    requires BindingsSound(db.attachments, db.roomBindings, db.dialogBindings, db.messages)
    requires id !in db.messages && LockRefusal(db, post.sender, post.attachments) == None
    ensures Bind(db, post.chat, id, post.attachments).AttachmentsOf(id) == set a | a in post.attachments
  {
    hide LockRefusal;
    forall a ensures a !in db.AttachmentsOf(id) {
      assert a in db.attachments ==> BindingSound(db.attachments, db.roomBindings, db.dialogBindings, db.messages, a);
    }
  }

  lemma OlderMessagesKeepTheirs(db: Db, post: Post, id: MessageId, m: MessageId)
    requires BindingsSound(db.attachments, db.roomBindings, db.dialogBindings, db.messages)
    requires m != id && LockRefusal(db, post.sender, post.attachments) == None
    ensures Bind(db, post.chat, id, post.attachments).AttachmentsOf(m) == db.AttachmentsOf(m)
  {
    forall a | a in post.attachments ensures a !in db.AttachmentsOf(m) {
      assert BindingSound(db.attachments, db.roomBindings, db.dialogBindings, db.messages, a);
    }
    hide LockRefusal, BindingSound;
  }

  /** The new message has exactly the attachments it was posted with; no other message's change. */
  lemma CreateBindsWhatWasAsked(db: Db, verdict: Option<Error>, post: Post, id: MessageId)
    requires Bound(db) && CreateMessage(db, verdict, post, id).Success?
    ensures var db' := CreateMessage(db, verdict, post, id).value;
            && db'.AttachmentsOf(id) == (set a | a in post.attachments)
            && (forall m :: m in db.messages ==> db'.AttachmentsOf(m) == db.AttachmentsOf(m))
  {
    hide ContentRefusal, ReplyRefusal, LockRefusal, BoundTo, BindingsSound;
    NewMessageGetsAsked(db, post, id);
    forall m | m in db.messages ensures Bind(db, post.chat, id, post.attachments).AttachmentsOf(m) == db.AttachmentsOf(m) {
      OlderMessagesKeepTheirs(db, post, id, m);
    }
  }

  lemma CreateKeepsReplies(db: Db, verdict: Option<Error>, post: Post, id: MessageId, now: nat)
    requires RepliesSound(db.messages, db.now) && CreateMessage(db, verdict, post, id).Success? && db.now < now
    ensures RepliesSound(CreateMessage(db, verdict, post, id).value.messages, now)
  {
    hide ContentRefusal, LockRefusal;
    var messages := CreateMessage(db, verdict, post, id).value.messages;
    forall m | m in messages ensures ReplySound(messages, now, m) {
      assert m != id ==> ReplySound(db.messages, db.now, m);
      assert post.replyTo.Some? ==> ReplySound(db.messages, db.now, post.replyTo.value);
    }
  }

  /** Rows that only change their binding column keep their blobs. */
  lemma SameKeysKeepBlobs(before: Rows, after: Rows, blobs: set<StorageKey>)
    requires BlobsMatchRows(before, blobs) && after.Keys == before.Keys
    requires forall a :: a in before ==> after[a].storageKey == before[a].storageKey
    ensures BlobsMatchRows(after, blobs)
  {
    forall key | key in blobs ensures exists a :: a in after && after[a].storageKey == key {
      var a :| a in before && before[a].storageKey == key;
      assert a in after && after[a].storageKey == key;
    }
    forall a | a in after ensures after[a].storageKey in blobs {
      assert before[a].storageKey in blobs;
    }
  }

  lemma CreateKeepsContent(db: Db, verdict: Option<Error>, post: Post, id: MessageId)
    requires ContentSound(db.messages, db.roomBindings, db.dialogBindings)
    requires Bound(db) && CreateMessage(db, verdict, post, id).Success?
    ensures var db' := CreateMessage(db, verdict, post, id).value;
            ContentSound(db'.messages, db'.roomBindings, db'.dialogBindings)
  {
    var db' := CreateMessage(db, verdict, post, id).value;
    CreateBindsWhatWasAsked(db, verdict, post, id);
    assert db'.AttachmentsOf(id) != {} <==> post.attachments != [] by {
      if post.attachments != [] {
        assert post.attachments[0] in db'.AttachmentsOf(id);
      }
    }
    hide BoundTo, ContentRefusal, BindingsSound, LockRefusal, ReplyRefusal;
    forall m | m in db'.messages
      ensures ContentRefusal(db'.messages[m].text, BoundTo(db'.roomBindings, db'.dialogBindings, m) != {}) == None
    {
      assert m != id ==> db'.messages[m] == db.messages[m] && db'.AttachmentsOf(m) == db.AttachmentsOf(m);
      assert ContentRefusal(post.text, post.attachments != []) == None;
    }
  }

  lemma CreateKeeps(db: Db, verdict: Option<Error>, post: Post, id: MessageId, now: nat)
    requires Invariant(db) && CreateMessage(db, verdict, post, id).Success? && db.now < now
    ensures Invariant(CreateMessage(db, verdict, post, id).value.(now := now))
  {
    hide BindingsSound, BlobsMatchRows, ContentSound, RepliesSound, ContentRefusal, LockRefusal, ReplyRefusal;
    CreateKeepsBindings(db, verdict, post, id);
    SameKeysKeepBlobs(db.attachments, CreateMessage(db, verdict, post, id).value.attachments, db.blobs);
    CreateKeepsReplies(db, verdict, post, id, now);
    CreateKeepsContent(db, verdict, post, id);
  }

  lemma RewordingKeepsBindings(attachments: Rows, inRooms: Bindings, inDialogs: Bindings, messages: MessageRows, id: MessageId, reworded: Message)
    requires BindingsSound(attachments, inRooms, inDialogs, messages) && id in messages
    requires reworded.chat == messages[id].chat && reworded.sender == messages[id].sender
    ensures BindingsSound(attachments, inRooms, inDialogs, messages[id := reworded])
  {
    forall a | a in attachments ensures BindingSound(attachments, inRooms, inDialogs, messages[id := reworded], a) {
      assert BindingSound(attachments, inRooms, inDialogs, messages, a);
    }
  }

  lemma RewordingKeepsReplies(messages: MessageRows, now: nat, id: MessageId, reworded: Message)
    requires RepliesSound(messages, now) && id in messages
    requires reworded == messages[id].(text := reworded.text, isEdited := reworded.isEdited)
    ensures RepliesSound(messages[id := reworded], now)
  {
    forall m | m in messages ensures ReplySound(messages[id := reworded], now, m) {
      assert ReplySound(messages, now, m);
    }
  }

  lemma EditKeeps(db: Db, verdict: Option<Error>, chat: Chat, id: MessageId, actor: UserId, text: Option<string>)
    requires Invariant(db) && UpdateMessage(db, verdict, chat, id, actor, text).Success?
    ensures Invariant(UpdateMessage(db, verdict, chat, id, actor, text).value)
  {
    hide BoundTo, ContentRefusal, BindingsSound, BlobsMatchRows, RepliesSound;
    var reworded := db.messages[id].(text := text, isEdited := true);
    RewordingKeepsBindings(db.attachments, db.roomBindings, db.dialogBindings, db.messages, id, reworded);
    RewordingKeepsReplies(db.messages, db.now, id, reworded);
  }

  lemma RemovalKeeps(db: Db, id: MessageId)
    requires Invariant(db)
    ensures Invariant(DropMessages(DropAttachments(db, db.AttachmentsOf(id)), {id}))
  {
    BoundOnce(db);
    hide BindingsSound, BlobsMatchRows, ContentSound, RepliesSound;
    DropKeeps(db, db.AttachmentsOf(id), {id});
  }

  lemma RoomRemovalKeeps(db: Db, room: RoomId)
    requires Invariant(db)
    ensures Invariant(DropMessages(
              DropAttachments(db, set a | a in db.roomBindings && db.roomBindings[a] in MessagesIn(db, InRoom(room))),
              MessagesIn(db, InRoom(room))))
  {
    BoundOnce(db);
    hide BindingsSound, BlobsMatchRows, ContentSound, RepliesSound;
    var gone := MessagesIn(db, InRoom(room));
    DropKeeps(db, (set a | a in db.roomBindings && db.roomBindings[a] in gone), gone);
  }

  lemma DiscardKeeps(db: Db, a: AttachmentId)
    requires Invariant(db) && a in db.attachments && db.attachments[a].bindingType == Unbound
    ensures Invariant(DropAttachments(db, {a}))
  {
    BoundOnce(db);
    hide BindingsSound, BlobsMatchRows, ContentSound, RepliesSound;
    DropKeeps(db, {a}, {});
    DropNoMessages(DropAttachments(db, {a}));
  }

  lemma AttemptKeeps(db: Db, request: Request)
    requires Invariant(db) && !request.Posted? && Attempt(db, request).Success?
    ensures Invariant(Attempt(db, request).value) && Attempt(db, request).value.now == db.now
  {
    hide Invariant;
    match request
    case Uploaded(uploader, size, isImage, key, id, outcome) => UploadKeeps(db, uploader, size, isImage, key, id, outcome);
    case Discarded(a, _) => DiscardKeeps(db, a);
    case Edited(verdict, chat, id, actor, text) => EditKeeps(db, verdict, chat, id, actor, text);
    case Removed(_, _, id, _, _) => RemovalKeeps(db, id);
    case RoomDeleted(_, room) => RoomRemovalKeeps(db, room);
  }

  lemma DropNoMessages(db: Db)
    ensures DropMessages(db, {}) == db
  {
  }

  /** Each attachment has a row in at most one table, of the message's kind; an unbound one in none. */
  lemma BoundOnce(db: Db)
    requires Bound(db)
    ensures forall a :: a in db.roomBindings ==>
      a !in db.dialogBindings && a in db.attachments && db.attachments[a].bindingType == RoomMessage
      && db.roomBindings[a] in db.messages && db.messages[db.roomBindings[a]].chat.InRoom?
    ensures forall a :: a in db.dialogBindings ==>
      a !in db.roomBindings && a in db.attachments && db.attachments[a].bindingType == DialogMessage
      && db.dialogBindings[a] in db.messages && db.messages[db.dialogBindings[a]].chat.InDialog?
  {
    forall a | a in db.attachments
      ensures BindingSound(db.attachments, db.roomBindings, db.dialogBindings, db.messages, a)
    {
    }
  }

  lemma LaterKeeps(db: Db, now: nat)
    requires Invariant(db) && db.now <= now
    ensures Invariant(db.(now := now))
  {
    forall m | m in db.messages ensures ReplySound(db.messages, now, m) {
      assert ReplySound(db.messages, db.now, m);
    }
  }

  lemma StepKeepsInvariant(db: Db, request: Request, pause: nat)
    requires Invariant(db)
    ensures Invariant(Step(db, request, pause))
  {
    hide Invariant;
    var now := db.now + 1 + pause;
    match Attempt(db, request)
    case Failure(_) => LaterKeeps(db, now);
    case Success(db') =>
      if request.Posted? {
        CreateKeeps(db, request.verdict, request.post, request.id, now);
      } else {
        AttemptKeeps(db, request);
        LaterKeeps(db', now);
      }
  }

  lemma {:induction false} RunKeepsInvariant(db: Db, requests: seq<(Request, nat)>)
    requires Invariant(db)
    ensures Invariant(Run(db, requests))
    decreases |requests|
  {
    hide Invariant, Step;
    if requests != [] {
      StepKeepsInvariant(db, requests[0].0, requests[0].1);
      RunKeepsInvariant(Step(db, requests[0].0, requests[0].1), requests[1..]);
    }
  }

  // ----- What follows in every reachable state -----

  /**
   An attachment is unbound exactly when no binding row names it; otherwise exactly one row does, in
   the table its binding type names, for a message its uploader sent.
   */
  lemma BindingTypeIsExact(requests: seq<(Request, nat)>, a: AttachmentId)
    requires a in Run(EMPTY, requests).attachments
    ensures var db := Run(EMPTY, requests);
            && (db.attachments[a].bindingType == Unbound <==> a !in db.roomBindings && a !in db.dialogBindings)
            && (db.attachments[a].bindingType == RoomMessage <==> a in db.roomBindings)
            && (db.attachments[a].bindingType == DialogMessage <==> a in db.dialogBindings)
            && !(a in db.roomBindings && a in db.dialogBindings)
            && (a in db.roomBindings ==>
                  && db.roomBindings[a] in db.messages
                  && db.messages[db.roomBindings[a]].chat.InRoom? && db.messages[db.roomBindings[a]].sender == db.attachments[a].uploader)
            && (a in db.dialogBindings ==>
                  && db.dialogBindings[a] in db.messages
                  && db.messages[db.dialogBindings[a]].chat.InDialog? && db.messages[db.dialogBindings[a]].sender == db.attachments[a].uploader)
  {
    RunKeepsInvariant(EMPTY, requests);
    var db := Run(EMPTY, requests);
    assert BindingSound(db.attachments, db.roomBindings, db.dialogBindings, db.messages, a);
  }

  /** The stored blobs are exactly those of the attachment rows. */
  lemma BlobsAreExact(requests: seq<(Request, nat)>)
    ensures var db := Run(EMPTY, requests);
            db.blobs == set a | a in db.attachments :: db.attachments[a].storageKey
  {
    RunKeepsInvariant(EMPTY, requests);
    var db := Run(EMPTY, requests);
    assert BlobsMatchRows(db.attachments, db.blobs);
  }

  /** Every stored message shows something: text that is not blank and within the limit, or an attachment. */
  lemma MessagesAreNeverEmpty(requests: seq<(Request, nat)>, m: MessageId)
    requires m in Run(EMPTY, requests).messages
    ensures var db := Run(EMPTY, requests);
            var text := db.messages[m].text;
            && (db.AttachmentsOf(m) != {} || (text.Some? && exists c :: c in text.value && !IsSpace(c)))
            && (text.Some? ==> Utf8Length(text.value) <= 3072)
  {
    RunKeepsInvariant(EMPTY, requests);
    var db := Run(EMPTY, requests);
    assert ContentRefusal(db.messages[m].text, db.AttachmentsOf(m) != {}) == None;
  }

  /** The messages reached by following replies from m. */
  function ReplyChain(db: Db, m: MessageId): seq<MessageId>
    requires RepliesSound(db.messages, db.now) && m in db.messages
    decreases db.messages[m].createdAt
  {
    assert ReplySound(db.messages, db.now, m);
    [m] + match db.messages[m].replyTo
          case None => []
          case Some(target) => ReplyChain(db, target)
  }

  /** A reply chain ends, stays in one chat, and goes strictly back in time. */
  lemma {:induction false} ReplyChainsStayInChat(db: Db, m: MessageId)
    requires RepliesSound(db.messages, db.now) && m in db.messages
    ensures var chain := ReplyChain(db, m);
            && chain[0] == m
            && (forall i :: 0 <= i < |chain| ==> chain[i] in db.messages && db.messages[chain[i]].chat == db.messages[m].chat)
            && (forall i, j :: 0 <= i < j < |chain| ==> db.messages[chain[j]].createdAt < db.messages[chain[i]].createdAt)
            && db.messages[chain[|chain| - 1]].replyTo == None
    decreases db.messages[m].createdAt
  {
    assert ReplySound(db.messages, db.now, m);
    if db.messages[m].replyTo.Some? {
      ReplyChainsStayInChat(db, db.messages[m].replyTo.value);
    }
  }

  /** The same over every run, from every stored message. */
  lemma RepliesNeverEscape(requests: seq<(Request, nat)>, m: MessageId)
    requires m in Run(EMPTY, requests).messages
    ensures RepliesSound(Run(EMPTY, requests).messages, Run(EMPTY, requests).now)
    ensures forall other :: other in ReplyChain(Run(EMPTY, requests), m) ==>
              other in Run(EMPTY, requests).messages
              && Run(EMPTY, requests).messages[other].chat == Run(EMPTY, requests).messages[m].chat
  {
    RunKeepsInvariant(EMPTY, requests);
    ReplyChainsStayInChat(Run(EMPTY, requests), m);
  }

  // ----- Who may read an attachment -----

  datatype Audience = Audience(
    members: set<(RoomId, UserId)>, banned: set<(RoomId, UserId)>, participants: map<DialogId, (UserId, UserId)>)

  /** The access check, with its guards against missing binding rows. */
  function AttachmentRefusal(db: Db, audience: Audience, a: AttachmentId, user: UserId): Option<Error> {
    if a !in db.attachments then Some(NotFound)
    else match db.attachments[a].bindingType
      case Unbound => if db.attachments[a].uploader != user then Some(NotFound) else None
      case RoomMessage =>
        if a !in db.roomBindings || db.roomBindings[a] !in db.messages then Some(NotFound)
        else (
          match db.messages[db.roomBindings[a]].chat
          case InRoom(room) => if (room, user) !in audience.members || (room, user) in audience.banned then Some(NotFound) else None
          case InDialog(_) => Some(NotFound))
      case DialogMessage =>
        if a !in db.dialogBindings || db.dialogBindings[a] !in db.messages then Some(NotFound)
        else (
          match db.messages[db.dialogBindings[a]].chat
          case InRoom(_) => Some(NotFound)
          case InDialog(d) =>
            if d in audience.participants && (audience.participants[d].0 == user || audience.participants[d].1 == user)
            then None else Some(NotFound))
  }

  /** The message an attachment belongs to. */
  ghost predicate Carries(db: Db, m: MessageId, a: AttachmentId) {
    m in db.messages && a in db.AttachmentsOf(m)
  }

  predicate MayHear(audience: Audience, chat: Chat, user: UserId) {
    match chat
    case InRoom(room) => (room, user) in audience.members && (room, user) !in audience.banned
    case InDialog(d) => d in audience.participants && (audience.participants[d].0 == user || audience.participants[d].1 == user)
  }

  lemma AccessFollowsBinding(db: Db, audience: Audience, a: AttachmentId, user: UserId)
    requires Bound(db) && a in db.attachments
    ensures forall m :: Carries(db, m, a) ==>
              (AttachmentRefusal(db, audience, a, user) == None <==> MayHear(audience, db.messages[m].chat, user))
    ensures (forall m :: !Carries(db, m, a)) ==>
              (AttachmentRefusal(db, audience, a, user) == None <==> user == db.attachments[a].uploader)
  {
    assert BindingSound(db.attachments, db.roomBindings, db.dialogBindings, db.messages, a);
    assert a in db.roomBindings && db.roomBindings[a] in db.messages ==> Carries(db, db.roomBindings[a], a);
    assert a in db.dialogBindings && db.dialogBindings[a] in db.messages ==> Carries(db, db.dialogBindings[a], a);
  }

  /** An attachment is open to whoever may hear the chat of the message carrying it, else to its uploader alone. */
  lemma AttachmentFollowsItsMessage(requests: seq<(Request, nat)>, audience: Audience, a: AttachmentId, user: UserId)
    requires a in Run(EMPTY, requests).attachments
    ensures var db := Run(EMPTY, requests);
            && (forall m :: Carries(db, m, a) ==>
                  (AttachmentRefusal(db, audience, a, user) == None <==> MayHear(audience, db.messages[m].chat, user)))
            && ((forall m :: !Carries(db, m, a)) ==>
                  (AttachmentRefusal(db, audience, a, user) == None <==> user == db.attachments[a].uploader))
  {
    RunKeepsInvariant(EMPTY, requests);
    AccessFollowsBinding(Run(EMPTY, requests), audience, a, user);
  }

  // ----- Who may change a message: one step -----

  /** A message goes by its author, a room moderator, or with its room. */
  lemma MessagesGoByRightfulActs(db: Db, request: Request, pause: nat, m: MessageId)
    requires m in db.messages && m !in Step(db, request, pause).messages
    ensures match request
            case Removed(verdict, chat, id, actor, moderates) =>
              && verdict == None && id == m && chat == db.messages[m].chat
              && (actor == db.messages[m].sender || (chat.InRoom? && moderates))
            case RoomDeleted(verdict, room) => verdict == None && db.messages[m].chat == InRoom(room)
            case _ => false
  {
  }

  /** Only its author rewords a message; its chat, sender and time never change, and a reply is at most nulled. */
  lemma MessagesChangeByTheirAuthor(db: Db, request: Request, pause: nat, m: MessageId)
    requires m in db.messages && m in Step(db, request, pause).messages
    ensures
      var before, after := db.messages[m], Step(db, request, pause).messages[m];
      && after.chat == before.chat && after.sender == before.sender && after.createdAt == before.createdAt
      && (after.text != before.text || after.isEdited != before.isEdited ==>
            && request == Edited(None, before.chat, m, before.sender, after.text)
            && after.isEdited)
      && (after.replyTo != before.replyTo ==>
            after.replyTo == None && before.replyTo.Some? && before.replyTo.value !in Step(db, request, pause).messages)
  {
  }

  /** A new message is what its sender posted. */
  lemma MessagesComeFromTheirSender(db: Db, request: Request, pause: nat, m: MessageId)
    requires m !in db.messages && m in Step(db, request, pause).messages
    ensures var sent := Step(db, request, pause).messages[m];
            && request.Posted? && request.verdict == None && request.id == m
            && request.post.chat == sent.chat && request.post.sender == sent.sender && request.post.text == sent.text
            && sent.createdAt == db.now && !sent.isEdited
  {
  }

  // ----- Who may change a message: whole runs -----

  /** The state after the first k requests. */
  function At(requests: seq<(Request, nat)>, k: nat): Db
    requires k <= |requests|
  {
    Run(EMPTY, requests[..k])
  }

  lemma {:induction false} RunExtends(db: Db, requests: seq<(Request, nat)>, next: (Request, nat))
    ensures Run(db, requests + [next]) == Step(Run(db, requests), next.0, next.1)
    decreases |requests|
  {
    hide Step;
    if requests == [] {
      assert requests + [next] == [next] && [next][1..] == [];
    } else {
      assert (requests + [next])[1..] == requests[1..] + [next];
      RunExtends(Step(db, requests[0].0, requests[0].1), requests[1..], next);
    }
  }

  lemma AtStart(requests: seq<(Request, nat)>)
    ensures At(requests, 0) == EMPTY
  {
    assert requests[..0] == [];
  }

  lemma AtNext(requests: seq<(Request, nat)>, k: nat)
    requires k < |requests|
    ensures At(requests, k + 1) == Step(At(requests, k), requests[k].0, requests[k].1)
  {
    assert requests[..k + 1] == requests[..k] + [requests[k]];
    RunExtends(EMPTY, requests[..k], requests[k]);
  }

  /** The request that puts this text into a message: its sender's post or edit. */
  predicate Writes(request: Request, m: MessageId, message: Message) {
    match request
    case Posted(verdict, post, id) =>
      verdict == None && id == m && post.chat == message.chat && post.sender == message.sender && post.text == message.text
    case Edited(verdict, chat, id, actor, text) =>
      verdict == None && id == m && chat == message.chat && actor == message.sender && text == message.text
    case _ => false
  }

  /** Every stored text was written by the message's sender, in its chat, and has stood there since. */
  lemma {:induction false} TextsAreTheirSendersOwn(requests: seq<(Request, nat)>, m: MessageId, n: nat) returns (k: nat)
    requires n <= |requests| && m in At(requests, n).messages
    ensures k < n && Writes(requests[k].0, m, At(requests, n).messages[m])
    ensures forall j :: k < j <= n ==> m in At(requests, j).messages && At(requests, j).messages[m].text == At(requests, n).messages[m].text
  {
    hide Step;
    AtStart(requests);
    if n > 0 {
      AtNext(requests, n - 1);
      var before, after := At(requests, n - 1), At(requests, n);
      if m !in before.messages {
        MessagesComeFromTheirSender(before, requests[n - 1].0, requests[n - 1].1, m);
        k := n - 1;
      } else {
        MessagesChangeByTheirAuthor(before, requests[n - 1].0, requests[n - 1].1, m);
        if after.messages[m].text != before.messages[m].text {
          k := n - 1;
        } else {
          k := TextsAreTheirSendersOwn(requests, m, n - 1);
        }
      }
    }
  }
}
