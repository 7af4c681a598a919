/** The message and attachment services as they run, writing their tables and the blob store in place. */
module MessageService {
  import opened Common
  import opened Messages

  class Service {
    var now: nat
    var messages: map<MessageId, Message>
    var attachments: map<AttachmentId, Attachment>
    var roomBindings: map<AttachmentId, MessageId>
    var dialogBindings: map<AttachmentId, MessageId>
    var blobs: set<StorageKey>

    constructor ()
      ensures Valid() && View() == EMPTY
    {
      now, messages, attachments, roomBindings, dialogBindings, blobs := 0, map[], map[], map[], map[], {};
    }

    ghost function View(): Db
      reads this
    {
      Db(now, messages, attachments, roomBindings, dialogBindings, blobs)
    }

    ghost predicate Valid()
      reads this
    {
      Invariant(View())
    }

    /** Looks at the requested ids one by one; the first that is missing, foreign or bound stops it. */
    method LockOwnedUnbound(user: UserId, ids: seq<AttachmentId>) returns (error: Option<Error>)
      ensures error == LockRefusal(View(), user, ids)
    {
      var seen: set<AttachmentId> := {};
      for i := 0 to |ids|
        invariant seen == set a | a in ids[..i]
        invariant !HasDuplicates(ids[..i])
      {
        if ids[i] in seen {
          var j :| 0 <= j < i && ids[j] == ids[i];
          return Some(Invalid);
        }
        seen := seen + {ids[i]};
        assert ids[..i + 1] == ids[..i] + [ids[i]];
      }
      assert ids[..|ids|] == ids;
      for i := 0 to |ids|
        invariant forall k :: 0 <= k < i ==>
          ids[k] in attachments && attachments[ids[k]].uploader == user && attachments[ids[k]].bindingType == Unbound
      {
        var a := ids[i];
        if a !in attachments || attachments[a].uploader != user || attachments[a].bindingType != Unbound {
          return Some(Invalid);
        }
      }
      error := None;
    }

    /** Bulk-creates the binding rows and updates the attachments' binding type. */
    method BindRows(chat: Chat, message: MessageId, ids: seq<AttachmentId>)
      modifies this
      ensures View() == Bind(old(View()), chat, message, ids)
    {
      var kind := if chat.InRoom? then RoomMessage else DialogMessage;
      var rows := map a | a in ids :: message;
      if chat.InRoom? {
        roomBindings := roomBindings + rows;
      } else {
        dialogBindings := dialogBindings + rows;
      }
      attachments := map a | a in attachments ::
        if a in ids then attachments[a].(bindingType := kind) else attachments[a];
    }

    method CreateMessage(verdict: Option<Error>, post: Post, id: MessageId) returns (error: Option<Error>)
      modifies this
      ensures Committed(old(View()), Messages.CreateMessage(old(View()), verdict, post, id), View(), error)
    {
      if verdict.Some? { return verdict; }
      if ContentRefusal(post.text, post.attachments != []).Some? { return Some(Invalid); }
      if post.replyTo.Some? && (post.replyTo.value !in messages || messages[post.replyTo.value].chat != post.chat) {
        return Some(Invalid);
      }
      var refusal := LockOwnedUnbound(post.sender, post.attachments);
      if refusal.Some? { return Some(Invalid); }
      if id in messages { return Some(Conflict); }
      messages := messages[id := Message(post.chat, post.sender, post.text, post.replyTo, now, false)];
      BindRows(post.chat, id, post.attachments);
      error := None;
    }

    method UpdateMessage(verdict: Option<Error>, chat: Chat, id: MessageId, actor: UserId, text: Option<string>) returns (error: Option<Error>)
      modifies this
      ensures Committed(old(View()), Messages.UpdateMessage(old(View()), verdict, chat, id, actor, text), View(), error)
    {
      if verdict.Some? { return verdict; }
      if id !in messages || messages[id].chat != chat { return Some(NotFound); }
      if messages[id].sender != actor { return Some(Forbidden); }
      if ContentRefusal(text, BoundTo(roomBindings, dialogBindings, id) != {}).Some? { return Some(Invalid); }
      messages := messages[id := messages[id].(text := text, isEdited := true)];
      error := None;
    }

    /** Deleting attachment rows cascades to the binding tables and fires the blob deletion. */
    method DeleteAttachmentRows(gone: set<AttachmentId>)
      modifies this
      ensures View() == DropAttachments(old(View()), gone)
    {
      blobs := blobs - set a | a in gone && a in attachments :: attachments[a].storageKey;
      roomBindings := roomBindings - gone;
      dialogBindings := dialogBindings - gone;
      attachments := attachments - gone;
    }

    method DeleteMessageRows(gone: set<MessageId>)
      modifies this
      ensures View() == DropMessages(old(View()), gone)
    {
      messages := map m | m in messages && m !in gone ::
        if messages[m].replyTo.Some? && messages[m].replyTo.value in gone
        then messages[m].(replyTo := None) else messages[m];
    }

    method DeleteMessage(verdict: Option<Error>, chat: Chat, id: MessageId, actor: UserId, moderates: bool) returns (error: Option<Error>)
      modifies this
      ensures Committed(old(View()), Messages.DeleteMessage(old(View()), verdict, chat, id, actor, moderates), View(), error)
    {
      if verdict.Some? { return verdict; }
      if id !in messages || messages[id].chat != chat { return Some(NotFound); }
      if messages[id].sender != actor && !(chat.InRoom? && moderates) { return Some(Forbidden); }
      DeleteAttachmentRows(BoundTo(roomBindings, dialogBindings, id));
      DeleteMessageRows({id});
      error := None;
    }

    method DeleteRoom(verdict: Option<Error>, room: RoomId) returns (error: Option<Error>)
      modifies this
      ensures Committed(old(View()), Messages.DeleteRoom(old(View()), verdict, room), View(), error)
    {
      if verdict.Some? { return verdict; }
      var gone := set m | m in messages && messages[m].chat == InRoom(room);
      DeleteAttachmentRows(set a | a in roomBindings && roomBindings[a] in gone);
      DeleteMessageRows(gone);
      error := None;
    }

    /** The blob goes in before the row; a failing row takes the blob out again. */
    method CreateAttachment(uploader: UserId, size: int, isImage: bool, key: StorageKey, id: AttachmentId, outcome: UploadOutcome)
      returns (error: Option<Error>)
      modifies this
      ensures Committed(old(View()), Upload(old(View()), uploader, size, isImage, key, id, outcome), View(), error)
    {
      if size <= 0 { return Some(Invalid); }
      var limit := if isImage then MAX_IMAGE_SIZE_BYTES else MAX_FILE_SIZE_BYTES;
      if size > limit { return Some(Invalid); }
      if id in attachments || key in blobs { return Some(Conflict); }
      if outcome == PutFails { return Some(StorageFailed); }
      blobs := blobs + {key};
      if outcome == RowFails {
        blobs := blobs - {key};
        assert blobs == old(blobs);
        return Some(RowRejected);
      }
      attachments := attachments[id := Attachment(uploader, key, size, Unbound)];
      error := None;
    }

    method DeleteUnboundAttachment(id: AttachmentId, actor: UserId) returns (error: Option<Error>)
      modifies this
      ensures Committed(old(View()), DeleteUnbound(old(View()), id, actor), View(), error)
    {
      if id !in attachments || attachments[id].uploader != actor { return Some(NotFound); }
      if attachments[id].bindingType != Unbound { return Some(Conflict); }
      DeleteAttachmentRows({id});
      error := None;
    }

    method Dispatch(request: Request) returns (error: Option<Error>)
      modifies this
      ensures Committed(old(View()), Attempt(old(View()), request), View(), error)
    {
      hide Messages.CreateMessage, Messages.UpdateMessage, Messages.DeleteMessage, Messages.DeleteRoom, Upload, DeleteUnbound, Committed;
      match request
      case Uploaded(uploader, size, isImage, key, id, outcome) => error := CreateAttachment(uploader, size, isImage, key, id, outcome);
      case Discarded(id, actor) => error := DeleteUnboundAttachment(id, actor);
      case Posted(verdict, post, id) => error := CreateMessage(verdict, post, id);
      case Edited(verdict, chat, id, actor, text) => error := UpdateMessage(verdict, chat, id, actor, text);
      case Removed(verdict, chat, id, actor, moderates) => error := DeleteMessage(verdict, chat, id, actor, moderates);
      case RoomDeleted(verdict, room) => error := DeleteRoom(verdict, room);
    }

    /** Runs one request as a transaction; the clock has moved on before the next one. */
    method Transact(request: Request, pause: nat) returns (error: Option<Error>)
      requires Valid()
      modifies this
      ensures Valid()
      ensures View() == Step(old(View()), request, pause)
      ensures error == match Attempt(old(View()), request) case Success(_) => None case Failure(e) => Some(e)
    {
      StepKeepsInvariant(View(), request, pause);
      hide Invariant, Attempt;
      var start := now;
      error := Dispatch(request);
      ghost var committed := View();
      now := start + 1 + pause;
      assert View() == committed.(now := start + 1 + pause);
    }
  }
}
