/**
 Unread counting. The services keep one timestamp per chat and user, the watermark; the reference
 model keeps the unread messages themselves. Rooms and dialogs are both chats here: a room's read
 state disappears when its user leaves or is banned or the room is deleted, a dialog's never does.
 The clock moves between any two transactions, so creation times never repeat.
 */
module Unread {
  import opened Common
  import Messages

  type UserId = nat
  type ChatId = Messages.Chat
  type MessageId = nat

  datatype Post = Post(id: MessageId, chat: ChatId, sender: UserId, createdAt: int)

  type Marks = map<(ChatId, UserId), int>

  datatype Db = Db(now: int, posts: seq<Post>, marks: Marks)

  /** Other is any transaction that touches neither table: an edit, a join, a refused request. */
  datatype Event =
    | Sent(id: MessageId, chat: ChatId, sender: UserId)
    | Removed(id: MessageId)
    | MarkedRead(chat: ChatId, user: UserId)
    | LeftOrBanned(chat: ChatId, user: UserId)
    | ChatDeleted(chat: ChatId)
    | Other

  // ----- The services' state -----

  predicate HasId(posts: seq<Post>, id: MessageId) {
    exists p :: p in posts && p.id == id
  }

  function Without(posts: seq<Post>, gone: set<MessageId>): (r: seq<Post>)
    ensures forall p :: p in r <==> p in posts && p.id !in gone
  {
    if posts == [] then []
    else
      var last := posts[|posts| - 1];
      var rest := Without(posts[..|posts| - 1], gone);
      assert posts == posts[..|posts| - 1] + [last];
      if last.id in gone then rest else rest + [last]
  }

  function IdsIn(posts: seq<Post>, chat: ChatId): set<MessageId> {
    set p | p in posts && p.chat == chat :: p.id
  }

  /** Creation time of the newest message of a chat. */
  function LatestAt(posts: seq<Post>, chat: ChatId): (latest: Option<int>)
    ensures latest.None? <==> forall p :: p in posts ==> p.chat != chat
    ensures latest.Some? ==> (exists p :: p in posts && p.chat == chat && p.createdAt == latest.value)
                             && forall p :: p in posts && p.chat == chat ==> p.createdAt <= latest.value
  {
    if posts == [] then None
    else
      var last := posts[|posts| - 1];
      var rest := LatestAt(posts[..|posts| - 1], chat);
      assert posts == posts[..|posts| - 1] + [last];
      if last.chat == chat && (rest.None? || last.createdAt > rest.value) then Some(last.createdAt) else rest
  }

  function Transact(db: Db, e: Event): Db {
    match e
    case Sent(id, chat, sender) =>
      if HasId(db.posts, id) then db else db.(posts := db.posts + [Post(id, chat, sender, db.now)])
    case Removed(id) => db.(posts := Without(db.posts, {id}))
    case MarkedRead(chat, user) =>
      var latest := LatestAt(db.posts, chat);
      db.(marks := db.marks[(chat, user) := if latest.Some? then latest.value else db.now])
    case LeftOrBanned(chat, user) => db.(marks := db.marks - {(chat, user)})
    case ChatDeleted(chat) =>
      db.(posts := Without(db.posts, IdsIn(db.posts, chat)), marks := map k | k in db.marks && k.0 != chat :: db.marks[k])
    case Other => db
  }

  /** One transaction and the pause that follows it. */
  function Step(db: Db, e: Event, pause: nat): Db {
    Transact(db, e).(now := db.now + 1 + pause)
  }

  /** A history is a list of transactions, each followed by a pause. */
  type History = seq<(Event, nat)>

  function Run(start: int, history: History): Db
    decreases |history|
  {
    if history == [] then Db(start, [], map[])
    else
      var last := |history| - 1;
      Step(Run(start, history[..last]), history[last].0, history[last].1)
  }

  // ----- The counters -----

  predicate IsUnread(p: Post, marks: Marks, chat: ChatId, user: UserId) {
    p.chat == chat && p.sender != user && ((chat, user) !in marks || p.createdAt > marks[(chat, user)])
  }

  /** The loop's counter for one chat after these rows. */
  function CountUnread(posts: seq<Post>, marks: Marks, chat: ChatId, user: UserId): nat {
    if posts == [] then 0
    else
      var here := if IsUnread(posts[|posts| - 1], marks, chat, user) then 1 else 0;
      CountUnread(posts[..|posts| - 1], marks, chat, user) + here
  }

  function Select(posts: seq<Post>, keep: Post -> bool): seq<Post> {
    if posts == [] then []
    else
      var here := if keep(posts[|posts| - 1]) then [posts[|posts| - 1]] else [];
      Select(posts[..|posts| - 1], keep) + here
  }

  /** The query: filter the chat, exclude the sender, then filter by time when there is a mark. */
  function QueryUnread(posts: seq<Post>, marks: Marks, chat: ChatId, user: UserId): nat {
    var others := Select(posts, (p: Post) => p.chat == chat && p.sender != user);
    if (chat, user) in marks then
      var mark := marks[(chat, user)];
      |Select(others, (p: Post) => p.createdAt > mark)|
    else |others|
  }

  lemma {:induction false} FilteringCounts(posts: seq<Post>, keep: Post -> bool, marks: Marks, chat: ChatId, user: UserId)
    requires forall p :: p in posts ==> (keep(p) <==> IsUnread(p, marks, chat, user))
    ensures |Select(posts, keep)| == CountUnread(posts, marks, chat, user)
  {
    if posts != [] {
      FilteringCounts(posts[..|posts| - 1], keep, marks, chat, user);
      assert posts[|posts| - 1] in posts;
    }
  }

  lemma {:induction false} FilteringTwiceCounts(posts: seq<Post>, first: Post -> bool, second: Post -> bool,
                                                marks: Marks, chat: ChatId, user: UserId)
    requires forall p :: p in posts ==> (first(p) && second(p) <==> IsUnread(p, marks, chat, user))
    ensures |Select(Select(posts, first), second)| == CountUnread(posts, marks, chat, user)
  {
    if posts != [] {
      var init, last := posts[..|posts| - 1], posts[|posts| - 1];
      FilteringTwiceCounts(init, first, second, marks, chat, user);
      assert last in posts;
      var chosen := Select(init, first);
      if first(last) {
        assert (chosen + [last])[..|chosen|] == chosen;
      } else {
        assert chosen + [] == chosen;
      }
    }
  }

  /** The query and the loop agree, whatever the rows and marks. */
  lemma QueryMatchesLoop(posts: seq<Post>, marks: Marks, chat: ChatId, user: UserId)
    ensures QueryUnread(posts, marks, chat, user) == CountUnread(posts, marks, chat, user)
  {
    var others := (p: Post) => p.chat == chat && p.sender != user;
    if (chat, user) in marks {
      var mark := marks[(chat, user)];
      var newer := (p: Post) => p.createdAt > mark;
      FilteringTwiceCounts(posts, others, newer, marks, chat, user);
    } else {
      FilteringCounts(posts, others, marks, chat, user);
    }
  }

  // ----- The reference model: explicit unread sets -----

  /** The surviving messages, with their chat and sender. */
  type Stored = map<MessageId, (ChatId, UserId)>

  function StoredIn(stored: Stored, chat: ChatId): set<MessageId> {
    set id | id in stored && stored[id].0 == chat
  }

  function StoredThen(stored: Stored, e: Event): Stored {
    match e
    case Sent(id, chat, sender) => if id in stored then stored else stored[id := (chat, sender)]
    case Removed(id) => stored - {id}
    case ChatDeleted(chat) => stored - StoredIn(stored, chat)
    case _ => stored
  }

  function StoredAfter(history: History): Stored
    decreases |history|
  {
    if history == [] then map[]
    else StoredThen(StoredAfter(history[..|history| - 1]), history[|history| - 1].0)
  }

  function ByOthers(stored: Stored, chat: ChatId, user: UserId): set<MessageId> {
    set id | id in stored && stored[id].0 == chat && stored[id].1 != user
  }

  /**
   A message sent by someone else becomes unread; deleting it takes it away; marking the chat read
   empties the set, and so does deleting the chat; losing the read state makes every surviving
   message of the others unread again.
   */
  function UnreadThen(unread: set<MessageId>, stored: Stored, e: Event, chat: ChatId, user: UserId): set<MessageId> {
    match e
    case Sent(id, c, sender) => if id !in stored && c == chat && sender != user then unread + {id} else unread
    case Removed(id) => unread - {id}
    case MarkedRead(c, u) => if c == chat && u == user then {} else unread
    case LeftOrBanned(c, u) => if c == chat && u == user then ByOthers(stored, chat, user) else unread
    case ChatDeleted(c) => if c == chat then {} else unread
    case Other => unread
  }

  function UnreadAfter(history: History, chat: ChatId, user: UserId): set<MessageId>
    decreases |history|
  {
    if history == [] then {}
    else
      var before := history[..|history| - 1];
      UnreadThen(UnreadAfter(before, chat, user), StoredAfter(before), history[|history| - 1].0, chat, user)
  }

  // ----- The refinement -----

  /** Rows in the order they were sent: creation times rise and ids never repeat. */
  predicate Chronological(posts: seq<Post>) {
    forall i, j :: 0 <= i < j < |posts| ==> posts[i].id != posts[j].id && posts[i].createdAt < posts[j].createdAt
  }

  ghost function IdsAbove(posts: seq<Post>, marks: Marks, chat: ChatId, user: UserId): set<MessageId> {
    set p | p in posts && IsUnread(p, marks, chat, user) :: p.id
  }

  ghost function UnreadIds(db: Db, chat: ChatId, user: UserId): set<MessageId> {
    IdsAbove(db.posts, db.marks, chat, user)
  }

  ghost predicate RowsStored(posts: seq<Post>, stored: Stored) {
    forall p :: p in posts ==> p.id in stored && stored[p.id] == (p.chat, p.sender)
  }

  ghost predicate StoredHaveRows(posts: seq<Post>, stored: Stored) {
    forall id :: id in stored ==> HasId(posts, id)
  }

  ghost predicate InThePast(db: Db) {
    && (forall p :: p in db.posts ==> p.createdAt < db.now)
    && (forall k :: k in db.marks ==> db.marks[k] < db.now)
  }

  ghost predicate Tracks(db: Db, stored: Stored) {
    Chronological(db.posts) && RowsStored(db.posts, stored) && StoredHaveRows(db.posts, stored) && InThePast(db)
  }

  lemma AppendKeepsOrder(init: seq<Post>, last: Post)
    requires Chronological(init) && forall p :: p in init ==> p.id != last.id && p.createdAt < last.createdAt
    ensures Chronological(init + [last])
  {
    assert forall i :: 0 <= i < |init| ==> init[i] in init;
  }

  lemma LastIsLater(posts: seq<Post>)
    requires Chronological(posts) && posts != []
    ensures var init, last := posts[..|posts| - 1], posts[|posts| - 1];
            Chronological(init) && forall p :: p in init ==> p.id != last.id && p.createdAt < last.createdAt
  {
  }

  lemma {:induction false} WithoutKeepsOrder(posts: seq<Post>, gone: set<MessageId>)
    requires Chronological(posts)
    ensures Chronological(Without(posts, gone))
  {
    if posts != [] {
      var init, last := posts[..|posts| - 1], posts[|posts| - 1];
      LastIsLater(posts);
      hide Chronological;
      WithoutKeepsOrder(init, gone);
      AppendKeepsOrder(Without(init, gone), last);
    }
  }

  lemma SendingKeepsRows(posts: seq<Post>, stored: Stored, sent: Post)
    requires StoredHaveRows(posts, stored)
    ensures StoredHaveRows(posts + [sent], stored[sent.id := (sent.chat, sent.sender)])
  {
    assert sent in posts + [sent];
    forall k | k in stored ensures HasId(posts + [sent], k) {
      var p :| p in posts && p.id == k;
      assert p in posts + [sent];
    }
  }

  /** What it takes to track, for any rows and clock. */
  lemma TracksOnceSent(db: Db, stored: Stored, sent: Post, later: int)
    requires Tracks(db, stored) && sent.id !in stored && sent.createdAt == db.now < later
    ensures Tracks(db.(posts := db.posts + [sent], now := later), stored[sent.id := (sent.chat, sent.sender)])
  {
    AppendKeepsOrder(db.posts, sent);
    SendingKeepsRows(db.posts, stored, sent);
    hide StoredHaveRows, Chronological, HasId;
  }

  lemma SendingTracks(db: Db, stored: Stored, id: MessageId, chat: ChatId, sender: UserId, pause: nat)
    requires Tracks(db, stored) && id !in stored
    ensures Tracks(Step(db, Sent(id, chat, sender), pause), stored[id := (chat, sender)])
  {
    assert !HasId(db.posts, id);
    hide Tracks, HasId;
    TracksOnceSent(db, stored, Post(id, chat, sender, db.now), db.now + 1 + pause);
  }

  lemma RemovingKeepsRows(posts: seq<Post>, stored: Stored, gone: set<MessageId>)
    requires StoredHaveRows(posts, stored)
    ensures StoredHaveRows(Without(posts, gone), stored - gone)
  {
    forall k | k in stored && k !in gone ensures HasId(Without(posts, gone), k) {
      var p :| p in posts && p.id == k;
      assert p in Without(posts, gone);
    }
  }

  /** Rows may go, and marks with them. */
  lemma RemovingTracks(db: Db, stored: Stored, gone: set<MessageId>, db': Db)
    requires Tracks(db, stored) && db.now <= db'.now && db'.posts == Without(db.posts, gone)
    requires forall k :: k in db'.marks ==> k in db.marks && db'.marks[k] == db.marks[k]
    ensures Tracks(db', stored - gone)
  {
    WithoutKeepsOrder(db.posts, gone);
    RemovingKeepsRows(db.posts, stored, gone);
    hide Without, HasId, Chronological, StoredHaveRows;
  }

  lemma RowsOfChat(posts: seq<Post>, stored: Stored, chat: ChatId)
    requires RowsStored(posts, stored) && StoredHaveRows(posts, stored)
    ensures IdsIn(posts, chat) == StoredIn(stored, chat)
  {
    forall id | id in StoredIn(stored, chat) ensures id in IdsIn(posts, chat) {
      var p :| p in posts && p.id == id;
    }
  }

  lemma StepTracks(db: Db, stored: Stored, e: Event, pause: nat)
    requires Tracks(db, stored)
    ensures Tracks(Step(db, e, pause), StoredThen(stored, e))
  {
    match e
    case Sent(id, chat, sender) =>
      assert id in stored <==> HasId(db.posts, id);
      if id !in stored {
        SendingTracks(db, stored, id, chat, sender, pause);
      }
    case Removed(id) =>
      RemovingTracks(db, stored, {id}, Step(db, e, pause));
    case ChatDeleted(chat) =>
      RowsOfChat(db.posts, stored, chat);
      RemovingTracks(db, stored, StoredIn(stored, chat), Step(db, e, pause));
    case _ =>
  }

  lemma {:induction false} RunTracks(start: int, history: History)
    ensures Tracks(Run(start, history), StoredAfter(history))
    decreases |history|
  {
    if history != [] {
      var before := history[..|history| - 1];
      RunTracks(start, before);
      StepTracks(Run(start, before), StoredAfter(before), history[|history| - 1].0, history[|history| - 1].1);
    }
  }

  /** The watermark marks exactly the messages of the explicit unread set. */
  lemma {:induction false} WatermarkRefinesUnreadSet(start: int, history: History, chat: ChatId, user: UserId)
    ensures UnreadIds(Run(start, history), chat, user) == UnreadAfter(history, chat, user)
    decreases |history|
  {
    if history != [] {
      var before := history[..|history| - 1];
      var (event, pause) := history[|history| - 1];
      RunTracks(start, before);
      WatermarkRefinesUnreadSet(start, before, chat, user);
      OneStep(Run(start, before), StoredAfter(before), event, pause, chat, user);
    }
  }

  lemma IdsAboveWithout(posts: seq<Post>, gone: set<MessageId>, marks: Marks, chat: ChatId, user: UserId)
    ensures IdsAbove(Without(posts, gone), marks, chat, user) == IdsAbove(posts, marks, chat, user) - gone
  {
  }

  lemma ForgettingRestores(db: Db, stored: Stored, marks: Marks, chat: ChatId, user: UserId)
    requires RowsStored(db.posts, stored) && StoredHaveRows(db.posts, stored) && (chat, user) !in marks
    ensures IdsAbove(db.posts, marks, chat, user) == ByOthers(stored, chat, user)
  {
    forall k | k in ByOthers(stored, chat, user) ensures k in IdsAbove(db.posts, marks, chat, user) {
      var p :| p in db.posts && p.id == k;
    }
  }

  lemma DeletingEmpties(db: Db, stored: Stored, gone: ChatId, chat: ChatId, user: UserId)
    requires Tracks(db, stored)
    ensures UnreadIds(Transact(db, ChatDeleted(gone)), chat, user) == if gone == chat then {} else UnreadIds(db, chat, user)
  {
    RowsOfChat(db.posts, stored, gone);
    var marks := Transact(db, ChatDeleted(gone)).marks;
    assert gone != chat ==> ((chat, user) in marks <==> (chat, user) in db.marks);
    IdsAboveWithout(db.posts, StoredIn(stored, gone), marks, chat, user);
    hide Without, Chronological, StoredHaveRows;
  }

  lemma SendingAdds(db: Db, stored: Stored, e: Event, chat: ChatId, user: UserId)
    requires e.Sent? && Tracks(db, stored)
    ensures UnreadIds(Transact(db, e), chat, user) == UnreadThen(UnreadIds(db, chat, user), stored, e, chat, user)
  {
    assert e.id in stored <==> HasId(db.posts, e.id);
    hide HasId, Tracks;
    if e.id !in stored {
      IdsAboveAppend(db.posts, Post(e.id, e.chat, e.sender, db.now), db.marks, chat, user);
    }
  }

  /** Setting or dropping one mark leaves the other chats and users alone. */
  lemma MarksAreSeparate(db: Db, stored: Stored, e: Event, chat: ChatId, user: UserId)
    requires (e.MarkedRead? || e.LeftOrBanned?) && Tracks(db, stored)
    ensures UnreadIds(Transact(db, e), chat, user) == UnreadThen(UnreadIds(db, chat, user), stored, e, chat, user)
  {
    if e.LeftOrBanned? && e.chat == chat && e.user == user {
      ForgettingRestores(db, stored, db.marks - {(chat, user)}, chat, user);
    }
    hide RowsStored, StoredHaveRows, Chronological;
  }

  /** One transaction changes the messages above the watermark as the explicit set says. */
  lemma OneStep(db: Db, stored: Stored, e: Event, pause: nat, chat: ChatId, user: UserId)
    requires Tracks(db, stored)
    ensures UnreadIds(Step(db, e, pause), chat, user) == UnreadThen(UnreadIds(db, chat, user), stored, e, chat, user)
  {
    hide Tracks, IdsAbove, Without;
    match e
    case Sent(_, _, _) => SendingAdds(db, stored, e, chat, user);
    case Removed(id) => IdsAboveWithout(db.posts, {id}, db.marks, chat, user);
    case ChatDeleted(c) => DeletingEmpties(db, stored, c, chat, user);
    case Other =>
    case _ => MarksAreSeparate(db, stored, e, chat, user);
  }

  lemma IdsAboveAppend(init: seq<Post>, last: Post, marks: Marks, chat: ChatId, user: UserId)
    ensures IdsAbove(init + [last], marks, chat, user)
         == IdsAbove(init, marks, chat, user) + (if IsUnread(last, marks, chat, user) then {last.id} else {})
  {
    forall id ensures id in IdsAbove(init + [last], marks, chat, user) <==>
                      id in IdsAbove(init, marks, chat, user) || (IsUnread(last, marks, chat, user) && id == last.id)
    {
      if id in IdsAbove(init, marks, chat, user) {
        var p :| p in init && IsUnread(p, marks, chat, user) && p.id == id;
        assert p in init + [last];
      }
      if IsUnread(last, marks, chat, user) && id == last.id {
        assert last in init + [last];
      }
    }
  }

  lemma OneMore(ids: set<MessageId>, id: MessageId, added: bool)
    requires id !in ids
    ensures |ids + (if added then {id} else {})| == |ids| + if added then 1 else 0
  {
    if !added {
      assert ids + {} == ids;
    }
  }

  lemma CountAppend(init: seq<Post>, last: Post, marks: Marks, chat: ChatId, user: UserId)
    ensures CountUnread(init + [last], marks, chat, user)
         == CountUnread(init, marks, chat, user) + if IsUnread(last, marks, chat, user) then 1 else 0
  {
    assert (init + [last])[..|init|] == init;
  }

  lemma CardinalityAppend(init: seq<Post>, last: Post, marks: Marks, chat: ChatId, user: UserId)
    requires forall p :: p in init ==> p.id != last.id
    requires CountUnread(init, marks, chat, user) == |IdsAbove(init, marks, chat, user)|
    ensures CountUnread(init + [last], marks, chat, user) == |IdsAbove(init + [last], marks, chat, user)|
  {
    assert last.id !in IdsAbove(init, marks, chat, user);
    hide IdsAbove, IsUnread, CountUnread;
    CountAppend(init, last, marks, chat, user);
    IdsAboveAppend(init, last, marks, chat, user);
    OneMore(IdsAbove(init, marks, chat, user), last.id, IsUnread(last, marks, chat, user));
  }

  lemma {:induction false} CountIsCardinality(posts: seq<Post>, marks: Marks, chat: ChatId, user: UserId)
    requires Chronological(posts)
    ensures CountUnread(posts, marks, chat, user) == |IdsAbove(posts, marks, chat, user)|
  {
    if posts == [] {
      assert IdsAbove(posts, marks, chat, user) == {};
    } else {
      var init, last := posts[..|posts| - 1], posts[|posts| - 1];
      LastIsLater(posts);
      hide IdsAbove, IsUnread, Chronological, CountUnread;
      CountIsCardinality(init, marks, chat, user);
      CardinalityAppend(init, last, marks, chat, user);
      assert posts == init + [last];
    }
  }

  /**
   After any history the loop counter and the query both give the number of surviving messages by
   others sent since the user's last mark-read, or since ever when there is no read state.
   */
  lemma CountersMatchHistory(start: int, history: History, chat: ChatId, user: UserId)
    ensures var db := Run(start, history);
            && CountUnread(db.posts, db.marks, chat, user) == |UnreadAfter(history, chat, user)|
            && QueryUnread(db.posts, db.marks, chat, user) == |UnreadAfter(history, chat, user)|
  {
    var db := Run(start, history);
    RunTracks(start, history);
    WatermarkRefinesUnreadSet(start, history, chat, user);
    CountIsCardinality(db.posts, db.marks, chat, user);
    QueryMatchesLoop(db.posts, db.marks, chat, user);
  }

  /**
   Deleting a message and marking again moves the watermark back exactly when the message was the
   chat's newest and the chat keeps an older one.
   */
  lemma WatermarkMovesBackExactly(db: Db, chat: ChatId, user: UserId, id: MessageId, later: int)
    requires Chronological(db.posts) && InThePast(db) && db.now < later
    ensures
      var read := Transact(db, MarkedRead(chat, user));
      var again := Transact(Transact(read, Removed(id)).(now := later), MarkedRead(chat, user));
      again.marks[(chat, user)] < read.marks[(chat, user)] <==>
      && (exists p :: p in db.posts && p.chat == chat && p.id != id)
      && (exists p :: p in db.posts && p.chat == chat && p.id == id
                      && forall q :: q in db.posts && q.chat == chat ==> q.createdAt <= p.createdAt)
  {
    var rest := Without(db.posts, {id});
    var latest, left := LatestAt(db.posts, chat), LatestAt(rest, chat);
    hide Without, LatestAt, Chronological;
    if latest.Some? && left.Some? {
      var newest :| newest in db.posts && newest.chat == chat && newest.createdAt == latest.value;
      var kept :| kept in rest && kept.chat == chat && kept.createdAt == left.value;
      if newest.id == id {
        OrderTellsApart(db.posts, newest, kept);
      } else {
        assert newest in rest;
        forall p | p in db.posts && p.chat == chat && p.id == id ensures newest.createdAt > p.createdAt {
          OrderTellsApart(db.posts, newest, p);
        }
      }
    }
  }

  lemma OrderTellsApart(posts: seq<Post>, p: Post, q: Post)
    requires Chronological(posts) && p in posts && q in posts && p.id != q.id
    ensures p.createdAt != q.createdAt
  {
    var i :| 0 <= i < |posts| && posts[i] == p;
    var j :| 0 <= j < |posts| && posts[j] == q;
  }

  // ----- The summary the client applies -----

  /** The notification summary lists only the chats with something unread. */
  function Summary(chats: seq<ChatId>, counts: map<ChatId, nat>): seq<(ChatId, nat)>
    requires forall c :: c in chats ==> c in counts
  {
    if chats == [] then []
    else (if counts[chats[0]] > 0 then [(chats[0], counts[chats[0]])] else []) + Summary(chats[1..], counts)
  }

  /** The client's lookup: the last entry for the chat, or zero. */
  function ClientCount(rows: seq<(ChatId, nat)>, chat: ChatId): nat {
    if rows == [] then 0
    else if rows[|rows| - 1].0 == chat then rows[|rows| - 1].1
    else ClientCount(rows[..|rows| - 1], chat)
  }

  lemma {:induction false} ClientCountConcat(a: seq<(ChatId, nat)>, b: seq<(ChatId, nat)>, chat: ChatId)
    ensures ClientCount(a + b, chat) == if exists r :: r in b && r.0 == chat then ClientCount(b, chat) else ClientCount(a, chat)
    decreases |b|
  {
    if b == [] {
      assert a + b == a;
    } else {
      var init := b[..|b| - 1];
      assert (a + b)[..|a + b| - 1] == a + init;
      assert b == init + [b[|b| - 1]];
      ClientCountConcat(a, init, chat);
    }
  }

  lemma {:induction false} SummaryEntries(chats: seq<ChatId>, counts: map<ChatId, nat>)
    requires forall c :: c in chats ==> c in counts
    ensures forall r :: r in Summary(chats, counts) <==> r.0 in chats && counts[r.0] == r.1 && r.1 > 0
  {
    if chats != [] {
      SummaryEntries(chats[1..], counts);
      assert chats == [chats[0]] + chats[1..];
    }
  }

  /** Leaving the zeroes out loses nothing: the client shows every listed chat its exact count. */
  lemma {:induction false} SparseSummaryIsLossless(chats: seq<ChatId>, counts: map<ChatId, nat>, chat: ChatId)
    requires forall c :: c in chats ==> c in counts
    ensures ClientCount(Summary(chats, counts), chat) == if chat in chats then counts[chat] else 0
  {
    if chats != [] {
      var head := if counts[chats[0]] > 0 then [(chats[0], counts[chats[0]])] else [];
      SparseSummaryIsLossless(chats[1..], counts, chat);
      SummaryEntries(chats[1..], counts);
      ClientCountConcat(head, Summary(chats[1..], counts), chat);
      assert chats == [chats[0]] + chats[1..];
      var rest := Summary(chats[1..], counts);
      if chat in chats[1..] && counts[chat] > 0 {
        assert (chat, counts[chat]) in rest;
      } else {
        assert !exists r :: r in rest && r.0 == chat;
      }
    }
  }
}
