/**
 Message and read-state rows changed in place, and the loops that count unread messages and pick
 each dialog's last one. The object stands for both tables of a kind: rooms and dialogs alike.
 */
module UnreadService {
  import opened Common
  import opened Unread

  class Service {
    var clock: int
    var posts: seq<Post>
    var marks: Marks

    ghost function View(): Db
      reads this
    {
      Db(clock, posts, marks)
    }

    ghost predicate Valid()
      reads this
    {
      Chronological(posts) && forall p :: p in posts ==> p.createdAt < clock
    }

    constructor (start: int)
      ensures Valid() && View() == Run(start, [])
    {
      clock, posts, marks := start, [], map[];
    }

    method SendMessage(id: MessageId, chat: ChatId, sender: UserId, pause: nat)
      requires Valid()
      modifies this
      ensures Valid() && View() == Step(old(View()), Sent(id, chat, sender), pause)
    {
      if !HasId(posts, id) {
        posts := posts + [Post(id, chat, sender, clock)];
      }
      clock := clock + 1 + pause;
    }

    method DeleteMessage(id: MessageId, pause: nat)
      requires Valid()
      modifies this`clock, this`posts
      ensures Valid() && View() == Step(old(View()), Removed(id), pause)
    {
      WithoutKeepsOrder(posts, {id});
      posts := Without(posts, {id});
      clock := clock + 1 + pause;
    }

    method MarkRead(chat: ChatId, user: UserId, pause: nat)
      requires Valid()
      modifies this`clock, this`marks
      ensures Valid() && View() == Step(old(View()), MarkedRead(chat, user), pause)
    {
      var latest := LatestAt(posts, chat);
      if latest.Some? {
        marks := marks[(chat, user) := latest.value];
      } else {
        marks := marks[(chat, user) := clock];
      }
      clock := clock + 1 + pause;
    }

    method DropReadState(chat: ChatId, user: UserId, pause: nat)
      requires Valid()
      modifies this`clock, this`marks
      ensures Valid() && View() == Step(old(View()), LeftOrBanned(chat, user), pause)
    {
      marks := marks - {(chat, user)};
      clock := clock + 1 + pause;
    }

    /** Deleting a room takes its messages and its read states along. */
    method DeleteChat(chat: ChatId, pause: nat)
      requires Valid()
      modifies this
      ensures Valid() && View() == Step(old(View()), ChatDeleted(chat), pause)
    {
      WithoutKeepsOrder(posts, IdsIn(posts, chat));
      posts := Without(posts, IdsIn(posts, chat));
      marks := map k | k in marks && k.0 != chat :: marks[k];
      clock := clock + 1 + pause;
    }

    /** One pass over the rows of all listed chats fills every chat's counter. */
    method ListUnreadCounts(chats: seq<ChatId>, user: UserId) returns (counts: map<ChatId, nat>)
      requires Valid()
      ensures counts.Keys == set c | c in chats
      ensures forall c :: c in chats ==> counts[c] == |UnreadIds(View(), c, user)|
    {
      counts := map c | c in chats :: 0;
      var i := 0;
      while i < |posts|
        invariant 0 <= i <= |posts|
        invariant counts.Keys == set c | c in chats
        invariant forall c :: c in chats ==> counts[c] == CountUnread(posts[..i], marks, c, user)
      {
        var row := posts[i];
        assert posts[..i + 1][..i] == posts[..i];
        if row.chat in chats && row.sender != user {
          if (row.chat, user) !in marks || row.createdAt > marks[(row.chat, user)] {
            counts := counts[row.chat := counts[row.chat] + 1];
          }
        }
        i := i + 1;
      }
      assert posts[..i] == posts;
      forall c | c in chats ensures counts[c] == |UnreadIds(View(), c, user)| {
        CountIsCardinality(posts, marks, c, user);
      }
    }

    /** The count for a single dialog, from the database query. */
    method GetUnreadCount(chat: ChatId, user: UserId) returns (count: nat)
      requires Valid()
      ensures count == |UnreadIds(View(), chat, user)|
    {
      QueryMatchesLoop(posts, marks, chat, user);
      CountIsCardinality(posts, marks, chat, user);
      count := QueryUnread(posts, marks, chat, user);
    }

    /** The rows come grouped by chat, each chat's newest first; the first row seen stays. */
    method PickLastMessages(rows: seq<Post>) returns (last: map<ChatId, Post>)
      requires forall p :: p in rows <==> p in posts
      requires forall i, j :: 0 <= i < j < |rows| && rows[i].chat == rows[j].chat ==> rows[i].createdAt >= rows[j].createdAt
      ensures forall c :: c in last <==> exists p :: p in posts && p.chat == c
      ensures forall c :: c in last ==> last[c] in posts && last[c].chat == c
      ensures forall p :: p in posts ==> p.createdAt <= last[p.chat].createdAt
    {
      last := map[];
      var i := 0;
      while i < |rows|
        invariant 0 <= i <= |rows|
        invariant forall c :: c in last ==> last[c] in rows[..i] && last[c].chat == c
        invariant forall k :: 0 <= k < i ==> rows[k].chat in last && rows[k].createdAt <= last[rows[k].chat].createdAt
      {
        if rows[i].chat !in last {
          last := last[rows[i].chat := rows[i]];
        }
        i := i + 1;
      }
    }
  }
}
