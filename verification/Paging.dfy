/**
 Paging through a chat's history. The server cuts a window out of the newest-first order and returns
 it oldest first; the client follows the cursors and puts each page in front of what it has.
 Histories are listed in the order of sending.
 */
module Paging {
  import opened Common
  import opened Cursor
  import opened Decimal
  import opened Ordering

  /** The endpoints' window: 50 messages by default, 100 at most. */
  function Window(rawLimit: Option<string>, rawCursor: Option<string>): Result<PageWindow, CursorError> {
    GetPageWindow(rawLimit, rawCursor, 50, 100)
  }

  // ----- The server's page -----

  function Reversed<T>(s: seq<T>): (r: seq<T>)
    ensures |r| == |s| && forall i :: 0 <= i < |s| ==> r[i] == s[|s| - 1 - i]
  {
    if s == [] then [] else Reversed(s[1..]) + [s[0]]
  }

  function Clip(n: int): nat {
    if n < 0 then 0 else n
  }

  function Min(a: nat, b: nat): nat {
    if a < b then a else b
  }

  /** A slice that stops at the end of the list, as Python and SQL cut it. */
  function Slice<T>(s: seq<T>, from: nat, to: nat): (r: seq<T>)
    ensures |r| == Clip(Min(to, |s|) - from)
    ensures forall i :: 0 <= i < |r| ==> r[i] == s[from + i]
  {
    if from >= |s| || to <= from then [] else s[from..Min(to, |s|)]
  }

  /** One row more than asked for tells whether there is a next page. */
  function ListMessageRows<T>(history: seq<T>, page: PageWindow): (seq<T>, bool) {
    var rows := Slice(Reversed(history), page.offset, page.offset + page.limit + 1);
    (Reversed(Slice(rows, 0, page.limit)), |rows| > page.limit)
  }

  /** A page is a stretch of the history counted from its newer end. */
  lemma PageIsStretch<T>(history: seq<T>, page: PageWindow)
    ensures var n := |history|;
            && ListMessageRows(history, page).0 == history[Clip(n - page.offset - page.limit)..Clip(n - page.offset)]
            && ListMessageRows(history, page).1 == (n > page.offset + page.limit)
  {
    hide Slice, Reversed;
    var n := |history|;
    var rows := Slice(Reversed(history), page.offset, page.offset + page.limit + 1);
    var cut := Slice(rows, 0, page.limit);
    var low := Clip(n - page.offset - page.limit);
    forall i | 0 <= i < |cut| ensures Reversed(cut)[i] == history[low + i] {
      var k := |cut| - 1 - i;
      assert cut[k] == rows[k];
      assert rows[k] == Reversed(history)[page.offset + k];
    }
  }

  datatype Reply<T> = Page(rows: seq<T>, nextCursor: Option<string>, limit: nat) | ValidationFailed | ServerFailed

  function NextCursor(page: PageWindow, hasNext: bool): Result<Option<string>, CursorError> {
    EncodeCursor(if hasNext then Some(page.offset + page.limit) else None)
  }

  /** The endpoint: parse the window, list the rows, name the next offset when there is more. */
  function GetMessages<T>(history: seq<T>, rawLimit: Option<string>, rawCursor: Option<string>): Reply<T> {
    var window := Window(rawLimit, rawCursor);
    if window.Failure? then ValidationFailed
    else
      var (rows, hasNext) := ListMessageRows(history, window.value);
      var next := NextCursor(window.value, hasNext);
      if next.Failure? then ServerFailed else Page(rows, next.value, window.value.limit)
  }

  /** Longer numerals belong to larger numbers. */
  lemma {:induction false} TextGrows(m: nat, n: nat)
    requires m <= n
    ensures |Text(m)| <= |Text(n)|
  {
    if m >= 10 {
      TextGrows(m / 10, n / 10);
    }
  }

  lemma NextExactly<T>(history: seq<T>, page: PageWindow)
    ensures ListMessageRows(history, page).1 == (|history| > page.offset + page.limit)
  {
    PageIsStretch(history, page);
  }

  lemma EncodedOffsetMovesWindow(rawLimit: Option<string>, rawCursor: Option<string>, page: PageWindow, next: nat)
    requires Window(rawLimit, rawCursor) == Success(page) && |Text(next)| <= 4300
    ensures EncodeCursor(Some(next)).Success? && EncodeCursor(Some(next)).value.Some?
    ensures Window(rawLimit, EncodeCursor(Some(next)).value) == Success(PageWindow(next, page.limit))
  {
    CursorRoundTrip(next);
    hide EncodeCursor, DecodeCursor, ParseInt, Text;
  }

  /** The last page names no cursor. */
  lemma LastPageHasNoCursor<T>(history: seq<T>, rawLimit: Option<string>, rawCursor: Option<string>, page: PageWindow)
    requires Window(rawLimit, rawCursor) == Success(page) && |history| <= page.offset + page.limit
    ensures GetMessages(history, rawLimit, rawCursor) == Page(ListMessageRows(history, page).0, None, page.limit)
  {
    NextExactly(history, page);
    hide ListMessageRows, Window;
  }

  /**
   Sending back the cursor of a page gets the window right behind it, for every limit the server
   accepts. Only an offset of more than 4300 digits cannot be printed, and fails the request.
   */
  lemma NextCursorNamesNextWindow<T>(history: seq<T>, rawLimit: Option<string>, rawCursor: Option<string>, page: PageWindow)
    requires Window(rawLimit, rawCursor) == Success(page) && |history| > page.offset + page.limit
    ensures var next, reply := page.offset + page.limit, GetMessages(history, rawLimit, rawCursor);
            if |Text(next)| > 4300 then reply == ServerFailed
            else
              && reply.Page? && reply.nextCursor.Some?
              && reply == Page(ListMessageRows(history, page).0, reply.nextCursor, page.limit)
              && Window(rawLimit, reply.nextCursor) == Success(PageWindow(next, page.limit))
  {
    hide ListMessageRows, Window, Text, EncodeCursor, AllDigits;
    NextExactly(history, page);
    CursorRoundTrip(page.offset + page.limit);
    if |Text(page.offset + page.limit)| <= 4300 {
      EncodedOffsetMovesWindow(rawLimit, rawCursor, page, page.offset + page.limit);
    }
  }

  // ----- The client -----

  /** Where the request after k others starts. */
  function OffsetOf(k: nat, limit: nat): nat {
    k * limit
  }

  lemma NextOffset(k: nat, limit: nat)
    ensures OffsetOf(k + 1, limit) == OffsetOf(k, limit) + limit
    ensures OffsetOf(0, limit) == 0
  {
  }

  /** The number of pages of a history; an empty one still takes a request. */
  ghost predicate IsPageCount(requests: nat, n: nat, limit: nat) {
    n <= OffsetOf(requests, limit) && (requests == 1 || (requests > 1 && OffsetOf(requests - 1, limit) < n))
  }

  /** The client's list is the newest part of the history. */
  ghost predicate HasNewest<T>(messages: seq<T>, history: seq<T>, count: nat) {
    count <= |history| && messages == history[|history| - count..]
  }

  /** Every page of the history starts at an offset that can be printed. */
  ghost predicate OffsetsPrint(n: nat, limit: nat) {
    forall k: nat :: OffsetOf(k, limit) < n ==> |Text(OffsetOf(k, limit))| <= 4300
  }

  /** Between two requests: how far the client is, and that the cursor it holds asks for the rest. */
  ghost predicate Loading<T>(history: seq<T>, messages: seq<T>, rawLimit: Option<string>, cursor: Option<string>, page: PageWindow) {
    && Window(rawLimit, cursor) == Success(page) && page.limit > 0
    && HasNewest(messages, history, page.offset)
    && |Text(page.offset)| <= 4300
    && (page.offset == 0 || page.offset < |history|)
  }

  /**
   Opening a chat and loading older pages until there is no cursor rebuilds the whole history in
   order, every message once, in one request for an empty chat and n / limit rounded up otherwise.
   It fails exactly when some page starts at an offset too long to be printed.
   */
  method LoadHistory<T>(history: seq<T>, rawLimit: Option<string>) returns (messages: seq<T>, requests: nat, failed: bool)
    requires Window(rawLimit, None).Success?
    ensures failed <==> !OffsetsPrint(|history|, Window(rawLimit, None).value.limit)
    ensures !failed ==> messages == history && IsPageCount(requests, |history|, Window(rawLimit, None).value.limit)
    ensures failed ==> requests > 0 && HasNewest(messages, history, OffsetOf(requests - 1, Window(rawLimit, None).value.limit))
  {
    ghost var limit := Window(rawLimit, None).value.limit;
    LoadingStarts(history, rawLimit);
    hide *;
    var cursor: Option<string> := None;
    messages, requests, failed := [], 0, false;
    ghost var offset := 0;
    while true
      invariant offset == OffsetOf(requests, limit) && !failed
      invariant Loading(history, messages, rawLimit, cursor, PageWindow(offset, limit))
      decreases |history| - offset
    {
      var reply := GetMessages(history, rawLimit, cursor);
      OneRequest(history, rawLimit, cursor, requests, PageWindow(offset, limit), messages);
      requests := requests + 1;
      if !reply.Page? {
        failed := true;
        break;
      }
      messages := reply.rows + messages;
      if reply.nextCursor.None? {
        break;
      }
      cursor := reply.nextCursor;
      offset := offset + limit;
    }
  }

  lemma LoadingStarts<T>(history: seq<T>, rawLimit: Option<string>)
    requires Window(rawLimit, None).Success?
    ensures Loading(history, [], rawLimit, None, PageWindow(0, Window(rawLimit, None).value.limit))
    ensures OffsetOf(0, Window(rawLimit, None).value.limit) == 0
  {
    assert history[|history|..] == [];
  }

  /** One request puts the next stretch in front, and its cursor asks for the one after. */
  lemma OneRequest<T>(history: seq<T>, rawLimit: Option<string>, cursor: Option<string>, k: nat, page: PageWindow, messages: seq<T>)
    requires Loading(history, messages, rawLimit, cursor, page) && page.offset == OffsetOf(k, page.limit)
    ensures var reply, next := GetMessages(history, rawLimit, cursor), PageWindow(page.offset + page.limit, page.limit);
            && OffsetOf(k + 1, page.limit) == next.offset
            && match reply
               case ServerFailed => !OffsetsPrint(|history|, page.limit) && HasNewest(messages, history, OffsetOf(k, page.limit))
               case ValidationFailed => false
               case Page(rows, None, _) =>
                 && OffsetsPrint(|history|, page.limit)
                 && rows + messages == history && IsPageCount(k + 1, |history|, page.limit)
               case Page(rows, Some(_), _) =>
                 && page.offset < next.offset < |history|
                 && Loading(history, rows + messages, rawLimit, reply.nextCursor, next)
  {
    hide GetMessages, Window, ListMessageRows, Text, HasNewest, OffsetsPrint, IsPageCount, OffsetOf;
    NextOffset(k, page.limit);
    PageJoins(history, page, messages);
    if |history| <= page.offset + page.limit {
      LastPageHasNoCursor(history, rawLimit, cursor, page);
      LastOffsetDecides(|history|, page.limit, k);
      LastPageCounts(k + 1, page.offset, |history|, page.limit);
    } else {
      NextCursorNamesNextWindow(history, rawLimit, cursor, page);
      if |Text(page.offset + page.limit)| > 4300 {
        LongOffsetDecides(|history|, page.limit, k + 1);
      }
    }
  }

  lemma LongOffsetDecides(n: nat, limit: nat, k: nat)
    requires OffsetOf(k, limit) < n && |Text(OffsetOf(k, limit))| > 4300
    ensures !OffsetsPrint(n, limit)
  {
  }

  /** The last page's offset is the longest. */
  lemma LastOffsetDecides(n: nat, limit: nat, k: nat)
    requires n <= OffsetOf(k, limit) + limit && |Text(OffsetOf(k, limit))| <= 4300
    ensures OffsetsPrint(n, limit)
  {
    hide Text;
    forall j: nat | OffsetOf(j, limit) < n ensures |Text(OffsetOf(j, limit))| <= 4300 {
      OffsetsGrow(j, k, limit);
      TextGrows(OffsetOf(j, limit), OffsetOf(k, limit));
    }
  }

  lemma OffsetsGrow(j: nat, k: nat, limit: nat)
    ensures j <= k ==> OffsetOf(j, limit) <= OffsetOf(k, limit)
    ensures j > k ==> OffsetOf(j, limit) >= OffsetOf(k, limit) + limit
  {
    if j <= k {
      assert j * limit <= k * limit;
    } else {
      assert j * limit >= (k + 1) * limit == k * limit + limit;
    }
  }

  lemma LastPageCounts(requests: nat, offset: nat, n: nat, limit: nat)
    requires requests > 0 && offset == OffsetOf(requests - 1, limit)
    requires offset == 0 || offset < n
    requires n <= offset + limit && limit > 0
    ensures IsPageCount(requests, n, limit)
  {
    NextOffset(requests - 1, limit);
    if requests > 1 {
      OffsetPositive(requests - 1, limit);
    }
  }

  lemma OffsetPositive(k: nat, limit: nat)
    requires k > 0 && limit > 0
    ensures OffsetOf(k, limit) > 0
  {
  }

  /** The page at an offset continues the part of the history newer than it. */
  lemma PageJoins<T>(history: seq<T>, page: PageWindow, messages: seq<T>)
    requires HasNewest(messages, history, page.offset)
    ensures var joined := ListMessageRows(history, page).0 + messages;
            if |history| <= page.offset + page.limit then joined == history
            else HasNewest(joined, history, page.offset + page.limit)
  {
    PageIsStretch(history, page);
    var rows := ListMessageRows(history, page).0;
    hide ListMessageRows;
    var n := |history|;
    if n <= page.offset + page.limit {
      assert rows == history[0..n - page.offset];
      assert rows + messages == history;
    } else {
      assert rows == history[n - page.offset - page.limit..n - page.offset];
      assert rows + messages == history[n - (page.offset + page.limit)..];
    }
  }

  // ----- Messages arriving between the requests -----

  /** Each history extends the one before: messages arrive, none is deleted. */
  ghost predicate Growing<T>(histories: seq<seq<T>>) {
    forall i, j :: 0 <= i <= j < |histories| ==> histories[i] <= histories[j]
  }

  /** Every request but the last left a cursor to follow. */
  ghost predicate Followed<T>(histories: seq<seq<T>>, limit: nat) {
    forall i :: 0 <= i < |histories| - 1 ==> |histories[i]| > OffsetOf(i + 1, limit)
  }

  /** The client's list after one request per history, at rising offsets. */
  function Loaded<T>(histories: seq<seq<T>>, limit: nat): seq<T> {
    if histories == [] then []
    else
      var last := |histories| - 1;
      ListMessageRows(histories[last], PageWindow(OffsetOf(last, limit), limit)).0 + Loaded(histories[..last], limit)
  }

  /** What the client has after loading from an index of the current history on. */
  ghost predicate HoldsFrom<T>(loaded: seq<T>, first: seq<T>, now: seq<T>, from: nat) {
    && from <= |now| && |loaded| == |now| - from
    && forall i :: from <= i < |first| ==> first[i] in loaded
  }

  lemma PageAfterArrivals<T>(loaded: seq<T>, first: seq<T>, before: seq<T>, now: seq<T>, page: PageWindow)
    requires first <= before <= now && |before| > page.offset
    requires HoldsFrom(loaded, first, before, |before| - page.offset)
    ensures HoldsFrom(ListMessageRows(now, page).0 + loaded, first, now, Clip(|now| - page.offset - page.limit))
  {
    PageIsStretch(now, page);
    var rows := ListMessageRows(now, page).0;
    hide ListMessageRows;
    var from := Clip(|now| - page.offset - page.limit);
    forall i | from <= i < |first| ensures first[i] in rows + loaded {
      if i < |now| - page.offset {
        assert rows[i - from] == now[i] == first[i];
      }
    }
  }

  /**
   No message known at the first request is skipped: after k requests the list holds everything from
   the oldest row of the last page on. It has as many rows as the last history has from there, so
   each arrival the client did not load stands for one repeated row.
   */
  lemma {:induction false} ArrivalsNeverHideMessages<T>(histories: seq<seq<T>>, limit: nat)
    requires histories != [] && limit > 0 && Growing(histories) && Followed(histories, limit)
    ensures var now := histories[|histories| - 1];
            HoldsFrom(Loaded(histories, limit), histories[0], now, Clip(|now| - OffsetOf(|histories|, limit)))
    decreases |histories|
  {
    var last := |histories| - 1;
    var page := PageWindow(OffsetOf(last, limit), limit);
    NextOffset(last, limit);
    hide OffsetOf, Clip;
    if last > 0 {
      var before := histories[..last];
      ArrivalsNeverHideMessages(before, limit);
      assert |histories[last - 1]| > OffsetOf(last - 1 + 1, limit);
      var loaded := Loaded(before, limit);
      ClipPositive(|histories[last - 1]| - page.offset);
      PageAfterArrivals(loaded, histories[0], histories[last - 1], histories[last], page);
      hide ListMessageRows, HoldsFrom;
    } else {
      assert Loaded(histories, limit) == ListMessageRows(histories[0], page).0;
      FirstPageHolds(histories[0], limit);
    }
  }

  lemma ClipPositive(n: nat)
    ensures Clip(n) == n
  {
  }

  lemma FirstPageHolds<T>(first: seq<T>, limit: nat)
    ensures HoldsFrom(ListMessageRows(first, PageWindow(0, limit)).0, first, first, Clip(|first| - limit))
  {
    PageIsStretch(first, PageWindow(0, limit));
    var rows := ListMessageRows(first, PageWindow(0, limit)).0;
    hide ListMessageRows;
    var from := Clip(|first| - limit);
    forall i | from <= i < |first| ensures first[i] in rows {
      assert rows[i - from] == first[i];
    }
  }

  /** When the last request leaves no cursor, the whole first history is there. */
  lemma FollowingToTheEndCoversHistory<T>(histories: seq<seq<T>>, limit: nat)
    requires histories != [] && limit > 0 && Growing(histories) && Followed(histories, limit)
    requires |histories[|histories| - 1]| <= OffsetOf(|histories|, limit)
    ensures forall m :: m in histories[0] ==> m in Loaded(histories, limit)
    ensures |Loaded(histories, limit)| == |histories[|histories| - 1]|
  {
    ArrivalsNeverHideMessages(histories, limit);
  }

  ghost predicate Distinct<T>(s: seq<T>) {
    forall i, j :: 0 <= i < j < |s| ==> s[i] != s[j]
  }

  /** A later page, or one of a shorter history, cannot hold the newest message. */
  lemma PageMissesNewest<T>(history: seq<T>, now: seq<T>, page: PageWindow)
    requires history <= now && (page.offset > 0 || |history| < |now|) && now != []
    ensures forall m :: m in ListMessageRows(history, page).0 ==> m in now[..|now| - 1]
  {
    PageIsStretch(history, page);
    var rows := ListMessageRows(history, page).0;
    hide ListMessageRows;
    var older := now[..|now| - 1];
    forall m | m in rows ensures m in older {
      var i :| 0 <= i < |rows| && rows[i] == m;
      var at := Clip(|history| - page.offset - page.limit) + i;
      assert history[at] == m;
      assert now[at] == m;
      assert older[at] == m;
    }
  }

  /** A message that arrived after the first request is never the newest row loaded. */
  lemma {:induction false} NewestIsNeverLoaded<T>(histories: seq<seq<T>>, limit: nat, now: seq<T>)
    requires limit > 0 && histories != [] && |histories[0]| < |now|
    requires forall i :: 0 <= i < |histories| ==> histories[i] <= now
    ensures forall m :: m in Loaded(histories, limit) ==> m in now[..|now| - 1]
    decreases |histories|
  {
    var last := |histories| - 1;
    var page := PageWindow(OffsetOf(last, limit), limit);
    hide ListMessageRows;
    if last > 0 {
      OffsetPositive(last, limit);
      PageMissesNewest(histories[last], now, page);
      NewestIsNeverLoaded(histories[..last], limit, now);
    } else {
      PageMissesNewest(histories[0], now, page);
      assert Loaded(histories[..0], limit) == [];
    }
  }

  /**
   Loaded to the end, the list has no message twice exactly when none arrived after the first
   request and before the last.
   */
  lemma NoRepetitionOnceComplete<T>(histories: seq<seq<T>>, limit: nat)
    requires histories != [] && limit > 0 && Growing(histories) && Followed(histories, limit)
    requires |histories[|histories| - 1]| <= OffsetOf(|histories|, limit)
    requires Distinct(histories[|histories| - 1])
    ensures Distinct(Loaded(histories, limit)) <==> histories[0] == histories[|histories| - 1]
  {
    var now, loaded := histories[|histories| - 1], Loaded(histories, limit);
    FollowingToTheEndCoversHistory(histories, limit);
    assert histories[0] <= now;
    hide Loaded, OffsetOf, Distinct;
    if |histories[0]| < |now| {
      NewestIsNeverLoaded(histories, limit, now);
      FewerThanSlots(loaded, now[..|now| - 1]);
    } else {
      FixedHistoryLoadsExactly(histories, limit, now);
    }
  }

  /** More slots than different messages to fill them with: something repeats. */
  lemma FewerThanSlots<T>(list: seq<T>, source: seq<T>)
    requires |list| > |source| && forall m :: m in list ==> m in source
    ensures !Distinct(list)
  {
    DistinctCardinality(list);
    CardinalityAtMost(source);
    assert Elements(list) <= Elements(source);
    SubsetCardinality(Elements(list), Elements(source));
  }

  /** Without arrivals the list is the covered stretch itself. */
  lemma {:induction false} FixedHistoryLoadsExactly<T>(histories: seq<seq<T>>, limit: nat, now: seq<T>)
    requires limit > 0 && forall i :: 0 <= i < |histories| ==> histories[i] == now
    requires Followed(histories, limit)
    ensures var covered := OffsetOf(|histories|, limit);
            if |now| <= covered then Loaded(histories, limit) == now else HasNewest(Loaded(histories, limit), now, covered)
    decreases |histories|
  {
    hide ListMessageRows, OffsetOf;
    NextOffset(0, limit);
    if histories == [] {
      assert now[|now|..] == [];
    } else {
      var last := |histories| - 1;
      var before := histories[..last];
      NextOffset(last, limit);
      FixedHistoryLoadsExactly(before, limit, now);
      assert last > 0 ==> |histories[last - 1]| > OffsetOf(last - 1 + 1, limit);
      assert Loaded(histories, limit) == ListMessageRows(now, PageWindow(OffsetOf(last, limit), limit)).0 + Loaded(before, limit);
      assert last == 0 ==> HasNewest([], now, 0) && Loaded(before, limit) == [];
      PageJoins(now, PageWindow(OffsetOf(last, limit), limit), Loaded(before, limit));
    }
  }

  // ----- What any loading run holds -----

  /** The page the request with this number gets. */
  function PageOf<T>(history: seq<T>, k: nat, limit: nat): seq<T> {
    ListMessageRows(history, PageWindow(OffsetOf(k, limit), limit)).0
  }

  /** A message is as far from the newer end of the history as the request with this number looks. */
  ghost predicate InReach<T>(history: seq<T>, k: nat, limit: nat, m: T) {
    exists i :: 0 <= i < |history| && history[i] == m && OffsetOf(k, limit) <= |history| - 1 - i < OffsetOf(k + 1, limit)
  }

  /** The page as a slice; a request beyond the history gets nothing. */
  lemma PageSlice<T>(history: seq<T>, k: nat, limit: nat)
    ensures var n := |history|;
            PageOf(history, k, limit) ==
            if n > OffsetOf(k, limit) then history[Clip(n - OffsetOf(k + 1, limit))..n - OffsetOf(k, limit)] else []
  {
    NextOffset(k, limit);
    PageIsStretch(history, PageWindow(OffsetOf(k, limit), limit));
    hide ListMessageRows, OffsetOf;
  }

  lemma SliceHas<T>(s: seq<T>, a: nat, b: nat, m: T)
    requires a <= b <= |s|
    ensures m in s[a..b] <==> exists i :: a <= i < b && s[i] == m
  {
    if i :| a <= i < b && s[i] == m {
      assert s[a..b][i - a] == m;
    }
  }

  lemma PageIsReach<T>(history: seq<T>, k: nat, limit: nat, m: T)
    ensures m in PageOf(history, k, limit) <==> InReach(history, k, limit, m)
  {
    NextOffset(k, limit);
    PageSlice(history, k, limit);
    hide PageOf, OffsetOf;
    if |history| > OffsetOf(k, limit) {
      SliceHas(history, Clip(|history| - OffsetOf(k + 1, limit)), |history| - OffsetOf(k, limit), m);
    }
  }

  /**
   Whatever arrives and whatever is deleted between the requests: the client has loaded exactly the
   messages that were within some request's reach when it was made.
   */
  lemma {:induction false} LoadedExactly<T>(histories: seq<seq<T>>, limit: nat, m: T)
    ensures m in Loaded(histories, limit) <==> exists k :: 0 <= k < |histories| && InReach(histories[k], k, limit, m)
    decreases |histories|
  {
    if histories != [] {
      var last := |histories| - 1;
      var before := histories[..last];
      LoadedExactly(before, limit, m);
      PageIsReach(histories[last], last, limit, m);
      assert Loaded(histories, limit) == PageOf(histories[last], last, limit) + Loaded(before, limit);
      hide Loaded, PageOf, InReach;
      if k :| 0 <= k < |before| && InReach(before[k], k, limit, m) {
        assert InReach(histories[k], k, limit, m);
      }
      if k :| 0 <= k < |histories| && InReach(histories[k], k, limit, m) {
        assert k == last || InReach(before[k], k, limit, m);
      }
    }
  }

  /** How many newer messages a history has after this place. */
  function Newer<T>(history: seq<T>, i: nat): nat
    requires i < |history|
  {
    |history| - 1 - i
  }

  /** The message's place in each of the histories. */
  ghost predicate PlacedAt<T>(histories: seq<seq<T>>, places: seq<nat>, m: T) {
    && |places| == |histories|
    && forall j :: 0 <= j < |histories| ==> places[j] < |histories[j]| && histories[j][places[j]] == m
  }

  lemma MissedAt<T>(history: seq<T>, place: nat, k: nat, limit: nat, m: T)
    requires place < |history| && history[place] == m && !InReach(history, k, limit, m)
    ensures Newer(history, place) < OffsetOf(k, limit) || Newer(history, place) >= OffsetOf(k + 1, limit)
  {
  }

  /** Passed by request n without being seen, it was carried past some earlier offset. */
  lemma {:induction false} CarriedPast<T>(histories: seq<seq<T>>, places: seq<nat>, limit: nat, m: T, n: nat) returns (k: nat)
    requires PlacedAt(histories, places, m) && n < |histories|
    requires forall j :: 0 <= j < |histories| ==> !InReach(histories[j], j, limit, m)
    requires Newer(histories[n], places[n]) < OffsetOf(n, limit)
    ensures k < n
    ensures Newer(histories[k + 1], places[k + 1]) < OffsetOf(k + 1, limit) <= Newer(histories[k], places[k])
  {
    NextOffset(0, limit);
    hide OffsetOf, InReach;
    if Newer(histories[n - 1], places[n - 1]) >= OffsetOf(n, limit) {
      k := n - 1;
    } else {
      MissedAt(histories[n - 1], places[n - 1], n - 1, limit, m);
      k := CarriedPast(histories, places, limit, m, n - 1);
    }
  }

  /**
   A message that was there all the time, and that the last request reached or passed, is skipped
   only because deletions of newer messages carried it past an offset between two requests.
   */
  lemma SkippedByDeletions<T>(histories: seq<seq<T>>, places: seq<nat>, limit: nat, m: T) returns (k: nat)
    requires histories != [] && PlacedAt(histories, places, m)
    requires Newer(histories[|histories| - 1], places[|histories| - 1]) < OffsetOf(|histories|, limit)
    requires m !in Loaded(histories, limit)
    ensures k + 1 < |histories|
    ensures Newer(histories[k + 1], places[k + 1]) < OffsetOf(k + 1, limit) <= Newer(histories[k], places[k])
  {
    var last := |histories| - 1;
    LoadedExactly(histories, limit, m);
    hide OffsetOf, InReach, Loaded;
    MissedAt(histories[last], places[last], last, limit, m);
    k := CarriedPast(histories, places, limit, m, last);
  }

  // ----- Rows that repeat -----

  ghost predicate Meet<T>(a: seq<T>, b: seq<T>) {
    exists m :: m in a && m in b
  }

  lemma DistinctConcat<T>(a: seq<T>, b: seq<T>)
    ensures Distinct(a + b) <==> Distinct(a) && Distinct(b) && !Meet(a, b)
  {
    var c := a + b;
    if Distinct(c) {
      assert forall i :: 0 <= i < |b| ==> b[i] == c[|a| + i];
      assert forall i :: 0 <= i < |a| ==> a[i] == c[i];
      forall i, j | 0 <= i < |a| && 0 <= j < |b| ensures a[i] != b[j] {
        assert c[i] != c[|a| + j];
      }
    }
    if Distinct(a) && Distinct(b) && !Meet(a, b) {
      forall i, j | 0 <= i < j < |c| ensures c[i] != c[j] {
        if i < |a| <= j {
          assert c[i] in a && c[j] == b[j - |a|] && c[j] in b;
        }
      }
    }
  }

  lemma SlicesMeet<T>(s: seq<T>, a: nat, b: nat, c: nat, d: nat)
    requires Distinct(s) && a < b <= |s| && c < d <= |s|
    ensures Meet(s[a..b], s[c..d]) <==> a < d && c < b
  {
    if a < d && c < b {
      var i := if a < c then c else a;
      assert s[a..b][i - a] == s[i] && s[c..d][i - c] == s[i];
      assert s[i] in s[a..b] && s[i] in s[c..d];
    }
    if m :| m in s[a..b] && m in s[c..d] {
      var i :| a <= i < b && s[i] == m;
      var j :| c <= j < d && s[j] == m;
      assert i == j;
    }
  }

  /**
   The arrivals between two requests have moved the later page onto the earlier one: more than bridge
   the pages in between, and fewer than carry it beyond.
   */
  predicate FallsOnto<T>(histories: seq<seq<T>>, j: nat, k: nat, limit: nat)
    requires j < k < |histories|
  {
    OffsetOf(k - j - 1, limit) < |histories[k]| - |histories[j]| < OffsetOf(k - j + 1, limit)
  }

  lemma OffsetsApart(j: nat, k: nat, limit: nat)
    requires j < k
    ensures OffsetOf(k, limit) == OffsetOf(j + 1, limit) + OffsetOf(k - j - 1, limit)
    ensures OffsetOf(k + 1, limit) == OffsetOf(j, limit) + OffsetOf(k - j + 1, limit)
  {
    assert k * limit == (j + 1) * limit + (k - j - 1) * limit;
    assert (k + 1) * limit == j * limit + (k - j + 1) * limit;
  }

  lemma IntervalsMeet(now: nat, earlier: nat, j: nat, k: nat, limit: nat)
    requires limit > 0 && j < k && earlier > OffsetOf(j + 1, limit) && now > OffsetOf(k, limit)
    ensures OffsetOf(j, limit) <= OffsetOf(j + 1, limit)
    ensures var a, b := Clip(earlier - OffsetOf(j + 1, limit)), earlier - OffsetOf(j, limit);
            var c, d := Clip(now - OffsetOf(k + 1, limit)), now - OffsetOf(k, limit);
            && a < b <= earlier && c < d <= now
            && (a < d && c < b <==> OffsetOf(k - j - 1, limit) < now - earlier < OffsetOf(k - j + 1, limit))
  {
    OffsetsApart(j, k, limit);
    NextOffset(j, limit);
    NextOffset(k, limit);
    hide OffsetOf;
  }

  lemma PrefixSlice<T>(prefix: seq<T>, s: seq<T>, a: nat, b: nat)
    requires prefix <= s && a <= b <= |prefix|
    ensures prefix[a..b] == s[a..b]
  {
  }

  lemma PagesMeetExactly<T>(now: seq<T>, earlier: seq<T>, limit: nat, j: nat, k: nat)
    requires limit > 0 && Distinct(now) && earlier <= now
    requires j < k && |earlier| > OffsetOf(j + 1, limit) && |now| > OffsetOf(k, limit)
    ensures Meet(PageOf(earlier, j, limit), PageOf(now, k, limit)) <==>
            OffsetOf(k - j - 1, limit) < |now| - |earlier| < OffsetOf(k - j + 1, limit)
  {
    hide *;
    IntervalsMeet(|now|, |earlier|, j, k, limit);
    PageSlice(earlier, j, limit);
    PageSlice(now, k, limit);
    var a, b := Clip(|earlier| - OffsetOf(j + 1, limit)), |earlier| - OffsetOf(j, limit);
    PrefixSlice(earlier, now, a, b);
    SlicesMeet(now, a, b, Clip(|now| - OffsetOf(k + 1, limit)), |now| - OffsetOf(k, limit));
  }

  lemma FallsExactly<T>(histories: seq<seq<T>>, limit: nat, j: nat, k: nat)
    requires limit > 0 && Growing(histories) && Followed(histories, limit)
    requires j < k < |histories| && Distinct(histories[k])
    ensures Meet(PageOf(histories[j], j, limit), PageOf(histories[k], k, limit)) <==> FallsOnto(histories, j, k, limit)
  {
    hide PageOf, Meet, OffsetOf, Distinct;
    assert histories[j] <= histories[k] && histories[k - 1] <= histories[k];
    assert |histories[j]| > OffsetOf(j + 1, limit) && |histories[k - 1]| > OffsetOf(k - 1 + 1, limit);
    PagesMeetExactly(histories[k], histories[j], limit, j, k);
  }

  lemma PageIsDistinct<T>(history: seq<T>, k: nat, limit: nat)
    requires Distinct(history)
    ensures Distinct(PageOf(history, k, limit))
  {
    PageIsStretch(history, PageWindow(OffsetOf(k, limit), limit));
    hide ListMessageRows;
  }

  /** A page shares a message with one of the first n pages. */
  ghost predicate MeetsAny<T>(before: seq<seq<T>>, limit: nat, page: seq<T>, n: nat)
    requires n <= |before|
  {
    exists j :: 0 <= j < n && Meet(PageOf(before[j], j, limit), page)
  }

  lemma MeetsAnyOfPrefix<T>(before: seq<seq<T>>, limit: nat, page: seq<T>, n: nat)
    requires n <= |before|
    ensures MeetsAny(before[..n], limit, page, n) <==> MeetsAny(before, limit, page, n)
  {
    hide PageOf, Meet;
    forall j | 0 <= j < n ensures before[..n][j] == before[j] {}
  }

  lemma MeetsOneMore<T>(before: seq<seq<T>>, limit: nat, page: seq<T>, n: nat)
    requires n < |before|
    ensures MeetsAny(before, limit, page, n + 1) <==> MeetsAny(before, limit, page, n) || Meet(PageOf(before[n], n, limit), page)
  {
    hide PageOf, Meet;
  }

  /** A page shares a message with the list exactly when it shares one with some earlier page. */
  lemma {:induction false} MeetsSomePage<T>(before: seq<seq<T>>, limit: nat, page: seq<T>)
    ensures Meet(page, Loaded(before, limit)) <==> MeetsAny(before, limit, page, |before|)
    decreases |before|
  {
    if before != [] {
      var last := |before| - 1;
      assert Loaded(before, limit) == PageOf(before[last], last, limit) + Loaded(before[..last], limit);
      hide Loaded, PageOf, Meet, MeetsAny;
      MeetsSomePage(before[..last], limit, page);
      MeetsAnyOfPrefix(before, limit, page, last);
      MeetsOneMore(before, limit, page, last);
      MeetConcat(page, PageOf(before[last], last, limit), Loaded(before[..last], limit));
    }
  }

  lemma MeetConcat<T>(page: seq<T>, a: seq<T>, b: seq<T>)
    ensures Meet(page, a + b) <==> Meet(a, page) || Meet(page, b)
  {
    if Meet(a, page) {
      var m :| m in a && m in page;
      assert m in a + b;
    }
    if Meet(page, b) {
      var m :| m in page && m in b;
      assert m in a + b;
    }
  }

  /** The last page repeats nothing exactly when it did not fall onto an earlier one. */
  lemma LastPageRepeatsExactly<T>(histories: seq<seq<T>>, limit: nat)
    requires histories != [] && limit > 0 && Growing(histories) && Followed(histories, limit)
    requires Distinct(histories[|histories| - 1])
    ensures var last := |histories| - 1;
            Distinct(Loaded(histories, limit)) <==>
            && Distinct(Loaded(histories[..last], limit))
            && forall j :: 0 <= j < last ==> !FallsOnto(histories, j, last, limit)
  {
    var last := |histories| - 1;
    var page := PageOf(histories[last], last, limit);
    assert Loaded(histories, limit) == page + Loaded(histories[..last], limit);
    hide Distinct, Growing, Followed, FallsOnto, PageOf, Loaded, Meet;
    PageIsDistinct(histories[last], last, limit);
    DistinctConcat(page, Loaded(histories[..last], limit));
    MeetsSomePage(histories[..last], limit, page);
    MeetsAnyOfPrefix(histories, limit, page, last);
    forall j | 0 <= j < last ensures Meet(PageOf(histories[j], j, limit), page) <==> FallsOnto(histories, j, last, limit) {
      FallsExactly(histories, limit, j, last);
    }
  }

  /** No later one of the first n pages fell onto an earlier one. */
  ghost predicate NeverFalls<T>(histories: seq<seq<T>>, n: nat, limit: nat)
    requires n <= |histories|
  {
    forall j, k :: 0 <= j < k < n ==> !FallsOnto(histories, j, k, limit)
  }

  lemma NeverFallsInPrefix<T>(histories: seq<seq<T>>, n: nat, limit: nat)
    requires n <= |histories|
    ensures NeverFalls(histories[..n], n, limit) <==> NeverFalls(histories, n, limit)
  {
    forall j, k | 0 <= j < k < n ensures FallsOnto(histories[..n], j, k, limit) <==> FallsOnto(histories, j, k, limit) {}
    hide FallsOnto;
  }

  lemma NeverFallsNext<T>(histories: seq<seq<T>>, n: nat, limit: nat)
    requires n < |histories|
    ensures NeverFalls(histories, n + 1, limit) <==>
            NeverFalls(histories, n, limit) && forall j :: 0 <= j < n ==> !FallsOnto(histories, j, n, limit)
  {
    hide FallsOnto;
  }

  /**
   After any number of pages the list has no message twice exactly when the arrivals never moved a
   later page onto an earlier one.
   */
  lemma {:induction false} NoRepetitionExactly<T>(histories: seq<seq<T>>, limit: nat)
    requires limit > 0 && Growing(histories) && Followed(histories, limit)
    requires histories != [] ==> Distinct(histories[|histories| - 1])
    ensures Distinct(Loaded(histories, limit)) <==> NeverFalls(histories, |histories|, limit)
    decreases |histories|
  {
    if histories != [] {
      var last := |histories| - 1;
      EarlierRequests(histories, limit);
      LastPageRepeatsExactly(histories, limit);
      NeverFallsNext(histories, last, limit);
      hide Distinct, Growing, Followed, FallsOnto, Loaded, NeverFalls;
      NoRepetitionExactly(histories[..last], limit);
      NeverFallsInPrefix(histories, last, limit);
    }
  }

  lemma EarlierRequests<T>(histories: seq<seq<T>>, limit: nat)
    requires histories != [] && Growing(histories) && Followed(histories, limit) && Distinct(histories[|histories| - 1])
    ensures var before := histories[..|histories| - 1];
            Growing(before) && Followed(before, limit) && (before != [] ==> Distinct(before[|before| - 1]))
  {
    hide OffsetOf;
    var last := |histories| - 1;
    assert last > 0 ==> histories[last - 1] <= histories[last];
  }

  /** One arrival between two requests for two messages each: the second page starts with a row already loaded. */
  lemma ArrivalRepeatsARow()
    ensures Loaded([[0, 1, 2], [0, 1, 2, 3]], 2) == [0, 1, 1, 2]
  {
    var histories: seq<seq<int>> := [[0, 1, 2], [0, 1, 2, 3]];
    PageIsStretch(histories[0], PageWindow(0, 2));
    PageIsStretch(histories[1], PageWindow(2, 2));
    hide ListMessageRows;
    assert histories[..1] == [[0, 1, 2]] && histories[..1][..0] == [];
    assert Loaded(histories[..1], 2) == [1, 2];
  }

  /** The newest message is deleted after the first page was loaded: the second page skips a message. */
  lemma DeletionSkipsAMessage()
    ensures Loaded([[0, 1, 2, 3], [0, 1, 2]], 2) == [0, 2, 3]
  {
    var histories: seq<seq<int>> := [[0, 1, 2, 3], [0, 1, 2]];
    PageIsStretch(histories[0], PageWindow(0, 2));
    PageIsStretch(histories[1], PageWindow(2, 2));
    hide ListMessageRows;
    assert histories[..1] == [[0, 1, 2, 3]] && histories[..1][..0] == [];
    assert Loaded(histories[..1], 2) == [2, 3];
  }

  // ----- A message deleted between two requests -----

  /** Some message from an index on was neither loaded before nor is it on the page. */
  ghost predicate Skips<T>(history: seq<T>, from: nat, loaded: seq<T>, page: seq<T>) {
    exists i :: from <= i < |history| && history[i] !in loaded && history[i] !in page
  }

  /**
   Offsets do shift under a deletion: when a message is deleted after everything from an offset on
   was loaded, the next page skips a message exactly when the deleted one was among the loaded.
   */
  lemma DeletionSkipsExactly<T>(history: seq<T>, left: seq<T>, offset: nat, limit: nat, j: nat)
    requires Distinct(history) && 0 < offset < |history| && limit > 0 && j < |history|
    requires left == history[..j] + history[j + 1..]
    ensures
      Skips(left, Clip(|left| - offset - limit), history[|history| - offset..], ListMessageRows(left, PageWindow(offset, limit)).0)
      <==> j >= |history| - offset
  {
    var low := Clip(|left| - offset - limit);
    PageWithinHistory(left, PageWindow(offset, limit));
    hide ListMessageRows, Distinct, Skips, Clip;
    if j >= |history| - offset {
      DeletedFromLoaded(history, left, offset, j, low);
    } else {
      DeletedElsewhere(history, left, offset, j, low);
    }
  }

  lemma PageWithinHistory<T>(history: seq<T>, page: PageWindow)
    requires page.offset <= |history|
    ensures ListMessageRows(history, page).0 == history[Clip(|history| - page.offset - page.limit)..|history| - page.offset]
    ensures Clip(|history| - page.offset - page.limit) <= |history| - page.offset
  {
    PageIsStretch(history, page);
    hide ListMessageRows;
  }

  lemma DeletedFromLoaded<T>(history: seq<T>, left: seq<T>, offset: nat, j: nat, low: nat)
    requires Distinct(history) && 0 < offset < |history| && |history| - offset <= j < |history|
    requires left == history[..j] + history[j + 1..] && low <= |left| - offset
    ensures Skips(left, low, history[|history| - offset..], left[low..|left| - offset])
  {
    var skipped := |left| - offset;
    assert left[skipped] == history[skipped];
    assert left[low..skipped] == history[low..skipped];
    assert left[skipped] !in history[|history| - offset..] && left[skipped] !in left[low..skipped];
  }

  lemma DeletedElsewhere<T>(history: seq<T>, left: seq<T>, offset: nat, j: nat, low: nat)
    requires 0 < offset < |history| && j < |history| - offset
    requires left == history[..j] + history[j + 1..] && low <= |left| - offset
    ensures !Skips(left, low, history[|history| - offset..], left[low..|left| - offset])
  {
    var high := |left| - offset;
    var loaded, page := history[high + 1..], left[low..high];
    forall i | low <= i < |left| ensures left[i] in loaded || left[i] in page {
      if i < high {
        assert page[i - low] == left[i];
      } else {
        assert loaded[i - high] == left[i];
      }
    }
  }
}
