/**
 The client's message list: live events are merged into a list kept in the order of the creation
 times' texts. The reference is the latest version of each message that was not deleted.
 */
module MessageList {
  import opened Common
  import opened Ordering
  import opened Timestamps

  type MessageId = nat

  datatype Message = Message(id: MessageId, createdAt: Stamp, body: string)

  datatype Event = Upserted(message: Message) | Deleted(id: MessageId)

  // ----- The reducer -----

  predicate ComesBefore(a: Message, b: Message) {
    Printable(a.createdAt) && Printable(b.createdAt) && StringLess(StampText(a.createdAt), StampText(b.createdAt))
  }

  function FindIndex(list: seq<Message>, id: MessageId): (r: Option<nat>)
    ensures r.None? <==> forall i :: 0 <= i < |list| ==> list[i].id != id
    ensures r.Some? ==> r.value < |list| && list[r.value].id == id && forall i :: 0 <= i < r.value ==> list[i].id != id
  {
    if list == [] then None
    else if list[0].id == id then Some(0)
    else
      var rest := FindIndex(list[1..], id);
      if rest.None? then None else Some(rest.value + 1)
  }

  /** Places a message behind those that do not come after it. */
  function Insert(sorted: seq<Message>, m: Message): seq<Message> {
    if sorted != [] && ComesBefore(m, sorted[|sorted| - 1]) then
      Insert(sorted[..|sorted| - 1], m) + [sorted[|sorted| - 1]]
    else sorted + [m]
  }

  /** The stable sort of the runtime. */
  function Sorted(list: seq<Message>): seq<Message> {
    if list == [] then [] else Insert(Sorted(list[..|list| - 1]), list[|list| - 1])
  }

  function UpsertMessage(list: seq<Message>, m: Message): seq<Message> {
    var i := FindIndex(list, m.id);
    if i.Some? then Sorted(list[i.value := m]) else Sorted(list + [m])
  }

  function RemoveMessage(list: seq<Message>, id: MessageId): (r: seq<Message>)
    ensures forall m :: m in r <==> m in list && m.id != id
  {
    if list == [] then []
    else
      var rest := RemoveMessage(list[1..], id);
      assert list == [list[0]] + list[1..];
      if list[0].id == id then rest else [list[0]] + rest
  }

  function Apply(list: seq<Message>, e: Event): seq<Message> {
    match e
    case Upserted(m) => UpsertMessage(list, m)
    case Deleted(id) => RemoveMessage(list, id)
  }

  function Run(events: seq<Event>): seq<Message> {
    if events == [] then [] else Apply(Run(events[..|events| - 1]), events[|events| - 1])
  }

  // ----- The reference model -----

  type Versions = map<MessageId, Message>

  /** The latest version of every message that is left. */
  function Latest(events: seq<Event>): Versions {
    if events == [] then map[]
    else
      var before := Latest(events[..|events| - 1]);
      match events[|events| - 1]
      case Upserted(m) => before[m.id := m]
      case Deleted(id) => before - {id}
  }

  /** Versions of a message share its creation time, and no two messages have the same one. */
  ghost predicate ConsistentTimes(events: seq<Event>) {
    forall i, j :: 0 <= i < |events| && 0 <= j < |events| && events[i].Upserted? && events[j].Upserted? ==>
      var a, b := events[i].message, events[j].message;
      Printable(a.createdAt) && (a.id == b.id <==> a.createdAt == b.createdAt)
  }

  ghost predicate Holds(list: seq<Message>, versions: Versions) {
    && (forall m :: m in list ==> m.id in versions && versions[m.id] == m)
    && (forall id :: id in versions ==> versions[id] in list && versions[id].id == id)
  }

  /** The list holds exactly these versions, in the order of the texts, each once. */
  ghost predicate Lists(list: seq<Message>, versions: Versions) {
    SortedBy(ComesBefore, list) && Holds(list, versions)
  }

  // ----- Sorting -----

  lemma ComesBeforeIsStrict()
    ensures StrictOrder(ComesBefore)
  {
    forall a ensures !ComesBefore(a, a) {
      if Printable(a.createdAt) {
        StringTrichotomy(StampText(a.createdAt), StampText(a.createdAt));
      }
    }
    forall a, b, c | ComesBefore(a, b) && ComesBefore(b, c) ensures ComesBefore(a, c) {
      StringTransitive(StampText(a.createdAt), StampText(b.createdAt), StampText(c.createdAt));
    }
  }

  lemma DifferentTimesCompare(a: Message, b: Message)
    requires Printable(a.createdAt) && Printable(b.createdAt) && a.createdAt != b.createdAt
    ensures ComesBefore(a, b) || ComesBefore(b, a)
  {
    TextTellsTimesApart(a.createdAt, b.createdAt);
    StringTrichotomy(StampText(a.createdAt), StampText(b.createdAt));
  }

  /** Printable times, each once. */
  predicate TimesDiffer(list: seq<Message>) {
    && (forall i :: 0 <= i < |list| ==> Printable(list[i].createdAt))
    && (forall i, j :: 0 <= i < j < |list| ==> list[i].createdAt != list[j].createdAt)
  }

  lemma {:induction false} InsertSorts(sorted: seq<Message>, m: Message)
    requires SortedBy(ComesBefore, sorted) && Printable(m.createdAt)
    requires forall x :: x in sorted ==> Printable(x.createdAt) && x.createdAt != m.createdAt
    ensures SortedBy(ComesBefore, Insert(sorted, m))
    ensures forall x :: x in Insert(sorted, m) <==> x in sorted || x == m
  {
    ComesBeforeIsStrict();
    if sorted != [] {
      var init, last := sorted[..|sorted| - 1], sorted[|sorted| - 1];
      assert sorted == init + [last];
      if ComesBefore(m, last) {
        InsertSorts(init, m);
        LastStays(Insert(init, m), last);
      } else {
        DifferentTimesCompare(m, last);
        forall x | x in init ensures ComesBefore(x, m) {
          assert ComesBefore(x, last);
        }
        LastStays(sorted, m);
      }
    }
  }

  lemma LastStays(init: seq<Message>, last: Message)
    requires SortedBy(ComesBefore, init) && forall x :: x in init ==> ComesBefore(x, last)
    ensures SortedBy(ComesBefore, init + [last])
  {
  }

  lemma {:induction false} SortedSorts(list: seq<Message>)
    requires TimesDiffer(list)
    ensures SortedBy(ComesBefore, Sorted(list))
    ensures forall x :: x in Sorted(list) <==> x in list
  {
    if list != [] {
      var init, last := list[..|list| - 1], list[|list| - 1];
      assert list == init + [last];
      SortedSorts(init);
      InsertSorts(Sorted(init), last);
    }
  }

  // ----- One event -----

  lemma ListsHasUniqueIds(list: seq<Message>, versions: Versions)
    requires Lists(list, versions)
    ensures UniqueIds(list)
  {
    ComesBeforeIsStrict();
    forall i, j | 0 <= i < j < |list| ensures list[i].id != list[j].id {
      assert ComesBefore(list[i], list[j]) && !ComesBefore(list[i], list[i]);
      assert list[i] in list && list[j] in list;
    }
  }

  lemma ListedTimesDiffer(list: seq<Message>)
    requires SortedBy(ComesBefore, list) && forall i :: 0 <= i < |list| ==> Printable(list[i].createdAt)
    ensures TimesDiffer(list)
  {
    ComesBeforeIsStrict();
    forall i, j | 0 <= i < j < |list| ensures list[i].createdAt != list[j].createdAt {
      assert ComesBefore(list[i], list[j]) && !ComesBefore(list[i], list[i]);
    }
  }

  predicate UniqueIds(list: seq<Message>) {
    forall i, j :: 0 <= i < j < |list| ==> list[i].id != list[j].id
  }

  /** The new version fits in with the others. */
  predicate Fits(list: seq<Message>, m: Message) {
    && Printable(m.createdAt)
    && forall x :: x in list ==> Printable(x.createdAt) && (x.id == m.id <==> x.createdAt == m.createdAt)
  }

  lemma ReplaceInPlace(list: seq<Message>, k: nat, m: Message)
    requires TimesDiffer(list) && UniqueIds(list) && Fits(list, m) && k < |list| && list[k].id == m.id
    ensures TimesDiffer(list[k := m])
    ensures forall x :: x in list[k := m] <==> x == m || (x in list && x.id != m.id)
  {
    var replaced := list[k := m];
    assert list[k] in list;
    assert replaced[k] == m;
    forall x | x in list && x.id != m.id ensures x in replaced {
      var i :| 0 <= i < |list| && list[i] == x;
      assert replaced[i] == x;
    }
    forall x | x in replaced ensures x == m || (x in list && x.id != m.id) {
      var i :| 0 <= i < |list| && replaced[i] == x;
      assert i != k ==> list[i] == x;
    }
  }

  lemma AppendNew(list: seq<Message>, m: Message)
    requires TimesDiffer(list) && Fits(list, m) && forall i :: 0 <= i < |list| ==> list[i].id != m.id
    ensures TimesDiffer(list + [m])
    ensures forall x :: x in list + [m] <==> x == m || (x in list && x.id != m.id)
  {
    assert forall i :: 0 <= i < |list| ==> list[i] in list;
  }

  /** Merging puts the new version in place of any older one and sorts. */
  lemma UpsertSorts(list: seq<Message>, m: Message)
    requires TimesDiffer(list) && UniqueIds(list) && Fits(list, m)
    ensures SortedBy(ComesBefore, UpsertMessage(list, m))
    ensures forall x :: x in UpsertMessage(list, m) <==> x == m || (x in list && x.id != m.id)
  {
    hide TimesDiffer, UniqueIds, Fits, SortedBy, Sorted, ComesBefore;
    var found := FindIndex(list, m.id);
    if found.Some? {
      ReplaceInPlace(list, found.value, m);
      SortedSorts(list[found.value := m]);
    } else {
      AppendNew(list, m);
      SortedSorts(list + [m]);
    }
  }

  lemma UpsertLists(list: seq<Message>, versions: Versions, m: Message)
    requires Lists(list, versions) && Fits(list, m)
    ensures Lists(UpsertMessage(list, m), versions[m.id := m])
  {
    hide UpsertMessage, SortedBy, ComesBefore, Printable;
    ListsHasUniqueIds(list, versions);
    assert forall i :: 0 <= i < |list| ==> list[i] in list;
    ListedTimesDiffer(list);
    UpsertSorts(list, m);
  }

  lemma FirstStays(first: Message, rest: seq<Message>)
    requires SortedBy(ComesBefore, rest) && forall x :: x in rest ==> ComesBefore(first, x)
    ensures SortedBy(ComesBefore, [first] + rest)
  {
  }

  lemma {:induction false} RemoveKeepsSorted(list: seq<Message>, id: MessageId)
    requires SortedBy(ComesBefore, list)
    ensures SortedBy(ComesBefore, RemoveMessage(list, id))
  {
    if list != [] {
      RemoveKeepsSorted(list[1..], id);
      forall x | x in list[1..] ensures ComesBefore(list[0], x) {
        var i :| 0 <= i < |list[1..]| && list[1..][i] == x;
        assert ComesBefore(list[0], list[i + 1]);
      }
      hide ComesBefore, SortedBy;
      FirstStays(list[0], RemoveMessage(list[1..], id));
    }
  }

  lemma RemovingLists(list: seq<Message>, versions: Versions, id: MessageId)
    requires Lists(list, versions)
    ensures Lists(RemoveMessage(list, id), versions - {id})
  {
    hide SortedBy, ComesBefore;
    RemoveKeepsSorted(list, id);
  }

  // ----- Runs -----

  lemma {:induction false} LatestIsFromEvents(events: seq<Event>)
    ensures var latest := Latest(events);
            forall id :: id in latest ==> latest[id].id == id && Upserted(latest[id]) in events
  {
    if events != [] {
      var before, last := events[..|events| - 1], events[|events| - 1];
      LatestIsFromEvents(before);
      assert events == before + [last];
      forall id | id in Latest(events) ensures Latest(events)[id].id == id && Upserted(Latest(events)[id]) in events {
        assert last == Upserted(Latest(events)[id]) || id in Latest(before);
      }
    }
  }

  lemma EarlierTimesAgree(events: seq<Event>)
    requires events != [] && ConsistentTimes(events)
    ensures ConsistentTimes(events[..|events| - 1])
  {
    hide Printable;
  }

  lemma NothingIsListed()
    ensures Holds([], map[]) && Lists([], map[])
  {
  }

  /**
   After any run of created, updated and deleted events the list shows exactly the latest versions,
   sorted by their times' texts and without duplicates.
   */
  lemma {:induction false} RunListsLatest(events: seq<Event>)
    requires ConsistentTimes(events)
    ensures Lists(Run(events), Latest(events))
  {
    if events != [] {
      var before, event := events[..|events| - 1], events[|events| - 1];
      EarlierTimesAgree(events);
      hide Lists, UpsertMessage, RemoveMessage, ConsistentTimes, Fits;
      RunListsLatest(before);
      match event
      case Upserted(m) =>
        SeenTimesAgree(events, m);
        UpsertLists(Run(before), Latest(before), m);
      case Deleted(id) =>
        RemovingLists(Run(before), Latest(before), id);
    } else {
      NothingIsListed();
    }
  }

  lemma SeenTimesAgree(events: seq<Event>, m: Message)
    requires events != [] && events[|events| - 1] == Upserted(m) && ConsistentTimes(events)
    requires Lists(Run(events[..|events| - 1]), Latest(events[..|events| - 1]))
    ensures Fits(Run(events[..|events| - 1]), m)
  {
    var before := events[..|events| - 1];
    LatestIsFromEvents(before);
    forall x | x in Run(before) ensures Printable(x.createdAt) && (x.id == m.id <==> x.createdAt == m.createdAt) {
      assert Upserted(Latest(before)[x.id]) in before;
      var i :| 0 <= i < |before| && before[i] == Upserted(x);
      assert events[i] == Upserted(x);
    }
  }

  /** The latest versions determine the list. */
  lemma SameLatestSameList(events: seq<Event>, others: seq<Event>)
    requires ConsistentTimes(events) && ConsistentTimes(others)
    requires Latest(events) == Latest(others)
    ensures Run(events) == Run(others)
  {
    RunListsLatest(events);
    RunListsLatest(others);
    ComesBeforeIsStrict();
    assert Elements(Run(events)) == Elements(Run(others));
    SortedListingUnique(ComesBefore, Run(events), Run(others));
  }

  /** Only created events, each message in one version. */
  ghost predicate OnlyCreations(events: seq<Event>) {
    && ConsistentTimes(events)
    && (forall e :: e in events ==> e.Upserted?)
    && forall a, b :: a in events && b in events && a.message.id == b.message.id ==> a == b
  }

  lemma {:induction false} LatestOfCreations(events: seq<Event>)
    requires OnlyCreations(events)
    ensures forall e :: e in events ==> e.message.id in Latest(events) && Latest(events)[e.message.id] == e.message
    ensures forall id :: id in Latest(events) ==> Upserted(Latest(events)[id]) in events && Latest(events)[id].id == id
  {
    if events != [] {
      var before, last := events[..|events| - 1], events[|events| - 1];
      assert events == before + [last];
      LatestOfCreations(before);
    }
  }

  /**
   Merging the same finite set of created messages gives the same list for every order and
   repetition, sorted by the times' texts and with every message once.
   */
  lemma MergingIgnoresOrderAndRepetition(events: seq<Event>, others: seq<Event>)
    requires OnlyCreations(events) && OnlyCreations(others) && Elements(events) == Elements(others)
    ensures Run(events) == Run(others)
    ensures SortedBy(ComesBefore, Run(events))
    ensures forall m :: m in Run(events) <==> Upserted(m) in events
  {
    LatestOfCreations(events);
    LatestOfCreations(others);
    forall e ensures e in events <==> e in others {
      assert e in Elements(events) <==> e in Elements(others);
    }
    assert Latest(events) == Latest(others);
    SameLatestSameList(events, others);
    RunListsLatest(events);
    hide ConsistentTimes, SortedBy, ComesBefore;
    forall m ensures m in Run(events) <==> Upserted(m) in events {
    }
  }

  // ----- Order of time -----

  predicate AllPrintable(list: seq<Message>) {
    forall i :: 0 <= i < |list| ==> Printable(list[i].createdAt)
  }

  predicate InTimeOrder(list: seq<Message>)
    requires AllPrintable(list)
  {
    forall i, j :: 0 <= i < j < |list| ==> Earlier(list[i].createdAt, list[j].createdAt)
  }

  predicate NoClash(list: seq<Message>) {
    forall i, j :: 0 <= i < j < |list| ==> !Clash(list[i].createdAt, list[j].createdAt)
  }

  lemma SortedIsInTimeOrderExactly(list: seq<Message>)
    requires SortedBy(ComesBefore, list) && AllPrintable(list)
    ensures InTimeOrder(list) <==> NoClash(list)
  {
    forall i, j | 0 <= i < j < |list|
      ensures Earlier(list[i].createdAt, list[j].createdAt) <==> !Clash(list[i].createdAt, list[j].createdAt)
    {
      assert ComesBefore(list[i], list[j]);
      TextOrderIsTimeOrderExactly(list[i].createdAt, list[j].createdAt);
    }
    hide Earlier, Clash, ComesBefore, SortedBy, Printable;
  }

  lemma RunIsPrintable(events: seq<Event>)
    requires ConsistentTimes(events)
    ensures AllPrintable(Run(events))
  {
    RunListsLatest(events);
    LatestIsFromEvents(events);
    var list := Run(events);
    forall i | 0 <= i < |list| ensures Printable(list[i].createdAt) {
      assert list[i] in list;
      assert Upserted(list[i]) in events;
    }
  }

  lemma ListedClashes(list: seq<Message>, versions: Versions)
    requires Lists(list, versions)
    ensures NoClash(list) <==> forall a, b :: a in versions && b in versions ==> !Clash(versions[a].createdAt, versions[b].createdAt)
  {
    hide SortedBy, ComesBefore;
    if NoClash(list) {
      forall a, b | a in versions && b in versions ensures !Clash(versions[a].createdAt, versions[b].createdAt) {
        var i :| 0 <= i < |list| && list[i] == versions[a];
        var j :| 0 <= j < |list| && list[j] == versions[b];
        assert i < j ==> !Clash(list[i].createdAt, list[j].createdAt);
        assert j < i ==> !Clash(list[j].createdAt, list[i].createdAt);
      }
    }
    assert forall i :: 0 <= i < |list| ==> list[i] in list;
  }

  /**
   The list is in order of time exactly when, of the messages the events leave, no two belong to one
   second with one of them created on the whole second: that one prints no microseconds and sorts
   behind the others.
   */
  lemma TimeOrderExactly(events: seq<Event>)
    requires ConsistentTimes(events)
    ensures AllPrintable(Run(events))
    ensures InTimeOrder(Run(events)) <==>
            forall a, b :: a in Latest(events) && b in Latest(events) ==>
              !Clash(Latest(events)[a].createdAt, Latest(events)[b].createdAt)
  {
    RunListsLatest(events);
    RunIsPrintable(events);
    ListedClashes(Run(events), Latest(events));
    hide ConsistentTimes, ComesBefore, SortedBy, InTimeOrder, NoClash, Printable, Clash, AllPrintable;
    assert SortedBy(ComesBefore, Run(events));
    SortedIsInTimeOrderExactly(Run(events));
  }

  lemma SortTwo(first: Message, second: Message)
    requires ComesBefore(second, first) && first.id != second.id
    ensures UpsertMessage([], first) == [first] && UpsertMessage([first], second) == [second, first]
  {
    hide ComesBefore;
    assert [first][..0] == [] && [] + [first] == [first] && Sorted([first]) == [first];
    assert ([first] + [second])[..1] == [first] && Insert([], second) == [second];
    assert Insert([first], second) == [second] + [first];
  }

  /** Such a pair is shown in the wrong order. */
  lemma WholeSecondSortsLast(first: Message, second: Message)
    requires Printable(first.createdAt) && Printable(second.createdAt) && first.id != second.id
    requires first.createdAt.fields == second.createdAt.fields && first.createdAt.micro == 0 < second.createdAt.micro
    ensures Run([Upserted(first), Upserted(second)]) == [second, first]
    ensures Earlier(first.createdAt, second.createdAt)
  {
    TextOrder(second.createdAt, first.createdAt);
    hide Printable, StampText, StringLess;
    SortTwo(first, second);
    var one := [Upserted(first)];
    assert [Upserted(first), Upserted(second)][..1] == one && one[..0] == [];
    hide UpsertMessage;
    assert Run(one) == [first];
  }
}
