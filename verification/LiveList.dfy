/**
 The client's list under both of its writers: live events are merged and sorted in, and older pages
 are put in front as they come, without a look at what is there.
 */
module LiveList {
  import opened Common
  import opened MessageList
  import opened Ordering
  import opened Timestamps

  datatype Update = Live(event: Event) | Prepended(page: seq<Message>)

  function ApplyUpdate(list: seq<Message>, u: Update): seq<Message> {
    match u
    case Live(event) => Apply(list, event)
    case Prepended(page) => page + list
  }

  function ListAfter(updates: seq<Update>): seq<Message> {
    if updates == [] then [] else ApplyUpdate(ListAfter(updates[..|updates| - 1]), updates[|updates| - 1])
  }

  // ----- The reference model -----

  function PageVersions(page: seq<Message>): Versions {
    if page == [] then map[] else PageVersions(page[1..])[page[0].id := page[0]]
  }

  /** What is known of every message that is left; a page does not replace what is there. */
  function Known(versions: Versions, u: Update): Versions {
    match u
    case Live(Upserted(m)) => versions[m.id := m]
    case Live(Deleted(id)) => versions - {id}
    case Prepended(page) => PageVersions(page) + versions
  }

  function VersionsAfter(updates: seq<Update>): Versions {
    if updates == [] then map[] else Known(VersionsAfter(updates[..|updates| - 1]), updates[|updates| - 1])
  }

  function MessagesOf(u: Update): seq<Message> {
    match u
    case Live(Upserted(m)) => [m]
    case Live(Deleted(_)) => []
    case Prepended(page) => page
  }

  ghost predicate Mentioned(updates: seq<Update>, m: Message) {
    exists i :: 0 <= i < |updates| && m in MessagesOf(updates[i])
  }

  /** Versions of a message share its creation time, and no two messages have the same one. */
  ghost predicate TimesAgree(updates: seq<Update>) {
    forall a, b :: Mentioned(updates, a) && Mentioned(updates, b) ==>
      Printable(a.createdAt) && (a.id == b.id <==> a.createdAt == b.createdAt)
  }

  /** A page in order of the texts, all of it before everything that is there. */
  ghost predicate PageFits(page: seq<Message>, versions: Versions) {
    && SortedBy(ComesBefore, page)
    && forall p, id :: p in page && id in versions ==> ComesBefore(p, versions[id])
  }

  // ----- One page -----

  lemma FirstIsDifferent(page: seq<Message>)
    requires page != [] && SortedBy(ComesBefore, page)
    requires forall a, b :: a in page && b in page && a.id == b.id ==> a.createdAt == b.createdAt
    ensures SortedBy(ComesBefore, page[1..]) && forall m :: m in page[1..] ==> m in page && m.id != page[0].id
  {
    forall m | m in page[1..] ensures m in page && m.id != page[0].id {
      var i :| 1 <= i < |page| && page[i] == m;
      assert ComesBefore(page[0], page[i]) && page[0] in page;
      EqualTimesDoNotCompare(page[0], m);
    }
  }

  lemma {:induction false} PageVersionsHold(page: seq<Message>)
    requires SortedBy(ComesBefore, page)
    requires forall a, b :: a in page && b in page && a.id == b.id ==> a.createdAt == b.createdAt
    ensures Holds(page, PageVersions(page))
  {
    if page != [] {
      FirstIsDifferent(page);
      hide SortedBy, ComesBefore, Holds;
      PageVersionsHold(page[1..]);
      HoldsCons(page[0], page[1..], PageVersions(page[1..]));
      assert page == [page[0]] + page[1..];
    } else {
      NothingIsListed();
    }
  }

  lemma HoldsCons(first: Message, rest: seq<Message>, versions: Versions)
    requires Holds(rest, versions) && forall m :: m in rest ==> m.id != first.id
    ensures Holds([first] + rest, versions[first.id := first])
  {
  }

  lemma EqualTimesDoNotCompare(a: Message, b: Message)
    ensures ComesBefore(a, b) ==> a.createdAt != b.createdAt
  {
    if Printable(a.createdAt) {
      StringTrichotomy(StampText(a.createdAt), StampText(a.createdAt));
    }
  }

  lemma SortedConcat(page: seq<Message>, list: seq<Message>)
    ensures SortedBy(ComesBefore, page + list) <==>
            && SortedBy(ComesBefore, page) && SortedBy(ComesBefore, list)
            && forall p, m :: p in page && m in list ==> ComesBefore(p, m)
  {
    hide ComesBefore;
    var all := page + list;
    if SortedBy(ComesBefore, all) {
      assert forall i :: 0 <= i < |page| ==> page[i] == all[i];
      assert forall i :: 0 <= i < |list| ==> list[i] == all[|page| + i];
      forall i, j | 0 <= i < |page| && 0 <= j < |list| ensures ComesBefore(page[i], list[j]) {
        assert ComesBefore(all[i], all[|page| + j]);
      }
    }
    if && SortedBy(ComesBefore, page) && SortedBy(ComesBefore, list)
       && forall p, m :: p in page && m in list ==> ComesBefore(p, m) {
      forall i, j | 0 <= i < j < |all| ensures ComesBefore(all[i], all[j]) {
        if i < |page| <= j {
          assert all[i] in page && all[j] == list[j - |page|] && all[j] in list;
        }
      }
    }
  }

  lemma HoldsConcat(page: seq<Message>, pageVersions: Versions, list: seq<Message>, versions: Versions)
    requires Holds(page, pageVersions) && Holds(list, versions)
    requires forall p, m :: p in page && m in list ==> p.id != m.id
    ensures Holds(page + list, pageVersions + versions)
  {
  }

  /** One message has one time, on the page and in the list. */
  ghost predicate OneTimeEach(page: seq<Message>, list: seq<Message>) {
    && (forall a, b :: a in page && b in page && a.id == b.id ==> a.createdAt == b.createdAt)
    && (forall p, m :: p in page && m in list && p.id == m.id ==> p.createdAt == m.createdAt)
  }

  lemma FittingPageIsListed(list: seq<Message>, versions: Versions, page: seq<Message>)
    requires Lists(list, versions) && OneTimeEach(page, list) && PageFits(page, versions)
    ensures Lists(page + list, PageVersions(page) + versions)
  {
    forall p, m | p in page && m in list ensures ComesBefore(p, m) && p.id != m.id {
      assert versions[m.id] == m;
      EqualTimesDoNotCompare(p, m);
    }
    hide ComesBefore, SortedBy, Holds;
    SortedConcat(page, list);
    PageVersionsHold(page);
    HoldsConcat(page, PageVersions(page), list, versions);
  }

  lemma ListedPageFits(list: seq<Message>, versions: Versions, page: seq<Message>)
    requires Lists(list, versions) && SortedBy(ComesBefore, page + list)
    ensures PageFits(page, versions)
  {
    hide ComesBefore, SortedBy;
    SortedConcat(page, list);
  }

  /** Putting a page in front of a sound list keeps it sound exactly when the page fits. */
  lemma PrependingExactly(list: seq<Message>, versions: Versions, page: seq<Message>)
    requires Lists(list, versions) && OneTimeEach(page, list)
    ensures Lists(page + list, PageVersions(page) + versions) <==> PageFits(page, versions)
  {
    if PageFits(page, versions) {
      FittingPageIsListed(list, versions, page);
    }
    if Lists(page + list, PageVersions(page) + versions) {
      assert SortedBy(ComesBefore, page + list);
      ListedPageFits(list, versions, page);
    }
    hide *;
  }

  // ----- Runs -----

  lemma MentionedLater(updates: seq<Update>, m: Message)
    requires updates != [] && Mentioned(updates[..|updates| - 1], m)
    ensures Mentioned(updates, m)
  {
    var i :| 0 <= i < |updates| - 1 && m in MessagesOf(updates[..|updates| - 1][i]);
    assert m in MessagesOf(updates[i]);
  }

  lemma {:induction false} VersionsAreMentioned(updates: seq<Update>)
    ensures forall id :: id in VersionsAfter(updates) ==> Mentioned(updates, VersionsAfter(updates)[id])
  {
    if updates != [] {
      var before, u := updates[..|updates| - 1], updates[|updates| - 1];
      VersionsAreMentioned(before);
      PageVersionsComeFromPage(MessagesOf(u));
      forall id | id in VersionsAfter(updates) ensures Mentioned(updates, VersionsAfter(updates)[id]) {
        var m := VersionsAfter(updates)[id];
        if id in VersionsAfter(before) && VersionsAfter(before)[id] == m {
          MentionedLater(updates, m);
        } else {
          assert m in MessagesOf(updates[|updates| - 1]);
        }
      }
    }
  }

  lemma {:induction false} PageVersionsComeFromPage(page: seq<Message>)
    ensures forall id :: id in PageVersions(page) ==> PageVersions(page)[id] in page
  {
    if page != [] {
      PageVersionsComeFromPage(page[1..]);
    }
  }

  lemma ListedIsMentioned(updates: seq<Update>)
    requires updates != [] && Lists(ListAfter(updates[..|updates| - 1]), VersionsAfter(updates[..|updates| - 1]))
    ensures forall m :: m in ListAfter(updates[..|updates| - 1]) ==> Mentioned(updates, m)
    ensures forall m :: m in MessagesOf(updates[|updates| - 1]) ==> Mentioned(updates, m)
  {
    var before := updates[..|updates| - 1];
    VersionsAreMentioned(before);
    forall m | m in ListAfter(before) ensures Mentioned(updates, m) {
      assert VersionsAfter(before)[m.id] == m;
      MentionedLater(updates, m);
    }
    hide ListAfter, VersionsAfter, Lists;
  }

  /** The messages of an update and of the list have times that agree. */
  ghost predicate AgreesWith(list: seq<Message>, u: Update) {
    forall a, b :: (a in list || a in MessagesOf(u)) && (b in list || b in MessagesOf(u)) ==>
      Printable(a.createdAt) && (a.id == b.id <==> a.createdAt == b.createdAt)
  }

  lemma MentionedAgree(updates: seq<Update>, a: Message, b: Message)
    requires TimesAgree(updates) && Mentioned(updates, a) && Mentioned(updates, b)
    ensures Printable(a.createdAt) && (a.id == b.id <==> a.createdAt == b.createdAt)
  {
  }

  lemma UpdateAgrees(updates: seq<Update>, list: seq<Message>, u: Update)
    requires TimesAgree(updates)
    requires forall m :: m in list || m in MessagesOf(u) ==> Mentioned(updates, m)
    ensures AgreesWith(list, u)
  {
    hide TimesAgree, Mentioned, Printable, MessagesOf;
    forall a, b | (a in list || a in MessagesOf(u)) && (b in list || b in MessagesOf(u))
      ensures Printable(a.createdAt) && (a.id == b.id <==> a.createdAt == b.createdAt)
    {
      MentionedAgree(updates, a, b);
    }
  }

  lemma AfterUnfolds(updates: seq<Update>)
    requires updates != []
    ensures var before, u := updates[..|updates| - 1], updates[|updates| - 1];
            ListAfter(updates) == ApplyUpdate(ListAfter(before), u) && VersionsAfter(updates) == Known(VersionsAfter(before), u)
  {
    hide ApplyUpdate, Known;
  }

  /** With agreeing times a live event keeps a sound list sound, and a page does exactly when it fits. */
  lemma OneUpdate(updates: seq<Update>)
    requires updates != [] && TimesAgree(updates)
    requires Lists(ListAfter(updates[..|updates| - 1]), VersionsAfter(updates[..|updates| - 1]))
    ensures var before, u := updates[..|updates| - 1], updates[|updates| - 1];
            Lists(ListAfter(updates), VersionsAfter(updates)) <==> (u.Prepended? ==> PageFits(u.page, VersionsAfter(before)))
  {
    hide *;
    var before, u := updates[..|updates| - 1], updates[|updates| - 1];
    AfterUnfolds(updates);
    ListedIsMentioned(updates);
    UpdateAgrees(updates, ListAfter(before), u);
    UpdateStep(ListAfter(before), VersionsAfter(before), u);
  }

  lemma UpdateStep(list: seq<Message>, versions: Versions, u: Update)
    requires Lists(list, versions) && AgreesWith(list, u)
    ensures Lists(ApplyUpdate(list, u), Known(versions, u)) <==> (u.Prepended? ==> PageFits(u.page, versions))
  {
    hide Lists, PageFits, UpsertMessage, RemoveMessage, PageVersions, Printable;
    match u
    case Live(Upserted(m)) =>
      assert m in MessagesOf(u);
      UpsertLists(list, versions, m);
    case Live(Deleted(id)) =>
      RemovingLists(list, versions, id);
    case Prepended(page) =>
      PrependingExactly(list, versions, page);
  }

  lemma TimesAgreeBefore(updates: seq<Update>, n: nat)
    requires TimesAgree(updates) && n <= |updates|
    ensures TimesAgree(updates[..n])
  {
    forall m | Mentioned(updates[..n], m) ensures Mentioned(updates, m) {
      var i :| 0 <= i < n && m in MessagesOf(updates[..n][i]);
      assert m in MessagesOf(updates[i]);
    }
    hide Mentioned, Printable;
  }

  /** After the first n updates the list shows exactly what is known, sorted and without duplicates. */
  ghost predicate SoundAt(updates: seq<Update>, n: nat)
    requires n <= |updates|
  {
    Lists(ListAfter(updates[..n]), VersionsAfter(updates[..n]))
  }

  /** If update n is a page, it fits what is known by then. */
  ghost predicate FitsAt(updates: seq<Update>, n: nat)
    requires n < |updates|
  {
    updates[n].Prepended? ==> PageFits(updates[n].page, VersionsAfter(updates[..n]))
  }

  lemma NextIsSoundExactly(updates: seq<Update>, n: nat)
    requires TimesAgree(updates) && n < |updates| && SoundAt(updates, n)
    ensures SoundAt(updates, n + 1) <==> FitsAt(updates, n)
  {
    TimesAgreeBefore(updates, n + 1);
    assert updates[..n + 1][..n] == updates[..n] && updates[..n + 1][n] == updates[n];
    hide Lists, PageFits, TimesAgree, ListAfter, VersionsAfter;
    OneUpdate(updates[..n + 1]);
  }

  lemma StartIsSound(updates: seq<Update>)
    ensures SoundAt(updates, 0)
  {
    assert updates[..0] == [];
    NothingIsListed();
    hide Lists;
  }

  /**
   Under any mix of live events and loaded pages, the list shows exactly what is known, sorted by the
   times' texts and without duplicates, all along the way, exactly when every page fitted when it came.
   */
  lemma {:induction false} SoundAllAlongExactly(updates: seq<Update>, n: nat)
    requires TimesAgree(updates) && n <= |updates|
    ensures (forall k :: 0 <= k <= n ==> SoundAt(updates, k)) <==> (forall k :: 0 <= k < n ==> FitsAt(updates, k))
  {
    StartIsSound(updates);
    hide SoundAt, FitsAt, TimesAgree;
    if n > 0 {
      SoundAllAlongExactly(updates, n - 1);
      if SoundAt(updates, n - 1) {
        NextIsSoundExactly(updates, n - 1);
      }
    }
  }

  /** A row the list already has spoils the page: it does not fit. */
  lemma RepeatedRowDoesNotFit(page: seq<Message>, versions: Versions, p: Message)
    requires p in page && p.id in versions && versions[p.id].createdAt == p.createdAt
    ensures !PageFits(page, versions)
  {
    EqualTimesDoNotCompare(p, versions[p.id]);
  }
}
