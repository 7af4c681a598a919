/**
 The configured attachment storage with its two tiers, changed in place: opening and deleting blobs,
 and the backfill command's loop over the attachment rows.
 */
module AttachmentStores {
  import opened Common
  import opened Download
  import opened Backfill

  /** The command's counters. */
  datatype Stats = Stats(copied: nat, skippedExisting: nat, missingSource: nat, sizeMismatch: nat, failed: nat) {
    function Total(): nat {
      copied + skippedExisting + missingSource + sizeMismatch + failed
    }

    function Counting(v: Verdict): Stats {
      match v
      case Copied => this.(copied := copied + 1)
      case SkippedExisting => this.(skippedExisting := skippedExisting + 1)
      case MissingSource => this.(missingSource := missingSource + 1)
      case SizeMismatch => this.(sizeMismatch := sizeMismatch + 1)
      case Failed => this.(failed := failed + 1)
    }
  }

  datatype Error = NeedsObjectStorage | StorageRaised(stats: Stats)

  function Tally(verdicts: seq<Verdict>, v: Verdict): nat {
    |Where(verdicts, v)|
  }

  /** The rounds that ended with a verdict. */
  function Where(verdicts: seq<Verdict>, v: Verdict): set<nat> {
    set i: nat | i < |verdicts| && verdicts[i] == v
  }

  /** The counters hold one tally per verdict. */
  predicate Tallied(stats: Stats, verdicts: seq<Verdict>) {
    && stats.copied == Tally(verdicts, Copied)
    && stats.skippedExisting == Tally(verdicts, SkippedExisting)
    && stats.missingSource == Tally(verdicts, MissingSource)
    && stats.sizeMismatch == Tally(verdicts, SizeMismatch)
    && stats.failed == Tally(verdicts, Failed)
  }

  lemma TallyAppend(verdicts: seq<Verdict>, last: Verdict, v: Verdict)
    ensures Tally(verdicts + [last], v) == Tally(verdicts, v) + if last == v then 1 else 0
  {
    if last == v {
      assert Where(verdicts + [last], v) == Where(verdicts, v) + {|verdicts|};
    } else {
      assert Where(verdicts + [last], v) == Where(verdicts, v);
    }
  }

  lemma CountingTallies(stats: Stats, verdicts: seq<Verdict>, last: Verdict)
    requires Tallied(stats, verdicts)
    ensures Tallied(stats.Counting(last), verdicts + [last])
    ensures stats.Counting(last).Total() == stats.Total() + 1
  {
    hide Tally;
    TallyAppend(verdicts, last, Copied);
    TallyAppend(verdicts, last, SkippedExisting);
    TallyAppend(verdicts, last, MissingSource);
    TallyAppend(verdicts, last, SizeMismatch);
    TallyAppend(verdicts, last, Failed);
  }

  /** After some rounds the rest of the pass starts from the store as it stands. */
  ghost predicate Remains(start: Blobs, objects: Blobs, source: Blobs, rows: seq<Row>, dryRun: bool, attempts: seq<Attempt>,
                          done: seq<Verdict>)
    requires |attempts| == |rows|
  {
    && |done| <= |rows|
    && var pass, left := Pass(start, source, rows, dryRun, attempts), Pass(objects, source, rows[|done|..], dryRun, attempts[|done|..]);
       pass.0 == left.0 && pass.1 == done + left.1
  }

  lemma RemainsAtStart(start: Blobs, source: Blobs, rows: seq<Row>, dryRun: bool, attempts: seq<Attempt>)
    requires |attempts| == |rows|
    ensures Remains(start, start, source, rows, dryRun, attempts, [])
    ensures Tallied(Stats(0, 0, 0, 0, 0), []) && Stats(0, 0, 0, 0, 0).Total() == 0
  {
    assert rows[0..] == rows && attempts[0..] == attempts;
  }

  lemma NothingRemains(start: Blobs, objects: Blobs, source: Blobs, rows: seq<Row>, dryRun: bool, attempts: seq<Attempt>,
                       done: seq<Verdict>)
    requires |attempts| == |rows| == |done| && Remains(start, objects, source, rows, dryRun, attempts, done)
    ensures Pass(start, source, rows, dryRun, attempts) == (objects, done)
  {
    assert done + [] == done;
  }

  lemma PassUnfolds(objects: Blobs, source: Blobs, rows: seq<Row>, dryRun: bool, attempts: seq<Attempt>)
    requires |attempts| == |rows| && rows != []
    ensures var (after, verdict) := Visit(objects, source, rows[0], dryRun, attempts[0]);
            Pass(objects, source, rows, dryRun, attempts) ==
            if verdict.None? then (after, [])
            else
              var (final, rest) := Pass(after, source, rows[1..], dryRun, attempts[1..]);
              (final, [verdict.value] + rest)
  {
  }

  lemma RoundRemains(start: Blobs, objects: Blobs, source: Blobs, rows: seq<Row>, dryRun: bool, attempts: seq<Attempt>,
                     done: seq<Verdict>)
    requires |attempts| == |rows| && |done| < |rows| && Remains(start, objects, source, rows, dryRun, attempts, done)
    ensures var (after, verdict) := Visit(objects, source, rows[|done|], dryRun, attempts[|done|]);
            if verdict.Some? then Remains(start, after, source, rows, dryRun, attempts, done + [verdict.value])
            else Pass(start, source, rows, dryRun, attempts) == (after, done)
  {
    hide Visit;
    var i := |done|;
    PassUnfolds(objects, source, rows[i..], dryRun, attempts[i..]);
    hide Pass;
    assert rows[i..][1..] == rows[i + 1..] && attempts[i..][1..] == attempts[i + 1..];
    var (after, verdict) := Visit(objects, source, rows[i], dryRun, attempts[i]);
    if verdict.Some? {
      var rest := Pass(after, source, rows[i + 1..], dryRun, attempts[i + 1..]).1;
      assert done + ([verdict.value] + rest) == done + [verdict.value] + rest;
    } else {
      assert done + [] == done;
    }
  }

  /** A handle on a blob or a range of it, from either tier. */
  method OpenTier(backend: Backend, blob: Bytes, range: Option<(nat, nat)>, plan: seq<nat>) returns (file: FileHandle)
    requires range.Some? ==> range.value.0 <= range.value.1 < |blob|
    ensures fresh(file) && !file.closed && ServesRange(file.Rest(), blob, range)
  {
    hide Limited;
    if range.Some? {
      SliceOfTail(blob, range.value.0, range.value.1);
    }
    file := OpenBlob(backend, blob, range, plan);
  }

  /** Reading as many bytes as the range has gives the range; without one, everything. */
  predicate ServesRange(rest: Bytes, blob: Bytes, range: Option<(nat, nat)>)
    requires range.Some? ==> range.value.0 <= range.value.1 < |blob|
  {
    match range
    case None => rest == blob
    case Some((first, last)) => Limited(rest, Some(last - first + 1)) == blob[first..last + 1]
  }

  class Stores {
    const backend: Backend
    var objects: Blobs
    var tree: Blobs

    constructor (backend: Backend, objects: Blobs, tree: Blobs)
      ensures this.backend == backend && this.objects == objects && this.tree == tree
    {
      this.backend, this.objects, this.tree := backend, objects, tree;
    }

    /** What a download of a key reads under the configured backend. */
    ghost function View(key: Key): Option<Bytes>
      reads this
    {
      if backend == ObjectStore then ReadView(objects, tree, key)
      else if key in tree then Some(tree[key])
      else None
    }

    method PutBytes(key: Key, data: Bytes)
      modifies this
      ensures View(key) == Some(data)
      ensures forall k :: k != key ==> View(k) == old(View(k))
      ensures backend == ObjectStore ==> tree == old(tree)
      ensures backend == Filesystem ==> objects == old(objects)
    {
      match backend
      case ObjectStore => objects := objects[key := data];
      case Filesystem => tree := tree[key := data];
    }

    /** The object store first, then the tree; a missing blob is the only error. */
    method OpenForDownload(key: Key, range: Option<(nat, nat)>, plan: seq<nat>) returns (file: Option<FileHandle>)
      requires range.Some? && View(key).Some? ==> range.value.0 <= range.value.1 < |View(key).value|
      ensures file.Some? <==> View(key).Some?
      ensures file.Some? ==>
        fresh(file.value) && !file.value.closed && ServesRange(file.value.Rest(), View(key).value, range)
    {
      file := None;
      if backend == ObjectStore && key in objects {
        var handle := OpenTier(ObjectStore, objects[key], range, plan);
        file := Some(handle);
      } else if key in tree {
        var handle := OpenTier(Filesystem, tree[key], range, plan);
        file := Some(handle);
      }
    }

    /** Deleting removes both tiers, so no older copy shows through afterwards. */
    method DeleteFromStorage(key: Key)
      modifies this
      ensures View(key) == None
      ensures forall k :: k != key ==> View(k) == old(View(k))
    {
      match backend
      case Filesystem =>
        tree := tree - {key};
      case ObjectStore =>
        objects := objects - {key};
        tree := tree - {key};
    }

    /** The object store's upload of a tree file; it may raise or store a prefix only. */
    method UploadFromPath(key: Key, attempt: Attempt) returns (raised: bool)
      requires key in tree
      modifies this`objects
      ensures raised == attempt.uploadRaises
      ensures objects == Uploaded(old(objects), key, tree[key], attempt)
    {
      raised := attempt.uploadRaises;
      if !raised {
        var content := if attempt.stored < |tree[key]| then tree[key][..attempt.stored] else tree[key];
        objects := objects[key := content];
      }
    }

    /** One round of the backfill loop. */
    method CopyRow(row: Row, dryRun: bool, attempt: Attempt) returns (verdict: Option<Verdict>)
      modifies this`objects
      ensures (objects, verdict) == Visit(old(objects), tree, row, dryRun, attempt)
    {
      if attempt.existsRaises {
        return None;
      }
      if row.key in objects {
        return Some(SkippedExisting);
      }
      if row.key !in tree {
        return Some(MissingSource);
      }
      if |tree[row.key]| != row.size {
        return Some(SizeMismatch);
      }
      if dryRun {
        return Some(Copied);
      }
      var raised := UploadFromPath(row.key, attempt);
      if raised || attempt.sizeRaises {
        return Some(Failed);
      }
      if |objects[row.key]| != row.size {
        if attempt.deleteRaises {
          return None;
        }
        objects := objects - {row.key};
        return Some(Failed);
      }
      verdict := Some(Copied);
    }

    /** The backfill command over all attachment rows. */
    method Handle(rows: seq<Row>, dryRun: bool, attempts: seq<Attempt>) returns (result: Result<Stats, Error>)
      requires |attempts| == |rows|
      modifies this`objects
      ensures backend == Filesystem ==> result == Failure(NeedsObjectStorage) && objects == old(objects)
      ensures backend == ObjectStore ==>
        var (final, verdicts) := Pass(old(objects), tree, rows, dryRun, attempts);
        && objects == final
        && (result.Success? <==> |verdicts| == |rows|)
        && (result.Success? ==> Tallied(result.value, verdicts) && result.value.Total() == |rows|)
        && (result.Failure? ==> result.error.StorageRaised? && Tallied(result.error.stats, verdicts))
    {
      hide *;
      if backend == Filesystem {
        return Failure(NeedsObjectStorage);
      }
      var stats := Stats(0, 0, 0, 0, 0);
      ghost var done: seq<Verdict> := [];
      var i := 0;
      RemainsAtStart(objects, tree, rows, dryRun, attempts);
      while i < |rows|
        invariant 0 <= i <= |rows| && |done| == i
        invariant Tallied(stats, done) && stats.Total() == i
        invariant Remains(old(objects), objects, tree, rows, dryRun, attempts, done)
      {
        RoundRemains(old(objects), objects, tree, rows, dryRun, attempts, done);
        var verdict := CopyRow(rows[i], dryRun, attempts[i]);
        if verdict.None? {
          return Failure(StorageRaised(stats));
        }
        CountingTallies(stats, done, verdict.value);
        stats := stats.Counting(verdict.value);
        done := done + [verdict.value];
        i := i + 1;
      }
      NothingRemains(old(objects), objects, tree, rows, dryRun, attempts, done);
      result := Success(stats);
    }
  }
}
