/**
 The filesystem backend's directory tree. A path is the list of names below the storage root, the
 root itself being the empty list. Every directory below the root leads to some file: putting a file
 creates its missing parents, and deleting one prunes the directories it leaves empty.
 */
module LocalTree {
  import opened Download

  type Path = seq<string>

  type Files = map<Path, Bytes>

  /** A file lies somewhere beneath this directory. */
  predicate Supported(files: Files, d: Path) {
    exists f :: f in files && |d| < |f| && f[..|d|] == d
  }

  /** Directories above every file exist. */
  predicate ParentsExist(files: Files, dirs: set<Path>) {
    forall f :: f in files ==> forall k :: 0 <= k < |f| ==> f[..k] in dirs
  }

  predicate Rooted(dirs: set<Path>) {
    forall d :: d in dirs ==> forall k :: 0 <= k < |d| ==> d[..k] in dirs
  }

  /** Below the root, the directories are exactly those that lead to a file; no path is both. */
  ghost predicate Tidy(files: Files, dirs: set<Path>) {
    && ParentsExist(files, dirs)
    && Rooted(dirs)
    && files.Keys !! dirs
    && [] !in files
    && forall d :: d in dirs && d != [] ==> Supported(files, d)
  }

  function Parents(path: Path): set<Path> {
    set k | 0 <= k < |path| :: path[..k]
  }

  lemma ParentsStep(path: Path)
    requires path != []
    ensures var parent := path[..|path| - 1];
            && Parents(path) == Parents(parent) + {parent}
            && forall k :: 0 <= k <= |parent| ==> parent[..k] == path[..k]
  {
    var parent := path[..|path| - 1];
    forall k | 0 <= k <= |parent| ensures parent[..k] == path[..k] {
    }
    forall d | d in Parents(path) ensures d in Parents(parent) + {parent} {
      var k :| 0 <= k < |path| && d == path[..k];
      assert d == parent[..k];
    }
    forall d | d in Parents(parent) + {parent} ensures d in Parents(path) {
      if d != parent {
        var k :| 0 <= k < |parent| && d == parent[..k];
        assert d == path[..k];
      }
    }
  }

  lemma TidyKeepsAll(files: Files, dirs: set<Path>)
    requires Tidy(files, dirs)
    ensures Kept(files, dirs) == dirs
  {
  }

  /** A path can be written unless one of its parents is a file or it is itself a directory. */
  predicate Writable(files: Files, dirs: set<Path>, path: Path) {
    path !in dirs && forall k :: 0 <= k < |path| ==> path[..k] !in files
  }

  /** The directories a deletion keeps. */
  function Kept(files: Files, dirs: set<Path>): set<Path> {
    set d | d in dirs && (d == [] || Supported(files, d))
  }

  lemma PuttingKeepsTidy(files: Files, dirs: set<Path>, path: Path, data: Bytes)
    requires Tidy(files, dirs) && path != [] && Writable(files, dirs, path)
    ensures Tidy(files[path := data], dirs + Parents(path))
  {
    var files', dirs' := files[path := data], dirs + Parents(path);
    forall d | d in dirs' && d != [] ensures Supported(files', d) {
      if d in dirs {
        var f :| f in files && |d| < |f| && f[..|d|] == d;
        assert f in files';
      } else {
        assert path in files';
      }
    }
    forall d, k | d in dirs' && 0 <= k < |d| ensures d[..k] in dirs' {
      if d in Parents(path) {
        assert d[..k] == path[..k];
      }
    }
  }

  lemma DeletingKeepsTidy(files: Files, dirs: set<Path>, path: Path)
    requires Tidy(files, dirs)
    ensures Tidy(files - {path}, Kept(files - {path}, dirs))
  {
    var files' := files - {path};
    var dirs' := Kept(files', dirs);
    forall f, k | f in files' && 0 <= k < |f| ensures f[..k] in dirs' {
      assert f[..|f[..k]|] == f[..k];
    }
    forall d, k | d in dirs' && 0 <= k < |d| ensures d[..k] in dirs' {
      if k > 0 {
        var f :| f in files' && |d| < |f| && f[..|d|] == d;
        assert f[..k] == d[..k];
      }
    }
  }

  /** Putting a new file and deleting it again restores the tree, up to the root's existence. */
  lemma PutThenDeleteRestores(files: Files, dirs: set<Path>, path: Path, data: Bytes)
    requires Tidy(files, dirs) && path != [] && path !in files && Writable(files, dirs, path)
    ensures files[path := data] - {path} == files
    ensures Kept(files, dirs + Parents(path)) == dirs + {[]}
  {
    forall d | d in dirs + {[]} ensures d in Kept(files, dirs + Parents(path)) {
      if d == [] {
        assert path[..0] in Parents(path);
      }
    }
    forall d | d in Parents(path) && Supported(files, d) ensures d in dirs {
      var f :| f in files && |d| < |f| && f[..|d|] == d;
    }
  }

  // ----- The pruning loop -----

  /** Entries directly inside a directory. */
  predicate IsEmptyDirectory(files: Files, dirs: set<Path>, d: Path) {
    && (forall f :: f in files && |f| == |d| + 1 ==> f[..|d|] != d)
    && (forall c :: c in dirs && |c| == |d| + 1 ==> c[..|d|] != d)
  }

  /** While pruning, only the directories on the way to the current one may lead nowhere. */
  ghost predicate Pruning(files: Files, dirs: set<Path>, current: Path) {
    && ParentsExist(files, dirs)
    && Rooted(dirs)
    && forall d :: d in dirs && d != [] ==> Supported(files, d) || d <= current
  }

  lemma SupportedMeansNonEmpty(files: Files, dirs: set<Path>, d: Path)
    requires ParentsExist(files, dirs) && Supported(files, d)
    ensures !IsEmptyDirectory(files, dirs, d)
  {
    var f :| f in files && |d| < |f| && f[..|d|] == d;
    var child := f[..|d| + 1];
    assert child == f || child in dirs;
    assert child[..|d|] == d;
  }

  lemma RemovingEmptyPrunes(files: Files, dirs: set<Path>, current: Path)
    requires Pruning(files, dirs, current) && current != [] && IsEmptyDirectory(files, dirs, current)
    ensures Pruning(files, dirs - {current}, current[..|current| - 1])
    ensures Kept(files, dirs - {current}) == Kept(files, dirs)
  {
    if Supported(files, current) {
      SupportedMeansNonEmpty(files, dirs, current);
    }
    var dirs', parent := dirs - {current}, current[..|current| - 1];
    forall d, k | d in dirs' && 0 <= k < |d| ensures d[..k] in dirs' {
      var child := d[..k + 1];
      assert child == d || child in dirs;
      assert child[..k] == d[..k];
    }
    forall f, k | f in files && 0 <= k < |f| ensures f[..k] in dirs' {
    }
    forall d | d in dirs' && d != [] && !Supported(files, d) ensures d <= parent {
      assert d <= current && d != current;
    }
  }

  lemma StuckMeansTidy(files: Files, dirs: set<Path>, current: Path)
    requires Pruning(files, dirs, current) && current in dirs
    requires current == [] || !IsEmptyDirectory(files, dirs, current)
    ensures Kept(files, dirs) == dirs
  {
    if current != [] {
      assert Supported(files, current) by {
        if f :| f in files && |f| == |current| + 1 && f[..|current|] == current {
        } else {
          var c :| c in dirs && |c| == |current| + 1 && c[..|current|] == current;
          var f :| f in files && |c| < |f| && f[..|c|] == c;
          assert f[..|current|] == c[..|current|];
        }
      }
      var f :| f in files && |current| < |f| && f[..|current|] == current;
      forall d | d in dirs && d <= current ensures Supported(files, d) {
        assert f[..|d|] == current[..|d|] == d;
      }
    }
  }

  class Storage {
    var files: Files
    var dirs: set<Path>

    ghost predicate Valid()
      reads this
    {
      Tidy(files, dirs)
    }

    constructor ()
      ensures Valid() && files == map[] && dirs == {}
    {
      files, dirs := map[], {};
    }

    /** Creates a directory and its missing parents; an existing directory is fine, a file is not. */
    method Mkdir(path: Path) returns (ok: bool)
      requires Rooted(dirs) && files.Keys !! dirs
      modifies this`dirs
      ensures ok <==> forall k :: 0 <= k <= |path| ==> path[..k] !in files
      ensures dirs == if ok then old(dirs) + Parents(path) + {path} else old(dirs)
      decreases |path|
    {
      assert path[..|path|] == path;
      if path in dirs {
        return true;
      }
      if exists k :: 0 <= k <= |path| && path[..k] in files {
        return false;
      }
      if path != [] {
        ParentsStep(path);
        var made := Mkdir(path[..|path| - 1]);
      }
      dirs := dirs + {path};
      ok := true;
    }

    method PutBytes(path: Path, data: Bytes) returns (ok: bool)
      requires Valid() && path != []
      modifies this
      ensures Valid()
      ensures ok <==> Writable(old(files), old(dirs), path)
      ensures files == if ok then old(files)[path := data] else old(files)
      ensures dirs == if ok then old(dirs) + Parents(path) else old(dirs)
    {
      ParentsStep(path);
      ok := Mkdir(path[..|path| - 1]);
      if !ok {
        return;
      }
      if path in dirs {
        return false;
      }
      PuttingKeepsTidy(files, old(dirs), path, data);
      files := files[path := data];
    }

    /** A missing file is fine, a directory or a file among the parents ends the deletion. */
    method Delete(path: Path)
      requires Valid() && path != []
      modifies this
      ensures Valid()
      ensures files == old(files) - {path}
      ensures dirs == Kept(files, old(dirs))
    {
      DeletingKeepsTidy(files, dirs, path);
      TidyKeepsAll(files, dirs);
      if path in dirs || exists k :: 0 <= k < |path| && path[..k] in files {
        assert files - {path} == files;
        return;
      }
      files := files - {path};
      var current := path[..|path| - 1];
      while current != [] && current in dirs
        invariant files == old(files) - {path}
        invariant Pruning(files, dirs, current)
        invariant Kept(files, dirs) == Kept(files, old(dirs))
        invariant current in dirs || (files == old(files) && dirs == old(dirs))
        decreases |current|
      {
        if !IsEmptyDirectory(files, dirs, current) {
          StuckMeansTidy(files, dirs, current);
          break;
        }
        RemovingEmptyPrunes(files, dirs, current);
        dirs := dirs - {current};
        current := current[..|current| - 1];
      }
    }
  }
}
