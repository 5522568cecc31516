/// What RepositoryServer.ensureDirectories does to the filesystem, as a
/// function of the filesystem before it, and what that guarantees.
module Startup {
  import opened Json
  import opened Fs
  import opened Manifest
  import opened Layout

  /** One turn of the loop: create `dir`, with its ancestors, unless a
      directory or a file is already there. */
  function EnsureDir(s: FsState, dir: Path): (r: Step)
    ensures r.outcome.Pass? <==> Exists(s, dir) || NoFileOnPath(s, dir)
    ensures r.outcome.Pass? ==> Exists(r.state, dir)
    ensures r.outcome.Fail? || Exists(s, dir) ==> r.state == s
    ensures r.state.files == s.files
    ensures s.dirs <= r.state.dirs <= s.dirs + Prefixes(dir)
  {
    if Exists(s, dir) then Step(s, Pass) else MkdirRecursive(s, dir)
  }

  /** The `forEach` over the directory list: each directory in turn; the
      first exception ends the loop and leaves the directories after it
      alone. */
  function EnsureDirs(s: FsState, dirs: seq<Path>): (r: Step)
    ensures r.state.files == s.files && s.dirs <= r.state.dirs
    ensures r.outcome.Pass? ==> forall i :: 0 <= i < |dirs| ==> Exists(r.state, dirs[i])
    decreases |dirs|
  {
    if dirs == [] then Step(s, Pass)
    else
      var first := EnsureDir(s, dirs[0]);
      if first.outcome.Fail? then first else EnsureDirs(first.state, dirs[1..])
  }

  /** ensureDirectories: `repoPath`, then `packagesPath`, then the manifest
      file when nothing is at its path. Nothing is removed, and after a
      bootstrap that did not throw `repoPath`, `packagesPath` and the
      manifest all exist. */
  function Bootstrap(c: Config, s: FsState, now: string): (r: Step)
    ensures s.dirs <= r.state.dirs && s.files.Keys <= r.state.files.Keys
    ensures r.outcome.Pass? ==>
      Exists(r.state, c.repoPath) && Exists(r.state, PackagesPath(c)) &&
      Exists(r.state, ManifestPath(c))
  {
    var dirs := [c.repoPath, PackagesPath(c)];
    var made := EnsureDirs(s, dirs);
    assert made.outcome.Pass? ==> Exists(made.state, dirs[0]) && Exists(made.state, dirs[1]);
    if made.outcome.Fail? || Exists(made.state, ManifestPath(c)) then made
    else WriteFile(made.state, ManifestPath(c), JsonText(Encode(InitialManifest(c, now))))
  }

  /** The loop over two directories, unrolled. */
  lemma EnsureDirsPair(s: FsState, a: Path, b: Path)
    ensures EnsureDirs(s, [a, b]) ==
      var first := EnsureDir(s, a);
      if first.outcome.Fail? then first else EnsureDir(first.state, b)
  {
    var first := EnsureDir(s, a);
    assert [a, b][1..] == [b];
    if first.outcome.Pass? {
      var second := EnsureDir(first.state, b);
      assert [b][1..] == [];
      assert EnsureDirs(first.state, [b]) == second;
    }
  }

  /** Bootstrap never overwrites: every directory and every file stays as
      it was; the only new file is the manifest, written only when nothing
      was at its path; the only new directories are `repoPath`,
      `packagesPath` and their ancestors. */
  lemma BootstrapKeepsExisting(c: Config, s: FsState, now: string)
    ensures var r := Bootstrap(c, s, now);
      && s.dirs <= r.state.dirs <= s.dirs + Prefixes(c.repoPath) + Prefixes(PackagesPath(c))
      && (forall p :: p in s.files ==> p in r.state.files && r.state.files[p] == s.files[p])
      && r.state.files ==
           if r.outcome.Pass? && !Exists(s, ManifestPath(c))
           then s.files[ManifestPath(c) := JsonText(Encode(InitialManifest(c, now)))]
           else s.files
  {
    EnsureDirsPair(s, c.repoPath, PackagesPath(c));
    LayoutDisjoint(c);
  }

  /** When neither `repoPath` nor an ancestor of it is a regular file,
      bootstrap succeeds, and afterwards `repoPath` is a directory,
      `packagesPath` is one unless a file of that name was already there,
      and the manifest is a file unless a directory of that name was already
      there. */
  lemma BootstrapEstablishesKinds(c: Config, s: FsState, now: string)
    requires NoFileOnPath(s, c.repoPath)
    ensures var r := Bootstrap(c, s, now);
      && r.outcome.Pass?
      && c.repoPath in r.state.dirs
      && (PackagesPath(c) in r.state.dirs || PackagesPath(c) in s.files)
      && (ManifestPath(c) in r.state.files || ManifestPath(c) in s.dirs)
  {
    var r := c.repoPath;
    SucceedsWhenRepoPathClear(c, s, now);
    BootstrapKeepsExisting(c, s, now);
    LayoutDisjoint(c);
    assert r[..|r|] == r;
  }

  /** In a tree-shaped filesystem bootstrap throws exactly when `repoPath`
      or one of its ancestors is a regular file. */
  lemma BootstrapSucceedsIff(c: Config, s: FsState, now: string)
    requires Valid(s)
    ensures Bootstrap(c, s, now).outcome.Pass? <==> NoFileOnPath(s, c.repoPath)
  {
    if NoFileOnPath(s, c.repoPath) {
      SucceedsWhenRepoPathClear(c, s, now);
    } else {
      FailsWhenFileOnRepoPath(c, s, now);
    }
  }

  lemma SucceedsWhenRepoPathClear(c: Config, s: FsState, now: string)
    requires NoFileOnPath(s, c.repoPath)
    ensures Bootstrap(c, s, now).outcome.Pass?
  {
    var r, p, m := c.repoPath, PackagesPath(c), ManifestPath(c);
    EnsureDirsPair(s, r, p);
    LayoutDisjoint(c);
    var first := EnsureDir(s, r);
    assert r[..|r|] == r;
    assert r in first.state.dirs;
    var second := EnsureDir(first.state, p);
    if !Exists(first.state, p) {
      forall k | 0 <= k <= |p| ensures p[..k] !in first.state.files {
        if k <= |r| {
          assert p[..k] == r[..k];
        } else {
          assert p[..k] == p;
        }
      }
    }
    assert second.outcome.Pass?;
    assert r in second.state.dirs && Parent(m) == r;
  }

  lemma FailsWhenFileOnRepoPath(c: Config, s: FsState, now: string)
    requires Valid(s) && !NoFileOnPath(s, c.repoPath)
    ensures Bootstrap(c, s, now).outcome.Fail?
  {
    var r, p := c.repoPath, PackagesPath(c);
    EnsureDirsPair(s, r, p);
    var k :| 0 <= k <= |r| && r[..k] in s.files;
    if r in s.dirs {
      DirHasNoFileOnPath(s, r);
    }
    if Exists(s, r) {
      assert r in s.files;
      assert Parent(p) == r;
      assert !Exists(s, p);
      assert p[..|r|] == r && r[..|r|] == r;
      assert !NoFileOnPath(s, p);
    }
  }

  /** Running bootstrap a second time, at any later time, changes nothing
      and reports what the first run reported. */
  lemma BootstrapIdempotent(c: Config, s: FsState, now: string, later: string)
    ensures var first := Bootstrap(c, s, now);
      Bootstrap(c, first.state, later) == first
  {
    var r, p, m := c.repoPath, PackagesPath(c), ManifestPath(c);
    var first := Bootstrap(c, s, now);
    var t := first.state;
    EnsureDirsPair(s, r, p);
    EnsureDirsPair(t, r, p);
    LayoutDisjoint(c);
    var d1 := EnsureDir(s, r);
    if d1.outcome.Pass? {
      var d2 := EnsureDir(d1.state, p);
      assert Exists(t, r);
      if d2.outcome.Pass? {
        assert Exists(t, p);
      }
    }
  }

  /** Bootstrap keeps a tree-shaped filesystem tree-shaped. */
  lemma BootstrapPreservesValid(c: Config, s: FsState, now: string)
    requires Valid(s)
    ensures Valid(Bootstrap(c, s, now).state)
  {
    var r, p := c.repoPath, PackagesPath(c);
    EnsureDirsPair(s, r, p);
    var d1 := EnsureDir(s, r);
    assert Valid(d1.state) by {
      if !Exists(s, r) {
        MkdirRecursivePreservesValid(s, r);
      }
    }
    var made := EnsureDirs(s, [r, p]);
    assert Valid(made.state) by {
      if d1.outcome.Pass? && !Exists(d1.state, p) {
        MkdirRecursivePreservesValid(d1.state, p);
      }
    }
    if made.outcome.Pass? && !Exists(made.state, ManifestPath(c)) {
      WriteFilePreservesValid(made.state, ManifestPath(c), JsonText(Encode(InitialManifest(c, now))));
    }
  }

  /** The guarantees above, gathered for a caller that runs bootstrap once. */
  lemma BootstrapGuarantees(c: Config, s: FsState, now: string)
    ensures var r := Bootstrap(c, s, now);
      && s.dirs <= r.state.dirs
      && (forall p :: p in s.files ==> p in r.state.files && r.state.files[p] == s.files[p])
      && (r.outcome.Pass? ==>
            Exists(r.state, c.repoPath) && Exists(r.state, PackagesPath(c)) &&
            Exists(r.state, ManifestPath(c)))
      && (NoFileOnPath(s, c.repoPath) ==> r.outcome.Pass? && c.repoPath in r.state.dirs)
      && (Valid(s) ==> Valid(r.state))
      && (Valid(s) ==> (r.outcome.Pass? <==> NoFileOnPath(s, c.repoPath)))
  {
    BootstrapKeepsExisting(c, s, now);
    if NoFileOnPath(s, c.repoPath) {
      BootstrapEstablishesKinds(c, s, now);
    }
    if Valid(s) {
      BootstrapPreservesValid(c, s, now);
      BootstrapSucceedsIff(c, s, now);
    }
  }
}
