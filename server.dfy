/// RepositoryServer: its configuration and the filesystem it works on, and
/// ensureDirectories, which the constructor runs once at startup.
module Server {
  import opened Fs
  import opened Manifest
  import opened Layout
  import opened Startup

  class RepositoryServer {
    const port: string
    const repoPath: Path
    const packagesPath: Path

    /** The filesystem as the server sees it. */
    var dirs: set<Path>
    var files: map<Path, FileContent>

    function Disk(): FsState
      reads this
    {
      FsState(dirs, files)
    }

    function Configuration(): Config {
      Config(port, repoPath)
    }

    /** `repoPath` is `<installDir>/repository` and `packagesPath` is
        `repoPath/packages`. */
    constructor (installDir: Path, port: string, disk: FsState)
      ensures this.port == port && repoPath == installDir + ["repository"]
      ensures packagesPath == PackagesPath(Configuration())
      ensures Disk() == disk
    {
      this.port := port;
      repoPath := installDir + ["repository"];
      packagesPath := installDir + ["repository"] + ["packages"];
      dirs, files := disk.dirs, disk.files;
    }

    /** ensureDirectories: for `repoPath` and then `packagesPath`, create the
        directory (with its ancestors) unless something is there; then write
        the initial manifest unless something is at its path. An exception
        from mkdirSync or writeFileSync ends the call and is returned. */
    method EnsureDirectories(now: string) returns (outcome: Outcome)
      requires packagesPath == PackagesPath(Configuration())
      modifies this
      ensures Step(Disk(), outcome) == Bootstrap(Configuration(), old(Disk()), now)
      ensures old(dirs) <= dirs
      ensures forall p :: p in old(files) ==> p in files && files[p] == old(files)[p]
      ensures outcome.Pass? ==> Exists(Disk(), repoPath) && Exists(Disk(), packagesPath)
      ensures outcome.Pass? ==> Exists(Disk(), ManifestPath(Configuration()))
      ensures NoFileOnPath(old(Disk()), repoPath) ==> outcome.Pass? && repoPath in dirs
      ensures Valid(old(Disk())) ==> Valid(Disk())
      ensures Valid(old(Disk())) ==> (outcome.Pass? <==> NoFileOnPath(old(Disk()), repoPath))
    {
      ghost var before := old(Disk());

      var list := [repoPath, packagesPath];
      var i := 0;
      while i < |list|
        invariant 0 <= i <= |list|
        invariant EnsureDirs(before, list) == EnsureDirs(Disk(), list[i..])
      {
        var dir := list[i];
        assert list[i..][0] == dir && list[i..][1..] == list[i + 1..];
        if !Exists(Disk(), dir) {
          var made := MkdirRecursive(Disk(), dir);
          if made.outcome.Fail? {
            outcome := made.outcome;
            BootstrapGuarantees(Configuration(), before, now);
            return;
          }
          dirs := made.state.dirs;
        }
        i := i + 1;
      }
      assert list[i..] == [];
      var packagesFile := repoPath + ["packages.json"];
      if !Exists(Disk(), packagesFile) {
        var written := WriteFile(Disk(), packagesFile, JsonText(Encode(InitialManifest(Configuration(), now))));
        files := written.state.files;
        outcome := written.outcome;
      } else {
        outcome := Pass;
      }
      BootstrapGuarantees(Configuration(), before, now);
    }
  }
}
