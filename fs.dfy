/// The part of Node's `fs` module the repository server uses, over an
/// abstract filesystem: a set of directory paths and a map from file paths
/// to contents. A path is its list of segments; joining paths is
/// concatenating those lists.
module Fs {
  import opened Json

  type Path = seq<string>

  /** What a file holds, as far as the server looks at it: text that
      JSON.parse accepts, or text it rejects with the given message. */
  datatype FileContent = JsonText(doc: Json) | Unparsable(parseError: string)

  /** The exceptions a synchronous `fs` call or JSON.parse can throw. */
  datatype Error =
    | NoSuchFileOrDirectory(path: Path)  // ENOENT
    | NotADirectory(path: Path)          // ENOTDIR
    | IsADirectory(path: Path)           // EISDIR
    | AlreadyExists(path: Path)          // EEXIST
    | SyntaxError(message: string)       // from JSON.parse

  /** `error.message` of an exception, without the syscall and path that
      Node appends to its own messages. */
  function Message(e: Error): string {
    match e
    case NoSuchFileOrDirectory(_) => "ENOENT: no such file or directory"
    case NotADirectory(_) => "ENOTDIR: not a directory"
    case IsADirectory(_) => "EISDIR: illegal operation on a directory"
    case AlreadyExists(_) => "EEXIST: file already exists"
    case SyntaxError(m) => m
  }

  datatype Outcome = Pass | Fail(error: Error)
  datatype Result<T> = Ok(value: T) | Err(error: Error)

  datatype FsState = FsState(dirs: set<Path>, files: map<Path, FileContent>)

  /** The filesystem after a call, and whether the call threw. */
  datatype Step = Step(state: FsState, outcome: Outcome)

  /** fs.existsSync: a directory or a file is there; it answers false
      exactly when reading the path would throw ENOENT. */
  predicate Exists(s: FsState, p: Path)
    ensures !Exists(s, p) <==> ReadFile(s, p) == Err(NoSuchFileOrDirectory(p))
  {
    p in s.dirs || p in s.files
  }

  function Parent(p: Path): Path
    requires p != []
  {
    p[..|p| - 1]
  }

  /** The path itself and every ancestor of it, down to the root `[]`. */
  function Prefixes(p: Path): set<Path> {
    set k | 0 <= k <= |p| :: p[..k]
  }

  /** No ancestor of `p`, and not `p` itself, is a regular file. */
  predicate NoFileOnPath(s: FsState, p: Path) {
    forall k :: 0 <= k <= |p| ==> p[..k] !in s.files
  }

  /** A filesystem shaped as a tree: no path is both a directory and a file,
      and the parent of every directory and every file is a directory. */
  ghost predicate Valid(s: FsState) {
    && (forall p :: p in s.dirs ==> p !in s.files)
    && (forall d :: d in s.dirs && d != [] ==> d[..|d| - 1] in s.dirs)
    && (forall f :: f in s.files ==> f != [] && f[..|f| - 1] in s.dirs)
  }

  /** In a valid filesystem every ancestor of a directory is a directory. */
  lemma {:induction false} DirsPrefixClosed(s: FsState, d: Path, k: nat)
    requires Valid(s) && d in s.dirs && k <= |d|
    ensures d[..k] in s.dirs
    decreases |d|
  {
    if k < |d| {
      DirsPrefixClosed(s, Parent(d), k);
      assert Parent(d)[..k] == d[..k];
    } else {
      assert d[..k] == d;
    }
  }

  /** In a valid filesystem no ancestor of a directory is a file. */
  lemma DirHasNoFileOnPath(s: FsState, d: Path)
    requires Valid(s) && d in s.dirs
    ensures NoFileOnPath(s, d)
  {
    forall k | 0 <= k <= |d| ensures d[..k] !in s.files {
      DirsPrefixClosed(s, d, k);
    }
  }

  /** fs.mkdirSync(p, { recursive: true }): creates `p` and its missing
      ancestors; throws EEXIST when `p` is a file and ENOTDIR when an
      ancestor is, and then creates nothing. */
  function MkdirRecursive(s: FsState, p: Path): (r: Step)
    ensures r.outcome.Pass? <==> NoFileOnPath(s, p)
    ensures r.outcome.Fail? ==> r.state == s
    ensures r.outcome.Pass? ==>
      r.state.files == s.files && p in r.state.dirs &&
      s.dirs <= r.state.dirs <= s.dirs + Prefixes(p)
  {
    if p in s.files then
      assert p[..|p|] == p;
      Step(s, Fail(AlreadyExists(p)))
    else if !NoFileOnPath(s, p) then Step(s, Fail(NotADirectory(p)))
    else
      assert p[..|p|] == p;
      Step(s.(dirs := s.dirs + Prefixes(p)), Pass)
  }

  /** fs.writeFileSync(p, c): creates or replaces the file `p`; throws
      EISDIR when `p` is a directory, ENOTDIR when an ancestor is a file and
      ENOENT when its directory is missing. */
  function WriteFile(s: FsState, p: Path, c: FileContent): (r: Step)
    ensures r.outcome.Pass? <==> p !in s.dirs && p != [] && Parent(p) in s.dirs
    ensures r.outcome.Fail? ==> r.state == s
    ensures r.outcome.Pass? ==> r.state == s.(files := s.files[p := c])
  {
    if p in s.dirs then Step(s, Fail(IsADirectory(p)))
    else if p == [] then Step(s, Fail(NoSuchFileOrDirectory(p)))
    else if Parent(p) in s.dirs then Step(s.(files := s.files[p := c]), Pass)
    else if NoFileOnPath(s, Parent(p)) then Step(s, Fail(NoSuchFileOrDirectory(p)))
    else Step(s, Fail(NotADirectory(p)))
  }

  /** fs.readFileSync(p, 'utf8'): throws EISDIR on a directory and ENOENT
      on a missing path. */
  function ReadFile(s: FsState, p: Path): (r: Result<FileContent>)
    ensures r.Ok? <==> p in s.files && p !in s.dirs
    ensures r.Ok? ==> r.value == s.files[p]
    ensures p in s.dirs ==> r == Err(IsADirectory(p))
  {
    if p in s.dirs then Err(IsADirectory(p))
    else if p in s.files then Ok(s.files[p])
    else Err(NoSuchFileOrDirectory(p))
  }

  /** JSON.parse of a file's text: the document when the text is JSON,
      otherwise a SyntaxError whose message is the parser's. */
  function ParseJson(c: FileContent): (r: Result<Json>)
    ensures r.Ok? <==> c.JsonText?
    ensures r.Ok? ==> r.value == c.doc
    ensures r.Err? ==> r.error.SyntaxError? && Message(r.error) == c.parseError
  {
    match c
    case JsonText(doc) => Ok(doc)
    case Unparsable(m) => Err(SyntaxError(m))
  }

  /** Creating directories keeps the filesystem a tree. */
  lemma MkdirRecursivePreservesValid(s: FsState, p: Path)
    requires Valid(s)
    ensures Valid(MkdirRecursive(s, p).state)
  {
    var r := MkdirRecursive(s, p);
    if r.outcome.Pass? {
      var t := r.state;
      forall d | d in t.dirs && d != [] ensures d[..|d| - 1] in t.dirs {
        if d !in s.dirs {
          var k :| 0 <= k <= |p| && d == p[..k];
          assert d[..|d| - 1] == p[..k - 1];
        }
      }
      forall d | d in t.dirs ensures d !in t.files {
        if d !in s.dirs {
          var k :| 0 <= k <= |p| && d == p[..k];
        }
      }
    }
  }

  /** Writing a file keeps the filesystem a tree. */
  lemma WriteFilePreservesValid(s: FsState, p: Path, c: FileContent)
    requires Valid(s)
    ensures Valid(WriteFile(s, p, c).state)
  {
  }
}
