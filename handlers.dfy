/// The route handlers of RepositoryServer that look at the repository:
/// `GET /`, `GET /packages.json` and `GET /packages/:packageName/:filename`,
/// each a function of the configuration, the filesystem and the request.
module Handlers {
  import opened Json
  import opened Fs
  import opened Manifest
  import opened Layout
  import opened Startup

  /** The body a handler sends: a JSON document (`res.json`) or the file
      at a path (`res.sendFile`). */
  datatype Body = JsonBody(value: Json) | FileBody(path: Path)

  /** A handler's reply: the status, the headers the handler sets itself
      (those Express adds on its own are not listed), and the body. */
  datatype Response = Response(status: int, headers: seq<(string, string)>, body: Body)

  /** `res.status(status).json({ error: message })`. */
  function ErrorResponse(status: int, message: string): Response {
    Response(status, [], JsonBody(JObject([("error", JString(message))])))
  }

  /** The value of a header the handler set; the last one set wins. */
  function Header(headers: seq<(string, string)>, name: string): Option<string>
    decreases |headers|
  {
    if headers == [] then None
    else if headers[|headers| - 1].0 == name then Some(headers[|headers| - 1].1)
    else Header(headers[..|headers| - 1], name)
  }

  // ---------------------------------------------------------------- GET /

  const INFO_NAME := "SystemOS Package Repository"
  const CATALOG_ROUTE := "/packages.json"
  const DOWNLOAD_ROUTE := "/packages/:packageName/:filename"

  /** GET /: a fixed description of the server that names it and points
      at the catalog and download routes; it depends on no state. */
  function Info(): (r: Response)
    ensures r.status == 200 && r.headers == [] && r.body.JsonBody?
    ensures StringField(r.body.value, "name") == Some(INFO_NAME)
    ensures Field(r.body.value, "endpoints").Some?
    ensures StringField(Field(r.body.value, "endpoints").value, "packages") == Some(CATALOG_ROUTE)
    ensures StringField(Field(r.body.value, "endpoints").value, "download") == Some(DOWNLOAD_ROUTE)
  {
    var endpoints :=
      [ ("packages", JString(CATALOG_ROUTE)),
        ("download", JString(DOWNLOAD_ROUTE)) ];
    var members :=
      [ ("name", JString(INFO_NAME)),
        ("version", JString("1.0.0")),
        ("description", JString("SystemOS package repository server")),
        ("endpoints", JObject(endpoints)) ];
    MemberAt(members, 0, "name");
    MemberAt(members, 3, "endpoints");
    MemberAt(endpoints, 0, "packages");
    MemberAt(endpoints, 1, "download");
    Response(200, [], JsonBody(JObject(members)))
  }

  // --------------------------------------------------- GET /packages.json

  /** GET /packages.json: the default catalog when nothing is at the
      manifest's path; otherwise the parsed manifest as it is stored, or a
      500 carrying the message of what readFileSync or JSON.parse threw.
      Never writes. */
  function Catalog(c: Config, s: FsState, now: string): (r: Response)
    ensures r.headers == [] && r.body.JsonBody?
    ensures r.status == 200 || r.status == 500
    ensures r.status == 500 <==>
      ManifestPath(c) in s.dirs ||
      (ManifestPath(c) in s.files && s.files[ManifestPath(c)].Unparsable?)
    ensures ManifestPath(c) !in s.dirs && ManifestPath(c) in s.files &&
            s.files[ManifestPath(c)].JsonText? ==>
      r.body.value == s.files[ManifestPath(c)].doc
  {
    var file := ManifestPath(c);
    if !Exists(s, file) then Response(200, [], JsonBody(Encode(DefaultCatalog(c, now))))
    else match ReadFile(s, file)
      case Err(e) => ErrorResponse(500, Message(e))
      case Ok(text) =>
        match ParseJson(text)
        case Err(e) => ErrorResponse(500, Message(e))
        case Ok(doc) => Response(200, [], JsonBody(doc))
  }

  /** With no manifest on disk the catalog is the bootstrap manifest
      without a maintainer: no packages, the same name, version, url and
      description. */
  lemma CatalogWhenAbsent(c: Config, s: FsState, now: string)
    requires !Exists(s, ManifestPath(c))
    ensures Catalog(c, s, now).status == 200
    ensures Decode(Catalog(c, s, now).body.value) == Some(DefaultCatalog(c, now))
    ensures var m := InitialManifest(c, now);
      DefaultCatalog(c, now) == m.(repository := m.repository.(maintainer := None))
  {
    DecodeEncode(DefaultCatalog(c, now));
    DefaultCatalogIsInitialWithoutMaintainer(c, now);
  }

  /** The error a failed catalog request reports: EISDIR when the manifest
      path is a directory, the parser's message when the text is not JSON. */
  lemma CatalogErrorMessage(c: Config, s: FsState, now: string)
    requires Catalog(c, s, now).status == 500
    ensures ManifestPath(c) in s.dirs ==>
      Catalog(c, s, now) == ErrorResponse(500, "EISDIR: illegal operation on a directory")
    ensures ManifestPath(c) !in s.dirs ==>
      Catalog(c, s, now) == ErrorResponse(500, s.files[ManifestPath(c)].parseError)
  {
  }

  /** The catalog is read afresh on every request: it depends on nothing
      but what is at the manifest's path, and on the clock only when
      nothing is there. */
  lemma CatalogReadsOnlyManifest(c: Config, s: FsState, t: FsState, now: string, later: string)
    requires ManifestPath(c) in s.dirs <==> ManifestPath(c) in t.dirs
    requires ManifestPath(c) in s.files <==> ManifestPath(c) in t.files
    requires ManifestPath(c) in s.files ==> s.files[ManifestPath(c)] == t.files[ManifestPath(c)]
    requires Exists(s, ManifestPath(c)) || now == later
    ensures Catalog(c, s, now) == Catalog(c, t, later)
  {
  }

  /** Bootstrap, then the catalog: a manifest bootstrap wrote is served
      back as exactly that manifest (no packages, the default name); one
      that was there before is served as the catalog would have served it
      before; the fallback is never taken. */
  lemma CatalogAfterBootstrap(c: Config, s: FsState, now: string, later: string)
    requires Bootstrap(c, s, now).outcome.Pass?
    ensures var t := Bootstrap(c, s, now).state;
      Exists(t, ManifestPath(c)) &&
      if Exists(s, ManifestPath(c)) then Catalog(c, t, later) == Catalog(c, s, later)
      else
        && Catalog(c, t, later).status == 200
        && Decode(Catalog(c, t, later).body.value) == Some(InitialManifest(c, now))
        && InitialManifest(c, now).packages == []
        && InitialManifest(c, now).repository.name == REPOSITORY_NAME
  {
    var t := Bootstrap(c, s, now).state;
    var m := ManifestPath(c);
    BootstrapKeepsExisting(c, s, now);
    LayoutDisjoint(c);
    if Exists(s, m) {
      assert m in s.dirs ==> m in t.dirs;
      assert m in t.dirs ==> m in s.dirs;
      CatalogReadsOnlyManifest(c, s, t, later, later);
    } else {
      assert m in t.files && t.files[m] == JsonText(Encode(InitialManifest(c, now)));
      assert m !in t.dirs;
      DecodeEncode(InitialManifest(c, now));
    }
  }

  // ------------------------------------ GET /packages/:packageName/:filename

  /** What a file is for, judged by its suffix alone. */
  datatype ContentKind = BinaryArtifact | ManifestFragment | Unknown

  predicate EndsWith(s: string, suffix: string) {
    |suffix| <= |s| && s[|s| - |suffix|..] == suffix
  }

  /** `.syos` files are package archives, `.syfo` files package metadata.
      No name has both suffixes, so the order of the two tests is immaterial. */
  function Classify(filename: string): (k: ContentKind)
    ensures k == BinaryArtifact <==> EndsWith(filename, ".syos")
    ensures k == ManifestFragment <==> EndsWith(filename, ".syfo")
  {
    if EndsWith(filename, ".syos") then BinaryArtifact
    else if EndsWith(filename, ".syfo") then ManifestFragment
    else Unknown
  }

  /** The Content-Disposition value the handler sets for an archive. */
  function Disposition(filename: string): string {
    "attachment; filename=\"" + filename + "\""
  }

  /** The characters Node accepts in a header value: tab, printable ASCII
      and the bytes 0x80 to 0xFF; setHeader throws on any other. */
  predicate HeaderChar(ch: char) {
    ch == '\t' || (' ' <= ch <= '~') || ('\U{80}' <= ch <= '\U{FF}')
  }

  predicate HeaderSafe(v: string) {
    forall i :: 0 <= i < |v| ==> HeaderChar(v[i])
  }

  /** The fixed parts of the disposition are safe, so it is safe exactly
      when the requested file name is. */
  lemma DispositionSafe(filename: string)
    ensures HeaderSafe(Disposition(filename)) <==> HeaderSafe(filename)
  {
    var d := Disposition(filename);
    var n := |"attachment; filename=\""|;
    assert |d| == n + |filename| + 1;
    assert forall i :: 0 <= i < |filename| ==> d[n + i] == filename[i];
    assert forall i :: 0 <= i < n ==> HeaderChar(d[i]);
    assert HeaderChar(d[|d| - 1]);
    if HeaderSafe(filename) {
      forall i | 0 <= i < |d|
        ensures HeaderChar(d[i])
      {
        if n <= i < n + |filename| {
          assert d[i] == filename[i - n];
        }
      }
    }
  }

  /** The headers the download handler sets for a file it found: an
      octet-stream attachment under the requested name for `.syos`, JSON
      and no attachment for `.syfo`, neither header for any other name. */
  function ContentHeaders(filename: string): (h: seq<(string, string)>)
    ensures EndsWith(filename, ".syos") ==>
      Header(h, "Content-Type") == Some("application/octet-stream") &&
      Header(h, "Content-Disposition") == Some(Disposition(filename))
    ensures EndsWith(filename, ".syfo") ==>
      Header(h, "Content-Type") == Some("application/json") &&
      Header(h, "Content-Disposition") == None
    ensures !EndsWith(filename, ".syos") && !EndsWith(filename, ".syfo") ==>
      Header(h, "Content-Type") == None && Header(h, "Content-Disposition") == None
  {
    match Classify(filename)
    case BinaryArtifact =>
      [ ("Content-Type", "application/octet-stream"),
        ("Content-Disposition", Disposition(filename)) ]
    case ManifestFragment => [("Content-Type", "application/json")]
    case Unknown => []
  }

  /** path.join(packagesPath, packageName, filename): the two request
      segments, in order, one and two levels below the packages directory.
      They are not checked: `..` or an empty name is joined like any other. */
  function ArtifactPath(c: Config, packageName: string, filename: string): (p: Path)
    ensures |p| == |PackagesPath(c)| + 2 && p[..|PackagesPath(c)|] == PackagesPath(c)
    ensures p[|p| - 2] == packageName && p[|p| - 1] == filename
  {
    PackagesPath(c) + [packageName, filename]
  }

  /** The error setHeader throws on an archive name Node will not put in
      a header, as the handler's catch reports it. */
  const INVALID_DISPOSITION := "Invalid character in header content [\"Content-Disposition\"]"

  /** GET /packages/:packageName/:filename: 404 when nothing is at the
      joined path; a 500 when the name of a found archive cannot go in the
      Content-Disposition header (the Content-Type set just before stays);
      otherwise the content headers and the file. */
  function Download(c: Config, s: FsState, packageName: string, filename: string): (r: Response)
    ensures r.status == 200 || r.status == 404 || r.status == 500
    ensures r.status == 404 <==> !Exists(s, ArtifactPath(c, packageName, filename))
    ensures r.status == 404 ==> r == ErrorResponse(404, "File not found")
    ensures r.status == 500 <==>
      Exists(s, ArtifactPath(c, packageName, filename)) &&
      EndsWith(filename, ".syos") && !HeaderSafe(filename)
    ensures r.status == 500 ==>
      r.headers == [("Content-Type", "application/octet-stream")] &&
      r.body == JsonBody(JObject([("error", JString(INVALID_DISPOSITION))]))
    ensures r.status == 200 ==>
      r.body == FileBody(c.repoPath + ["packages", packageName, filename])
  {
    var file := ArtifactPath(c, packageName, filename);
    assert file == c.repoPath + ["packages", packageName, filename];
    DispositionSafe(filename);
    if !Exists(s, file) then ErrorResponse(404, "File not found")
    else if Classify(filename) == BinaryArtifact && !HeaderSafe(Disposition(filename)) then
      Response(500, [("Content-Type", "application/octet-stream")],
               JsonBody(JObject([("error", JString(INVALID_DISPOSITION))])))
    else Response(200, ContentHeaders(filename), FileBody(file))
  }

  /** The headers of a download: a found `.syos` with a name Node accepts
      gives an octet-stream attachment under that name, one it rejects
      keeps only the octet-stream type; `.syfo` gives JSON and no
      attachment; any other name sets neither header, and neither does a
      download that was not found. */
  lemma DownloadHeaders(c: Config, s: FsState, packageName: string, filename: string)
    ensures var r := Download(c, s, packageName, filename);
      && (r.status == 404 ==>
            Header(r.headers, "Content-Type") == None &&
            Header(r.headers, "Content-Disposition") == None)
      && (r.status == 500 ==>
            Header(r.headers, "Content-Type") == Some("application/octet-stream") &&
            Header(r.headers, "Content-Disposition") == None)
      && (r.status == 200 && EndsWith(filename, ".syos") ==>
            HeaderSafe(filename) &&
            Header(r.headers, "Content-Type") == Some("application/octet-stream") &&
            Header(r.headers, "Content-Disposition") == Some(Disposition(filename)))
      && (r.status == 200 && EndsWith(filename, ".syfo") ==>
            Header(r.headers, "Content-Type") == Some("application/json") &&
            Header(r.headers, "Content-Disposition") == None)
      && (r.status == 200 && !EndsWith(filename, ".syos") && !EndsWith(filename, ".syfo") ==>
            Header(r.headers, "Content-Type") == None &&
            Header(r.headers, "Content-Disposition") == None)
  {
  }

  /** A found archive whose name holds a Cyrillic letter is answered with
      the 500, not the file. */
  lemma DownloadRejectsNonLatin1Name(c: Config, s: FsState, packageName: string)
    requires Exists(s, ArtifactPath(c, packageName, "п.syos"))
    ensures Download(c, s, packageName, "п.syos").status == 500
  {
    assert !HeaderChar("п.syos"[0]);
    assert EndsWith("п.syos", ".syos");
  }
}
