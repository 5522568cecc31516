# SystemOS package repository server — repository state model

A Dafny model of the repository-state behaviour of `RepositoryServer` in
`server.js`. The server publishes a package catalog (`packages.json`) and
serves package files from `repository/packages/<packageName>/<filename>`.
The model covers:

- **Startup** (`ensureDirectories`): create `repoPath` and `packagesPath`
  when missing, then write the initial `packages.json` when nothing is at its
  path. This code updates the filesystem step by step. It is modelled as the
  method `EnsureDirectories` of the class `Server.RepositoryServer`, whose
  fields hold the filesystem (`dirs`, `files`). The method is proved equal to
  the specification function `Startup.Bootstrap`, and the lemmas in
  `Startup` prove what that function guarantees.
- **`GET /packages.json`** (`Handlers.Catalog`) returns one of three things.
  With no manifest on disk it returns a default catalog. When the stored file
  parses, it returns the parsed document. When the read or the parse throws,
  it returns a 500 with the error's message.
- **`GET /packages/:packageName/:filename`** (`Handlers.Download`): a 404
  when nothing is at `packagesPath/packageName/filename`. Otherwise it sets
  headers chosen by the file name's suffix (`.syos` or `.syfo`) and sends
  the file. When a found `.syos` name holds a character that Node refuses in
  a header value, `setHeader` throws. The handler's catch then answers 500.
- **`GET /`** (`Handlers.Info`): the fixed description of the server.

The filesystem is abstract: `Fs.FsState` is a set of directory paths plus a
map from file paths to contents. A path is a list of segments, and
`path.join` concatenates those lists. `Fs.Valid` says the filesystem is a
tree: no path is both a directory and a file, and every parent is a
directory. The `fs` calls the server makes are modelled with their error
cases:

- `existsSync` is `Fs.Exists`.
- `mkdirSync(…, {recursive: true})` is `Fs.MkdirRecursive`. It throws EEXIST
  or ENOTDIR when a file sits on the path.
- `writeFileSync` is `Fs.WriteFile`. It throws EISDIR, ENOTDIR or ENOENT.
- `readFileSync` is `Fs.ReadFile`. It throws EISDIR on a directory.
- `JSON.parse` is `Fs.ParseJson`.

A file's content is either a JSON document (text that `JSON.parse` accepts)
or unparsable text, which carries the message the parser raises. The
manifest is the datatype `Manifest.Manifest`, and its JSON form is
`Manifest.Encode`. `Manifest.Decode` reads that form back, and the model
uses it to state what the catalog serves.

The model follows these behaviours of the code:

- The code never validates `packageName` or `filename`. There is no 400 and
  no rejection of `..`, separators or NUL bytes, and any segment is joined
  as given. `Handlers.Download` answers 200, 404, or the 500 of its catch.
  That 500 happens only when a `.syos` name cannot go in a header.
- The manifest is `repository/packages.json`.
- A manifest that fails to parse is not a separate error kind. It becomes a
  500 carrying the parser's message, and nothing is repaired.
- The fallback catalog is not identical to the bootstrap manifest. It has no
  `maintainer`. `Handlers.CatalogWhenAbsent` states exactly how the two
  differ.

## Model

| member | source | states |
|---|---|---|
| Server.RepositoryServer.constructor | server.js:16-20 | `repoPath` is the install directory joined with `repository`, and `packagesPath` is `repoPath` joined with `packages` |
| Server.RepositoryServer.EnsureDirectories | server.js:140-165 | the new filesystem and the outcome are exactly those of `Startup.Bootstrap` on the old filesystem. No directory or file that existed is removed or changed. On success `repoPath`, `packagesPath` and `packages.json` exist. With no file on the `repoPath` chain it succeeds and `repoPath` is a directory. A tree-shaped filesystem stays tree-shaped, and the call then fails exactly when a file sits on the `repoPath` chain |
| Startup.EnsureDir | server.js:142-146 | one turn of the loop: it fails exactly when nothing is at the directory and a file sits on its chain. On success the directory exists. Files never change, and directories are only added, and only the directory and its ancestors. On failure or when something was there, nothing changes |
| Startup.BootstrapKeepsExisting | server.js:143-164 | startup never overwrites. Existing directories and files stay as they were. The only new directories are `repoPath`, `packagesPath` and their ancestors. The file map changes only by adding the initial manifest, and only when nothing was at `packages.json` and no call threw |
| Startup.EnsureDirs | server.js:141-146 | the `forEach` over the directory list never touches a file and never removes a directory. When no call threw, every directory in the list exists afterwards |
| Startup.Bootstrap | server.js:140-165 | startup removes no directory and no file. After a startup that did not throw, `repoPath`, `packagesPath` and `packages.json` all exist |
| Startup.BootstrapEstablishesKinds | server.js:141-164 | when no regular file sits on the `repoPath` chain, startup succeeds and `repoPath` is a directory. `packagesPath` is then a directory unless a file of that name was there before, and `packages.json` is a file unless a directory of that name was there before |
| Startup.BootstrapSucceedsIff | server.js:141-163 | in a tree-shaped filesystem startup succeeds if and only if neither `repoPath` nor any ancestor of it is a regular file |
| Startup.BootstrapIdempotent | server.js:143-150 | running startup a second time, at any later clock value, leaves the filesystem as the first run left it and reports the same outcome |
| Startup.BootstrapPreservesValid | server.js:140-165 | startup keeps a tree-shaped filesystem tree-shaped |
| Startup.BootstrapGuarantees | server.js:140-165 | the guarantees above in one statement, as `EnsureDirectories` uses them |
| Layout.InitialManifest | server.js:151-161 | the bootstrap manifest has no packages, name 'SystemOS Official Repository', version '1.0.0', a maintainer, and the given timestamp |
| Layout.DefaultCatalog | server.js:65-74 | the fallback catalog has no packages and no `maintainer`, the default name and version, the url `http://localhost:<port>`, and the request's timestamp |
| Layout.DefaultCatalogIsInitialWithoutMaintainer | server.js:64-75 | the fallback catalog is the bootstrap manifest with `maintainer` removed: the same name, version, url and description, and no packages |
| Layout.LayoutDisjoint | server.js:19-20 | `packagesPath` and the manifest path are different paths under `repoPath`, and neither is an ancestor of the other |
| Manifest.DecodeEncode | server.js:151-163 | a manifest written as JSON reads back as the same manifest, its packages in the same order |
| Manifest.DecodeEncodeInfo | server.js:152-158 | the `repository` object reads back as the same metadata. `maintainer` is present exactly when it was written |
| Fs.MkdirRecursive | server.js:144 | recursive mkdir succeeds exactly when no file sits on the path. It then creates the path and only its ancestors. When it throws it changes nothing |
| Fs.WriteFile | server.js:163 | writing succeeds exactly when the path is not a directory and its parent is one. It then sets that one file. When it throws it changes nothing |
| Fs.ReadFile | server.js:77 | reading gives the stored content exactly when the path is a file and not a directory. Reading a directory throws EISDIR |
| Fs.Exists | server.js:93 | `existsSync` answers false exactly when reading the path would throw ENOENT |
| Fs.ParseJson | server.js:77 | parsing gives the stored document exactly when the text is JSON. Otherwise it throws a SyntaxError carrying the parser's message |
| Handlers.Info | server.js:48-58 | `GET /` answers 200 with the server's name and the two routes `/packages.json` and `/packages/:packageName/:filename` |
| Handlers.Catalog | server.js:61-84 | the catalog answers 200 or 500 and sets no headers. It answers 500 exactly when `packages.json` is a directory or holds text that does not parse. Otherwise, when the file is there, the body is the parsed document |
| Handlers.CatalogWhenAbsent | server.js:64-75 | with nothing at `packages.json` the answer is 200, and the body reads back as the default catalog, which is the bootstrap manifest without `maintainer` |
| Handlers.CatalogErrorMessage | server.js:79-83 | a 500 carries `{error: message}`. The message is EISDIR's when the manifest path is a directory, and the parser's own message when the text does not parse |
| Handlers.CatalogReadsOnlyManifest | server.js:63-78 | the catalog depends only on what is at `packages.json`, because it is read afresh on each request with no cache. It depends on the clock only when nothing is there |
| Handlers.CatalogAfterBootstrap | server.js:63-78 | after a successful startup the fallback is never taken. A manifest that startup wrote is served back as exactly the initial manifest: no packages and the default name. A manifest that was already there is served just as before startup |
| Handlers.Classify | server.js:100-105 | a name is a binary artifact exactly when it ends in `.syos`, and a manifest fragment exactly when it ends in `.syfo`. No name ends in both, so the order of the two tests never matters |
| Handlers.ContentHeaders | server.js:100-105 | a `.syos` name gets `Content-Type: application/octet-stream` and `Content-Disposition: attachment; filename="<filename>"`. A `.syfo` name gets `application/json` and no disposition. Any other name gets neither header |
| Handlers.ArtifactPath | server.js:91 | the file looked up is the packages directory with the package name and the file name appended below it, in that order and unchecked |
| Handlers.DispositionSafe | server.js:100-102 | the disposition header value is acceptable to Node exactly when the requested file name is |
| Handlers.Download | server.js:87-113 | the download answers 200, 404 or 500, and never rejects a segment. It answers 404 `{error: 'File not found'}` exactly when nothing is at `packagesPath/packageName/filename`. It answers 500 exactly when the file is there, the name ends in `.syos`, and the name holds a character Node refuses in a header. That 500 keeps the octet-stream Content-Type and carries `{error: 'Invalid character in header content ["Content-Disposition"]'}`. A 200 sends the file at exactly that join |
| Handlers.DownloadHeaders | server.js:93-112 | a 404 sets no content header. The 500 of a refused `.syos` name keeps `application/octet-stream` and has no disposition. A 200 `.syos` file has a name Node accepts, and it gets `application/octet-stream` and `Content-Disposition: attachment; filename="<filename>"`. A `.syfo` file gets `application/json` and no disposition. Any other file gets neither header |
| Handlers.DownloadRejectsNonLatin1Name | server.js:100-112 | a found `п.syos` is answered with the 500 rather than with the file |

## Left out

- Express wiring is not modelled: helmet, cors, compression, `express.json`, the catch-all 404 and the error handler. These are framework behaviour. The `express.static` mount on `/packages` is left out too. It is registered before the download route, so in the running server it answers for existing files before the route does. The route precedence is not modelled.
- Request logging, `start` and `listen` are console and network I/O.
- The `/health` endpoint only reports wall-clock time and process uptime.
- Clocks: `lastUpdated` is the parameter `now`, an opaque timestamp string.
- `PORT` from the environment is the `port` text in `Layout.Config`.
- JSON text: parsing and `JSON.stringify(…, null, 2)` formatting are not modelled. A file holds either a parsed document or unparsable text.
- Handlers.Catalog: the stored document stands for the JavaScript value `JSON.parse` builds, and the body is that value. The model does not capture what `res.json` changes when it writes the value out again. Repeated keys collapse, integer-like keys move first, and numbers are respelled. Array order, and so the order of the packages, is kept.
- `res.sendFile` streaming is not modelled: the response names the path to send. Also not modelled: what `sendFile` does with a directory, the Content-Type it adds on its own, and the Content-Type that `res.json` adds.
- `path.join` normalisation: `..`, `.`, empty segments and separators inside a segment are not resolved. A joined path is the list of its segments. `existsSync` reporting false for a path with a NUL byte is not modelled either.
- Error messages carry Node's code and description, but not the syscall and path Node appends. Permission errors (EACCES) and other I/O failures are not modelled.
- Concurrency: each handler sees one filesystem snapshot. A file removed between `existsSync` and `readFileSync` is not modelled.
- Server.RepositoryServer.constructor: the source constructor calls `ensureDirectories` itself, and an exception there aborts construction. In the model the constructor only sets the paths and the filesystem. `EnsureDirectories` is a separate call that returns the exception as an `Outcome`.
