/// Where a RepositoryServer keeps its state, and the two default manifests
/// it produces: the one bootstrap writes and the one the catalog falls back to.
module Layout {
  import opened Json
  import opened Fs
  import opened Manifest

  /** The server's configuration: the port (PORT from the environment, or
      3000) as text, and `repoPath`, which is `<install dir>/repository`. */
  datatype Config = Config(port: string, repoPath: Path)

  /** `packagesPath`: where the package files live. */
  function PackagesPath(c: Config): Path {
    c.repoPath + ["packages"]
  }

  /** The manifest file, `packages.json`, directly under `repoPath`. */
  function ManifestPath(c: Config): Path {
    c.repoPath + ["packages.json"]
  }

  function BaseUrl(c: Config): string {
    "http://localhost:" + c.port
  }

  const REPOSITORY_NAME := "SystemOS Official Repository"
  const REPOSITORY_VERSION := "1.0.0"
  const REPOSITORY_DESCRIPTION := "Official SystemOS package repository"
  const MAINTAINER := "SystemOS Development Team"

  /** The manifest bootstrap writes into an empty repository. */
  function InitialManifest(c: Config, now: string): (m: Manifest)
    ensures m.packages == []
    ensures m.repository.name == REPOSITORY_NAME && m.repository.version == REPOSITORY_VERSION
    ensures m.repository.maintainer.Some?
    ensures m.lastUpdated == now
  {
    Manifest(
      RepositoryInfo(REPOSITORY_NAME, REPOSITORY_VERSION, BaseUrl(c), REPOSITORY_DESCRIPTION, Some(MAINTAINER)),
      [],
      now)
  }

  /** The catalog served while no manifest file is there. */
  function DefaultCatalog(c: Config, now: string): (m: Manifest)
    ensures m.packages == [] && m.repository.maintainer == None
    ensures m.repository.name == REPOSITORY_NAME && m.repository.version == REPOSITORY_VERSION
    ensures m.repository.url == BaseUrl(c) && m.lastUpdated == now
  {
    Manifest(
      RepositoryInfo(REPOSITORY_NAME, REPOSITORY_VERSION, BaseUrl(c), REPOSITORY_DESCRIPTION, None),
      [],
      now)
  }

  /** The fallback catalog is the bootstrap manifest without its
      `maintainer`: same name, version, url, description, no packages. */
  lemma DefaultCatalogIsInitialWithoutMaintainer(c: Config, now: string)
    ensures DefaultCatalog(c, now) ==
      var m := InitialManifest(c, now); m.(repository := m.repository.(maintainer := None))
  {
  }

  /** Neither the package directory nor the manifest file contains the other. */
  lemma LayoutDisjoint(c: Config)
    ensures PackagesPath(c) != ManifestPath(c)
    ensures PackagesPath(c) !in Prefixes(c.repoPath) && ManifestPath(c) !in Prefixes(c.repoPath)
    ensures ManifestPath(c) !in Prefixes(PackagesPath(c))
    ensures PackagesPath(c)[..|c.repoPath|] == c.repoPath && ManifestPath(c)[..|c.repoPath|] == c.repoPath
  {
    var m := ManifestPath(c);
    var p := PackagesPath(c);
    assert m[|c.repoPath|] != p[|c.repoPath|];
  }
}
