/// The repository manifest (`packages.json`): repository metadata, the
/// package list and the time it was written, and its JSON form.
module Manifest {
  import opened Json

  datatype RepositoryInfo = RepositoryInfo(
    name: string,
    version: string,
    url: string,
    description: string,
    maintainer: Option<string>)

  /** Package entries are passed through as they are, so they stay JSON. */
  datatype Manifest = Manifest(
    repository: RepositoryInfo,
    packages: seq<Json>,
    lastUpdated: string)

  /** The members every `repository` object starts with, before the
      optional `maintainer`. */
  function InfoMembers(info: RepositoryInfo): seq<(string, Json)> {
    [ ("name", JString(info.name)),
      ("version", JString(info.version)),
      ("url", JString(info.url)),
      ("description", JString(info.description)) ]
  }

  /** The `repository` object, its keys in the order the server writes them;
      `maintainer` only when there is one. */
  function EncodeInfo(info: RepositoryInfo): Json {
    match info.maintainer
    case Some(m) => JObject(InfoMembers(info) + [("maintainer", JString(m))])
    case None => JObject(InfoMembers(info))
  }

  function Encode(m: Manifest): Json {
    JObject(
      [ ("repository", EncodeInfo(m.repository)),
        ("packages", JArray(m.packages)),
        ("lastUpdated", JString(m.lastUpdated)) ])
  }

  /** Reads the `repository` object back; a `maintainer` that is present
      but not a string is rejected. */
  function DecodeInfo(j: Json): Option<RepositoryInfo> {
    var name := StringField(j, "name");
    var version := StringField(j, "version");
    var url := StringField(j, "url");
    var description := StringField(j, "description");
    var maintainer := StringField(j, "maintainer");
    if name.None? || version.None? || url.None? || description.None? then None
    else if Field(j, "maintainer").Some? && maintainer.None? then None
    else Some(RepositoryInfo(name.value, version.value, url.value, description.value, maintainer))
  }

  /** Reads a manifest back from a JSON document, when it has that shape. */
  function Decode(j: Json): Option<Manifest> {
    var repository := Field(j, "repository");
    var packages := Field(j, "packages");
    var lastUpdated := StringField(j, "lastUpdated");
    if repository.None? || packages.None? || !packages.value.JArray? || lastUpdated.None? then None
    else if DecodeInfo(repository.value).None? then None
    else Some(Manifest(DecodeInfo(repository.value).value, packages.value.items, lastUpdated.value))
  }

  /** A string member of the `repository` object reads back. */
  lemma DecodeInfoMember(info: RepositoryInfo, i: nat, key: string, value: string)
    requires i < 4 && InfoMembers(info)[i] == (key, JString(value))
    ensures StringField(EncodeInfo(info), key) == Some(value)
  {
    var ms := EncodeInfo(info).members;
    assert ms[..4] == InfoMembers(info);
    MemberAt(ms, i, key);
  }

  lemma DecodeEncodeInfo(info: RepositoryInfo)
    ensures DecodeInfo(EncodeInfo(info)) == Some(info)
  {
    var j := EncodeInfo(info);
    DecodeInfoMember(info, 0, "name", info.name);
    DecodeInfoMember(info, 1, "version", info.version);
    DecodeInfoMember(info, 2, "url", info.url);
    DecodeInfoMember(info, 3, "description", info.description);
    if info.maintainer.Some? {
      MemberAt(j.members, 4, "maintainer");
    } else {
      MemberAbsent(j.members, "maintainer");
    }
  }

  /** Writing a manifest as JSON and reading it back gives the same
      manifest, its package list in the same order. */
  lemma DecodeEncode(m: Manifest)
    ensures Decode(Encode(m)) == Some(m)
  {
    var j := Encode(m);
    assert Field(j, "repository") == Some(EncodeInfo(m.repository)) by {
      MemberAt(j.members, 0, "repository");
    }
    assert Field(j, "packages") == Some(JArray(m.packages)) by { MemberAt(j.members, 1, "packages"); }
    assert StringField(j, "lastUpdated") == Some(m.lastUpdated) by {
      MemberAt(j.members, 2, "lastUpdated");
    }
    DecodeEncodeInfo(m.repository);
  }
}
