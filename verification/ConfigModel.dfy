/** The `volo.yml` configuration: entries, services and repositories. */
module ConfigModel {
  import opened Bytes

  // ---- paths ---------------------------------------------------------------------------------

  /** A path by its components; comparison of paths is component-wise. */
  datatype Path = Path(absolute: bool, parts: seq<string>)

  function StripSlash(p: Path): Path {
    Path(false, p.parts)
  }

  function Parent(p: Path): Path {
    if p.absolute then p else Path(false, [".."] + p.parts)
  }

  function Join(dir: Path, p: Path): Path {
    if p.absolute then p else Path(dir.absolute, dir.parts + p.parts)
  }

  /** Position of the last occurrence of `c`, or -1. */
  function LastOf(c: char, s: string): (n: int)
    ensures -1 <= n < |s|
  {
    if s == "" then -1 else if s[|s| - 1] == c then |s| - 1 else LastOf(c, s[..|s| - 1])
  }

  /** The extension of the last component; a leading dot starts no extension. */
  function Extension(p: Path): Option<string> {
    if p.parts == [] || p.parts[|p.parts| - 1] in {".", ".."} then None
    else
      var name := p.parts[|p.parts| - 1];
      var dot := LastOf('.', name);
      if dot <= 0 then None else Some(name[dot + 1..])
  }

  datatype Protocol = Thrift | Protobuf

  /** `detect_protocol`; `None` is the exit on any other extension. */
  function Detect(p: Path): Option<Protocol> {
    match Extension(p)
    case None => None
    case Some(e) => if e == "thrift" then Some(Thrift) else if e == "proto" then Some(Protobuf) else None
  }

  /** The last component is a non-empty stem followed by `suffix`. */
  predicate Named(p: Path, suffix: string) {
    && p.parts != []
    && var name := p.parts[|p.parts| - 1];
    && |name| > |suffix| && name[|name| - |suffix|..] == suffix
  }

  /** What the file of a protocol is called. */
  predicate NamedFor(p: Path, protocol: Protocol) {
    if protocol.Thrift? then Named(p, ".thrift") else Named(p, ".proto")
  }

  lemma {:induction false} LastOfSuffix(c: char, a: string, b: string)
    requires c !in b
    ensures LastOf(c, a + [c] + b) == |a|
    decreases |b|
  {
    var s := a + [c] + b;
    if b == "" {
      assert s[|s| - 1] == c;
    } else {
      assert s[|s| - 1] == b[|b| - 1] && b[|b| - 1] in b;
      assert s[..|s| - 1] == a + [c] + b[..|b| - 1];
      LastOfSuffix(c, a, b[..|b| - 1]);
    }
  }

  lemma {:induction false} LastOfIsLast(c: char, s: string)
    ensures LastOf(c, s) >= 0 ==> s[LastOf(c, s)] == c && c !in s[LastOf(c, s) + 1..]
    decreases |s|
  {
    if s != "" && s[|s| - 1] != c {
      LastOfIsLast(c, s[..|s| - 1]);
      var n := LastOf(c, s);
      if n >= 0 {
        assert s[n + 1..] == s[..|s| - 1][n + 1..] + [s[|s| - 1]];
      }
    }
  }

  lemma ExtensionEnds(name: string, e: string)
    requires LastOf('.', name) > 0 && name[LastOf('.', name) + 1..] == e
    ensures |name| > |e| + 1 && name[|name| - |e| - 1..] == "." + e
  {
    hide LastOf;
    var dot := LastOf('.', name);
    LastOfIsLast('.', name);
    assert name[dot..] == [name[dot]] + name[dot + 1..];
  }

  lemma EndsInExtension(name: string, e: string)
    requires e != "" && '.' !in e && |name| > |e| + 1 && name[|name| - |e| - 1..] == "." + e
    ensures LastOf('.', name) == |name| - |e| - 1 && name[LastOf('.', name) + 1..] == e
    ensures name[|name| - 1] != '.'
  {
    hide LastOf;
    var n := |name| - |e| - 1;
    var stem := name[..n];
    assert name == stem + name[n..];
    assert name == stem + ['.'] + e;
    LastOfSuffix('.', stem, e);
    assert name[n + 1..] == e;
    assert name[|name| - 1] == e[|e| - 1] && e[|e| - 1] in e;
  }

  /** A path has the extension `e` exactly when its last component is a stem, a dot and `e`. */
  lemma ExtensionIs(p: Path, e: string)
    requires e != "" && '.' !in e
    ensures Extension(p) == Some(e) <==> Named(p, "." + e)
  {
    hide LastOf;
    if p.parts != [] {
      var name := p.parts[|p.parts| - 1];
      if Extension(p) == Some(e) {
        ExtensionEnds(name, e);
      }
      if Named(p, "." + e) {
        EndsInExtension(name, e);
      }
    }
  }

  /** `detect_protocol` recognises exactly the files called `*.thrift` and `*.proto`. */
  lemma DetectIs(p: Path)
    ensures Detect(p) == Some(Thrift) <==> Named(p, ".thrift")
    ensures Detect(p) == Some(Protobuf) <==> Named(p, ".proto")
    ensures Detect(p) == None <==> !Named(p, ".thrift") && !Named(p, ".proto")
  {
    hide Extension, Named;
    assert "." + "thrift" == ".thrift" && "." + "proto" == ".proto";
    ExtensionIs(p, "thrift");
    ExtensionIs(p, "proto");
    DifferentExtensions();
  }

  lemma DifferentExtensions()
    ensures "thrift" != "proto"
  {
    assert |"thrift"| != |"proto"|;
  }

  // ---- the configuration ---------------------------------------------------------------------

  datatype Source = Git(repo: string) | Local

  datatype Idl = Idl(source: Source, path: Path, includes: seq<Path>)

  /** Code generation options of a service. */
  datatype Options = Options(crateName: Option<string>, touch: seq<string>, keepUnknownFields: bool)

  const DEFAULT_OPTIONS := Options(None, [], false)

  datatype Service = Service(idl: Idl, options: Options)

  datatype Repo = Repo(url: string, ref: string, lock: string)

  datatype Entry = Entry(filename: string, protocol: Protocol, repos: map<string, Repo>, services: seq<Service>)

  type Config = map<string, Entry>

  /** The latest commit of a repository at a reference; `None` when the lookup fails. */
  type Lookup = (string, string) -> Option<string>

  /** Every git service names a repository of its entry. */
  predicate RefsResolve(repos: map<string, Repo>, services: seq<Service>) {
    forall i :: 0 <= i < |services| && services[i].idl.source.Git? ==> services[i].idl.source.repo in repos
  }

  predicate UrlsDistinct(repos: map<string, Repo>) {
    forall a, b :: a in repos && b in repos && a != b ==> repos[a].url != repos[b].url
  }

  predicate OneProtocol(p: Protocol, services: seq<Service>) {
    forall i :: 0 <= i < |services| ==> NamedFor(services[i].idl.path, p)
  }

  predicate EntryOk(e: Entry) {
    RefsResolve(e.repos, e.services) && UrlsDistinct(e.repos) && OneProtocol(e.protocol, e.services)
  }

  predicate FilesDistinct(c: Config) {
    forall a, b :: a in c && b in c && a != b ==> c[a].filename != c[b].filename
  }

  predicate ConfigOk(c: Config) {
    (forall n :: n in c ==> EntryOk(c[n])) && FilesDistinct(c)
  }

  /** Replacing or adding one entry keeps the configuration sound if the entry is sound and its
      file name is its own. */
  lemma UpdateKeepsOk(c: Config, name: string, e: Entry)
    requires ConfigOk(c) && EntryOk(e)
    requires forall n :: n in c && n != name ==> c[n].filename != e.filename
    ensures ConfigOk(c[name := e])
  {
  }

  // ---- repository names ----------------------------------------------------------------------

  /** Drops every trailing ".git". */
  function TrimGit(s: string): string {
    if |s| >= 4 && s[|s| - 4..] == ".git" then TrimGit(s[..|s| - 4]) else s
  }

  /** `get_repo_name_by_url`: what follows the last slash. */
  function RepoName(url: string): string {
    var g := TrimGit(url);
    g[LastOf('/', g) + 1..]
  }

  /** The name of a repository is what follows the last slash of its URL, without one ".git". */
  lemma RepoNameIs(base: string, name: string)
    requires '/' !in name && !(|name| >= 4 && name[|name| - 4..] == ".git")
    ensures RepoName(base + "/" + name) == name
    ensures RepoName(base + "/" + name + ".git") == name
  {
    var url := base + "/" + name;
    var g := url + ".git";
    if |name| >= 4 {
      assert url[|url| - 4..] == name[|name| - 4..];
    } else if |url| >= 4 {
      NoSlashIn();
      assert url[|url| - 4..][3 - |name|] == '/';
    }
    assert g[|g| - 4..] == ".git" && g[..|g| - 4] == url;
    assert TrimGit(url) == url && TrimGit(g) == url;
    LastOfSuffix('/', base, name);
    assert url[|base| + 1..] == name;
  }

  lemma NoSlashIn()
    ensures forall i :: 0 <= i < 4 ==> ".git"[i] != '/'
  {
  }

  function RefOr(ref: Option<string>): string {
    if ref.Some? then ref.value else "HEAD"
  }

  function NameFor(repo: Option<string>, git: string): string {
    if repo.Some? then repo.value else RepoName(git)
  }

  predicate UrlUsed(repos: map<string, Repo>, url: string) {
    exists n :: n in repos && repos[n].url == url
  }

  /** A new repository: a URL is given, and neither it nor the name is in the entry yet. */
  predicate IsNew(repos: map<string, Repo>, repo: Option<string>, git: Option<string>) {
    git.Some? && NameFor(repo, git.value) !in repos && !UrlUsed(repos, git.value)
  }

  /** An existing repository: same name if given, and same URL and reference if given. */
  predicate IsKnown(repos: map<string, Repo>, repo: Option<string>, git: Option<string>, ref: Option<string>, n: string) {
    && n in repos && (repo.Some? || git.Some?)
    && (repo.Some? ==> n == repo.value)
    && (git.Some? ==> repos[n].url == git.value && repos[n].ref == RefOr(ref))
  }

  datatype Refusal =
    | DifferentUrl | DifferentRef | UrlIndexed | NoSuchRepo | NameTaken | NothingGiven | LookupFailed

  /** The index from URL to repository name. */
  method UrlMap(repos: map<string, Repo>) returns (m: map<string, string>)
    ensures forall u :: u in m ==> m[u] in repos && repos[m[u]].url == u
    ensures forall n :: n in repos ==> repos[n].url in m
  {
    m := map[];
    var todo := repos.Keys;
    while todo != {}
      invariant todo <= repos.Keys
      invariant forall u :: u in m ==> m[u] in repos && repos[m[u]].url == u
      invariant forall n :: n in repos && n !in todo ==> repos[n].url in m
      decreases todo
    {
      var n :| n in todo;
      m := m[repos[n].url := n];
      todo := todo - {n};
    }
  }

  /** `check_and_get_repo_name`. It succeeds exactly for a new repository whose commit can be looked
      up and for a known one; the lookup of an indexed URL never fails. */
  method CheckAndGetRepoName(repos: map<string, Repo>, repo: Option<string>, git: Option<string>,
                             ref: Option<string>, latest: Lookup)
    returns (r: Result<string, Refusal>, newRepo: Option<Repo>)
    ensures r.Err? ==> newRepo.None?
    ensures r.Ok? && newRepo.Some? ==>
              && IsNew(repos, repo, git) && r.value == NameFor(repo, git.value)
              && latest(git.value, RefOr(ref)).Some?
              && newRepo.value == Repo(git.value, RefOr(ref), latest(git.value, RefOr(ref)).value)
    ensures newRepo.Some? ==> newRepo.value.ref == if ref.Some? then ref.value else "HEAD"
    ensures r.Ok? && newRepo.None? ==> IsKnown(repos, repo, git, ref, r.value)
    ensures r.Err? ==> !(IsNew(repos, repo, git) && latest(git.value, RefOr(ref)).Some?)
    ensures r.Err? && UrlsDistinct(repos) ==> forall n :: !IsKnown(repos, repo, git, ref, n)
  {
    newRepo := None;
    var urls := UrlMap(repos);
    if repo.Some? && git.Some? {
      var key := repo.value;
      if key in repos {
        if repos[key].url != git.value {
          return Err(DifferentUrl), None;
        } else if repos[key].ref != RefOr(ref) {
          return Err(DifferentRef), None;
        }
      } else if git.value in urls {
        return Err(UrlIndexed), None;
      } else {
        var lock := latest(git.value, RefOr(ref));
        if lock.None? {
          return Err(LookupFailed), None;
        }
        newRepo := Some(Repo(git.value, RefOr(ref), lock.value));
      }
      return Ok(key), newRepo;
    }
    if repo.Some? {
      if repo.value !in repos {
        return Err(NoSuchRepo), None;
      }
      return Ok(repo.value), None;
    }
    if git.Some? {
      if git.value in urls {
        var name := urls[git.value];
        if repos[name].ref != RefOr(ref) {
          return Err(DifferentRef), None;
        }
        return Ok(name), None;
      }
      var name := RepoName(git.value);
      if name in repos {
        return Err(NameTaken), None;
      }
      var lock := latest(git.value, RefOr(ref));
      if lock.None? {
        return Err(LookupFailed), None;
      }
      return Ok(name), Some(Repo(git.value, RefOr(ref), lock.value));
    }
    return Err(NothingGiven), None;
  }

  /** A new repository keeps the URLs of the entry distinct and every reference resolved. */
  lemma NewRepoKeepsOk(repos: map<string, Repo>, services: seq<Service>, name: string, r: Repo)
    requires UrlsDistinct(repos) && RefsResolve(repos, services)
    requires name !in repos && !UrlUsed(repos, r.url)
    ensures UrlsDistinct(repos[name := r]) && RefsResolve(repos[name := r], services)
  {
  }

  function GitService(repo: string, idl: Path, includes: seq<Path>): Service {
    Service(Idl(Git(repo), StripSlash(idl), includes), DEFAULT_OPTIONS)
  }

  // ---- building from a configuration ---------------------------------------------------------

  /** What is compiled for a service: its path and include directories, and two of its options. A
      git source is taken relative to its repository, and the directory two levels up is added to
      its includes. */
  datatype Build = Build(path: Path, includes: seq<Path>, touch: seq<string>, keepUnknownFields: bool)

  function JoinAll(dir: Path, ps: seq<Path>): seq<Path> {
    seq(|ps|, i requires 0 <= i < |ps| => Join(dir, ps[i]))
  }

  function GitBuild(dir: Path, s: Service): Build {
    Build(Join(dir, StripSlash(s.idl.path)),
          JoinAll(dir, s.idl.includes)
          + (if |dir.parts| >= 2 then [Path(dir.absolute, dir.parts[..|dir.parts| - 2])] else []),
          s.options.touch, s.options.keepUnknownFields)
  }

  function LocalBuild(s: Service): Build {
    Build(s.idl.path, s.idl.includes, s.options.touch, s.options.keepUnknownFields)
  }

  /** The path and the includes of a git source lie in the directory of its repository, except for
      absolute includes and the directory two levels up, which comes last if there is one. */
  predicate InDirectory(build: Build, idl: Idl, dir: Path) {
    && build.path == Path(dir.absolute, dir.parts + idl.path.parts)
    && |build.includes| == |idl.includes| + (if |dir.parts| >= 2 then 1 else 0)
    && (forall i :: 0 <= i < |idl.includes| ==>
          build.includes[i] == if idl.includes[i].absolute then idl.includes[i]
                               else Path(dir.absolute, dir.parts + idl.includes[i].parts))
    && (|dir.parts| >= 2 ==>
          build.includes[|idl.includes|] == Path(dir.absolute, dir.parts[..|dir.parts| - 2]))
  }

  /** `get_service_builders_from_services` over the downloaded repositories. The `expect` on the
      directory of a git source is met by every entry whose references resolve. */
  method Builds(e: Entry, download: Repo -> Option<Path>) returns (r: Option<seq<Build>>)
    requires RefsResolve(e.repos, e.services)
    ensures r.Some? <==> forall n :: n in e.repos ==> download(e.repos[n]).Some?
    ensures r.Some? ==> |r.value| == |e.services|
    ensures r.Some? ==>
              forall i :: 0 <= i < |e.services| ==>
                var idl, build := e.services[i].idl, r.value[i];
                && build.touch == e.services[i].options.touch
                && build.keepUnknownFields == e.services[i].options.keepUnknownFields
                && (idl.source.Local? ==> build.path == idl.path && build.includes == idl.includes)
                && (idl.source.Git? ==> InDirectory(build, idl, download(e.repos[idl.source.repo]).value))
  {
    var dirs: map<string, Path> := map[];
    var todo := e.repos.Keys;
    while todo != {}
      invariant todo <= e.repos.Keys && dirs.Keys == e.repos.Keys - todo
      invariant forall n :: n in dirs ==> download(e.repos[n]) == Some(dirs[n])
      decreases todo
    {
      var n :| n in todo;
      var dir := download(e.repos[n]);
      if dir.None? {
        return None;
      }
      dirs := dirs[n := dir.value];
      todo := todo - {n};
    }
    var builds: seq<Build> := [];
    for i := 0 to |e.services|
      invariant |builds| == i
      invariant forall k :: 0 <= k < i ==>
                  var s := e.services[k];
                  builds[k] == if s.idl.source.Git? then GitBuild(download(e.repos[s.idl.source.repo]).value, s)
                               else LocalBuild(s)
    {
      var s := e.services[i];
      if s.idl.source.Git? {
        builds := builds + [GitBuild(dirs[s.idl.source.repo], s)];
      } else {
        builds := builds + [LocalBuild(s)];
      }
    }
    return Some(builds);
  }
}
