/** The commands that rewrite `volo.yml`, each all or nothing. */
module ConfigCommands {
  import opened Bytes
  import opened ConfigModel

  const DEFAULT_FILENAME := "volo_gen.rs"

  datatype IdlAdd = IdlAdd(entry: string, repo: Option<string>, git: Option<string>, ref: Option<string>,
                           includes: seq<Path>, filename: string, idl: Path)

  datatype RepoAdd = RepoAdd(entry: string, repo: Option<string>, git: string, ref: Option<string>)

  datatype RepoUpdate = RepoUpdate(entry: string, names: seq<string>)

  datatype Init = Init(entry: string, repo: Option<string>, git: Option<string>, ref: Option<string>,
                       includes: seq<Path>, idl: Path)

  /** What the environment answers: which files are readable, whether the templates can be written,
      and the latest commits. */
  datatype World = World(readable: Path -> bool, templates: bool, latest: Lookup)

  /** `ensure_readable`: the source and all its include directories. */
  predicate Readable(w: World, idl: Path, includes: seq<Path>) {
    w.readable(idl) && forall i :: 0 <= i < |includes| ==> w.readable(includes[i])
  }

  /** A repository locked to its latest commit. */
  function Latest(git: string, ref: Option<string>, w: World): Repo
    requires w.latest(git, RefOr(ref)).Some?
  {
    Repo(git, RefOr(ref), w.latest(git, RefOr(ref)).value)
  }

  method EnsureReadable(w: World, idl: Path, includes: seq<Path>) returns (ok: bool)
    ensures ok <==> Readable(w, idl, includes)
  {
    if !w.readable(idl) {
      return false;
    }
    for i := 0 to |includes|
      invariant forall k :: 0 <= k < i ==> w.readable(includes[k])
    {
      if !w.readable(includes[i]) {
        return false;
      }
    }
    return true;
  }

  // ---- idl add -------------------------------------------------------------------------------

  predicate IsLocal(a: IdlAdd) {
    a.repo.None? && a.git.None?
  }

  function LocalService(a: IdlAdd): Service {
    Service(Idl(Local, a.idl, a.includes), DEFAULT_OPTIONS)
  }

  /** The first service with this path. */
  function FirstWithPath(services: seq<Service>, path: Path): (r: Option<Idl>)
    ensures r.None? <==> forall i :: 0 <= i < |services| ==> services[i].idl.path != path
  {
    if services == [] then None
    else if services[0].idl.path == path then Some(services[0].idl)
    else FirstWithPath(services[1..], path)
  }

  method FindIdl(services: seq<Service>, path: Path) returns (found: Option<Idl>)
    ensures found == FirstWithPath(services, path)
    ensures found.Some? ==> exists i :: 0 <= i < |services| && services[i].idl == found.value
  {
    for i := 0 to |services|
      invariant FirstWithPath(services[i..], path) == FirstWithPath(services, path)
    {
      assert services[i..][1..] == services[i + 1..];
      if services[i].idl.path == path {
        return Some(services[i].idl);
      }
    }
    return None;
  }

  /** A local source already recorded is not added again. */
  predicate AlreadyLocal(a: IdlAdd, e: Entry) {
    var found := FirstWithPath(e.services, a.idl);
    found.Some? && found.value.source.Local?
  }

  /** The entry after an addition: its identity is kept, a local source is appended once, and a git
      source is appended under the repository asked for, which is known by then; a repository is
      added, at its latest commit, only if it was not there. */
  predicate Extended(a: IdlAdd, before: Entry, after: Entry, w: World) {
    && after.filename == before.filename == a.filename && after.protocol == before.protocol
    && if IsLocal(a) then
         after.repos == before.repos
         && after.services
            == before.services
               + if AlreadyLocal(a, before) then []
                 else [Service(Idl(Local, a.idl, a.includes), Options(None, [], false))]
       else
         && after.services == before.services + [AddedService(a, after)]
         && AddedService(a, after).idl.source.Git?
         && var n := AddedService(a, after).idl.source.repo;
         && AddedService(a, after).idl == Idl(Git(n), Path(false, a.idl.parts), a.includes)
         && AddedService(a, after).options == Options(None, [], false)
         && IsKnown(after.repos, a.repo, a.git, a.ref, n)
         && (|| after.repos == before.repos
             || (&& n !in before.repos && a.git.Some? && w.latest(a.git.value, RefOr(a.ref)).Some?
                 && after.repos == before.repos[n := Latest(a.git.value, a.ref, w)]))
  }

  /** The additions an entry accepts: the right protocol and file name, and for a git source a new
      repository that can be looked up, or a known one when no service has this path yet. */
  ghost predicate Acceptable(a: IdlAdd, e: Entry, w: World) {
    && NamedFor(a.idl, e.protocol) && e.filename == a.filename
    && (|| IsLocal(a)
        || (IsNew(e.repos, a.repo, a.git) && w.latest(a.git.value, RefOr(a.ref)).Some?)
        || ((exists n :: IsKnown(e.repos, a.repo, a.git, a.ref, n)) && FirstWithPath(e.services, a.idl).None?))
  }

  function AddedService(a: IdlAdd, after: Entry): Service {
    if after.services == [] then LocalService(a) else after.services[|after.services| - 1]
  }

  /** The branch of `idl add` for an entry that exists. Two exits of the source cannot be reached
      from a sound entry: the one for a service whose repository is missing, and the `expect` on an
      indexed URL. */
  method AddToEntry(a: IdlAdd, e: Entry, w: World) returns (r: Option<Entry>)
    requires EntryOk(e)
    ensures r.Some? <==> Acceptable(a, e, w)
    ensures r.Some? ==> EntryOk(r.value) && Extended(a, e, r.value, w)
  {
    hide Detect, Named, RepoName, RefOr, EntryOk, Extended, FirstWithPath;
    DetectIs(a.idl);
    var protocol := Detect(a.idl);
    if protocol != Some(e.protocol) || e.filename != a.filename {
      return None;
    }
    DetectStripped(a.idl);
    var found := FindIdl(e.services, a.idl);
    if a.repo.None? && a.git.None? {
      LocalAdded(a, e, w);
      if found.Some? && found.value.source.Local? {
        return Some(e);
      }
      return Some(e.(services := e.services + [LocalService(a)]));
    }
    assert UrlsDistinct(e.repos) by { SoundEntry(e); }
    var name, newRepo := CheckAndGetRepoName(e.repos, a.repo, a.git, a.ref, w.latest);
    if name.Err? {
      return None;
    }
    if found.Some? {
      if newRepo.None? {
        return None;
      }
      // A sound entry holds the repository of every service, so this one is not the new one.
      assert found.value.source.Git? ==> found.value.source.repo != name.value by { SoundEntry(e); }
    }
    GitAdded(a, e, w, name.value, newRepo);
    var service := GitService(name.value, a.idl, a.includes);
    var after := e.(services := e.services + [service]);
    if newRepo.Some? {
      after := after.(repos := e.repos[name.value := newRepo.value]);
    }
    return Some(after);
  }

  lemma SoundEntry(e: Entry)
    requires EntryOk(e)
    ensures UrlsDistinct(e.repos) && RefsResolve(e.repos, e.services)
  {
  }

  lemma LocalAdded(a: IdlAdd, e: Entry, w: World)
    requires EntryOk(e) && IsLocal(a) && NamedFor(a.idl, e.protocol) && e.filename == a.filename
    ensures var after := if AlreadyLocal(a, e) then e else e.(services := e.services + [LocalService(a)]);
            EntryOk(after) && Extended(a, e, after, w)
  {
    hide Named, FirstWithPath;
    assert e.services + [] == e.services;
  }

  lemma GitAdded(a: IdlAdd, e: Entry, w: World, name: string, newRepo: Option<Repo>)
    requires EntryOk(e) && !IsLocal(a) && NamedFor(a.idl, e.protocol) && e.filename == a.filename
    requires newRepo.None? ==> IsKnown(e.repos, a.repo, a.git, a.ref, name)
    requires newRepo.Some? ==>
               && IsNew(e.repos, a.repo, a.git) && name == NameFor(a.repo, a.git.value)
               && w.latest(a.git.value, RefOr(a.ref)).Some? && newRepo.value == Latest(a.git.value, a.ref, w)
    ensures var services := e.services + [GitService(name, a.idl, a.includes)];
            var repos := if newRepo.Some? then e.repos[name := newRepo.value] else e.repos;
            var after := e.(services := services, repos := repos);
            EntryOk(after) && Extended(a, e, after, w)
  {
    hide Named, Detect, RepoName, RefOr;
    DetectStripped(a.idl);
    if newRepo.Some? {
      NewRepoKeepsOk(e.repos, e.services, name, newRepo.value);
    }
  }

  /** Dropping the leading slash does not change what the file is called. */
  lemma DetectStripped(p: Path)
    ensures Detect(StripSlash(p)) == Detect(p)
    ensures forall suffix :: Named(StripSlash(p), suffix) <==> Named(p, suffix)
  {
  }

  /** Adding the same git source again is accepted, and recorded twice, exactly when its path is
      absolute and no service had it before: an absolute path is stored without its leading slash,
      so the repetition is not recognised. */
  lemma RepetitionAccepted(a: IdlAdd, before: Entry, after: Entry, w: World, later: World)
    requires !IsLocal(a) && Extended(a, before, after, w) && NamedFor(a.idl, before.protocol)
    ensures Acceptable(a, after, later) <==> a.idl.absolute && FirstWithPath(before.services, a.idl).None?
  {
    var n := AddedService(a, after).idl.source.repo;
    var last := |after.services| - 1;
    assert after.services[last].idl.path == StripSlash(a.idl);
    assert forall i :: 0 <= i < last ==> after.services[i] == before.services[i];
    assert !IsNew(after.repos, a.repo, a.git);
    assert IsKnown(after.repos, a.repo, a.git, a.ref, n);
  }

  /** The additions that can start an entry: a known protocol, and a URL that can be looked up
      unless the source is local. */
  predicate Creatable(a: IdlAdd, w: World) {
    (Named(a.idl, ".thrift") || Named(a.idl, ".proto")) && (IsLocal(a) || (a.git.Some? && w.latest(a.git.value, RefOr(a.ref)).Some?))
  }

  /** The branch of `idl add` for an entry that does not exist yet: with no repositories to refer
      to, a git source always brings its own, so the `expect` on the new repository holds. */
  method NewEntry(a: IdlAdd, w: World) returns (r: Option<Entry>)
    ensures r.Some? <==> Creatable(a, w)
    ensures r.Some? ==> EntryOk(r.value) && r.value.filename == a.filename && |r.value.services| == 1
    ensures r.Some? ==> NamedFor(a.idl, r.value.protocol)
    ensures r.Some? ==> Extended(a, Entry(a.filename, r.value.protocol, map[], []), r.value, w)
  {
    hide Detect, Named;
    DetectIs(a.idl);
    DetectStripped(a.idl);
    if a.repo.None? && a.git.None? {
      var protocol := Detect(a.idl);
      if protocol.None? {
        return None;
      }
      return Some(Entry(a.filename, protocol.value, map[], [LocalService(a)]));
    }
    var name, newRepo := CheckAndGetRepoName(map[], a.repo, a.git, a.ref, w.latest);
    if name.Err? {
      return None;
    }
    var repos := map[name.value := newRepo.value];
    var service := GitService(name.value, a.idl, a.includes);
    var protocol := Detect(service.idl.path);
    if protocol.None? {
      return None;
    }
    return Some(Entry(a.filename, protocol.value, repos, [service]));
  }

  // ---- init ----------------------------------------------------------------------------------

  function Relocated(s: Service): Service {
    if s.idl.source.Git? then s
    else Service(Idl(Local, Parent(s.idl.path),
                     seq(|s.idl.includes|, i requires 0 <= i < |s.idl.includes| => Parent(s.idl.includes[i]))),
                 s.options)
  }

  predicate Initializable(a: Init, w: World) {
    && (Named(a.idl, ".thrift") || Named(a.idl, ".proto")) && w.templates
    && if a.git.Some? then w.latest(a.git.value, RefOr(a.ref)).Some? else Readable(w, a.idl, a.includes)
  }

  /** The only entry of a new configuration. */
  function Initial(a: Init, w: World): Entry
    requires Initializable(a, w)
  {
    var protocol := if Named(a.idl, ".thrift") then Thrift else Protobuf;
    var options := Options(None, [], false);
    if a.git.Some? then
      var name := if a.repo.Some? then a.repo.value else RepoName(a.git.value);
      Entry("volo_gen.rs", protocol, map[name := Latest(a.git.value, a.ref, w)],
            [Service(Idl(Git(name), Path(false, a.idl.parts), a.includes), options)])
    else
      Entry("volo_gen.rs", protocol, map[],
            [Service(Idl(Local, Beside(a.idl), seq(|a.includes|, i requires 0 <= i < |a.includes| => Beside(a.includes[i]))),
                     options)])
  }

  /** A path as seen from a directory next to it. */
  function Beside(p: Path): Path {
    if p.absolute then p else Path(false, [".."] + p.parts)
  }

  lemma InitialIsSound(a: Init, w: World)
    requires Initializable(a, w)
    ensures EntryOk(Initial(a, w))
  {
    hide RepoName, RefOr;
  }

  lemma OneExtension(p: Path)
    ensures !(Named(p, ".thrift") && Named(p, ".proto"))
  {
    hide Detect, Named;
    DetectIs(p);
  }

  method InitEntry(a: Init, w: World) returns (r: Option<Entry>)
    ensures r.Some? <==> Initializable(a, w)
    ensures r.Some? ==> EntryOk(r.value) && r.value == Initial(a, w)
  {
    hide Detect, Named, RepoName, RefOr, EntryOk;
    var repos: map<string, Repo> := map[];
    var service := Service(Idl(Local, a.idl, a.includes), DEFAULT_OPTIONS);
    if a.git.Some? {
      var name := NameFor(a.repo, a.git.value);
      var lock := w.latest(a.git.value, RefOr(a.ref));
      if lock.None? {
        return None;
      }
      repos := repos[name := Repo(a.git.value, RefOr(a.ref), lock.value)];
      service := GitService(name, a.idl, a.includes);
    } else {
      var readable := EnsureReadable(w, a.idl, a.includes);
      if !readable {
        return None;
      }
    }
    DetectIs(a.idl);
    DetectStripped(a.idl);
    var protocol := Detect(service.idl.path);
    if protocol.None? || !w.templates {
      return None;
    }
    OneExtension(a.idl);
    InitialIsSound(a, w);
    if a.git.None? {
      ghost var local := Initial(a, w).services[0];
      assert Relocated(service).idl.includes == local.idl.includes;
      assert Relocated(service) == local;
    } else {
      assert Relocated(service) == Initial(a, w).services[0];
    }
    return Some(Entry(DEFAULT_FILENAME, protocol.value, repos, [Relocated(service)]));
  }

  // ---- repo update ---------------------------------------------------------------------------

  function Updated(r: Repo, latest: Lookup): Repo {
    var commit := latest(r.url, r.ref);
    if commit.Some? then r.(lock := commit.value) else r
  }

  lemma UpdatedTwice(r: Repo, latest: Lookup)
    ensures Updated(Updated(r, latest), latest) == Updated(r, latest)
  {
  }

  /** Only the lock moves, to the latest commit, and only if it was asked for and can be looked up. */
  predicate Relocked(before: Repo, after: Repo, asked: bool, latest: Lookup) {
    && after.url == before.url && after.ref == before.ref
    && after.lock == if asked && latest(before.url, before.ref).Some? then latest(before.url, before.ref).value
                     else before.lock
  }

  /** Locks move to the latest commit where the lookup succeeds; nothing else changes. */
  method UpdateRepos(u: RepoUpdate, repos: map<string, Repo>, latest: Lookup) returns (r: map<string, Repo>)
    ensures r.Keys == repos.Keys
    ensures forall n :: n in repos ==> Relocked(repos[n], r[n], (u.names == [] || n in u.names), latest)
  {
    r := repos;
    if u.names == [] {
      var todo := repos.Keys;
      while todo != {}
        invariant todo <= repos.Keys && r.Keys == repos.Keys
        invariant forall n :: n in repos ==> r[n] == if n in todo then repos[n] else Updated(repos[n], latest)
        decreases todo
      {
        var n :| n in todo;
        r := r[n := Updated(r[n], latest)];
        todo := todo - {n};
      }
      return;
    }
    for i := 0 to |u.names|
      invariant r.Keys == repos.Keys
      invariant forall n :: n in repos ==> r[n] == if n in u.names[..i] then Updated(repos[n], latest) else repos[n]
    {
      var n := u.names[i];
      if n in r {
        UpdatedTwice(repos[n], latest);
        r := r[n := Updated(r[n], latest)];
      }
    }
    assert u.names[..|u.names|] == u.names;
  }

  // ---- the file ------------------------------------------------------------------------------

  datatype Command = DoInit(init: Init) | DoIdlAdd(idlAdd: IdlAdd) | DoRepoAdd(repoAdd: RepoAdd) | DoRepoUpdate(update: RepoUpdate)

  /** The configuration file. A command that fails leaves it as it was. */
  class VoloYml {
    var entries: Config
    var written: bool

    constructor ()
      ensures Valid() && entries == map[] && !written
    {
      entries, written := map[], false;
    }

    ghost predicate Valid()
      reads this
    {
      ConfigOk(entries) && (!written ==> entries == map[])
    }

    method Save(name: string, e: Entry)
      modifies this
      ensures entries == old(entries)[name := e] && written
    {
      entries := entries[name := e];
      written := true;
    }

    method RunInit(a: Init, w: World) returns (ok: bool)
      requires Valid()
      modifies this
      ensures Valid()
      ensures !ok ==> entries == old(entries) && written == old(written)
      ensures ok <==> !old(written) && Initializable(a, w)
      ensures ok ==> written && entries == map[a.entry := Initial(a, w)]
    {
      if written {
        return false;
      }
      var e := InitEntry(a, w);
      if e.None? {
        return false;
      }
      UpdateKeepsOk(entries, a.entry, e.value);
      Save(a.entry, e.value);
      return true;
    }

    /** When `idl add` succeeds. */
    ghost predicate IdlAddAccepted(a: IdlAdd, w: World)
      reads this
    {
      && '/' !in a.filename && '\\' !in a.filename && (IsLocal(a) ==> Readable(w, a.idl, a.includes))
      && if a.entry in entries then Acceptable(a, entries[a.entry], w)
         else Creatable(a, w) && forall n :: n in entries ==> entries[n].filename != a.filename
    }

    /** `idl add`. The entries are visited in no particular order, and the visit stops at the entry
        asked for; yet the outcome does not depend on the order and file names stay distinct. */
    method RunIdlAdd(a: IdlAdd, w: World) returns (ok: bool)
      requires Valid()
      modifies this
      ensures Valid()
      ensures !ok ==> entries == old(entries) && written == old(written)
      ensures ok <==> old(IdlAddAccepted(a, w))
      ensures ok ==> a.entry in entries && entries == old(entries)[a.entry := entries[a.entry]]
      ensures ok && a.entry in old(entries) ==> Extended(a, old(entries)[a.entry], entries[a.entry], w)
      ensures ok && a.entry !in old(entries) ==>
                Extended(a, Entry(a.filename, entries[a.entry].protocol, map[], []), entries[a.entry], w)
    {
      hide EntryOk, Extended, Creatable, Acceptable;
      if '/' in a.filename || '\\' in a.filename {
        return false;
      }
      if a.repo.None? && a.git.None? {
        var readable := EnsureReadable(w, a.idl, a.includes);
        if !readable {
          return false;
        }
      }
      var found := false;
      var todo := entries.Keys;
      while todo != {} && !found
        invariant todo <= entries.Keys && (found ==> a.entry in entries)
        invariant forall n :: n in entries && n !in todo ==> n != a.entry && entries[n].filename != a.filename
        decreases todo, !found
      {
        var name :| name in todo;
        if name != a.entry {
          if entries[name].filename == a.filename {
            if a.entry in entries {
              OtherFileRefused(a, entries[a.entry], entries[name], w);
            }
            return false;
          }
          todo := todo - {name};
        } else {
          found := true;
        }
      }
      var e: Option<Entry>;
      if found {
        e := AddToEntry(a, entries[a.entry], w);
      } else {
        e := NewEntry(a, w);
      }
      if e.None? {
        return false;
      }
      if found {
        ExtendedKeepsFile(a, entries[a.entry], e.value, w);
      }
      UpdateKeepsOk(entries, a.entry, e.value);
      Save(a.entry, e.value);
      return true;
    }

    method RunRepoAdd(a: RepoAdd, w: World) returns (ok: bool)
      requires Valid()
      modifies this
      ensures Valid()
      ensures !ok ==> entries == old(entries) && written == old(written)
      ensures ok <==>
                && a.entry in old(entries) && IsNew(old(entries)[a.entry].repos, a.repo, Some(a.git))
                && w.latest(a.git, RefOr(a.ref)).Some?
      ensures ok ==>
                var before := old(entries)[a.entry];
                var repos := before.repos[NameFor(a.repo, a.git) := Latest(a.git, a.ref, w)];
                entries == old(entries)[a.entry := before.(repos := repos)]
    {
      if a.entry !in entries {
        return false;
      }
      var e := entries[a.entry];
      var name, newRepo := CheckAndGetRepoName(e.repos, a.repo, Some(a.git), a.ref, w.latest);
      if name.Err? || newRepo.None? {
        return false;
      }
      NewRepoKeepsOk(e.repos, e.services, name.value, newRepo.value);
      var after := e.(repos := e.repos[name.value := newRepo.value]);
      UpdateKeepsOk(entries, a.entry, after);
      Save(a.entry, after);
      return true;
    }

    method RunRepoUpdate(u: RepoUpdate, w: World) returns (ok: bool)
      requires Valid()
      modifies this
      ensures Valid()
      ensures !ok ==> entries == old(entries) && written == old(written)
      ensures ok <==> u.entry in old(entries) && !(u.names == [] && old(entries)[u.entry].repos == map[])
      ensures ok ==>
                && u.entry in old(entries) && u.entry in entries
                && entries == old(entries)[u.entry := entries[u.entry]]
                && var before, after := old(entries)[u.entry], entries[u.entry];
                && after == before.(repos := after.repos) && after.repos.Keys == before.repos.Keys
                && forall n :: n in before.repos ==>
                     Relocked(before.repos[n], after.repos[n], (u.names == [] || n in u.names), w.latest)
    {
      if u.entry !in entries {
        return false;
      }
      var e := entries[u.entry];
      if u.names == [] && e.repos == map[] {
        return false;
      }
      var repos := UpdateRepos(u, e.repos, w.latest);
      UpdateKeepsEntryOk(e, repos);
      UpdateKeepsOk(entries, u.entry, e.(repos := repos));
      Save(u.entry, e.(repos := repos));
      return true;
    }
  }

  lemma OtherFileRefused(a: IdlAdd, e: Entry, other: Entry, w: World)
    requires e.filename != other.filename && other.filename == a.filename
    ensures !Acceptable(a, e, w)
  {
  }

  lemma ExtendedKeepsFile(a: IdlAdd, before: Entry, after: Entry, w: World)
    requires Extended(a, before, after, w)
    ensures after.filename == before.filename == a.filename
  {
  }

  lemma UpdateKeepsEntryOk(e: Entry, repos: map<string, Repo>)
    requires EntryOk(e) && repos.Keys == e.repos.Keys
    requires forall n :: n in repos ==> repos[n].url == e.repos[n].url
    ensures EntryOk(e.(repos := repos))
  {
  }

  /** After any sequence of commands on an empty configuration, whatever the environment answers,
      every git service names a repository of its entry, the URLs of an entry are distinct, file
      names are distinct, and every service has the protocol of its entry. */
  method RunAll(commands: seq<Command>, worlds: seq<World>) returns (config: Config)
    requires |worlds| == |commands|
    ensures ConfigOk(config)
  {
    var yml := new VoloYml();
    for i := 0 to |commands|
      invariant yml.Valid()
    {
      var ok: bool;
      match commands[i] {
        case DoInit(a) => ok := yml.RunInit(a, worlds[i]);
        case DoIdlAdd(a) => ok := yml.RunIdlAdd(a, worlds[i]);
        case DoRepoAdd(a) => ok := yml.RunRepoAdd(a, worlds[i]);
        case DoRepoUpdate(u) => ok := yml.RunRepoUpdate(u, worlds[i]);
      }
    }
    return yml.entries;
  }

  // ---- migration -----------------------------------------------------------------------------

  datatype LegacySource = LegacyGit(url: string, ref: Option<string>, lock: Option<string>) | LegacyLocal

  datatype LegacyIdl = LegacyIdl(source: LegacySource, path: Path, includes: seq<Path>,
                                 touch: seq<string>, keepUnknownFields: bool)

  /** Two legacy sources with different URLs never share a repository name. */
  predicate NoCollision(idls: seq<LegacyIdl>) {
    forall i, j :: 0 <= i < |idls| && 0 <= j < |idls| && idls[i].source.LegacyGit? && idls[j].source.LegacyGit?
                   && RepoName(idls[i].source.url) == RepoName(idls[j].source.url)
                   ==> idls[i].source.url == idls[j].source.url
  }

  /** Every migrated git service still points at the URL it had. */
  predicate UrlsKept(idls: seq<LegacyIdl>, repos: map<string, Repo>) {
    forall i :: 0 <= i < |idls| && idls[i].source.LegacyGit? ==>
      RepoName(idls[i].source.url) in repos && repos[RepoName(idls[i].source.url)].url == idls[i].source.url
  }

  function Migrated(idl: LegacyIdl): Service {
    Service(Idl(if idl.source.LegacyGit? then Git(RepoName(idl.source.url)) else Local, idl.path, idl.includes),
            Options(None, idl.touch, idl.keepUnknownFields))
  }

  /** A migrated service has everything its legacy source had, and the name of the repository. */
  predicate Carries(s: Service, idl: LegacyIdl) {
    && s.idl.path == idl.path && s.idl.includes == idl.includes
    && s.options == Options(None, idl.touch, idl.keepUnknownFields)
    && s.idl.source == if idl.source.LegacyGit? then Git(RepoName(idl.source.url)) else Local
  }

  /** The repository of a legacy source; `None` when its missing lock cannot be looked up. */
  function LegacyRepo(source: LegacySource, latest: Lookup): Option<Repo>
    requires source.LegacyGit?
  {
    var ref := RefOr(source.ref);
    var lock := if source.lock.Some? then source.lock else latest(source.url, ref);
    if lock.Some? then Some(Repo(source.url, ref, lock.value)) else None
  }

  predicate FiledUnder(idl: LegacyIdl, n: string) {
    idl.source.LegacyGit? && RepoName(idl.source.url) == n
  }

  /** The last source of that name. */
  predicate LastNamed(idls: seq<LegacyIdl>, n: string, j: nat) {
    j < |idls| && FiledUnder(idls[j], n) && forall k :: j < k < |idls| ==> !FiledUnder(idls[k], n)
  }

  /** Under each repository name stands exactly the repository of the last source of that name. */
  ghost predicate Filed(idls: seq<LegacyIdl>, repos: map<string, Repo>, latest: Lookup) {
    && (forall k :: 0 <= k < |idls| && idls[k].source.LegacyGit? ==> RepoName(idls[k].source.url) in repos)
    && (forall n :: n in repos ==>
          exists j: nat :: LastNamed(idls, n, j) && LegacyRepo(idls[j].source, latest) == Some(repos[n]))
  }

  lemma FiledStep(idls: seq<LegacyIdl>, repos: map<string, Repo>, latest: Lookup, idl: LegacyIdl)
    requires Filed(idls, repos, latest)
    ensures !idl.source.LegacyGit? ==> Filed(idls + [idl], repos, latest)
    ensures idl.source.LegacyGit? && LegacyRepo(idl.source, latest).Some? ==>
              Filed(idls + [idl], repos[RepoName(idl.source.url) := LegacyRepo(idl.source, latest).value], latest)
  {
    hide RepoName, LegacyRepo;
    var all := idls + [idl];
    forall n | n in repos && !FiledUnder(idl, n)
      ensures exists j: nat :: LastNamed(all, n, j) && LegacyRepo(all[j].source, latest) == Some(repos[n])
    {
      var j: nat :| LastNamed(idls, n, j) && LegacyRepo(idls[j].source, latest) == Some(repos[n]);
      assert LastNamed(all, n, j) && all[j] == idls[j];
    }
    if idl.source.LegacyGit? {
      assert LastNamed(all, RepoName(idl.source.url), |idls|);
    }
  }

  /** `transfer_from_legacy`. References resolve and URLs are distinct because a repository name is
      a function of its URL; the services keep their URLs exactly when no two URLs collide on a
      name. `None` is the exit on a failed lookup. */
  method TransferFromLegacy(idls: seq<LegacyIdl>, latest: Lookup) returns (r: Option<(map<string, Repo>, seq<Service>)>)
    ensures r.Some? <==> forall i :: 0 <= i < |idls| && idls[i].source.LegacyGit? ==>
                           LegacyRepo(idls[i].source, latest).Some?
    ensures r.Some? ==>
              var (repos, services) := r.value;
              && Filed(idls, repos, latest) && RefsResolve(repos, services) && UrlsDistinct(repos)
              && |services| == |idls| && (forall i :: 0 <= i < |idls| ==> Carries(services[i], idls[i]))
              && (UrlsKept(idls, repos) <==> NoCollision(idls))
  {
    hide RepoName, Filed;
    var repos: map<string, Repo> := map[];
    var services: seq<Service> := [];
    NothingFiled(latest);
    assert idls[..0] == [];
    for i := 0 to |idls|
      invariant |services| == i && forall k :: 0 <= k < i ==> services[k] == Migrated(idls[k])
      invariant forall k :: 0 <= k < i && idls[k].source.LegacyGit? ==> LegacyRepo(idls[k].source, latest).Some?
      invariant Filed(idls[..i], repos, latest)
    {
      var idl := idls[i];
      FiledStep(idls[..i], repos, latest, idl);
      assert idls[..i + 1] == idls[..i] + [idl];
      if idl.source.LegacyGit? {
        var ref := RefOr(idl.source.ref);
        var lock := idl.source.lock;
        if lock.None? {
          lock := latest(idl.source.url, ref);
          if lock.None? {
            return None;
          }
        }
        repos := repos[RepoName(idl.source.url) := Repo(idl.source.url, ref, lock.value)];
      }
      services := services + [Migrated(idl)];
    }
    assert idls[..|idls|] == idls;
    KeptExactlyWithoutCollision(idls, repos, latest);
    FiledResolves(idls, repos, latest, services);
    return Some((repos, services));
  }

  lemma NothingFiled(latest: Lookup)
    ensures Filed([], map[], latest)
  {
  }

  lemma FiledResolves(idls: seq<LegacyIdl>, repos: map<string, Repo>, latest: Lookup, services: seq<Service>)
    requires Filed(idls, repos, latest) && |services| == |idls|
    requires forall i :: 0 <= i < |idls| ==> services[i] == Migrated(idls[i])
    ensures RefsResolve(repos, services)
  {
    hide RepoName;
  }

  lemma KeptExactlyWithoutCollision(idls: seq<LegacyIdl>, repos: map<string, Repo>, latest: Lookup)
    requires Filed(idls, repos, latest)
    ensures UrlsKept(idls, repos) <==> NoCollision(idls)
    ensures UrlsDistinct(repos)
  {
    hide RepoName;
    forall n | n in repos
      ensures RepoName(repos[n].url) == n
    {
      var j: nat :| LastNamed(idls, n, j) && LegacyRepo(idls[j].source, latest) == Some(repos[n]);
    }
    if NoCollision(idls) {
      forall i | 0 <= i < |idls| && idls[i].source.LegacyGit?
        ensures repos[RepoName(idls[i].source.url)].url == idls[i].source.url
      {
        var n := RepoName(idls[i].source.url);
        var j: nat :| LastNamed(idls, n, j) && LegacyRepo(idls[j].source, latest) == Some(repos[n]);
      }
    }
  }

  /** Two URLs that end alike share a repository name, and migration keeps only one of them. */
  lemma UrlCanBeLost(path: Path)
    ensures var idls := [LegacyIdl(LegacyGit("a/x", None, Some("1")), path, [], [], false),
                         LegacyIdl(LegacyGit("b/x", None, Some("2")), path, [], [], false)];
            RepoName("a/x") == RepoName("b/x") && !NoCollision(idls)
  {
    var idls := [LegacyIdl(LegacyGit("a/x", None, Some("1")), path, [], [], false),
                 LegacyIdl(LegacyGit("b/x", None, Some("2")), path, [], [], false)];
    assert LastOf('/', "a/x") == 1 by { assert "a/x"[..2] == "a/"; }
    assert LastOf('/', "b/x") == 1 by { assert "b/x"[..2] == "b/"; }
    assert "a/x"[2..] == "x" && "b/x"[2..] == "x";
    assert idls[0].source.url != idls[1].source.url by { assert "a/x"[0] != "b/x"[0]; }
  }
}
