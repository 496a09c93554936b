/** The extension store (src/extension_installation.rs): installing, updating and removing move
    checkouts, records and the disabled list through single filesystem steps, each of which may
    fail, with a hand-written rollback after each.

    A step that fails leaves its target alone, and a rename fails when its source is missing or its
    target exists. `faults` counts the steps the schedule made fail, and the times no fresh name
    was found in the attempts allowed. */
module ExtensionStores {
  import opened Wrappers

  const INSTALLATION_SCHEMA_VERSION: nat := 1

  /** How many names `staging_path` and `unique_path` try. */
  const NAME_ATTEMPTS: nat := 100

  datatype Suffix = NewFile | OldFile

  datatype Path =
    | Destination(id: string)                           // <root>/<id>
    | RecordFile(id: string)                            // <control>/installations/<id>.toml
    | Staging(n: nat)                                   // <control>/staging/<pid>-<n>
    | Temporary(id: string, suffix: Suffix, n: nat)     // <control>/installations/.<id>.new-<pid>-<n>

  datatype Source =
    | Local(path: string)
    | Git(remote: string, revision: string)
    | Link(path: string)

  datatype Record = Record(schemaVersion: nat, id: string, source: Source)

  /** An extension directory: the id its manifest declares when it is installable, the revision
      checked out in it when it is a Git checkout, and whether it has no local changes. */
  datatype Tree = Tree(declares: Option<string>, revision: Option<string>, clean: bool)

  datatype Node =
    | Checkout(tree: Tree)
    | LinkTo(path: string, tree: Tree)
    | RecordText(record: Record)
    | Partial                                           // what an interrupted copy or clone leaves

  datatype Error =
    | StepFailed | NameExhausted | InvalidId | InvalidSource | NotInstallable | AlreadyInstalled
    | DestinationExists | IdChanged | CommitChanged | NotUtf8 | BadRecord | NotGit | RevisionMismatch
    | LocalChanges | NotInstalled | Ambiguous

  /** A directory a user names: its canonical path, and whether that path is UTF-8. */
  datatype Directory = Directory(path: string, utf8: bool, isDir: bool, tree: Tree)

  /** A request with what the filesystem answers when the source is inspected. */
  datatype Request =
    | FromSource(source: string, found: Option<Directory>, inspectable: bool, isGitUrl: bool)
    | FromLink(found: Option<Directory>)
    | FromCatalog(source: string, isGitUrl: bool, commit: string, commitValid: bool)

  datatype Resolved =
    | LocalSource(dir: Directory)
    | GitSource(remote: string, expected: Option<string>)
    | LinkSource(dir: Directory)

  type Files = map<Path, Node>

  predicate IsIdCharacter(c: char) {
    'a' <= c <= 'z' || '0' <= c <= '9' || c == '_' || c == '-'
  }

  const ReservedIds: set<string> := {"app", "command", "rozi", "user", "workspace"}

  /** The ids an installation may have. */
  predicate ValidId(id: string) {
    id != "" && (forall c | c in id :: IsIdCharacter(c)) && id !in ReservedIds
  }

  predicate IsSpace(c: char) {
    c == ' ' || c == '\t' || c == '\n' || c == '\r'
  }

  function Trim(s: string): string
    decreases |s|
  {
    if s != "" && IsSpace(s[0]) then Trim(s[1..])
    else if s != "" && IsSpace(s[|s| - 1]) then Trim(s[..|s| - 1])
    else s
  }

  predicate AllSpace(s: string) {
    forall c | c in s :: IsSpace(c)
  }

  /** Trimming takes exactly the space at both ends. */
  lemma {:induction false} TrimTakesSpace(s: string) returns (a: string, b: string)
    ensures AllSpace(a) && AllSpace(b) && s == a + Trim(s) + b
    ensures Trim(s) != "" ==> !IsSpace(Trim(s)[0]) && !IsSpace(Trim(s)[|Trim(s)| - 1])
    decreases |s|
  {
    if s != "" && IsSpace(s[0]) {
      a, b := TrimTakesSpace(s[1..]);
      a := [s[0]] + a;
    } else if s != "" && IsSpace(s[|s| - 1]) {
      a, b := TrimTakesSpace(s[..|s| - 1]);
      b := b + [s[|s| - 1]];
    } else {
      a, b := "", "";
    }
  }

  /** A valid id is one component of a path, whatever system the store is on, and neither the store
      itself, its parent nor its control directory; and it is the entry that disables it. */
  lemma ValidIdIsOneName(id: string)
    requires ValidId(id)
    ensures '/' !in id && '\\' !in id && ':' !in id && '.' !in id && id != ""
    ensures Trim(id) == id
  {
    assert id[0] in id && id[|id| - 1] in id;
  }

  /** The disabled list without the entries for one id. */
  function Without(disabled: seq<string>, id: string): (r: seq<string>)
    ensures forall c :: c in r <==> c in disabled && Trim(c) != id
  {
    if disabled == [] then []
    else if Trim(disabled[0]) == id then Without(disabled[1..], id)
    else [disabled[0]] + Without(disabled[1..], id)
  }

  lemma {:induction false} WithoutAbsent(disabled: seq<string>, id: string)
    requires forall c | c in disabled :: Trim(c) != id
    ensures Without(disabled, id) == disabled
  {
    if disabled != [] {
      assert disabled[0] in disabled && forall c | c in disabled[1..] :: c in disabled;
      WithoutAbsent(disabled[1..], id);
    }
  }

  function Declares(node: Node): Option<string> {
    match node
    case Checkout(tree) => tree.declares
    case LinkTo(_, tree) => tree.declares
    case _ => None
  }

  predicate IsInstallation(node: Node) {
    node.Checkout? || node.LinkTo?
  }

  /** One path has the same content, or the same absence of it. */
  predicate Untouched(f: Files, g: Files, p: Path) {
    (p in f <==> p in g) && (p in f ==> f[p] == g[p])
  }

  function CanonicalDirectory(found: Option<Directory>): Result<Directory, Error> {
    if found.None? || !found.value.isDir then Err(InvalidSource)
    else if !found.value.utf8 then Err(NotUtf8)
    else Ok(found.value)
  }

  /** `resolve_source`. A directory it accepts has a UTF-8 path. */
  function ResolveSource(request: Request): (r: Result<Resolved, Error>)
    ensures r.Ok? && !r.value.GitSource? ==> r.value.dir.utf8
  {
    match request
    case FromCatalog(source, isGitUrl, commit, commitValid) =>
      if isGitUrl && commitValid then Ok(GitSource(source, Some(commit))) else Err(InvalidSource)
    case FromLink(found) =>
      (match CanonicalDirectory(found)
       case Ok(dir) => Ok(LinkSource(dir))
       case Err(e) => Err(e))
    case FromSource(source, found, inspectable, isGitUrl) =>
      if found.Some? then
        match CanonicalDirectory(found)
        case Ok(dir) => Ok(LocalSource(dir))
        case Err(e) => Err(e)
      else if !inspectable then Err(StepFailed)
      else if isGitUrl then Ok(GitSource(source, None))
      else Err(InvalidSource)
  }

  // ---------------------------------------------------------------- what a sound store is

  /** A record and the installation it describes. */
  predicate Describes(record: Record, id: string, node: Node) {
    && record.schemaVersion == INSTALLATION_SCHEMA_VERSION
    && record.id == id
    && Declares(node) == Some(id)
    && match record.source
       case Local(_) => node.Checkout?
       case Git(_, revision) => node.Checkout? && node.tree.revision == Some(revision)
       case Link(path) => node.LinkTo? && node.path == path
  }

  /** Every installation has its record and every record its installation, the two agree, and
      nothing else is left lying about. */
  ghost predicate Sound(files: Files) {
    && (forall p | p in files :: p.Destination? || p.RecordFile?)
    && (forall id :: Destination(id) in files <==> RecordFile(id) in files)
    && (forall id | Destination(id) in files ::
          && ValidId(id)
          && files[RecordFile(id)].RecordText?
          && Describes(files[RecordFile(id)].record, id, files[Destination(id)]))
  }

  /** The store after an install: one more installation, with its record. */
  ghost predicate Added(before: Files, after: Files, id: string) {
    && Destination(id) !in before && RecordFile(id) !in before
    && ValidId(id)
    && Destination(id) in after && RecordFile(id) in after
    && after[RecordFile(id)].RecordText?
    && Describes(after[RecordFile(id)].record, id, after[Destination(id)])
    && after == before[Destination(id) := after[Destination(id)]][RecordFile(id) := after[RecordFile(id)]]
  }

  /** The store after an update: the same paths, with one checkout and its record replaced. */
  ghost predicate Replaced(before: Files, after: Files, id: string) {
    && Destination(id) in before && RecordFile(id) in before
    && Destination(id) in after && RecordFile(id) in after
    && after[RecordFile(id)].RecordText?
    && Describes(after[RecordFile(id)].record, id, after[Destination(id)])
    && after == before[Destination(id) := after[Destination(id)]][RecordFile(id) := after[RecordFile(id)]]
  }

  lemma AddedIsSound(before: Files, after: Files, id: string)
    requires Sound(before) && Added(before, after, id)
    ensures Sound(after)
  {
  }

  lemma ReplacedIsSound(before: Files, after: Files, id: string)
    requires Sound(before) && Replaced(before, after, id)
    ensures Sound(after)
  {
  }

  lemma RemovedIsSound(before: Files, id: string)
    requires Sound(before)
    ensures Sound(before - {Destination(id), RecordFile(id)})
  {
  }

  /** `d` moved aside to `b`, and `s` moved into its place. */
  function Swapped(files: Files, d: Path, s: Path, b: Path): Files
    requires d in files && s in files
  {
    (files[b := files[d]] - {d})[d := files[s]] - {s}
  }

  /** Moving the new checkout out and the old one back leaves only `s` gone. */
  lemma SwapUndone(files: Files, d: Path, s: Path, b: Path)
    requires d in files && s in files && b !in files && d != s
    ensures var swapped := Swapped(files, d, s, b);
            && b in swapped && swapped[b] == files[d]
            && swapped[d := swapped[b]] - {b} == files - {s}
  {
  }

  /** The two paths an installation of a declared id occupies. */
  function InstalledPaths(id: Option<string>): set<Path> {
    if id.None? then {} else {Destination(id.value), RecordFile(id.value)}
  }

  function OfferedId(offered: Option<Tree>): Option<string> {
    if offered.None? then None else offered.value.declares
  }

  /** The id a request would install: the directory's, or the one the remote offers. */
  function RequestedId(request: Request, offered: Option<Tree>): Option<string> {
    match ResolveSource(request)
    case Err(_) => None
    case Ok(GitSource(_, _)) => OfferedId(offered)
    case Ok(resolved) => resolved.dir.tree.declares
  }

  // ---------------------------------------------------------------- when an operation succeeds

  /** The installations whose manifest declares `id`, wherever they lie. */
  function DeclaredAt(files: Files, id: string): set<Path> {
    set p | p in files && p.Destination? && Declares(files[p]) == Some(id)
  }

  /** One installation declares the id, and no other does. */
  lemma DeclaredAlone(files: Files, id: string, p: Path)
    ensures DeclaredAt(files, id) == {p} <==>
            && p in files && p.Destination? && Declares(files[p]) == Some(id)
            && forall q | q in files && q.Destination? && q != p :: Declares(files[q]) != Some(id)
  {
    if p in DeclaredAt(files, id) && forall q | q in DeclaredAt(files, id) :: q == p {
      assert DeclaredAt(files, id) == {p};
    }
    if DeclaredAt(files, id) == {p} {
      forall q | q in files && q.Destination? && q != p
        ensures Declares(files[q]) != Some(id)
      {
        assert q !in DeclaredAt(files, id);
      }
    }
  }

  lemma NoneDeclares(files: Files, id: string)
    ensures DeclaredAt(files, id) == {} <==>
            forall p | p in files && p.Destination? :: Declares(files[p]) != Some(id)
  {
    if DeclaredAt(files, id) == {} {
      forall p | p in files && p.Destination?
        ensures Declares(files[p]) != Some(id)
      {
        assert p !in DeclaredAt(files, id);
      }
    }
  }

  /** Nothing stands in the way of an installation of `id`. */
  predicate CanPlace(files: Files, id: string) {
    ValidId(id) && DeclaredAt(files, id) == {} && Destination(id) !in files && RecordFile(id) !in files
  }

  /** What is in staging claims no id. */
  lemma StagingIsUnseen(files: Files, staging: Path, node: Node, id: string)
    requires staging.Staging?
    ensures DeclaredAt(files[staging := node], id) == DeclaredAt(files, id)
    ensures CanPlace(files[staging := node], id) <==> CanPlace(files, id)
  {
    assert forall p :: p in DeclaredAt(files[staging := node], id) <==> p in DeclaredAt(files, id);
  }

  /** What an install puts in place: the installation and where it came from. */
  datatype Plan = Plan(id: string, node: Node, source: Source)

  /** A clone is installed when it is at the commit asked for, if one was. */
  function GitPlan(remote: string, expected: Option<string>, offered: Option<Tree>): Option<Plan> {
    if offered.None? || offered.value.revision.None? || offered.value.declares.None? then None
    else if expected.Some? && offered.value.revision != expected then None
    else Some(Plan(offered.value.declares.value, Checkout(offered.value), Git(remote, offered.value.revision.value)))
  }

  /** What a request installs, unless something is in its way. */
  function PlanOf(request: Request, offered: Option<Tree>): Option<Plan> {
    match ResolveSource(request)
    case Err(_) => None
    case Ok(LocalSource(dir)) =>
      if dir.tree.declares.None? then None
      else Some(Plan(dir.tree.declares.value, Checkout(dir.tree), Local(dir.path)))
    case Ok(LinkSource(dir)) =>
      if dir.tree.declares.None? then None
      else Some(Plan(dir.tree.declares.value, LinkTo(dir.path, dir.tree), Link(dir.path)))
    case Ok(GitSource(remote, expected)) => GitPlan(remote, expected, offered)
  }

  /** What is placed is what the request names: a copy of its directory, a link to it, or the clone
      at the revision recorded - for a catalog entry the commit it lists. */
  predicate Honours(request: Request, offered: Option<Tree>, node: Node, source: Source) {
    match request
    case FromSource(_, Some(dir), _, _) =>
      dir.isDir && dir.utf8 && node == Checkout(dir.tree) && source == Local(dir.path)
    case FromSource(url, None, inspectable, isGitUrl) =>
      && inspectable && isGitUrl && offered.Some? && node == Checkout(offered.value)
      && source.Git? && source.remote == url && offered.value.revision == Some(source.revision)
    case FromLink(found) =>
      && found.Some? && found.value.isDir && found.value.utf8
      && node == LinkTo(found.value.path, found.value.tree) && source == Link(found.value.path)
    case FromCatalog(url, isGitUrl, commit, commitValid) =>
      && isGitUrl && commitValid && offered.Some? && node == Checkout(offered.value)
      && offered.value.revision == Some(commit) && source == Git(url, commit)
  }

  /** There is a plan exactly when something installable is what the request names. */
  lemma PlanHonours(request: Request, offered: Option<Tree>, plan: Plan)
    ensures PlanOf(request, offered) == Some(plan) <==>
            Declares(plan.node) == Some(plan.id) && Honours(request, offered, plan.node, plan.source)
  {
  }

  function Placed(files: Files, plan: Plan): Files {
    files[Destination(plan.id) := plan.node]
         [RecordFile(plan.id) := RecordText(Record(INSTALLATION_SCHEMA_VERSION, plan.id, plan.source))]
  }

  /** What the record of `id` reads as when no step fails. */
  function RecordOf(files: Files, id: string): Result<Option<Record>, Error> {
    if RecordFile(id) !in files then Ok(None)
    else
      match files[RecordFile(id)]
      case RecordText(found) =>
        if found.schemaVersion != INSTALLATION_SCHEMA_VERSION || found.id != id then Err(BadRecord) else Ok(Some(found))
      case _ => Err(BadRecord)
  }

  /** The remote and revision of an unmodified Git checkout at its recorded revision. */
  function CleanGit(files: Files, id: string): Option<(string, string)> {
    if !ValidId(id) || RecordOf(files, id).Err? || RecordOf(files, id).value.None? then None
    else
      match RecordOf(files, id).value.value.source
      case Git(remote, revision) =>
        if Destination(id) in files && files[Destination(id)].Checkout?
           && files[Destination(id)].tree.revision == Some(revision) && files[Destination(id)].tree.clean
        then Some((remote, revision)) else None
      case _ => None
  }

  /** The remote still offers the same extension. */
  predicate Offers(offered: Option<Tree>, id: string) {
    offered.Some? && offered.value.revision.Some? && offered.value.declares == Some(id)
  }

  /** The record of an updated checkout: the same remote, at the revision now offered. */
  function UpdatedRecord(files: Files, id: string, offered: Option<Tree>): Record
    requires CleanGit(files, id).Some? && Offers(offered, id)
  {
    Record(INSTALLATION_SCHEMA_VERSION, id, Git(CleanGit(files, id).value.0, offered.value.revision.value))
  }

  /** Some path still holds this content. */
  ghost predicate Survives(files: Files, node: Node) {
    exists p | p in files :: files[p] == node
  }

  /** What is untouched since the fetch, other than in staging, is untouched since before it. */
  lemma FetchUndone(before: Files, fetched: Files, after: Files, staging: Path)
    requires staging.Staging? && staging !in before && fetched - {staging} == before
    ensures forall p | p != staging :: Untouched(before, after, p) <==> Untouched(fetched, after, p)
    ensures after - {staging} == fetched - {staging} ==> forall p | p != staging :: Untouched(before, after, p)
  {
    forall p | p != staging
      ensures Untouched(before, fetched, p)
    {
      assert p in fetched - {staging} <==> p in fetched;
    }
    if after - {staging} == fetched - {staging} {
      forall p | p != staging
        ensures Untouched(fetched, after, p)
      {
        assert p in fetched - {staging} <==> p in fetched;
        assert p in after - {staging} <==> p in after;
      }
    }
  }

  class Store {
    var files: Files
    var disabled: seq<string>
    var nextStagingId: nat

    /** Which of the filesystem steps fail, by their place in time. */
    const schedule: nat -> bool
    var clock: nat
    var faults: nat

    constructor (schedule: nat -> bool)
      ensures files == map[] && disabled == [] && faults == 0
    {
      this.schedule := schedule;
      files, disabled, nextStagingId, clock, faults := map[], [], 0, 0, 0;
    }

    // -------------------------------------------------------------- single steps

    /** One step of the schedule. */
    method Attempt() returns (ok: bool)
      modifies this`clock, this`faults
      ensures faults == old(faults) + (if ok then 0 else 1)
    {
      ok := !schedule(clock);
      clock := clock + 1;
      if !ok {
        faults := faults + 1;
      }
    }

    method Rename(from: Path, to: Path) returns (ok: bool)
      modifies this`files, this`clock, this`faults
      ensures ok ==> from in old(files) && to !in old(files) && faults == old(faults)
      ensures ok ==> files == old(files)[to := old(files)[from]] - {from}
      ensures !ok ==> files == old(files)
      ensures !ok && from in old(files) && to !in old(files) ==> faults == old(faults) + 1
      ensures old(faults) <= faults <= old(faults) + 1
    {
      ok := Attempt();
      if from !in files || to in files {
        ok := false;
      }
      if ok {
        files := files[to := files[from]] - {from};
      }
    }

    /** `write_private_file`: it never replaces an existing file. */
    method WriteNew(path: Path, node: Node) returns (ok: bool)
      modifies this`files, this`clock, this`faults
      ensures ok ==> path !in old(files) && files == old(files)[path := node] && faults == old(faults)
      ensures !ok ==> files == old(files)
      ensures !ok && path !in old(files) ==> faults == old(faults) + 1
      ensures old(faults) <= faults <= old(faults) + 1
    {
      ok := Attempt();
      if path in files {
        ok := false;
      }
      if ok {
        files := files[path := node];
      }
    }

    method Delete(path: Path) returns (ok: bool)
      modifies this`files, this`clock, this`faults
      ensures ok ==> path in old(files) && files == old(files) - {path} && faults == old(faults)
      ensures !ok ==> files == old(files)
      ensures !ok && path in old(files) ==> faults == old(faults) + 1
      ensures old(faults) <= faults <= old(faults) + 1
    {
      ok := Attempt();
      if path !in files {
        ok := false;
      }
      if ok {
        files := files - {path};
      }
    }

    /** `remove_installation`: only a directory or a link is removed. */
    method RemoveInstallation(path: Path) returns (ok: bool)
      modifies this`files, this`clock, this`faults
      ensures ok ==> path in old(files) && files == old(files) - {path} && faults == old(faults)
      ensures !ok ==> files == old(files)
      ensures !ok && path in old(files) && IsInstallation(old(files)[path]) ==> faults == old(faults) + 1
      ensures old(faults) <= faults <= old(faults) + 1
    {
      if path !in files || !IsInstallation(files[path]) {
        return false;
      }
      ok := Delete(path);
    }

    /** `cleanup_staging`: best effort, and nothing to do for a missing path. */
    method CleanupStaging(path: Path)
      modifies this`files, this`clock, this`faults
      ensures files == old(files) || files == old(files) - {path}
      ensures faults == old(faults) ==> files == old(files) - {path}
      ensures old(faults) <= faults <= old(faults) + 1
    {
      if path in files {
        var _ := Delete(path);
      }
    }

    method PersistDisabled(ids: seq<string>) returns (ok: bool)
      modifies this`disabled, this`clock, this`faults
      ensures ok ==> disabled == ids && faults == old(faults)
      ensures !ok ==> disabled == old(disabled) && faults == old(faults) + 1
    {
      ok := Attempt();
      if ok {
        disabled := ids;
      }
    }

    // -------------------------------------------------------------- fresh names

    /** `staging_path`: a name nothing has, unless the directory cannot be prepared or every name
        tried is taken. */
    method StagingPath() returns (path: Option<Path>)
      modifies this`nextStagingId, this`clock, this`faults
      ensures path.Some? ==> path.value.Staging? && path.value !in files && faults == old(faults)
      ensures path.None? ==> faults == old(faults) + 1
      ensures path.None? ==> nextStagingId == old(nextStagingId) ||
                             forall k | old(nextStagingId) <= k < old(nextStagingId) + NAME_ATTEMPTS ::
                               Staging(k) in files
    {
      var ok := Attempt();
      if !ok {
        return None;
      }
      ghost var first := nextStagingId;
      for tries := 0 to NAME_ATTEMPTS
        invariant nextStagingId == first + tries && faults == old(faults)
        invariant forall k | first <= k < nextStagingId :: Staging(k) in files
      {
        var sequence := nextStagingId;
        nextStagingId := nextStagingId + 1;
        if Staging(sequence) !in files {
          return Some(Staging(sequence));
        }
      }
      faults := faults + 1;
      return None;
    }

    method UniquePath(id: string, suffix: Suffix) returns (path: Option<Path>)
      modifies this`nextStagingId, this`faults
      ensures path.Some? ==> path.value.Temporary? && path.value.id == id && path.value.suffix == suffix
      ensures path.Some? ==> path.value !in files && faults == old(faults)
      ensures path.None? ==> faults == old(faults) + 1
      ensures path.None? ==> forall k | old(nextStagingId) <= k < old(nextStagingId) + NAME_ATTEMPTS ::
                               Temporary(id, suffix, k) in files
    {
      ghost var first := nextStagingId;
      for tries := 0 to NAME_ATTEMPTS
        invariant nextStagingId == first + tries && faults == old(faults)
        invariant forall k | first <= k < nextStagingId :: Temporary(id, suffix, k) in files
      {
        var sequence := nextStagingId;
        nextStagingId := nextStagingId + 1;
        if Temporary(id, suffix, sequence) !in files {
          return Some(Temporary(id, suffix, sequence));
        }
      }
      faults := faults + 1;
      return None;
    }

    // -------------------------------------------------------------- replacing

    /** `replace_record`. Whatever fails, the old record survives at its path or its `.old` path
        `kept`; one failed step at most puts everything back. */
    method ReplaceRecord(record: Record) returns (ok: bool, ghost kept: Path)
      modifies this`files, this`nextStagingId, this`clock, this`faults
      ensures old(faults) <= faults
      ensures forall p | p != RecordFile(record.id) && !(p.Temporary? && p.id == record.id && p !in old(files)) ::
                Untouched(old(files), files, p)
      ensures ok ==> RecordFile(record.id) in files && files[RecordFile(record.id)] == RecordText(record)
      ensures ok && faults == old(faults) ==> files == old(files)[RecordFile(record.id) := RecordText(record)]
      ensures !ok && RecordFile(record.id) in old(files) ==>
                && (kept == RecordFile(record.id)
                    || (kept.Temporary? && kept.id == record.id && kept.suffix == OldFile))
                && kept in files && files[kept] == old(files)[RecordFile(record.id)]
      ensures !ok && faults <= old(faults) + 1 && RecordFile(record.id) in old(files) ==> files == old(files)
      ensures !ok && RecordFile(record.id) in old(files) ==> faults > old(faults)
    {
      ok := false;
      var path := RecordFile(record.id);
      kept := path;
      var temporary := UniquePath(record.id, NewFile);
      if temporary.None? {
        return;
      }
      var backup := UniquePath(record.id, OldFile);
      if backup.None? {
        return;
      }
      var written := WriteNew(temporary.value, RecordText(record));
      if !written {
        return;
      }
      var preserved := Rename(path, backup.value);
      if !preserved {
        var _ := Delete(temporary.value);
        return;
      }
      kept := backup.value;
      var placed := Rename(temporary.value, path);
      if !placed {
        var restored := Rename(backup.value, path);
        if restored {
          kept := path;
        }
        var _ := Delete(temporary.value);
        return;
      }
      var _ := Delete(backup.value);
      ok := true;
    }

    /** Dropping the new checkout and moving the old one back. */
    method RollBackCheckout(destination: Path, backup: Path) returns (restored: bool)
      requires destination != backup && destination in files && backup in files
      modifies this`files, this`clock, this`faults
      ensures old(faults) <= faults
      ensures restored ==> files == old(files)[destination := old(files)[backup]] - {backup}
      ensures !restored ==> files == old(files) || files == old(files) - {destination}
      ensures !restored && IsInstallation(old(files)[destination]) ==> faults > old(faults)
    {
      var _ := RemoveInstallation(destination);
      restored := Rename(backup, destination);
    }

    /** Moving the new checkout into place, keeping the old one in `backup`. */
    method SwapCheckout(destination: Path, staging: Path, backup: Path) returns (ok: bool, ghost kept: Path)
      requires staging in files && backup !in files && destination != staging && destination != backup
      modifies this`files, this`clock, this`faults
      ensures old(faults) <= faults
      ensures ok ==> destination in old(files) && files == Swapped(old(files), destination, staging, backup)
      ensures !ok ==> kept == destination || kept == backup
      ensures !ok && kept == destination ==> files == old(files) || files == old(files) - {staging}
      ensures !ok && kept == backup ==>
                && destination in old(files) && faults >= old(faults) + 2
                && backup in files && files[backup] == old(files)[destination]
      ensures forall p | p != destination && p != staging && p != backup :: Untouched(old(files), files, p)
      ensures !ok && destination in old(files) ==> faults > old(faults)
    {
      kept := destination;
      var preserved := Rename(destination, backup);
      if !preserved {
        CleanupStaging(staging);
        return false, kept;
      }
      ok := Rename(staging, destination);
      if !ok {
        kept := backup;
        var restored := Rename(backup, destination);
        if restored {
          kept := destination;
          assert files == old(files);
        }
        CleanupStaging(staging);
      }
    }

    /** `replace_git_installation`. Whatever fails, the old checkout survives at the destination or
        in the backup `kept`, and the old record at its path or its `.old` path; with at most one
        failed step, checkout and record are both new when it succeeds and both old when it does not. */
    method ReplaceGitInstallation(staging: Path, record: Record)
      returns (ok: bool, ghost kept: Path, ghost keptRecord: Path)
      requires staging.Staging? && staging in files && IsInstallation(files[staging])
      modifies this`files, this`nextStagingId, this`clock, this`faults
      ensures old(faults) <= faults
      ensures forall p | p != Destination(record.id) && p != RecordFile(record.id) && p != staging
                         && (p.Staging? || (p.Temporary? && p.id == record.id) ==> p in old(files)) ::
                Untouched(old(files), files, p)
      ensures ok ==>
                && Destination(record.id) in files && files[Destination(record.id)] == old(files)[staging]
                && RecordFile(record.id) in files && files[RecordFile(record.id)] == RecordText(record)
      ensures ok && faults == old(faults) ==>
                files == old(files)[Destination(record.id) := old(files)[staging]]
                                   [RecordFile(record.id) := RecordText(record)] - {staging}
      ensures !ok && Destination(record.id) in old(files) ==>
                && (kept == Destination(record.id) || (kept.Staging? && kept !in old(files)))
                && kept in files && files[kept] == old(files)[Destination(record.id)]
      ensures !ok && RecordFile(record.id) in old(files) ==>
                && (keptRecord == RecordFile(record.id) || (keptRecord.Temporary? && keptRecord.suffix == OldFile))
                && keptRecord in files && files[keptRecord] == old(files)[RecordFile(record.id)]
      ensures !ok && faults <= old(faults) + 1
              && Destination(record.id) in old(files) && RecordFile(record.id) in old(files) ==>
                files - {staging} == old(files) - {staging}
      ensures !ok && Destination(record.id) in old(files) && RecordFile(record.id) in old(files) ==>
                faults > old(faults)
    {
      ok := false;
      var destination := Destination(record.id);
      kept, keptRecord := destination, RecordFile(record.id);
      var backup := StagingPath();
      if backup.None? {
        CleanupStaging(staging);
        return;
      }
      var swapped, at0 := SwapCheckout(destination, staging, backup.value);
      kept := at0;
      if !swapped {
        assert Untouched(old(files), files, RecordFile(record.id));
        return;
      }
      kept := backup.value;
      ghost var moved := files;
      var recorded, at := ReplaceRecord(record);
      assert Untouched(moved, files, destination) && Untouched(moved, files, backup.value);
      if !recorded {
        keptRecord := at;
        ghost var settled := files;
        assert files[destination] == moved[destination] == old(files)[staging];
        assert files[backup.value] == moved[backup.value] == old(files)[destination];
        var restored := RollBackCheckout(destination, backup.value);
        if restored {
          kept := destination;
        }
        SwapUndone(old(files), destination, staging, backup.value);
        forall p | p != destination && p != RecordFile(record.id) && p != staging
                     && (p.Staging? || (p.Temporary? && p.id == record.id) ==> p in old(files))
          ensures Untouched(old(files), files, p)
        {
          assert Untouched(moved, settled, p);
        }
        return;
      }
      CleanupStaging(backup.value);
      ok := true;
    }

    // -------------------------------------------------------------- reading

    method ValidateCandidate(path: Path) returns (id: Result<string, Error>)
      requires path in files
      modifies this`clock, this`faults
      ensures old(faults) <= faults <= old(faults) + 1
      ensures id.Ok? ==> Declares(files[path]) == Some(id.value) && faults == old(faults)
      ensures id.Err? && Declares(files[path]).Some? ==> faults == old(faults) + 1
    {
      var ok := Attempt();
      if !ok {
        return Err(StepFailed);
      }
      var declared := Declares(files[path]);
      if declared.None? {
        return Err(NotInstallable);
      }
      return Ok(declared.value);
    }

    method ValidateInstalledCandidate(path: Path, expected: string) returns (valid: Result<(), Error>)
      requires path in files
      modifies this`clock, this`faults
      ensures old(faults) <= faults <= old(faults) + 1
      ensures valid.Ok? ==> Declares(files[path]) == Some(expected) && faults == old(faults)
      ensures valid.Err? && Declares(files[path]) == Some(expected) ==> faults == old(faults) + 1
    {
      var id := ValidateCandidate(path);
      if id.Err? {
        return Err(id.error);
      }
      if id.value != expected {
        return Err(IdChanged);
      }
      return Ok(());
    }

    method RejectScanConflicts(id: Option<string>) returns (clear: Result<(), Error>)
      modifies this`clock, this`faults
      ensures old(faults) <= faults <= old(faults) + 1
      ensures clear.Ok? ==> faults == old(faults) && (id.Some? ==> DeclaredAt(files, id.value) == {})
      ensures clear.Err? ==> faults == old(faults) + 1 || (id.Some? && DeclaredAt(files, id.value) != {})
    {
      var ok := Attempt();
      if !ok {
        return Err(StepFailed);
      }
      if id.Some? && DeclaredAt(files, id.value) != {} {
        return Err(AlreadyInstalled);
      }
      return Ok(());
    }

    method RejectDestinationConflict(id: string) returns (clear: Result<(), Error>)
      modifies this`clock, this`faults
      ensures old(faults) <= faults <= old(faults) + 1
      ensures clear.Ok? ==>
                faults == old(faults) && ValidId(id) && Destination(id) !in files && RecordFile(id) !in files
      ensures clear.Err? ==>
                faults == old(faults) + 1 || !ValidId(id) || Destination(id) in files || RecordFile(id) in files
    {
      if !ValidId(id) {
        return Err(InvalidId);
      }
      var inspected := Attempt();
      if !inspected {
        return Err(StepFailed);
      }
      if Destination(id) in files || RecordFile(id) in files {
        return Err(DestinationExists);
      }
      return Ok(());
    }

    /** `read_record`: whatever is at the record's path, unless a step fails. */
    method ReadRecord(id: string) returns (record: Result<Option<Record>, Error>)
      modifies this`clock, this`faults
      ensures old(faults) <= faults <= old(faults) + 1
      ensures if faults == old(faults) then record == RecordOf(files, id) else record.Err?
    {
      var ok := Attempt();
      if !ok {
        return Err(StepFailed);
      }
      if RecordFile(id) !in files {
        return Ok(None);
      }
      match files[RecordFile(id)] {
        case RecordText(found) =>
          if found.schemaVersion != INSTALLATION_SCHEMA_VERSION || found.id != id {
            return Err(BadRecord);
          }
          return Ok(Some(found));
        case _ => return Err(BadRecord);
      }
    }

    // -------------------------------------------------------------- installing

    method RemoveRecord(id: string) returns (ok: bool)
      modifies this`files, this`clock, this`faults
      ensures old(faults) <= faults <= old(faults) + 1
      ensures ok ==> files == old(files) - {RecordFile(id)} && faults == old(faults)
      ensures !ok ==> files == old(files) && faults == old(faults) + 1
    {
      if RecordFile(id) !in files {
        return true;
      }
      ok := Delete(RecordFile(id));
    }

    /** `complete_install`: the record, then the enabling. An error leaves the disabled list alone,
        and unless a second step fails it takes the new destination and record away again. */
    method CompleteInstall(record: Record, listed: seq<string>) returns (done: Result<string, Error>)
      requires Destination(record.id) in files && IsInstallation(files[Destination(record.id)])
      requires RecordFile(record.id) !in files
      modifies this`files, this`disabled, this`clock, this`faults
      ensures old(faults) <= faults
      ensures done.Ok? ==> done.value == record.id && faults == old(faults)
      ensures done.Ok? ==> files == old(files)[RecordFile(record.id) := RecordText(record)]
      ensures done.Ok? ==> disabled == if exists c | c in listed :: Trim(c) == record.id then Without(listed, record.id)
                                       else old(disabled)
      ensures done.Err? ==> disabled == old(disabled) && faults > old(faults)
      ensures done.Err? && faults == old(faults) + 1 ==> files == old(files) - {Destination(record.id)}
      ensures forall p | p != Destination(record.id) && p != RecordFile(record.id) :: Untouched(old(files), files, p)
    {
      var destination := Destination(record.id);
      var written := WriteNew(RecordFile(record.id), RecordText(record));
      if !written {
        var _ := RemoveInstallation(destination);
        return Err(StepFailed);
      }
      if exists c | c in listed :: Trim(c) == record.id {
        var persisted := PersistDisabled(Without(listed, record.id));
        if !persisted {
          var _ := RemoveRecord(record.id);
          var _ := RemoveInstallation(destination);
          return Err(StepFailed);
        }
      }
      return Ok(record.id);
    }

    /** The checks `finish_managed_install` makes before it moves anything: the staged extension is
        installable, nothing else has its id, and its destination and record path are free. */
    method AdmitStaged(staging: Path) returns (id: Result<string, Error>)
      requires staging in files
      modifies this`files, this`clock, this`faults
      ensures old(faults) <= faults
      ensures id.Ok? ==>
                && files == old(files) && faults == old(faults)
                && Declares(files[staging]) == Some(id.value) && ValidId(id.value)
                && Destination(id.value) !in files && RecordFile(id.value) !in files
                && DeclaredAt(files, id.value) == {}
      ensures id.Err? ==> files == old(files) || files == old(files) - {staging}
      ensures id.Err? && faults == old(faults) ==> files == old(files) - {staging}
      ensures faults == old(faults) ==>
                (id.Ok? <==> Declares(old(files)[staging]).Some?
                             && CanPlace(old(files), Declares(old(files)[staging]).value))
    {
      id := ValidateCandidate(staging);
      if id.Err? {
        CleanupStaging(staging);
        return;
      }
      var scanned := RejectScanConflicts(Some(id.value));
      if scanned.Err? {
        CleanupStaging(staging);
        return Err(scanned.error);
      }
      var clear := RejectDestinationConflict(id.value);
      if clear.Err? {
        CleanupStaging(staging);
        return Err(clear.error);
      }
    }

    /** What `finish_managed_install` does once the extension is at its destination. */
    method SettleManaged(id: string, source: Source, listed: seq<string>) returns (done: Result<string, Error>)
      requires Destination(id) in files && files[Destination(id)].Checkout?
      requires Declares(files[Destination(id)]) == Some(id) && RecordFile(id) !in files
      requires listed == disabled
      modifies this`files, this`disabled, this`clock, this`faults
      ensures old(faults) <= faults
      ensures done.Ok? ==>
                && done.value == id
                && files == old(files)[RecordFile(id) := RecordText(Record(INSTALLATION_SCHEMA_VERSION, id, source))]
                && disabled == Without(old(disabled), id)
      ensures done.Err? ==> disabled == old(disabled) && faults > old(faults)
      ensures done.Err? && faults == old(faults) + 1 ==> files == old(files) - {Destination(id)}
      ensures forall p | p !in InstalledPaths(Some(id)) :: Untouched(old(files), files, p)
    {
      var destination := Destination(id);
      var valid := ValidateInstalledCandidate(destination, id);
      if valid.Err? {
        var _ := RemoveInstallation(destination);
        return Err(valid.error);
      }
      done := CompleteInstall(Record(INSTALLATION_SCHEMA_VERSION, id, source), listed);
      if done.Ok? && !(exists c | c in listed :: Trim(c) == id) {
        WithoutAbsent(listed, id);
      }
    }

    /** `finish_managed_install`, from a filled staging directory. */
    method FinishManagedInstall(staging: Path, source: Source, listed: seq<string>)
      returns (done: Result<string, Error>)
      requires staging.Staging? && staging in files && files[staging].Checkout?
      requires listed == disabled
      requires source.Git? ==> files[staging].tree.revision == Some(source.revision)
      requires !source.Link?
      modifies this`files, this`disabled, this`clock, this`faults
      ensures old(faults) <= faults
      ensures done.Ok? ==>
                && Declares(old(files)[staging]) == Some(done.value)
                && DeclaredAt(old(files), done.value) == {}
                && Added(old(files) - {staging}, files, done.value)
                && files[Destination(done.value)] == old(files)[staging]
                && files[RecordFile(done.value)] == RecordText(Record(INSTALLATION_SCHEMA_VERSION, done.value, source))
                && disabled == Without(old(disabled), done.value)
      ensures done.Err? ==> disabled == old(disabled)
      ensures done.Err? && faults <= old(faults) + 1 ==> files - {staging} == old(files) - {staging}
      ensures done.Err? && faults == old(faults) ==> files == old(files) - {staging}
      ensures faults == old(faults) ==>
                (done.Ok? <==> Declares(old(files)[staging]).Some?
                               && CanPlace(old(files), Declares(old(files)[staging]).value))
      ensures Declares(old(files)[staging]).Some? ==>
                RecordFile(Declares(old(files)[staging]).value) in old(files) ==> done.Err?
      ensures forall p | p != staging && p !in InstalledPaths(Declares(old(files)[staging])) ::
                Untouched(old(files), files, p)
    {
      var id := AdmitStaged(staging);
      if id.Err? {
        return Err(id.error);
      }
      var destination := Destination(id.value);
      var placed := Rename(staging, destination);
      if !placed {
        CleanupStaging(staging);
        return Err(StepFailed);
      }
      ghost var moved := files;
      assert moved - {destination} == old(files) - {staging};
      done := SettleManaged(id.value, source, listed);
      forall p | p != staging && p !in {destination, RecordFile(id.value)}
        ensures Untouched(old(files), files, p)
      {
        assert Untouched(moved, files, p);
      }
    }

    /** `install_link`. The UTF-8 check comes after the link was made and undoes nothing, so what an
        error leaves behind depends on it - but `resolve_source` has made the same check already. */
    method InstallLink(source: Directory, id: string, listed: seq<string>) returns (done: Result<string, Error>)
      requires listed == disabled
      modifies this`files, this`disabled, this`clock, this`faults
      ensures old(faults) <= faults
      ensures done.Ok? ==>
                && done.value == id && Added(old(files), files, id)
                && files[Destination(id)] == LinkTo(source.path, source.tree)
                && files[RecordFile(id)] == RecordText(Record(INSTALLATION_SCHEMA_VERSION, id, Link(source.path)))
                && disabled == Without(old(disabled), id)
      ensures done.Err? ==> disabled == old(disabled)
      ensures done.Err? && faults <= old(faults) + 1 && source.utf8 && source.tree.declares == Some(id) ==>
                files == old(files)
      ensures faults == old(faults) && !source.utf8 && source.tree.declares == Some(id) && ValidId(id)
              && Destination(id) !in old(files) && RecordFile(id) !in old(files) ==>
                done == Err(NotUtf8) && files == old(files)[Destination(id) := LinkTo(source.path, source.tree)]
      ensures faults == old(faults) ==>
                (done.Ok? <==> && ValidId(id) && Destination(id) !in old(files) && RecordFile(id) !in old(files)
                               && source.tree.declares == Some(id) && source.utf8)
      ensures RecordFile(id) in old(files) ==> done.Err?
      ensures forall p | p !in InstalledPaths(Some(id)) :: Untouched(old(files), files, p)
    {
      var clear := RejectDestinationConflict(id);
      if clear.Err? {
        return Err(clear.error);
      }
      var destination := Destination(id);
      var linked := WriteNew(destination, LinkTo(source.path, source.tree));
      if !linked {
        return Err(StepFailed);
      }
      var valid := ValidateInstalledCandidate(destination, id);
      if valid.Err? {
        var _ := RemoveInstallation(destination);
        return Err(valid.error);
      }
      if !source.utf8 {
        return Err(NotUtf8);
      }
      ghost var moved := files;
      done := CompleteInstall(Record(INSTALLATION_SCHEMA_VERSION, id, Link(source.path)), listed);
      if done.Ok? && !(exists c | c in listed :: Trim(c) == id) {
        WithoutAbsent(listed, id);
      }
      forall p | p !in InstalledPaths(Some(id))
        ensures Untouched(old(files), files, p)
      {
        assert Untouched(moved, files, p);
      }
    }

    /** A copy or a clone into a fresh staging directory. A failure may leave part of it behind. */
    method Fetch(staging: Path, tree: Option<Tree>) returns (ok: bool)
      requires staging !in files
      modifies this`files, this`clock, this`faults
      ensures ok ==> tree.Some? && files == old(files)[staging := Checkout(tree.value)] && faults == old(faults)
      ensures !ok ==> files - {staging} == old(files)
      ensures !ok && tree.Some? ==> faults == old(faults) + 1
      ensures old(faults) <= faults <= old(faults) + 1
    {
      ok := Attempt();
      ok := ok && tree.Some?;
      files := files[staging := if ok then Checkout(tree.value) else Partial];
    }

    method InstallLocal(source: Directory, listed: seq<string>) returns (done: Result<string, Error>)
      requires listed == disabled
      modifies this
      ensures old(faults) <= faults
      ensures done.Ok? ==> Added(old(files), files, done.value) && disabled == Without(old(disabled), done.value)
      ensures done.Ok? ==> source.tree.declares == Some(done.value)
      ensures done.Ok? ==> files == Placed(old(files), Plan(done.value, Checkout(source.tree), Local(source.path)))
      ensures faults == old(faults) ==>
                (done.Ok? <==> source.utf8 && source.tree.declares.Some?
                               && CanPlace(old(files), source.tree.declares.value))
      ensures done.Err? ==> disabled == old(disabled)
      ensures done.Err? && faults <= old(faults) + 1 ==> forall p: Path | !p.Staging? :: Untouched(old(files), files, p)
      ensures done.Err? && faults == old(faults) && source.utf8 ==> files == old(files)
      ensures forall p: Path | !p.Staging? && p !in InstalledPaths(source.tree.declares) ::
                Untouched(old(files), files, p)
      ensures source.tree.declares.Some? && RecordFile(source.tree.declares.value) in old(files) ==> done.Err?
    {
      var staging := StagingPath();
      if staging.None? {
        return Err(NameExhausted);
      }
      var copied := Fetch(staging.value, Some(source.tree));
      if !copied {
        CleanupStaging(staging.value);
        return Err(StepFailed);
      }
      if !source.utf8 {
        return Err(NotUtf8);
      }
      ghost var fetched := files;
      assert fetched - {staging.value} == old(files);
      if source.tree.declares.Some? {
        StagingIsUnseen(old(files), staging.value, Checkout(source.tree), source.tree.declares.value);
      }
      done := FinishManagedInstall(staging.value, Local(source.path), listed);
      FetchUndone(old(files), fetched, files, staging.value);
    }

    method InstallGit(remote: string, expected: Option<string>, offered: Option<Tree>, listed: seq<string>)
      returns (done: Result<string, Error>)
      requires listed == disabled
      modifies this
      ensures old(faults) <= faults
      ensures done.Ok? ==> Added(old(files), files, done.value) && disabled == Without(old(disabled), done.value)
      ensures done.Ok? ==> offered.Some? && offered.value.declares == Some(done.value)
      ensures done.Ok? ==> DeclaredAt(old(files), done.value) == {}
      ensures done.Ok? && expected.Some? ==> offered.value.revision == expected
      ensures done.Ok? ==>
                && GitPlan(remote, expected, offered).Some? && GitPlan(remote, expected, offered).value.id == done.value
                && files == Placed(old(files), GitPlan(remote, expected, offered).value)
      ensures faults == old(faults) ==>
                (done.Ok? <==> GitPlan(remote, expected, offered).Some?
                               && CanPlace(old(files), GitPlan(remote, expected, offered).value.id))
      ensures done.Err? ==> disabled == old(disabled)
      ensures done.Err? && faults <= old(faults) + 1 ==> forall p: Path | !p.Staging? :: Untouched(old(files), files, p)
      ensures done.Err? && faults == old(faults) ==> files == old(files)
      ensures forall p: Path | !p.Staging? && p !in InstalledPaths(OfferedId(offered)) ::
                Untouched(old(files), files, p)
      ensures offered.Some? && offered.value.declares.Some? ==>
                RecordFile(offered.value.declares.value) in old(files) ==> done.Err?
    {
      var staging := StagingPath();
      if staging.None? {
        return Err(NameExhausted);
      }
      var cloned := Fetch(staging.value, offered);
      if !cloned {
        CleanupStaging(staging.value);
        return Err(StepFailed);
      }
      ghost var fetched := files;
      assert fetched - {staging.value} == old(files);
      if expected.Some? && offered.value.revision != expected {
        CleanupStaging(staging.value);
        return Err(CommitChanged);
      }
      var read := Attempt();
      if !read || offered.value.revision.None? {
        CleanupStaging(staging.value);
        return Err(StepFailed);
      }
      if offered.value.declares.Some? {
        StagingIsUnseen(old(files), staging.value, Checkout(offered.value), offered.value.declares.value);
      }
      done := FinishManagedInstall(staging.value, Git(remote, offered.value.revision.value), listed);
      FetchUndone(old(files), fetched, files, staging.value);
    }

    /** `install`. Success adds exactly one destination with its matching record and enables its id;
        an error, unless a second step failed, leaves destinations, records and the disabled list
        as they were. An id whose record is still there is refused. */
    method Install(request: Request, offered: Option<Tree>) returns (done: Result<string, Error>)
      modifies this
      ensures old(faults) <= faults
      ensures done.Ok? ==>
                && RequestedId(request, offered) == Some(done.value)
                && PlanOf(request, offered).Some? && PlanOf(request, offered).value.id == done.value
                && files == Placed(old(files), PlanOf(request, offered).value)
                && Added(old(files), files, done.value)
                && disabled == Without(old(disabled), done.value)
      ensures done.Ok? ==>
                && (forall p | p in old(files) && p.Destination? :: Declares(old(files)[p]) != Some(done.value))
                && Honours(request, offered, files[Destination(done.value)],
                           files[RecordFile(done.value)].record.source)
      ensures faults == old(faults) ==>
                (done.Ok? <==> PlanOf(request, offered).Some?
                               && CanPlace(old(files), PlanOf(request, offered).value.id))
      ensures done.Err? ==> disabled == old(disabled)
      ensures done.Err? && faults <= old(faults) + 1 ==> forall p: Path | !p.Staging? :: Untouched(old(files), files, p)
      ensures done.Err? && faults == old(faults) ==> files == old(files)
      ensures forall p: Path | !p.Staging? && p !in InstalledPaths(RequestedId(request, offered)) ::
                Untouched(old(files), files, p)
      ensures RequestedId(request, offered).Some? ==>
                RecordFile(RequestedId(request, offered).value) in old(files) ==> done.Err?
    {
      if PlanOf(request, offered).Some? {
        PlanHonours(request, offered, PlanOf(request, offered).value);
      }
      var source := ResolveSource(request);
      if source.Err? {
        return Err(source.error);
      }
      var sourceId: Option<string> := None;
      if !source.value.GitSource? {
        var checked := Attempt();
        if !checked || source.value.dir.tree.declares.None? {
          return Err(NotInstallable);
        }
        sourceId := source.value.dir.tree.declares;
      }
      var configRead := Attempt();
      if !configRead {
        return Err(StepFailed);
      }
      var listed := disabled;
      var rootReady := Attempt();
      if !rootReady {
        return Err(StepFailed);
      }
      var scanned := RejectScanConflicts(sourceId);
      if scanned.Err? {
        return Err(scanned.error);
      }
      var recordsReady := Attempt();
      if !recordsReady {
        return Err(StepFailed);
      }
      assert sourceId.Some? ==> DeclaredAt(files, sourceId.value) == {};
      match source.value {
        case LocalSource(dir) => done := InstallLocal(dir, listed);
        case GitSource(remote, expected) => done := InstallGit(remote, expected, offered, listed);
        case LinkSource(dir) => done := InstallLink(dir, sourceId.value, listed);
      }
      if done.Ok? {
        NoneDeclares(old(files), done.value);
        var _ := Attempt();  // announce_change: a failure is only a warning
      }
    }

    // -------------------------------------------------------------- updating

    /** The record of a Git installation whose checkout is at the recorded revision and unchanged. */
    method RequireCleanGit(id: string) returns (source: Result<(string, string), Error>)
      modifies this`clock, this`faults
      ensures old(faults) <= faults
      ensures source.Ok? ==> faults == old(faults) && CleanGit(files, id) == Some(source.value)
      ensures faults == old(faults) ==> (source.Ok? <==> CleanGit(files, id).Some?)
      ensures source.Ok? ==>
                && Destination(id) in files && files[Destination(id)].Checkout?
                && files[Destination(id)].tree == Tree(files[Destination(id)].tree.declares, Some(source.value.1), true)
                && RecordFile(id) in files
                && files[RecordFile(id)] ==
                   RecordText(Record(INSTALLATION_SCHEMA_VERSION, id, Git(source.value.0, source.value.1)))
    {
      if !ValidId(id) {
        return Err(InvalidId);
      }
      var rootReady := Attempt();
      if !rootReady {
        return Err(StepFailed);
      }
      var found := ReadRecord(id);
      if found.Err? {
        return Err(found.error);
      }
      if found.value.None? || !found.value.value.source.Git? {
        return Err(NotGit);
      }
      var Git(remote, installedRevision) := found.value.value.source;
      var revisionRead := Attempt();
      if !revisionRead || Destination(id) !in files || !files[Destination(id)].Checkout?
         || files[Destination(id)].tree.revision != Some(installedRevision) {
        return Err(RevisionMismatch);
      }
      var statusRead := Attempt();
      if !statusRead || !files[Destination(id)].tree.clean {
        return Err(LocalChanges);
      }
      return Ok((remote, installedRevision));
    }

    /** Cloning what the remote offers into staging, and checking that it still is extension `id`. */
    method FetchUpdate(id: string, offered: Option<Tree>) returns (fetched: Result<(Path, string), Error>)
      modifies this`files, this`nextStagingId, this`clock, this`faults
      ensures old(faults) <= faults
      ensures fetched.Ok? ==>
                && faults == old(faults)
                && fetched.value.0.Staging? && fetched.value.0 !in old(files) && offered.Some?
                && files == old(files)[fetched.value.0 := Checkout(offered.value)]
                && Offers(offered, id) && offered.value.revision == Some(fetched.value.1)
      ensures faults == old(faults) ==> (fetched.Ok? <==> Offers(offered, id))
      ensures fetched.Err? ==> forall p: Path | !p.Staging? :: Untouched(old(files), files, p)
      ensures fetched.Err? && faults == old(faults) ==> files == old(files)
    {
      var path := StagingPath();
      if path.None? {
        return Err(NameExhausted);
      }
      var staging := path.value;
      var cloned := Fetch(staging, offered);
      ghost var filled := files;
      FetchUndone(old(files), filled, filled, staging);
      if !cloned {
        CleanupStaging(staging);
        FetchUndone(old(files), filled, files, staging);
        return Err(StepFailed);
      }
      assert filled - {staging} == old(files);
      var newRead := Attempt();
      if !newRead || offered.value.revision.None? {
        CleanupStaging(staging);
        FetchUndone(old(files), filled, files, staging);
        return Err(StepFailed);
      }
      var valid := ValidateInstalledCandidate(staging, id);
      if valid.Err? {
        CleanupStaging(staging);
        FetchUndone(old(files), filled, files, staging);
        return Err(valid.error);
      }
      return Ok((staging, offered.value.revision.value));
    }

    /** `update`, against what the remote now offers. The boolean says whether anything changed. Local
        changes, and a checkout that is not at its recorded revision, are left as they are. */
    method Update(id: string, offered: Option<Tree>) returns (done: Result<bool, Error>)
      modifies this`files, this`nextStagingId, this`clock, this`faults
      ensures old(faults) <= faults
      ensures done == Ok(true) ==>
                && Destination(id) in files && RecordFile(id) in files && files[RecordFile(id)].RecordText?
                && offered.Some? && files[Destination(id)] == Checkout(offered.value)
                && Describes(files[RecordFile(id)].record, id, files[Destination(id)])
      ensures done.Ok? ==>
                && ValidId(id)
                && Destination(id) in old(files) && old(files)[Destination(id)].Checkout?
                && old(files)[Destination(id)].tree.clean
                && RecordFile(id) in old(files) && old(files)[RecordFile(id)].RecordText?
                && var (tree, record) := (old(files)[Destination(id)].tree, old(files)[RecordFile(id)].record);
                && record.schemaVersion == INSTALLATION_SCHEMA_VERSION && record.id == id
                && record.source.Git? && tree.revision == Some(record.source.revision)
                && offered.Some? && offered.value.declares == Some(id) && offered.value.revision.Some?
                && (done.value <==> offered.value.revision != tree.revision)
      ensures done == Ok(true) ==>
                files[RecordFile(id)] ==
                RecordText(Record(INSTALLATION_SCHEMA_VERSION, id,
                                  Git(old(files)[RecordFile(id)].record.source.remote, offered.value.revision.value)))
      ensures faults == old(faults) && ValidId(id)
              && Destination(id) in old(files) && old(files)[Destination(id)].Checkout?
              && old(files)[Destination(id)].tree.clean
              && RecordFile(id) in old(files) && old(files)[RecordFile(id)].RecordText?
              && old(files)[RecordFile(id)].record.schemaVersion == INSTALLATION_SCHEMA_VERSION
              && old(files)[RecordFile(id)].record.id == id && old(files)[RecordFile(id)].record.source.Git?
              && old(files)[Destination(id)].tree.revision == Some(old(files)[RecordFile(id)].record.source.revision)
              && offered.Some? && offered.value.declares == Some(id) && offered.value.revision.Some? ==>
                done.Ok?
      ensures Destination(id) in old(files) && old(files)[Destination(id)].Checkout?
              && !old(files)[Destination(id)].tree.clean ==>
                done.Err? && files == old(files)
      ensures Destination(id) in old(files) && old(files)[Destination(id)].Checkout?
              && RecordFile(id) in old(files) && old(files)[RecordFile(id)].RecordText?
              && old(files)[RecordFile(id)].record.source.Git?
              && Some(old(files)[RecordFile(id)].record.source.revision) != old(files)[Destination(id)].tree.revision
                ==>
                done.Err? && files == old(files)
      ensures done == Ok(true) && faults == old(faults) ==>
                && Replaced(old(files), files, id)
                && CleanGit(old(files), id).Some? && Offers(offered, id)
                && files == old(files)[Destination(id) := Checkout(offered.value)]
                                      [RecordFile(id) := RecordText(UpdatedRecord(old(files), id, offered))]
      ensures faults == old(faults) ==>
                && (done.Ok? <==> CleanGit(old(files), id).Some? && Offers(offered, id))
                && (done.Ok? ==> (done.value <==> offered.value.revision.value != CleanGit(old(files), id).value.1))
      ensures done != Ok(true) && faults <= old(faults) + 1 ==>
                forall p: Path | !p.Staging? :: Untouched(old(files), files, p)
      ensures done != Ok(true) && faults == old(faults) ==> files == old(files)
      ensures done.Err? && Destination(id) in old(files) ==> Survives(files, old(files)[Destination(id)])
      ensures done.Err? && RecordFile(id) in old(files) ==> Survives(files, old(files)[RecordFile(id)])
      ensures forall p: Path | !p.Staging? && p !in InstalledPaths(Some(id)) && !(p.Temporary? && p.id == id) ::
                Untouched(old(files), files, p)
    {
      assert Destination(id) in files ==> Survives(files, files[Destination(id)]);
      assert RecordFile(id) in files ==> Survives(files, files[RecordFile(id)]);
      var source := RequireCleanGit(id);
      if source.Err? {
        return Err(source.error);
      }
      var (remote, installedRevision) := source.value;
      var fetched := FetchUpdate(id, offered);
      if fetched.Err? {
        assert Untouched(old(files), files, Destination(id)) && Untouched(old(files), files, RecordFile(id));
        return Err(fetched.error);
      }
      var (staging, newRevision) := fetched.value;
      ghost var filled := files;
      assert filled - {staging} == old(files);
      if newRevision == installedRevision {
        CleanupStaging(staging);
        FetchUndone(old(files), filled, files, staging);
        return Ok(false);
      }
      var record := Record(INSTALLATION_SCHEMA_VERSION, id, Git(remote, newRevision));
      var replaced, kept, keptRecord := ReplaceGitInstallation(staging, record);
      FetchUndone(old(files), filled, files, staging);
      if !replaced {
        return Err(StepFailed);
      }
      var _ := Attempt();  // announce_change
      return Ok(true);
    }

    // -------------------------------------------------------------- removing

    /** `forget_removed`: the record, then the disabled entry. */
    method ForgetRemoved(id: string, listed: seq<string>) returns (ok: bool)
      requires listed == disabled
      modifies this`files, this`disabled, this`clock, this`faults
      ensures old(faults) <= faults
      ensures files == old(files) || files == old(files) - {RecordFile(id)}
      ensures disabled == old(disabled) || disabled == Without(old(disabled), id)
      ensures ok ==>
                && files == old(files) - {RecordFile(id)} && disabled == Without(old(disabled), id)
                && faults == old(faults)
      ensures !ok ==> faults > old(faults)
    {
      ok := RemoveRecord(id);
      if !ok {
        return;
      }
      if exists c | c in listed :: Trim(c) == id {
        ok := PersistDisabled(Without(listed, id));
      } else {
        WithoutAbsent(listed, id);
      }
    }

    /** `remove`: whether the installation was a link, and whether bookkeeping was left behind. */
    method Remove(id: string) returns (linked: Result<bool, Error>, warned: bool)
      modifies this`files, this`disabled, this`clock, this`faults
      ensures old(faults) <= faults
      ensures linked.Err? ==> files == old(files) && disabled == old(disabled)
      ensures linked.Ok? ==>
                exists p | DeclaredAt(old(files), id) == {p} ::
                  && (files == old(files) - {p} || files == old(files) - {p} - {RecordFile(id)})
                  && linked.value == old(files)[p].LinkTo?
      ensures linked.Ok? ==>
                exists p | p in old(files) && p.Destination? && Declares(old(files)[p]) == Some(id) ::
                  && p !in files
                  && forall q | q in old(files) && q.Destination? && q != p :: Declares(old(files)[q]) != Some(id)
      ensures linked.Ok? && !warned ==> RecordFile(id) !in files && disabled == Without(old(disabled), id)
      ensures linked.Ok? && faults == old(faults) ==> !warned
      ensures faults == old(faults) ==>
                (linked.Ok? <==> ValidId(id) && exists p :: DeclaredAt(old(files), id) == {p})
      ensures disabled == old(disabled) || disabled == Without(old(disabled), id)
    {
      warned := false;
      if !ValidId(id) {
        return Err(InvalidId), false;
      }
      var configRead := Attempt();
      if !configRead {
        return Err(StepFailed), false;
      }
      var listed := disabled;
      var rootReady := Attempt();
      if !rootReady {
        return Err(StepFailed), false;
      }
      var scanned := Attempt();
      if !scanned {
        return Err(StepFailed), false;
      }
      var matches := DeclaredAt(files, id);
      if matches == {} {
        return Err(NotInstalled), false;
      }
      var entry :| entry in matches;
      if matches != {entry} {
        return Err(Ambiguous), false;
      }
      var inspected := Attempt();
      if !inspected {
        return Err(StepFailed), false;
      }
      var isLink := files[entry].LinkTo?;
      var removed := RemoveInstallation(entry);
      if !removed {
        return Err(StepFailed), false;
      }
      var forgotten := ForgetRemoved(id, listed);
      var announced := Attempt();
      linked, warned := Ok(isLink), !(forgotten && announced);
      assert DeclaredAt(old(files), id) == {entry};
      DeclaredAlone(old(files), id, entry);
    }
  }

  // ---------------------------------------------------------------- whole runs

  datatype Op =
    | DoInstall(request: Request, offered: Option<Tree>)
    | DoUpdate(id: string, offered: Option<Tree>)
    | DoRemove(id: string)

  /** The id an operation is about. */
  function TargetId(op: Op): Option<string> {
    match op
    case DoInstall(request, offered) => RequestedId(request, offered)
    case DoUpdate(id, _) => Some(id)
    case DoRemove(id) => Some(id)
  }

  /** The store without its steps: what is installed and recorded, and which ids are disabled. */
  datatype Shelf = Shelf(files: Files, disabled: seq<string>)

  function Installed(s: Shelf, request: Request, offered: Option<Tree>): Shelf {
    match PlanOf(request, offered)
    case None => s
    case Some(plan) =>
      if CanPlace(s.files, plan.id) then Shelf(Placed(s.files, plan), Without(s.disabled, plan.id)) else s
  }

  function Updated(s: Shelf, id: string, offered: Option<Tree>): Shelf {
    match CleanGit(s.files, id)
    case None => s
    case Some((_, revision)) =>
      if !Offers(offered, id) || offered.value.revision == Some(revision) then s
      else s.(files := s.files[Destination(id) := Checkout(offered.value)]
                              [RecordFile(id) := RecordText(UpdatedRecord(s.files, id, offered))])
  }

  ghost function Removed(s: Shelf, id: string): Shelf {
    if p :| ValidId(id) && DeclaredAt(s.files, id) == {p} then
      Shelf(s.files - {p} - {RecordFile(id)}, Without(s.disabled, id))
    else s
  }

  /** What an operation comes to when none of its steps fails. */
  ghost function After(s: Shelf, op: Op): Shelf {
    match op
    case DoInstall(request, offered) => Installed(s, request, offered)
    case DoUpdate(id, offered) => Updated(s, id, offered)
    case DoRemove(id) => Removed(s, id)
  }

  ghost function AfterAll(ops: seq<Op>): Shelf {
    if ops == [] then Shelf(map[], []) else After(AfterAll(ops[..|ops| - 1]), ops[|ops| - 1])
  }

  lemma InstalledIsAdded(s: Shelf, request: Request, offered: Option<Tree>)
    requires Sound(s.files) && Installed(s, request, offered) != s
    ensures PlanOf(request, offered).Some?
    ensures Added(s.files, Installed(s, request, offered).files, PlanOf(request, offered).value.id)
  {
  }

  lemma UpdatedIsReplaced(s: Shelf, id: string, offered: Option<Tree>)
    requires Sound(s.files) && Updated(s, id, offered) != s
    ensures Replaced(s.files, Updated(s, id, offered).files, id)
  {
  }

  /** In a sound store the one installation that declares an id is the one at its destination. */
  lemma RemovedIsAtDestination(s: Shelf, id: string)
    requires Sound(s.files)
    ensures Removed(s, id) ==
            if Destination(id) in s.files then
              Shelf(s.files - {Destination(id), RecordFile(id)}, Without(s.disabled, id))
            else s
  {
    var d := Destination(id);
    assert DeclaredAt(s.files, id) == if d in s.files then {d} else {};
    assert s.files - {d} - {RecordFile(id)} == s.files - {d, RecordFile(id)};
  }

  /** An operation keeps the store sound and every id but its own as it was. */
  lemma AfterKeepsSound(s: Shelf, op: Op)
    requires Sound(s.files)
    ensures Sound(After(s, op).files)
    ensures forall p: Path | p !in InstalledPaths(TargetId(op)) :: Untouched(s.files, After(s, op).files, p)
  {
    match op
    case DoInstall(request, offered) =>
      if Installed(s, request, offered) != s {
        InstalledIsAdded(s, request, offered);
        AddedIsSound(s.files, Installed(s, request, offered).files, PlanOf(request, offered).value.id);
      }
    case DoUpdate(id, offered) =>
      if Updated(s, id, offered) != s {
        UpdatedIsReplaced(s, id, offered);
        ReplacedIsSound(s.files, Updated(s, id, offered).files, id);
      }
    case DoRemove(id) =>
      RemovedIsAtDestination(s, id);
      RemovedIsSound(s.files, id);
  }

  /** Removing an extension undoes installing it, but for its id staying enabled. */
  lemma RemoveUndoesInstall(s: Shelf, request: Request, offered: Option<Tree>)
    requires Sound(s.files) && Installed(s, request, offered) != s
    ensures Removed(Installed(s, request, offered), PlanOf(request, offered).value.id) ==
            Shelf(s.files, Without(s.disabled, PlanOf(request, offered).value.id))
  {
    var id := PlanOf(request, offered).value.id;
    var after := Installed(s, request, offered);
    InstalledIsAdded(s, request, offered);
    AddedIsSound(s.files, after.files, id);
    RemovedIsAtDestination(after, id);
    assert after.files - {Destination(id), RecordFile(id)} == s.files;
    WithoutAbsent(after.disabled, id);
  }

  /** After any run: every installation is recorded, every record describes its installation, and
      nothing else is left. */
  lemma {:induction false} AfterAllIsSound(ops: seq<Op>)
    ensures Sound(AfterAll(ops).files)
  {
    if ops != [] {
      AfterAllIsSound(ops[..|ops| - 1]);
      AfterKeepsSound(AfterAll(ops[..|ops| - 1]), ops[|ops| - 1]);
    }
  }

  lemma RemovedExactly(before: Files, after: Files, id: string)
    requires RecordFile(id) !in after
    requires exists p | DeclaredAt(before, id) == {p} ::
               after == before - {p} || after == before - {p} - {RecordFile(id)}
    ensures exists p :: DeclaredAt(before, id) == {p} && after == before - {p} - {RecordFile(id)}
  {
    var p :| DeclaredAt(before, id) == {p} && (after == before - {p} || after == before - {p} - {RecordFile(id)});
    assert after == before - {p} - {RecordFile(id)};
  }

  /** One operation. When none of its steps fails it does exactly what it should. */
  method Perform(store: Store, op: Op)
    modifies store
    ensures old(store.faults) <= store.faults
    ensures store.faults == old(store.faults) ==>
              Shelf(store.files, store.disabled) == After(Shelf(old(store.files), old(store.disabled)), op)
  {
    match op {
      case DoInstall(request, offered) =>
        var done := store.Install(request, offered);
      case DoUpdate(id, offered) =>
        var done := store.Update(id, offered);
      case DoRemove(id) =>
        var linked, warned := store.Remove(id);
        if linked.Ok? && store.faults == old(store.faults) {
          RemovedExactly(old(store.files), store.files, id);
        }
    }
  }

  /** From an empty store, a run of installs, updates and removals in which no step fails does what
      the operations should, and so ends with a sound store. */
  method Run(schedule: nat -> bool, ops: seq<Op>) returns (store: Store)
    ensures fresh(store)
    ensures store.faults == 0 ==> Shelf(store.files, store.disabled) == AfterAll(ops) && Sound(store.files)
  {
    store := new Store(schedule);
    for i := 0 to |ops|
      invariant fresh(store)
      invariant store.faults == 0 ==> Shelf(store.files, store.disabled) == AfterAll(ops[..i])
    {
      assert ops[..i + 1][..i] == ops[..i];
      Perform(store, ops[i]);
    }
    assert ops[..|ops|] == ops;
    AfterAllIsSound(ops);
  }
}
