/** `patch_version` on a file system: both texts are rewritten and verified in memory, staged beside their targets,
    and swapped in last. */
module VersionPatchFiles {
  import opened TextMatching
  import opened VersionPatch
  import opened VersionPatchProof
  import opened Wrappers

  type Path = string

  /** What the TOML parser reads: `[project]`'s name (if a string) and version, and the lock's packages. */
  datatype Project = Project(name: Option<string>, version: Option<string>)

  datatype Package = Package(name: Option<string>, version: Option<string>, editable: Option<string>)

  datatype Doc = Doc(project: Option<Project>, packages: seq<Package>)

  /** `tomllib.loads`, as an oracle; `None` is a decode error. */
  type Toml = string -> Option<Doc>

  datatype Failure =
    | InvalidVersion | NotRegular | NotFound
    | NotToml | NoProject | NoName | NoTable | NoVersionLine | NoLockEntry | NotVerified
    | StagingFailed | ReplaceFailed

  datatype Result<+T> = Ok(value: T) | Err(failure: Failure)

  // ---------------------------------------------------------------------------------------------
  // In memory
  // ---------------------------------------------------------------------------------------------

  datatype Patched = Patched(text: string, name: string)

  /** `_patch_pyproject`. */
  function PatchPyproject(toml: Toml, text: string, version: string): Result<Patched> {
    match toml(text)
    case None => Err(NotToml)
    case Some(doc) =>
      if doc.project.None? then Err(NoProject)
      else if doc.project.value.name.None? || doc.project.value.name.value == "" then Err(NoName)
      else if FindTable(text).None? then Err(NoTable)
      else if ProjectVersion(text).None? then Err(NoVersionLine)
      else Ok(Patched(Splice(text, ProjectVersion(text).value, version), doc.project.value.name.value))
  }

  /** `_patch_lock`. */
  function PatchLock(text: string, name: string, version: string): Result<string> {
    if LockVersion(text, name).None? then Err(NoLockEntry)
    else Ok(Splice(text, LockVersion(text, name).value, version))
  }

  predicate IsRoot(p: Package, name: string) { p.name == Some(Canonical(name)) && p.editable == Some(".") }

  /** The packages that are the editable root. */
  function Roots(packages: seq<Package>, name: string): seq<Package> {
    if packages == [] then []
    else (if IsRoot(packages[0], name) then [packages[0]] else []) + Roots(packages[1..], name)
  }

  /** `_verify`. */
  predicate Verified(toml: Toml, pyproject: string, lock: string, name: string, version: string) {
    && toml(pyproject).Some? && toml(pyproject).value.project.Some? && toml(lock).Some?
    && toml(pyproject).value.project.value.version == Some(version)
    && var roots := Roots(toml(lock).value.packages, name); |roots| == 1 && roots[0].version == Some(version)
  }

  /** Everything `patch_version` does before it touches a file. */
  function InMemory(toml: Toml, pyproject: string, lock: string, version: string): Result<(string, string, string)> {
    if !IsPep440(version) then Err(InvalidVersion)
    else
      match PatchPyproject(toml, pyproject, version)
      case Err(e) => Err(e)
      case Ok(patched) =>
        match PatchLock(lock, patched.name, version)
        case Err(e) => Err(e)
        case Ok(newLock) =>
          if Verified(toml, patched.text, newLock, patched.name, version)
          then Ok((patched.text, newLock, patched.name)) else Err(NotVerified)
  }

  /** Both texts carry `version` where it would be patched. */
  predicate Carries(pyproject: string, lock: string, name: string, version: string) {
    && ProjectVersion(pyproject).Some? && Between(pyproject, ProjectVersion(pyproject).value) == version
    && LockVersion(lock, name).Some? && Between(lock, LockVersion(lock, name).value) == version
  }

  /** The only difference between the texts is the version string. */
  predicate OnlyVersionDiffers(pyproject: string, lock: string, name: string, version: string,
                               newPyproject: string, newLock: string)
  {
    && ProjectVersion(pyproject).Some? && newPyproject == Splice(pyproject, ProjectVersion(pyproject).value, version)
    && LockVersion(lock, name).Some? && newLock == Splice(lock, LockVersion(lock, name).value, version)
  }

  lemma PatchingSplices(toml: Toml, pyproject: string, lock: string, version: string, newPyproject: string,
                        newLock: string, name: string)
    requires InMemory(toml, pyproject, lock, version) == Ok((newPyproject, newLock, name))
    ensures IsPep440(version) && OnlyVersionDiffers(pyproject, lock, name, version, newPyproject, newLock)
  {
    hide IsPep440, ProjectVersion, LockVersion, Verified;
  }

  lemma SplicingBack(pyproject: string, lock: string, name: string, version: string, original: string,
                     newPyproject: string, newLock: string)
    requires OnlyVersionDiffers(pyproject, lock, name, version, newPyproject, newLock)
    requires Carries(pyproject, lock, name, original) && Plain(version) && NameOk(Canonical(name))
    ensures Carries(newPyproject, newLock, name, version)
    ensures OnlyVersionDiffers(newPyproject, newLock, name, original, pyproject, lock)
  {
    hide ProjectVersion, LockVersion;
    ProjectRoundTrip(pyproject, version);
    assert '"' !in version;
    LockRoundTrip(lock, name, version);
  }

  /** When the work in memory succeeds: what the parser and the matchers must have found. */
  lemma InMemoryExactly(toml: Toml, pyproject: string, lock: string, version: string, newPyproject: string,
                        newLock: string, name: string)
    ensures InMemory(toml, pyproject, lock, version) == Ok((newPyproject, newLock, name)) <==>
            && IsPep440(version) && ReadsName(toml, pyproject, name)
            && OnlyVersionDiffers(pyproject, lock, name, version, newPyproject, newLock)
            && Verified(toml, newPyproject, newLock, name, version)
  {
    hide IsPep440, ProjectVersion, LockVersion, Verified;
    TableOfVersion(pyproject);
  }

  lemma TableOfVersion(pyproject: string)
    ensures ProjectVersion(pyproject).Some? ==> FindTable(pyproject).Some?
  {
    hide FindTable;
  }

  /** The parser reads that project name, which is not empty. */
  predicate ReadsName(toml: Toml, pyproject: string, name: string) {
    && toml(pyproject).Some? && toml(pyproject).value.project.Some?
    && toml(pyproject).value.project.value.name == Some(name) && name != ""
  }

  /** Patching to `version`, and then back to the version both files carried, restores both texts exactly: if and only if
      that version is a valid one, the parser reads the same name from the patched project, and it verifies the original
      texts. */
  lemma RoundTrip(toml: Toml, pyproject: string, lock: string, version: string, original: string,
                  newPyproject: string, newLock: string, name: string)
    requires InMemory(toml, pyproject, lock, version) == Ok((newPyproject, newLock, name))
    requires Carries(pyproject, lock, name, original) && NameOk(Canonical(name))
    ensures Carries(newPyproject, newLock, name, version)
    ensures InMemory(toml, newPyproject, newLock, original) == Ok((pyproject, lock, name)) <==>
            IsPep440(original) && ReadsName(toml, newPyproject, name) && Verified(toml, pyproject, lock, name, original)
  {
    hide InMemory, IsPep440, Carries, ProjectVersion, LockVersion, Plain, NameOk, Canonical, Verified, ReadsName;
    PatchingSplices(toml, pyproject, lock, version, newPyproject, newLock, name);
    Pep440IsPlain(version);
    SplicingBack(pyproject, lock, name, version, original, newPyproject, newLock);
    InMemoryExactly(toml, newPyproject, newLock, original, pyproject, lock, name);
  }

  /** Whatever the second run returns under the same name, it is the original texts. */
  lemma NothingElseComesBack(toml: Toml, pyproject: string, lock: string, version: string, original: string,
                             newPyproject: string, newLock: string, name: string, back: (string, string, string))
    requires InMemory(toml, pyproject, lock, version) == Ok((newPyproject, newLock, name))
    requires Carries(pyproject, lock, name, original) && NameOk(Canonical(name))
    requires InMemory(toml, newPyproject, newLock, original) == Ok(back) && back.2 == name
    ensures back == (pyproject, lock, name)
  {
    hide InMemory, IsPep440, Carries, ProjectVersion, LockVersion, Plain, NameOk, Canonical;
    PatchingSplices(toml, pyproject, lock, version, newPyproject, newLock, name);
    Pep440IsPlain(version);
    SplicingBack(pyproject, lock, name, version, original, newPyproject, newLock);
    PatchingSplices(toml, newPyproject, newLock, original, back.0, back.1, name);
  }

  // ---------------------------------------------------------------------------------------------
  // On disk
  // ---------------------------------------------------------------------------------------------

  function Tmp(path: Path): Path { path + ".tmp" }

  /** How a staging write ends: the text is there, part of it is, or the file could not be opened. */
  datatype Write = Written | Cut(partial: string) | NotOpened

  type Files = map<Path, string>

  /** The files after a staging write. */
  function Staged(files: Files, path: Path, text: string, write: Write): Files {
    match write
    case Written => files[Tmp(path) := text]
    case Cut(partial) => files[Tmp(path) := partial]
    case NotOpened => files
  }

  /** The files after `os.replace`. */
  function Replaced(files: Files, tmp: Path, target: Path): Files
    requires tmp in files
  {
    if tmp == target then files else files[target := files[tmp]] - {tmp}
  }

  /** What the environment decides: the two staging writes, and whether each swap works. */
  datatype Steps = Steps(first: Write, second: Write, swapFirst: bool, swapSecond: bool)

  /** The two targets and the texts they are to get. */
  datatype Job = Job(pyproject: Path, lock: Path, newPyproject: string, newLock: string)

  /** After the staging block: on a failure the files staged so far are removed, and what the failed write left stays. */
  function AfterStaging(files: Files, job: Job, steps: Steps): Files {
    var one := Staged(files, job.pyproject, job.newPyproject, steps.first);
    if !steps.first.Written? then one
    else
      var two := Staged(one, job.lock, job.newLock, steps.second);
      if steps.second.Written? then two else two - {Tmp(job.pyproject)}
  }

  predicate IsStaged(steps: Steps) { steps.first.Written? && steps.second.Written? }

  /** After the first swap. */
  function AfterFirst(files: Files, job: Job, steps: Steps): Files
    requires IsStaged(steps)
  {
    Replaced(AfterStaging(files, job, steps), Tmp(job.pyproject), job.pyproject)
  }

  /** The second swap works: the environment lets it, and its staging file is still there. */
  predicate Swaps(job: Job, steps: Steps) {
    IsStaged(steps) && steps.swapFirst && steps.swapSecond && job.pyproject != job.lock
  }

  class FileSystem {
    /** The regular files and their texts. */
    var files: Files
    /** Paths that exist but are not regular files. */
    var others: set<Path>

    constructor (files: Files, others: set<Path>)
      ensures this.files == files && this.others == others
    {
      this.files := files;
      this.others := others;
    }

    /** `_stage`. */
    method Stage(path: Path, text: string, write: Write) returns (ok: bool)
      modifies this`files
      ensures ok == write.Written? && files == Staged(old(files), path, text, write)
    {
      match write {
        case Written => files := files[Tmp(path) := text];
        case Cut(partial) => files := files[Tmp(path) := partial];
        case NotOpened =>
      }
      ok := write.Written?;
    }

    /** `os.replace`. */
    method Replace(tmp: Path, target: Path, works: bool) returns (ok: bool)
      modifies this`files
      ensures ok == (works && tmp in old(files))
      ensures files == if ok then Replaced(old(files), tmp, target) else old(files)
    {
      ok := works && tmp in files;
      if ok && tmp != target {
        files := files[target := files[tmp]] - {tmp};
      }
    }

    /** The checks and the work in memory. */
    function Prepared(toml: Toml, version: string, pyproject: Path, lock: Path): Result<(string, string, string)>
      reads this
    {
      if !IsPep440(version) then Err(InvalidVersion)
      else if pyproject in others || lock in others then Err(NotRegular)
      else if pyproject !in files || lock !in files then Err(NotFound)
      else InMemory(toml, files[pyproject], files[lock], version)
    }

    /** The staging block. */
    method StageBoth(job: Job, steps: Steps) returns (ok: bool)
      modifies this`files
      ensures ok == IsStaged(steps) && files == AfterStaging(old(files), job, steps)
    {
      var staged: seq<Path> := [];
      ok := Stage(job.pyproject, job.newPyproject, steps.first);
      if ok {
        staged := staged + [Tmp(job.pyproject)];
        ok := Stage(job.lock, job.newLock, steps.second);
      }
      if !ok {
        ghost var failed := files;
        for i := 0 to |staged|
          invariant files == if i == 0 then failed else failed - {Tmp(job.pyproject)}
        {
          files := files - {staged[i]};
        }
      }
    }

    /** `patch_version`: the result and the files for every outcome of the writes and swaps. */
    method PatchVersion(toml: Toml, version: string, pyproject: Path, lock: Path, steps: Steps)
      returns (result: Result<string>)
      modifies this`files
      ensures old(Prepared(toml, version, pyproject, lock)).Err? ==>
                files == old(files) && result == Err(old(Prepared(toml, version, pyproject, lock)).failure)
      ensures old(Prepared(toml, version, pyproject, lock)).Ok? ==>
                var (newPyproject, newLock, name) := old(Prepared(toml, version, pyproject, lock)).value;
                var job := Job(pyproject, lock, newPyproject, newLock);
                if !IsStaged(steps) then result == Err(StagingFailed) && files == AfterStaging(old(files), job, steps)
                else if !steps.swapFirst then result == Err(ReplaceFailed) && files == AfterStaging(old(files), job, steps)
                else if !Swaps(job, steps) then result == Err(ReplaceFailed) && files == AfterFirst(old(files), job, steps)
                else
                  && result == Ok(name) && Tmp(lock) in AfterFirst(old(files), job, steps)
                  && files == Replaced(AfterFirst(old(files), job, steps), Tmp(lock), lock)
    {
      hide InMemory, IsPep440;
      var patched := Prepared(toml, version, pyproject, lock);
      if patched.Err? {
        return Err(patched.failure);
      }
      var (newPyproject, newLock, name) := patched.value;
      var job := Job(pyproject, lock, newPyproject, newLock);
      var ok := StageBoth(job, steps);
      if !ok {
        return Err(StagingFailed);
      }
      SecondStays(old(files), job, steps);
      var staged := [(Tmp(pyproject), pyproject), (Tmp(lock), lock)];
      ok := Replace(staged[0].0, staged[0].1, steps.swapFirst);
      if !ok {
        return Err(ReplaceFailed);
      }
      ok := Replace(staged[1].0, staged[1].1, steps.swapSecond);
      if !ok {
        return Err(ReplaceFailed);
      }
      result := Ok(name);
    }
  }

  lemma TmpsDiffer(a: Path, b: Path)
    requires a != b
    ensures Tmp(a) != Tmp(b)
  {
    assert a == Tmp(a)[..|Tmp(a)| - 4];
    assert b == Tmp(b)[..|Tmp(b)| - 4];
  }

  lemma TmpIsLonger(path: Path)
    ensures |Tmp(path)| == |path| + 4
  {}

  /** The second staging file survives the first swap exactly if the targets are two. */
  lemma SecondStays(files: Files, job: Job, steps: Steps)
    requires IsStaged(steps)
    ensures Tmp(job.lock) in AfterFirst(files, job, steps) <==> job.pyproject != job.lock
  {
    TmpIsLonger(job.pyproject);
    if job.pyproject != job.lock { TmpsDiffer(job.pyproject, job.lock); }
  }

  // ---------------------------------------------------------------------------------------------
  // What becomes of the targets, outcome by outcome
  // ---------------------------------------------------------------------------------------------

  /** Both targets are there with the texts they had. */
  predicate Untouched(before: Files, after: Files, job: Job) {
    && SameAt(before, after, job.pyproject) && SameAt(before, after, job.lock)
  }

  predicate SameAt(before: Files, after: Files, path: Path) {
    path in before && path in after && after[path] == before[path]
  }

  /** The write leaves the file at its staging path as it is. */
  predicate Harmless(files: Files, write: Write, text: string, path: Path) {
    match write
    case Written => path in files && text == files[path]
    case Cut(partial) => path in files && partial == files[path]
    case NotOpened => true
  }

  /** A failed staging keeps both targets exactly in these cases: the first write failed and did not change a lock that is
      its staging file; or the second failed, the lock is not the first one's staging file (it would be removed), and the
      write did not change a project that is the second one's. */
  lemma FailedStagingExactly(files: Files, job: Job, steps: Steps)
    requires job.pyproject in files && job.lock in files && !IsStaged(steps)
    ensures Untouched(files, AfterStaging(files, job, steps), job) <==>
            if !steps.first.Written? then
              job.pyproject + ".tmp" != job.lock || Harmless(files, steps.first, job.newPyproject, job.lock)
            else
              && job.pyproject + ".tmp" != job.lock
              && (job.lock + ".tmp" != job.pyproject || Harmless(files, steps.second, job.newLock, job.pyproject))
  {
    TmpIsLonger(job.pyproject);
    TmpIsLonger(job.lock);
  }

  /** What a failed staging leaves: the staging file of the project goes, what the failed write got to stays. */
  lemma FailedStagingLeaves(files: Files, job: Job, steps: Steps)
    requires !IsStaged(steps)
    ensures var one, two, after := job.pyproject + ".tmp", job.lock + ".tmp", AfterStaging(files, job, steps);
      match (steps.first, steps.second)
      case (NotOpened, _) => after == files
      case (Cut(partial), _) => after == files[one := partial]
      case (Written, NotOpened) => after == files - {one}
      case (Written, Cut(partial)) => after == if one == two then files - {one} else (files - {one})[two := partial]
  {
    var one, two := job.pyproject + ".tmp", job.lock + ".tmp";
    assert files[one := job.newPyproject] - {one} == files - {one};
    if steps.second.Cut? && one != two {
      assert files[one := job.newPyproject][two := steps.second.partial] - {one} == (files - {one})[two := steps.second.partial];
    }
  }

  /** A failed first swap keeps both exactly if neither is the other's staging file, or it has the other's new text. */
  lemma FailedFirstSwapExactly(files: Files, job: Job, steps: Steps)
    requires job.pyproject in files && job.lock in files && IsStaged(steps)
    ensures Untouched(files, AfterStaging(files, job, steps), job) <==>
            && (job.pyproject + ".tmp" == job.lock ==> job.newPyproject == files[job.lock])
            && (job.lock + ".tmp" == job.pyproject ==> job.newLock == files[job.pyproject])
  {
    TmpIsLonger(job.pyproject);
    TmpIsLonger(job.lock);
    if job.pyproject != job.lock { TmpsDiffer(job.pyproject, job.lock); }
  }

  /** A failed second swap has already swapped the first file in: both targets are as they were exactly if that changed
      nothing. */
  lemma FailedSecondSwapExactly(files: Files, job: Job, steps: Steps)
    requires job.pyproject in files && job.lock in files && IsStaged(steps)
    ensures Untouched(files, AfterFirst(files, job, steps), job) <==>
            if job.pyproject == job.lock then job.newLock == files[job.lock]
            else job.newPyproject == files[job.pyproject] && job.pyproject + ".tmp" != job.lock
  {
    TmpIsLonger(job.pyproject);
    TmpIsLonger(job.lock);
    if job.pyproject != job.lock { TmpsDiffer(job.pyproject, job.lock); }
  }

  /** A run that reports success has written both texts, changed nothing else and left no staging file, exactly if the
      project is not the lock's staging file. */
  lemma SuccessExactly(files: Files, job: Job, steps: Steps)
    requires job.pyproject in files && job.lock in files && Swaps(job, steps)
    ensures job.lock + ".tmp" in AfterFirst(files, job, steps)
    ensures Replaced(AfterFirst(files, job, steps), job.lock + ".tmp", job.lock) ==
            (files - {job.pyproject + ".tmp", job.lock + ".tmp"})[job.pyproject := job.newPyproject]
            [job.lock := job.newLock] <==>
            job.lock + ".tmp" != job.pyproject
  {
    TmpIsLonger(job.pyproject);
    TmpIsLonger(job.lock);
    TmpsDiffer(job.pyproject, job.lock);
    var after := Replaced(AfterFirst(files, job, steps), Tmp(job.lock), job.lock);
    if Tmp(job.lock) == job.pyproject { assert job.pyproject !in after; }
  }
}
