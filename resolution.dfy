/** The orchestrator of mypi/package_util.py (`ensure_package_exists`):
    picks a tag (the given one, or the newest the repository has), reads
    the package's name and version from setup.py at that tag, and builds
    "<name>-<version>.tar.gz" into the packages directory unless a file of
    that name is already there. The directory is the set of file names a
    PackageStore holds; git and the sdist build are the answers a Remote
    records. */
module Resolution {
  import opened Base
  import opened Text
  import opened Versions
  import Sorting
  import Tags
  import Metadata
  import Catalog

  /** What the outside world answers for one repository: what
      `git ls-remote --tags` prints, the text of setup.py at each tag that
      can be checked out, and the name of the file `setup.py sdist` leaves
      in dist/ at each tag where the build produces one. */
  datatype Remote = Remote(lsRemote: string, setupPyAt: map<string, string>, sdistAt: map<string, string>)

  /** The first element of the returned pair: "exists" or "built". */
  datatype Status = Exists | Built

  /** Why ensuring fails: no tag given and the repository has none
      (all_tags[0] raises), the tag cannot be checked out, the build leaves
      no package file (the glob's [0] raises), or the file the build leaves
      is already in the packages directory (moving it there raises). */
  datatype Failure = NoTags | NoCheckout(tag: string) | NoBuildOutput(tag: string) | MoveClash(file: string)

  /** The result and the packages directory after one call. */
  datatype Outcome = Outcome(result: Result<(Status, string), Failure>, files: set<string>)

  /** The tag a call works on: the given one, or else the first of the
      repository's tags sorted newest first. */
  function ChosenTag(remote: Remote, tag: Option<string>): (r: Option<string>)
    ensures tag.Some? ==> r == tag
    ensures tag.None? ==> (r.None? <==> Tags.KeptTags(Split(remote.lsRemote, '\n')) == [])
  {
    match tag
    case Some(t) => Some(t)
    case None =>
      var tags := Sorting.SortBy(Tags.TagOrder, Tags.KeptTags(Split(remote.lsRemote, '\n')));
      if tags == [] then None else Some(tags[0])
  }

  /** The name and version setup.py assigns. */
  function Details(setupPy: string): (string, string) {
    var lines := Split(setupPy, '\n');
    (Metadata.Settled(lines, "name"), Metadata.Settled(lines, "version"))
  }

  /** Each of the details is "" exactly when no line of setup.py assigns it
      a non-empty value, and otherwise is a value one line assigns. */
  lemma DetailsAssigned(setupPy: string)
    ensures var (lines, d) := (Split(setupPy, '\n'), Details(setupPy));
      && (d.0 == "" <==> Metadata.NoneAssigned(lines, "name"))
      && (d.1 == "" <==> Metadata.NoneAssigned(lines, "version"))
      && (d.0 != "" ==> exists k :: 0 <= k < |lines| && Metadata.Capture(Strip(lines[k]), "name") == Some(d.0))
      && (d.1 != "" ==> exists k :: 0 <= k < |lines| && Metadata.Capture(Strip(lines[k]), "version") == Some(d.1))
  {
    var lines := Split(setupPy, '\n');
    Metadata.SettledAssigned(lines, "name");
    Metadata.SettledAssigned(lines, "version");
  }

  /** The package file name for a name and a version: a ".tar.gz" file
      that the catalog lists unless the name makes it hidden. */
  function ArtifactName(details: (string, string)): (r: string)
    ensures EndsWith(r, Catalog.ArtifactSuffix)
    ensures Catalog.Listed(r) <==> details.0 == [] || details.0[0] != '.'
  {
    details.0 + "-" + details.1 + Catalog.ArtifactSuffix
  }

  /** ensure_package_exists over the directory `files`. The directory only
      grows, and it changes exactly when the call builds; a successful call
      names the file of the name and version setup.py gives at the chosen
      tag; when that file is already there the call answers "exists" and
      changes nothing, and "exists" is answered for no other file; a move
      fails only on a build whose file is already there. */
  function Ensure(files: set<string>, remote: Remote, tag: Option<string>): (o: Outcome)
    ensures files <= o.files
    ensures var t := ChosenTag(remote, tag);
      t.Some? && t.value in remote.setupPyAt && ArtifactName(Details(remote.setupPyAt[t.value])) in files ==>
        o == Outcome(Ok((Exists, ArtifactName(Details(remote.setupPyAt[t.value])))), files)
    ensures o.result.Ok? ==>
      var t := ChosenTag(remote, tag);
      && t.Some? && t.value in remote.setupPyAt
      && o.result.value.1 == ArtifactName(Details(remote.setupPyAt[t.value]))
    ensures o.files != files <==> o.result.Ok? && o.result.value.0 == Built
    ensures o.result.Ok? && o.result.value.0 == Exists <==> o.result.Ok? && o.result.value.1 in files
    ensures o.result.Err? && o.result.error.MoveClash? ==>
      var t := ChosenTag(remote, tag);
      && t.Some? && t.value in remote.setupPyAt && t.value in remote.sdistAt
      && o.result.error.file == remote.sdistAt[t.value] && o.result.error.file in files
  {
    match ChosenTag(remote, tag)
    case None => Outcome(Err(NoTags), files)
    case Some(t) =>
      if t !in remote.setupPyAt then Outcome(Err(NoCheckout(t)), files)
      else
        var filename := ArtifactName(Details(remote.setupPyAt[t]));
        if filename in files then Outcome(Ok((Exists, filename)), files)
        else if t !in remote.sdistAt then Outcome(Err(NoBuildOutput(t)), files)
        else if remote.sdistAt[t] in files then Outcome(Err(MoveClash(remote.sdistAt[t])), files)
        else Outcome(Ok((Built, filename)), files + {remote.sdistAt[t]})
  }

  /** The build at every tag leaves the file ensure_package_exists names. */
  predicate BuildsNamed(remote: Remote) {
    forall t :: t in remote.sdistAt && t in remote.setupPyAt ==>
      remote.sdistAt[t] == ArtifactName(Details(remote.setupPyAt[t]))
  }

  /** The packages directory, into which ensure_package_exists builds. */
  class PackageStore {
    var files: set<string>

    constructor(files: set<string>)
      ensures this.files == files
    {
      this.files := files;
    }

    /** ensure_package_exists: "exists" with nothing built when the file is
        already there; otherwise the build's file, which must not be there
        yet, is added and "built" returned. */
    method EnsurePackageExists(remote: Remote, tag: Option<string>) returns (r: Result<(Status, string), Failure>)
      modifies this
      ensures Outcome(r, files) == Ensure(old(files), remote, tag)
      ensures var t := ChosenTag(remote, tag);
        t.Some? && t.value in remote.setupPyAt && ArtifactName(Details(remote.setupPyAt[t.value])) in old(files) ==>
          r == Ok((Exists, ArtifactName(Details(remote.setupPyAt[t.value])))) && files == old(files)
      ensures r.Ok? && r.value.0 == Exists ==> files == old(files) && r.value.1 in files
      ensures r.Ok? && r.value.0 == Built ==>
        && r.value.1 !in old(files)
        && remote.sdistAt[ChosenTag(remote, tag).value] !in old(files)
        && files == old(files) + {remote.sdistAt[ChosenTag(remote, tag).value]}
      ensures r.Err? ==> files == old(files)
    {
      var t: string;
      if tag.None? {
        var allTags := Tags.GetTags(remote.lsRemote);
        if |allTags| == 0 {
          return Err(NoTags);
        }
        t := allTags[0];
      } else {
        t := tag.value;
      }
      if t !in remote.setupPyAt {
        return Err(NoCheckout(t));
      }
      var name, version := Metadata.ExtractPackageDetails(remote.setupPyAt[t]);
      var filename := name + "-" + version + Catalog.ArtifactSuffix;
      if filename in files {
        return Ok((Exists, filename));
      }
      if t !in remote.sdistAt {
        return Err(NoBuildOutput(t));
      }
      if remote.sdistAt[t] in files {
        return Err(MoveClash(remote.sdistAt[t]));
      }
      files := files + {remote.sdistAt[t]};
      return Ok((Built, filename));
    }
  }

  /** Without a tag, the chosen tag is the newest the repository lists, and
      there is none exactly when it lists none. */
  lemma ChosenTagNewest(remote: Remote)
    ensures var kept := Tags.KeptTags(Split(remote.lsRemote, '\n'));
      && (ChosenTag(remote, None).None? <==> kept == [])
      && (ChosenTag(remote, None).Some? ==>
            ChosenTag(remote, None).value in kept
            && forall u :: u in kept ==> Tags.TagOrder(ChosenTag(remote, None).value, u))
  {
    var kept := Tags.KeptTags(Split(remote.lsRemote, '\n'));
    if kept != [] {
      Tags.TagOrderIsTotalPreorder();
      Sorting.SortByFirstIsLeast(Tags.TagOrder, kept);
    }
  }

  /** When the build leaves the named file, a successful call leaves that
      file in the directory. */
  lemma EnsuredPresent(files: set<string>, remote: Remote, tag: Option<string>)
    requires BuildsNamed(remote)
    ensures var o := Ensure(files, remote, tag);
      o.result.Ok? ==> o.result.value.1 in o.files
  {
  }

  /** Ensuring twice builds at most once: when the build leaves the named
      file, a second call after a successful one answers "exists" with the
      same file name and changes nothing. */
  lemma EnsureIdempotent(files: set<string>, remote: Remote, tag: Option<string>)
    requires BuildsNamed(remote)
    ensures var o := Ensure(files, remote, tag);
      o.result.Ok? ==> Ensure(o.files, remote, tag) == Outcome(Ok((Exists, o.result.value.1)), o.files)
  {
    EnsuredPresent(files, remote, tag);
  }

  /** When the build leaves a file of another name, the named file never
      appears: the first call builds and moves the build's file in, and a
      second call builds again and fails to move that file, leaving the
      directory as it was. */
  lemma SecondBuildClashes(files: set<string>, remote: Remote, tag: Option<string>)
    requires ChosenTag(remote, tag).Some?
    requires var t := ChosenTag(remote, tag).value;
      && t in remote.setupPyAt && t in remote.sdistAt
      && remote.sdistAt[t] != ArtifactName(Details(remote.setupPyAt[t]))
      && ArtifactName(Details(remote.setupPyAt[t])) !in files
      && remote.sdistAt[t] !in files
    ensures var o := Ensure(files, remote, tag);
      && o.result.Ok? && o.result.value.0 == Built
      && Ensure(o.files, remote, tag) == Outcome(Err(MoveClash(remote.sdistAt[ChosenTag(remote, tag).value])), o.files)
  {
    var t := ChosenTag(remote, tag).value;
    var f, s := ArtifactName(Details(remote.setupPyAt[t])), remote.sdistAt[t];
    EnsureBuilding(files, remote, tag, t, f, s);
    EnsureBuilding(files + {s}, remote, tag, t, f, s);
  }

  /** A call that does not find the named file f builds at t, leaving s:
      the move fails when s is there, and otherwise adds it. */
  lemma EnsureBuilding(files: set<string>, remote: Remote, tag: Option<string>, t: string, f: string, s: string)
    requires ChosenTag(remote, tag) == Some(t) && t in remote.setupPyAt && t in remote.sdistAt
    requires f == ArtifactName(Details(remote.setupPyAt[t])) && s == remote.sdistAt[t] && f !in files
    ensures Ensure(files, remote, tag) ==
      if s in files then Outcome(Err(MoveClash(s)), files) else Outcome(Ok((Built, f)), files + {s})
  {
  }

  /** ensure_package_exists as it is evidently meant to behave: a build
      whose file is already in the directory replaces it instead of failing. */
  function EnsureReplacing(files: set<string>, remote: Remote, tag: Option<string>): (o: Outcome)
    ensures files <= o.files
    ensures o.result.Err? ==> !o.result.error.MoveClash? && o == Ensure(files, remote, tag)
  {
    var o := Ensure(files, remote, tag);
    if o.result.Err? && o.result.error.MoveClash?
    then Outcome(Ok((Built, ArtifactName(Details(remote.setupPyAt[ChosenTag(remote, tag).value])))), files)
    else o
  }

  /** With replacing moves, ensuring again after a successful call always
      succeeds, whatever file name the build leaves, and answers with the
      same file name. */
  lemma ReplacingRepeatable(files: set<string>, remote: Remote, tag: Option<string>)
    ensures var o := EnsureReplacing(files, remote, tag);
      o.result.Ok? ==>
        && EnsureReplacing(o.files, remote, tag).result.Ok?
        && EnsureReplacing(o.files, remote, tag).result.value.1 == o.result.value.1
  {
    var o := EnsureReplacing(files, remote, tag);
    if o.result.Ok? {
      var t := ChosenTag(remote, tag).value;
      var f := ArtifactName(Details(remote.setupPyAt[t]));
      if f !in o.files {
        assert t in remote.sdistAt;
        EnsureBuilding(o.files, remote, tag, t, f, remote.sdistAt[t]);
      }
    }
  }

  /** The file a successful call names is listed by the catalog under the
      name and version setup.py gives, once the directory listing holds it,
      provided the name is not hidden, the version holds no "-" and no
      ".tar.gz" starts inside it. */
  lemma EnsuredIsListed(files: set<string>, remote: Remote, tag: Option<string>, entries: seq<string>)
    requires Ensure(files, remote, tag).result.Ok?
    requires var d := Details(remote.setupPyAt[ChosenTag(remote, tag).value]);
      && (d.0 == [] || d.0[0] != '.')
      && '-' !in d.1 && !Occurs(d.1 + ".tar.g", Catalog.ArtifactSuffix)
    requires Ensure(files, remote, tag).result.value.1 in entries
    ensures var d := Details(remote.setupPyAt[ChosenTag(remote, tag).value]);
      exists k :: 0 <= k < |Catalog.Listing(entries)|
        && Catalog.Listing(entries)[k].name == d.0
        && ToString(GetVersion(d.1)) in Catalog.Listing(entries)[k].versions
  {
    var d := Details(remote.setupPyAt[ChosenTag(remote, tag).value]);
    Catalog.ArtifactListed(entries, d.0, d.1);
  }
}
