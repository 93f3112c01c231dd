/** The string logic of the web front end, mypi/api.py: the index page's
    view of one package, the git locator built from a GitHub organisation
    and repository, and the body of the ensure response. The Flask routes,
    file serving and templates around them are not modelled. */
module Api {
  import opened Base
  import opened Text
  import opened Versions
  import Catalog
  import Resolution

  /** One version on the index page: its text and the URL of its file. */
  datatype VersionLink = VersionLink(name: string, url: string)

  /** One package on the index page. */
  datatype PackageView = PackageView(name: string, versions: seq<VersionLink>)

  /** The download path of a package's file: "/<name>-<version>.tar.gz". */
  function FileUrl(name: string, version: string): string {
    "/" + name + "-" + version + Catalog.ArtifactSuffix
  }

  /** expand_into_dict: the package's name, and one link per version string,
      in the same order. */
  function ExpandIntoDict(p: Catalog.Package): (r: PackageView)
    ensures r.name == p.name && |r.versions| == |p.versions|
    ensures forall i :: 0 <= i < |p.versions| ==> r.versions[i].name == p.versions[i]
  {
    PackageView(p.name, seq(|p.versions|, i requires 0 <= i < |p.versions| => VersionLink(p.versions[i], FileUrl(p.name, p.versions[i]))))
  }

  /** Each link points at the file the catalog reads back as the package's
      name and that version, when the name is not hidden, the version holds
      no "-" and no ".tar.gz" starts inside it. */
  lemma LinkNamesListedFile(p: Catalog.Package, i: nat)
    requires i < |p.versions|
    requires p.name == [] || p.name[0] != '.'
    requires '-' !in p.versions[i] && !Occurs(p.versions[i] + ".tar.g", Catalog.ArtifactSuffix)
    ensures var url := ExpandIntoDict(p).versions[i].url;
      url != [] && url[0] == '/' && Catalog.EntryOf(url[1..]) == Some((p.name, GetVersion(p.versions[i])))
  {
    var v := p.versions[i];
    var url := ExpandIntoDict(p).versions[i].url;
    assert url[1..] == p.name + "-" + v + Catalog.ArtifactSuffix;
    Catalog.ArtifactRoundTrip(p.name, v);
  }

  /** The example of expand_into_dict's documentation. */
  lemma ExpandExample()
    ensures ExpandIntoDict(Catalog.Package("mypi", ["1.0.0", "0.8.8"])) ==
      PackageView("mypi", [VersionLink("1.0.0", "/mypi-1.0.0.tar.gz"), VersionLink("0.8.8", "/mypi-0.8.8.tar.gz")])
  {
    ExpandTwo(Catalog.Package("mypi", ["1.0.0", "0.8.8"]), "1.0.0", "0.8.8");
    assert FileUrl("mypi", "1.0.0") == "/mypi-1.0.0.tar.gz";
    assert FileUrl("mypi", "0.8.8") == "/mypi-0.8.8.tar.gz";
  }

  /** A package with two versions expands into their two links. */
  lemma ExpandTwo(p: Catalog.Package, a: string, b: string)
    requires p.versions == [a, b]
    ensures ExpandIntoDict(p) == PackageView(p.name, [VersionLink(a, FileUrl(p.name, a)), VersionLink(b, FileUrl(p.name, b))])
  {
    var r := ExpandIntoDict(p);
    PairDisplay(r.versions, VersionLink(a, FileUrl(p.name, a)), VersionLink(b, FileUrl(p.name, b)));
  }

  const GitHubPrefix := "git@github.com:"
  const GitSuffix := ".git"

  /** The repository name with one trailing ".git" removed. */
  function WithoutGitSuffix(repo: string): (r: string)
    ensures repo == r || repo == r + GitSuffix
  {
    if EndsWith(repo, GitSuffix) then
      assert repo == repo[..|repo| - 4] + GitSuffix;
      repo[..|repo| - 4]
    else repo
  }

  /** The git locator of a GitHub repository, built by the ensure route. */
  function RepoLocator(org: string, repo: string): (r: string)
    ensures StartsWith(r, GitHubPrefix) && EndsWith(r, GitSuffix)
  {
    var r := GitHubPrefix + org + "/" + WithoutGitSuffix(repo) + GitSuffix;
    assert r[..|GitHubPrefix|] == GitHubPrefix;
    assert r[|r| - |GitSuffix|..] == GitSuffix;
    r
  }

  /** Exactly one ".git" is taken off: "<repo>.git" names the repository
      <repo>, even when <repo> itself ends in ".git". */
  lemma LocatorDropsOneSuffix(org: string, repo: string)
    ensures RepoLocator(org, repo + GitSuffix) == GitHubPrefix + org + "/" + repo + GitSuffix
  {
    var s := repo + GitSuffix;
    assert s[|s| - 4..] == GitSuffix;
    assert s[..|s| - 4] == repo;
  }

  /** A repository name without ".git" is used as it is, so the suffix is
      optional: with or without it the locator is the same. */
  lemma LocatorSuffixOptional(org: string, repo: string)
    requires !EndsWith(repo, GitSuffix)
    ensures RepoLocator(org, repo) == GitHubPrefix + org + "/" + repo + GitSuffix
    ensures RepoLocator(org, repo + GitSuffix) == RepoLocator(org, repo)
  {
    LocatorDropsOneSuffix(org, repo);
  }

  /** The status as the response spells it. */
  function StatusText(status: Resolution.Status): (r: string)
    ensures ' ' !in r && r != []
  {
    match status
    case Exists => "exists"
    case Built => "built"
  }

  /** The ensure route's response body: the file name, a space, the status.
      Whatever the file name, the body ends in " exists" exactly when the
      status is "exists". */
  function ResponseBody(status: Resolution.Status, filename: string): (r: string)
    ensures EndsWith(r, " exists") <==> status == Resolution.Exists
  {
    var body := filename + " " + StatusText(status);
    assert body[|body| - 1] == if status == Resolution.Exists then 's' else 't';
    body
  }

  /** A file name without spaces can be read back from the body, and so can
      the status. */
  lemma ResponseBodyParts(status: Resolution.Status, filename: string)
    requires ' ' !in filename
    ensures Split(ResponseBody(status, filename), ' ') == [filename, StatusText(status)]
    ensures StatusText(status) == "exists" <==> status == Resolution.Exists
  {
    var t := StatusText(status);
    assert ResponseBody(status, filename) == filename + [' '] + t;
    SplitAppend(filename, ' ', t);
  }
}
