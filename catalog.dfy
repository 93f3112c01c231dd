/** The catalog listing of mypi/package_util.py (`get_all_packages`): every
    artifact file "<name>-<version>.tar.gz" in the packages directory is
    grouped under its name; the names are listed case-insensitively
    ascending and each name's versions newest first. Reading the directory
    is not modelled: the method receives the entry names in the order the
    directory yields them. */
module Catalog {
  import opened Base
  import opened Text
  import opened Versions
  import Sorting

  const ArtifactSuffix: string := ".tar.gz"

  /** One package of the listing: its name and its version strings. */
  datatype Package = Package(name: string, versions: seq<string>)

  /** The entries the pattern "*.tar.gz" picks up: names ending in
      ".tar.gz" that are not hidden (a wildcard does not match a leading dot). */
  predicate Listed(entry: string) {
    EndsWith(entry, ArtifactSuffix) && entry[0] != '.'
  }

  /** The name and version text of an artifact file name: the last
      "-"-separated piece, with ".tar.gz" removed, is the version and the
      pieces before it, rejoined with "-", the name. A file name without
      "-" has no version and is skipped. */
  function ParseArtifact(filename: string): (r: Option<(string, string)>)
    ensures r.None? <==> '-' !in filename
  {
    var parts := Split(filename, '-');
    SplitPieces(filename, '-');
    if |parts| < 2 then None
    else Some((Join(parts[..|parts| - 1], '-'), RemoveAll(parts[|parts| - 1], ArtifactSuffix)))
  }

  /** The name and version one directory entry contributes, if any: an
      entry contributes exactly when it is a listed archive holding a "-". */
  function EntryOf(entry: string): (r: Option<(string, Version)>)
    ensures r.Some? <==> Listed(entry) && '-' in entry
  {
    if !Listed(entry) then None
    else match ParseArtifact(entry)
      case None => None
      case Some((name, versionText)) => Some((name, GetVersion(versionText)))
  }

  /** The names and versions of all entries, in directory order. */
  function Entries(entries: seq<string>): seq<(string, Version)> {
    FilterMap(EntryOf, entries)
  }

  /** Some entry of es has this name. */
  ghost predicate Named(es: seq<(string, Version)>, name: string) {
    exists k :: 0 <= k < |es| && es[k].0 == name
  }

  /** A name appears in es plus one entry when it appears in es or is that
      entry's name. */
  lemma NamedAppend(es: seq<(string, Version)>, e: (string, Version), name: string)
    ensures Named(es + [e], name) <==> Named(es, name) || e.0 == name
  {
    var es' := es + [e];
    if Named(es', name) && e.0 != name {
      var k :| 0 <= k < |es'| && es'[k].0 == name;
      assert es[k] == es'[k];
    }
    if Named(es, name) {
      var k :| 0 <= k < |es| && es[k].0 == name;
      assert es'[k] == es[k];
    }
    assert es'[|es|] == e;
  }

  /** The distinct names of es in order of first appearance (the keys of
      the dictionary the scan fills). */
  function NamesOf(es: seq<(string, Version)>): (r: seq<string>)
    ensures Sorting.Distinct(r)
    ensures forall n :: n in r <==> Named(es, n)
    decreases |es|
  {
    if es == [] then []
    else
      var init := es[..|es| - 1];
      var n := es[|es| - 1].0;
      assert es == init + [es[|es| - 1]];
      forall m ensures Named(es, m) <==> Named(init, m) || m == n {
        NamedAppend(init, es[|es| - 1], m);
      }
      var r := NamesOf(init);
      if n in r then r else r + [n]
  }

  /** The versions es lists under name, in order. */
  function VersionsOf(es: seq<(string, Version)>, name: string): seq<Version>
    decreases |es|
  {
    if es == [] then []
    else
      VersionsOf(es[..|es| - 1], name) +
        if es[|es| - 1].0 == name then [es[|es| - 1].1] else []
  }

  /** A name that es never lists has no versions. */
  lemma {:induction false} VersionsOfAbsent(es: seq<(string, Version)>, name: string)
    requires name !in NamesOf(es)
    ensures VersionsOf(es, name) == []
    decreases |es|
  {
    if es != [] {
      VersionsOfAbsent(es[..|es| - 1], name);
    }
  }

  /** v is a version es lists under name exactly when some entry pairs them. */
  lemma {:induction false} VersionsOfMembers(es: seq<(string, Version)>, name: string, v: Version)
    ensures v in VersionsOf(es, name) <==> exists k :: 0 <= k < |es| && es[k] == (name, v)
    decreases |es|
  {
    if es != [] {
      var init := es[..|es| - 1];
      VersionsOfMembers(init, name, v);
      assert forall k :: 0 <= k < |init| ==> init[k] == es[k];
    }
  }

  /** Names compare as their lower-cased forms do. */
  predicate NameOrder(a: string, b: string) {
    CmpLex(Lower(a), Lower(b)) != Gt
  }

  lemma NameOrderIsTotalPreorder()
    ensures Sorting.TotalPreorder(NameOrder)
  {
    forall a: string, b: string ensures NameOrder(a, b) || NameOrder(b, a) {
      CmpLexFlip(Lower(a), Lower(b));
    }
    forall a: string, b: string, c: string | NameOrder(a, b) && NameOrder(b, c)
      ensures NameOrder(a, c)
    {
      CmpLexTrans(Lower(a), Lower(b), Lower(c));
    }
  }

  /** str() of each version, in order. */
  function Render(vs: seq<Version>): (r: seq<string>)
    ensures |r| == |vs|
    ensures forall k :: 0 <= k < |vs| ==> r[k] == ToString(vs[k])
  {
    seq(|vs|, k requires 0 <= k < |vs| => ToString(vs[k]))
  }

  /** The listing entry for one name: its versions sorted newest first. */
  function PackageOf(es: seq<(string, Version)>, name: string): Package {
    Package(name, Render(Sorting.SortBy(Descending, VersionsOf(es, name))))
  }

  /** The listing of a directory: one package per name, names sorted
      case-insensitively (a stable sort over first-appearance order). */
  function Listing(entries: seq<string>): (r: seq<Package>)
    ensures |r| == |NamesOf(Entries(entries))|
  {
    ListingOf(Entries(entries))
  }

  /** The listing of the scanned names and versions es. */
  function ListingOf(es: seq<(string, Version)>): seq<Package> {
    var names := Sorting.SortBy(NameOrder, NamesOf(es));
    seq(|names|, k requires 0 <= k < |names| => PackageOf(es, names[k]))
  }

  /** The j-th package of a listing is the j-th name in sorted order. */
  lemma ListingAt(es: seq<(string, Version)>, j: nat)
    requires j < |NamesOf(es)|
    ensures |ListingOf(es)| == |NamesOf(es)|
    ensures ListingOf(es)[j] == PackageOf(es, Sorting.SortBy(NameOrder, NamesOf(es))[j])
  {
  }

  function PackageNames(ps: seq<Package>): (r: seq<string>)
    ensures |r| == |ps| && forall k :: 0 <= k < |ps| ==> r[k] == ps[k].name
  {
    seq(|ps|, k requires 0 <= k < |ps| => ps[k].name)
  }

  /** What the scan's dictionary and key list hold after the entries es:
      the names in first-appearance order, and under each its versions. */
  ghost predicate Scanned(byName: map<string, seq<Version>>, names: seq<string>, es: seq<(string, Version)>) {
    && names == NamesOf(es)
    && (forall n :: n in byName <==> n in names)
    && (forall n :: n in byName ==> byName[n] == VersionsOf(es, n))
  }

  /** One more entry for a name already scanned, appended to its versions,
      keeps Scanned. */
  lemma ScanKnown(byName: map<string, seq<Version>>, names: seq<string>, es: seq<(string, Version)>, name: string, version: Version)
    requires Scanned(byName, names, es) && name in byName
    ensures Scanned(byName[name := byName[name] + [version]], names, es + [(name, version)])
  {
    var es' := es + [(name, version)];
    assert es'[..|es'| - 1] == es;
  }

  /** One more entry for a new name: the name is added to the keys with an
      empty list, to which the version is then appended. */
  lemma ScanNew(byName: map<string, seq<Version>>, names: seq<string>, es: seq<(string, Version)>, name: string, version: Version)
    requires Scanned(byName, names, es) && name !in byName
    ensures Scanned(byName[name := []][name := [version]], names + [name], es + [(name, version)])
  {
    var es' := es + [(name, version)];
    assert es'[..|es'| - 1] == es;
    VersionsOfAbsent(es, name);
  }

  /** A listed file name with a "-" contributes the rejoined leading pieces
      and the version of the last piece without ".tar.gz". */
  lemma EntryOfPieces(filename: string, parts: seq<string>, name: string, text: string)
    requires Listed(filename) && parts == Split(filename, '-') && |parts| >= 2
    requires name == Join(parts[..|parts| - 1], '-') && text == RemoveAll(parts[|parts| - 1], ArtifactSuffix)
    ensures EntryOf(filename) == Some((name, GetVersion(text)))
  {
    assert ParseArtifact(filename) == Some((name, text));
  }

  /** What one directory entry adds to the scanned entries. */
  function Contribution(entry: string): seq<(string, Version)> {
    match EntryOf(entry)
    case None => []
    case Some(e) => [e]
  }

  /** One more directory entry extends the scanned entries by its contribution. */
  lemma EntriesStep(entries: seq<string>, i: nat)
    requires i < |entries|
    ensures Entries(entries[..i + 1]) == Entries(entries[..i]) + Contribution(entries[i])
  {
    FilterMapStep(EntryOf, entries, i);
  }

  /** The first half of get_all_packages: the scan of the entries into a
      name-to-versions dictionary, with its keys in first-appearance order. */
  method ScanEntries(entries: seq<string>) returns (byName: map<string, seq<Version>>, names: seq<string>)
    ensures Scanned(byName, names, Entries(entries))
  {
    byName := map[];
    names := [];
    for i := 0 to |entries|
      invariant Scanned(byName, names, Entries(entries[..i]))
    {
      byName, names := ScanEntry(byName, names, Entries(entries[..i]), entries[i]);
      EntriesStep(entries, i);
    }
    assert entries[..|entries|] == entries;
  }

  /** One turn of the scan, over one file name: a name without "-" is
      skipped; otherwise its version is appended under its name, the name
      being added with an empty list when it is new. */
  method ScanEntry(byName: map<string, seq<Version>>, names: seq<string>, ghost es: seq<(string, Version)>, filename: string)
      returns (byName': map<string, seq<Version>>, names': seq<string>)
    requires Scanned(byName, names, es)
    ensures Scanned(byName', names', es + Contribution(filename))
  {
    byName', names' := byName, names;
    if !Listed(filename) {
      assert es + Contribution(filename) == es;
      return;
    }
    var components := Split(filename, '-');
    SplitPieces(filename, '-');
    if |components| < 2 {
      assert es + Contribution(filename) == es;
      return;
    }
    var versionString := RemoveAll(components[|components| - 1], ArtifactSuffix);
    var version := GetVersion(versionString);
    var name := Join(components[..|components| - 1], '-');
    EntryOfPieces(filename, components, name, versionString);
    if name !in byName' {
      ScanNew(byName', names', es, name, version);
      byName' := byName'[name := []];
      names' := names' + [name];
    } else {
      ScanKnown(byName', names', es, name, version);
    }
    byName' := byName'[name := byName'[name] + [version]];
  }

  /** What the listing loop appends for the j-th sorted name, read from
      the scanned dictionary, is the j-th package of the listing. */
  lemma ListingStep(byName: map<string, seq<Version>>, names: seq<string>, es: seq<(string, Version)>, j: nat)
    requires Scanned(byName, names, es) && j < |names|
    ensures |ListingOf(es)| == |names|
    ensures Sorting.SortBy(NameOrder, names)[j] in byName
    ensures var name := Sorting.SortBy(NameOrder, names)[j];
            ListingOf(es)[j] == Package(name, Render(Sorting.SortBy(Descending, byName[name])))
  {
    var name := Sorting.SortBy(NameOrder, names)[j];
    Sorting.SortByMembers(NameOrder, names, name);
    ListingAt(es, j);
  }

  /** The second half of get_all_packages: the names in order, each with
      its versions sorted newest first and rendered with str(). */
  method ListPackages(byName: map<string, seq<Version>>, names: seq<string>, ghost es: seq<(string, Version)>)
    returns (result: seq<Package>)
    requires Scanned(byName, names, es)
    ensures result == ListingOf(es)
  {
    var sortedNames := Sorting.SortBy(NameOrder, names);
    result := [];
    for j := 0 to |sortedNames|
      invariant result == ListingOf(es)[..j]
    {
      var name := sortedNames[j];
      ListingStep(byName, names, es, j);
      var versions := Sorting.SortBy(Descending, byName[name]);
      var versionStrings := Render(versions);
      PrefixStep(ListingOf(es), j, Package(name, versionStrings));
      result := result + [Package(name, versionStrings)];
    }
    if |names| > 0 {
      ListingStep(byName, names, es, 0);
    }
    assert ListingOf(es)[..|sortedNames|] == ListingOf(es);
  }

  /** get_all_packages: scans the entries into a name-to-versions
      dictionary, then lists the names in order with sorted versions. */
  method GetAllPackages(entries: seq<string>) returns (result: seq<Package>)
    ensures result == Listing(entries)
  {
    var byName, names := ScanEntries(entries);
    result := ListPackages(byName, names, Entries(entries));
  }

  /** The names of a listing are its sorted first-appearance names. */
  lemma ListingNames(es: seq<(string, Version)>)
    ensures PackageNames(ListingOf(es)) == Sorting.SortBy(NameOrder, NamesOf(es))
  {
  }

  /** The listing names each package once, in case-insensitive order. */
  lemma ListingNamesSorted(entries: seq<string>)
    ensures Sorting.Distinct(PackageNames(Listing(entries)))
    ensures Sorting.SortedBy(NameOrder, PackageNames(Listing(entries)))
  {
    var es := Entries(entries);
    ListingNames(es);
    Sorting.PermutationKeepsDistinct(NamesOf(es), Sorting.SortBy(NameOrder, NamesOf(es)));
    NameOrderIsTotalPreorder();
    Sorting.SortBySorted(NameOrder, NamesOf(es));
  }

  /** Some element of xs has an entry with this name exactly when the
      entries f gives for xs name it. */
  lemma NamedFilterMap<A>(f: A -> Option<(string, Version)>, xs: seq<A>, name: string)
    ensures Named(FilterMap(f, xs), name) <==>
      exists i :: 0 <= i < |xs| && f(xs[i]).Some? && f(xs[i]).value.0 == name
  {
    var es := FilterMap(f, xs);
    if Named(es, name) {
      var k :| 0 <= k < |es| && es[k].0 == name;
      FilterMapMembers(f, xs, es[k]);
    }
    if exists i :: 0 <= i < |xs| && f(xs[i]).Some? && f(xs[i]).value.0 == name {
      var i :| 0 <= i < |xs| && f(xs[i]).Some? && f(xs[i]).value.0 == name;
      FilterMapMembers(f, xs, f(xs[i]).value);
    }
  }

  /** A name is listed exactly when some listed entry parses to it. */
  lemma ListingNamesExact(entries: seq<string>, name: string)
    ensures name in PackageNames(Listing(entries)) <==>
      exists i :: 0 <= i < |entries| && EntryOf(entries[i]).Some? && EntryOf(entries[i]).value.0 == name
  {
    var es := Entries(entries);
    ListingNames(es);
    Sorting.SortByMembers(NameOrder, NamesOf(es), name);
    NamedFilterMap(EntryOf, entries, name);
  }

  /** Each package's versions are the rendering of its versions put newest
      first: a permutation of the versions its entries carry, sorted by
      SemVer precedence. */
  lemma ListingVersions(entries: seq<string>, k: nat)
    requires k < |Listing(entries)|
    ensures var vs := Sorting.SortBy(Descending, VersionsOf(Entries(entries), Listing(entries)[k].name));
      && Listing(entries)[k].versions == Render(vs)
      && multiset(vs) == multiset(VersionsOf(Entries(entries), Listing(entries)[k].name))
      && Sorting.SortedBy(Descending, vs)
  {
    var es := Entries(entries);
    ListingAt(es, k);
    var name := Listing(entries)[k].name;
    DescendingIsTotalPreorder();
    Sorting.SortBySorted(Descending, VersionsOf(es, name));
  }

  /** A version string is in a package's list exactly when some scanned
      entry pairs the package's name with a version printing as it. */
  lemma PackageVersionMembers(es: seq<(string, Version)>, name: string, text: string)
    ensures text in PackageOf(es, name).versions <==>
      exists v :: (name, v) in es && ToString(v) == text
  {
    var vs := VersionsOf(es, name);
    var sorted := Sorting.SortBy(Descending, vs);
    RenderMembers(sorted, text);
    forall v ensures v in sorted <==> (name, v) in es {
      Sorting.SortByMembers(Descending, vs, v);
      VersionsOfMembers(es, name, v);
    }
  }

  /** A string is rendered from a list exactly when some version in it
      prints as the string. */
  lemma RenderMembers(vs: seq<Version>, text: string)
    ensures text in Render(vs) <==> exists v :: v in vs && ToString(v) == text
  {
    if text in Render(vs) {
      var m :| 0 <= m < |vs| && Render(vs)[m] == text;
      assert vs[m] in vs;
    }
  }

  /** A version string is listed under a name exactly when some listed
      entry carries that name and a version that prints as the string. */
  lemma ListingVersionMembers(entries: seq<string>, k: nat, text: string)
    requires k < |Listing(entries)|
    ensures text in Listing(entries)[k].versions <==>
      exists i, v :: 0 <= i < |entries| && EntryOf(entries[i]) == Some((Listing(entries)[k].name, v)) && ToString(v) == text
  {
    var es := Entries(entries);
    var name := Listing(entries)[k].name;
    PackageVersionMembers(es, name, text);
    forall v ensures (name, v) in es <==> exists i :: 0 <= i < |entries| && EntryOf(entries[i]) == Some((name, v)) {
      FilterMapMembers(EntryOf, entries, (name, v));
    }
  }

  /** A file name "<name>-<last>" whose last piece holds no "-" splits into
      that name and the last piece without ".tar.gz". */
  lemma ArtifactParts(name: string, last: string)
    requires '-' !in last
    ensures ParseArtifact(name + "-" + last) == Some((name, RemoveAll(last, ArtifactSuffix)))
  {
    var f := name + "-" + last;
    assert f == name + ['-'] + last;
    SplitAppend(name, '-', last);
    var parts := Split(f, '-');
    assert parts[..|parts| - 1] == Split(name, '-');
    JoinSplit(name, '-');
  }

  /** The artifact ensure_package_exists names "<name>-<version>.tar.gz" is
      listed under that name and version when the version holds no "-" and
      no ".tar.gz" starts inside it, and the name is not hidden. */
  lemma ArtifactRoundTrip(name: string, version: string)
    requires name == [] || name[0] != '.'
    requires '-' !in version && !Occurs(version + ".tar.g", ArtifactSuffix)
    ensures EntryOf(name + "-" + version + ArtifactSuffix) == Some((name, GetVersion(version)))
  {
    var last := version + ArtifactSuffix;
    assert name + "-" + version + ArtifactSuffix == name + "-" + last;
    assert '-' !in last;
    ArtifactParts(name, last);
    assert ArtifactSuffix[..|ArtifactSuffix| - 1] == ".tar.g";
    RemoveAllAppended(version, ArtifactSuffix);
    var f := name + "-" + last;
    assert f[0] != '.' by {
      if name == [] { assert f[0] == '-'; } else { assert f[0] == name[0]; }
    }
    assert EndsWith(f, ArtifactSuffix) by {
      assert f[|f| - |ArtifactSuffix|..] == ArtifactSuffix;
    }
  }

  /** Once a directory listing holds the file "<name>-<version>.tar.gz",
      the catalog lists the name with that version, when the name is not
      hidden, the version holds no "-" and no ".tar.gz" starts inside it. */
  lemma ArtifactListed(entries: seq<string>, name: string, version: string)
    requires name == [] || name[0] != '.'
    requires '-' !in version && !Occurs(version + ".tar.g", ArtifactSuffix)
    requires name + "-" + version + ArtifactSuffix in entries
    ensures exists k ::
      && 0 <= k < |Listing(entries)|
      && Listing(entries)[k].name == name
      && ToString(GetVersion(version)) in Listing(entries)[k].versions
  {
    var f := name + "-" + version + ArtifactSuffix;
    ArtifactRoundTrip(name, version);
    var i :| 0 <= i < |entries| && entries[i] == f;
    ListingNamesExact(entries, name);
    var listing := Listing(entries);
    var k :| 0 <= k < |listing| && listing[k].name == name;
    ListingVersionMembers(entries, k, ToString(GetVersion(version)));
  }

  /** The artifact of a release, "<name>-MAJOR.MINOR.PATCH.tar.gz", is
      listed under its name and that release. */
  lemma ReleaseArtifact(filename: string, name: string, major: nat, minor: nat, patch: nat)
    requires name == [] || name[0] != '.'
    requires filename == name + "-" + ToString(Release(major, minor, patch)) + ArtifactSuffix
    ensures EntryOf(filename) == Some((name, Release(major, minor, patch)))
  {
    var a, b, c := NatText(major), NatText(minor), NatText(patch);
    var version := ToString(Release(major, minor, patch));
    assert version == a + "." + b + "." + c;
    assert 't' !in version by {
      assert AllDigits(a) && AllDigits(b) && AllDigits(c);
      forall k | 0 <= k < |version| ensures version[k] != 't' {
        if k < |a| { assert version[k] == a[k]; }
        else if k == |a| || k == |a| + 1 + |b| { }
        else if k < |a| + 1 + |b| { assert version[k] == b[k - |a| - 1]; }
        else { assert version[k] == c[k - |a| - |b| - 2]; }
      }
    }
    assert '-' !in version by {
      forall k | 0 <= k < |version| ensures version[k] != '-' {
        if k < |a| { assert version[k] == a[k]; }
        else if k == |a| || k == |a| + 1 + |b| { }
        else if k < |a| + 1 + |b| { assert version[k] == b[k - |a| - 1]; }
        else { assert version[k] == c[k - |a| - |b| - 2]; }
      }
    }
    NoArchiveSuffixInside(version);
    ArtifactRoundTrip(name, version);
    ReleaseText(version, major, minor, patch);
  }

  /** The scan of a directory holding foo-1.0.0.tar.gz, foo-0.9.9.tar.gz and
      bar-2.0.0.tar.gz. */
  lemma ExampleEntries(a: string, b: string, c: string)
    requires a == "foo-1.0.0.tar.gz" && b == "foo-0.9.9.tar.gz" && c == "bar-2.0.0.tar.gz"
    ensures Entries([a, b, c]) == [("foo", Release(1, 0, 0)), ("foo", Release(0, 9, 9)), ("bar", Release(2, 0, 0))]
  {
    ExampleArtifact100(a);
    ExampleArtifact099(b);
    ExampleArtifact200(c);
    FilterMapThree(EntryOf, a, b, c);
  }

  lemma ExampleArtifact100(f: string)
    requires f == "foo-1.0.0.tar.gz"
    ensures EntryOf(f) == Some(("foo", Release(1, 0, 0)))
  {
    CatalogExampleTexts();
    ReleaseArtifact(f, "foo", 1, 0, 0);
  }

  lemma ExampleArtifact099(f: string)
    requires f == "foo-0.9.9.tar.gz"
    ensures EntryOf(f) == Some(("foo", Release(0, 9, 9)))
  {
    CatalogExampleTexts();
    ReleaseArtifact(f, "foo", 0, 9, 9);
  }

  lemma ExampleArtifact200(f: string)
    requires f == "bar-2.0.0.tar.gz"
    ensures EntryOf(f) == Some(("bar", Release(2, 0, 0)))
  {
    CatalogExampleTexts();
    ReleaseArtifact(f, "bar", 2, 0, 0);
  }

  /** The scanned example's names, in order of first appearance. */
  lemma ExampleNames(es: seq<(string, Version)>)
    requires es == [("foo", Release(1, 0, 0)), ("foo", Release(0, 9, 9)), ("bar", Release(2, 0, 0))]
    ensures NamesOf(es) == ["foo", "bar"]
  {
    assert es[..2][..1] == [es[0]] && [es[0]][..0] == [];
    assert NamesOf([es[0]]) == ["foo"];
    assert NamesOf(es[..2]) == ["foo"];
  }

  /** "bar" is listed before "foo". */
  lemma ExampleNameOrder(foo: string, bar: string)
    requires foo == "foo" && bar == "bar"
    ensures Sorting.SortBy(NameOrder, [foo, bar]) == [bar, foo]
  {
    LowerUnchanged(foo);
    LowerUnchanged(bar);
    assert CmpLex(foo, bar) == Gt;
    Sorting.SortTwo(NameOrder, foo, bar);
  }

  /** foo's versions in directory order. */
  lemma ExampleVersionsFoo(es: seq<(string, Version)>, foo: string)
    requires es == [("foo", Release(1, 0, 0)), ("foo", Release(0, 9, 9)), ("bar", Release(2, 0, 0))]
    requires foo == "foo"
    ensures VersionsOf(es, foo) == [Release(1, 0, 0), Release(0, 9, 9)]
  {
    var e1, e2 := es[..1], es[..2];
    assert es[..|es| - 1] == e2 && e2[..|e2| - 1] == e1 && e1[..|e1| - 1] == [];
    assert VersionsOf(e1, foo) == [Release(1, 0, 0)];
    assert VersionsOf(e2, foo) == [Release(1, 0, 0), Release(0, 9, 9)];
  }

  /** 1.0.0 and 0.9.9 are already newest first, and print as such. */
  lemma ExampleRenderFoo(vs: seq<Version>)
    requires vs == [Release(1, 0, 0), Release(0, 9, 9)]
    ensures Render(Sorting.SortBy(Descending, vs)) == ["1.0.0", "0.9.9"]
  {
    assert Descending(Release(1, 0, 0), Release(0, 9, 9));
    Sorting.SortTwoKept(Descending, Release(1, 0, 0), Release(0, 9, 9));
    CatalogExampleTexts();
    var r := Render(vs);
    assert r[0] == "1.0.0" && r[1] == "0.9.9";
  }

  /** foo's versions, newest first. */
  lemma ExamplePackageFoo(es: seq<(string, Version)>)
    requires es == [("foo", Release(1, 0, 0)), ("foo", Release(0, 9, 9)), ("bar", Release(2, 0, 0))]
    ensures PackageOf(es, "foo") == Package("foo", ["1.0.0", "0.9.9"])
  {
    ExampleVersionsFoo(es, "foo");
    ExampleRenderFoo(VersionsOf(es, "foo"));
  }

  /** bar's versions in directory order. */
  lemma ExampleVersionsBar(es: seq<(string, Version)>, bar: string)
    requires es == [("foo", Release(1, 0, 0)), ("foo", Release(0, 9, 9)), ("bar", Release(2, 0, 0))]
    requires bar == "bar"
    ensures VersionsOf(es, bar) == [Release(2, 0, 0)]
  {
    var e1, e2 := es[..1], es[..2];
    assert es[..|es| - 1] == e2 && e2[..|e2| - 1] == e1 && e1[..|e1| - 1] == [];
    assert VersionsOf(e1, bar) == [];
    assert VersionsOf(e2, bar) == [];
  }

  /** A single version is already sorted, and prints as 2.0.0. */
  lemma ExampleRenderBar(vs: seq<Version>)
    requires vs == [Release(2, 0, 0)]
    ensures Render(Sorting.SortBy(Descending, vs)) == ["2.0.0"]
  {
    assert vs[..0] == [];
    assert Sorting.SortBy(Descending, vs) == vs;
    CatalogExampleTexts();
    var r := Render(vs);
    assert r[0] == "2.0.0";
  }

  /** bar's only version. */
  lemma ExamplePackageBar(es: seq<(string, Version)>)
    requires es == [("foo", Release(1, 0, 0)), ("foo", Release(0, 9, 9)), ("bar", Release(2, 0, 0))]
    ensures PackageOf(es, "bar") == Package("bar", ["2.0.0"])
  {
    ExampleVersionsBar(es, "bar");
    ExampleRenderBar(VersionsOf(es, "bar"));
  }

  /** Two names in sorted order give a listing of their two packages. */
  lemma ListingOfTwo(es: seq<(string, Version)>, a: string, b: string)
    requires Sorting.SortBy(NameOrder, NamesOf(es)) == [a, b]
    ensures |ListingOf(es)| == 2
    ensures ListingOf(es)[0] == PackageOf(es, a) && ListingOf(es)[1] == PackageOf(es, b)
  {
    ListingAt(es, 0);
    ListingAt(es, 1);
  }

  /** The listing of the scanned example. */
  lemma ExampleListingOf(es: seq<(string, Version)>)
    requires es == [("foo", Release(1, 0, 0)), ("foo", Release(0, 9, 9)), ("bar", Release(2, 0, 0))]
    ensures ListingOf(es) == [Package("bar", ["2.0.0"]), Package("foo", ["1.0.0", "0.9.9"])]
  {
    ExampleNames(es);
    ExampleNameOrder("foo", "bar");
    ListingOfTwo(es, "bar", "foo");
    ExamplePackageFoo(es);
    ExamplePackageBar(es);
    PairDisplay(ListingOf(es), Package("bar", ["2.0.0"]), Package("foo", ["1.0.0", "0.9.9"]));
  }

  /** The directory foo-1.0.0.tar.gz, foo-0.9.9.tar.gz, bar-2.0.0.tar.gz is
      listed as bar with 2.0.0, then foo with 1.0.0 and 0.9.9. */
  lemma ExampleListing(entries: seq<string>)
    requires entries == ["foo-1.0.0.tar.gz", "foo-0.9.9.tar.gz", "bar-2.0.0.tar.gz"]
    ensures Listing(entries) == [Package("bar", ["2.0.0"]), Package("foo", ["1.0.0", "0.9.9"])]
  {
    ExampleEntries(entries[0], entries[1], entries[2]);
    assert entries == [entries[0], entries[1], entries[2]];
    ExampleListingOf(Entries(entries));
  }
}
