/** The tag lister of mypi/package_util.py (`get_tags`): reads the text that
    `git ls-remote --tags <repo>` prints, keeps one tag per reference line,
    and sorts the tags newest first by the version model. Running git is
    not modelled: the method receives the text git printed. */
module Tags {
  import opened Base
  import opened Text
  import opened Versions
  import Sorting

  /** The tag one line of ls-remote output contributes: none for an empty
      line, a line with fewer than two tab-separated fields once stripped,
      or an annotated-tag dereference (a reference ending in "^{}");
      otherwise the reference with every "refs/tags/" removed. Only a line
      whose stripped text holds a tab contributes a tag. */
  function TagOfLine(rawLine: string): (r: Option<string>)
    ensures r.Some? ==> '\t' in Strip(rawLine)
  {
    SplitPieces(Strip(rawLine), '\t');
    if rawLine == "" then None
    else
      var parts := Split(Strip(rawLine), '\t');
      if |parts| < 2 then None
      else if EndsWith(parts[1], "^{}") then None
      else Some(RemoveAll(parts[1], "refs/tags/"))
  }

  /** The tags of the lines, in line order. */
  function KeptTags(lines: seq<string>): seq<string> {
    FilterMap(TagOfLine, lines)
  }

  /** a may be listed before b: a's version is at least b's. */
  predicate TagOrder(a: string, b: string) {
    Descending(GetVersion(a), GetVersion(b))
  }

  lemma TagOrderIsTotalPreorder()
    ensures Sorting.TotalPreorder(TagOrder)
  {
    DescendingIsTotalPreorder();
  }

  /** get_tags: the kept tags of every output line, sorted newest first
      (a stable sort, so tags of equal precedence keep their line order). */
  method GetTags(lsRemoteOutput: string) returns (tags: seq<string>)
    ensures Sorting.SortedBy(TagOrder, tags)
    ensures multiset(tags) == multiset(KeptTags(Split(lsRemoteOutput, '\n')))
    ensures tags == Sorting.SortBy(TagOrder, KeptTags(Split(lsRemoteOutput, '\n')))
  {
    var lines := Split(lsRemoteOutput, '\n');
    tags := [];
    var i := 0;
    while i < |lines|
      invariant 0 <= i <= |lines|
      invariant tags == KeptTags(lines[..i])
    {
      var rawLine := lines[i];
      FilterMapStep(TagOfLine, lines, i);
      if rawLine != "" {
        var line := Strip(rawLine);
        var parts := Split(line, '\t');
        if |parts| >= 2 {
          var ref := parts[1];
          if !EndsWith(ref, "^{}") {
            tags := tags + [RemoveAll(ref, "refs/tags/")];
          }
        }
      }
      i := i + 1;
    }
    assert lines[..|lines|] == lines;
    TagOrderIsTotalPreorder();
    Sorting.SortBySorted(TagOrder, tags);
    tags := Sorting.SortBy(TagOrder, tags);
  }

  /** A tag is kept exactly when some line contributes it. */
  lemma KeptTagsMembers(lines: seq<string>, t: string)
    ensures t in KeptTags(lines) <==> exists i :: 0 <= i < |lines| && TagOfLine(lines[i]) == Some(t)
  {
    FilterMapMembers(TagOfLine, lines, t);
  }

  /** A line without a tab once stripped (blank lines included) has fewer
      than two fields and contributes no tag. */
  lemma SkipsSingleField(rawLine: string)
    requires '\t' !in Strip(rawLine)
    ensures TagOfLine(rawLine) == None
  {
  }

  /** A line "<commit>\t<ref>" whose reference ends in "^{}" contributes no tag. */
  lemma SkipsDereference(commit: string, ref: string)
    requires commit != "" && !IsWhitespace(commit[0]) && '\t' !in commit
    requires '\t' !in ref && EndsWith(ref, "^{}")
    ensures TagOfLine(commit + "\t" + ref) == None
  {
    var line := commit + "\t" + ref;
    assert line[0] == commit[0] && line[|line| - 1] == '}';
    StripUnchanged(line);
    SplitAppend(commit, '\t', ref);
    assert Split(commit, '\t') == [commit];
    assert Split(Strip(line), '\t') == [commit, ref];
  }

  /** A line "<commit>\trefs/tags/<name>" contributes exactly <name>, when
      the name holds no tab, no further "refs/tags/", and the reference is
      not a dereference. */
  lemma KeepsTagName(commit: string, name: string)
    requires commit != "" && !IsWhitespace(commit[0]) && '\t' !in commit
    requires name != "" && !IsWhitespace(name[|name| - 1]) && '\t' !in name
    requires !Occurs(name, "refs/tags/")
    requires !EndsWith("refs/tags/" + name, "^{}")
    ensures TagOfLine(commit + "\trefs/tags/" + name) == Some(name)
  {
    var ref := "refs/tags/" + name;
    var line := commit + "\t" + ref;
    assert commit + "\trefs/tags/" + name == line;
    assert '\t' !in ref;
    StripUnchanged(line);
    SplitAppend(commit, '\t', ref);
    assert Split(commit, '\t') == [commit];
    assert ref[..|"refs/tags/"|] == "refs/tags/";
    assert ref[|"refs/tags/"|..] == name;
    RemoveAllAbsent(name, "refs/tags/");
  }

  /** The example tags compare by number. */
  lemma ExampleTagOrder()
    ensures !TagOrder("v1.2.0", "v1.10.0")
    ensures TagOrder("v1.10.0", "v1.3.0")
    ensures !TagOrder("v1.2.0", "v1.3.0")
  {
    ExampleTag10();
    ExampleTag3();
    ExampleTag2();
    assert Cmp(Release(1, 2, 0), Release(1, 10, 0)) == Lt;
    assert Cmp(Release(1, 10, 0), Release(1, 3, 0)) == Gt;
    assert Cmp(Release(1, 2, 0), Release(1, 3, 0)) == Lt;
  }

  /** Tags v1.2.0, v1.10.0 and v1.3.0 sort to v1.10.0, v1.3.0, v1.2.0:
      by number, not by text. */
  lemma SortsNumerically()
    ensures Sorting.SortBy(TagOrder, ["v1.2.0", "v1.10.0", "v1.3.0"]) == ["v1.10.0", "v1.3.0", "v1.2.0"]
  {
    ExampleTagOrder();
    Sorting.SortThree(TagOrder, "v1.2.0", "v1.10.0", "v1.3.0");
  }
}
