# mypi, modelled in Dafny

mypi is a small private Python package index. Given a GitHub repository and an optional tag, it builds the package with `setup.py sdist` into a packages directory. It then serves the resulting `<name>-<version>.tar.gz` files from an index page.

This project models the logic of `mypi/package_util.py` and the pure helpers of `mypi/api.py`. Every git, subprocess and filesystem call is replaced by its input or its answer. The modules are:

- **Versions** models `get_version`.
  - One leading `v` is dropped, and the text is parsed strictly as a Semantic Versioning 2.0.0 version.
  - If parsing fails, the result is the raw text (`Raw`).
  - Versions are ordered by SemVer precedence (section 11 of Semantic Versioning 2.0.0). Raw texts come after every structured version and are ordered as Python 2 orders byte strings.
- **Tags** models `get_tags` over the text `git ls-remote --tags` prints.
  - Empty lines, lines with fewer than two tab-separated fields, and `^{}` dereferences are skipped.
  - `refs/tags/` is removed.
  - The tags are stable-sorted newest first.
- **Catalog** models `get_all_packages` over the directory's entry names.
  - A `*.tar.gz` file name splits at its last `-` into a name and a version.
  - Names are listed case-insensitively ascending, with each name's versions newest first, rendered with `str()`.
- **Metadata** models `extract_package_details` over the text of `setup.py`.
  - The regular expressions `^.*name( )*=( )*["'](.*)["'].*$` and `^.*version( )*=( )*["'](.*)["'].*$` are written as an explicit scanner, proved equal to Python's backtracking semantics.
  - The first non-empty capture wins.
- **Resolution** models `ensure_package_exists` as a `PackageStore` class whose `files` set is the packages directory.
  - It picks the given tag or the newest one, reads the name and version at that tag, and names the file `<name>-<version>.tar.gz`.
  - If that file is present, it answers "exists". Otherwise it builds and moves the build's file into the directory, then answers "built".
  - The move fails when a file of the build's name is already in the directory.
- **Api** models `expand_into_dict`, the GitHub locator built by the ensure route, and that route's response body.
- **Text**, **Sorting** and **Base** hold the Python string operations, the stable sort, and shared datatypes that the modules above rely on.

Where the code and its own description differ, the model follows the code:

- `get_tags` removes every occurrence of `refs/tags/`, not just a leading prefix (`str.replace`).
- A capture that is empty (`name=""`) leaves the field unset, so a later line can still set it.

The source does not define the order between a structured version and a raw text. `semantic_version.Version` brings its own comparison, and what it answers against a plain `str` under Python 2 is not a documented, stable order. The model chooses one explicit total order instead: every structured version sorts before every raw text.

## Model

| member | source | states |
|---|---|---|
| Versions.GetVersion | mypi/package_util.py:156-168 | never fails; the result prints back as the tag without one leading `v`; it is Raw exactly when that text is not a strict SemVer version, and then it is Raw of that text |
| Versions.ParseSemver | mypi/package_util.py:164-165 | an accepted text yields a structured version whose identifiers are well formed |
| Versions.ParsePrints | mypi/package_util.py:164-165 | whatever strict parsing accepts prints back as the same text (str of the parsed version is the input) |
| Versions.PrintParses | mypi/package_util.py:164-165 | every well-formed structured version is read back from its printed text |
| Versions.Cmp | mypi/package_util.py:151 | every version compares Eq to itself, a structured version never compares Eq to a raw text, and raw texts compare Eq exactly when equal; the same order sorts each package's versions at line 93 |
| Versions.ToString | mypi/package_util.py:96 | a structured version prints starting with a digit; with ParsePrints and PrintParses, printing and strict parsing are inverse |
| Versions.StripV | mypi/package_util.py:160-162 | the result is the tag or the tag without one leading `v`, and is shorter exactly when the tag starts with `v` |
| Versions.CmpFlip | mypi/package_util.py:151 | comparing b with a gives the flipped outcome of comparing a with b |
| Versions.CmpTrans | mypi/package_util.py:151 | the comparison is transitive (the chain law holds for every triple) |
| Versions.CmpEqMeansSamePrecedence | mypi/package_util.py:164-165 | two well-formed structured versions compare equal exactly when they differ at most in build metadata |
| Versions.DescendingIsTotalPreorder | mypi/package_util.py:151 | the newest-first order is total and transitive, so the reverse sort by version is well defined |
| Versions.ReleaseTag | mypi/package_util.py:160-165 | a tag `v` + MAJOR.MINOR.PATCH parses to that release |
| Versions.ReleaseText | mypi/package_util.py:160-165 | the text MAJOR.MINOR.PATCH parses to that release |
| Versions.NumericNotLexicographic | mypi/package_util.py:124-128 | v1.10.0 is above v1.3.0, which is above v1.2.0, although "1.10.0" sorts below "1.3.0" as text |
| Tags.GetTags | mypi/package_util.py:133-153 | the result is sorted newest first, is a permutation of the tags the lines contribute, and is exactly their stable sort |
| Tags.TagOfLine | mypi/package_util.py:136-149 | only a line whose stripped text holds a tab contributes a tag; SkipsSingleField, SkipsDereference and KeepsTagName state each branch |
| Tags.TagOrderIsTotalPreorder | mypi/package_util.py:151 | ordering tags by their versions is a total preorder |
| Tags.KeptTagsMembers | mypi/package_util.py:135-149 | a tag is kept exactly when some line contributes it |
| Tags.SkipsSingleField | mypi/package_util.py:136-141 | a line with no tab once stripped, a blank line included, contributes nothing |
| Tags.SkipsDereference | mypi/package_util.py:143-147 | a `<commit>\t<ref>` line whose ref ends in `^{}` contributes nothing, when the commit is non-empty, starts with no whitespace and neither part holds a tab |
| Tags.KeepsTagName | mypi/package_util.py:143-149 | a `<commit>\trefs/tags/<name>` line contributes exactly `<name>`, when the commit and the name hold no tab, the line has no surrounding whitespace, the name holds no further `refs/tags/` and the reference does not end in `^{}` |
| Tags.SortsNumerically | mypi/package_util.py:151 | tags v1.2.0, v1.10.0, v1.3.0 sort to v1.10.0, v1.3.0, v1.2.0 |
| Sorting.SortBySorted | mypi/package_util.py:151 | sorting by a total preorder yields a sequence in which every element may come before every later one |
| Sorting.SortByMembers | mypi/package_util.py:90 | sorting neither loses nor adds elements: an element is in the result exactly when it is in the input |
| Sorting.SortByFirstIsLeast | mypi/package_util.py:107-108 | under a total preorder, the first element of a non-empty sorted sequence is an input element that may come before every input element |
| Catalog.ParseArtifact | mypi/package_util.py:72-81 | a file name is skipped exactly when it holds no `-` |
| Catalog.EntryOf | mypi/package_util.py:70-81 | an entry contributes a name and version exactly when it is a listed `.tar.gz` archive holding a `-` |
| Catalog.ArtifactParts | mypi/package_util.py:72-81 | `<name>-<last>` with no `-` in last splits into that name and last without `.tar.gz`, the name rejoined whole even when it holds `-` |
| Catalog.ArtifactRoundTrip | mypi/package_util.py:69-81 | when the name does not start with `.`, the version holds no `-` and no `.tar.gz` starts inside the version, the file `<name>-<version>.tar.gz` is read back as that name and get_version(version) |
| Catalog.ReleaseArtifact | mypi/package_util.py:69-81 | when the name does not start with `.`, `<name>-MAJOR.MINOR.PATCH.tar.gz` is read back as the name and that release |
| Catalog.NamesOf | mypi/package_util.py:83-84 | the dictionary's keys: no repeats, and a name is a key exactly when some entry has it |
| Catalog.VersionsOfMembers | mypi/package_util.py:86 | a version is under a name exactly when some entry pairs them |
| Catalog.ScanEntries | mypi/package_util.py:67-86 | after the loop, the dictionary and its keys are those of the scanned entries |
| Catalog.ScanEntry | mypi/package_util.py:70-86 | one turn of the loop keeps the dictionary and its keys those of the scanned entries, extended by what the file name contributes |
| Catalog.ScanKnown | mypi/package_util.py:86 | appending a version under a name already present keeps the dictionary that of the entries |
| Catalog.ScanNew | mypi/package_util.py:83-86 | adding a new name with an empty list, then appending its version, keeps the dictionary and the key order those of the entries |
| Catalog.ListPackages | mypi/package_util.py:89-97 | the result is the listing of the scanned entries |
| Catalog.GetAllPackages | mypi/package_util.py:55-98 | the result is the listing of the directory entries |
| Catalog.Listing | mypi/package_util.py:89-97 | one package per distinct name of the directory's archives |
| Catalog.ListingNamesSorted | mypi/package_util.py:90 | the listed names are distinct and sorted by lower-cased name |
| Catalog.ListingNamesExact | mypi/package_util.py:70-90 | a name is listed exactly when some listed file parses to it |
| Catalog.ListingVersions | mypi/package_util.py:93-96 | each package's versions are str() of a permutation of its files' versions, sorted newest first |
| Catalog.PackageVersionMembers | mypi/package_util.py:93-96 | a version string is in a package's list exactly when some scanned entry pairs the name with a version printing as it |
| Catalog.ListingVersionMembers | mypi/package_util.py:86-97 | a version string is listed under a name exactly when some file carries that name and a version printing as it |
| Catalog.ArtifactListed | mypi/package_util.py:69-97 | when the name does not start with `.`, the version holds no `-` and no `.tar.gz` starts inside the version, and `<name>-<version>.tar.gz` is in the directory, the listing has a package of that name whose versions hold str(get_version(version)) |
| Catalog.NameOrderIsTotalPreorder | mypi/package_util.py:90 | the case-insensitive name order is a total preorder |
| Catalog.ExampleListing | mypi/package_util.py:55-63 | foo-1.0.0, foo-0.9.9 and bar-2.0.0 list as bar: [2.0.0], foo: [1.0.0, 0.9.9] |
| Metadata.SkipSpaces | mypi/package_util.py:192-193 | the `( )*` run: every skipped character is a space and the stop is at a non-space or the end |
| Metadata.LastQuote | mypi/package_util.py:192-193 | the position of the line's last quote, none exactly when the line holds no quote |
| Metadata.Capture | mypi/package_util.py:192-193 | a line captures nothing exactly when the pattern cannot match it |
| Metadata.CaptureIsPreferredMatch | mypi/package_util.py:192-193 | the scanner finds no capture exactly when the pattern cannot match; otherwise it yields group 3 of the match the backtracking matcher reports (rightmost key, then rightmost closing quote) |
| Metadata.CaptureBelowIsPreferred | mypi/package_util.py:192-193 | the same for keys tried below a position, by induction on the backtracking |
| Metadata.QuotedValueCaptured | mypi/package_util.py:192-204 | when neither KEY nor VALUE holds a quote, a line `KEY="VALUE",` captures VALUE |
| Metadata.CaptureAtStart | mypi/package_util.py:192-193 | with the key only at the start, followed by `="`, the capture runs from after that quote to the line's last quote |
| Metadata.IndentedAssignment | mypi/package_util.py:195-204 | an indented `KEY="VALUE",`, once stripped, captures VALUE for its key and nothing for a key with a character the line lacks |
| Metadata.GroupRunsToLastQuote | mypi/package_util.py:192-193 | the group is greedy: when KEY, A and B hold no quote and KEY occurs only at the start, `KEY="A"B"` captures `A"B`, up to the last quote |
| Metadata.CaptureWithoutKey | mypi/package_util.py:201-209 | a line lacking some character of the key captures nothing |
| Metadata.ExtractPackageDetails | mypi/package_util.py:186-211 | name and version are the values the lines settle on for each key |
| Metadata.SettledAssigned | mypi/package_util.py:201-209 | the value the lines settle on is "" exactly when no line captures a non-empty value, and otherwise is the capture of some line |
| Metadata.FirstFilledSettles | mypi/package_util.py:201-209 | the first non-empty capture is the value; later matches are ignored |
| Metadata.FirstNonBlankEmpty | mypi/package_util.py:195-209 | a field is "" exactly when no line gives a non-empty capture |
| Metadata.SettledHasFirstFilled | mypi/package_util.py:201-209 | a non-empty value comes from the first line with a non-empty capture |
| Metadata.SetupPyName | setup.py:12 | the line `name="mypi",` settles the name on mypi |
| Metadata.SetupPyVersion | setup.py:12-13 | after that line, `version="0.0.3",` settles the version on 0.0.3 |
| Resolution.Ensure | mypi/package_util.py:101-121 | the directory only grows, and changes exactly when the answer is "built"; a successful call names `<name>-<version>.tar.gz` from setup.py at the chosen tag; when a tag is chosen, setup.py can be read there and that file is already in the directory, the answer is ("exists", that file) and the directory is unchanged; "exists" is never answered for a file that was absent; the move fails only when the build's file is already there |
| Resolution.PackageStore.EnsurePackageExists | mypi/package_util.py:101-121 | when a tag is chosen, setup.py can be read there and the named file is already in the directory, the answer is ("exists", that file) and the directory is unchanged; "exists" always names a present file; "built" names a file that was absent and adds the build's file, which was absent too; an error, a clashing move included, changes nothing |
| Resolution.ChosenTag | mypi/package_util.py:106-108 | a given tag is used as is; without one, there is none exactly when no line of the listing contributes a tag |
| Resolution.DetailsAssigned | mypi/package_util.py:111-113 | the name and the version read from setup.py are each "" exactly when no line assigns it a non-empty value, and otherwise a value some line assigns |
| Resolution.ArtifactName | mypi/package_util.py:115 | the file name ends in `.tar.gz`, and the catalog lists it exactly when the name does not start with `.` |
| Resolution.ChosenTagNewest | mypi/package_util.py:106-108 | without a tag, there is none exactly when the repository lists none; otherwise the chosen tag is a listed one, newest of all |
| Resolution.EnsuredPresent | mypi/package_util.py:115-121 | when the build leaves the named file, a successful call leaves it in the directory |
| Resolution.EnsureIdempotent | mypi/package_util.py:114-118 | when the build at every tag leaves exactly the file named from setup.py, a second call after a successful one answers "exists" with the same file name and changes nothing (without that condition, see Resolution.SecondBuildClashes) |
| Resolution.SecondBuildClashes | mypi/package_util.py:115-121 | when the build leaves a file of another name, the first call builds; a second call fails to move the build's file and leaves the directory as it was |
| Resolution.EnsureBuilding | mypi/package_util.py:115-121 | a call that does not find the named file builds: the move fails when the build's file is there and adds it otherwise |
| Resolution.EnsureReplacing | mypi/package_util.py:120 | with a move that replaces an existing file, the directory only grows and no call fails on a clash |
| Resolution.ReplacingRepeatable | mypi/package_util.py:101-121 | with replacing moves, a call after a successful one succeeds again with the same file name |
| Resolution.EnsuredIsListed | mypi/package_util.py:111-121 | when setup.py's name does not start with `.`, its version holds no `-` and no `.tar.gz` starts inside the version, the file a successful call names is, once in the directory, listed by the catalog under that name with that version |
| Api.ExpandIntoDict | mypi/api.py:80-88 | keeps the package name and gives one link per version string, in order, each link named by its version |
| Api.LinkNamesListedFile | mypi/api.py:81-84 | when the package name does not start with `.`, the version holds no `-` and no `.tar.gz` starts inside it, the link's URL is `/` and a file the catalog reads back as that package and version |
| Api.ExpandExample | mypi/api.py:77-78 | ('mypi', ['1.0.0', '0.8.8']) expands to links /mypi-1.0.0.tar.gz and /mypi-0.8.8.tar.gz |
| Api.RepoLocator | mypi/api.py:52-54 | the locator starts with `git@github.com:` and ends in `.git` |
| Api.LocatorDropsOneSuffix | mypi/api.py:52-54 | exactly one trailing `.git` is removed before `.git` is added back |
| Api.LocatorSuffixOptional | mypi/api.py:52-54 | a repository named with or without `.git` gets the same locator |
| Api.ResponseBody | mypi/api.py:57 | whatever the file name, the body ends in ` exists` exactly when the status is "exists" |
| Api.ResponseBodyParts | mypi/api.py:57 | for a file name without spaces, the body `<filename> <status>` splits back into the file name and the status; the status text is "exists" exactly for Exists |

## Left out

- `build` and `raw_build` (mypi/package_util.py:18-52) clone, run `setup.py sdist` and move the file. They are abstracted as the file name `sdistAt` records per tag; an absent entry is a failed build.
- `get_package_details` (mypi/package_util.py:171-183) clones without checkout. It is abstracted as the text `setupPyAt` records per tag; an absent entry is a tag that cannot be checked out.
- The `git ls-remote` call in `get_tags`, the directory glob in `get_all_packages` and the file open in `extract_package_details` are inputs: the printed text, the entry names in directory order, and the file's text.
- Catalog.Listed: the glob `*.tar.gz` is modelled only as "ends in `.tar.gz` and does not start with `.`"; directories and other special files are not told apart.
- Catalog.NamesOf: Python 2 dictionary order is hash order. The model keeps first-appearance order, which only shows between names that are equal once lower-cased.
- Versions.ParseSemver follows the grammar of Semantic Versioning 2.0.0. The parser of the pinned `semantic_version` library is not part of this model, and may accept texts the grammar rejects, such as leading zeros.
- Versions.Cmp: the source leaves the order between a version object and a string undefined; the model chooses structured before raw.
- Metadata.ExtractPackageDetails: lines are the pieces of the text between `\n`. A `\r` that `strip` does not remove, or another line terminator, is not modelled.
- Resolution.PackageStore.EnsurePackageExists: the exceptions the source raises become `Failure` values. These are IndexError for a repository without tags or a build without output (`NoTags`, `NoBuildOutput`), the git error for an unknown tag (`NoCheckout`), and the `shutil.Error` that `shutil.move` raises when the build's file is already in the packages directory (`MoveClash`). The directory is a set of names, so a file name holding `/` is not resolved as a path.
- Logging, the Flask routes (file serving, the index template, `ensure_initialised`), the `docopt` command line, and `mypi/settings.py` are I/O and configuration. The index route's list comprehension over the listing is not modelled beyond `expand_into_dict`.
- Concurrent calls, and two builds of the same file racing, are not modelled.

## Findings

| source | as written | input that shows it | evidently intended | confidence | as-written member | corrected member |
|---|---|---|---|---|---|---|
| mypi/package_util.py:115-121 | the existence check looks for `<name>-<version>.tar.gz` built from the setup.py text, but `build` (line 27) moves whatever file the sdist produced into the directory, and `shutil.move` raises when a file of that name is already there | a setup.py whose sdist file name differs from `<name>-<version>.tar.gz`, for example `version="1.0.0-beta"`, which setuptools normalises to `1.0.0b0`: the first call builds, the second builds again and raises | ensuring the same tag a second time succeeds, as the function's own description says | medium, not executed | Resolution.SecondBuildClashes | Resolution.EnsureReplacing, Resolution.ReplacingRepeatable |

`Ensure` and `PackageStore.EnsurePackageExists` keep the behaviour as written, so that the model answers what the code answers. `EnsureReplacing` is defined on top of `Ensure` and replaces only the failing move.
