/** The version model of mypi/package_util.py: `get_version` turns a git tag
    or an artifact's version text into a value that is either a strict
    Semantic Versioning 2.0.0 version or, when the text is not one, the raw
    text itself. Versions are ordered by SemVer precedence (section 11 of
    Semantic Versioning 2.0.0); raw texts come after every structured
    version and are ordered among themselves as Python orders strings. */
module Versions {
  import opened Base
  import opened Text
  import Sorting

  predicate IsDigit(c: char) {
    '0' <= c <= '9'
  }

  predicate AllDigits(s: string) {
    forall i :: 0 <= i < |s| ==> IsDigit(s[i])
  }

  /** A numeric field (SemVer 2.0.0 section 2): non-empty digits with no leading zero. */
  predicate IsNumber(s: string) {
    |s| > 0 && AllDigits(s) && (s[0] == '0' ==> |s| == 1)
  }

  predicate IsIdentChar(c: char) {
    IsDigit(c) || 'a' <= c <= 'z' || 'A' <= c <= 'Z' || c == '-'
  }

  /** A build identifier (SemVer 2.0.0 section 10): non-empty, [0-9A-Za-z-]. */
  predicate IsIdent(s: string) {
    |s| > 0 && forall i :: 0 <= i < |s| ==> IsIdentChar(s[i])
  }

  /** A pre-release identifier (SemVer 2.0.0 section 9): an identifier whose numeric form
      has no leading zero. */
  predicate IsPreIdent(s: string) {
    IsIdent(s) && (AllDigits(s) ==> IsNumber(s))
  }

  function DigitValue(c: char): nat
    requires IsDigit(c)
  {
    c as int - '0' as int
  }

  function DigitChar(d: nat): char
    requires d < 10
  {
    ('0' as int + d) as char
  }

  /** The value of a decimal digit string. */
  function NatValue(s: string): nat
    requires AllDigits(s)
    decreases |s|
  {
    if s == [] then 0 else 10 * NatValue(s[..|s| - 1]) + DigitValue(s[|s| - 1])
  }

  /** Python's '%d' % n: the decimal text of n, a numeric field starting
      with '0' only for zero. */
  function NatText(n: nat): (r: string)
    ensures IsNumber(r)
    ensures r[0] == '0' <==> n == 0
  {
    if n < 10 then [DigitChar(n)]
    else NatText(n / 10) + [DigitChar(n % 10)]
  }

  /** Reading back the decimal text of n gives n. */
  lemma {:induction false} NatValueOfText(n: nat)
    ensures NatValue(NatText(n)) == n
  {
    if n >= 10 {
      var s := NatText(n);
      assert s[..|s| - 1] == NatText(n / 10);
      NatValueOfText(n / 10);
    }
  }

  /** A digit string not starting with '0' has a positive value. */
  lemma {:induction false} NatValuePositive(s: string)
    requires |s| > 0 && AllDigits(s) && s[0] != '0'
    ensures NatValue(s) >= 1
    decreases |s|
  {
    if |s| > 1 {
      NatValuePositive(s[..|s| - 1]);
    }
  }

  /** Rendering the value of a numeric field gives the field back. */
  lemma {:induction false} NatTextOfValue(s: string)
    requires IsNumber(s)
    ensures NatText(NatValue(s)) == s
    decreases |s|
  {
    if |s| > 1 {
      var init := s[..|s| - 1];
      NatValuePositive(init);
      NatTextOfValue(init);
      var n := NatValue(s);
      assert n / 10 == NatValue(init) && n % 10 == DigitValue(s[|s| - 1]);
      assert s == init + [s[|s| - 1]];
    }
  }

  /** Two numeric fields with the same value are the same text. */
  lemma NatValueInjective(a: string, b: string)
    requires IsNumber(a) && IsNumber(b) && NatValue(a) == NatValue(b)
    ensures a == b
  {
    NatTextOfValue(a);
    NatTextOfValue(b);
  }

  /** A parsed tag. Structured holds a SemVer 2.0.0 version with its
      pre-release and build identifiers; Raw holds text that is not one. */
  datatype Version =
    | Structured(major: nat, minor: nat, patch: nat, pre: seq<string>, build: seq<string>)
    | Raw(text: string)

  predicate AllPreIdents(ids: seq<string>) {
    forall k :: 0 <= k < |ids| ==> IsPreIdent(ids[k])
  }

  predicate AllIdents(ids: seq<string>) {
    forall k :: 0 <= k < |ids| ==> IsIdent(ids[k])
  }

  /** The values strict parsing can produce: well-formed identifiers. */
  predicate WellFormed(v: Version) {
    v.Structured? ==> AllPreIdents(v.pre) && AllIdents(v.build)
  }

  /** s cut at the first c: the part before, and the part after if c occurs. */
  function CutAt(s: string, c: char): (string, Option<string>) {
    match IndexOf(s, c)
    case None => (s, None)
    case Some(i) => (s[..i], Some(s[i + 1..]))
  }

  /** The identifiers of an optional dot-separated section. */
  function Idents(section: Option<string>): seq<string> {
    if section.None? then [] else Split(section.value, '.')
  }

  /** Strict parsing, MAJOR.MINOR.PATCH[-PRE][+BUILD], as
      `semantic_version.Version(text)`: None where that raises ValueError. */
  function ParseSemver(s: string): (r: Option<Version>)
    ensures r.Some? ==> r.value.Structured? && WellFormed(r.value)
  {
    var (main, build) := CutAt(s, '+');
    var (core, pre) := CutAt(main, '-');
    var nums := Split(core, '.');
    var preIds := Idents(pre);
    var buildIds := Idents(build);
    if |nums| == 3 && IsNumber(nums[0]) && IsNumber(nums[1]) && IsNumber(nums[2])
       && AllPreIdents(preIds) && AllIdents(buildIds)
    then Some(Structured(NatValue(nums[0]), NatValue(nums[1]), NatValue(nums[2]), preIds, buildIds))
    else None
  }

  /** The optional "-PRE" or "+BUILD" part of a rendered version. */
  function Section(mark: char, ids: seq<string>): string {
    if ids == [] then "" else [mark] + Join(ids, '.')
  }

  /** str(version): the text of a structured version, or the raw text. A
      structured version prints starting with the digits of its major field. */
  function ToString(v: Version): (r: string)
    ensures v.Structured? ==> |r| > 0 && IsDigit(r[0])
  {
    match v
    case Raw(t) => t
    case Structured(major, minor, patch, pre, build) =>
      NatText(major) + "." + NatText(minor) + "." + NatText(patch) + Section('-', pre) + Section('+', build)
  }

  /** `tag[1:]` when the tag starts with 'v', else the tag. */
  function StripV(tag: string): (r: string)
    ensures tag == r || tag == "v" + r
    ensures |r| < |tag| <==> StartsWith(tag, "v")
  {
    if StartsWith(tag, "v") then tag[1..] else tag
  }

  /** get_version: drops one leading 'v', then parses strictly; never fails.
      The result prints back as exactly the stripped text, and it is Raw
      exactly when that text is not a SemVer version. */
  function GetVersion(tag: string): (v: Version)
    ensures ToString(v) == StripV(tag)
    ensures v.Raw? <==> ParseSemver(StripV(tag)).None?
    ensures v.Raw? ==> v == Raw(StripV(tag))
    ensures v.Structured? ==> WellFormed(v)
  {
    match ParseSemver(StripV(tag))
    case Some(v) => ParsePrints(StripV(tag)); v
    case None => Raw(StripV(tag))
  }

  /** Cutting at c and putting c back gives the original string. */
  lemma CutAtRejoins(s: string, c: char)
    ensures s == CutAt(s, c).0 + (if CutAt(s, c).1.None? then "" else [c] + CutAt(s, c).1.value)
    ensures c !in CutAt(s, c).0
  {
    match IndexOf(s, c)
    case None =>
    case Some(i) =>
      assert s == s[..i] + [c] + s[i + 1..];
  }

  /** Cutting a + [c] + b at c, where a has no c, gives a and b. */
  lemma CutAtFirst(a: string, c: char, b: string)
    requires c !in a
    ensures CutAt(a + [c] + b, c) == (a, Some(b))
  {
    var s := a + [c] + b;
    IndexOfAfter(a, c, b);
    assert s[..|a|] == a;
    assert s[|a| + 1..] == b;
  }

  /** The identifiers of a section print back as the section. */
  lemma SectionOfIdents(mark: char, section: Option<string>)
    ensures Section(mark, Idents(section)) == if section.None? then "" else [mark] + section.value
  {
    if section.Some? {
      JoinSplit(section.value, '.');
    }
  }

  /** A core that splits into three fields is those fields joined by dots. */
  lemma ThreeFieldsRejoin(core: string)
    requires |Split(core, '.')| == 3
    ensures core == Split(core, '.')[0] + "." + Split(core, '.')[1] + "." + Split(core, '.')[2]
  {
    var nums := Split(core, '.');
    JoinSplit(core, '.');
    assert nums == [nums[0], nums[1], nums[2]];
    JoinThree(nums[0], nums[1], nums[2]);
  }

  /** Whatever strict parsing accepts prints back as the same text. */
  lemma ParsePrints(s: string)
    requires ParseSemver(s).Some?
    ensures ToString(ParseSemver(s).value) == s
  {
    var (main, build) := CutAt(s, '+');
    var (core, pre) := CutAt(main, '-');
    var nums := Split(core, '.');
    var v := ParseSemver(s).value;
    assert |nums| == 3 && IsNumber(nums[0]) && IsNumber(nums[1]) && IsNumber(nums[2]);
    assert v == Structured(NatValue(nums[0]), NatValue(nums[1]), NatValue(nums[2]), Idents(pre), Idents(build));
    NatTextOfValue(nums[0]);
    NatTextOfValue(nums[1]);
    NatTextOfValue(nums[2]);
    ThreeFieldsRejoin(core);
    CutAtRejoins(s, '+');
    CutAtRejoins(main, '-');
    SectionOfIdents('-', pre);
    SectionOfIdents('+', build);
    calc {
      ToString(v);
      NatText(v.major) + "." + NatText(v.minor) + "." + NatText(v.patch) + Section('-', v.pre) + Section('+', v.build);
      core + Section('-', Idents(pre)) + Section('+', Idents(build));
      main + Section('+', Idents(build));
      s;
    }
  }

  /** Every character of a join of identifiers is an identifier character or a dot. */
  lemma JoinIdentChars(xs: seq<string>, c: char)
    requires forall k :: 0 <= k < |xs| ==> IsIdent(xs[k])
    requires !IsIdentChar(c) && c != '.'
    ensures c !in Join(xs, '.')
    decreases |xs|
  {
    if |xs| > 1 { JoinIdentChars(xs[1..], c); }
  }

  /** The text after a section mark, if the section is printed. */
  function SectionBody(ids: seq<string>): Option<string> {
    if ids == [] then None else Some(Join(ids, '.'))
  }

  /** Cutting a printed version at a section mark finds that section. */
  lemma CutAtSection(front: string, mark: char, ids: seq<string>)
    requires mark !in front
    ensures CutAt(front + Section(mark, ids), mark) == (front, SectionBody(ids))
  {
    if ids != [] {
      assert front + Section(mark, ids) == front + [mark] + Join(ids, '.');
      CutAtFirst(front, mark, Join(ids, '.'));
    } else {
      assert front + Section(mark, ids) == front;
    }
  }

  /** The identifiers of a printed section are the identifiers printed. */
  lemma IdentsOfJoin(ids: seq<string>)
    requires AllIdents(ids)
    ensures Idents(SectionBody(ids)) == ids
  {
    if ids != [] {
      forall k | 0 <= k < |ids| ensures '.' !in ids[k] {
        assert IsIdent(ids[k]);
      }
      SplitJoin(ids, '.');
    }
  }

  /** A numeric field holds no character other than digits. */
  lemma NumberHasOnlyDigits(a: string, x: char)
    requires AllDigits(a) && !IsDigit(x)
    ensures x !in a
  {
  }

  /** Three fields joined by dots. */
  lemma JoinThree(a: string, b: string, c: string)
    ensures Join([a, b, c], '.') == a + "." + b + "." + c
  {
    assert [a, b, c][1..] == [b, c];
    assert [b, c][1..] == [c];
    assert Join([c], '.') == c;
    assert Join([b, c], '.') == b + ['.'] + c;
    assert Join([a, b, c], '.') == a + ['.'] + (b + ['.'] + c);
  }

  /** The numeric core of a printed version has no section marks. */
  lemma CoreHasNoMarks(a: string, b: string, c: string)
    requires IsNumber(a) && IsNumber(b) && IsNumber(c)
    ensures '+' !in a + "." + b + "." + c && '-' !in a + "." + b + "." + c
  {
    NumberHasOnlyDigits(a, '+');
    NumberHasOnlyDigits(b, '+');
    NumberHasOnlyDigits(c, '+');
    NumberHasOnlyDigits(a, '-');
    NumberHasOnlyDigits(b, '-');
    NumberHasOnlyDigits(c, '-');
  }

  /** The numeric core of a printed version splits into its three fields. */
  lemma CoreSplits(a: string, b: string, c: string)
    requires IsNumber(a) && IsNumber(b) && IsNumber(c)
    ensures Split(a + "." + b + "." + c, '.') == [a, b, c]
  {
    NumberHasOnlyDigits(a, '.');
    NumberHasOnlyDigits(b, '.');
    NumberHasOnlyDigits(c, '.');
    SplitJoin([a, b, c], '.');
    JoinThree(a, b, c);
  }

  /** Strict parsing reads back every well-formed structured version from
      its printed text. */
  lemma PrintParses(v: Version)
    requires v.Structured? && WellFormed(v)
    ensures ParseSemver(ToString(v)) == Some(v)
  {
    var a, b, c := NatText(v.major), NatText(v.minor), NatText(v.patch);
    var core := a + "." + b + "." + c;
    var main := core + Section('-', v.pre);
    var s := main + Section('+', v.build);
    assert s == ToString(v);
    CoreSplits(a, b, c);
    CoreHasNoMarks(a, b, c);
    assert '+' !in main by {
      if v.pre != [] { JoinIdentChars(v.pre, '+'); }
    }
    CutAtSection(main, '+', v.build);
    CutAtSection(core, '-', v.pre);
    ParseOfParts(s, main, core, v);
  }

  /** Strict parsing of a text whose sections and fields are those of v. */
  lemma ParseOfParts(s: string, main: string, core: string, v: Version)
    requires v.Structured? && WellFormed(v)
    requires CutAt(s, '+') == (main, SectionBody(v.build)) && CutAt(main, '-') == (core, SectionBody(v.pre))
    requires Split(core, '.') == [NatText(v.major), NatText(v.minor), NatText(v.patch)]
    ensures ParseSemver(s) == Some(v)
  {
    IdentsOfJoin(v.pre);
    IdentsOfJoin(v.build);
    NatValueOfText(v.major);
    NatValueOfText(v.minor);
    NatValueOfText(v.patch);
  }

  // ---------------------------------------------------------------------
  // Precedence

  function CmpNat(a: nat, b: nat): Ordering {
    if a < b then Lt else if a == b then Eq else Gt
  }

  /** SemVer 2.0.0 sections 11.4.1-11.4.3: numeric identifiers compare numerically and come
      before alphanumeric ones, which compare in ASCII order. */
  function CmpIdent(a: string, b: string): Ordering {
    if AllDigits(a) && AllDigits(b) then CmpNat(NatValue(a), NatValue(b))
    else if AllDigits(a) then Lt
    else if AllDigits(b) then Gt
    else CmpLex(a, b)
  }

  /** SemVer 2.0.0 section 11.4.4: identifier lists compare field by field, and a list
      that is a proper prefix of the other comes first. */
  function CmpIdents(a: seq<string>, b: seq<string>): Ordering {
    if a == [] && b == [] then Eq
    else if a == [] then Lt
    else if b == [] then Gt
    else Then(CmpIdent(a[0], b[0]), CmpIdents(a[1..], b[1..]))
  }

  /** SemVer 2.0.0 section 11.3: a version without pre-release identifiers comes after
      every version with the same core that has them. */
  function CmpPre(a: seq<string>, b: seq<string>): Ordering {
    if a == [] && b == [] then Eq
    else if a == [] then Gt
    else if b == [] then Lt
    else CmpIdents(a, b)
  }

  /** The order of versions: SemVer precedence between structured versions
      (build metadata ignored, SemVer 2.0.0 section 10), every structured version before
      every raw text, raw texts in Python's string order. Every version is
      Eq to itself, a structured version is never Eq to a raw one, and raw
      texts are Eq exactly when they are the same text. */
  function Cmp(a: Version, b: Version): (r: Ordering)
    ensures a == b ==> r == Eq
    ensures r == Eq ==> a.Structured? == b.Structured?
    ensures a.Raw? && b.Raw? ==> (r == Eq <==> a == b)
  {
    match (a, b)
    case (Structured(_, _, _, _, _), Structured(_, _, _, _, _)) =>
      CmpIdentsRefl(a.pre);
      Then(CmpNat(a.major, b.major), Then(CmpNat(a.minor, b.minor),
        Then(CmpNat(a.patch, b.patch), CmpPre(a.pre, b.pre))))
    case (Structured(_, _, _, _, _), Raw(_)) => Lt
    case (Raw(_), Structured(_, _, _, _, _)) => Gt
    case (Raw(x), Raw(y)) => CmpLexEq(x, y); CmpLex(x, y)
  }

  lemma CmpIdentFlip(a: string, b: string)
    ensures CmpIdent(b, a) == CmpIdent(a, b).Flip()
  {
    CmpLexFlip(a, b);
  }

  lemma CmpIdentTrans(a: string, b: string, c: string)
    ensures TransLaw(CmpIdent(a, b), CmpIdent(b, c), CmpIdent(a, c))
  {
    CmpLexTrans(a, b, c);
  }

  lemma {:induction false} CmpIdentsFlip(a: seq<string>, b: seq<string>)
    ensures CmpIdents(b, a) == CmpIdents(a, b).Flip()
  {
    if a != [] && b != [] {
      CmpIdentFlip(a[0], b[0]);
      CmpIdentsFlip(a[1..], b[1..]);
    }
  }

  lemma {:induction false} CmpIdentsTrans(a: seq<string>, b: seq<string>, c: seq<string>)
    ensures TransLaw(CmpIdents(a, b), CmpIdents(b, c), CmpIdents(a, c))
  {
    if a != [] && b != [] && c != [] {
      CmpIdentTrans(a[0], b[0], c[0]);
      CmpIdentsTrans(a[1..], b[1..], c[1..]);
      ThenKeepsTransLaw(CmpIdent(a[0], b[0]), CmpIdent(b[0], c[0]), CmpIdent(a[0], c[0]),
        CmpIdents(a[1..], b[1..]), CmpIdents(b[1..], c[1..]), CmpIdents(a[1..], c[1..]));
    }
  }

  /** Swapping two versions flips their comparison (antisymmetry). */
  lemma CmpFlip(a: Version, b: Version)
    ensures Cmp(b, a) == Cmp(a, b).Flip()
  {
    match (a, b)
    case (Structured(_, _, _, _, _), Structured(_, _, _, _, _)) =>
      CmpIdentsFlip(a.pre, b.pre);
    case (Structured(_, _, _, _, _), Raw(_)) =>
    case (Raw(_), Structured(_, _, _, _, _)) =>
    case (Raw(x), Raw(y)) => CmpLexFlip(x, y);
  }

  /** Version comparisons chain (transitivity). */
  lemma CmpTrans(a: Version, b: Version, c: Version)
    ensures TransLaw(Cmp(a, b), Cmp(b, c), Cmp(a, c))
  {
    if a.Structured? && b.Structured? && c.Structured? {
      CmpIdentsTrans(a.pre, b.pre, c.pre);
      var pre := (CmpPre(a.pre, b.pre), CmpPre(b.pre, c.pre), CmpPre(a.pre, c.pre));
      assert TransLaw(pre.0, pre.1, pre.2);
      var patch := (Then(CmpNat(a.patch, b.patch), pre.0), Then(CmpNat(b.patch, c.patch), pre.1), Then(CmpNat(a.patch, c.patch), pre.2));
      ThenKeepsTransLaw(CmpNat(a.patch, b.patch), CmpNat(b.patch, c.patch), CmpNat(a.patch, c.patch), pre.0, pre.1, pre.2);
      ThenKeepsTransLaw(CmpNat(a.minor, b.minor), CmpNat(b.minor, c.minor), CmpNat(a.minor, c.minor), patch.0, patch.1, patch.2);
      ThenKeepsTransLaw(CmpNat(a.major, b.major), CmpNat(b.major, c.major), CmpNat(a.major, c.major),
        Then(CmpNat(a.minor, b.minor), patch.0), Then(CmpNat(b.minor, c.minor), patch.1), Then(CmpNat(a.minor, c.minor), patch.2));
    } else if a.Raw? && b.Raw? && c.Raw? {
      CmpLexTrans(a.text, b.text, c.text);
    }
  }

  /** Among well-formed structured versions, Cmp says Eq exactly when the
      versions differ at most in build metadata. */
  lemma CmpEqMeansSamePrecedence(a: Version, b: Version)
    requires a.Structured? && b.Structured? && WellFormed(a) && WellFormed(b)
    ensures Cmp(a, b) == Eq <==> (a.major, a.minor, a.patch, a.pre) == (b.major, b.minor, b.patch, b.pre)
  {
    if Cmp(a, b) == Eq {
      CmpIdentsEq(a.pre, b.pre);
    } else if (a.major, a.minor, a.patch, a.pre) == (b.major, b.minor, b.patch, b.pre) {
      CmpIdentsRefl(a.pre);
    }
  }

  lemma {:induction false} CmpIdentsRefl(a: seq<string>)
    ensures CmpIdents(a, a) == Eq
  {
    if a != [] {
      CmpLexEq(a[0], a[0]);
      CmpIdentsRefl(a[1..]);
    }
  }

  lemma {:induction false} CmpIdentsEq(a: seq<string>, b: seq<string>)
    requires forall k :: 0 <= k < |a| ==> IsPreIdent(a[k])
    requires forall k :: 0 <= k < |b| ==> IsPreIdent(b[k])
    requires CmpIdents(a, b) == Eq
    ensures a == b
  {
    if a != [] && b != [] {
      assert CmpIdent(a[0], b[0]) == Eq;
      if AllDigits(a[0]) && AllDigits(b[0]) {
        NatValueInjective(a[0], b[0]);
      } else {
        CmpLexEq(a[0], b[0]);
      }
      CmpIdentsEq(a[1..], b[1..]);
      assert a == [a[0]] + a[1..] && b == [b[0]] + b[1..];
    }
  }

  /** a may be listed before b in a descending list of versions. */
  predicate Descending(a: Version, b: Version) {
    Cmp(a, b) != Lt
  }

  /** The descending version order is a total preorder, so sorting by it is
      well defined. */
  lemma DescendingIsTotalPreorder()
    ensures Sorting.TotalPreorder(Descending)
  {
    forall a, b ensures Descending(a, b) || Descending(b, a) {
      CmpFlip(a, b);
    }
    forall a, b, c | Descending(a, b) && Descending(b, c) ensures Descending(a, c) {
      CmpFlip(a, b);
      CmpFlip(b, c);
      CmpFlip(a, c);
      CmpTrans(c, b, a);
    }
  }

  /** A structured version with three numbers and nothing else. */
  function Release(major: nat, minor: nat, patch: nat): Version {
    Structured(major, minor, patch, [], [])
  }

  /** A tag written "v" + MAJOR.MINOR.PATCH parses to that release. */
  lemma ReleaseTag(tag: string, major: nat, minor: nat, patch: nat)
    requires tag == "v" + ToString(Release(major, minor, patch))
    ensures GetVersion(tag) == Release(major, minor, patch)
  {
    assert StripV(tag) == ToString(Release(major, minor, patch));
    PrintParses(Release(major, minor, patch));
  }

  /** The text MAJOR.MINOR.PATCH, with no leading 'v', parses to that release. */
  lemma ReleaseText(text: string, major: nat, minor: nat, patch: nat)
    requires text == ToString(Release(major, minor, patch))
    ensures GetVersion(text) == Release(major, minor, patch)
  {
    assert text[0] == NatText(major)[0];
    assert StripV(text) == text;
    PrintParses(Release(major, minor, patch));
  }

  /** The decimal texts the examples below use. */
  lemma DecimalTexts()
    ensures NatText(0) == "0" && NatText(1) == "1" && NatText(2) == "2" && NatText(3) == "3"
    ensures NatText(9) == "9" && NatText(10) == "10"
  {
  }

  /** The printed texts of the three example releases. */
  lemma ExampleTexts()
    ensures ToString(Release(1, 10, 0)) == "1.10.0"
    ensures ToString(Release(1, 3, 0)) == "1.3.0"
    ensures ToString(Release(1, 2, 0)) == "1.2.0"
  {
    DecimalTexts();
  }

  /** The printed texts of the releases of the catalog example. */
  lemma CatalogExampleTexts()
    ensures ToString(Release(1, 0, 0)) == "1.0.0"
    ensures ToString(Release(0, 9, 9)) == "0.9.9"
    ensures ToString(Release(2, 0, 0)) == "2.0.0"
  {
    DecimalTexts();
  }

  /** Each example tag parses to its release. */
  lemma ExampleTag10()
    ensures GetVersion("v1.10.0") == Release(1, 10, 0)
  {
    ExampleTexts();
    ReleaseTag("v1.10.0", 1, 10, 0);
  }

  lemma ExampleTag3()
    ensures GetVersion("v1.3.0") == Release(1, 3, 0)
  {
    ExampleTexts();
    ReleaseTag("v1.3.0", 1, 3, 0);
  }

  lemma ExampleTag2()
    ensures GetVersion("v1.2.0") == Release(1, 2, 0)
  {
    ExampleTexts();
    ReleaseTag("v1.2.0", 1, 2, 0);
  }

  /** Numbers order numerically, not as text: 1.10.0 is above 1.3.0 and
      1.2.0 although its text sorts below theirs. */
  lemma NumericNotLexicographic()
    ensures Cmp(GetVersion("v1.10.0"), GetVersion("v1.3.0")) == Gt
    ensures Cmp(GetVersion("v1.3.0"), GetVersion("v1.2.0")) == Gt
    ensures CmpLex("1.10.0", "1.3.0") == Lt
  {
    ExampleTag10();
    ExampleTag3();
    ExampleTag2();
    ExampleTextOrder("1.10.0", "1.3.0");
  }

  /** As text, 1.10.0 sorts below 1.3.0: the third characters decide. */
  lemma ExampleTextOrder(a: string, b: string)
    requires a == "1.10.0" && b == "1.3.0"
    ensures CmpLex(a, b) == Lt
  {
    var a2, b2 := a[2..], b[2..];
    assert a2[0] == '1' && b2[0] == '3';
    assert CmpLex(a2, b2) == Lt;
    assert a[1..][1..] == a2 && b[1..][1..] == b2;
    assert CmpLex(a[1..], b[1..]) == Lt;
  }
}
