/** The setup.py reader of mypi/package_util.py (`extract_package_details`):
    each stripped line is matched against ^.*name( )*=( )*["'](.*)["'].*$
    and ^.*version( )*=( )*["'](.*)["'].*$ in the way Python's backtracking
    matcher does, and the first non-empty capture of each is kept. Opening
    the file is not modelled: the method receives its text. */
module Metadata {
  import opened Base
  import opened Text

  predicate IsQuote(c: char) {
    c == '"' || c == '\''
  }

  predicate AllSpaces(s: string) {
    forall i :: 0 <= i < |s| ==> s[i] == ' '
  }

  /** The first index at or after i that does not hold a space: how far the
      greedy `( )*` reaches. */
  function SkipSpaces(line: string, i: nat): (r: nat)
    requires i <= |line|
    ensures i <= r <= |line|
    ensures AllSpaces(line[i..r])
    ensures r == |line| || line[r] != ' '
    decreases |line| - i
  {
    if i < |line| && line[i] == ' ' then
      var r := SkipSpaces(line, i + 1);
      assert line[i..r] == [line[i]] + line[i + 1..r];
      r
    else i
  }

  /** The opening quote of an assignment to the key found at p: the key,
      spaces, '=', spaces and a quote. */
  function OpeningQuote(line: string, key: string, p: nat): Option<nat>
    requires OccursAt(line, key, p)
  {
    var j := SkipSpaces(line, p + |key|);
    if j < |line| && line[j] == '=' then
      var q := SkipSpaces(line, j + 1);
      if q < |line| && IsQuote(line[q]) then Some(q) else None
    else None
  }

  /** The last quote of the line: where the greedy group must end. */
  function LastQuote(line: string): (r: Option<nat>)
    ensures r.None? <==> forall k :: 0 <= k < |line| ==> !IsQuote(line[k])
    ensures r.Some? ==> r.value < |line| && IsQuote(line[r.value])
    ensures r.Some? ==> forall k :: r.value < k < |line| ==> !IsQuote(line[k])
  {
    if line == [] then None
    else if IsQuote(line[|line| - 1]) then Some(|line| - 1)
    else
      var r := LastQuote(line[..|line| - 1]);
      assert forall k :: 0 <= k < |line| - 1 ==> line[..|line| - 1][k] == line[k];
      r
  }

  /** The capture when the key is tried at the positions below n, the
      rightmost first, as the leading greedy `.*` backtracks. */
  function CaptureBelow(line: string, key: string, n: nat): Option<string>
    requires n <= |line| + 1
  {
    if n == 0 then None
    else
      var p := n - 1;
      if MatchesAt(line, key, p)
      then Some(line[OpeningQuote(line, key, p).value + 1..LastQuote(line).value])
      else CaptureBelow(line, key, p)
  }

  /** group(3) of the match of ^.*KEY( )*=( )*["'](.*)["'].*$ against the
      line, or None when it does not match. */
  function Capture(line: string, key: string): (r: Option<string>)
    ensures r.None? <==> !MatchBelow(line, key, |line| + 1)
  {
    CaptureBelowIsPreferred(line, key, |line| + 1);
    CaptureBelow(line, key, |line| + 1)
  }

  /** The key at p is followed by spaces, '=' at j, spaces and a quote at q. */
  ghost predicate Assigns(line: string, key: string, p: nat, j: nat, q: nat) {
    && OccursAt(line, key, p)
    && p + |key| <= j < q < |line|
    && AllSpaces(line[p + |key|..j]) && line[j] == '='
    && AllSpaces(line[j + 1..q]) && IsQuote(line[q])
  }

  /** The regular expression matches with the key at p, '=' at j, the
      opening quote at q and the closing quote at e; group 3 is
      line[q + 1..e]. (`.` stops at a newline; the lines here hold none,
      being the pieces of the text between newlines.) */
  ghost predicate MatchAt(line: string, key: string, p: nat, j: nat, q: nat, e: nat) {
    Assigns(line, key, p, j, q) && q < e < |line| && IsQuote(line[e])
  }

  /** Some match puts the key below n. */
  ghost predicate MatchBelow(line: string, key: string, n: nat) {
    exists p: nat, j: nat, q: nat, e: nat :: p < n && MatchAt(line, key, p, j, q, e)
  }

  /** The match the backtracking matcher reports first among those with
      the key below n: the rightmost key, then the rightmost closing quote. */
  ghost predicate PreferredBelow(line: string, key: string, n: nat, p: nat, e: nat) {
    forall p': nat, j': nat, q': nat, e': nat :: p' < n && MatchAt(line, key, p', j', q', e') ==> p' < p || (p' == p && e' <= e)
  }

  /** Spaces from a up to a non-space at j take the greedy `( )*` exactly to j. */
  lemma {:induction false} SkipSpacesExact(line: string, a: nat, j: nat)
    requires a <= j < |line| && AllSpaces(line[a..j]) && line[j] != ' '
    ensures SkipSpaces(line, a) == j
    decreases j - a
  {
    if a < j {
      assert line[a..j][0] == line[a];
      assert line[a + 1..j] == line[a..j][1..];
      SkipSpacesExact(line, a + 1, j);
    }
  }

  /** OpeningQuote finds exactly the quote an assignment opens with. */
  lemma OpeningQuoteExact(line: string, key: string, p: nat, j: nat, q: nat)
    requires Assigns(line, key, p, j, q)
    ensures OpeningQuote(line, key, p) == Some(q)
  {
    SkipSpacesExact(line, p + |key|, j);
    SkipSpacesExact(line, j + 1, q);
  }

  /** What OpeningQuote finds is an assignment. */
  lemma OpeningQuoteSound(line: string, key: string, p: nat)
    requires OccursAt(line, key, p) && OpeningQuote(line, key, p).Some?
    ensures Assigns(line, key, p, SkipSpaces(line, p + |key|), OpeningQuote(line, key, p).value)
  {
  }

  /** The key at p takes part in a match exactly when CaptureBelow's test
      at p succeeds. */
  predicate MatchesAt(line: string, key: string, p: nat) {
    && OccursAt(line, key, p) && OpeningQuote(line, key, p).Some? && LastQuote(line).Some?
    && OpeningQuote(line, key, p).value < LastQuote(line).value
  }

  /** When the test at p fails, no match puts the key at p. */
  lemma NoMatchAt(line: string, key: string, p: nat)
    requires !MatchesAt(line, key, p)
    ensures forall j: nat, q: nat, e: nat :: !MatchAt(line, key, p, j, q, e)
  {
    forall j: nat, q: nat, e: nat | MatchAt(line, key, p, j, q, e) ensures false {
      OpeningQuoteExact(line, key, p, j, q);
    }
  }

  /** When the test at p succeeds, the key at p with the last quote of the
      line is a match, preferred over every other with the key at p or left
      of it. */
  lemma BestMatchAt(line: string, key: string, p: nat)
    requires MatchesAt(line, key, p)
    ensures MatchAt(line, key, p, SkipSpaces(line, p + |key|), OpeningQuote(line, key, p).value, LastQuote(line).value)
    ensures PreferredBelow(line, key, p + 1, p, LastQuote(line).value)
  {
    OpeningQuoteSound(line, key, p);
  }

  /** CaptureBelow reports a match exactly when one exists below n, and
      then the preferred one. */
  lemma {:induction false} CaptureBelowIsPreferred(line: string, key: string, n: nat)
    requires n <= |line| + 1
    ensures CaptureBelow(line, key, n).None? <==> !MatchBelow(line, key, n)
    ensures CaptureBelow(line, key, n).Some? ==>
      exists p: nat, j: nat, q: nat, e: nat :: p < n && MatchAt(line, key, p, j, q, e) && PreferredBelow(line, key, n, p, e)
        && CaptureBelow(line, key, n).value == line[q + 1..e]
    decreases n
  {
    if n > 0 {
      var p := n - 1;
      if MatchesAt(line, key, p) {
        BestMatchAt(line, key, p);
      } else {
        CaptureBelowIsPreferred(line, key, p);
        NoMatchAt(line, key, p);
        assert MatchBelow(line, key, n) ==> MatchBelow(line, key, p);
      }
    }
  }

  /** Capture agrees with the regular expression: None exactly when the line
      does not match, and otherwise group 3 of the match Python's matcher
      finds first — the rightmost key, then the rightmost closing quote. */
  lemma CaptureIsPreferredMatch(line: string, key: string)
    ensures Capture(line, key).None? <==> !MatchBelow(line, key, |line| + 1)
    ensures Capture(line, key).Some? ==>
      exists p: nat, j: nat, q: nat, e: nat :: MatchAt(line, key, p, j, q, e) && PreferredBelow(line, key, |line| + 1, p, e)
        && Capture(line, key).value == line[q + 1..e]
  {
    CaptureBelowIsPreferred(line, key, |line| + 1);
  }

  /** A capture that leaves the value unset: no match, or an empty group. */
  predicate Blank(c: Option<string>) {
    c.None? || c.value == ""
  }

  /** The value a run of captures settles on: the first non-blank one, ""
      when there is none (the value is only replaced while it is ""). */
  function FirstNonBlank(cs: seq<Option<string>>): string
    decreases |cs|
  {
    if cs == [] then ""
    else
      var v := FirstNonBlank(cs[..|cs| - 1]);
      if v != "" then v
      else match cs[|cs| - 1]
        case Some(g) => g
        case None => ""
  }

  /** The captures of the key on each stripped line. */
  function Captures(lines: seq<string>, key: string): (cs: seq<Option<string>>)
    ensures |cs| == |lines|
    ensures forall i :: 0 <= i < |lines| ==> cs[i] == Capture(Strip(lines[i]), key)
  {
    seq(|lines|, i requires 0 <= i < |lines| => Capture(Strip(lines[i]), key))
  }

  /** No line captures a non-empty value for the key. */
  predicate NoneAssigned(lines: seq<string>, key: string) {
    forall k :: 0 <= k < |lines| ==> Blank(Capture(Strip(lines[k]), key))
  }

  /** The value the scan of lines settles on for the key. */
  function Settled(lines: seq<string>, key: string): string {
    FirstNonBlank(Captures(lines, key))
  }

  /** The value is "" exactly when no line captures a non-empty value for
      the key, and otherwise is a value some line captures. */
  lemma SettledAssigned(lines: seq<string>, key: string)
    ensures Settled(lines, key) == "" <==> NoneAssigned(lines, key)
    ensures Settled(lines, key) != "" ==>
      exists k :: 0 <= k < |lines| && Capture(Strip(lines[k]), key) == Some(Settled(lines, key))
  {
    var cs := Captures(lines, key);
    FirstNonBlankEmpty(cs);
    if FirstNonBlank(cs) != "" {
      SettledHasFirstFilled(cs);
    }
  }

  /** Capture i is the first non-blank one. */
  predicate FirstFilled(cs: seq<Option<string>>, i: nat) {
    && i < |cs|
    && !Blank(cs[i])
    && forall k :: 0 <= k < i ==> Blank(cs[k])
  }

  /** The value is "" exactly when every capture is blank. */
  lemma {:induction false} FirstNonBlankEmpty(cs: seq<Option<string>>)
    ensures FirstNonBlank(cs) == "" <==> forall k :: 0 <= k < |cs| ==> Blank(cs[k])
    decreases |cs|
  {
    if cs != [] {
      var init := cs[..|cs| - 1];
      FirstNonBlankEmpty(init);
      assert forall k :: 0 <= k < |init| ==> init[k] == cs[k];
    }
  }

  /** The first non-blank capture is the value: later captures cannot
      replace it. */
  lemma {:induction false} FirstFilledSettles(cs: seq<Option<string>>, i: nat)
    requires FirstFilled(cs, i)
    ensures FirstNonBlank(cs) == cs[i].value
    decreases |cs|
  {
    var init := cs[..|cs| - 1];
    assert forall k :: 0 <= k < |init| ==> init[k] == cs[k];
    if i < |cs| - 1 {
      assert FirstFilled(init, i);
      FirstFilledSettles(init, i);
    } else {
      FirstNonBlankEmpty(init);
    }
  }

  /** A non-empty value comes from the first non-blank capture. */
  lemma {:induction false} SettledHasFirstFilled(cs: seq<Option<string>>)
    requires FirstNonBlank(cs) != ""
    ensures exists i: nat :: FirstFilled(cs, i) && FirstNonBlank(cs) == cs[i].value
    decreases |cs|
  {
    var init := cs[..|cs| - 1];
    assert forall k :: 0 <= k < |init| ==> init[k] == cs[k];
    if FirstNonBlank(init) != "" {
      SettledHasFirstFilled(init);
      var i: nat :| FirstFilled(init, i) && FirstNonBlank(init) == init[i].value;
      assert FirstFilled(cs, i);
    } else {
      FirstNonBlankEmpty(init);
      assert FirstFilled(cs, |cs| - 1);
    }
  }

  /** One more line updates the value only while it is "", and then only
      on a match. */
  lemma SettledStep(lines: seq<string>, key: string, i: nat)
    requires i < |lines|
    ensures Settled(lines[..i + 1], key) ==
      if Settled(lines[..i], key) != "" then Settled(lines[..i], key)
      else match Capture(Strip(lines[i]), key)
        case Some(g) => g
        case None => ""
  {
    var cs := Captures(lines[..i + 1], key);
    assert cs[..i] == Captures(lines[..i], key);
    assert cs[i] == Capture(Strip(lines[i]), key);
  }

  /** extract_package_details: the name and version the setup.py text
      assigns, each the first non-empty capture over its lines. */
  method ExtractPackageDetails(setupPy: string) returns (name: string, version: string)
    ensures name == Settled(Split(setupPy, '\n'), "name")
    ensures version == Settled(Split(setupPy, '\n'), "version")
  {
    var lines := Split(setupPy, '\n');
    name := "";
    version := "";
    for i := 0 to |lines|
      invariant name == Settled(lines[..i], "name")
      invariant version == Settled(lines[..i], "version")
    {
      var line := Strip(lines[i]);
      SettledStep(lines, "name", i);
      SettledStep(lines, "version", i);
      if name == "" {
        var nameMatched := Capture(line, "name");
        if nameMatched.Some? {
          name := nameMatched.value;
        }
      }
      if version == "" {
        var versionMatched := Capture(line, "version");
        if versionMatched.Some? {
          version := versionMatched.value;
        }
      }
    }
    assert lines[..|lines|] == lines;
  }

  predicate NoQuotes(s: string) {
    forall k :: 0 <= k < |s| ==> !IsQuote(s[k])
  }

  /** A line starting KEY=" whose last quote is at e, and where the key
      matches nowhere further right, captures everything between. */
  lemma CaptureAtStart(line: string, key: string, e: nat)
    requires OccursAt(line, key, 0) && |key| + 1 < e < |line|
    requires line[|key|] == '=' && IsQuote(line[|key| + 1]) && IsQuote(line[e])
    requires forall k :: e < k < |line| ==> !IsQuote(line[k])
    requires forall p: nat, j: nat, q: nat, e': nat :: 0 < p ==> !MatchAt(line, key, p, j, q, e')
    ensures Capture(line, key) == Some(line[|key| + 2..e])
  {
    assert forall p: nat :: 0 < p < |line| + 1 ==> !MatchesAt(line, key, p) by {
      forall p: nat | 0 < p < |line| + 1 && MatchesAt(line, key, p) ensures false {
        BestMatchAt(line, key, p);
      }
    }
    CaptureBelowSkips(line, key, |line| + 1);
    assert OpeningQuote(line, key, 0) == Some(|key| + 1) by {
      assert line[|key|..|key|] == [] && line[|key| + 1..|key| + 1] == [];
      OpeningQuoteExact(line, key, 0, |key|, |key| + 1);
    }
    assert LastQuote(line) == Some(e);
  }

  /** Positions where the test fails are passed over: with none of them
      between 1 and n, trying below n comes down to trying at 0. */
  lemma {:induction false} CaptureBelowSkips(line: string, key: string, n: nat)
    requires 1 <= n <= |line| + 1
    requires forall p: nat :: 0 < p < n ==> !MatchesAt(line, key, p)
    ensures CaptureBelow(line, key, n) == CaptureBelow(line, key, 1)
    decreases n
  {
    if n > 1 {
      CaptureBelowSkips(line, key, n - 1);
    }
  }

  /** A setup.py line KEY="VALUE", with no quotes in the key or the value,
      captures the value. */
  lemma QuotedValueCaptured(line: string, key: string, value: string)
    requires line == key + "=\"" + value + "\","
    requires NoQuotes(key) && NoQuotes(value)
    ensures Capture(line, key) == Some(value)
  {
    var q0, e0 := |key| + 1, |key| + 2 + |value|;
    assert line[..|key|] == key;
    assert line[|key|] == '=' && line[q0] == '"' && line[e0] == '"' && line[e0 + 1] == ',';
    forall k | 0 <= k < |line| && k != q0 && k != e0 ensures !IsQuote(line[k]) {
      if k < |key| { assert line[k] == key[k]; }
      else if q0 < k < e0 { assert line[k] == value[k - q0 - 1]; }
    }
    assert line[q0 + 1..e0] == value;
    CaptureAtStart(line, key, e0);
  }

  /** The group is greedy: on KEY="A"B", with the key only at the start,
      it runs to the last quote and captures A"B. */
  lemma GroupRunsToLastQuote(line: string, key: string, a: string, b: string)
    requires line == key + "=\"" + a + "\"" + b + "\""
    requires NoQuotes(key) && NoQuotes(a) && NoQuotes(b)
    requires forall p: nat :: 0 < p ==> !OccursAt(line, key, p)
    ensures Capture(line, key) == Some(a + "\"" + b)
  {
    var q0, e0 := |key| + 1, |key| + 3 + |a| + |b|;
    assert line[..|key|] == key;
    assert line[|key|] == '=' && line[q0] == '"' && line[e0] == '"';
    assert line[q0 + 1..e0] == a + "\"" + b;
    CaptureAtStart(line, key, e0);
  }

  /** A line missing some character of the key does not match. */
  lemma CaptureWithoutKey(line: string, key: string, k: nat)
    requires k < |key| && key[k] !in line
    ensures Capture(line, key) == None
  {
    forall p: nat | p + |key| <= |line| ensures !OccursAt(line, key, p) {
      assert line[p..p + |key|][k] == line[p + k];
    }
    CaptureIsPreferredMatch(line, key);
  }

  /** A first line that captures nothing for the key followed by one that
      captures a non-empty value settles the key on that value. */
  lemma SecondLineSettles(lines: seq<string>, key: string, value: string)
    requires |lines| > 1 && value != []
    requires Capture(Strip(lines[0]), key) == None && Capture(Strip(lines[1]), key) == Some(value)
    ensures Settled(lines, key) == value
  {
    var cs := Captures(lines, key);
    assert FirstFilled(cs, 1) by {
      assert cs[0] == Capture(Strip(lines[0]), key);
      assert cs[1] == Capture(Strip(lines[1]), key);
    }
    FirstFilledSettles(cs, 1);
  }

  /** An indented line KEY="VALUE", captures VALUE for its key and nothing
      for another key with a character the line lacks. */
  lemma IndentedAssignment(indent: string, key: string, value: string, other: string, k: nat)
    requires AllWhitespace(indent) && key != [] && !IsWhitespace(key[0])
    requires NoQuotes(key) && NoQuotes(value)
    requires k < |other| && other[k] !in key && other[k] !in value && other[k] !in "=\","
    ensures Capture(Strip(indent + key + "=\"" + value + "\","), key) == Some(value)
    ensures Capture(Strip(indent + key + "=\"" + value + "\","), other) == None
  {
    var s := key + "=\"" + value + "\",";
    IndentedStrips(indent, key, value);
    QuotedValueCaptured(s, key, value);
    AbsentFromAssignment(key, value, other[k]);
    CaptureWithoutKey(s, other, k);
  }

  /** Stripping an indented KEY="VALUE", leaves KEY="VALUE",. */
  lemma IndentedStrips(indent: string, key: string, value: string)
    requires AllWhitespace(indent) && key != [] && !IsWhitespace(key[0])
    ensures Strip(indent + key + "=\"" + value + "\",") == key + "=\"" + value + "\","
  {
    var s := key + "=\"" + value + "\",";
    assert indent + key + "=\"" + value + "\"," == indent + s;
    assert s[0] == key[0] && s[|s| - 1] == ',';
    StripIndented(indent, s);
  }

  /** A character of neither the key, the value nor the punctuation is
      absent from KEY="VALUE",. */
  lemma AbsentFromAssignment(key: string, value: string, x: char)
    requires x !in key && x !in value && x !in "=\","
    ensures x !in key + "=\"" + value + "\","
  {
    var s := key + "=\"" + value + "\",";
    forall i | 0 <= i < |s| ensures s[i] != x {
      if i < |key| {
        assert s[i] == key[i];
      } else if |key| + 2 <= i < |key| + 2 + |value| {
        assert s[i] == value[i - |key| - 2];
      }
    }
  }

  /** Line 12 of the registry's own setup.py, name="mypi", indented by eight
      spaces, captures mypi for the name and nothing for the version. */
  lemma NameLineCaptures(indent: string, name: string)
    requires indent == "        " && name == "mypi"
    ensures Capture(Strip(indent + "name" + "=\"" + name + "\","), "name") == Some(name)
    ensures Capture(Strip(indent + "name" + "=\"" + name + "\","), "version") == None
  {
    IndentedAssignment(indent, "name", name, "version", 0);
  }

  /** Line 13, version="0.0.3", captures 0.0.3 for the version. */
  lemma VersionLineCaptures(indent: string, version: string)
    requires indent == "        " && version == "0.0.3"
    ensures Capture(Strip(indent + "version" + "=\"" + version + "\","), "version") == Some(version)
  {
    IndentedAssignment(indent, "version", version, "name", 2);
  }

  /** Line 12 of the registry's own setup.py, name="mypi", indented by eight
      spaces, settles the name on mypi whatever follows it. */
  lemma SetupPyName(lines: seq<string>, indent: string, value: string)
    requires indent == "        " && value == "mypi"
    requires |lines| > 0 && lines[0] == indent + "name" + "=\"" + value + "\","
    ensures Settled(lines, "name") == "mypi"
  {
    NameLineCaptures(indent, value);
    var names := Captures(lines, "name");
    assert FirstFilled(names, 0);
    FirstFilledSettles(names, 0);
  }

  /** Line 13 of the registry's own setup.py, version="0.0.3", after line
      12, which holds no version, settles the version on 0.0.3 whatever
      follows. */
  lemma SetupPyVersion(lines: seq<string>, indent: string, name: string, version: string)
    requires indent == "        " && name == "mypi" && version == "0.0.3"
    requires |lines| > 1 && lines[0] == indent + "name" + "=\"" + name + "\","
    requires lines[1] == indent + "version" + "=\"" + version + "\","
    ensures Settled(lines, "version") == "0.0.3"
  {
    NameLineCaptures(indent, name);
    VersionLineCaptures(indent, version);
    SecondLineSettles(lines, "version", version);
  }
}
