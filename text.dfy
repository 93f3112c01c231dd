/** The handful of Python 2 byte-string operations the registry relies on,
    written out over `string`: strip, startswith/endswith, split, join,
    replace (with an empty replacement), lower and the built-in ordering of
    strings. */
module Text {
  import opened Base

  /** The characters Python 2's str.strip() removes by default. */
  predicate IsWhitespace(c: char) {
    c == ' ' || c == '\t' || c == '\n' || c == '\r' || c as int == 11 || c as int == 12
  }

  predicate AllWhitespace(s: string) {
    forall i :: 0 <= i < |s| ==> IsWhitespace(s[i])
  }

  /** str.lstrip(): the suffix left after dropping leading whitespace. */
  function TrimStart(s: string): (r: string)
    ensures |r| <= |s| && r == s[|s| - |r|..]
    ensures forall i :: 0 <= i < |s| - |r| ==> IsWhitespace(s[i])
    ensures r == [] || !IsWhitespace(r[0])
  {
    if s == [] || !IsWhitespace(s[0]) then s
    else TrimStart(s[1..])
  }

  /** str.rstrip(): the prefix left after dropping trailing whitespace. */
  function TrimEnd(s: string): (r: string)
    ensures |r| <= |s| && r == s[..|r|]
    ensures AllWhitespace(s[|r|..])
    ensures r == [] || !IsWhitespace(r[|r| - 1])
  {
    if s == [] || !IsWhitespace(s[|s| - 1]) then s
    else
      var r := TrimEnd(s[..|s| - 1]);
      assert s[..|s| - 1][..|r|] == s[..|r|];
      r
  }

  /** str.strip() */
  function Strip(s: string): string {
    TrimEnd(TrimStart(s))
  }

  /** A string that starts and ends with a non-whitespace character is left
      alone by Strip. */
  lemma StripUnchanged(s: string)
    requires s == [] || (!IsWhitespace(s[0]) && !IsWhitespace(s[|s| - 1]))
    ensures Strip(s) == s
  {
  }

  /** Leading whitespace before a string with non-whitespace ends is
      stripped away. */
  lemma {:induction false} StripIndented(indent: string, s: string)
    requires AllWhitespace(indent)
    requires s != [] && !IsWhitespace(s[0]) && !IsWhitespace(s[|s| - 1])
    ensures Strip(indent + s) == s
    decreases |indent|
  {
    if indent == [] {
      assert indent + s == s;
      StripUnchanged(s);
    } else {
      assert (indent + s)[1..] == indent[1..] + s;
      StripIndented(indent[1..], s);
    }
  }

  predicate StartsWith(s: string, prefix: string) {
    |prefix| <= |s| && s[..|prefix|] == prefix
  }

  predicate EndsWith(s: string, suffix: string) {
    |suffix| <= |s| && s[|s| - |suffix|..] == suffix
  }

  /** str.find(c) for one character: the first index holding c. */
  function IndexOf(s: string, c: char): (r: Option<nat>)
    ensures r.None? <==> c !in s
    ensures r.Some? ==> r.value < |s| && s[r.value] == c && c !in s[..r.value]
  {
    if s == [] then None
    else if s[0] == c then Some(0)
    else match IndexOf(s[1..], c)
      case None => None
      case Some(i) =>
        assert s[..i + 1] == [s[0]] + s[1..][..i];
        Some(i + 1)
  }

  /** str.split(c) for a one-character separator: never empty, and no piece
      holds the separator. */
  function Split(s: string, c: char): (r: seq<string>)
    ensures |r| >= 1
    ensures forall k :: 0 <= k < |r| ==> c !in r[k]
    decreases |s|
  {
    match IndexOf(s, c)
    case None => [s]
    case Some(i) => [s[..i]] + Split(s[i + 1..], c)
  }

  /** The split has a second piece exactly when the separator occurs. */
  lemma SplitPieces(s: string, c: char)
    ensures |Split(s, c)| >= 2 <==> c in s
  {
  }

  /** c.join(xs) */
  function Join(xs: seq<string>, c: char): string {
    if xs == [] then ""
    else if |xs| == 1 then xs[0]
    else xs[0] + [c] + Join(xs[1..], c)
  }

  /** Joining the pieces of a split gives back the original string. */
  lemma {:induction false} JoinSplit(s: string, c: char)
    ensures Join(Split(s, c), c) == s
    decreases |s|
  {
    match IndexOf(s, c)
    case None =>
    case Some(i) =>
      var xs := Split(s, c);
      var rest := Split(s[i + 1..], c);
      assert xs == [s[..i]] + rest;
      assert xs[1..] == rest;
      assert Join(xs, c) == s[..i] + [c] + Join(rest, c);
      JoinSplit(s[i + 1..], c);
      assert s == s[..i] + [c] + s[i + 1..];
  }

  /** The first occurrence of c in a + [c] + b is the one after a when a has none. */
  lemma IndexOfAfter(a: string, c: char, b: string)
    requires c !in a
    ensures IndexOf(a + [c] + b, c) == Some(|a|)
  {
    var s := a + [c] + b;
    assert s[|a|] == c;
    assert s[..|a|] == a;
  }

  /** Splitting a join of separator-free pieces gives back the pieces. */
  lemma {:induction false} SplitJoin(xs: seq<string>, c: char)
    requires |xs| >= 1
    requires forall k :: 0 <= k < |xs| ==> c !in xs[k]
    ensures Split(Join(xs, c), c) == xs
    decreases |xs|
  {
    if |xs| > 1 {
      var rest := Join(xs[1..], c);
      var s := xs[0] + [c] + rest;
      assert Join(xs, c) == s;
      IndexOfAfter(xs[0], c, rest);
      assert s[..|xs[0]|] == xs[0];
      assert s[|xs[0]| + 1..] == rest;
      assert Split(s, c) == [xs[0]] + Split(rest, c);
      SplitJoin(xs[1..], c);
      assert xs == [xs[0]] + xs[1..];
    }
  }

  /** Without a separator in n or last, n + [c] + last splits in two. */
  lemma SplitAroundOnly(n: string, c: char, last: string)
    requires c !in n && c !in last
    ensures Split(n + [c] + last, c) == [n, last]
  {
    var s := n + [c] + last;
    IndexOfAfter(n, c, last);
    assert s[..|n|] == n;
    assert s[|n| + 1..] == last;
  }

  /** A separator at i in n cuts off n[..i] from n + [c] + last. */
  lemma SplitFirstPiece(n: string, c: char, last: string, i: nat)
    requires IndexOf(n, c) == Some(i)
    ensures Split(n + [c] + last, c) == [n[..i]] + Split(n[i + 1..] + [c] + last, c)
  {
    var s := n + [c] + last;
    assert s[..i] == n[..i];
    assert s[i] == c;
    assert IndexOf(s, c) == Some(i);
    assert s[i + 1..] == n[i + 1..] + [c] + last;
  }

  /** Splitting n + [c] + last, where last has no separator, splits n and
      ends with last. */
  lemma {:induction false} SplitAppend(n: string, c: char, last: string)
    requires c !in last
    ensures Split(n + [c] + last, c) == Split(n, c) + [last]
    decreases |n|
  {
    match IndexOf(n, c)
    case None =>
      SplitAroundOnly(n, c, last);
      assert Split(n, c) == [n];
    case Some(i) =>
      SplitAppend(n[i + 1..], c, last);
      SplitAppendStep(n, c, last, i);
  }

  /** The inductive step of SplitAppend at the first separator i of n. */
  lemma SplitAppendStep(n: string, c: char, last: string, i: nat)
    requires IndexOf(n, c) == Some(i)
    requires Split(n[i + 1..] + [c] + last, c) == Split(n[i + 1..], c) + [last]
    ensures Split(n + [c] + last, c) == Split(n, c) + [last]
  {
    var head, rest := n[..i], Split(n[i + 1..], c);
    assert Split(n + [c] + last, c) == [head] + (rest + [last]) by {
      SplitFirstPiece(n, c, last, i);
    }
    assert Split(n, c) == [head] + rest;
    FrontAndBack(head, rest, last);
  }

  /** s.replace(p, "") for a non-empty p: occurrences are removed left to
      right without overlapping. */
  function RemoveAll(s: string, p: string): (r: string)
    requires |p| > 0
    ensures |r| <= |s|
    decreases |s|
  {
    if |s| < |p| then s
    else if s[..|p|] == p then RemoveAll(s[|p|..], p)
    else [s[0]] + RemoveAll(s[1..], p)
  }

  /** p occurs in s starting at index i. */
  predicate OccursAt(s: string, p: string, i: nat) {
    i + |p| <= |s| && s[i..i + |p|] == p
  }

  /** p occurs in s at some index. */
  ghost predicate Occurs(s: string, p: string) {
    exists i: nat :: OccursAt(s, p, i)
  }

  /** Removing a pattern that does not occur leaves the string unchanged. */
  lemma {:induction false} RemoveAllAbsent(s: string, p: string)
    requires |p| > 0 && !Occurs(s, p)
    ensures RemoveAll(s, p) == s
    decreases |s|
  {
    if |s| >= |p| {
      assert !OccursAt(s, p, 0);
      assert !Occurs(s[1..], p) by {
        forall i: nat | i + |p| <= |s| - 1
          ensures !OccursAt(s[1..], p, i)
        {
          assert s[1..][i..i + |p|] == s[i + 1..i + 1 + |p|];
          assert !OccursAt(s, p, i + 1);
        }
      }
      RemoveAllAbsent(s[1..], p);
    }
  }

  /** Removing p from x + p gives x back when no occurrence of p starts
      inside x. */
  lemma {:induction false} RemoveAllAppended(x: string, p: string)
    requires |p| > 0 && !Occurs(x + p[..|p| - 1], p)
    ensures RemoveAll(x + p, p) == x
    decreases |x|
  {
    var s := x + p;
    if x == [] {
      assert s == p && s[|p|..] == [];
    } else {
      var t := x + p[..|p| - 1];
      assert t[0..|p|] == s[..|p|];
      assert !OccursAt(t, p, 0);
      assert s[1..] == x[1..] + p;
      var u := x[1..] + p[..|p| - 1];
      assert u == t[1..];
      assert !Occurs(u, p) by {
        forall i: nat | i + |p| <= |u|
          ensures !OccursAt(u, p, i)
        {
          assert t[1..][i..i + |p|] == t[i + 1..i + 1 + |p|];
          assert !OccursAt(t, p, i + 1);
        }
      }
      RemoveAllAppended(x[1..], p);
    }
  }

  /** ".tar.gz" cannot start inside a text without a 't'. */
  lemma NoArchiveSuffixInside(x: string)
    requires 't' !in x
    ensures !Occurs(x + ".tar.g", ".tar.gz")
  {
    var s := x + ".tar.g";
    forall i: nat ensures !OccursAt(s, ".tar.gz", i) {
      if i + 7 <= |s| {
        assert s[i..i + 7][1] == s[i + 1];
        if i + 1 < |x| {
          assert s[i + 1] == x[i + 1];
        } else {
          assert s[i + 1] == '.';
        }
      }
    }
  }

  /** Python 2 byte-string lower(): ASCII letters only. */
  function LowerChar(c: char): char {
    if 'A' <= c <= 'Z' then (c as int + 32) as char else c
  }

  function Lower(s: string): (r: string)
    ensures |r| == |s|
  {
    seq(|s|, i requires 0 <= i < |s| => LowerChar(s[i]))
  }

  /** A string without upper-case letters is its own lower-case form. */
  lemma LowerUnchanged(s: string)
    requires forall i :: 0 <= i < |s| ==> !('A' <= s[i] <= 'Z')
    ensures Lower(s) == s
  {
  }

  /** Python's built-in ordering of byte strings: element-wise by character
      code, a proper prefix before the longer string. */
  function CmpLex(a: string, b: string): Ordering {
    if a == [] && b == [] then Eq
    else if a == [] then Lt
    else if b == [] then Gt
    else if a[0] < b[0] then Lt
    else if a[0] > b[0] then Gt
    else CmpLex(a[1..], b[1..])
  }

  /** Swapping the operands flips the outcome. */
  lemma {:induction false} CmpLexFlip(a: string, b: string)
    ensures CmpLex(b, a) == CmpLex(a, b).Flip()
  {
    if a != [] && b != [] && a[0] == b[0] {
      CmpLexFlip(a[1..], b[1..]);
    }
  }

  /** Strings compare Eq exactly when they are equal. */
  lemma {:induction false} CmpLexEq(a: string, b: string)
    ensures CmpLex(a, b) == Eq <==> a == b
  {
    if a != [] && b != [] && a[0] == b[0] {
      CmpLexEq(a[1..], b[1..]);
      assert a == [a[0]] + a[1..] && b == [b[0]] + b[1..];
    }
  }

  lemma {:induction false} CmpLexTrans(a: string, b: string, c: string)
    ensures TransLaw(CmpLex(a, b), CmpLex(b, c), CmpLex(a, c))
  {
    if a != [] && b != [] && c != [] && a[0] == b[0] == c[0] {
      CmpLexTrans(a[1..], b[1..], c[1..]);
    }
  }
}
