/**
 * The Python string operations the pipeline relies on, written out:
 * str.find, str.split(sep), sep.join, str.replace, str.split() on runs of
 * whitespace, str.strip(), re.split on a character class, and the
 * code-point ordering Python uses to compare strings.
 */
module Strings {
  import opened Wrappers

  /** pat occurs in s starting at index i. */
  predicate OccursAt(s: string, pat: string, i: nat) {
    i + |pat| <= |s| && s[i..i + |pat|] == pat
  }

  /** Python's `pat in s`. */
  predicate Contains(s: string, pat: string) {
    exists i: nat | i <= |s| :: OccursAt(s, pat, i)
  }

  /** Python's s.find(pat, from), with -1 as None: the leftmost occurrence at or after from. */
  function FindFrom(s: string, pat: string, from: nat): (r: Option<nat>)
    decreases |s| - from
    ensures r.Some? ==> from <= r.value && OccursAt(s, pat, r.value)
    ensures forall j: nat :: from <= j && (r.None? || j < r.value) ==> !OccursAt(s, pat, j)
  {
    if from + |pat| > |s| then None
    else if s[from..from + |pat|] == pat then Some(from)
    else FindFrom(s, pat, from + 1)
  }

  /** An occurrence inside a prefix is an occurrence in the whole string. */
  lemma OccursInPrefix(s: string, pat: string, k: nat, j: nat)
    requires k <= |s| && OccursAt(s[..k], pat, j)
    ensures OccursAt(s, pat, j) && j + |pat| <= k
  {
    assert s[..k][j..j + |pat|] == s[j..j + |pat|];
  }

  /** An occurrence inside a suffix is an occurrence in the whole string, shifted. */
  lemma OccursInSuffix(s: string, pat: string, k: nat, j: nat)
    requires k <= |s| && OccursAt(s[k..], pat, j)
    ensures OccursAt(s, pat, k + j)
  {
    assert s[k..][j..j + |pat|] == s[k + j..k + j + |pat|];
  }

  /** sep.join(parts). */
  function Join(parts: seq<string>, sep: string): string {
    if |parts| == 0 then ""
    else if |parts| == 1 then parts[0]
    else parts[0] + sep + Join(parts[1..], sep)
  }

  /**
   * Python's s.split(sep) for a non-empty separator: the pieces between the
   * leftmost non-overlapping occurrences of sep. Joining the pieces with sep
   * gives s back, and no piece contains sep.
   */
  function Split(s: string, sep: string): (r: seq<string>)
    requires |sep| > 0
    decreases |s|
    ensures |r| >= 1
    ensures Join(r, sep) == s
    ensures forall i :: 0 <= i < |r| ==> !Contains(r[i], sep)
  {
    match FindFrom(s, sep, 0)
    case None => [s]
    case Some(k) =>
      var rest := Split(s[k + |sep|..], sep);
      assert !Contains(s[..k], sep) by {
        forall j: nat | OccursAt(s[..k], sep, j) ensures false {
          OccursInPrefix(s, sep, k, j);
        }
      }
      assert s == s[..k] + sep + s[k + |sep|..];
      [s[..k]] + rest
  }

  /** An occurrence in a suffix is the occurrence in the whole string shifted by the suffix's start, and back. */
  lemma OccursShift(s: string, pat: string, k: nat, j: nat)
    requires k <= |s|
    ensures OccursAt(s[k..], pat, j) <==> OccursAt(s, pat, k + j)
  {
    if k + j + |pat| <= |s| {
      assert s[k..][j..j + |pat|] == s[k + j..k + j + |pat|];
    }
  }

  /**
   * The first piece of a split runs up to the leftmost occurrence of the
   * separator, or is the whole string when there is none.
   */
  lemma SplitFirst(s: string, sep: string) returns (first: string, more: bool)
    requires |sep| > 0
    ensures first == Split(s, sep)[0] && more == (|Split(s, sep)| >= 2)
    ensures |first| <= |s| && first == s[..|first|]
    ensures forall j :: 0 <= j < |first| ==> !OccursAt(s, sep, j)
    ensures !more ==> first == s
    ensures more ==> OccursAt(s, sep, |first|)
  {
    first, more := Split(s, sep)[0], |Split(s, sep)| >= 2;
    match FindFrom(s, sep, 0)
    case None =>
    case Some(k) =>
      assert first == s[..k];
  }

  /** The pieces after the first are the split of what follows the leftmost separator. */
  lemma SplitRest(s: string, sep: string)
    requires |sep| > 0 && |Split(s, sep)| >= 2
    ensures |Split(s, sep)[0]| + |sep| <= |s|
    ensures Split(s, sep)[1..] == Split(s[|Split(s, sep)[0]| + |sep|..], sep)
  {
    match FindFrom(s, sep, 0)
    case None =>
    case Some(k) =>
      assert Split(s, sep)[0] == s[..k];
  }

  /** A string without the separator splits into itself alone. */
  lemma SplitNoSeparator(s: string, sep: string)
    requires |sep| > 0 && !Contains(s, sep)
    ensures Split(s, sep) == [s]
  {
    match FindFrom(s, sep, 0)
    case None =>
    case Some(k) => assert false;
  }

  /** Python's s.replace(pat, rep): every leftmost non-overlapping occurrence of pat is replaced. */
  function ReplaceAll(s: string, pat: string, rep: string): (r: string)
    requires |pat| > 0
    decreases |s|
    ensures |rep| <= |pat| ==> |r| <= |s|
  {
    if |s| < |pat| then s
    else if s[..|pat|] == pat then rep + ReplaceAll(s[|pat|..], pat, rep)
    else [s[0]] + ReplaceAll(s[1..], pat, rep)
  }

  /** Replacing a pattern that does not occur changes nothing. */
  lemma {:induction false} ReplaceAbsent(s: string, pat: string, rep: string)
    requires |pat| > 0 && !Contains(s, pat)
    ensures ReplaceAll(s, pat, rep) == s
  {
    if |s| >= |pat| {
      assert !OccursAt(s, pat, 0);
      assert !Contains(s[1..], pat) by {
        forall j: nat | OccursAt(s[1..], pat, j) ensures false {
          OccursInSuffix(s, pat, 1, j);
        }
      }
      ReplaceAbsent(s[1..], pat, rep);
    }
  }

  /** Removing every occurrence of a one-character pattern leaves no such character. */
  lemma {:induction false} ReplaceCharGone(s: string, c: char)
    ensures c !in ReplaceAll(s, [c], "")
    decreases |s|
  {
    if |s| >= 1 {
      ReplaceCharGone(s[1..], c);
    }
  }

  /** re.split on a character class: one piece more than there are separator characters. */
  function SplitAny(s: string, seps: set<char>): (r: seq<string>)
    ensures |r| == CountIn(s, seps) + 1
    ensures forall i, j :: 0 <= i < |r| && 0 <= j < |r[i]| ==> r[i][j] !in seps
    ensures Concat(r) == RemoveAll(s, seps)
  {
    if s == [] then [""]
    else
      var rest := SplitAny(s[1..], seps);
      if s[0] in seps then [""] + rest
      else [[s[0]] + rest[0]] + rest[1..]
  }

  /** Number of characters of s that lie in cs. */
  function CountIn(s: string, cs: set<char>): nat {
    if s == [] then 0 else (if s[0] in cs then 1 else 0) + CountIn(s[1..], cs)
  }

  /** s without the characters that lie in cs. */
  function RemoveAll(s: string, cs: set<char>): string {
    if s == [] then [] else (if s[0] in cs then [] else [s[0]]) + RemoveAll(s[1..], cs)
  }

  /** The concatenation of a list of strings, ''.join(parts). */
  function Concat(parts: seq<string>): string {
    if parts == [] then [] else parts[0] + Concat(parts[1..])
  }

  /** The characters Python's str.isspace() accepts. */
  const Whitespace: set<char> := {
    ' ', '\t', '\n', '\r', '\U{0B}', '\U{0C}', '\U{1C}', '\U{1D}', '\U{1E}', '\U{1F}',
    '\U{85}', '\U{A0}', '\U{1680}', '\U{2000}', '\U{2001}', '\U{2002}', '\U{2003}',
    '\U{2004}', '\U{2005}', '\U{2006}', '\U{2007}', '\U{2008}', '\U{2009}', '\U{200A}',
    '\U{2028}', '\U{2029}', '\U{202F}', '\U{205F}', '\U{3000}'
  }

  predicate IsSpace(c: char) { c in Whitespace }

  /** The first index at or after i that holds whitespace, or |s|. */
  function WordEnd(s: string, i: nat): (k: nat)
    requires i <= |s|
    decreases |s| - i
    ensures i <= k <= |s|
    ensures forall j :: i <= j < k ==> !IsSpace(s[j])
    ensures k < |s| ==> IsSpace(s[k])
  {
    if i == |s| || IsSpace(s[i]) then i else WordEnd(s, i + 1)
  }

  /** Python's s.split() with no argument: the maximal runs of non-whitespace, in order. */
  function SplitWs(s: string): (r: seq<string>)
    decreases |s|
    ensures forall i :: 0 <= i < |r| ==> |r[i]| > 0 && forall j :: 0 <= j < |r[i]| ==> !IsSpace(r[i][j])
  {
    if s == [] then []
    else if IsSpace(s[0]) then SplitWs(s[1..])
    else
      var k := WordEnd(s, 0);
      [s[..k]] + SplitWs(s[k..])
  }

  /** Splitting a string that has no whitespace and is not empty gives the string itself. */
  lemma SplitWsWord(s: string)
    requires |s| > 0 && forall j :: 0 <= j < |s| ==> !IsSpace(s[j])
    ensures SplitWs(s) == [s]
  {
    assert WordEnd(s, 0) == |s|;
    assert s[..|s|] == s && s[|s|..] == [];
  }

  /** Python's s.lstrip(). */
  function LStrip(s: string): (r: string)
    ensures |r| <= |s| && r == s[|s| - |r|..]
    ensures r == [] || !IsSpace(r[0])
    ensures forall j :: 0 <= j < |s| - |r| ==> IsSpace(s[j])
  {
    if s != [] && IsSpace(s[0]) then
      var t := LStrip(s[1..]);
      assert forall j :: 1 <= j < |s| - |t| ==> s[j] == s[1..][j - 1];
      t
    else s
  }

  /** Python's s.rstrip(). */
  function RStrip(s: string): (r: string)
    ensures |r| <= |s| && r == s[..|r|]
    ensures r == [] || !IsSpace(r[|r| - 1])
    ensures forall j :: |r| <= j < |s| ==> IsSpace(s[j])
  {
    if s != [] && IsSpace(s[|s| - 1]) then
      var t := RStrip(s[..|s| - 1]);
      assert forall j :: |t| <= j < |s| - 1 ==> s[j] == s[..|s| - 1][j];
      t
    else s
  }

  /** s neither starts nor ends with whitespace. */
  predicate Trimmed(s: string) {
    s == [] || (!IsSpace(s[0]) && !IsSpace(s[|s| - 1]))
  }

  /** Python's s.strip(): s with its leading and trailing whitespace removed. */
  function Strip(s: string): (r: string)
    ensures Trimmed(r)
    ensures r == [] <==> forall j :: 0 <= j < |s| ==> IsSpace(s[j])
  {
    var l := LStrip(s);
    var r := RStrip(l);
    assert r != [] ==> r[0] == l[0];
    assert l == [] ==> r == [];
    assert l != [] ==> !IsSpace(s[|s| - |l|]);
    r
  }

  /** Every character of a stripped string comes from the string it was stripped from. */
  lemma StripInside(s: string, j: nat)
    requires j < |Strip(s)|
    ensures Strip(s)[j] in s
  {
    var l := LStrip(s);
    assert Strip(s) == RStrip(l);
    assert RStrip(l)[j] == l[j];
    assert l[j] == s[|s| - |l| + j];
  }

  /** Python's comparison a <= b on str: lexicographic on code points. */
  predicate StrLe(a: string, b: string) {
    a == [] || (b != [] && (a[0] < b[0] || (a[0] == b[0] && StrLe(a[1..], b[1..]))))
  }

  lemma {:induction false} StrLeTotal(a: string, b: string)
    ensures StrLe(a, b) || StrLe(b, a)
  {
    if a != [] && b != [] && a[0] == b[0] {
      StrLeTotal(a[1..], b[1..]);
    }
  }

  lemma {:induction false} StrLeTransitive(a: string, b: string, c: string)
    requires StrLe(a, b) && StrLe(b, c)
    ensures StrLe(a, c)
  {
    if a != [] && b != [] && c != [] && a[0] == b[0] && b[0] == c[0] {
      StrLeTransitive(a[1..], b[1..], c[1..]);
    }
  }

  lemma {:induction false} StrLeAntisymmetric(a: string, b: string)
    requires StrLe(a, b) && StrLe(b, a)
    ensures a == b
  {
    if a != [] && b != [] {
      StrLeAntisymmetric(a[1..], b[1..]);
      assert a == [a[0]] + a[1..] && b == [b[0]] + b[1..];
    }
  }
}
