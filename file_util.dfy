/**
 * The file helpers of FileUtil that hold logic: path_leaf (the last
 * component of a Windows or POSIX path, through ntpath.split and
 * ntpath.basename), the line parsing of load_tuple_list_from_file and the
 * sentence grouping of load_sent_term_dict_from_acl_rd_tec_file. Reading
 * the files is left to the caller: they receive the lines or the rows.
 */
module FileUtil {
  import opened Wrappers
  import opened Strings
  import opened Dicts

  // ---------------------------------------------------------------------
  // path_leaf
  // ---------------------------------------------------------------------

  /** ntpath accepts both separators. */
  predicate IsSep(c: char) {
    c == '/' || c == '\\'
  }

  predicate NoSep(s: string) {
    forall k :: 0 <= k < |s| ==> !IsSep(s[k])
  }

  predicate AllSeps(s: string) {
    forall k :: 0 <= k < |s| ==> IsSep(s[k])
  }

  /** normp.find(sep, from) on the path with '/' turned into '\\'. */
  function FindSep(s: string, from: nat): (r: Option<nat>)
    decreases |s| - from
    ensures r.Some? ==> from <= r.value < |s| && IsSep(s[r.value])
    ensures forall k :: from <= k < |s| && (r.None? || k < r.value) ==> !IsSep(s[k])
  {
    if from >= |s| then None
    else if IsSep(s[from]) then Some(from)
    else FindSep(s, from + 1)
  }

  /** The length of the drive ntpath.splitdrive finds: a UNC \\machine\mount, a letter and colon, or none. */
  function DriveLen(p: string): (r: nat)
    ensures r <= |p|
  {
    if |p| < 2 then 0
    else if IsSep(p[0]) && IsSep(p[1]) && !(|p| > 2 && IsSep(p[2])) then
      match FindSep(p, 2)
      case None => 0
      case Some(index) =>
        match FindSep(p, index + 1)
        case None => |p|
        case Some(index2) => if index2 == index + 1 then 0 else index2
    else if p[1] == ':' then 2
    else 0
  }

  /** The index just past the last separator, or 0 when there is none. */
  function LastSepEnd(s: string): (r: nat)
    ensures r <= |s|
    ensures r == 0 || IsSep(s[r - 1])
    ensures NoSep(s[r..])
  {
    if s == [] then 0
    else if IsSep(s[|s| - 1]) then |s|
    else
      var r := LastSepEnd(s[..|s| - 1]);
      assert s[r..] == s[..|s| - 1][r..] + [s[|s| - 1]];
      r
  }

  /** head.rstrip(seps): the longest prefix not ending in a separator. */
  function RStripSeps(s: string): (r: string)
    ensures |r| <= |s| && r == s[..|r|]
    ensures r == [] || !IsSep(r[|r| - 1])
    ensures AllSeps(s[|r|..])
  {
    if s != [] && IsSep(s[|s| - 1]) then
      var r := RStripSeps(s[..|s| - 1]);
      assert s[|r|..] == s[..|s| - 1][|r|..] + [s[|s| - 1]];
      r
    else s
  }

  /** ntpath.split: (drive + head without trailing separators unless all separators, tail). */
  function SplitPath(p: string): (r: (string, string))
    ensures NoSep(r.1)
    ensures |r.1| <= |p| && r.1 == p[|p| - |r.1|..]
  {
    var d := DriveLen(p);
    var rest := p[d..];
    var i := LastSepEnd(rest);
    var head := rest[..i];
    var stripped := RStripSeps(head);
    assert rest[i..] == p[d + i..];
    (p[..d] + (if stripped == [] then head else stripped), rest[i..])
  }

  /** The head ntpath.split returns is a prefix of the path. */
  lemma SplitHead(p: string)
    ensures |SplitPath(p).0| <= |p| && SplitPath(p).0 == p[..|SplitPath(p).0|]
  {
    var d := DriveLen(p);
    var rest := p[d..];
    var i := LastSepEnd(rest);
    var head := rest[..i];
    var stripped := RStripSeps(head);
    var kept := if stripped == [] then head else stripped;
    assert kept == rest[..|kept|];
    assert SplitPath(p).0 == p[..d] + kept;
    PrefixThenPrefix(p, d, kept);
  }

  /** The first d letters followed by a prefix of what follows them form a prefix. */
  lemma PrefixThenPrefix(p: string, d: nat, t: string)
    requires d <= |p| && |t| <= |p| - d && t == p[d..][..|t|]
    ensures p[..d] + t == p[..d + |t|]
  {
  }

  /** path_leaf: tail or ntpath.basename(head); never a separator, never longer than the path. */
  function PathLeaf(path: string): (r: string)
    ensures NoSep(r) && |r| <= |path|
  {
    var (head, tail) := SplitPath(path);
    if tail != [] then tail else SplitPath(head).1
  }

  /** path_leaf is a piece of the path. */
  lemma PathLeafPiece(path: string)
    ensures exists k, m :: 0 <= k <= m <= |path| && PathLeaf(path) == path[k..m]
  {
    var (head, tail) := SplitPath(path);
    if tail != [] {
      assert PathLeaf(path) == path[|path| - |tail|..|path|];
    } else {
      SplitHead(path);
      var t := SplitPath(head).1;
      assert t == head[|head| - |t|..];
      assert PathLeaf(path) == path[|head| - |t|..|head|];
    }
  }

  /**
   * For a path that does not end in a separator, path_leaf is the text after
   * the last separator, or after the drive when the rest holds none.
   */
  lemma PathLeafAfterLastSep(path: string)
    requires DriveLen(path) < |path| && !IsSep(path[|path| - 1])
    ensures exists k :: DriveLen(path) <= k < |path| && PathLeaf(path) == path[k..] &&
              (k == DriveLen(path) || IsSep(path[k - 1]))
  {
    var d := DriveLen(path);
    var rest := path[d..];
    var i := LastSepEnd(rest);
    assert rest[|rest| - 1] == path[|path| - 1];
    assert i < |rest|;
    assert rest[i..] == path[d + i..];
    assert i == 0 || path[d + i - 1] == rest[i - 1];
  }

  /**
   * A prefix that ends in a non-separator and reaches past the drive has
   * the same drive as the whole path.
   */
  lemma DriveOfPrefix(p: string, q: string)
    requires |q| <= |p| && q == p[..|q|] && q != [] && !IsSep(q[|q| - 1])
    requires DriveLen(p) < |q|
    ensures DriveLen(q) == DriveLen(p)
  {
    if |q| >= 2 {
      assert q[0] == p[0] && q[1] == p[1];
      if |q| > 2 {
        assert q[2] == p[2];
      }
      if IsSep(p[0]) && IsSep(p[1]) && !(|p| > 2 && IsSep(p[2])) {
        FindSepPrefix(p, q, 2);
        match FindSep(p, 2)
        case None =>
        case Some(index) =>
          FindSepPrefix(p, q, index + 1);
      }
    }
  }

  /** In a prefix that ends in a non-separator, a search finds what it finds in the whole. */
  lemma FindSepPrefix(p: string, q: string, from: nat)
    requires |q| <= |p| && q == p[..|q|] && q != [] && !IsSep(q[|q| - 1])
    ensures FindSep(p, from).Some? && FindSep(p, from).value < |q| ==> FindSep(q, from) == FindSep(p, from)
    ensures (FindSep(p, from).None? || FindSep(p, from).value >= |q|) ==> FindSep(q, from).None?
    decreases |p| - from
  {
    if from < |q| && !IsSep(p[from]) {
      FindSepPrefix(p, q, from + 1);
    }
  }

  /**
   * ntpath.split of a path ending in a separator after a non-empty component:
   * an empty tail, the drive and the rest without its trailing separators.
   */
  lemma SplitTrailing(path: string)
    requires DriveLen(path) < |path| && IsSep(path[|path| - 1])
    requires RStripSeps(path[DriveLen(path)..]) != []
    ensures SplitPath(path) == (path[..DriveLen(path)] + RStripSeps(path[DriveLen(path)..]), [])
  {
    var rest := path[DriveLen(path)..];
    assert rest[|rest| - 1] == path[|path| - 1];
    assert LastSepEnd(rest) == |rest| && rest[..|rest|] == rest;
  }

  /** The tail ntpath.split finds: the text after the last separator that follows the drive. */
  lemma SplitTail(q: string, d: nat, rest: string)
    requires DriveLen(q) == d && q[d..] == rest
    ensures SplitPath(q).1 == rest[LastSepEnd(rest)..]
  {
  }

  /**
   * For a path that ends in separators after a non-empty component,
   * path_leaf is that last non-empty component, found after the drive.
   */
  lemma PathLeafTrailing(path: string)
    requires DriveLen(path) < |path| && IsSep(path[|path| - 1])
    requires RStripSeps(path[DriveLen(path)..]) != []
    ensures exists k, m :: DriveLen(path) <= k < m < |path| && PathLeaf(path) == path[k..m] &&
              (k == DriveLen(path) || IsSep(path[k - 1])) && AllSeps(path[m..])
  {
    TrailingLeaf(path);
    TrailingPiece(path, PathLeaf(path));
  }

  /** The last component of the stripped rest is a piece of the path ending where the trailing separators start. */
  lemma TrailingPiece(path: string, leaf: string)
    requires DriveLen(path) < |path| && IsSep(path[|path| - 1])
    requires RStripSeps(path[DriveLen(path)..]) != []
    requires var s := RStripSeps(path[DriveLen(path)..]);
      DriveLen(path) + |s| < |path| && LastSepEnd(s) < |s| && leaf == s[LastSepEnd(s)..]
    ensures exists k, m :: DriveLen(path) <= k < m < |path| && leaf == path[k..m] &&
              (k == DriveLen(path) || IsSep(path[k - 1])) && AllSeps(path[m..])
  {
    var d := DriveLen(path);
    var stripped := RStripSeps(path[d..]);
    var j := LastSepEnd(stripped);
    InnerSlice(path, leaf, d, stripped, j);
  }

  /** The last component of a path with trailing separators, as a piece of the stripped rest. */
  lemma TrailingLeaf(path: string)
    requires DriveLen(path) < |path| && IsSep(path[|path| - 1])
    requires RStripSeps(path[DriveLen(path)..]) != []
    ensures var s := RStripSeps(path[DriveLen(path)..]);
      DriveLen(path) + |s| < |path| && LastSepEnd(s) < |s| && PathLeaf(path) == s[LastSepEnd(s)..]
  {
    var d := DriveLen(path);
    var stripped := RStripSeps(path[d..]);
    var q := path[..d] + stripped;
    SplitTrailing(path);
    LeafOfEmptyTail(path, q);
    TrailingHeadDrive(path);
    SplitTail(q, d, stripped);
  }

  /** The head of a path with trailing separators keeps the path's drive. */
  lemma TrailingHeadDrive(path: string)
    requires DriveLen(path) < |path| && IsSep(path[|path| - 1])
    requires RStripSeps(path[DriveLen(path)..]) != []
    ensures var s := RStripSeps(path[DriveLen(path)..]);
      DriveLen(path) + |s| < |path| && DriveLen(path[..DriveLen(path)] + s) == DriveLen(path) &&
      (path[..DriveLen(path)] + s)[DriveLen(path)..] == s
  {
    var d := DriveLen(path);
    var rest := path[d..];
    var stripped := RStripSeps(rest);
    var q := path[..d] + stripped;
    assert rest[|rest| - 1] == path[|path| - 1];
    assert q == path[..|q|];
    assert q[|q| - 1] == stripped[|stripped| - 1];
    DriveOfPrefix(path, q);
  }

  /** With an empty tail, path_leaf is the tail of the head. */
  lemma LeafOfEmptyTail(path: string, head: string)
    requires SplitPath(path) == (head, [])
    ensures PathLeaf(path) == SplitPath(head).1
  {
  }

  /** Positions in a prefix of path[d..] are positions of path shifted by d. */
  lemma InnerSlice(p: string, piece: string, d: nat, s: string, j: nat)
    requires d <= |p| && |s| <= |p| - d && s == p[d..][..|s|] && j <= |s| && piece == s[j..]
    requires (j == 0 || IsSep(s[j - 1])) && AllSeps(p[d..][|s|..]) && j < |s| && d + |s| < |p|
    ensures exists k, m :: d <= k < m < |p| && piece == p[k..m] &&
              (k == d || IsSep(p[k - 1])) && AllSeps(p[m..])
  {
    var k, m := d + j, d + |s|;
    assert p[d..][|s|..] == p[m..];
    assert piece == p[k..m];
  }

  // ---------------------------------------------------------------------
  // load_tuple_list_from_file
  // ---------------------------------------------------------------------

  /** A separator-joined text starts with its first piece. */
  lemma JoinStartsWith(parts: seq<string>, sep: string)
    requires |parts| >= 1
    ensures Join(parts, sep)[..|parts[0]|] == parts[0] && |parts[0]| <= |Join(parts, sep)|
  {
  }

  /** Splitting a line that holds the delimiter gives at least two fields, the first two spelled out at its start. */
  lemma SplitFields(line: string, delimiter: string)
    requires |delimiter| > 0 && Contains(line, delimiter)
    ensures |Split(line, delimiter)| >= 2
    ensures var f := Split(line, delimiter);
            |f[0] + delimiter + f[1]| <= |line| && line[..|f[0] + delimiter + f[1]|] == f[0] + delimiter + f[1]
  {
    SplitAtLeastTwo(line, delimiter);
    JoinFrontTwo(Split(line, delimiter), delimiter);
  }

  /** A separator-joined text of two or more pieces starts with the first two and the separator between them. */
  lemma JoinFrontTwo(f: seq<string>, sep: string)
    requires |f| >= 2
    ensures |f[0] + sep + f[1]| <= |Join(f, sep)| && Join(f, sep)[..|f[0] + sep + f[1]|] == f[0] + sep + f[1]
  {
    JoinStartsWith(f[1..], sep);
    var front := f[0] + sep;
    assert Join(f, sep) == front + Join(f[1..], sep);
    assert Join(f, sep)[|front|..] == Join(f[1..], sep);
    assert Join(f, sep)[..|front + f[1]|] == front + Join(f, sep)[|front|..][..|f[1]|];
  }

  /** A line holding the delimiter splits into more than one field. */
  lemma SplitAtLeastTwo(line: string, delimiter: string)
    requires |delimiter| > 0 && Contains(line, delimiter)
    ensures |Split(line, delimiter)| >= 2
  {
    var f := Split(line, delimiter);
    assert Join(f[..1], delimiter) == f[0];
  }

  /**
   * a and b are the first two fields of the line: a runs up to the leftmost
   * delimiter, and b from just after it up to the next delimiter or the end.
   */
  predicate FieldsAt(line: string, delimiter: string, a: string, b: string) {
    var m := |a| + |delimiter|;
    && m + |b| <= |line|
    && line[..|a|] == a && OccursAt(line, delimiter, |a|) && line[m..m + |b|] == b
    && (forall j :: 0 <= j < |a| ==> !OccursAt(line, delimiter, j))
    && (m + |b| == |line| || OccursAt(line, delimiter, m + |b|))
    && (forall j :: m <= j < m + |b| ==> !OccursAt(line, delimiter, j))
  }

  /**
   * (word_freq[0], word_freq[1]) for word_freq = line.split(delimiter): the
   * text before the leftmost delimiter, and the text from there up to the
   * next delimiter or the end of the line.
   */
  function LineTuple(line: string, delimiter: string): (r: (string, string))
    requires |delimiter| > 0 && Contains(line, delimiter)
    ensures !Contains(r.0, delimiter) && !Contains(r.1, delimiter)
    ensures |r.0 + delimiter + r.1| <= |line| && line[..|r.0 + delimiter + r.1|] == r.0 + delimiter + r.1
    ensures FieldsAt(line, delimiter, r.0, r.1)
  {
    SplitFields(line, delimiter);
    LineTupleFields(line, delimiter);
    var f := Split(line, delimiter);
    (f[0], f[1])
  }

  /** The first two pieces of a split are placed in the line as FieldsAt says. */
  lemma LineTupleFields(line: string, delimiter: string)
    requires |delimiter| > 0 && |Split(line, delimiter)| >= 2
    ensures FieldsAt(line, delimiter, Split(line, delimiter)[0], Split(line, delimiter)[1])
  {
    var first, second := SplitTwoFields(line, delimiter);
  }

  /** The first two pieces of a split, with where they sit in the line. */
  lemma SplitTwoFields(line: string, delimiter: string) returns (first: string, second: string)
    requires |delimiter| > 0 && |Split(line, delimiter)| >= 2
    ensures first == Split(line, delimiter)[0] && second == Split(line, delimiter)[1]
    ensures FieldsAt(line, delimiter, first, second)
  {
    var several;
    first, several := SplitFirst(line, delimiter);
    SplitRest(line, delimiter);
    second := NextField(line, delimiter, |first| + |delimiter|);
    assert second == Split(line, delimiter)[1..][0];
    FieldsFrom(line, delimiter, first, second);
  }

  /** The placement facts of two fields, gathered into FieldsAt. */
  lemma FieldsFrom(line: string, delimiter: string, a: string, b: string)
    requires |a| <= |line| && line[..|a|] == a && OccursAt(line, delimiter, |a|)
    requires forall j :: 0 <= j < |a| ==> !OccursAt(line, delimiter, j)
    requires var m := |a| + |delimiter|;
             m + |b| <= |line| && line[m..m + |b|] == b &&
             (m + |b| == |line| || OccursAt(line, delimiter, m + |b|)) &&
             forall j :: m <= j < m + |b| ==> !OccursAt(line, delimiter, j)
    ensures FieldsAt(line, delimiter, a, b)
  {
  }

  /** The first piece of the split of line[m..], with where it sits in the line. */
  lemma NextField(line: string, delimiter: string, m: nat) returns (piece: string)
    requires |delimiter| > 0 && m <= |line|
    ensures piece == Split(line[m..], delimiter)[0]
    ensures m + |piece| <= |line| && line[m..m + |piece|] == piece
    ensures m + |piece| == |line| || OccursAt(line, delimiter, m + |piece|)
    ensures forall j :: m <= j < m + |piece| ==> !OccursAt(line, delimiter, j)
  {
    var more;
    piece, more := SplitFirst(line[m..], delimiter);
    FieldEnd(line, delimiter, m, piece, more, m + |piece|);
    assert line[m..m + |piece|] == line[m..][..|piece|];
  }

  /** A field that ends a suffix's first piece ends at a delimiter or the end of the whole line. */
  lemma FieldEnd(line: string, delimiter: string, m: nat, piece: string, more: bool, n: nat)
    requires m <= |line| && |piece| <= |line[m..]| && n == m + |piece|
    requires forall j :: 0 <= j < |piece| ==> !OccursAt(line[m..], delimiter, j)
    requires !more ==> piece == line[m..]
    requires more ==> OccursAt(line[m..], delimiter, |piece|)
    ensures n <= |line|
    ensures n == |line| || OccursAt(line, delimiter, n)
    ensures forall j :: m <= j < n ==> !OccursAt(line, delimiter, j)
  {
    if more {
      OccursShift(line, delimiter, m, |piece|);
    }
    forall j | m <= j < n ensures !OccursAt(line, delimiter, j) {
      OccursShift(line, delimiter, m, j - m);
    }
  }

  /** The line and delimiter fix the tuple: any two fields placed as LineTuple's contract says are its fields. */
  lemma LineTupleUnique(line: string, delimiter: string, a: string, b: string)
    requires |delimiter| > 0 && Contains(line, delimiter)
    requires FieldsAt(line, delimiter, a, b)
    ensures LineTuple(line, delimiter) == (a, b)
  {
    var r := LineTuple(line, delimiter);
    SameFields(line, delimiter, a, b, r.0, r.1);
  }

  /** Two pairs of fields both placed as FieldsAt says are the same pair. */
  lemma SameFields(line: string, delimiter: string, a: string, b: string, c: string, e: string)
    requires FieldsAt(line, delimiter, a, b) && FieldsAt(line, delimiter, c, e)
    ensures a == c && b == e
  {
    SameFirstOccurrence(line, delimiter, |a|, |c|);
    var m := |a| + |delimiter|;
    SameFieldEnd(line, delimiter, m, m + |b|, m + |e|);
  }

  /** Two positions that are each the leftmost occurrence are the same position. */
  lemma SameFirstOccurrence(line: string, delimiter: string, i: nat, k: nat)
    requires OccursAt(line, delimiter, i) && OccursAt(line, delimiter, k)
    requires forall j :: 0 <= j < i ==> !OccursAt(line, delimiter, j)
    requires forall j :: 0 <= j < k ==> !OccursAt(line, delimiter, j)
    ensures i == k
  {
  }

  /** Two ends that are each the next occurrence at or after m, or the end of the line, are the same end. */
  lemma SameFieldEnd(line: string, delimiter: string, m: nat, n1: nat, n2: nat)
    requires m <= n1 <= |line| && m <= n2 <= |line|
    requires n1 == |line| || OccursAt(line, delimiter, n1)
    requires n2 == |line| || OccursAt(line, delimiter, n2)
    requires forall j :: m <= j < n1 ==> !OccursAt(line, delimiter, j)
    requires forall j :: m <= j < n2 ==> !OccursAt(line, delimiter, j)
    ensures n1 == n2
  {
  }


  /**
   * load_tuple_list_from_file on the file's lines: one tuple per line, in
   * order. An empty delimiter raises ValueError at the first line, and a
   * line without the delimiter has no second field and raises IndexError.
   */
  method LoadTupleList(lines: seq<string>, delimiter: string) returns (r: Result<seq<(string, string)>>)
    ensures r.Failure? <==>
              lines != [] && (delimiter == [] || exists i :: 0 <= i < |lines| && !Contains(lines[i], delimiter))
    ensures r.Failure? ==> r.error == (if delimiter == [] then ValueError else IndexError)
    ensures r.Success? ==> |r.value| == |lines|
    ensures r.Success? ==> forall i :: 0 <= i < |lines| ==>
              |delimiter| > 0 && Contains(lines[i], delimiter) && r.value[i] == LineTuple(lines[i], delimiter)
  {
    var tupleList: seq<(string, string)> := [];
    var i := 0;
    while i < |lines|
      invariant i <= |lines| && |tupleList| == i
      invariant i > 0 ==> |delimiter| > 0
      invariant forall k :: 0 <= k < i ==> Contains(lines[k], delimiter)
      invariant forall k :: 0 <= k < i ==> tupleList[k] == LineTuple(lines[k], delimiter)
    {
      var content := lines[i];
      if delimiter == [] {
        return Failure(ValueError);
      }
      if !Contains(content, delimiter) {
        return Failure(IndexError);
      }
      tupleList := tupleList + [LineTuple(content, delimiter)];
      i := i + 1;
    }
    return Success(tupleList);
  }

  /** A line without the delimiter splits into itself alone, so word_freq[1] does not exist. */
  lemma MissingSecondField(line: string, delimiter: string)
    requires |delimiter| > 0 && !Contains(line, delimiter)
    ensures |Split(line, delimiter)| == 1
  {
    SplitNoSeparator(line, delimiter);
  }

  // ---------------------------------------------------------------------
  // load_sent_term_dict_from_acl_rd_tec_file
  // ---------------------------------------------------------------------

  /** The id of the header row. */
  const HeaderId: string := "#SENTENCE_ID"

  /** A row that indexing raises IndexError on: empty, or a non-header row without a second column. */
  predicate RowRaises(row: seq<string>) {
    |row| == 0 || (row[0] != HeaderId && |row| < 2)
  }

  /** A row that is grouped: not the header, with an id and a sentence. */
  predicate DataRow(row: seq<string>) {
    |row| >= 2 && row[0] != HeaderId
  }

  /** The ids of the data rows, in order, with repetitions. */
  function Ids(rows: seq<seq<string>>): seq<string> {
    if rows == [] then []
    else Ids(rows[..|rows| - 1]) + (if DataRow(rows[|rows| - 1]) then [rows[|rows| - 1][0]] else [])
  }

  /** The terms extracted from the sentences of the data rows with this id, None left out. */
  function TermsFor(rows: seq<seq<string>>, id: string, extract: string -> Option<string>): set<string> {
    set k | 0 <= k < |rows| && DataRow(rows[k]) && rows[k][0] == id && extract(rows[k][1]).Some? :: extract(rows[k][1]).value
  }

  /** The grouping after the rows so far: every id in first-seen order, with the terms of its rows. */
  ghost predicate GroupedRows(d: Dict<string, set<string>>, rows: seq<seq<string>>, extract: string -> Option<string>) {
    Valid(d) && d.keys == Distinct(Ids(rows)) && forall id :: id in d.vals ==> d.vals[id] == TermsFor(rows, id, extract)
  }

  /** One more row extends the ids and the terms of its own id only. */
  lemma GroupedStep(d: Dict<string, set<string>>, rows: seq<seq<string>>, row: seq<string>,
                    extract: string -> Option<string>)
    requires GroupedRows(d, rows, extract) && DataRow(row)
    ensures var terms := if extract(row[1]).Some? then {extract(row[1]).value} else {};
            GroupedRows(Put(d, row[0], (if row[0] in d.vals then d.vals[row[0]] else {}) + terms), rows + [row], extract)
  {
    var terms := if extract(row[1]).Some? then {extract(row[1]).value} else {};
    GroupedKeys(d, rows, row, (if row[0] in d.vals then d.vals[row[0]] else {}) + terms);
    GroupedVals(d.vals, rows, row, extract);
  }

  /** The keys after one more data row are the distinct ids of all the rows. */
  lemma GroupedKeys(d: Dict<string, set<string>>, rows: seq<seq<string>>, row: seq<string>, v: set<string>)
    requires Valid(d) && d.keys == Distinct(Ids(rows)) && DataRow(row)
    ensures Put(d, row[0], v).keys == Distinct(Ids(rows + [row]))
  {
    IdsSnoc(rows, row);
  }

  /** The sets after one more data row are the terms of all the rows. */
  lemma GroupedVals(vals: map<string, set<string>>, rows: seq<seq<string>>, row: seq<string>,
                    extract: string -> Option<string>)
    requires DataRow(row) && (row[0] in Ids(rows) ==> row[0] in vals)
    requires forall id :: id in vals ==> vals[id] == TermsFor(rows, id, extract)
    ensures var terms := if extract(row[1]).Some? then {extract(row[1]).value} else {};
            var vals' := vals[row[0] := (if row[0] in vals then vals[row[0]] else {}) + terms];
            forall id :: id in vals' ==> vals'[id] == TermsFor(rows + [row], id, extract)
  {
    var terms := if extract(row[1]).Some? then {extract(row[1]).value} else {};
    if row[0] !in vals {
      TermsForAbsent(rows, row[0], extract);
    }
    forall id ensures TermsFor(rows + [row], id, extract) == TermsFor(rows, id, extract) + (if id == row[0] then terms else {}) {
      TermsForSnoc(rows, row, id, extract);
    }
    ExtendGroup(vals, row[0], terms, id => TermsFor(rows, id, extract), id => TermsFor(rows + [row], id, extract));
  }

  /** Adding terms to the set of one key keeps a map of sets equal to the grouping that adds them there too. */
  lemma ExtendGroup(vals: map<string, set<string>>, k: string, terms: set<string>,
                    before: string -> set<string>, after: string -> set<string>)
    requires forall id :: id in vals ==> vals[id] == before(id)
    requires forall id :: after(id) == before(id) + (if id == k then terms else {})
    requires k !in vals ==> before(k) == {}
    ensures var vals' := vals[k := (if k in vals then vals[k] else {}) + terms];
            forall id :: id in vals' ==> vals'[id] == after(id)
  {
  }

  /** A data row adds its id to the distinct ids unless it is there already. */
  lemma IdsSnoc(rows: seq<seq<string>>, row: seq<string>)
    requires DataRow(row)
    ensures Ids(rows + [row]) == Ids(rows) + [row[0]]
    ensures Distinct(Ids(rows + [row])) ==
            if row[0] in Ids(rows) then Distinct(Ids(rows)) else Distinct(Ids(rows)) + [row[0]]
  {
    var rows' := rows + [row];
    assert rows'[..|rows'| - 1] == rows;
    assert Ids(rows')[..|Ids(rows')| - 1] == Ids(rows);
  }

  /**
   * The dictionary the grouping loop builds from the rows: a data row with a
   * new id adds the id last, a data row of a known id adds its term to that
   * id's set, and any other row changes nothing.
   */
  function GroupedDict(rows: seq<seq<string>>, extract: string -> Option<string>): Dict<string, set<string>> {
    if rows == [] then Dict([], map[])
    else
      var d := GroupedDict(rows[..|rows| - 1], extract);
      var row := rows[|rows| - 1];
      if !DataRow(row) then d
      else
        var terms := if extract(row[1]).Some? then {extract(row[1]).value} else {};
        if row[0] in d.vals then Dict(d.keys, d.vals[row[0] := d.vals[row[0]] + terms])
        else Dict(d.keys + [row[0]], d.vals[row[0] := {} + terms])
  }

  /** The dictionary built from the rows groups them: every id in first-seen order, with the terms of its rows. */
  lemma {:induction false} GroupedDictMeaning(rows: seq<seq<string>>, extract: string -> Option<string>)
    ensures GroupedRows(GroupedDict(rows, extract), rows, extract)
  {
    if rows == [] {
      assert Distinct(Ids(rows)) == [];
      var e: Dict<string, set<string>> := Dict([], map[]);
      assert Valid(e);
    } else {
      var init := rows[..|rows| - 1];
      var row := rows[|rows| - 1];
      assert rows == init + [row];
      GroupedDictMeaning(init, extract);
      var d := GroupedDict(init, extract);
      if DataRow(row) {
        GroupedStep(d, init, row, extract);
      } else {
        GroupedSkip(d, init, row, extract);
      }
    }
  }

  /** The terms after one more row: its own term joins those of its id. */
  lemma TermsForSnoc(rows: seq<seq<string>>, row: seq<string>, id: string, extract: string -> Option<string>)
    ensures TermsFor(rows + [row], id, extract) ==
              TermsFor(rows, id, extract) +
              (if DataRow(row) && row[0] == id && extract(row[1]).Some? then {extract(row[1]).value} else {})
  {
    var rows' := rows + [row];
    assert forall k :: 0 <= k < |rows| ==> rows'[k] == rows[k];
    assert rows'[|rows|] == row;
  }

  /** An id that no data row carries has no terms. */
  lemma TermsForAbsent(rows: seq<seq<string>>, id: string, extract: string -> Option<string>)
    requires id !in Ids(rows)
    ensures TermsFor(rows, id, extract) == {}
  {
    forall k | 0 <= k < |rows| && DataRow(rows[k]) ensures rows[k][0] != id {
      IdOfRow(rows, k);
    }
  }

  /** The id of every data row is among the ids. */
  lemma {:induction false} IdOfRow(rows: seq<seq<string>>, k: nat)
    requires k < |rows| && DataRow(rows[k])
    ensures rows[k][0] in Ids(rows)
  {
    if k < |rows| - 1 {
      IdOfRow(rows[..|rows| - 1], k);
    }
  }

  /** A header row (or a row too short to group) leaves ids and terms as they were. */
  lemma GroupedSkip(d: Dict<string, set<string>>, rows: seq<seq<string>>, row: seq<string>,
                    extract: string -> Option<string>)
    requires GroupedRows(d, rows, extract) && !DataRow(row)
    ensures GroupedRows(d, rows + [row], extract)
  {
    var rows' := rows + [row];
    assert rows'[..|rows'| - 1] == rows;
    assert Ids(rows') == Ids(rows);
    forall id | id in d.vals ensures d.vals[id] == TermsFor(rows', id, extract) {
      TermsForSnoc(rows, row, id, extract);
    }
  }

  /**
   * What the grouping sees of a term extractor that may raise: its term, or
   * None when it raised (the loop never gets that far).
   */
  function Terms(extract: string -> Result<Option<string>>): string -> Option<string> {
    s => if extract(s).Success? then extract(s).value else None
  }

  /** A row the loop raises on: an IndexError row, or a data row whose sentence the extractor raises on. */
  predicate RowFails(row: seq<string>, extract: string -> Result<Option<string>>) {
    RowRaises(row) || (DataRow(row) && extract(row[1]).Failure?)
  }

  /** The exception a failing row raises. */
  function RowError(row: seq<string>, extract: string -> Result<Option<string>>): PyError
    requires RowFails(row, extract)
  {
    if RowRaises(row) then IndexError else extract(row[1]).error
  }

  /**
   * The grouping loop of load_sent_term_dict_from_acl_rd_tec_file over the
   * rows of the tab-separated file: header rows are skipped, every other id
   * becomes a key in first-seen order (even when none of its sentences holds
   * a term), and its set is the union of the terms extracted from its rows.
   * An empty row, or a data row without a sentence, raises IndexError, and
   * an exception of the extractor ends the loop too; the first failing row
   * decides the error.
   */
  method LoadSentTermDict(rows: seq<seq<string>>, extract: string -> Result<Option<string>>)
    returns (r: Result<Dict<string, set<string>>>)
    ensures r.Failure? <==> exists k :: 0 <= k < |rows| && RowFails(rows[k], extract)
    ensures r.Failure? ==>
              exists k :: 0 <= k < |rows| && RowFails(rows[k], extract) &&
                (forall j :: 0 <= j < k ==> !RowFails(rows[j], extract)) && r.error == RowError(rows[k], extract)
    ensures r.Success? ==> r.value == GroupedDict(rows, Terms(extract))
    ensures r.Success? ==> GroupedRows(r.value, rows, Terms(extract))
  {
    var sentTermDict: Dict<string, set<string>> := Dict([], map[]);
    var i := 0;
    while i < |rows|
      invariant i <= |rows|
      invariant forall k :: 0 <= k < i ==> !RowFails(rows[k], extract)
      invariant sentTermDict == GroupedDict(rows[..i], Terms(extract))
    {
      var row := rows[i];
      assert rows[..i + 1][..i] == rows[..i];
      if |row| == 0 {
        return Failure(IndexError);
      }
      if row[0] == HeaderId {
        i := i + 1;
        continue;
      }
      if |row| < 2 {
        return Failure(IndexError);
      }
      if row[0] !in sentTermDict.vals {
        var sentTerms: set<string> := {};
        var termStr := extract(row[1]);
        if termStr.Failure? {
          return Failure(termStr.error);
        }
        if termStr.value.Some? {
          sentTerms := sentTerms + {termStr.value.value};
        }
        assert sentTerms == {} + (if Terms(extract)(row[1]).Some? then {Terms(extract)(row[1]).value} else {});
        sentTermDict := Dict(sentTermDict.keys + [row[0]], sentTermDict.vals[row[0] := sentTerms]);
      } else {
        var sentTerm := extract(row[1]);
        if sentTerm.Failure? {
          return Failure(sentTerm.error);
        }
        if sentTerm.value.Some? {
          sentTermDict := Dict(sentTermDict.keys, sentTermDict.vals[row[0] := sentTermDict.vals[row[0]] + {sentTerm.value.value}]);
        } else {
          assert sentTermDict.vals[row[0]] + {} == sentTermDict.vals[row[0]];
          assert sentTermDict.vals[row[0] := sentTermDict.vals[row[0]] + {}] == sentTermDict.vals;
        }
      }
      i := i + 1;
    }
    assert rows[..i] == rows;
    GroupedDictMeaning(rows, Terms(extract));
    return Success(sentTermDict);
  }
}
