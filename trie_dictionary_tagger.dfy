/**
 * The dictionary trie used for fuzzy dictionary tagging, and the search for
 * every stored word within a Levenshtein distance of a query word, computed
 * one dynamic-programming row per trie letter.
 *
 * The Python trie is a tree of TrieNode objects, each with an optional word
 * and a dict from letter to child. Here the nodes live in one arena: node n
 * is an index into parallel sequences, node 0 is the root, and the children
 * of n are kids[n], iterated in order[n] (the dict's insertion order). Two
 * ghost sequences record, for every node, the letters on the way from the
 * root (paths) and the node it hangs from (parent).
 */
module TrieTagger {
  import opened Wrappers
  import opened Dicts

  /** Python's min(a, b, c). */
  function Min3(a: int, b: int, c: int): (r: int)
    ensures r <= a && r <= b && r <= c
    ensures r == a || r == b || r == c
  {
    if a <= b && a <= c then a else if b <= c then b else c
  }

  /**
   * Levenshtein distance: the fewest single-letter deletions, insertions and
   * replacements that turn a into b, by the recurrence on last letters.
   */
  ghost function Dist(a: string, b: string): nat
    decreases |a| + |b|
  {
    if |a| == 0 then |b|
    else if |b| == 0 then |a|
    else Min3(Dist(a[..|a| - 1], b) + 1,
              Dist(a, b[..|b| - 1]) + 1,
              Dist(a[..|a| - 1], b[..|b| - 1]) + (if a[|a| - 1] == b[|b| - 1] then 0 else 1))
  }

  /** The dynamic-programming row of p against q: entry j is the distance from p to q[..j]. */
  ghost function Row(p: string, q: string): (r: seq<int>)
    ensures |r| == |q| + 1
    ensures forall j :: 0 <= j <= |q| ==> r[j] == Dist(p, q[..j])
  {
    seq(|q| + 1, j requires 0 <= j <= |q| => Dist(p, q[..j]))
  }

  /** Python's min(row). */
  function MinOf(row: seq<int>): (r: int)
    requires |row| > 0
    ensures forall j :: 0 <= j < |row| ==> r <= row[j]
    ensures exists j :: 0 <= j < |row| && r == row[j]
  {
    if |row| == 1 then row[0]
    else
      var m := MinOf(row[1..]);
      assert forall j :: 1 <= j < |row| ==> row[j] == row[1..][j - 1];
      if row[0] <= m then row[0] else m
  }

  /**
   * The shape of a well-formed trie arena: every child link goes to a later
   * node whose path is the parent's path plus the link's letter, every node
   * but the root is the child of its recorded parent, the children's
   * iteration order lists each child letter once, and a node's word is its
   * own path.
   */
  ghost predicate Shape(kids: seq<map<char, int>>, order: seq<seq<char>>, words: seq<Option<string>>,
                        paths: seq<string>, parent: seq<nat>)
  {
    && |kids| >= 1 && |order| == |kids| && |words| == |kids| && |paths| == |kids| && |parent| == |kids|
    && paths[0] == []
    && (forall n :: 0 <= n < |kids| ==> NoDup(order[n]))
    && (forall n, c :: 0 <= n < |kids| ==> (c in kids[n] <==> c in order[n]))
    && (forall n, c :: 0 <= n < |kids| && c in kids[n] ==>
          n < kids[n][c] < |kids| && paths[kids[n][c]] == paths[n] + [c])
    && (forall m :: 0 < m < |kids| ==>
          && parent[m] < m && |paths[m]| > 0
          && paths[m][|paths[m]| - 1] in kids[parent[m]]
          && kids[parent[m]][paths[m][|paths[m]| - 1]] == m)
    && (forall m :: 0 <= m < |kids| && words[m].Some? ==> words[m].value == paths[m])
  }

  /** The words stored anywhere in the arena. */
  ghost function Stored(words: seq<Option<string>>): set<string> {
    set m | 0 <= m < |words| && words[m].Some? :: words[m].value
  }

  /**
   * kids', paths' grew from kids, paths: the old nodes keep their paths and
   * every old child link is still there, leading to the same node.
   */
  ghost predicate Grown(kids: seq<map<char, int>>, paths: seq<string>, kids': seq<map<char, int>>, paths': seq<string>) {
    && |kids| <= |kids'| && |paths| <= |paths'| && paths'[..|paths|] == paths
    && forall n, c :: 0 <= n < |kids| && c in kids[n] ==> c in kids'[n] && kids'[n][c] == kids[n][c]
  }

  lemma GrownTrans(kids: seq<map<char, int>>, paths: seq<string>, kids': seq<map<char, int>>, paths': seq<string>,
                   kids'': seq<map<char, int>>, paths'': seq<string>)
    requires Grown(kids, paths, kids', paths') && Grown(kids', paths', kids'', paths'')
    ensures Grown(kids, paths, kids'', paths'')
  {
    assert paths''[..|paths|] == paths''[..|paths'|][..|paths|];
  }

  /**
   * A node's children either stay as they were, or gain a child for the one
   * letter c, which goes last in the iteration order.
   */
  ghost predicate SameOrOneMore(k: map<char, int>, o: seq<char>, k': map<char, int>, o': seq<char>, c: char) {
    || (k' == k && o' == o)
    || (c !in k && c in k' && k' == k[c := k'[c]] && o' == o + [c])
  }

  /** A node added by a change along w: its path is a prefix of w. */
  ghost predicate NewOnWord(paths': seq<string>, m: nat, w: string)
    requires m < |paths'|
  {
    paths'[m] <= w
  }

  /**
   * An old node under a change along w: when its path is a proper prefix of
   * w it keeps its children or gains the child for the next letter of w;
   * otherwise it keeps its children and their order.
   */
  ghost predicate NodeAlong(kids: seq<map<char, int>>, order: seq<seq<char>>, paths: seq<string>,
                            kids': seq<map<char, int>>, order': seq<seq<char>>, n: nat, w: string)
    requires n < |kids| && n < |order| && n < |paths| && n < |kids'| && n < |order'|
  {
    if paths[n] < w then SameOrOneMore(kids[n], order[n], kids'[n], order'[n], w[|paths[n]|])
    else kids'[n] == kids[n] && order'[n] == order[n]
  }

  /**
   * The arena changed only along the word w: every new node's path is a
   * prefix of w, a node whose path is not a proper prefix of w keeps its
   * children and their order, and a node whose path is a proper prefix of w
   * gains at most the child for the next letter of w.
   */
  ghost predicate GrownAlong(kids: seq<map<char, int>>, order: seq<seq<char>>, paths: seq<string>,
                             kids': seq<map<char, int>>, order': seq<seq<char>>, paths': seq<string>, w: string) {
    && |order| == |kids| && |paths| == |kids| && |kids| <= |kids'| && |order'| == |kids'| && |paths'| == |kids'|
    && (forall m: nat :: |kids| <= m < |kids'| ==> NewOnWord(paths', m, w))
    && (forall n: nat :: n < |kids| ==> NodeAlong(kids, order, paths, kids', order', n, w))
  }

  /** A change along a prefix of w is a change along w. */
  lemma GrownAlongWiden(kids: seq<map<char, int>>, order: seq<seq<char>>, paths: seq<string>,
                        kids': seq<map<char, int>>, order': seq<seq<char>>, paths': seq<string>, p: string, w: string)
    requires GrownAlong(kids, order, paths, kids', order', paths', p) && p <= w
    ensures GrownAlong(kids, order, paths, kids', order', paths', w)
  {
    forall m: nat | |kids| <= m < |kids'| ensures NewOnWord(paths', m, w) {
      assert NewOnWord(paths', m, p);
    }
    forall n: nat | n < |kids| ensures NodeAlong(kids, order, paths, kids', order', n, w) {
      assert NodeAlong(kids, order, paths, kids', order', n, p);
      if paths[n] < p {
        assert p[|paths[n]|] == w[|paths[n]|];
      }
    }
  }

  /** Two changes along w, the second on a grown arena, are one change along w. */
  lemma GrownAlongTrans(kids: seq<map<char, int>>, order: seq<seq<char>>, paths: seq<string>,
                        kids': seq<map<char, int>>, order': seq<seq<char>>, paths': seq<string>,
                        kids'': seq<map<char, int>>, order'': seq<seq<char>>, paths'': seq<string>, w: string)
    requires GrownAlong(kids, order, paths, kids', order', paths', w)
    requires GrownAlong(kids', order', paths', kids'', order'', paths'', w)
    requires Grown(kids, paths, kids', paths') && Grown(kids', paths', kids'', paths'')
    ensures GrownAlong(kids, order, paths, kids'', order'', paths'', w)
  {
    forall m: nat | |kids| <= m < |kids''| ensures NewOnWord(paths'', m, w) {
      if m < |kids'| {
        assert NewOnWord(paths', m, w);
        assert paths''[m] == paths''[..|paths'|][m];
      } else {
        assert NewOnWord(paths'', m, w);
      }
    }
    forall n: nat | n < |kids| ensures NodeAlong(kids, order, paths, kids'', order'', n, w) {
      assert paths'[n] == paths'[..|paths|][n];
      assert NodeAlong(kids, order, paths, kids', order', n, w);
      assert NodeAlong(kids', order', paths', kids'', order'', n, w);
      if paths[n] < w {
        var c := w[|paths[n]|];
        SameOrOneMoreTrans(kids[n], order[n], kids'[n], order'[n], kids''[n], order''[n], c);
      }
    }
  }

  lemma SameOrOneMoreTrans(k: map<char, int>, o: seq<char>, k': map<char, int>, o': seq<char>,
                           k'': map<char, int>, o'': seq<char>, c: char)
    requires SameOrOneMore(k, o, k', o', c) && SameOrOneMore(k', o', k'', o'', c)
    ensures SameOrOneMore(k, o, k'', o'', c)
  {
    if k' != k || o' != o {
      assert k'' == k' && o'' == o';
    }
  }

  /** A prefix of a prefix is a prefix. */
  lemma PrefixKept<T>(s0: seq<T>, s1: seq<T>, s2: seq<T>)
    requires |s0| <= |s1| <= |s2| && s1[..|s0|] == s0 && s2[..|s1|] == s1
    ensures s2[..|s0|] == s0
  {
    assert s2[..|s0|] == s2[..|s1|][..|s0|];
  }

  /** The arena grew along w, and the old nodes keep their words. */
  ghost predicate Walked(kids: seq<map<char, int>>, order: seq<seq<char>>, paths: seq<string>, words: seq<Option<string>>,
                         kids': seq<map<char, int>>, order': seq<seq<char>>, paths': seq<string>, words': seq<Option<string>>,
                         w: string) {
    && Grown(kids, paths, kids', paths')
    && GrownAlong(kids, order, paths, kids', order', paths', w)
    && |words| <= |words'| && words'[..|words|] == words
  }

  lemma WalkedSame(kids: seq<map<char, int>>, order: seq<seq<char>>, paths: seq<string>, words: seq<Option<string>>, w: string)
    requires |order| == |kids| && |paths| == |kids|
    ensures Walked(kids, order, paths, words, kids, order, paths, words, w)
  {
    GrownAlongSame(kids, order, paths, w);
    assert words[..|words|] == words;
  }

  /** One more step along a prefix p of w keeps the walk along w. */
  lemma WalkedStep(kids: seq<map<char, int>>, order: seq<seq<char>>, paths: seq<string>, words: seq<Option<string>>,
                   kids': seq<map<char, int>>, order': seq<seq<char>>, paths': seq<string>, words': seq<Option<string>>,
                   kids'': seq<map<char, int>>, order'': seq<seq<char>>, paths'': seq<string>, words'': seq<Option<string>>,
                   p: string, w: string)
    requires Walked(kids, order, paths, words, kids', order', paths', words', w)
    requires Grown(kids', paths', kids'', paths'') && GrownAlong(kids', order', paths', kids'', order'', paths'', p)
    requires |words'| <= |words''| && words''[..|words'|] == words' && p <= w
    ensures Walked(kids, order, paths, words, kids'', order'', paths'', words'', w)
  {
    GrownTrans(kids, paths, kids', paths', kids'', paths'');
    GrownAlongWiden(kids', order', paths', kids'', order'', paths'', p, w);
    GrownAlongTrans(kids, order, paths, kids', order', paths', kids'', order'', paths'', w);
    PrefixKept(words, words', words'');
  }

  /** Hanging a new node under `node` for a letter it has no child for keeps the shape. */
  lemma AddChild(kids: seq<map<char, int>>, order: seq<seq<char>>, words: seq<Option<string>>,
                 paths: seq<string>, parent: seq<nat>, node: nat, letter: char,
                 kids': seq<map<char, int>>, order': seq<seq<char>>, words': seq<Option<string>>,
                 paths': seq<string>, parent': seq<nat>)
    requires Shape(kids, order, words, paths, parent)
    requires node < |kids| && letter !in kids[node]
    requires kids' == kids[node := kids[node][letter := |kids|]] + [map[]]
    requires order' == order[node := order[node] + [letter]] + [[]]
    requires words' == words + [None] && paths' == paths + [paths[node] + [letter]] && parent' == parent + [node]
    ensures Shape(kids', order', words', paths', parent')
    ensures Stored(words') == Stored(words)
    ensures Grown(kids, paths, kids', paths')
    ensures letter in kids'[node] && kids'[node][letter] == |kids|
  {
    AddChildOrder(kids, order, node, letter, kids', order');
    AddChildLinks(kids, paths, node, letter, kids', paths');
    AddChildParents(kids, paths, parent, node, letter, kids', paths', parent');
    forall m | 0 <= m < |kids'| && words'[m].Some? ensures words'[m].value == paths'[m] {
      assert m < |kids|;
    }
    StoredAppendNone(words);
  }

  /** The new child is a change along the parent's path plus its letter. */
  lemma AddChildAlong(kids: seq<map<char, int>>, order: seq<seq<char>>, paths: seq<string>, node: nat, letter: char,
                      kids': seq<map<char, int>>, order': seq<seq<char>>, paths': seq<string>)
    requires |order| == |kids| && |paths| == |kids| && node < |kids| && letter !in kids[node]
    requires kids' == kids[node := kids[node][letter := |kids|]] + [map[]]
    requires order' == order[node := order[node] + [letter]] + [[]]
    requires paths' == paths + [paths[node] + [letter]]
    ensures GrownAlong(kids, order, paths, kids', order', paths', paths[node] + [letter])
  {
    var w := paths[node] + [letter];
    assert paths[node] < w && w[|paths[node]|] == letter;
    assert NewOnWord(paths', |kids|, w);
    forall n: nat | n < |kids| ensures NodeAlong(kids, order, paths, kids', order', n, w) {
      if n != node {
        assert kids'[n] == kids[n] && order'[n] == order[n];
      }
    }
  }

  lemma GrownSame(kids: seq<map<char, int>>, paths: seq<string>)
    ensures Grown(kids, paths, kids, paths)
  {
  }

  /** Changing nothing is a change along any word. */
  lemma GrownAlongSame(kids: seq<map<char, int>>, order: seq<seq<char>>, paths: seq<string>, w: string)
    requires |order| == |kids| && |paths| == |kids|
    ensures GrownAlong(kids, order, paths, kids, order, paths, w)
  {
    forall n: nat | n < |kids| ensures NodeAlong(kids, order, paths, kids, order, n, w) {
    }
  }

  /** The new child letter goes last in the iteration order, which still lists each child once. */
  lemma AddChildOrder(kids: seq<map<char, int>>, order: seq<seq<char>>, node: nat, letter: char,
                      kids': seq<map<char, int>>, order': seq<seq<char>>)
    requires |order| == |kids| && node < |kids| && letter !in kids[node]
    requires forall n :: 0 <= n < |kids| ==> NoDup(order[n])
    requires forall n, c :: 0 <= n < |kids| ==> (c in kids[n] <==> c in order[n])
    requires kids' == kids[node := kids[node][letter := |kids|]] + [map[]]
    requires order' == order[node := order[node] + [letter]] + [[]]
    ensures forall n :: 0 <= n < |kids'| ==> NoDup(order'[n])
    ensures forall n, c :: 0 <= n < |kids'| ==> (c in kids'[n] <==> c in order'[n])
  {
    assert letter !in order[node];
    forall n | 0 <= n < |kids'| ensures NoDup(order'[n]) {
      if n == node {
        assert forall j :: 0 <= j < |order[node]| ==> order'[n][j] == order[node][j];
      }
    }
    forall n, c | 0 <= n < |kids'| ensures c in kids'[n] <==> c in order'[n] {
      if n < |kids| && n != node {
        assert kids'[n] == kids[n] && order'[n] == order[n];
      }
    }
  }

  /** Every child link, old or new, still leads forward to the parent's path plus its letter. */
  lemma AddChildLinks(kids: seq<map<char, int>>, paths: seq<string>, node: nat, letter: char,
                      kids': seq<map<char, int>>, paths': seq<string>)
    requires |paths| == |kids| && node < |kids|
    requires forall n, c :: 0 <= n < |kids| && c in kids[n] ==>
               n < kids[n][c] < |kids| && paths[kids[n][c]] == paths[n] + [c]
    requires kids' == kids[node := kids[node][letter := |kids|]] + [map[]]
    requires paths' == paths + [paths[node] + [letter]]
    ensures forall n, c :: 0 <= n < |kids'| && c in kids'[n] ==>
               n < kids'[n][c] < |kids'| && paths'[kids'[n][c]] == paths'[n] + [c]
  {
    forall n, c | 0 <= n < |kids'| && c in kids'[n]
      ensures n < kids'[n][c] < |kids'| && paths'[kids'[n][c]] == paths'[n] + [c]
    {
      if n != node || c != letter {
        assert n < |kids| && kids'[n] == (if n == node then kids[node][letter := |kids|] else kids[n]);
        assert kids'[n][c] == kids[n][c];
      }
    }
  }

  /** Every node but the root, the new one included, is still the child of its recorded parent. */
  lemma AddChildParents(kids: seq<map<char, int>>, paths: seq<string>, parent: seq<nat>, node: nat, letter: char,
                        kids': seq<map<char, int>>, paths': seq<string>, parent': seq<nat>)
    requires |paths| == |kids| && |parent| == |kids| && node < |kids| && letter !in kids[node]
    requires forall m :: 0 < m < |kids| ==>
          && parent[m] < m && |paths[m]| > 0
          && paths[m][|paths[m]| - 1] in kids[parent[m]]
          && kids[parent[m]][paths[m][|paths[m]| - 1]] == m
    requires kids' == kids[node := kids[node][letter := |kids|]] + [map[]]
    requires paths' == paths + [paths[node] + [letter]] && parent' == parent + [node]
    ensures forall m :: 0 < m < |kids'| ==>
          && parent'[m] < m && |paths'[m]| > 0
          && paths'[m][|paths'[m]| - 1] in kids'[parent'[m]]
          && kids'[parent'[m]][paths'[m][|paths'[m]| - 1]] == m
  {
    forall m | 0 < m < |kids'|
      ensures && parent'[m] < m && |paths'[m]| > 0
              && paths'[m][|paths'[m]| - 1] in kids'[parent'[m]]
              && kids'[parent'[m]][paths'[m][|paths'[m]| - 1]] == m
    {
      if m < |kids| {
        var c := paths[m][|paths[m]| - 1];
        assert parent[m] != node || c != letter;
        assert paths'[m] == paths[m] && parent'[m] == parent[m];
      }
    }
  }

  /** A new node without a word adds no word. */
  lemma StoredAppendNone(words: seq<Option<string>>)
    ensures Stored(words + [None]) == Stored(words)
  {
    var words' := words + [None];
    forall w | w in Stored(words') ensures w in Stored(words) {
      var m :| 0 <= m < |words'| && words'[m].Some? && words'[m].value == w;
      assert words[m] == words'[m];
    }
    forall w | w in Stored(words) ensures w in Stored(words') {
      var m :| 0 <= m < |words| && words[m].Some? && words[m].value == w;
      assert words'[m] == words[m];
    }
  }

  /** Storing a node's own path as its word keeps the shape and adds that word. */
  lemma SetWord(kids: seq<map<char, int>>, order: seq<seq<char>>, words: seq<Option<string>>,
                paths: seq<string>, parent: seq<nat>, node: nat, w: string)
    requires Shape(kids, order, words, paths, parent)
    requires node < |kids| && paths[node] == w
    ensures Shape(kids, order, words[node := Some(w)], paths, parent)
    ensures Stored(words[node := Some(w)]) == Stored(words) + {w}
  {
    var words' := words[node := Some(w)];
    forall x | x in Stored(words') ensures x in Stored(words) + {w} {
      var m :| 0 <= m < |words'| && words'[m].Some? && words'[m].value == x;
      if m != node {
        assert words[m] == words'[m];
      }
    }
    forall x | x in Stored(words) + {w} ensures x in Stored(words') {
      if x == w {
        assert words'[node].value == w;
      } else {
        var m :| 0 <= m < |words| && words[m].Some? && words[m].value == x;
        assert m != node && words'[m] == words[m];
      }
    }
  }

  class Trie {
    var kids: seq<map<char, int>>
    var order: seq<seq<char>>
    var words: seq<Option<string>>
    ghost var paths: seq<string>
    ghost var parent: seq<nat>

    ghost predicate Valid()
      reads this
      ensures Valid() ==> |kids| >= 1 && |order| == |kids| && |words| == |kids| && |paths| == |kids| && |parent| == |kids|
    {
      Shape(kids, order, words, paths, parent)
    }

    /** The set of words the trie holds. */
    ghost function Words(): set<string>
      reads this
    {
      Stored(words)
    }

    /** TrieNode(): a root with no word and no children. */
    constructor()
      ensures Valid() && Words() == {}
      ensures |kids| == 1
    {
      kids := [map[]];
      order := [[]];
      words := [None];
      paths := [[]];
      parent := [0];
      new;
      assert Words() == {};
    }

    /**
     * One step of insert: the child of `node` for `letter`, created (with no
     * word and no children) when `node` has none. Existing nodes and links
     * are left as they were.
     */
    method ChildFor(node: nat, letter: char) returns (child: nat)
      requires Valid() && node < |kids|
      modifies this
      ensures Valid()
      ensures Words() == old(Words())
      ensures Grown(old(kids), old(paths), kids, paths)
      ensures GrownAlong(old(kids), old(order), old(paths), kids, order, paths, old(paths[node]) + [letter])
      ensures words[..old(|words|)] == old(words)
      ensures child < |kids| && paths[child] == paths[node] + [letter]
    {
      ghost var kids0, order0, paths0, w := kids, order, paths, paths[node] + [letter];
      if letter !in kids[node] {
        var newNode := |kids|;
        var kids' := kids[node := kids[node][letter := newNode]] + [map[]];
        var order' := order[node := order[node] + [letter]] + [[]];
        ghost var paths' := paths + [paths[node] + [letter]];
        AddChild(kids, order, words, paths, parent, node, letter, kids', order', words + [None], paths', parent + [node]);
        AddChildAlong(kids, order, paths, node, letter, kids', order', paths');
        kids, order, words, paths, parent := kids', order', words + [None], paths', parent + [node];
        assert words[..old(|words|)] == old(words);
      } else {
        GrownAlongSame(kids, order, paths, w);
        GrownSame(kids, paths);
      }
      assert GrownAlong(kids0, order0, paths0, kids, order, paths, w) && Grown(kids0, paths0, kids, paths);
      child := kids[node][letter];
    }

    /**
     * The loop of insert: walk w letter by letter from the root, creating
     * each missing child, and return the node reached, whose path is w.
     */
    method WalkTo(w: string) returns (node: nat)
      requires Valid()
      modifies this
      ensures Valid() && node < |kids| && paths[node] == w
      ensures Words() == old(Words())
      ensures Walked(old(kids), old(order), old(paths), old(words), kids, order, paths, words, w)
    {
      ghost var kids0, order0, paths0, words0 := kids, order, paths, words;
      WalkedSame(kids, order, paths, words, w);
      node := 0;
      var i := 0;
      while i < |w|
        invariant 0 <= i <= |w|
        invariant Valid()
        invariant 0 <= node < |kids| && paths[node] == w[..i]
        invariant Stored(words) == Stored(words0)
        invariant Walked(kids0, order0, paths0, words0, kids, order, paths, words, w)
      {
        node := StepTo(node, w, i, kids0, order0, paths0, words0);
        i := i + 1;
      }
      assert w[..|w|] == w;
    }

    /** One pass of the loop of insert: move from the node for w[..i] to the node for w[..i + 1]. */
    method StepTo(node: nat, w: string, i: nat, ghost kids0: seq<map<char, int>>, ghost order0: seq<seq<char>>,
                  ghost paths0: seq<string>, ghost words0: seq<Option<string>>) returns (next: nat)
      requires Valid() && i < |w| && node < |kids| && paths[node] == w[..i]
      requires Stored(words) == Stored(words0)
      requires Walked(kids0, order0, paths0, words0, kids, order, paths, words, w)
      modifies this
      ensures Valid() && next < |kids| && paths[next] == w[..i + 1]
      ensures Stored(words) == Stored(words0)
      ensures Walked(kids0, order0, paths0, words0, kids, order, paths, words, w)
    {
      assert w[..i + 1] == w[..i] + [w[i]];
      ghost var kids1, order1, paths1, words1 := kids, order, paths, words;
      next := ChildFor(node, w[i]);
      WalkedStep(kids0, order0, paths0, words0, kids1, order1, paths1, words1, kids, order, paths, words, w[..i + 1], w);
    }

    /**
     * root.insert(w): walk to the node for w, creating missing children,
     * and store w there. Only nodes and links along w are added, and no
     * other node's word changes.
     */
    method Insert(w: string)
      requires Valid()
      modifies this
      ensures Valid()
      ensures Words() == old(Words()) + {w}
      ensures Grown(old(kids), old(paths), kids, paths)
      ensures GrownAlong(old(kids), old(order), old(paths), kids, order, paths, w)
      ensures forall n :: 0 <= n < old(|words|) && old(paths[n]) != w ==> words[n] == old(words[n])
    {
      var node := WalkTo(w);
      SetWord(kids, order, words, paths, parent, node, w);
      words := words[node := Some(w)];
    }
  }

  /** Two nodes with the same path are the same node. */
  lemma {:induction false} PathsInjective(t: Trie, a: nat, b: nat)
    requires t.Valid() && a < |t.kids| && b < |t.kids| && t.paths[a] == t.paths[b]
    ensures a == b
    decreases |t.paths[a]|
  {
    if a != 0 && b != 0 {
      var pa, pb := t.parent[a], t.parent[b];
      var c := t.paths[a][|t.paths[a]| - 1];
      assert t.paths[a] == t.paths[pa] + [c];
      assert t.paths[b] == t.paths[pb] + [c];
      assert t.paths[pa] == t.paths[a][..|t.paths[a]| - 1] == t.paths[pb];
      PathsInjective(t, pa, pb);
    }
  }

  /**
   * Every node whose path strictly extends the path of n lies below one of
   * n's children: the next letter of its path is a child letter of n.
   */
  lemma {:induction false} ChildOnPath(t: Trie, n: nat, m: nat)
    requires t.Valid() && n < |t.kids| && m < |t.kids| && t.paths[n] < t.paths[m]
    ensures t.paths[m][|t.paths[n]|] in t.kids[n]
    decreases m
  {
    assert m != 0;
    var pm := t.parent[m];
    var c := t.paths[m][|t.paths[m]| - 1];
    assert t.paths[m] == t.paths[pm] + [c];
    if |t.paths[pm]| == |t.paths[n]| {
      assert t.paths[pm] == t.paths[m][..|t.paths[n]|] == t.paths[n];
      PathsInjective(t, pm, n);
    } else {
      assert t.paths[n] < t.paths[pm];
      ChildOnPath(t, n, pm);
      assert t.paths[pm][|t.paths[n]|] == t.paths[m][|t.paths[n]|];
    }
  }

  /** The stored words that extend p (p included) and lie within maxCost of q. */
  ghost function Matches(t: Trie, p: string, q: string, maxCost: int): set<string>
    reads t
  {
    set m | 0 <= m < |t.words| && m < |t.paths| && t.words[m].Some? && p <= t.paths[m] && Dist(t.paths[m], q) <= maxCost
      :: t.paths[m]
  }

  /** The stored words that strictly extend p and lie within maxCost of q. */
  ghost function Below(t: Trie, p: string, q: string, maxCost: int): set<string>
    reads t
  {
    set m | 0 <= m < |t.words| && m < |t.paths| && t.words[m].Some? && p < t.paths[m] && Dist(t.paths[m], q) <= maxCost
      :: t.paths[m]
  }

  /** The words of Below(n) that lie under one of the first i children of n. */
  ghost function Covered(t: Trie, n: nat, i: nat, q: string, maxCost: int): set<string>
    reads t
    requires n < |t.paths| && n < |t.order| && i <= |t.order[n]|
  {
    var p := t.paths[n];
    set w | w in Below(t, p, q, maxCost) && |p| < |w| && w[|p|] in t.order[n][..i]
  }

  /**
   * found lists each of the words in keys once, each with its exact
   * distance to q: what a search contributes to its results list.
   */
  ghost predicate Reports(found: seq<(string, int)>, q: string, keys: set<string>) {
    && NoDup(Firsts(found))
    && (forall i :: 0 <= i < |found| ==> found[i].1 == Dist(found[i].0, q))
    && (forall w :: w in Firsts(found) <==> w in keys)
  }

  lemma ReportsNone(q: string)
    ensures Reports([], q, {})
  {
  }

  /** Two reports about disjoint sets of words concatenate into a report about their union. */
  lemma ReportsConcat(a: seq<(string, int)>, b: seq<(string, int)>, q: string, ka: set<string>, kb: set<string>)
    requires Reports(a, q, ka) && Reports(b, q, kb) && ka * kb == {}
    ensures Reports(a + b, q, ka + kb)
  {
    var fa, fb, fab := Firsts(a), Firsts(b), Firsts(a + b);
    assert fab == fa + fb;
    assert forall x :: x in ka ==> x !in kb by {
      forall x | x in ka ensures x !in kb {
        assert x in kb ==> x in ka * kb;
      }
    }
    forall i, j | 0 <= i < j < |fab| ensures fab[i] != fab[j] {
      if j < |fa| {
        assert fab[i] == fa[i] && fab[j] == fa[j];
      } else if i < |fa| {
        assert fab[i] == fa[i] && fab[i] in fa && fab[j] == fb[j - |fa|] && fab[j] in fb;
      } else {
        assert fab[i] == fb[i - |fa|] && fab[j] == fb[j - |fa|];
      }
    }
    forall i | 0 <= i < |a + b| ensures (a + b)[i].1 == Dist((a + b)[i].0, q) {
      if i >= |a| {
        assert (a + b)[i] == b[i - |a|];
      }
    }
  }

  /**
   * A results list that grew by two reports about disjoint sets of words has
   * grown by one report about their union.
   */
  lemma ExtendReport(results: seq<(string, int)>, mid: seq<(string, int)>, res: seq<(string, int)>,
                     q: string, k1: set<string>, k2: set<string>)
    requires |results| <= |mid| <= |res| && mid[..|results|] == results && res[..|mid|] == mid
    requires Reports(mid[|results|..], q, k1) && Reports(res[|mid|..], q, k2) && k1 * k2 == {}
    ensures res[..|results|] == results
    ensures Reports(res[|results|..], q, k1 + k2)
  {
    assert res[|results|..] == mid[|results|..] + res[|mid|..];
    assert res[..|results|] == mid[..|results|];
    ReportsConcat(mid[|results|..], res[|mid|..], q, k1, k2);
  }

  /** A row in which every entry is at least M stays so after one more letter. */
  lemma {:induction false} RowStepAt(a: string, c: char, q: string, M: int, j: nat)
    requires forall k :: 0 <= k <= |q| ==> Dist(a, q[..k]) >= M
    requires j <= |q|
    ensures Dist(a + [c], q[..j]) >= M
  {
    var a' := a + [c];
    assert a'[..|a'| - 1] == a;
    if j == 0 {
      assert Dist(a, q[..0]) == |a|;
    } else {
      RowStepAt(a, c, q, M, j - 1);
      assert q[..j][..j - 1] == q[..j - 1];
      assert Dist(a, q[..j]) >= M && Dist(a, q[..j - 1]) >= M;
    }
  }

  /** A lower bound on a whole row is a lower bound on the rows of every extension. */
  lemma {:induction false} ExtendBound(p: string, s: string, q: string, M: int)
    requires forall k :: 0 <= k <= |q| ==> Dist(p, q[..k]) >= M
    ensures forall k :: 0 <= k <= |q| ==> Dist(p + s, q[..k]) >= M
    decreases |s|
  {
    if s == [] {
      assert p + s == p;
    } else {
      var init := s[..|s| - 1];
      ExtendBound(p, init, q, M);
      assert p + s == (p + init) + [s[|s| - 1]];
      forall k | 0 <= k <= |q| ensures Dist(p + s, q[..k]) >= M {
        RowStepAt(p + init, s[|s| - 1], q, M, k);
      }
    }
  }

  /** Once every entry of p's row exceeds maxCost, no strict extension of p is within maxCost of q. */
  lemma PrunedWord(p: string, q: string, maxCost: int, row: seq<int>, w: string)
    requires row == Row(p, q) && MinOf(row) > maxCost && p < w
    ensures Dist(w, q) > maxCost
  {
    forall k | 0 <= k <= |q| ensures Dist(p, q[..k]) >= maxCost + 1 {
      assert row[k] == Dist(p, q[..k]);
    }
    var s := w[|p|..];
    assert w == p + s;
    assert q[..|q|] == q;
    ExtendBound(p, s, q, maxCost + 1);
  }

  /** Once every entry of p's row exceeds maxCost, nothing below p can match. */
  lemma Pruned(t: Trie, p: string, q: string, maxCost: int, row: seq<int>)
    requires row == Row(p, q) && MinOf(row) > maxCost
    ensures Below(t, p, q, maxCost) == {}
  {
    forall w | w in Below(t, p, q, maxCost) ensures false {
      var m :| 0 <= m < |t.words| && m < |t.paths| && t.words[m].Some? && p < t.paths[m]
        && Dist(t.paths[m], q) <= maxCost && t.paths[m] == w;
      PrunedWord(p, q, maxCost, row, w);
    }
  }

  /** A node's own word, if it has one within maxCost of q. */
  ghost function OwnMatch(t: Trie, n: nat, q: string, maxCost: int): set<string>
    reads t
    requires n < |t.words| && n < |t.paths|
  {
    if t.words[n].Some? && Dist(t.paths[n], q) <= maxCost then {t.paths[n]} else {}
  }

  /** The entry searchRecursive appends for a node's own word reports exactly OwnMatch. */
  lemma OwnReported(t: Trie, n: nat, q: string, maxCost: int, row: seq<int>, own: seq<(string, int)>)
    requires t.Valid() && n < |t.kids| && row == Row(t.paths[n], q)
    requires own == if row[|row| - 1] <= maxCost && t.words[n] != None then [(t.words[n].value, row[|row| - 1])] else []
    ensures Reports(own, q, OwnMatch(t, n, q, maxCost))
  {
    assert q[..|q|] == q;
    assert row[|row| - 1] == Dist(t.paths[n], q);
    if own != [] {
      assert Firsts(own) == [t.paths[n]];
    } else {
      assert Firsts(own) == [];
    }
  }

  /** A node's matches are its own word, if close enough, plus the matches below it. */
  lemma MatchesSplit(t: Trie, n: nat, q: string, maxCost: int)
    requires t.Valid() && n < |t.kids|
    ensures Matches(t, t.paths[n], q, maxCost) == OwnMatch(t, n, q, maxCost) + Below(t, t.paths[n], q, maxCost)
    ensures t.paths[n] !in Below(t, t.paths[n], q, maxCost)
  {
    var p := t.paths[n];
    forall w | w in Matches(t, p, q, maxCost) && w != p ensures w in Below(t, p, q, maxCost) {
      var m :| 0 <= m < |t.words| && m < |t.paths| && t.words[m].Some? && p <= t.paths[m]
        && Dist(t.paths[m], q) <= maxCost && t.paths[m] == w;
      assert p < t.paths[m];
    }
    if p in Matches(t, p, q, maxCost) {
      var m :| 0 <= m < |t.words| && m < |t.paths| && t.words[m].Some? && p <= t.paths[m]
        && Dist(t.paths[m], q) <= maxCost && t.paths[m] == p;
      PathsInjective(t, m, n);
    }
    if t.words[n].Some? && Dist(p, q) <= maxCost {
      assert p in Matches(t, p, q, maxCost);
    }
  }

  /** The matches from p + [c] are the matches strictly below p whose next letter is c. */
  lemma MatchesChild(t: Trie, p: string, c: char, q: string, maxCost: int, w: string)
    ensures w in Matches(t, p + [c], q, maxCost) <==> (w in Below(t, p, q, maxCost) && |p| < |w| && w[|p|] == c)
  {
    var pc := p + [c];
    if w in Matches(t, pc, q, maxCost) {
      var m :| 0 <= m < |t.words| && m < |t.paths| && t.words[m].Some? && pc <= t.paths[m]
        && Dist(t.paths[m], q) <= maxCost && t.paths[m] == w;
      assert p < t.paths[m] && w[|p|] == pc[|p|];
    }
    if w in Below(t, p, q, maxCost) && |p| < |w| && w[|p|] == c {
      var m :| 0 <= m < |t.words| && m < |t.paths| && t.words[m].Some? && p < t.paths[m]
        && Dist(t.paths[m], q) <= maxCost && t.paths[m] == w;
      assert w[..|p| + 1] == w[..|p|] + [w[|p|]];
      assert pc <= t.paths[m];
    }
  }

  /** The i-th letter in n's iteration order is a child letter of n, not listed before i, leading to n's path plus that letter. */
  lemma ChildAt(t: Trie, n: nat, i: nat)
    requires t.Valid() && n < |t.kids| && i < |t.order[n]|
    ensures t.order[n][i] in t.kids[n] && t.order[n][i] !in t.order[n][..i]
    ensures t.paths[t.kids[n][t.order[n][i]]] == t.paths[n] + [t.order[n][i]]
  {
    assert NoDup(t.order[n]);
  }

  /**
   * Within a set B of words extending p, the words whose next letter is in
   * pre + [c] are those whose next letter is in pre together with M, the
   * words whose next letter is c; the two parts are disjoint when c is not in pre.
   */
  lemma CoveredSets(B: set<string>, M: set<string>, p: string, c: char, pre: seq<char>)
    requires forall w :: w in M <==> (w in B && |p| < |w| && w[|p|] == c)
    requires c !in pre
    ensures (set w | w in B && |p| < |w| && w[|p|] in pre + [c])
         == (set w | w in B && |p| < |w| && w[|p|] in pre) + M
    ensures (set w | w in B && |p| < |w| && w[|p|] in pre) * M == {}
  {
  }

  /** Taking one more child of n into account adds exactly the matches under that child. */
  lemma CoveredStep(t: Trie, n: nat, i: nat, q: string, maxCost: int)
    requires t.Valid() && n < |t.kids| && i < |t.order[n]|
    ensures t.order[n][i] in t.kids[n]
    ensures Covered(t, n, i + 1, q, maxCost)
         == Covered(t, n, i, q, maxCost) + Matches(t, t.paths[t.kids[n][t.order[n][i]]], q, maxCost)
    ensures Covered(t, n, i, q, maxCost) * Matches(t, t.paths[t.kids[n][t.order[n][i]]], q, maxCost) == {}
  {
    ChildAt(t, n, i);
    var p := t.paths[n];
    var c := t.order[n][i];
    var pc := t.paths[t.kids[n][c]];
    var pre := t.order[n][..i];
    assert t.order[n][..i + 1] == pre + [c];
    var B := Below(t, p, q, maxCost);
    var M := Matches(t, pc, q, maxCost);
    forall w ensures w in M <==> (w in B && |p| < |w| && w[|p|] == c) {
      MatchesChild(t, p, c, q, maxCost, w);
    }
    CoveredSets(B, M, p, c, pre);
  }

  /** All the children of n together cover everything below n. */
  lemma CoveredAll(t: Trie, n: nat, q: string, maxCost: int)
    requires t.Valid() && n < |t.kids|
    ensures Covered(t, n, |t.order[n]|, q, maxCost) == Below(t, t.paths[n], q, maxCost)
  {
    var p := t.paths[n];
    assert t.order[n][..|t.order[n]|] == t.order[n];
    forall w | w in Below(t, p, q, maxCost) ensures |p| < |w| && w[|p|] in t.order[n] {
      var m :| 0 <= m < |t.words| && m < |t.paths| && t.words[m].Some? && p < t.paths[m]
        && Dist(t.paths[m], q) <= maxCost && t.paths[m] == w;
      ChildOnPath(t, n, m);
    }
  }

  /** The row of the empty word: entry j is j, Python's range(len(word) + 1). */
  lemma EmptyRow(q: string)
    ensures Row([], q) == seq(|q| + 1, j requires 0 <= j <= |q| => j)
  {
  }

  /** One entry of the row for p + [letter], from its left neighbour and the row of p: the dynamic-programming step. */
  lemma DistLast(p: string, letter: char, q: string, j: nat)
    requires 0 < j <= |q|
    ensures Dist(p + [letter], q[..j])
         == Min3(Dist(p + [letter], q[..j - 1]) + 1, Dist(p, q[..j]) + 1,
                 Dist(p, q[..j - 1]) + (if q[j - 1] != letter then 1 else 0))
  {
    var a := p + [letter];
    assert a[..|a| - 1] == p;
    assert q[..j][..j - 1] == q[..j - 1];
  }

  /**
   * One entry of the row for pp + [letter], from its left neighbour and the
   * row of pp: the cheapest of an insertion, a deletion and a replacement.
   */
  lemma RowEntry(pp: string, letter: char, word: string, previousRow: seq<int>, column: nat)
    requires previousRow == Row(pp, word) && 0 < column <= |word|
    ensures Row(pp + [letter], word)[column]
         == Min3(Row(pp + [letter], word)[column - 1] + 1, previousRow[column] + 1,
                 previousRow[column - 1] + (if word[column - 1] != letter then 1 else 0))
  {
    DistLast(pp, letter, word, column);
  }

  /**
   * One column of the row for pp + [letter]: a prefix of that row grown by
   * the cheapest of an insertion, a deletion and a replacement is the next
   * prefix.
   */
  lemma RowExtend(pp: string, letter: char, word: string, previousRow: seq<int>, cur: seq<int>, column: nat)
    requires previousRow == Row(pp, word) && 0 < column <= |word|
    requires cur == Row(pp + [letter], word)[..column]
    ensures cur + [Min3(cur[column - 1] + 1, previousRow[column] + 1,
                       previousRow[column - 1] + (if word[column - 1] != letter then 1 else 0))]
         == Row(pp + [letter], word)[..column + 1]
  {
    var target := Row(pp + [letter], word);
    assert cur[column - 1] == target[column - 1];
    RowEntry(pp, letter, word, previousRow, column);
    PrefixGrow(target, cur, column, target[column]);
  }

  /** A prefix of s grown by the next element of s is the next prefix. */
  lemma PrefixGrow<T>(s: seq<T>, cur: seq<T>, j: nat, x: T)
    requires j < |s| && cur == s[..j] && x == s[j]
    ensures cur + [x] == s[..j + 1]
  {
    assert s[..j + 1] == s[..j] + [s[j]];
  }

  /**
   * The row for one more trie letter, built column by column from the
   * previous row exactly as searchRecursive does: entry 0 is one more than
   * the previous entry 0, and entry j the cheapest of an insertion, a
   * deletion and a replacement (free when the letters agree).
   */
  method NextRow(ghost pp: string, letter: char, word: string, previousRow: seq<int>) returns (currentRow: seq<int>)
    requires previousRow == Row(pp, word)
    ensures currentRow == Row(pp + [letter], word)
  {
    ghost var target := Row(pp + [letter], word);
    var columns := |word| + 1;
    currentRow := [previousRow[0] + 1];
    var column := 1;
    while column < columns
      invariant 1 <= column <= columns
      invariant currentRow == target[..column]
    {
      var insertCost := currentRow[column - 1] + 1;
      var deleteCost := previousRow[column] + 1;
      var replaceCost;
      if word[column - 1] != letter {
        replaceCost := previousRow[column - 1] + 1;
      } else {
        replaceCost := previousRow[column - 1];
      }
      RowExtend(pp, letter, word, previousRow, currentRow, column);
      currentRow := currentRow + [Min3(insertCost, deleteCost, replaceCost)];
      column := column + 1;
    }
    assert target[..columns] == target;
  }

  /**
   * searchRecursive(node, letter, word, previousRow, results, maxCost): fill
   * in node's row from its parent's, report node's own word if its distance
   * is at most maxCost, and descend into the children unless every entry of
   * the row already exceeds maxCost. The results list is appended to.
   */
  method SearchRecursive(t: Trie, node: nat, letter: char, word: string, previousRow: seq<int>,
                         results: seq<(string, int)>, maxCost: int) returns (res: seq<(string, int)>)
    requires t.Valid() && 0 < node < |t.kids|
    requires letter == t.paths[node][|t.paths[node]| - 1]
    requires previousRow == Row(t.paths[node][..|t.paths[node]| - 1], word)
    decreases |t.kids| - node, 1
    ensures |results| <= |res| && res[..|results|] == results
    ensures Reports(res[|results|..], word, Matches(t, t.paths[node], word, maxCost))
  {
    ghost var p := t.paths[node];
    ghost var pp := p[..|p| - 1];
    assert p == pp + [letter];
    var currentRow := NextRow(pp, letter, word, previousRow);
    assert word[..|word|] == word;
    var own: seq<(string, int)> := [];
    if currentRow[|currentRow| - 1] <= maxCost && t.words[node] != None {
      own := [(t.words[node].value, currentRow[|currentRow| - 1])];
    }
    ghost var ownKeys := OwnMatch(t, node, word, maxCost);
    OwnReported(t, node, word, maxCost, currentRow, own);
    MatchesSplit(t, node, word, maxCost);
    var mid := results + own;
    assert mid[|results|..] == own;
    if MinOf(currentRow) <= maxCost {
      res := SearchBranches(t, node, word, currentRow, mid, maxCost);
    } else {
      Pruned(t, p, word, maxCost, currentRow);
      res := mid;
      assert res[|mid|..] == [];
    }
    ExtendReport(results, mid, res, word, ownKeys, Below(t, p, word, maxCost));
  }

  /**
   * The loop over node.children shared by search and searchRecursive: search
   * below each child in turn, in the children's insertion order.
   */
  method SearchBranches(t: Trie, node: nat, word: string, row: seq<int>,
                        results: seq<(string, int)>, maxCost: int) returns (res: seq<(string, int)>)
    requires t.Valid() && node < |t.kids|
    requires row == Row(t.paths[node], word)
    decreases |t.kids| - node, 0
    ensures |results| <= |res| && res[..|results|] == results
    ensures Reports(res[|results|..], word, Below(t, t.paths[node], word, maxCost))
  {
    res := results;
    var i := 0;
    while i < |t.order[node]|
      invariant 0 <= i <= |t.order[node]|
      invariant |results| <= |res| && res[..|results|] == results
      invariant Reports(res[|results|..], word, Covered(t, node, i, word, maxCost))
    {
      var letter := t.order[node][i];
      CoveredStep(t, node, i, word, maxCost);
      var child := t.kids[node][letter];
      assert t.paths[child] == t.paths[node] + [letter];
      assert t.paths[child][..|t.paths[child]| - 1] == t.paths[node];
      var res' := SearchRecursive(t, child, letter, word, row, res, maxCost);
      ExtendReport(results, res, res', word, Covered(t, node, i, word, maxCost), Matches(t, t.paths[child], word, maxCost));
      res := res';
      i := i + 1;
    }
    CoveredAll(t, node, word, maxCost);
  }

  /**
   * search(word, maxCost, trie): every word stored in the trie, other than
   * a word stored at the root, whose Levenshtein distance to `word` is at
   * most maxCost, each once and paired with that distance.
   */
  method Search(word: string, maxCost: int, trie: Trie) returns (results: seq<(string, int)>)
    requires trie.Valid()
    ensures NoDup(Firsts(results))
    ensures forall i :: 0 <= i < |results| ==> results[i].1 == Dist(results[i].0, word) && results[i].1 <= maxCost
    ensures forall w :: w in Firsts(results) <==> w in trie.Words() && |w| >= 1 && Dist(w, word) <= maxCost
  {
    var currentRow := seq(|word| + 1, j requires 0 <= j <= |word| => j);
    EmptyRow(word);
    results := SearchBranches(trie, 0, word, currentRow, [], maxCost);
    assert results[0..] == results;
    SearchSet(trie, word, maxCost);
    forall i | 0 <= i < |results| ensures results[i].1 <= maxCost {
      assert Firsts(results)[i] == results[i].0;
    }
  }

  /** What the root's branches report is the set of non-empty stored words close enough to q. */
  lemma SearchSet(t: Trie, q: string, maxCost: int)
    requires t.Valid()
    ensures forall w :: w in Below(t, [], q, maxCost) <==> w in t.Words() && |w| >= 1 && Dist(w, q) <= maxCost
  {
    forall w ensures w in Below(t, [], q, maxCost) <==> w in t.Words() && |w| >= 1 && Dist(w, q) <= maxCost {
      if w in t.Words() && |w| >= 1 && Dist(w, q) <= maxCost {
        var m :| 0 <= m < |t.words| && t.words[m].Some? && t.words[m].value == w;
        assert [] < t.paths[m];
      }
      if w in Below(t, [], q, maxCost) {
        var m :| 0 <= m < |t.words| && m < |t.paths| && t.words[m].Some? && [] < t.paths[m]
          && Dist(t.paths[m], q) <= maxCost && t.paths[m] == w;
        assert t.words[m].value == w;
      }
    }
  }

  /** The distance is zero exactly between equal words. */
  lemma {:induction false} DistZero(a: string, b: string)
    ensures Dist(a, b) == 0 <==> a == b
    decreases |a| + |b|
  {
    if |a| > 0 && |b| > 0 {
      var a', b' := a[..|a| - 1], b[..|b| - 1];
      DistZero(a', b');
      assert a == a' + [a[|a| - 1]] && b == b' + [b[|b| - 1]];
    }
  }

  /** With maxCost 0 the search is an exact lookup: the query itself, if it is stored and not empty. */
  lemma ExactSearch(t: Trie, q: string)
    requires t.Valid()
    ensures forall w :: (w in t.Words() && |w| >= 1 && Dist(w, q) <= 0) <==> (w == q && q in t.Words() && |q| >= 1)
  {
    forall w ensures (w in t.Words() && |w| >= 1 && Dist(w, q) <= 0) <==> (w == q && q in t.Words() && |q| >= 1) {
      DistZero(w, q);
    }
  }
}
