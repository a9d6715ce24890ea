/**
 * Candidate-term extraction and dictionary tagging for one document: the
 * content is split into sentences, each sentence is part-of-speech tagged
 * and chunked by every candidate grammar, the chunks labelled TermCandidate
 * are rebuilt into strings, and the union of those strings goes through the
 * linguistic filter and the corpus frequency filter. Dictionary tagging
 * accepts an indexed term that is in the dictionary, or (with fuzzy
 * matching) close to a dictionary word in the trie.
 *
 * The NLTK sentence tokeniser, the tokeniser and tagger, the regular
 * expression chunker, re.escape(w.lower()) and the similarity measure are
 * parameters; the Solr lookups are given as their results.
 */
module TaggingProcessor {
  import opened Wrappers
  import opened Strings
  import opened Dicts
  import opened TrieTagger
  import opened LinguisticPreprocessor

  /** LEVENSHTEIN_DISTANCE: the edit distance searched for fuzzy dictionary matches. */
  const LevenshteinDistance := 3

  // ---------------------------------------------------------------------
  // Dictionary tagging
  // ---------------------------------------------------------------------

  /** [d for d in dictTerms if term == d] */
  function ExactMatches(term: string, dictTerms: seq<string>): (r: seq<string>)
    ensures |r| > 0 <==> term in dictTerms
    ensures forall i :: 0 <= i < |r| ==> r[i] == term
  {
    if dictTerms == [] then []
    else (if dictTerms[0] == term then [term] else []) + ExactMatches(term, dictTerms[1..])
  }

  /** [s[0] for s in similar if sim(term, s[0]) >= threshold] */
  function SimilarEnough(similar: seq<(string, int)>, term: string, sim: (string, string) -> real, threshold: real): (r: seq<string>)
    ensures |r| > 0 <==> exists i :: 0 <= i < |similar| && sim(term, similar[i].0) >= threshold
  {
    if similar == [] then []
    else
      var rest := SimilarEnough(similar[1..], term, sim, threshold);
      assert forall i :: 1 <= i < |similar| ==> similar[i] == similar[1..][i - 1];
      (if sim(term, similar[0].0) >= threshold then [similar[0].0] else []) + rest
  }

  /**
   * The acceptance rule of term_async_comparison, stated on the trie's word
   * set: an exact dictionary match, or with fuzzy matching a non-empty
   * stored word within LinguisticDistance edits that is similar enough.
   */
  ghost predicate Accepted(term: string, dictTerms: seq<string>, fuzzy: bool, trie: Trie, threshold: real,
                           sim: (string, string) -> real)
    reads trie
  {
    || term in dictTerms
    || (fuzzy && exists w :: w in trie.Words() && |w| >= 1 && Dist(w, term) <= LevenshteinDistance
                              && sim(term, w) >= threshold)
  }

  /**
   * term_async_comparison: the indexed term itself when it is accepted, the
   * empty string otherwise.
   */
  method TermAsyncComparison(indexedTerm: string, dictTerms: seq<string>, fuzzy: bool, dictTermsTrie: Trie,
                             threshold: real, sim: (string, string) -> real) returns (r: string)
    requires dictTermsTrie.Valid()
    ensures r == if Accepted(indexedTerm, dictTerms, fuzzy, dictTermsTrie, threshold, sim) then indexedTerm else ""
  {
    var exactMatchedTerms := ExactMatches(indexedTerm, dictTerms);
    if |exactMatchedTerms| > 0 {
      return indexedTerm;
    }
    if fuzzy {
      var similarTerms := Search(indexedTerm, LevenshteinDistance, dictTermsTrie);
      if |similarTerms| > 0 {
        var filtered := SimilarEnough(similarTerms, indexedTerm, sim, threshold);
        if |filtered| > 0 {
          ghost var i :| 0 <= i < |similarTerms| && sim(indexedTerm, similarTerms[i].0) >= threshold;
          assert Firsts(similarTerms)[i] == similarTerms[i].0;
          return indexedTerm;
        }
      }
      assert forall w :: w in dictTermsTrie.Words() && |w| >= 1 && Dist(w, indexedTerm) <= LevenshteinDistance
                         ==> sim(indexedTerm, w) < threshold by {
        forall w | w in dictTermsTrie.Words() && |w| >= 1 && Dist(w, indexedTerm) <= LevenshteinDistance
          ensures sim(indexedTerm, w) < threshold
        {
          assert w in Firsts(similarTerms);
          var i :| 0 <= i < |similarTerms| && Firsts(similarTerms)[i] == w;
        }
      }
    }
    return "";
  }

  /** The terms of a set that term_async_comparison accepts, without the empty string. */
  ghost function TaggedTerms(terms: set<string>, dictTerms: seq<string>, fuzzy: bool, trie: Trie, threshold: real,
                             sim: (string, string) -> real): set<string>
    reads trie
  {
    set t | t in terms && t != "" && Accepted(t, dictTerms, fuzzy, trie, threshold, sim)
  }

  /** One more term is tagged exactly when it is accepted and not empty. */
  lemma TaggedTermsAdd(done: set<string>, t: string, dictTerms: seq<string>, fuzzy: bool, trie: Trie,
                       threshold: real, sim: (string, string) -> real)
    ensures TaggedTerms(done + {t}, dictTerms, fuzzy, trie, threshold, sim)
            == TaggedTerms(done, dictTerms, fuzzy, trie, threshold, sim)
               + (if t != "" && Accepted(t, dictTerms, fuzzy, trie, threshold, sim) then {t} else {})
  {
  }

  /**
   * term_dictionary_tagging: the indexed terms of a document that
   * term_async_comparison accepts, with the empty string dropped. The
   * worker pool is modelled as a sequential loop over the set.
   */
  method TermDictionaryTagging(indexedTerms: set<string>, dictTerms: seq<string>, fuzzy: bool, dictTermsTrie: Trie,
                               threshold: real, sim: (string, string) -> real) returns (tagged: set<string>)
    requires dictTermsTrie.Valid()
    ensures tagged <= indexedTerms && "" !in tagged
    ensures forall t :: t in indexedTerms && t != "" ==>
              (t in tagged <==> Accepted(t, dictTerms, fuzzy, dictTermsTrie, threshold, sim))
  {
    tagged := {};
    var rest := indexedTerms;
    while rest != {}
      invariant rest <= indexedTerms
      invariant tagged == TaggedTerms(indexedTerms - rest, dictTerms, fuzzy, dictTermsTrie, threshold, sim)
      decreases |rest|
    {
      var t :| t in rest;
      var r := TermAsyncComparison(t, dictTerms, fuzzy, dictTermsTrie, threshold, sim);
      TaggedTermsAdd(indexedTerms - rest, t, dictTerms, fuzzy, dictTermsTrie, threshold, sim);
      assert indexedTerms - (rest - {t}) == (indexedTerms - rest) + {t};
      if r != "" {
        tagged := tagged + {r};
      }
      rest := rest - {t};
    }
    assert indexedTerms - rest == indexedTerms;
  }

  /**
   * The dictionary trie of load_dictionary_tagging_setting: every
   * normalised dictionary term inserted when fuzzy matching is on, an empty
   * trie otherwise.
   */
  method LoadDictionaryTrie(dictTerms: seq<string>, fuzzy: bool) returns (trie: Trie)
    ensures fresh(trie) && trie.Valid()
    ensures trie.Words() == if fuzzy then set w | w in dictTerms else {}
  {
    trie := new Trie();
    if fuzzy {
      var i := 0;
      while i < |dictTerms|
        invariant 0 <= i <= |dictTerms|
        invariant fresh(trie) && trie.Valid()
        invariant trie.Words() == set w | w in dictTerms[..i]
      {
        assert dictTerms[..i + 1] == dictTerms[..i] + [dictTerms[i]];
        trie.Insert(dictTerms[i]);
        i := i + 1;
      }
      assert dictTerms[..i] == dictTerms;
    }
  }

  // ---------------------------------------------------------------------
  // Rebuilding a chunk into a candidate string
  // ---------------------------------------------------------------------

  /** A node of a chunked sentence: a tagged token, or a labelled chunk of tagged tokens. */
  datatype Node = Leaf(word: string, tag: string) | Subtree(chunkLabel: string, tokens: seq<(string, string)>)

  /**
   * One token added to the pieces built so far: a double quote is skipped,
   * a possessive is glued on, a determiner is glued on (or is an empty
   * piece when nothing came before), and any other token is preceded by a
   * space unless no piece has been added yet.
   */
  function AddToken(pieces: seq<string>, tok: (string, string)): seq<string> {
    if tok.0 == "\"" then pieces
    else if tok.1 == "POS" then pieces + [tok.0]
    else if tok.1 == "DT" then pieces + [if |pieces| == 0 then "" else tok.0]
    else pieces + [if |pieces| == 0 then "" else " "] + [tok.0]
  }

  /** The pieces for a whole chunk, token by token. */
  function PiecesOf(tokens: seq<(string, string)>): seq<string> {
    if tokens == [] then [] else AddToken(PiecesOf(tokens[..|tokens| - 1]), tokens[|tokens| - 1])
  }

  /** The string a chunk is rebuilt into: its pieces joined with ''. */
  function Surface(tokens: seq<(string, string)>): string {
    Concat(PiecesOf(tokens))
  }

  /** The reconstruction loop of parsing_candidates_regexp for one TermCandidate chunk. */
  method Reconstruct(tokens: seq<(string, string)>) returns (term: string)
    ensures term == Surface(tokens)
  {
    var termTokens: seq<string> := [];
    var i := 0;
    while i < |tokens|
      invariant 0 <= i <= |tokens|
      invariant termTokens == PiecesOf(tokens[..i])
    {
      var node := tokens[i];
      assert tokens[..i + 1][..i] == tokens[..i];
      if node.0 != "\"" {
        if node.1 == "POS" {
          termTokens := termTokens + [node.0];
        } else if node.1 == "DT" {
          termTokens := termTokens + [if |termTokens| == 0 then "" else node.0];
        } else {
          termTokens := termTokens + [if |termTokens| == 0 then "" else " "];
          termTokens := termTokens + [node.0];
        }
      }
      i := i + 1;
    }
    assert tokens[..i] == tokens;
    term := Concat(termTokens);
  }

  lemma ConcatSnoc(parts: seq<string>, s: string)
    ensures Concat(parts + [s]) == Concat(parts) + s
  {
    if parts != [] {
      assert (parts + [s])[1..] == parts[1..] + [s];
    }
  }

  lemma JoinSnoc(parts: seq<string>, s: string, sep: string)
    requires parts != []
    ensures Join(parts + [s], sep) == Join(parts, sep) + sep + s
  {
    if |parts| > 1 {
      assert (parts + [s])[1..] == parts[1..] + [s];
      JoinSnoc(parts[1..], s, sep);
    }
  }

  /** A token that reconstruction treats as an ordinary word. */
  predicate Ordinary(tok: (string, string)) {
    tok.0 != "\"" && tok.1 != "POS" && tok.1 != "DT"
  }

  function WordsOf(tokens: seq<(string, string)>): (r: seq<string>)
    ensures |r| == |tokens| && forall i :: 0 <= i < |r| ==> r[i] == tokens[i].0
  {
    seq(|tokens|, i requires 0 <= i < |tokens| => tokens[i].0)
  }

  /** A chunk of ordinary words is rebuilt into the words joined by single spaces. */
  lemma {:induction false} OrdinarySurface(tokens: seq<(string, string)>)
    requires forall i :: 0 <= i < |tokens| ==> Ordinary(tokens[i])
    ensures Surface(tokens) == Join(WordsOf(tokens), " ")
    ensures |PiecesOf(tokens)| == 2 * |tokens|
  {
    if tokens != [] {
      var init := tokens[..|tokens| - 1];
      var last := tokens[|tokens| - 1];
      OrdinarySurface(init);
      var p := PiecesOf(init);
      ConcatSnoc(p, if |p| == 0 then "" else " ");
      ConcatSnoc(p + [if |p| == 0 then "" else " "], last.0);
      assert PiecesOf(tokens) == p + [if |p| == 0 then "" else " "] + [last.0];
      assert WordsOf(tokens) == WordsOf(init) + [last.0];
      if init != [] {
        JoinSnoc(WordsOf(init), last.0, " ");
      }
    }
  }

  /** Double-quote tokens contribute nothing, wherever they stand. */
  lemma {:induction false} QuoteSkipped(before: seq<(string, string)>, q: (string, string), after: seq<(string, string)>)
    requires q.0 == "\""
    ensures PiecesOf(before + [q] + after) == PiecesOf(before + after)
    ensures Surface(before + [q] + after) == Surface(before + after)
    decreases |after|
  {
    if after == [] {
      assert before + [q] + after == before + [q];
      assert (before + [q])[..|before|] == before;
      assert before + after == before;
    } else {
      var init, last := after[..|after| - 1], after[|after| - 1];
      QuoteSkipped(before, q, init);
      assert (before + [q] + after)[..|before| + |after|] == before + [q] + init;
      assert (before + [q] + after)[|before| + |after|] == last;
      assert (before + after)[..|before| + |after| - 1] == before + init;
      assert (before + after)[|before| + |after| - 1] == last;
    }
  }

  /** The pieces a token adds once some piece has been added already. */
  function MidPiece(tok: (string, string)): seq<string> {
    if tok.0 == "\"" then []
    else if tok.1 == "POS" || tok.1 == "DT" then [tok.0]
    else [" ", tok.0]
  }

  /** The pieces tokens add once some piece has been added already. */
  function MidPieces(tokens: seq<(string, string)>): seq<string> {
    if tokens == [] then [] else MidPieces(tokens[..|tokens| - 1]) + MidPiece(tokens[|tokens| - 1])
  }

  /** Once a chunk has a piece, each further token adds its pieces independently of what came before. */
  lemma {:induction false} PiecesAfter(start: seq<(string, string)>, rest: seq<(string, string)>)
    requires PiecesOf(start) != []
    ensures PiecesOf(start + rest) == PiecesOf(start) + MidPieces(rest)
    decreases |rest|
  {
    if rest == [] {
      assert start + rest == start;
    } else {
      var init, last := rest[..|rest| - 1], rest[|rest| - 1];
      PiecesAfter(start, init);
      AppendInitLast(start, rest);
      assert PiecesOf(start + rest) == AddToken(PiecesOf(start + init), last);
      AddTokenMid(PiecesOf(start + init), last);
      assert MidPieces(rest) == MidPieces(init) + MidPiece(last);
    }
  }

  /** After the first piece, a token adds exactly its mid-chunk pieces. */
  lemma AddTokenMid(pieces: seq<string>, tok: (string, string))
    requires pieces != []
    ensures AddToken(pieces, tok) == pieces + MidPiece(tok)
  {
  }

  lemma {:induction false} MidPiecesAppend(a: seq<(string, string)>, b: seq<(string, string)>)
    ensures MidPieces(a + b) == MidPieces(a) + MidPieces(b)
    decreases |b|
  {
    if b == [] {
      assert a + b == a;
    } else {
      var init := b[..|b| - 1];
      MidPiecesAppend(a, init);
      AppendInitLast(a, b);
      assert MidPieces(a + b) == MidPieces(a + init) + MidPiece(b[|b| - 1]);
      assert MidPieces(b) == MidPieces(init) + MidPiece(b[|b| - 1]);
    }
  }

  /** Dropping the last element of a + b drops the last element of b. */
  lemma AppendInitLast<T>(a: seq<T>, b: seq<T>)
    requires b != []
    ensures (a + b)[..|a + b| - 1] == a + b[..|b| - 1] && (a + b)[|a + b| - 1] == b[|b| - 1]
  {
  }

  lemma {:induction false} ConcatAppend(a: seq<string>, b: seq<string>)
    ensures Concat(a + b) == Concat(a) + Concat(b)
  {
    if a == [] {
      assert a + b == b;
    } else {
      assert (a + b)[1..] == a[1..] + b;
      ConcatAppend(a[1..], b);
    }
  }

  /** A chunk has no piece exactly when all of its tokens are double quotes. */
  lemma {:induction false} PiecesEmpty(tokens: seq<(string, string)>)
    ensures PiecesOf(tokens) == [] <==> forall i :: 0 <= i < |tokens| ==> tokens[i].0 == "\""
  {
    if tokens != [] {
      var init := tokens[..|tokens| - 1];
      PiecesEmpty(init);
      assert forall i :: 0 <= i < |init| ==> init[i] == tokens[i];
    }
  }

  /**
   * A leading determiner becomes an empty piece: the tokens after it are
   * rebuilt as in the middle of a chunk, so a word right after it gets a
   * leading space.
   */
  lemma LeadingDeterminer(d: (string, string), rest: seq<(string, string)>)
    requires d.0 != "\"" && d.1 == "DT"
    ensures PiecesOf([d] + rest) == [""] + MidPieces(rest)
    ensures rest != [] && Ordinary(rest[0]) ==> Surface([d] + rest) == " " + Surface(rest)
  {
    LeadingPieces(d, rest);
    if rest != [] && Ordinary(rest[0]) {
      assert rest == [rest[0]] + rest[1..];
      OrdinaryMidPieces(rest[0], rest[1..]);
      assert Concat(MidPieces(rest)) == " " + Surface(rest);
      ConcatAppend([""], MidPieces(rest));
      assert Concat([""]) == "";
    }
  }

  /** The pieces of a chunk that starts with a determiner. */
  lemma LeadingPieces(d: (string, string), rest: seq<(string, string)>)
    requires d.0 != "\"" && d.1 == "DT"
    ensures PiecesOf([d] + rest) == [""] + MidPieces(rest)
  {
    assert [d][..0] == [];
    assert PiecesOf([d]) == [""];
    PiecesAfter([d], rest);
  }

  /** Rebuilt mid-chunk, tokens that start with an ordinary word give a space and then their own surface. */
  lemma OrdinaryMidPieces(w: (string, string), tail: seq<(string, string)>)
    requires Ordinary(w)
    ensures Concat(MidPieces([w] + tail)) == " " + Surface([w] + tail)
  {
    assert [w][..0] == [];
    assert PiecesOf([w]) == ["", w.0];
    assert MidPieces([w]) == [" ", w.0];
    PiecesAfter([w], tail);
    MidPiecesAppend([w], tail);
    var m := MidPieces(tail);
    ConcatAppend(["", w.0], m);
    ConcatAppend([" ", w.0], m);
    assert Concat(["", w.0]) == w.0;
    assert Concat([" ", w.0]) == " " + w.0;
  }

  /** A determiner after the first piece is glued to the text before it, with no space. */
  lemma MidDeterminer(tokens: seq<(string, string)>, d: (string, string))
    requires d.0 != "\"" && d.1 == "DT"
    ensures (exists i :: 0 <= i < |tokens| && tokens[i].0 != "\"") ==> Surface(tokens + [d]) == Surface(tokens) + d.0
    ensures (forall i :: 0 <= i < |tokens| ==> tokens[i].0 == "\"") ==> Surface(tokens + [d]) == ""
  {
    PiecesEmpty(tokens);
    assert (tokens + [d])[..|tokens|] == tokens;
    ConcatSnoc(PiecesOf(tokens), if PiecesOf(tokens) == [] then "" else d.0);
  }


  /** The rebuilt strings of the chunks labelled TermCandidate. */
  function ChunkCandidates(nodes: seq<Node>): set<string> {
    set i | 0 <= i < |nodes| && nodes[i].Subtree? && nodes[i].chunkLabel == "TermCandidate" :: Surface(nodes[i].tokens)
  }

  /**
   * parsing_candidates_regexp: chunk a tagged sentence with one grammar and
   * collect the rebuilt TermCandidate chunks; other nodes are ignored.
   */
  method ParsingCandidatesRegexp(textPosTokens: seq<(string, string)>, candidateGrammar: string,
                                 chunker: (seq<(string, string)>, string) -> seq<Node>)
    returns (termCandidates: set<string>)
    ensures termCandidates == ChunkCandidates(chunker(textPosTokens, candidateGrammar))
  {
    var candidateChunk := chunker(textPosTokens, candidateGrammar);
    termCandidates := {};
    var i := 0;
    while i < |candidateChunk|
      invariant 0 <= i <= |candidateChunk|
      invariant termCandidates == ChunkCandidates(candidateChunk[..i])
    {
      var nodeA := candidateChunk[i];
      assert candidateChunk[..i + 1][..i] == candidateChunk[..i];
      if nodeA.Subtree? && nodeA.chunkLabel == "TermCandidate" {
        var term := Reconstruct(nodeA.tokens);
        termCandidates := termCandidates + {term};
      }
      assert ChunkCandidates(candidateChunk[..i + 1]) == ChunkCandidates(candidateChunk[..i])
        + (if nodeA.Subtree? && nodeA.chunkLabel == "TermCandidate" then {Surface(nodeA.tokens)} else {}) by {
        var pre, pre' := candidateChunk[..i], candidateChunk[..i + 1];
        forall x | x in ChunkCandidates(pre') ensures x in ChunkCandidates(pre)
          + (if nodeA.Subtree? && nodeA.chunkLabel == "TermCandidate" then {Surface(nodeA.tokens)} else {}) {
          var k :| 0 <= k < |pre'| && pre'[k].Subtree? && pre'[k].chunkLabel == "TermCandidate" && Surface(pre'[k].tokens) == x;
          if k < i {
            assert pre[k] == pre'[k];
          }
        }
        forall x | x in ChunkCandidates(pre) ensures x in ChunkCandidates(pre') {
          var k :| 0 <= k < |pre| && pre[k].Subtree? && pre[k].chunkLabel == "TermCandidate" && Surface(pre[k].tokens) == x;
          assert pre'[k] == pre[k];
        }
        if nodeA.Subtree? && nodeA.chunkLabel == "TermCandidate" {
          assert pre'[i] == nodeA;
        }
      }
      i := i + 1;
    }
    assert candidateChunk[..i] == candidateChunk;
  }

  // ---------------------------------------------------------------------
  // Sentence splitting
  // ---------------------------------------------------------------------

  /** The character class [\r\n|\t]; the '|' inside it is a literal bar. */
  const SentenceSeparators: set<char> := {'\r', '\n', '|', '\t'}

  /** [s.strip() for s in parts if s.strip()] */
  function NonBlank(parts: seq<string>): seq<string> {
    KeepNonEmpty(parts, Strip)
  }

  /** [f(s) for s in parts if f(s)] */
  function KeepNonEmpty(parts: seq<string>, f: string -> string): seq<string> {
    if parts == [] then []
    else (if f(parts[0]) != [] then [f(parts[0])] else []) + KeepNonEmpty(parts[1..], f)
  }

  /** Every kept string is non-empty and the image of some part. */
  lemma {:induction false} KeptParts(parts: seq<string>, f: string -> string)
    ensures |KeepNonEmpty(parts, f)| <= |parts|
    ensures forall i :: 0 <= i < |KeepNonEmpty(parts, f)| ==>
              KeepNonEmpty(parts, f)[i] != [] && exists k :: 0 <= k < |parts| && KeepNonEmpty(parts, f)[i] == f(parts[k])
  {
    if parts != [] {
      KeptParts(parts[1..], f);
      var rest := KeepNonEmpty(parts[1..], f);
      var head := if f(parts[0]) != [] then [f(parts[0])] else [];
      var r := KeepNonEmpty(parts, f);
      assert r == head + rest;
      forall i | 0 <= i < |r|
        ensures r[i] != [] && exists k :: 0 <= k < |parts| && r[i] == f(parts[k])
      {
        if i < |head| {
          assert r[i] == f(parts[0]);
        } else {
          assert r[i] == rest[i - |head|];
          var k :| 0 <= k < |parts[1..]| && rest[i - |head|] == f(parts[1..][k]);
          assert parts[1..][k] == parts[k + 1];
        }
      }
    }
  }

  /** Only non-blank segments are kept, each some part stripped, so with no surrounding whitespace. */
  lemma NonBlankParts(parts: seq<string>)
    ensures |NonBlank(parts)| <= |parts|
    ensures forall i :: 0 <= i < |NonBlank(parts)| ==> NonBlank(parts)[i] != [] && Trimmed(NonBlank(parts)[i])
    ensures forall i :: 0 <= i < |NonBlank(parts)| ==> exists k :: 0 <= k < |parts| && NonBlank(parts)[i] == Strip(parts[k])
  {
    KeptParts(parts, Strip);
    var r := NonBlank(parts);
    forall i | 0 <= i < |r| ensures Trimmed(r[i]) {
      var k :| 0 <= k < |parts| && r[i] == Strip(parts[k]);
    }
  }

  /** The segments of the content between separator characters, stripped, blank ones dropped. */
  function Segments(content: string): (r: seq<string>)
    ensures forall i, j :: 0 <= i < |r| && 0 <= j < |r[i]| ==> r[i][j] !in SentenceSeparators
  {
    var parts := SplitAny(Strip(content), SentenceSeparators);
    var r := NonBlank(parts);
    NonBlankParts(parts);
    assert forall i, j :: 0 <= i < |r| && 0 <= j < |r[i]| ==> r[i][j] !in SentenceSeparators by {
      forall i, j | 0 <= i < |r| && 0 <= j < |r[i]| ensures r[i][j] !in SentenceSeparators {
        var k :| 0 <= k < |parts| && r[i] == Strip(parts[k]);
        StripInside(parts[k], j);
      }
    }
    r
  }

  /** [item for sublist in lists for item in sublist] */
  function Flatten(lists: seq<seq<string>>): (r: seq<string>)
    ensures forall x :: x in r <==> exists i :: 0 <= i < |lists| && x in lists[i]
  {
    if lists == [] then [] else
      var r := lists[0] + Flatten(lists[1..]);
      assert forall i :: 0 <= i < |lists| - 1 ==> lists[1..][i] == lists[i + 1];
      r
  }

  /**
   * sentence_split: the non-blank separator segments of the stripped
   * content, each handed to the sentence tokeniser, flattened in order.
   */
  function SentenceSplit(content: string, sentTokenize: string -> seq<string>): (r: seq<string>)
    ensures forall x :: x in r <==>
              exists i :: 0 <= i < |Segments(content)| && x in sentTokenize(Segments(content)[i])
  {
    TokeniseEach(Segments(content), sentTokenize)
  }

  /** The sentences of every segment, in segment order. */
  function TokeniseEach(segs: seq<string>, sentTokenize: string -> seq<string>): (r: seq<string>)
    ensures forall x :: x in r <==> exists i :: 0 <= i < |segs| && x in sentTokenize(segs[i])
  {
    var sentences := seq(|segs|, i requires 0 <= i < |segs| => sentTokenize(segs[i]));
    assert forall i :: 0 <= i < |segs| ==> sentences[i] == sentTokenize(segs[i]);
    Flatten(sentences)
  }

  /** With a tokeniser that leaves each segment whole, the sentences are exactly the segments, in order. */
  lemma {:induction false} SplitWithWholeSegments(content: string, sentTokenize: string -> seq<string>)
    requires forall s :: sentTokenize(s) == [s]
    ensures SentenceSplit(content, sentTokenize) == Segments(content)
  {
    var segs := Segments(content);
    FlattenSingletons(segs, seq(|segs|, i requires 0 <= i < |segs| => sentTokenize(segs[i])));
  }

  lemma {:induction false} FlattenSingletons(segs: seq<string>, lists: seq<seq<string>>)
    requires |lists| == |segs| && forall i :: 0 <= i < |segs| ==> lists[i] == [segs[i]]
    ensures Flatten(lists) == segs
  {
    if segs != [] {
      FlattenSingletons(segs[1..], lists[1..]);
    }
  }

  // ---------------------------------------------------------------------
  // Linguistic filter
  // ---------------------------------------------------------------------

  /**
   * The filter settings: token-count range, minimum piece length, the
   * stopword list, and re.escape(w.lower()) as a parameter.
   */
  datatype FilterConfig = FilterConfig(minTokens: int, maxTokens: int, minCharLength: int,
                                       stopwords: set<string>, escapeLower: string -> string)

  /** word_lower_func: words longer than two characters are lowered and escaped, others looked up as they are. */
  function WordKey(cfg: FilterConfig, w: string): string {
    if |w| > 2 then cfg.escapeLower(w) else w
  }

  /** Some whitespace-separated token of x maps to a stopword. */
  predicate HasStopword(cfg: FilterConfig, x: string) {
    exists k :: 0 <= k < |SplitWs(x)| && WordKey(cfg, SplitWs(x)[k]) in cfg.stopwords
  }

  /** A rejected term whose first token maps to a stopword comes back without it. */
  predicate Recoverable(cfg: FilterConfig, t: string) {
    |SplitWs(t)| > 1 && WordKey(cfg, SplitWs(t)[0]) in cfg.stopwords
  }

  /** ' '.join(t.split()[1:]) */
  function DropFirstWord(t: string): string {
    var ws := SplitWs(t);
    if ws == [] then "" else Join(ws[1..], " ")
  }

  /** No piece of x.split(' ') is shorter than n; empty pieces count as too short. */
  predicate MinCharOk(x: string, n: int) {
    forall k :: 0 <= k < |Split(x, " ")| ==> |Split(x, " ")[k]| >= n
  }

  /** The checks after the stopword stage. */
  predicate TailOk(cfg: FilterConfig, x: string) {
    && x != ""
    && cfg.minTokens <= |SplitWs(x)| <= cfg.maxTokens
    && (cfg.minCharLength > 1 ==> MinCharOk(x, cfg.minCharLength))
  }

  /**
   * linguistic_filter: the candidates without stopwords, plus the
   * recoverable rejects with their first word dropped (not checked again
   * for stopwords), then the token-count range, the minimum piece length
   * when it exceeds one, and no empty string.
   */
  function LinguisticFilter(cfg: FilterConfig, candidates: set<string>): (r: set<string>)
    ensures forall x :: x in r ==> TailOk(cfg, x)
    ensures forall x :: x in r ==>
              (x in candidates && !HasStopword(cfg, x))
              || (exists t :: t in candidates && HasStopword(cfg, t) && Recoverable(cfg, t) && x == DropFirstWord(t))
    ensures forall x :: x in candidates && !HasStopword(cfg, x) && TailOk(cfg, x) ==> x in r
    ensures forall t :: t in candidates && HasStopword(cfg, t) && Recoverable(cfg, t) && TailOk(cfg, DropFirstWord(t))
              ==> DropFirstWord(t) in r
  {
    var r := Stages(candidates, x => HasStopword(cfg, x), t => Recoverable(cfg, t), DropFirstWord,
                    x => cfg.minTokens <= |SplitWs(x)| <= cfg.maxTokens,
                    cfg.minCharLength > 1, x => MinCharOk(x, cfg.minCharLength));
    StagesSpec(candidates, x => HasStopword(cfg, x), t => Recoverable(cfg, t), DropFirstWord,
               x => cfg.minTokens <= |SplitWs(x)| <= cfg.maxTokens,
               cfg.minCharLength > 1, x => MinCharOk(x, cfg.minCharLength));
    r
  }

  /**
   * The stages of linguistic_filter over its checks: drop the candidates
   * with a stopword, add back the recoverable ones shortened, keep those in
   * the token-count range, then (when checkMin) those with long enough
   * pieces, and drop the empty string.
   */
  function Stages(candidates: set<string>, stop: string -> bool, recoverable: string -> bool, drop: string -> string,
                  inRange: string -> bool, checkMin: bool, minOk: string -> bool): set<string>
  {
    var resultSet := set x | x in candidates && !stop(x);
    var stopwordFiltered := candidates - resultSet;
    var recovered := set t | t in stopwordFiltered && recoverable(t) :: drop(t);
    var withRecovered := resultSet + recovered;
    var inRangeSet := set x | x in withRecovered && inRange(x);
    var longEnough := if checkMin then set x | x in inRangeSet && minOk(x) else inRangeSet;
    longEnough - {""}
  }

  /** A string survives the stages iff it is a stopword-free candidate or a shortened recoverable one, and passes the checks. */
  lemma StagesSpec(candidates: set<string>, stop: string -> bool, recoverable: string -> bool, drop: string -> string,
                   inRange: string -> bool, checkMin: bool, minOk: string -> bool)
    ensures forall x :: x in Stages(candidates, stop, recoverable, drop, inRange, checkMin, minOk) <==>
              && ((x in candidates && !stop(x)) || (exists t :: t in candidates && stop(t) && recoverable(t) && x == drop(t)))
              && x != "" && inRange(x) && (checkMin ==> minOk(x))
  {
  }

  /**
   * check_min_char_limit: count the ' '-separated pieces shorter than the
   * minimum and accept when there are none.
   */
  method CheckMinCharLimit(multiwordTerm: string, minCharLength: int) returns (ok: bool)
    ensures ok == MinCharOk(multiwordTerm, minCharLength)
  {
    var isExistMinChar := 0;
    var tokens := Split(multiwordTerm, " ");
    var i := 0;
    while i < |tokens|
      invariant 0 <= i <= |tokens|
      invariant isExistMinChar >= 0
      invariant (isExistMinChar == 0) == (forall k :: 0 <= k < i ==> |tokens[k]| >= minCharLength)
    {
      if |tokens[i]| < minCharLength {
        isExistMinChar := isExistMinChar + 1;
      }
      i := i + 1;
    }
    if isExistMinChar > 0 {
      return false;
    }
    return true;
  }

  // ---------------------------------------------------------------------
  // Frequency filter
  // ---------------------------------------------------------------------

  /** get_term_ttf: ttfDict[term], a KeyError when the key is missing. */
  function GetTermTtf(term: string, ttfDict: map<string, int>): (r: Result<int>)
    ensures r.Success? <==> term in ttfDict
    ensures r.Success? ==> r.value == ttfDict[term]
    ensures r.Failure? ==> r.error == KeyError
  {
    if term in ttfDict then Success(ttfDict[term]) else Failure(KeyError)
  }

  /** Every candidate has a normalised form, and that form has a total term frequency. */
  predicate AllHaveTtf(candidates: set<string>, ttfDict: map<string, int>, normedDict: map<string, string>) {
    forall t :: t in candidates ==> t in normedDict && normedDict[t] in ttfDict
  }

  /** The candidates whose normalised form occurs more than minTermFreq times in the corpus. */
  function Frequent(candidates: set<string>, minTermFreq: int, ttfDict: map<string, int>,
                    normedDict: map<string, string>): (r: set<string>)
    ensures r <= candidates
    ensures forall t :: t in r <==> (t in candidates && t in normedDict && normedDict[t] in ttfDict
                                     && ttfDict[normedDict[t]] > minTermFreq)
  {
    set t | t in candidates && t in normedDict && normedDict[t] in ttfDict && ttfDict[normedDict[t]] > minTermFreq
  }

  /**
   * What frequency_filtering returns: the empty set when the minimum is at
   * most one, a KeyError when a candidate or its normalised form has no
   * entry, and otherwise the frequent candidates.
   */
  function FrequencyResult(candidates: set<string>, minTermFreq: int, ttfDict: map<string, int>,
                           normedDict: map<string, string>): Result<set<string>>
  {
    if minTermFreq <= 1 then Success({})
    else if !AllHaveTtf(candidates, ttfDict, normedDict) then Failure(KeyError)
    else Success(Frequent(candidates, minTermFreq, ttfDict, normedDict))
  }

  /** The frequency filter never adds a term and keeps exactly the strictly frequent ones. */
  lemma FrequencyResultSubset(candidates: set<string>, minTermFreq: int, ttfDict: map<string, int>,
                              normedDict: map<string, string>)
    ensures FrequencyResult(candidates, minTermFreq, ttfDict, normedDict).Success? ==>
              FrequencyResult(candidates, minTermFreq, ttfDict, normedDict).value <= candidates
    ensures minTermFreq <= 1 ==> FrequencyResult(candidates, minTermFreq, ttfDict, normedDict) == Success({})
  {
  }

  /**
   * frequency_filtering, given the two dicts totaltermfreq is unpacked into:
   * normalised term by candidate, and total term frequency by normalised term.
   */
  method FrequencyFiltering(termCandidates: set<string>, minTermFreq: int, termsTtfDict: map<string, int>,
                            normedTermsDict: map<string, string>) returns (r: Result<set<string>>)
    ensures r == FrequencyResult(termCandidates, minTermFreq, termsTtfDict, normedTermsDict)
  {
    var filtered: set<string> := {};
    if minTermFreq > 1 {
      var rest := termCandidates;
      while rest != {}
        invariant rest <= termCandidates
        invariant AllHaveTtf(termCandidates - rest, termsTtfDict, normedTermsDict)
        invariant filtered == Frequent(termCandidates - rest, minTermFreq, termsTtfDict, normedTermsDict)
        decreases |rest|
      {
        var term :| term in rest;
        if term !in normedTermsDict {
          return Failure(KeyError);
        }
        var tcTtf := GetTermTtf(normedTermsDict[term], termsTtfDict);
        if tcTtf.Failure? {
          return Failure(KeyError);
        }
        if tcTtf.value > minTermFreq {
          filtered := filtered + {term};
        }
        rest := rest - {term};
      }
      assert termCandidates - rest == termCandidates;
    }
    return Success(filtered);
  }

  // ---------------------------------------------------------------------
  // The extraction pipeline
  // ---------------------------------------------------------------------

  /** One line of the grammar file with its newlines removed and then stripped: no newline and no surrounding whitespace remain. */
  function GrammarItem(line: string): (r: string)
    ensures '\n' !in r
    ensures Trimmed(r)
  {
    StrippedClean(ReplaceAll(line, "\n", ""), line);
    Strip(ReplaceAll(line, "\n", ""))
  }

  /** Stripping a line whose newlines are all replaced leaves no newline. */
  lemma StrippedClean(replaced: string, line: string)
    requires replaced == ReplaceAll(line, "\n", "")
    ensures '\n' !in Strip(replaced)
  {
    ReplaceCharGone(line, '\n');
    forall j | 0 <= j < |Strip(replaced)| ensures Strip(replaced)[j] != '\n' {
      StripInside(replaced, j);
    }
  }

  /** load_grammars: each line of the grammar file without its newlines and surrounding whitespace. */
  function LoadGrammars(lines: seq<string>): (r: seq<string>)
    ensures |r| == |lines|
    ensures forall i :: 0 <= i < |r| ==> r[i] == GrammarItem(lines[i])
    ensures forall i :: 0 <= i < |r| ==> '\n' !in r[i]
    ensures forall i :: 0 <= i < |r| ==> Trimmed(r[i])
  {
    seq(|lines|, i requires 0 <= i < |lines| => GrammarItem(lines[i]))
  }

  /** A grammar line starting with '#' is a comment. */
  predicate IsComment(item: string) {
    |item| > 0 && item[0] == '#'
  }

  /** The chunk rule for one part-of-speech pattern. */
  function Rule(item: string): string {
    "TermCandidate: {" + item + "}"
  }

  /** The rules of term_candidate_extraction: every pattern that is not a comment, wrapped as a TermCandidate rule, in order. */
  function CandidateGrammars(items: seq<string>): (r: seq<string>)
    ensures |r| <= |items|
    ensures forall x :: x in r <==> exists k :: 0 <= k < |items| && !IsComment(items[k]) && x == Rule(items[k])
  {
    if items == [] then []
    else
      var rest := CandidateGrammars(items[1..]);
      assert forall k :: 1 <= k < |items| ==> items[k] == items[1..][k - 1];
      (if IsComment(items[0]) then [] else [Rule(items[0])]) + rest
  }

  /** The rules built from the grammar file's lines. */
  function Grammars(lines: seq<string>): seq<string> {
    CandidateGrammars(LoadGrammars(lines))
  }

  /** The candidates of one tagged sentence under a list of grammars. */
  function SentenceCandidates(pos: seq<(string, string)>, grammars: seq<string>,
                              chunker: (seq<(string, string)>, string) -> seq<Node>): set<string> {
    UnionOver(grammars, g => ChunkCandidates(chunker(pos, g)))
  }

  /** The union of f over xs, collected from the front. */
  function UnionOver<T>(xs: seq<T>, f: T -> set<string>): set<string> {
    if xs == [] then {} else UnionOver(xs[..|xs| - 1], f) + f(xs[|xs| - 1])
  }

  lemma {:induction false} UnionOverMembers<T>(xs: seq<T>, f: T -> set<string>, x: string)
    ensures x in UnionOver(xs, f) <==> exists i :: 0 <= i < |xs| && x in f(xs[i])
  {
    if xs != [] {
      var init := xs[..|xs| - 1];
      UnionOverMembers(init, f, x);
      if x in UnionOver(init, f) {
        var i :| 0 <= i < |init| && x in f(init[i]);
        assert xs[i] == init[i];
      }
      if exists i :: 0 <= i < |xs| && x in f(xs[i]) {
        var i :| 0 <= i < |xs| && x in f(xs[i]);
        if i < |init| {
          assert init[i] == xs[i];
        }
      }
    }
  }

  /** The tagged form of a sentence: tokenised and tagged, then the tag override. */
  function Tagged(sentence: string, posTagger: string -> seq<(string, string)>): seq<(string, string)> {
    CustomisedPreprocessing(posTagger(sentence))
  }

  /** The union of the candidates of every sentence under every grammar. */
  function AllCandidates(sentences: seq<string>, grammars: seq<string>, posTagger: string -> seq<(string, string)>,
                         chunker: (seq<(string, string)>, string) -> seq<Node>): set<string> {
    UnionOver(sentences, s => SentenceCandidates(Tagged(s, posTagger), grammars, chunker))
  }

  /** A candidate of one sentence under one grammar, and nothing else, is in the union. */
  lemma {:induction false} AllCandidatesMembers(sentences: seq<string>, grammars: seq<string>,
                                                posTagger: string -> seq<(string, string)>,
                                                chunker: (seq<(string, string)>, string) -> seq<Node>, x: string)
    ensures x in AllCandidates(sentences, grammars, posTagger, chunker) <==>
            exists i, j :: 0 <= i < |sentences| && 0 <= j < |grammars|
                           && x in ChunkCandidates(chunker(Tagged(sentences[i], posTagger), grammars[j]))
  {
    UnionOverMembers(sentences, s => SentenceCandidates(Tagged(s, posTagger), grammars, chunker), x);
    forall i | 0 <= i < |sentences|
      ensures x in SentenceCandidates(Tagged(sentences[i], posTagger), grammars, chunker) <==>
              exists j :: 0 <= j < |grammars| && x in ChunkCandidates(chunker(Tagged(sentences[i], posTagger), grammars[j]))
    {
      SentenceCandidatesMembers(Tagged(sentences[i], posTagger), grammars, chunker, x);
    }
  }

  lemma {:induction false} SentenceCandidatesMembers(pos: seq<(string, string)>, grammars: seq<string>,
                                                     chunker: (seq<(string, string)>, string) -> seq<Node>, x: string)
    ensures x in SentenceCandidates(pos, grammars, chunker) <==>
            exists j :: 0 <= j < |grammars| && x in ChunkCandidates(chunker(pos, grammars[j]))
  {
    UnionOverMembers(grammars, g => ChunkCandidates(chunker(pos, g)), x);
  }

  /** The inner loop of term_candidate_extraction: one tagged sentence chunked with every grammar in turn. */
  method ParseWithGrammars(posSentContent: seq<(string, string)>, grammars: seq<string>,
                           chunker: (seq<(string, string)>, string) -> seq<Node>) returns (candidates: set<string>)
    ensures candidates == SentenceCandidates(posSentContent, grammars, chunker)
  {
    candidates := {};
    var j := 0;
    while j < |grammars|
      invariant 0 <= j <= |grammars|
      invariant candidates == SentenceCandidates(posSentContent, grammars[..j], chunker)
    {
      var posFilterCandidates := ParsingCandidatesRegexp(posSentContent, grammars[j], chunker);
      assert grammars[..j + 1][..j] == grammars[..j];
      candidates := candidates + posFilterCandidates;
      j := j + 1;
    }
    assert grammars[..j] == grammars;
  }

  /** The outer loop of term_candidate_extraction: every sentence tagged and then chunked with every grammar. */
  method CollectCandidates(sentTokenizeList: seq<string>, grammars: seq<string>,
                           posTagger: string -> seq<(string, string)>,
                           chunker: (seq<(string, string)>, string) -> seq<Node>) returns (termCandidates: set<string>)
    ensures termCandidates == AllCandidates(sentTokenizeList, grammars, posTagger, chunker)
  {
    termCandidates := {};
    var i := 0;
    while i < |sentTokenizeList|
      invariant 0 <= i <= |sentTokenizeList|
      invariant termCandidates == AllCandidates(sentTokenizeList[..i], grammars, posTagger, chunker)
    {
      var posSentContent := CustomisedPreprocessing(posTagger(sentTokenizeList[i]));
      var sentenceCandidates := ParseWithGrammars(posSentContent, grammars, chunker);
      termCandidates := termCandidates + sentenceCandidates;
      assert sentTokenizeList[..i + 1][..i] == sentTokenizeList[..i];
      i := i + 1;
    }
    assert sentTokenizeList[..i] == sentTokenizeList;
  }

  /**
   * term_candidate_extraction: every sentence of the content is tagged and
   * chunked with every grammar, the candidates are collected into one set,
   * and that set goes through the linguistic filter and then the frequency
   * filter.
   */
  method TermCandidateExtraction(content: string, grammarLines: seq<string>, sentTokenize: string -> seq<string>,
                                 posTagger: string -> seq<(string, string)>,
                                 chunker: (seq<(string, string)>, string) -> seq<Node>,
                                 cfg: FilterConfig, minTermFreq: int,
                                 termsTtfDict: map<string, int>, normedTermsDict: map<string, string>)
    returns (r: Result<set<string>>)
    ensures r == FrequencyResult(
                   LinguisticFilter(cfg, AllCandidates(SentenceSplit(content, sentTokenize), Grammars(grammarLines),
                                                       posTagger, chunker)),
                   minTermFreq, termsTtfDict, normedTermsDict)
  {
    var grammars := Grammars(grammarLines);
    var sentTokenizeList := SentenceSplit(content, sentTokenize);
    var termCandidates := CollectCandidates(sentTokenizeList, grammars, posTagger, chunker);
    var filtered := LinguisticFilter(cfg, termCandidates);
    r := FrequencyFiltering(filtered, minTermFreq, termsTtfDict, normedTermsDict);
  }
}
