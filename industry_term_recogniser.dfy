/**
 * Term ranking and indexing: the C-value of every candidate term (its
 * frequency, discounted by the frequency of the longer candidates that
 * contain it), the ranking by C-value, the cut-off into the final term set,
 * the per-document industry-term field, and the grouping of final terms
 * that share a normalised form.
 *
 * TermUtil.normalise, the Solr field analysis, the Solr term frequencies
 * and math.log(., 2) are parameters; the worker pool is an order-preserving
 * sequential map.
 */
module IndustryTermRecogniser {
  import opened Wrappers
  import opened Strings
  import opened Dicts
  import opened Sorting

  // ---------------------------------------------------------------------
  // Longer terms
  // ---------------------------------------------------------------------

  /** set(s.split(' ')) */
  function TokenSet(s: string): set<string> {
    set i | 0 <= i < |Split(s, " ")| :: Split(s, " ")[i]
  }

  /**
   * cand is a longer term of term: a different surface form with a
   * different normal form whose ' '-tokens include all of term's.
   */
  predicate IsLonger(term: string, cand: string, normalise: string -> Option<string>) {
    && term != cand
    && normalise(term).Some? && normalise(cand).Some?
    && normalise(term).value != normalise(cand).value
    && TokenSet(normalise(term).value) <= TokenSet(normalise(cand).value)
  }

  /**
   * The condition of get_longer_terms for one candidate, evaluated left to
   * right; None when normalisation raises AttributeError on the way (a
   * candidate equal to term is rejected before anything is normalised).
   */
  function LongerTest(term: string, cand: string, normalise: string -> Option<string>): (r: Option<bool>)
    ensures r == Some(true) <==> IsLonger(term, cand, normalise)
    ensures r.None? <==> term != cand && (normalise(term).None? || normalise(cand).None?)
  {
    if term == cand then Some(false)
    else if normalise(term).None? || normalise(cand).None? then None
    else Some(normalise(term).value != normalise(cand).value
              && TokenSet(normalise(term).value) <= TokenSet(normalise(cand).value))
  }

  /** The list comprehension of get_longer_terms; None when it raises AttributeError. */
  function LongerTermsScan(term: string, allCandidates: seq<string>, normalise: string -> Option<string>)
    : (r: Option<seq<string>>)
    ensures r.None? <==> exists i :: 0 <= i < |allCandidates| && LongerTest(term, allCandidates[i], normalise).None?
    ensures r.Some? ==> IsSubsequence(r.value, allCandidates)
    ensures r.Some? ==> forall c :: c in r.value <==> c in allCandidates && IsLonger(term, c, normalise)
  {
    if allCandidates == [] then Some([])
    else
      var rest := LongerTermsScan(term, allCandidates[1..], normalise);
      assert forall i :: 1 <= i < |allCandidates| ==> allCandidates[i] == allCandidates[1..][i - 1];
      match LongerTest(term, allCandidates[0], normalise)
      case None => None
      case Some(keep) =>
        if rest.None? then None
        else
          SubsequenceCons(keep, rest.value, allCandidates);
          Some((if keep then [allCandidates[0]] else []) + rest.value)
  }

  /** Normalising term or some candidate other than term raises AttributeError. */
  predicate NormaliseFails(term: string, allCandidates: seq<string>, normalise: string -> Option<string>) {
    exists i :: 0 <= i < |allCandidates| && allCandidates[i] != term
                && (normalise(term).None? || normalise(allCandidates[i]).None?)
  }

  /**
   * get_longer_terms: the candidates, in iteration order, that are longer
   * terms of term; the empty list when normalisation raises AttributeError.
   */
  function GetLongerTerms(term: string, allCandidates: seq<string>, normalise: string -> Option<string>)
    : (r: seq<string>)
    ensures term !in r
    ensures forall c :: c in r ==> c in allCandidates && IsLonger(term, c, normalise)
    ensures IsSubsequence(r, allCandidates)
    ensures NormaliseFails(term, allCandidates, normalise) ==> r == []
    ensures !NormaliseFails(term, allCandidates, normalise) ==>
              forall c :: c in allCandidates && IsLonger(term, c, normalise) ==> c in r
  {
    var scan := LongerTermsScan(term, allCandidates, normalise);
    if scan.None? then [] else scan.value
  }

  // ---------------------------------------------------------------------
  // C-value
  // ---------------------------------------------------------------------

  /** sum(values) */
  function Sum(values: seq<int>): int {
    if values == [] then 0 else values[0] + Sum(values[1..])
  }

  lemma {:induction false} SumNonNegative(values: seq<int>)
    requires forall i :: 0 <= i < |values| ==> values[i] >= 0
    ensures Sum(values) >= 0
  {
    if values != [] {
      SumNonNegative(values[1..]);
    }
  }

  /**
   * sum_ttf_candidates: the sum of the total term frequencies Solr reports
   * for the set of candidates; ttfValues gives the values of the dict
   * totaltermfreq answers with, in its order.
   */
  function SumTtfCandidates(candidates: seq<string>, ttfValues: set<string> -> seq<int>): (r: int)
    ensures var vs := ttfValues(set c | c in candidates);
      (vs == [] ==> r == 0) && ((forall i :: 0 <= i < |vs| ==> vs[i] >= 0) ==> r >= 0)
  {
    var vs := ttfValues(set c | c in candidates);
    if forall i :: 0 <= i < |vs| ==> vs[i] >= 0 then
      SumNonNegative(vs);
      Sum(vs)
    else
      Sum(vs)
  }

  /** The sum depends on the candidates as a set: order and repetition do not matter. */
  lemma SumTtfSameCandidates(a: seq<string>, b: seq<string>, ttfValues: set<string> -> seq<int>)
    requires forall c :: c in a <==> c in b
    ensures SumTtfCandidates(a, ttfValues) == SumTtfCandidates(b, ttfValues)
  {
    assert (set c | c in a) == (set c | c in b);
  }

  /**
   * The C-value formula: log2(a) times the frequency, less the mean
   * frequency of the P longer terms when there are any.
   */
  function CValue(log2a: real, freq: int, p: nat, sumFb: int): (r: real)
    ensures log2a == 0.0 ==> r == 0.0
    ensures p == 0 || sumFb == 0 ==> r == log2a * freq as real
    ensures p > 0 ==> r == log2a * freq as real - log2a * (sumFb as real / p as real)
    ensures p > 0 && log2a >= 0.0 && sumFb >= 0 ==> r <= log2a * freq as real
  {
    if p == 0 then log2a * freq as real
    else
      var mean := (1.0 / p as real) * sumFb as real;
      assert mean == sumFb as real / p as real;
      assert sumFb >= 0 ==> mean >= 0.0;
      log2a * (freq as real - mean)
  }

  /**
   * calculate: (term, C-value). The frequency request normalises the term
   * first (AttributeError when normalisation fails); the frequency is the
   * first value Solr reports for {term} (IndexError when there is none), a
   * is the number of ' '-pieces of the normalised term, and P and sum_fb
   * come from the longer terms.
   */
  function Calculate(term: string, allCandidates: seq<string>, normalise: string -> Option<string>,
                     ttfValues: set<string> -> seq<int>, log2: nat -> real): (r: Result<(string, real)>)
    ensures r.Failure? <==> ttfValues({term}) == [] || normalise(term).None?
    ensures r.Failure? ==> r.error == if normalise(term).None? then AttributeError else IndexError
    ensures r.Success? ==> r.value.0 == term
    ensures r.Success? ==>
              var longerTerms := GetLongerTerms(term, allCandidates, normalise);
              r.value.1 == CValue(log2(|Split(normalise(term).value, " ")|), ttfValues({term})[0],
                                  |longerTerms|, SumTtfCandidates(longerTerms, ttfValues))
  {
    var longerTerms := GetLongerTerms(term, allCandidates, normalise);
    match normalise(term)
    case None => Failure(AttributeError)
    case Some(normed) =>
      var termFreqs := ttfValues({term});
      if termFreqs == [] then Failure(IndexError)
      else
        var termFreq := termFreqs[0];
        var numOfTermWords := |Split(normed, " ")|;
        var log2a := log2(numOfTermWords);
        Success((term, CValue(log2a, termFreq, |longerTerms|, SumTtfCandidates(longerTerms, ttfValues))))
  }

  lemma SpaceOccurs(s: string, i: nat)
    requires OccursAt(s, " ", i)
    ensures ' ' in s
  {
    assert s[i] == s[i..i + 1][0];
  }

  lemma NoSpaceNoSeparator(s: string)
    requires ' ' !in s
    ensures Split(s, " ") == [s]
  {
    if Contains(s, " ") {
      var i: nat :| OccursAt(s, " ", i);
      SpaceOccurs(s, i);
      assert false;
    }
    SplitNoSeparator(s, " ");
  }

  /** A term whose normal form is one piece scores 0, whatever its frequency and its longer terms. */
  lemma OnePieceScoresZero(term: string, allCandidates: seq<string>, normalise: string -> Option<string>,
                           ttfValues: set<string> -> seq<int>, log2: nat -> real)
    requires log2(1) == 0.0
    requires normalise(term).Some? && ' ' !in normalise(term).value
    requires ttfValues({term}) != []
    ensures Calculate(term, allCandidates, normalise, ttfValues, log2) == Success((term, 0.0))
  {
    NoSpaceNoSeparator(normalise(term).value);
  }

  /**
   * With a positive sum of longer-term frequencies and a term of more than
   * one piece, the score grows with the number of longer terms.
   */
  lemma CValueGrowsWithP(log2a: real, freq: int, p1: nat, p2: nat, sumFb: int)
    requires log2a > 0.0 && sumFb > 0 && 0 < p1 < p2
    ensures CValue(log2a, freq, p1, sumFb) < CValue(log2a, freq, p2, sumFb)
  {
    var s := sumFb as real;
    assert (1.0 / p2 as real) * s < (1.0 / p1 as real) * s by {
      assert 1.0 / p2 as real < 1.0 / p1 as real by {
        assert (1.0 / p2 as real) * (p2 as real) == 1.0;
        assert (1.0 / p1 as real) * (p1 as real) == 1.0;
      }
    }
  }

  // ---------------------------------------------------------------------
  // Ranking and cut-off
  // ---------------------------------------------------------------------

  /** pool.starmap over the candidates: the results in candidate order, or the first error. */
  function CalculateAll(candidates: seq<string>, allCandidates: seq<string>, normalise: string -> Option<string>,
                        ttfValues: set<string> -> seq<int>, log2: nat -> real): (r: Result<seq<(string, real)>>)
    ensures r.Failure? <==> exists i :: 0 <= i < |candidates| && Calculate(candidates[i], allCandidates, normalise, ttfValues, log2).Failure?
    ensures r.Success? ==> |r.value| == |candidates|
    ensures r.Success? ==> forall i :: 0 <= i < |candidates| ==>
              r.value[i] == Calculate(candidates[i], allCandidates, normalise, ttfValues, log2).value
  {
    if candidates == [] then Success([])
    else
      var first := Calculate(candidates[0], allCandidates, normalise, ttfValues, log2);
      var rest := CalculateAll(candidates[1..], allCandidates, normalise, ttfValues, log2);
      assert forall i :: 1 <= i < |candidates| ==> candidates[i] == candidates[1..][i - 1];
      if first.Failure? then Failure(first.error)
      else if rest.Failure? then Failure(rest.error)
      else Success([first.value] + rest.value)
  }

  /** The sort key of ranking, descending: a is placed no later than b. */
  predicate ScoreGe(a: (string, real), b: (string, real)) {
    a.1 >= b.1
  }

  lemma ScoreGeTotalPreorder()
    ensures TotalPreorder(ScoreGe)
  {
  }

  /**
   * ranking: the C-value of every candidate, collected into a dict keyed
   * by term and sorted by non-increasing score (stably, so ties keep the
   * dict's order).
   */
  function Ranking(allCandidates: seq<string>, normalise: string -> Option<string>,
                   ttfValues: set<string> -> seq<int>, log2: nat -> real): (r: Result<seq<(string, real)>>)
    ensures r.Failure? <==> exists i :: 0 <= i < |allCandidates| && Calculate(allCandidates[i], allCandidates, normalise, ttfValues, log2).Failure?
    ensures r.Success? ==> NoDup(Firsts(r.value))
    ensures r.Success? ==> forall t :: t in Firsts(r.value) <==> t in allCandidates
    ensures r.Success? ==> forall i :: 0 <= i < |r.value| ==>
              Calculate(r.value[i].0, allCandidates, normalise, ttfValues, log2) == Success(r.value[i])
    ensures r.Success? ==> SortedBy(r.value, ScoreGe)
  {
    var computed := CalculateAll(allCandidates, allCandidates, normalise, ttfValues, log2);
    if computed.Failure? then Failure(computed.error)
    else
      var ranked := Sort(Items(FromPairs(computed.value)), ScoreGe);
      RankedTerms(allCandidates, normalise, ttfValues, log2, computed.value, ranked);
      ScoreGeTotalPreorder();
      Success(ranked)
  }

  /** The dict and the sort of ranking keep one pair per candidate, each its own calculation. */
  lemma RankedTerms(allCandidates: seq<string>, normalise: string -> Option<string>,
                    ttfValues: set<string> -> seq<int>, log2: nat -> real,
                    ps: seq<(string, real)>, ranked: seq<(string, real)>)
    requires |ps| == |allCandidates|
    requires forall i :: 0 <= i < |ps| ==> Calculate(allCandidates[i], allCandidates, normalise, ttfValues, log2) == Success(ps[i])
    requires ranked == Sort(Items(FromPairs(ps)), ScoreGe)
    ensures NoDup(Firsts(ranked))
    ensures forall t :: t in Firsts(ranked) <==> t in allCandidates
    ensures forall i :: 0 <= i < |ranked| ==>
              Calculate(ranked[i].0, allCandidates, normalise, ttfValues, log2) == Success(ranked[i])
  {
    var score := (t: string) => Calculate(t, allCandidates, normalise, ttfValues, log2);
    RankedBy(allCandidates, score, ps, ranked);
  }

  /**
   * A rearrangement of dict(ps), where each pair of ps is the result of a
   * calculation keyed by its own term, has each candidate once, each with
   * its own result.
   */
  lemma RankedBy(candidates: seq<string>, score: string -> Result<(string, real)>,
                 ps: seq<(string, real)>, ranked: seq<(string, real)>)
    requires forall t :: score(t).Success? ==> score(t).value.0 == t
    requires |ps| == |candidates| && forall i :: 0 <= i < |ps| ==> score(candidates[i]) == Success(ps[i])
    requires multiset(ranked) == multiset(Items(FromPairs(ps)))
    ensures NoDup(Firsts(ranked))
    ensures forall t :: t in Firsts(ranked) <==> t in candidates
    ensures forall i :: 0 <= i < |ranked| ==> score(ranked[i].0) == Success(ranked[i])
  {
    var byTerm := FromPairs(ps);
    ItemsPermutationKeys(byTerm, ranked);
    ScoredFirsts(candidates, score, ps);
    FromPairsValues(ps, (p: (string, real)) => score(p.0) == Success(p));
    RankedScores(score, byTerm, ranked);
  }

  /** Results keyed by their own terms, one per candidate, have the candidates as their terms. */
  lemma ScoredFirsts(candidates: seq<string>, score: string -> Result<(string, real)>, ps: seq<(string, real)>)
    requires forall t :: score(t).Success? ==> score(t).value.0 == t
    requires |ps| == |candidates| && forall i :: 0 <= i < |ps| ==> score(candidates[i]) == Success(ps[i])
    ensures Firsts(ps) == candidates
  {
    forall i | 0 <= i < |ps| ensures ps[i].0 == candidates[i] {
      assert score(candidates[i]) == Success(ps[i]);
    }
  }

  /** Pairs taken from a dict of results keyed by their terms are each their term's result. */
  lemma RankedScores(score: string -> Result<(string, real)>, byTerm: Dict<string, real>, ranked: seq<(string, real)>)
    requires forall k :: k in byTerm.vals ==> score(k) == Success((k, byTerm.vals[k]))
    requires forall i :: 0 <= i < |ranked| ==> ranked[i].0 in byTerm.vals && ranked[i].1 == byTerm.vals[ranked[i].0]
    ensures forall i :: 0 <= i < |ranked| ==> score(ranked[i].0) == Success(ranked[i])
  {
    forall i | 0 <= i < |ranked| ensures score(ranked[i].0) == Success(ranked[i]) {
      assert ranked[i] == (ranked[i].0, byTerm.vals[ranked[i].0]);
    }
  }

  /** The final term set: the ranked terms scoring strictly above the threshold, in ranked order. */
  function CutOff(ranked: seq<(string, real)>, cutOffThreshold: real): (r: seq<string>)
    ensures forall t :: t in r <==> exists i :: 0 <= i < |ranked| && ranked[i].0 == t && ranked[i].1 > cutOffThreshold
    ensures IsSubsequence(r, Firsts(ranked))
  {
    if ranked == [] then []
    else
      var rest := CutOff(ranked[1..], cutOffThreshold);
      assert forall i :: 1 <= i < |ranked| ==> ranked[i] == ranked[1..][i - 1];
      assert Firsts(ranked)[1..] == Firsts(ranked[1..]);
      SubsequenceCons(ranked[0].1 > cutOffThreshold, rest, Firsts(ranked));
      (if ranked[0].1 > cutOffThreshold then [ranked[0].0] else []) + rest
  }

  /**
   * On a ranking, the cut-off keeps a prefix: the first k ranked terms score
   * above the threshold and all later ones do not.
   */
  lemma {:induction false} CutOffPrefix(ranked: seq<(string, real)>, cutOffThreshold: real) returns (k: nat)
    requires SortedBy(ranked, ScoreGe)
    ensures k <= |ranked| && CutOff(ranked, cutOffThreshold) == Firsts(ranked[..k])
    ensures forall i :: 0 <= i < k ==> ranked[i].1 > cutOffThreshold
    ensures forall i :: k <= i < |ranked| ==> ranked[i].1 <= cutOffThreshold
  {
    if ranked == [] {
      k := 0;
      assert CutOff(ranked, cutOffThreshold) == Firsts(ranked[..0]);
    } else if ranked[0].1 > cutOffThreshold {
      var tail := ranked[1..];
      SortedTail(ranked);
      var k' := CutOffPrefix(tail, cutOffThreshold);
      k := k' + 1;
      CutOffPrefixCons(ranked, cutOffThreshold, k');
    } else {
      k := 0;
      NothingAbove(ranked, cutOffThreshold);
      assert Firsts(ranked[..0]) == [];
    }
  }

  /** A term above the threshold in front of a cut-off prefix of the rest lengthens that prefix by one. */
  lemma CutOffPrefixCons(ranked: seq<(string, real)>, cutOffThreshold: real, k': nat)
    requires ranked != [] && ranked[0].1 > cutOffThreshold && k' <= |ranked| - 1
    requires CutOff(ranked[1..], cutOffThreshold) == Firsts(ranked[1..][..k'])
    requires forall i :: 0 <= i < k' ==> ranked[1..][i].1 > cutOffThreshold
    requires forall i :: k' <= i < |ranked| - 1 ==> ranked[1..][i].1 <= cutOffThreshold
    ensures CutOff(ranked, cutOffThreshold) == Firsts(ranked[..k' + 1])
    ensures forall i :: 0 <= i < k' + 1 ==> ranked[i].1 > cutOffThreshold
    ensures forall i :: k' + 1 <= i < |ranked| ==> ranked[i].1 <= cutOffThreshold
  {
    FirstsCons(ranked, k');
    assert forall i :: 1 <= i < |ranked| ==> ranked[i] == ranked[1..][i - 1];
  }

  lemma FirstsCons<K, V>(ps: seq<(K, V)>, k: nat)
    requires k < |ps|
    ensures Firsts(ps[..k + 1]) == [ps[0].0] + Firsts(ps[1..][..k])
  {
    var front, rest := ps[..k + 1], ps[1..][..k];
    assert forall i :: 1 <= i < k + 1 ==> front[i] == rest[i - 1];
  }

  lemma SortedTail(ranked: seq<(string, real)>)
    requires ranked != [] && SortedBy(ranked, ScoreGe)
    ensures SortedBy(ranked[1..], ScoreGe)
  {
    var tail := ranked[1..];
    forall i, j | 0 <= i < j < |tail| ensures ScoreGe(tail[i], tail[j]) {
      assert tail[i] == ranked[i + 1] && tail[j] == ranked[j + 1];
    }
  }

  /** When the top score is not above the threshold, no term passes the cut-off. */
  lemma NothingAbove(ranked: seq<(string, real)>, cutOffThreshold: real)
    requires SortedBy(ranked, ScoreGe) && ranked != [] && ranked[0].1 <= cutOffThreshold
    ensures CutOff(ranked, cutOffThreshold) == []
    ensures forall i :: 0 <= i < |ranked| ==> ranked[i].1 <= cutOffThreshold
  {
    forall i | 0 <= i < |ranked| ensures ranked[i].1 <= cutOffThreshold {
      if i > 0 {
        assert ScoreGe(ranked[0], ranked[i]);
      }
    }
    CutOffNone(ranked, cutOffThreshold);
  }

  lemma {:induction false} CutOffNone(ranked: seq<(string, real)>, cutOffThreshold: real)
    requires forall i :: 0 <= i < |ranked| ==> ranked[i].1 <= cutOffThreshold
    ensures CutOff(ranked, cutOffThreshold) == []
  {
    if ranked != [] {
      assert forall i :: 0 <= i < |ranked[1..]| ==> ranked[1..][i] == ranked[i + 1];
      CutOffNone(ranked[1..], cutOffThreshold);
    }
  }

  // ---------------------------------------------------------------------
  // Documents in pages
  // ---------------------------------------------------------------------

  /** The batch size of the page loops. */
  const Rows := 10

  /**
   * The fields of a Solr document the pipeline reads and writes; None is a
   * field the document does not have. Multi-valued fields are sets, as
   * they are written from Python sets.
   */
  datatype Doc = Doc(content: Option<string>, docId: Option<string>, termCandidates: Option<set<string>>,
                     dictTerms: Option<set<string>>, industryTerms: Option<set<string>>)

  /** range(0, total, Rows) */
  function PageOffsets(total: nat): (r: seq<nat>)
    ensures |r| == (total + Rows - 1) / Rows
    ensures forall i :: 0 <= i < |r| ==> r[i] == i * Rows && r[i] < total
    decreases total
  {
    if total == 0 then []
    else
      var last := (total - 1) / Rows * Rows;
      PageOffsets(last) + [last]
  }

  /**
   * The industry-term field of one document: its candidates that are in
   * the final term set, with its dictionary terms when they are indexed too;
   * a document without candidates gets an empty field.
   */
  function FinalizeDoc(doc: Doc, finalTermSet: seq<string>, indexDictTermWithIndustryTerm: bool): (r: Doc)
    ensures r == doc.(industryTerms := r.industryTerms)
    ensures r.industryTerms.Some?
    ensures doc.termCandidates.None? ==> r.industryTerms.value == {}
    ensures doc.termCandidates.Some? ==> forall t :: t in r.industryTerms.value <==>
              ((t in doc.termCandidates.value && t in finalTermSet)
               || (indexDictTermWithIndustryTerm && doc.dictTerms.Some? && t in doc.dictTerms.value))
  {
    match doc.termCandidates
    case None => doc.(industryTerms := Some({}))
    case Some(termCandidates) =>
      var filteredCandidates := set c | c in termCandidates && c in finalTermSet;
      var withDict := if indexDictTermWithIndustryTerm && doc.dictTerms.Some? && doc.dictTerms.value != {}
                      then filteredCandidates + doc.dictTerms.value else filteredCandidates;
      doc.(industryTerms := Some(withDict))
  }

  /** The documents of a page that are committed: the finalised ones that have candidates. */
  function CommitsOf(docs: seq<Doc>, finalTermSet: seq<string>, indexDictTermWithIndustryTerm: bool): (r: seq<Doc>)
    ensures |r| <= |docs|
    ensures forall d :: d in r ==> exists i :: 0 <= i < |docs| && docs[i].termCandidates.Some?
                                             && d == FinalizeDoc(docs[i], finalTermSet, indexDictTermWithIndustryTerm)
    ensures forall i :: 0 <= i < |docs| && docs[i].termCandidates.Some? ==>
              FinalizeDoc(docs[i], finalTermSet, indexDictTermWithIndustryTerm) in r
  {
    if docs == [] then []
    else
      var init := docs[..|docs| - 1];
      var doc := docs[|docs| - 1];
      var rest := CommitsOf(init, finalTermSet, indexDictTermWithIndustryTerm);
      assert forall i :: 0 <= i < |init| ==> init[i] == docs[i];
      rest + if doc.termCandidates.Some? then [FinalizeDoc(doc, finalTermSet, indexDictTermWithIndustryTerm)] else []
  }

  /**
   * The document loop of one page of final_term_set_indexing: every
   * document gets its industry-term field, and those with candidates are
   * the batch to commit.
   */
  method FinalizePage(docs: seq<Doc>, finalTermSet: seq<string>, indexDictTermWithIndustryTerm: bool)
    returns (updated: seq<Doc>, curDocsToCommits: seq<Doc>)
    ensures |updated| == |docs|
    ensures forall i :: 0 <= i < |docs| ==> updated[i] == FinalizeDoc(docs[i], finalTermSet, indexDictTermWithIndustryTerm)
    ensures curDocsToCommits == CommitsOf(docs, finalTermSet, indexDictTermWithIndustryTerm)
  {
    updated := [];
    curDocsToCommits := [];
    var i := 0;
    while i < |docs|
      invariant 0 <= i <= |docs|
      invariant |updated| == i
      invariant forall k :: 0 <= k < i ==> updated[k] == FinalizeDoc(docs[k], finalTermSet, indexDictTermWithIndustryTerm)
      invariant curDocsToCommits == CommitsOf(docs[..i], finalTermSet, indexDictTermWithIndustryTerm)
    {
      var doc := docs[i];
      assert docs[..i + 1][..i] == docs[..i];
      if doc.termCandidates.Some? {
        var termCandidates := doc.termCandidates.value;
        var filteredCandidates := set c | c in termCandidates && c in finalTermSet;
        if indexDictTermWithIndustryTerm && doc.dictTerms.Some? {
          var dictTerms := doc.dictTerms.value;
          if dictTerms != {} {
            filteredCandidates := filteredCandidates + dictTerms;
          }
        }
        doc := doc.(industryTerms := Some(filteredCandidates));
        curDocsToCommits := curDocsToCommits + [doc];
      } else {
        doc := doc.(industryTerms := Some({}));
      }
      updated := updated + [doc];
      i := i + 1;
    }
    assert docs[..i] == docs;
  }

  /**
   * final_term_set_indexing: one committed batch per page of Rows
   * documents; loadDocuments(offset) stands for the page Solr returns.
   */
  method FinalTermSetIndexing(totalDocSize: nat, loadDocuments: nat -> seq<Doc>, finalTermSet: seq<string>,
                              indexDictTermWithIndustryTerm: bool) returns (batches: seq<seq<Doc>>)
    ensures |batches| == |PageOffsets(totalDocSize)|
    ensures forall p :: 0 <= p < |batches| ==>
              batches[p] == CommitsOf(loadDocuments(p * Rows), finalTermSet, indexDictTermWithIndustryTerm)
  {
    batches := [];
    var offsets := PageOffsets(totalDocSize);
    var p := 0;
    while p < |offsets|
      invariant 0 <= p <= |offsets|
      invariant |batches| == p
      invariant forall q :: 0 <= q < p ==>
                  batches[q] == CommitsOf(loadDocuments(q * Rows), finalTermSet, indexDictTermWithIndustryTerm)
    {
      var nextCursor := offsets[p];
      var docs := loadDocuments(nextCursor);
      var updated, curDocsToCommits := FinalizePage(docs, finalTermSet, indexDictTermWithIndustryTerm);
      batches := batches + [curDocsToCommits];
      p := p + 1;
    }
  }

  /**
   * One document of batch_candidate_tagging: its content and id are
   * required (KeyError otherwise), its candidates are extracted, and with
   * dictionary tagging on its dictionary terms are looked up by id.
   */
  function TagDoc(doc: Doc, extract: string -> Result<set<string>>, dictTagging: bool,
                  dictionaryTagging: string -> set<string>): (r: Result<Doc>)
    ensures doc.content.None? || doc.docId.None? ==> r == Failure(KeyError)
    ensures doc.content.Some? && doc.docId.Some? && extract(doc.content.value).Failure? ==>
              r == Failure(extract(doc.content.value).error)
    ensures r.Success? ==> r.value.termCandidates == Some(extract(doc.content.value).value)
    ensures r.Success? ==> r.value.dictTerms == if dictTagging then Some(dictionaryTagging(doc.docId.value)) else doc.dictTerms
    ensures r.Success? ==> r.value.(termCandidates := doc.termCandidates, dictTerms := doc.dictTerms) == doc
  {
    if doc.content.None? || doc.docId.None? then Failure(KeyError)
    else
      var termCandidates :- extract(doc.content.value);
      var tagged := doc.(termCandidates := Some(termCandidates));
      if dictTagging then Success(tagged.(dictTerms := Some(dictionaryTagging(doc.docId.value))))
      else Success(tagged)
  }

  /** Every document of a page tagged, or the first error. */
  function TagPage(docs: seq<Doc>, extract: string -> Result<set<string>>, dictTagging: bool,
                   dictionaryTagging: string -> set<string>): (r: Result<seq<Doc>>)
    ensures r.Success? <==> forall i :: 0 <= i < |docs| ==> TagDoc(docs[i], extract, dictTagging, dictionaryTagging).Success?
    ensures r.Success? ==> |r.value| == |docs| && forall i :: 0 <= i < |docs| ==>
              r.value[i] == TagDoc(docs[i], extract, dictTagging, dictionaryTagging).value
    ensures r.Failure? ==> exists i :: 0 <= i < |docs| && TagDoc(docs[i], extract, dictTagging, dictionaryTagging) == Failure(r.error)
  {
    if docs == [] then Success([])
    else
      var first := TagDoc(docs[0], extract, dictTagging, dictionaryTagging);
      var rest := TagPage(docs[1..], extract, dictTagging, dictionaryTagging);
      assert forall i :: 1 <= i < |docs| ==> docs[i] == docs[1..][i - 1];
      if first.Failure? then Failure(first.error)
      else if rest.Failure? then Failure(rest.error)
      else Success([first.value] + rest.value)
  }

  /** The error of a page is the error of its first failing document. */
  lemma {:induction false} TagPageFirstError(docs: seq<Doc>, i: nat, extract: string -> Result<set<string>>,
                                             dictTagging: bool, dictionaryTagging: string -> set<string>)
    requires i < |docs|
    requires forall k :: 0 <= k < i ==> TagDoc(docs[k], extract, dictTagging, dictionaryTagging).Success?
    requires TagDoc(docs[i], extract, dictTagging, dictionaryTagging).Failure?
    ensures TagPage(docs, extract, dictTagging, dictionaryTagging)
            == Failure(TagDoc(docs[i], extract, dictTagging, dictionaryTagging).error)
  {
    if i > 0 {
      assert forall k :: 0 <= k < i - 1 ==> docs[1..][k] == docs[k + 1];
      TagPageFirstError(docs[1..], i - 1, extract, dictTagging, dictionaryTagging);
      assert docs[1..][i - 1] == docs[i];
    }
  }

  /** The document loop of one page of batch_candidate_tagging. */
  method TagPageLoop(docs: seq<Doc>, extract: string -> Result<set<string>>, dictTagging: bool,
                     dictionaryTagging: string -> set<string>) returns (r: Result<seq<Doc>>)
    ensures r == TagPage(docs, extract, dictTagging, dictionaryTagging)
  {
    var curDocsToCommits: seq<Doc> := [];
    var i := 0;
    while i < |docs|
      invariant 0 <= i <= |docs|
      invariant |curDocsToCommits| == i
      invariant forall k :: 0 <= k < i ==> TagDoc(docs[k], extract, dictTagging, dictionaryTagging).Success?
                                           && curDocsToCommits[k] == TagDoc(docs[k], extract, dictTagging, dictionaryTagging).value
    {
      var tagged := TagDoc(docs[i], extract, dictTagging, dictionaryTagging);
      if tagged.Failure? {
        TagPageFirstError(docs, i, extract, dictTagging, dictionaryTagging);
        return Failure(tagged.error);
      }
      curDocsToCommits := curDocsToCommits + [tagged.value];
      i := i + 1;
    }
    ghost var whole := TagPage(docs, extract, dictTagging, dictionaryTagging);
    assert whole.Success?;
    assert whole.value == curDocsToCommits;
    return Success(curDocsToCommits);
  }

  /**
   * batch_candidate_tagging: one committed batch per page of Rows
   * documents, each document with its extracted candidates (and its
   * dictionary terms); an error ends the run, after the batches of the
   * pages before it were committed.
   */
  method BatchCandidateTagging(totalDocSize: nat, loadDocuments: nat -> seq<Doc>,
                               extract: string -> Result<set<string>>, dictTagging: bool,
                               dictionaryTagging: string -> set<string>)
    returns (batches: seq<seq<Doc>>, err: Option<PyError>)
    ensures |batches| <= |PageOffsets(totalDocSize)|
    ensures forall p :: 0 <= p < |batches| ==>
              TagPage(loadDocuments(p * Rows), extract, dictTagging, dictionaryTagging) == Success(batches[p])
    ensures err.None? ==> |batches| == |PageOffsets(totalDocSize)|
    ensures err.Some? ==> |batches| < |PageOffsets(totalDocSize)|
                          && TagPage(loadDocuments(|batches| * Rows), extract, dictTagging, dictionaryTagging)
                             == Failure(err.value)
  {
    batches := [];
    var offsets := PageOffsets(totalDocSize);
    var p := 0;
    while p < |offsets|
      invariant 0 <= p <= |offsets|
      invariant |batches| == p
      invariant forall q :: 0 <= q < p ==>
                  TagPage(loadDocuments(q * Rows), extract, dictTagging, dictionaryTagging) == Success(batches[q])
    {
      var docs := loadDocuments(offsets[p]);
      var curDocsToCommits := TagPageLoop(docs, extract, dictTagging, dictionaryTagging);
      if curDocsToCommits.Failure? {
        return batches, Some(curDocsToCommits.error);
      }
      batches := batches + [curDocsToCommits.value];
      p := p + 1;
    }
    return batches, None;
  }

  // ---------------------------------------------------------------------
  // Synonym aggregation
  // ---------------------------------------------------------------------

  /** sorted() on (term, normal form) items with distinct terms: by term. */
  predicate TermLe(a: (string, string), b: (string, string)) {
    StrLe(a.0, b.0)
  }

  lemma TermLeTotalPreorder()
    ensures TotalPreorder(TermLe)
  {
    forall a: (string, string), b: (string, string) ensures TermLe(a, b) || TermLe(b, a) {
      StrLeTotal(a.0, b.0);
    }
    forall a: (string, string), b: (string, string), c: (string, string) | TermLe(a, b) && TermLe(b, c)
      ensures TermLe(a, c)
    {
      StrLeTransitive(a.0, b.0, c.0);
    }
  }

  /** The normal forms of the items, in order. */
  function Norms(items: seq<(string, string)>): (r: seq<string>)
    ensures |r| == |items| && forall i :: 0 <= i < |items| ==> r[i] == items[i].1
  {
    seq(|items|, i requires 0 <= i < |items| => items[i].1)
  }

  /** The terms of the items whose normal form is n, in order. */
  function TermsWithNorm(items: seq<(string, string)>, n: string): (r: seq<string>)
    ensures forall x :: x in r <==> exists i :: 0 <= i < |items| && items[i] == (x, n)
  {
    if items == [] then []
    else
      var init := items[..|items| - 1];
      var last := items[|items| - 1];
      assert forall i :: 0 <= i < |init| ==> init[i] == items[i];
      TermsWithNorm(init, n) + if last.1 == n then [last.0] else []
  }

  /** Each string comes before the next one in str order, and none repeats. */
  predicate StrictlyAscending(g: seq<string>) {
    forall a, b :: 0 <= a < b < |g| ==> StrLe(g[a], g[b]) && g[a] != g[b]
  }

  /** Over items with strictly ascending terms, each group is strictly ascending. */
  lemma {:induction false} TermsWithNormAscending(items: seq<(string, string)>, n: string)
    requires StrictlyAscending(Firsts(items))
    ensures StrictlyAscending(TermsWithNorm(items, n))
  {
    if items != [] {
      var init := items[..|items| - 1];
      var last := items[|items| - 1];
      assert forall i :: 0 <= i < |init| ==> init[i] == items[i];
      assert Firsts(init) == Firsts(items)[..|init|];
      TermsWithNormAscending(init, n);
      var g0 := TermsWithNorm(init, n);
      forall a | 0 <= a < |g0| ensures StrLe(g0[a], last.0) && g0[a] != last.0 {
        assert g0[a] in g0;
        var i :| 0 <= i < |init| && init[i] == (g0[a], n);
        assert items[i] == init[i];
        assert Firsts(items)[i] == g0[a] && Firsts(items)[|items| - 1] == last.0;
      }
      var g := TermsWithNorm(items, n);
      if last.1 == n {
        assert g == g0 + [last.0];
        forall a, b | 0 <= a < b < |g| ensures StrLe(g[a], g[b]) && g[a] != g[b] {
          if b == |g0| {
            assert g[b] == last.0 && g[a] == g0[a];
          } else {
            assert g[a] == g0[a] && g[b] == g0[b];
          }
        }
      } else {
        assert g == g0;
      }
    }
  }

  /** The first term of a normal form's group is the term of the first item with that normal form. */
  lemma {:induction false} TermsWithNormHead(items: seq<(string, string)>, n: string, i: nat)
    requires i < |items| && items[i].1 == n && forall k :: 0 <= k < i ==> items[k].1 != n
    ensures TermsWithNorm(items, n) != [] && TermsWithNorm(items, n)[0] == items[i].0
  {
    var init, last := items[..|items| - 1], items[|items| - 1];
    assert forall k :: 0 <= k < |init| ==> init[k] == items[k];
    if i < |init| {
      TermsWithNormHead(init, n, i);
    } else {
      TermsWithNormAbsent(init, n);
    }
  }

  /** Each group comes before the next in str order of the groups' first terms. */
  predicate HeadsAscending(groups: seq<seq<string>>) {
    forall j1, j2 :: 0 <= j1 < j2 < |groups| && groups[j1] != [] && groups[j2] != [] ==>
      StrLe(groups[j1][0], groups[j2][0]) && groups[j1][0] != groups[j2][0]
  }

  /** Over strictly ascending items, the groups in key order ascend by their first terms. */
  lemma GroupHeadsAscend(items: seq<(string, string)>, v: Dict<string, seq<string>>)
    requires GroupedUpTo(v, items) && StrictlyAscending(Firsts(items))
    ensures HeadsAscending(GroupsOf(v))
  {
    var groups := GroupsOf(v);
    forall j1, j2 | 0 <= j1 < j2 < |groups| && groups[j1] != [] && groups[j2] != []
      ensures StrLe(groups[j1][0], groups[j2][0]) && groups[j1][0] != groups[j2][0]
    {
      GroupHeadPair(items, v, j1, j2);
    }
  }

  /** Two groups in key order, by the first items of their normal forms. */
  lemma GroupHeadPair(items: seq<(string, string)>, v: Dict<string, seq<string>>, j1: nat, j2: nat)
    requires GroupedUpTo(v, items) && StrictlyAscending(Firsts(items)) && j1 < j2 < |v.keys|
    ensures v.vals[v.keys[j1]] != [] && v.vals[v.keys[j2]] != []
    ensures StrLe(v.vals[v.keys[j1]][0], v.vals[v.keys[j2]][0]) && v.vals[v.keys[j1]][0] != v.vals[v.keys[j2]][0]
  {
    DistinctFirstIndexOrder(Norms(items), j1, j2);
    GroupHead(items, v, j1);
    GroupHead(items, v, j2);
    AscendingAt(Firsts(items), FirstIndex(Norms(items), v.keys[j1]), FirstIndex(Norms(items), v.keys[j2]));
  }

  /** A group's first term is the term of the first item with the group's normal form. */
  lemma GroupHead(items: seq<(string, string)>, v: Dict<string, seq<string>>, j: nat)
    requires GroupedUpTo(v, items) && j < |v.keys|
    ensures v.keys[j] in Norms(items)
    ensures v.vals[v.keys[j]] != [] && v.vals[v.keys[j]][0] == Firsts(items)[FirstIndex(Norms(items), v.keys[j])]
  {
    var n := v.keys[j];
    assert n in Distinct(Norms(items));
    var i := FirstIndex(Norms(items), n);
    TermsWithNormHead(items, n, i);
  }

  /** Two positions of a strictly ascending sequence, in order. */
  lemma AscendingAt(g: seq<string>, a: nat, b: nat)
    requires StrictlyAscending(g) && a < b < |g|
    ensures StrLe(g[a], g[b]) && g[a] != g[b]
  {
  }

  /** The groups exported by synonym_aggregation: one per normal form, in the order of v's keys. */
  function GroupsOf(v: Dict<string, seq<string>>): (r: seq<seq<string>>)
    requires Valid(v)
    ensures |r| == |v.keys| && forall j :: 0 <= j < |r| ==> r[j] == v.vals[v.keys[j]]
  {
    seq(|v.keys|, j requires 0 <= j < |v.keys| => v.vals[v.keys[j]])
  }

  /** A grouping of terms by normal form: each term in exactly one group, every group sorted. */
  ghost predicate GroupsPartition(groups: seq<seq<string>>, terms: seq<string>, analyse: string -> string) {
    && (forall j :: 0 <= j < |groups| ==> groups[j] != [])
    && (forall j, k :: 0 <= j < |groups| && 0 <= k < |groups[j]| ==>
          groups[j][k] in terms && analyse(groups[j][k]) == analyse(groups[j][0]))
    && (forall j1, j2 :: 0 <= j1 < j2 < |groups| ==> analyse(groups[j1][0]) != analyse(groups[j2][0]))
    && (forall t :: t in terms ==> exists j, k :: 0 <= j < |groups| && 0 <= k < |groups[j]| && groups[j][k] == t)
    && (forall j :: 0 <= j < |groups| ==> StrictlyAscending(groups[j]))
  }

  /** The (term, normal form) items of synonym_aggregation in the order it visits them. */
  function SortedNormItems(terms: seq<string>, analyse: string -> string): seq<(string, string)> {
    Sort(Items(FromPairs(NormPairs(terms, analyse))), TermLe)
  }

  /** The (term, normal form) pairs that norm_term_dict is built from. */
  function NormPairs(terms: seq<string>, analyse: string -> string): (r: seq<(string, string)>)
    ensures |r| == |terms| && forall i :: 0 <= i < |terms| ==> r[i] == (terms[i], analyse(terms[i]))
  {
    seq(|terms|, i requires 0 <= i < |terms| => (terms[i], analyse(terms[i])))
  }

  /** v is v.setdefault(norm, []).append(term) applied to every item in order. */
  ghost predicate GroupedUpTo(v: Dict<string, seq<string>>, items: seq<(string, string)>) {
    && Valid(v)
    && v.keys == Distinct(Norms(items))
    && forall n :: n in v.vals ==> v.vals[n] == TermsWithNorm(items, n)
  }

  /** v.setdefault(n, []).append(t) */
  function SetDefaultAppend(v: Dict<string, seq<string>>, n: string, t: string): (r: Dict<string, seq<string>>)
    requires Valid(v)
    ensures Valid(r)
    ensures r.keys == if n in v.vals then v.keys else v.keys + [n]
    ensures r.vals == v.vals[n := (if n in v.vals then v.vals[n] else []) + [t]]
  {
    Put(v, n, (if n in v.vals then v.vals[n] else []) + [t])
  }

  /** A normal form no item has collects no terms. */
  lemma TermsWithNormAbsent(items: seq<(string, string)>, n: string)
    requires n !in Norms(items)
    ensures TermsWithNorm(items, n) == []
  {
    forall k | 0 <= k < |items| ensures items[k].1 != n {
      assert Norms(items)[k] == items[k].1;
    }
  }

  /** One step of the grouping loop keeps GroupedUpTo. */
  lemma GroupStep(v: Dict<string, seq<string>>, items: seq<(string, string)>, item: (string, string))
    requires GroupedUpTo(v, items)
    ensures GroupedUpTo(SetDefaultAppend(v, item.1, item.0), items + [item])
  {
    var v' := SetDefaultAppend(v, item.1, item.0);
    GroupStepKeys(v, items, item);
    GroupStepTerms(v, items, item);
    assert Valid(v');
  }

  /** The step adds the item's normal form to the keys exactly when it is new. */
  lemma GroupStepKeys(v: Dict<string, seq<string>>, items: seq<(string, string)>, item: (string, string))
    requires GroupedUpTo(v, items)
    ensures (item.1 in v.vals <==> item.1 in Norms(items))
    ensures SetDefaultAppend(v, item.1, item.0).keys == Distinct(Norms(items + [item]))
  {
    assert item.1 in v.vals <==> item.1 in Distinct(Norms(items));
    NormsSnoc(items, item);
  }

  /** The step appends the item's term to the terms of its own normal form only. */
  lemma GroupStepTerms(v: Dict<string, seq<string>>, items: seq<(string, string)>, item: (string, string))
    requires GroupedUpTo(v, items)
    requires item.1 in v.vals <==> item.1 in Norms(items)
    ensures var v' := SetDefaultAppend(v, item.1, item.0);
      forall n :: n in v'.vals ==> v'.vals[n] == TermsWithNorm(items + [item], n)
  {
    var v' := SetDefaultAppend(v, item.1, item.0);
    if item.1 !in v.vals {
      TermsWithNormAbsent(items, item.1);
    }
    forall n | n in v'.vals ensures v'.vals[n] == TermsWithNorm(items + [item], n) {
      TermsWithNormSnoc(items, item, n);
    }
  }

  /** One more item adds its normal form to the distinct ones unless it is there already. */
  lemma NormsSnoc(items: seq<(string, string)>, item: (string, string))
    ensures Distinct(Norms(items + [item])) ==
            if item.1 in Norms(items) then Distinct(Norms(items)) else Distinct(Norms(items)) + [item.1]
  {
    var items' := items + [item];
    assert items'[..|items|] == items;
    assert Norms(items')[..|items|] == Norms(items);
  }

  /** One more item adds its term to the terms of its own normal form only. */
  lemma TermsWithNormSnoc(items: seq<(string, string)>, item: (string, string), n: string)
    ensures TermsWithNorm(items + [item], n) == TermsWithNorm(items, n) + if item.1 == n then [item.0] else []
  {
    assert (items + [item])[..|items|] == items;
  }

  /** The loop of synonym_aggregation: v.setdefault(value, []).append(key) for each item. */
  method GroupByNorm(items: seq<(string, string)>) returns (v: Dict<string, seq<string>>)
    ensures GroupedUpTo(v, items)
  {
    v := Empty();
    var i := 0;
    while i < |items|
      invariant 0 <= i <= |items|
      invariant GroupedUpTo(v, items[..i])
    {
      GroupStep(v, items[..i], items[i]);
      PrefixSnoc(items, i);
      v := SetDefaultAppend(v, items[i].1, items[i].0);
      i := i + 1;
    }
    assert items[..i] == items;
  }

  /**
   * synonym_aggregation: nothing when exporting term variants is off;
   * otherwise the terms grouped by normal form, each term in one group,
   * each group sorted, and the groups in the order of their first terms.
   */
  method SynonymAggregation(exportTermVariants: bool, terms: seq<string>, analyse: string -> string)
    returns (aggregatedTerms: Option<seq<seq<string>>>)
    ensures !exportTermVariants ==> aggregatedTerms.None?
    ensures exportTermVariants ==> aggregatedTerms.Some? && GroupsPartition(aggregatedTerms.value, terms, analyse)
    ensures exportTermVariants ==> HeadsAscending(aggregatedTerms.value)
  {
    if !exportTermVariants {
      return None;
    }
    var items := SortedNormItems(terms, analyse);
    var v := GroupByNorm(items);
    var groups := GroupsOf(v);
    SynonymResult(terms, analyse, items, v);
    return Some(groups);
  }

  /**
   * What the sorted items are: each pairs a term with its normal form, every
   * term occurs, and the terms strictly ascend.
   */
  lemma SortedItemsFacts(terms: seq<string>, analyse: string -> string, items: seq<(string, string)>)
    requires items == SortedNormItems(terms, analyse)
    ensures forall i :: 0 <= i < |items| ==> items[i].1 == analyse(items[i].0) && items[i].0 in terms
    ensures forall t :: t in terms ==> t in Firsts(items)
    ensures StrictlyAscending(Firsts(items))
  {
    var normTermDict := FromPairs(NormPairs(terms, analyse));
    ItemsPermutationKeys(normTermDict, items);
    SortedItemsPairs(terms, analyse, normTermDict, items);
    SortedItemsCover(terms, analyse, normTermDict, items);
    TermLeTotalPreorder();
    forall i, j | 0 <= i < j < |items| ensures StrLe(Firsts(items)[i], Firsts(items)[j]) && Firsts(items)[i] != Firsts(items)[j] {
      assert TermLe(items[i], items[j]);
    }
  }

  lemma SortedItemsPairs(terms: seq<string>, analyse: string -> string, normTermDict: Dict<string, string>,
                         items: seq<(string, string)>)
    requires normTermDict == FromPairs(NormPairs(terms, analyse))
    requires forall i :: 0 <= i < |items| ==> items[i].0 in normTermDict.vals && items[i].1 == normTermDict.vals[items[i].0]
    ensures forall i :: 0 <= i < |items| ==> items[i].1 == analyse(items[i].0) && items[i].0 in terms
  {
    forall i | 0 <= i < |items| ensures items[i].1 == analyse(items[i].0) && items[i].0 in terms {
      NormPairsValue(terms, analyse, items[i].0, normTermDict.vals[items[i].0]);
    }
  }

  /** A value the pairs hold for a term is that term's normal form. */
  lemma NormPairsValue(terms: seq<string>, analyse: string -> string, k: string, v: string)
    requires IsLastValue(NormPairs(terms, analyse), k, v)
    ensures v == analyse(k) && k in terms
  {
    var pairs := NormPairs(terms, analyse);
    var j :| 0 <= j < |pairs| && pairs[j] == (k, v) && forall m :: j < m < |pairs| ==> pairs[m].0 != k;
    assert terms[j] == k;
  }

  lemma SortedItemsCover(terms: seq<string>, analyse: string -> string, normTermDict: Dict<string, string>,
                         items: seq<(string, string)>)
    requires normTermDict == FromPairs(NormPairs(terms, analyse))
    requires forall k :: k in Firsts(items) <==> k in normTermDict.keys
    ensures forall t :: t in terms ==> t in Firsts(items)
  {
    var pairs := NormPairs(terms, analyse);
    forall t | t in terms ensures t in Firsts(items) {
      var i :| 0 <= i < |terms| && terms[i] == t;
      assert Firsts(pairs)[i] == t;
      assert t in Distinct(Firsts(pairs));
    }
  }

  /** One group: not empty, all of one normal form, strictly ascending. */
  lemma GroupFacts(terms: seq<string>, analyse: string -> string, items: seq<(string, string)>,
                   v: Dict<string, seq<string>>, j: nat)
    requires forall i :: 0 <= i < |items| ==> items[i].1 == analyse(items[i].0) && items[i].0 in terms
    requires StrictlyAscending(Firsts(items))
    requires GroupedUpTo(v, items) && j < |v.keys|
    ensures var g := v.vals[v.keys[j]];
            && g != []
            && (forall k :: 0 <= k < |g| ==> g[k] in terms && analyse(g[k]) == v.keys[j])
            && StrictlyAscending(g)
  {
    var n := v.keys[j];
    var g := v.vals[n];
    assert n in Norms(items);
    var i :| 0 <= i < |items| && Norms(items)[i] == n;
    assert items[i] == (items[i].0, n);
    assert items[i].0 in g;
    forall k | 0 <= k < |g| ensures g[k] in terms && analyse(g[k]) == n {
      assert g[k] in TermsWithNorm(items, n);
      var m :| 0 <= m < |items| && items[m] == (g[k], n);
    }
    TermsWithNormAscending(items, n);
  }

  /** Every item's term lands in the group of its normal form. */
  lemma GroupCovers(items: seq<(string, string)>, v: Dict<string, seq<string>>, groups: seq<seq<string>>, t: string)
    requires GroupedUpTo(v, items) && groups == GroupsOf(v) && t in Firsts(items)
    ensures exists j, k :: 0 <= j < |groups| && 0 <= k < |groups[j]| && groups[j][k] == t
  {
    var i :| 0 <= i < |items| && Firsts(items)[i] == t;
    var n := items[i].1;
    assert Norms(items)[i] == n;
    assert n in Distinct(Norms(items));
    var j :| 0 <= j < |v.keys| && v.keys[j] == n;
    assert items[i] == (t, n);
    assert t in groups[j];
    var k :| 0 <= k < |groups[j]| && groups[j][k] == t;
  }

  /** Grouping all sorted items yields a partition of the terms. */
  lemma SynonymResult(terms: seq<string>, analyse: string -> string, items: seq<(string, string)>,
                      v: Dict<string, seq<string>>)
    requires items == SortedNormItems(terms, analyse) && GroupedUpTo(v, items)
    ensures GroupsPartition(GroupsOf(v), terms, analyse)
    ensures HeadsAscending(GroupsOf(v))
  {
    SortedItemsFacts(terms, analyse, items);
    SynonymGroups(terms, analyse, items, v, GroupsOf(v));
    GroupHeadsAscend(items, v);
  }

  /** The groups built from the sorted items partition the terms. */
  lemma SynonymGroups(terms: seq<string>, analyse: string -> string, items: seq<(string, string)>,
                      v: Dict<string, seq<string>>, groups: seq<seq<string>>)
    requires forall i :: 0 <= i < |items| ==> items[i].1 == analyse(items[i].0) && items[i].0 in terms
    requires forall t :: t in terms ==> t in Firsts(items)
    requires StrictlyAscending(Firsts(items))
    requires GroupedUpTo(v, items)
    requires groups == GroupsOf(v)
    ensures GroupsPartition(groups, terms, analyse)
  {
    forall j | 0 <= j < |groups|
      ensures groups[j] != []
      ensures forall k :: 0 <= k < |groups[j]| ==> groups[j][k] in terms && analyse(groups[j][k]) == v.keys[j]
      ensures StrictlyAscending(groups[j])
    {
      GroupFacts(terms, analyse, items, v, j);
    }
    forall t | t in terms ensures exists j, k :: 0 <= j < |groups| && 0 <= k < |groups[j]| && groups[j][k] == t {
      GroupCovers(items, v, groups, t);
    }
    PartitionFrom(groups, terms, analyse, v.keys);
  }

  /** Groups whose members all share their group's own distinct normal form are told apart by their heads. */
  lemma PartitionFrom(groups: seq<seq<string>>, terms: seq<string>, analyse: string -> string, norms: seq<string>)
    requires |groups| == |norms| && NoDup(norms)
    requires forall j :: 0 <= j < |groups| ==> groups[j] != [] && StrictlyAscending(groups[j])
    requires forall j, k :: 0 <= j < |groups| && 0 <= k < |groups[j]| ==> groups[j][k] in terms && analyse(groups[j][k]) == norms[j]
    requires forall t :: t in terms ==> exists j, k :: 0 <= j < |groups| && 0 <= k < |groups[j]| && groups[j][k] == t
    ensures GroupsPartition(groups, terms, analyse)
  {
    forall j1, j2 | 0 <= j1 < j2 < |groups| ensures analyse(groups[j1][0]) != analyse(groups[j2][0]) {
      assert analyse(groups[j1][0]) == norms[j1];
      assert analyse(groups[j2][0]) == norms[j2];
    }
  }
}
