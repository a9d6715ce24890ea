/**
 * The tag override applied after part-of-speech tagging in
 * customised_preprocessing: a few punctuation tokens are re-tagged with their
 * own text, so that the chunk grammars can refer to them directly. The
 * tokeniser and the tagger themselves are parameters of whoever calls this.
 */
module LinguisticPreprocessor {

  /** The tokens that receive their own text as tag: ( ) @ \ / */
  const SelfTagged: set<string> := {"(", ")", "@", "\\", "/"}

  /** The override for one (token, tag) pair. */
  function Retag(tok: (string, string)): (string, string) {
    if tok.0 in SelfTagged then (tok.0, tok.0) else tok
  }

  /**
   * The mapping over the tagger's output: same length, same tokens, the
   * self-tagged tokens carry their own text as tag, every other token keeps
   * the tagger's tag.
   */
  function CustomisedPreprocessing(posTags: seq<(string, string)>): (r: seq<(string, string)>)
    ensures |r| == |posTags|
    ensures forall i :: 0 <= i < |r| ==> r[i].0 == posTags[i].0
    ensures forall i :: 0 <= i < |r| ==> posTags[i].0 in SelfTagged ==> r[i].1 == posTags[i].0
    ensures forall i :: 0 <= i < |r| ==> posTags[i].0 !in SelfTagged ==> r[i].1 == posTags[i].1
  {
    seq(|posTags|, i requires 0 <= i < |posTags| => Retag(posTags[i]))
  }

  /** Applying the override a second time changes nothing. */
  lemma CustomisedIdempotent(posTags: seq<(string, string)>)
    ensures CustomisedPreprocessing(CustomisedPreprocessing(posTags)) == CustomisedPreprocessing(posTags)
  {
    var once := CustomisedPreprocessing(posTags);
    var twice := CustomisedPreprocessing(once);
    assert forall i :: 0 <= i < |twice| ==> twice[i] == once[i];
  }
}
