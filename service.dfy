/**
 * The two prediction routes of detoxic.py, `predict` and `predict_batch`:
 * normalize each comment, turn it into token indices, pad or cut the indices
 * to the configured length, score the rows with the classifier and threshold
 * each score at one half.
 *
 * The Keras tokenizer and the trained network are not part of this model.
 * They enter as parameters: `tokenize` stands for `texts_to_sequences` on one
 * text, and `score` for the network's output on one padded row. Their
 * preconditions say what the pipeline guarantees them: the tokenizer only
 * ever sees normalized text, and the network only ever sees rows of exactly
 * `maxlen` tokens.
 */
module PredictionService {
  import opened Wrappers
  import Normalizer
  import Padder

  /** The JSON object returned for one comment. */
  datatype Prediction = Prediction(toxicProbability: real, isToxic: bool)

  /** The decision threshold; the comparison against it is strict. */
  const Threshold: real := 0.5

  /** The result object built from one score. */
  function Classify(prob: real): (r: Prediction)
    ensures r.toxicProbability == prob
    ensures r.isToxic <==> prob > Threshold
  {
    Prediction(prob, prob > Threshold)
  }

  /** The tokenizer accepts every normalized text. */
  ghost predicate AcceptsNormalized(tokenize: string --> seq<int>) {
    forall t :: Normalizer.IsNormalized(t) ==> tokenize.requires(t)
  }

  /** The network accepts every row of the configured length. */
  ghost predicate AcceptsRows(score: seq<int> --> real, maxlen: nat) {
    forall row :: |row| == maxlen ==> score.requires(row)
  }

  /** The route `/predict`: the comment goes through the pipeline as a batch
      of one, and the first score of the first row is classified. */
  function Predict(comment: string, tokenize: string --> seq<int>, score: seq<int> --> real, maxlen: nat)
    : (r: Prediction)
    requires AcceptsNormalized(tokenize) && AcceptsRows(score, maxlen)
    ensures r.toxicProbability
      == score(Padder.PadPost(tokenize(Normalizer.Preprocess(Some(comment))), maxlen))
    ensures r.isToxic <==> r.toxicProbability > Threshold
  {
    var text := Normalizer.Preprocess(Some(comment));
    var padded := Padder.PadBatch([tokenize(text)], maxlen);
    assert padded[0] == Padder.PadPost(tokenize(text), maxlen);
    Classify(score(padded[0]))
  }

  /** The route `/predict_batch`: the whole list goes through each stage
      together; the answer has one result per comment, in the input order,
      and each result is the one `/predict` gives for that comment. */
  function PredictBatch(comments: seq<string>, tokenize: string --> seq<int>, score: seq<int> --> real, maxlen: nat)
    : (rs: seq<Prediction>)
    requires AcceptsNormalized(tokenize) && AcceptsRows(score, maxlen)
    ensures |rs| == |comments|
    ensures forall i :: 0 <= i < |rs| ==> rs[i] == Predict(comments[i], tokenize, score, maxlen)
  {
    var texts := seq(|comments|, i requires 0 <= i < |comments| => Normalizer.Preprocess(Some(comments[i])));
    var seqs := seq(|texts|, i requires 0 <= i < |texts| => tokenize(texts[i]));
    var padded := Padder.PadBatch(seqs, maxlen);
    var probs := seq(|padded|, i requires 0 <= i < |padded| => score(padded[i]));
    var rs := seq(|probs|, i requires 0 <= i < |probs| => Classify(probs[i]));
    assert forall i :: 0 <= i < |rs| ==> rs[i] == Predict(comments[i], tokenize, score, maxlen) by {
      forall i | 0 <= i < |rs| ensures rs[i] == Predict(comments[i], tokenize, score, maxlen) {
        assert padded[i] == Padder.PadPost(seqs[i], maxlen);
      }
    }
    rs
  }

  /** A comment and its normalized form get the same prediction: case,
      punctuation and spacing never reach the network. */
  lemma PredictSeesOnlyNormalizedText(comment: string, tokenize: string --> seq<int>, score: seq<int> --> real, maxlen: nat)
    requires AcceptsNormalized(tokenize) && AcceptsRows(score, maxlen)
    ensures Predict(Normalizer.Preprocess(Some(comment)), tokenize, score, maxlen)
         == Predict(comment, tokenize, score, maxlen)
  {
    Normalizer.PreprocessIdempotent(Some(comment));
  }
}
