/**
 * `SpamPipeline`: a vectorizer and a classifier loaded once from the pickled
 * artifact and never changed afterwards, so the pipeline is a value here.
 * `preprocess` cleans, tokenizes (stemming) and re-joins every text;
 * `predict` preprocesses, vectorizes and classifies.
 *
 * The fitted vectorizer and the classifier are not modelled: they are the
 * functions `transform` and `classify`. The classifier's answers are `Label`s,
 * 0 or 1, which is what the default label map of `predict_pdf` covers.
 */
module Pipeline {
  import opened Strings
  import opened Normalizer
  import opened Tokenizer

  /** A class index of the binary classifier: 0 (ham) or 1 (spam). */
  type Label = x: int | 0 <= x <= 1

  /** The vectorizer's output for one document. */
  type Features = seq<real>

  datatype SpamPipeline = SpamPipeline(
    nlp: Nlp,
    transform: string -> Features,
    classify: Features -> Label)
  {
    /** `preprocess(texts)`: one joined token string per text, in the same
        order. */
    function Preprocess(texts: seq<string>): (r: seq<string>)
      ensures |r| == |texts|
      ensures forall i :: 0 <= i < |texts| ==>
        r[i] == Join(" ", Tokenized(CleanText(texts[i]), nlp, true))
    {
      seq(|texts|, i requires 0 <= i < |texts| => Join(" ", Tokenized(CleanText(texts[i]), nlp, true)))
    }

    /** `predict(texts)`: one label per text, the classifier's answer on the
        vectorized preprocessed text. */
    function Predict(texts: seq<string>): (r: seq<Label>)
      ensures |r| == |texts|
      ensures forall i :: 0 <= i < |texts| ==> r[i] == classify(transform(Preprocess(texts)[i]))
    {
      var processed := Preprocess(texts);
      seq(|texts|, i requires 0 <= i < |texts| => classify(transform(processed[i])))
    }
  }

  /** Each text is preprocessed on its own: preprocessing a concatenation of
      batches is concatenating their preprocessed batches. */
  lemma PreprocessAppend(p: SpamPipeline, a: seq<string>, b: seq<string>)
    ensures p.Preprocess(a + b) == p.Preprocess(a) + p.Preprocess(b)
  {
    var l, r := p.Preprocess(a + b), p.Preprocess(a) + p.Preprocess(b);
    forall i | 0 <= i < |a + b| ensures l[i] == r[i] {
      if i < |a| {
        assert (a + b)[i] == a[i];
      } else {
        assert (a + b)[i] == b[i - |a|];
      }
    }
  }

  /** Preprocessing sees only the words of a text: two texts with the same
      words in the same order, however they are spaced, give the same
      preprocessed string. */
  lemma PreprocessSeesOnlyWords(p: SpamPipeline, s: string, t: string)
    requires Split(s) == Split(t)
    ensures p.Preprocess([s]) == p.Preprocess([t])
  {
    CleanIsSplitJoin(s);
    CleanIsSplitJoin(t);
    assert p.Preprocess([s])[0] == p.Preprocess([t])[0];
  }

  /** Preprocessing an already cleaned text gives the same result as
      preprocessing the original. */
  lemma PreprocessIgnoresCleaning(p: SpamPipeline, s: string)
    ensures p.Preprocess([CleanText(s)]) == p.Preprocess([s])
  {
    CleanIdempotent(s);
    assert p.Preprocess([CleanText(s)])[0] == p.Preprocess([s])[0];
  }

  /** A blank text preprocesses to the empty string. */
  lemma PreprocessBlank(p: SpamPipeline, s: string)
    requires forall k :: 0 <= k < |s| ==> IsSpace(s[k])
    ensures p.Preprocess([s]) == [""]
  {
    CleanBlank(s);
  }
}
