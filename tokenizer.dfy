/**
 * `tokenize_for_spam`: lower-case the text, split it with the word
 * tokenizer, strip `string.punctuation` from both ends of every token, drop
 * what is left if it is one character or shorter, and hand the rest, in
 * order, to the stemmer (or the lemmatizer).
 *
 * The NLTK pieces are not modelled: the lower-casing, the word tokenizer, the
 * Snowball stemmer and the WordNet lemmatizer arrive as functions in an `Nlp`
 * record, and nothing is assumed about them.
 */
module Tokenizer {
  import opened Strings

  /** The text-processing services the tokenizer calls: `str.lower`,
      `nltk.word_tokenize`, `SnowballStemmer("english").stem` and
      `WordNetLemmatizer().lemmatize`. */
  datatype Nlp = Nlp(
    lower: string -> string,
    wordTokenize: string -> seq<string>,
    stem: string -> string,
    lemmatize: string -> string)

  /** The reducer `tokenize_for_spam` applies: the stemmer when `useStem`
      (the default), the lemmatizer otherwise. */
  function Reducer(nlp: Nlp, useStem: bool): string -> string {
    if useStem then nlp.stem else nlp.lemmatize
  }

  /** `token.strip(string.punctuation)`. */
  function StripPunctuation(token: string): string {
    Strip(token, IsPunctuation)
  }

  /** A token survives the filter when its stripped form is longer than one
      character. */
  predicate Kept(token: string) {
    |StripPunctuation(token)| > 1
  }

  /** What the loop of `tokenize_for_spam` has appended after visiting
      `tokens`: the reduced stripped form of each kept token, in order. */
  function Survivors(tokens: seq<string>, reduce: string -> string): seq<string>
    decreases |tokens|
  {
    if tokens == [] then []
    else
      var last := StripPunctuation(tokens[|tokens| - 1]);
      Survivors(tokens[..|tokens| - 1], reduce) + (if |last| <= 1 then [] else [reduce(last)])
  }

  /** The positions of the kept tokens: increasing, and containing exactly
      the indices of tokens whose stripped form is longer than one
      character. */
  function KeptIndices(tokens: seq<string>): (idx: seq<nat>)
    ensures forall k :: 0 <= k < |idx| ==> idx[k] < |tokens| && Kept(tokens[idx[k]])
    ensures forall k, l :: 0 <= k < l < |idx| ==> idx[k] < idx[l]
    ensures forall j :: 0 <= j < |tokens| && Kept(tokens[j]) ==> j in idx
    decreases |tokens|
  {
    if tokens == [] then []
    else
      var n := |tokens| - 1;
      var before := KeptIndices(tokens[..n]);
      assert forall j :: 0 <= j < n ==> tokens[..n][j] == tokens[j];
      before + (if Kept(tokens[n]) then [n] else [])
  }

  /** `tokenize_for_spam(text, use_stem)` as a value. */
  function Tokenized(text: string, nlp: Nlp, useStem: bool): seq<string> {
    if text == [] then []
    else Survivors(nlp.wordTokenize(nlp.lower(text)), Reducer(nlp, useStem))
  }

  /** `tokenize_for_spam`: the empty text returns at once; otherwise a loop
      over the word tokens that skips short tokens with `continue` and
      appends the reduced ones. */
  method TokenizeForSpam(text: string, nlp: Nlp, useStem: bool) returns (cleaned: seq<string>)
    ensures text == [] ==> cleaned == []
    ensures cleaned == Tokenized(text, nlp, useStem)
  {
    if text == [] {
      return [];
    }
    var lowered := nlp.lower(text);
    var tokens := nlp.wordTokenize(lowered);
    cleaned := [];
    for i := 0 to |tokens|
      invariant cleaned == Survivors(tokens[..i], Reducer(nlp, useStem))
    {
      var token := StripPunctuation(tokens[i]);
      assert tokens[..i + 1][..i] == tokens[..i];
      if |token| <= 1 {
        continue;
      }
      token := if useStem then nlp.stem(token) else nlp.lemmatize(token);
      cleaned := cleaned + [token];
    }
    assert tokens[..|tokens|] == tokens;
  }

  /** The survivors are exactly the reduced stripped forms of the kept
      tokens, in their original order: one for each kept index. */
  lemma {:induction false} SurvivorsAreKeptTokens(tokens: seq<string>, reduce: string -> string)
    ensures |Survivors(tokens, reduce)| == |KeptIndices(tokens)|
    ensures forall k :: 0 <= k < |KeptIndices(tokens)| ==>
      Survivors(tokens, reduce)[k] == reduce(StripPunctuation(tokens[KeptIndices(tokens)[k]]))
    decreases |tokens|
  {
    if tokens != [] {
      var n := |tokens| - 1;
      var init := tokens[..n];
      SurvivorsAreKeptTokens(init, reduce);
      var before, idx := KeptIndices(init), KeptIndices(tokens);
      assert idx[..|before|] == before;
      forall k | 0 <= k < |before|
        ensures Survivors(tokens, reduce)[k] == reduce(StripPunctuation(tokens[idx[k]]))
      {
        assert init[before[k]] == tokens[before[k]];
      }
    }
  }

  /** Every token handed to the reducer is longer than one character and
      neither begins nor ends with a punctuation character. */
  lemma ReducerInputsAreStripped(tokens: seq<string>, k: nat)
    requires k < |KeptIndices(tokens)|
    ensures var t := StripPunctuation(tokens[KeptIndices(tokens)[k]]);
      |t| > 1 && !IsPunctuation(t[0]) && !IsPunctuation(t[|t| - 1])
  {
    StripSpec(tokens[KeptIndices(tokens)[k]], IsPunctuation);
  }

  /** Nothing survives exactly when every token strips down to at most one
      character (text of punctuation and one-letter words, say). */
  lemma {:induction false} SurvivorsEmptyIffNoneKept(tokens: seq<string>, reduce: string -> string)
    ensures Survivors(tokens, reduce) == [] <==> forall j :: 0 <= j < |tokens| ==> !Kept(tokens[j])
  {
    SurvivorsAreKeptTokens(tokens, reduce);
    var idx := KeptIndices(tokens);
    if idx != [] {
      assert Kept(tokens[idx[0]]);
    }
  }

  /** `tokenize_for_spam` in the terms above: empty text gives no tokens
      without consulting the tokenizer; otherwise the result lists, in order,
      the reduced stripped forms of exactly the kept word tokens of the
      lower-cased text. */
  lemma TokenizedExactly(text: string, nlp: Nlp, useStem: bool)
    ensures text == [] ==> Tokenized(text, nlp, useStem) == []
    ensures text != [] ==>
      var tokens := nlp.wordTokenize(nlp.lower(text));
      var idx := KeptIndices(tokens);
      |Tokenized(text, nlp, useStem)| == |idx| &&
      forall k :: 0 <= k < |idx| ==>
        Tokenized(text, nlp, useStem)[k] == Reducer(nlp, useStem)(StripPunctuation(tokens[idx[k]]))
  {
    if text != [] {
      SurvivorsAreKeptTokens(nlp.wordTokenize(nlp.lower(text)), Reducer(nlp, useStem));
    }
  }
}
