# Spam detection for PDF documents: the prediction module

This project is a Dafny model of `predict_pdf_module.py`, the part of a spam
classifier service that turns the first page of a PDF into a prediction.
It models four pieces:

- the whitespace normaliser `clean_text_for_spam`;
- the token filter `tokenize_for_spam`;
- `SpamPipeline.preprocess` and `SpamPipeline.predict`;
- the control flow of `predict_pdf` and the dictionary it returns.

NLTK, PyPDF2 and the pickled vectorizer and classifier are not modelled.
They enter as function values:

- `Tokenizer.Nlp` holds lower-casing, `word_tokenize`, the Snowball stemmer
  and the WordNet lemmatizer;
- `Pipeline.SpamPipeline` holds the vectorizer's `transform` and the
  classifier's `predict`;
- `Prediction.PredictPdf` takes a `readPdf` function that either fails with
  the exception text or gives, for each page, what `extract_text()` does.

Nothing is assumed about what these functions compute, except that the
classifier answers 0 or 1; the `Label` subset type encodes that. Being Dafny
functions, they always return: the exceptions they could raise in Python are
not modelled (see "## Left out").

The modules:

- `Strings`: the Python `str` built-ins the module relies on. These are the
  `\s` / `str.isspace` character set, `string.punctuation`, `strip`,
  `split()`, `join` and slicing with a clamped bound.
- `Normalizer`: `clean_text_for_spam`. The central proof is that the regex
  substitution followed by `strip()` equals `" ".join(text.split())`. The
  shape, idempotence and blank-input properties follow from it.
- `Tokenizer`: `tokenize_for_spam`, as a method with the source's loop and
  `continue`. The method is proved equal to a specification function, and
  that function is characterised by the kept-token indices.
- `Pipeline`: the `SpamPipeline` value with `Preprocess` and `Predict`.
- `Prediction`: `predict_pdf`, proved against the function
  `PredictPdfResult`. Lemmas describe the three shapes of result it returns.
  The datatype `PredictionResult` holds the two dictionary shapes of lines
  94, 98 and 102-107: `ErrorResult` is the dictionary with only an `error`
  key, and `SuccessResult` the one with `prediction`, `label` (the field
  `labelName`), `text_length` and `preview`.

## Model

| member | source | states |
|---|---|---|
| Strings.IsSpace | predict_pdf_module.py:27 | the whitespace set of `\s` in a `str` pattern, which is also `str.isspace()`, used by `strip()` at line 28 and `split()` at line 96 |
| Strings.IsPunctuation | predict_pdf_module.py:41 | the 32 ASCII characters of `string.punctuation` |
| Strings.TrimLeft | predict_pdf_module.py:28 | `lstrip` of a character set: never longer than its input, shorter when the first character is in the set, and not starting with a set character |
| Strings.TrimRight | predict_pdf_module.py:28 | `rstrip` of a character set: never longer than its input, and not ending with a set character |
| Strings.Strip | predict_pdf_module.py:41 | `strip(chars)`, used at lines 28, 41 and 97: never longer than its input, neither starting nor ending with a set character; `StripSpec` gives the rest |
| Strings.Join | predict_pdf_module.py:65 | `sep.join(ws)`, used at lines 65 and 96; definition, whose meaning `JoinWordsCollapsed` and `SplitJoin` state |
| Strings.TrimLeftSpec | predict_pdf_module.py:28 | `lstrip` leaves a suffix of the input, and every character it drops is in the stripped set |
| Strings.TrimRightSpec | predict_pdf_module.py:28 | `rstrip` leaves a prefix of the input, and every character it drops is in the stripped set |
| Strings.StripSpec | predict_pdf_module.py:41 | `strip(chars)` keeps a contiguous slice that neither starts nor ends with a stripped character; everything outside it is stripped; the result is empty exactly when every character is in the set |
| Strings.WordLength | predict_pdf_module.py:96 | the first word ends at the first whitespace character or at the end of the string |
| Strings.Split | predict_pdf_module.py:96 | every element of `str.split()` is non-empty and free of whitespace |
| Strings.SplitEmptyIffBlank | predict_pdf_module.py:96 | `str.split()` returns no words exactly when the string is all whitespace |
| Strings.SplitSkipsLeadingSpace | predict_pdf_module.py:96 | leading whitespace does not change `str.split()` |
| Strings.JoinWordsCollapsed | predict_pdf_module.py:96 | `" ".join(words)` has no whitespace at either end, no whitespace except `' '` and no two adjacent whitespace characters; it is empty exactly when there are no words; it starts with the first word's first character and ends with the last word's last character |
| Strings.SplitLeadingWord | predict_pdf_module.py:96 | `split()` of a word followed by whitespace or the end of the string gives that word first |
| Strings.SplitJoin | predict_pdf_module.py:96 | round trip: `" ".join(ws).split() == ws` for any list of words |
| Strings.StripCollapsed | predict_pdf_module.py:97 | `strip()` leaves a collapsed string unchanged, so the blank test on the processed text is an emptiness test |
| Strings.Take | predict_pdf_module.py:106 | `s[:n]` is a prefix of `s` of length `min(len(s), n)` |
| Normalizer.SubstituteWhitespaceRuns | predict_pdf_module.py:27 | `re.sub(r"\s+", " ", text)`: never longer than its input, and empty exactly when the input is; `SubstitutePadded` gives its result in terms of the words |
| Normalizer.CleanText | predict_pdf_module.py:25-28 | `clean_text_for_spam`: definition, substitution then `strip()`; `CleanIsSplitJoin` and the lemmas below state what it computes |
| Normalizer.SubstituteWordPrefix | predict_pdf_module.py:27 | the substitution copies non-whitespace characters unchanged |
| Normalizer.SubstituteLeadingSpace | predict_pdf_module.py:27 | a leading whitespace run becomes exactly one space |
| Normalizer.SubstituteFromWord | predict_pdf_module.py:27 | on a string that does not start with whitespace, the substitution gives the words joined by single spaces, with at most one trailing space |
| Normalizer.SubstitutePadded | predict_pdf_module.py:27 | the substitution gives the words joined by single spaces, with at most one space on each side |
| Normalizer.StripPadded | predict_pdf_module.py:28 | `strip()` removes exactly that one space of padding on each side |
| Normalizer.CleanIsSplitJoin | predict_pdf_module.py:25-28 | `clean_text_for_spam(s) == " ".join(s.split())` for every string |
| Normalizer.CleanCollapsed | predict_pdf_module.py:25-28 | the cleaned text never starts or ends with whitespace, holds no whitespace except `' '` and never two whitespace characters in a row |
| Normalizer.CleanKeepsWords | predict_pdf_module.py:25-28 | cleaning keeps every word in order: `clean(s).split() == s.split()` |
| Normalizer.CleanIdempotent | predict_pdf_module.py:25-28 | cleaning twice gives the same result as cleaning once |
| Normalizer.CleanBlank | predict_pdf_module.py:25-28 | the cleaned text is `""` exactly when the input is all whitespace, `""` included |
| Tokenizer.StripPunctuation | predict_pdf_module.py:41 | `token.strip(string.punctuation)`; `ReducerInputsAreStripped` states its effect on the reducer's inputs |
| Tokenizer.Survivors | predict_pdf_module.py:40-45 | definition of what the loop has appended after visiting a prefix of the tokens; `SurvivorsAreKeptTokens` states it in terms of the kept positions |
| Tokenizer.Tokenized | predict_pdf_module.py:33-47 | `tokenize_for_spam` as a function; `TokenizedExactly` states what it returns |
| Tokenizer.Reducer | predict_pdf_module.py:44 | the reducer chosen by `use_stem`: the stemmer when it is set, the lemmatizer otherwise; definition, used by `Tokenized` and `TokenizeForSpam` |
| Tokenizer.Kept | predict_pdf_module.py:41-42 | the filter: a token survives when its punctuation-stripped form is longer than one character; definition, on which `KeptIndices` and `SurvivorsEmptyIffNoneKept` are stated |
| Tokenizer.KeptIndices | predict_pdf_module.py:40-43 | the positions of the tokens that survive the length filter: strictly increasing, each one kept, and containing every kept position |
| Tokenizer.TokenizeForSpam | predict_pdf_module.py:31-47 | the loop returns `[]` for empty text; otherwise it appends, in order, the reduced stripped form of each surviving token, which is the specification function `Tokenized` |
| Tokenizer.SurvivorsAreKeptTokens | predict_pdf_module.py:40-45 | the appended list has one entry per kept position, in order: the reducer applied to that token with its punctuation stripped |
| Tokenizer.TokenizedExactly | predict_pdf_module.py:33-47 | `tokenize_for_spam("") == []`; otherwise the result is the reducer (stemmer or lemmatizer, as `use_stem` selects) applied to exactly the kept stripped tokens of `word_tokenize(lower(text))`, in order |
| Tokenizer.ReducerInputsAreStripped | predict_pdf_module.py:41-44 | every token passed to the reducer is at least two characters long and has no punctuation character at either end |
| Tokenizer.SurvivorsEmptyIffNoneKept | predict_pdf_module.py:40-47 | the result is empty exactly when every token strips down to at most one character |
| Pipeline.SpamPipeline.Preprocess | predict_pdf_module.py:63-66 | one string per input text, in order; element `i` is the single-space join of `tokenize_for_spam(clean_text_for_spam(texts[i]))` |
| Pipeline.SpamPipeline.Predict | predict_pdf_module.py:68-71 | one label per input text; label `i` is the classifier's answer on the vectorized preprocessed text `i` |
| Pipeline.PreprocessAppend | predict_pdf_module.py:63-66 | texts are preprocessed independently: `preprocess(a + b) == preprocess(a) + preprocess(b)` |
| Pipeline.PreprocessSeesOnlyWords | predict_pdf_module.py:63-66 | two texts with the same words in the same order preprocess identically, however they are spaced |
| Pipeline.PreprocessIgnoresCleaning | predict_pdf_module.py:63-66 | preprocessing an already cleaned text gives the same result as preprocessing the original |
| Pipeline.PreprocessBlank | predict_pdf_module.py:63-66 | a blank text preprocesses to `""` |
| Prediction.ReadFirstPage | predict_pdf_module.py:87-94 | what the `try` block yields: the exception's message, or the first page's text (`""` for a page without text and for a document without pages); used by `PredictPdfResult` |
| Prediction.ResultForText | predict_pdf_module.py:96-107 | the record built after the `try` block; `NoValidTextIff`, `SuccessIff` and `SuccessShape` state its cases |
| Prediction.PredictPdfResult | predict_pdf_module.py:87-107 | the record `predict_pdf` returns for a reading of the document; `PredictPdf` is proved to return it, and the lemmas below state its three cases |
| Prediction.ProcessedText | predict_pdf_module.py:96 | `processed_text` has no leading, trailing or doubled whitespace, and no whitespace other than `' '` |
| Prediction.ProcessedTextWords | predict_pdf_module.py:96 | `processed_text` has exactly the words of the preprocessed text and equals `clean_text_for_spam` of it |
| Prediction.Preview | predict_pdf_module.py:106 | the preview has at most 203 characters; it is the whole text when the text has at most 200 characters; it ends in `"..."` with length 203 exactly when the text is longer, and then starts with the text's first 200 characters |
| Prediction.PredictPdf | predict_pdf_module.py:81-107 | the method (open, the first-page loop with `break`, the `except`, the blank check, the prediction) returns the record `PredictPdfResult` gives for the document's reading |
| Prediction.PredictText | predict_pdf_module.py:96-107 | the part after the `try` returns the empty-text error when `processed_text.strip()` is empty, and otherwise the prediction record; this is `ResultForText` |
| Prediction.NoValidTextIff | predict_pdf_module.py:87-98 | the result is `{"error": "No valid text extracted from PDF"}` exactly when the document was read and the processed text is empty |
| Prediction.SuccessIff | predict_pdf_module.py:96-107 | the prediction record comes back exactly when the document was read and the processed text is not empty |
| Prediction.ReadFailureShape | predict_pdf_module.py:87-94 | a failure in opening or extracting, and nothing else, gives an error record whose message starts with `"Failed to read PDF: "`; that message is exactly the prefix followed by the caught exception's text |
| Prediction.SuccessShape | predict_pdf_module.py:96-107 | in a success record the processed text is non-empty and collapsed; `prediction` is the classifier's answer on it; `label` is `label_map[prediction]`; `text_length` is its length; the preview is the text itself up to 200 characters and its first 200 characters plus `"..."` beyond that |
| Prediction.DefaultLabels | predict_pdf_module.py:81 | with the default map, `label` is `"SPAM"` exactly for prediction 1 and `"HAM"` exactly for prediction 0 |
| Prediction.BlankPageIsRejected | predict_pdf_module.py:89-98 | a first page with no text or only whitespace gives the empty-text error |
| Prediction.EmptyDocumentIsNoValidText | predict_pdf_module.py:89-98 | a document with no pages gives the empty-text error, not a read failure |

## Left out

- NLTK (`word_tokenize`, the Snowball stemmer, the WordNet lemmatizer) and `str.lower` are parameters. Nothing is proved about their internals.
- PyPDF2 is the `readPdf` parameter. `PdfReader(path)` either fails with a message or yields a list of pages. Each page's `extract_text()` either returns text, returns `None`, or raises.
- Page access that fails lazily while iterating `reader.pages` is not modelled. Such a failure would also be caught and reported with the read-failure prefix.
- The message of a caught exception is a string supplied by the reader. How Python formats an exception with `str(e)` is not modelled.
- `joblib.load`, the fitted vectorizer and the classifier are the `transform` and `classify` parameters. The vectorizer is applied to each text on its own; batch-level behaviour of `transform` is not modelled.
- The classifier is assumed to answer only 0 or 1. This is the `Label` type. The result's `int(pred)` conversion is therefore the identity.
- Prediction.PredictPdf: requires the label map to contain 0 and 1. With any other map, `label_map[pred]` at line 104 can raise a `KeyError` outside the `try`. That exception is not modelled.
- `SpamPipeline.predict` runs `preprocess` again on the already processed text. The model does this too, with the abstract tokenizer, and makes no claim about what a second pass of stemming does.
- The NLTK resource downloads, the unused `stopwords_set`, and the `sys.modules["__main__"]` registration at lines 14-21, 50-52 and 74 are environment setup.
- `frontend.py` (a Streamlit UI and HTTP client) and `backend.py` (Flask routing) are not part of this model.
- `backend.py` line 27 passes the extracted page text to `predict_pdf`, which treats it as a file path. That defect lies in the HTTP glue, outside this model.
- A document with no pages is not a read failure: the loop at lines 90-92 never runs, so `text` stays `""` and the answer is "No valid text extracted from PDF" (see `Prediction.EmptyDocumentIsNoValidText`).
- Exceptions raised outside the `try` are not modelled. The lower-casing, the tokenizer, the stemmer or lemmatizer (line 96, through `preprocess`) and the vectorizer and classifier (line 100) are total functions here. In Python an exception from them, such as a `LookupError` from `word_tokenize` when its data is missing, would propagate out of `predict_pdf` instead of giving any of the three records.
- Python's `re` `\s` and `str.isspace()` are modelled as one fixed character set (`Strings.IsSpace`). The set is the ASCII controls 9-13 and 28-31, the space, U+0085, U+00A0 and the Unicode space, line and paragraph separators.
