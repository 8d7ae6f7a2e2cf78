/**
 * `predict_pdf`: read the first page of a PDF, preprocess its text, collapse
 * the whitespace once more, and answer with one of three records: the read
 * failure, the empty-text error, or the prediction with its label, the text
 * length and a preview.
 *
 * The PDF reader is not modelled: opening the file is the function
 * `readPdf`, which either fails with the exception's text or yields one
 * `PageText` per page, saying what `page.extract_text()` does for it.
 */
module Prediction {
  import opened Strings
  import opened Normalizer
  import opened Pipeline

  datatype Result<T> = Ok(value: T) | Err(message: string)

  /** What `page.extract_text()` does for one page: returns text, returns
      nothing (`None`), or raises. */
  datatype PageText = Text(text: string) | NoText | ExtractRaises(message: string)

  /** The dictionary `predict_pdf` returns: either only an `error` key, or the
      four keys of a prediction. */
  datatype PredictionResult =
    | ErrorResult(error: string)
    | SuccessResult(prediction: Label, labelName: string, textLength: nat, preview: string)

  const ReadFailurePrefix := "Failed to read PDF: "
  const NoValidText := "No valid text extracted from PDF"
  const PreviewLength := 200
  const Ellipsis := "..."

  /** The default `label_map` argument. */
  const DefaultLabelMap: map<int, string> := map[0 := "HAM", 1 := "SPAM"]

  /** The text the `try` block of `predict_pdf` collects, or the message of
      the exception it catches: the first page's text (`""` when it has none,
      and when the document has no page at all). */
  function ReadFirstPage(reading: Result<seq<PageText>>): Result<string> {
    match reading
    case Err(m) => Err(m)
    case Ok(pages) =>
      if pages == [] then Ok("")
      else
        match pages[0]
        case ExtractRaises(m) => Err(m)
        case NoText => Ok("")
        case Text(t) => Ok(t)
  }

  /** `processed_text`: the preprocessed page text with its whitespace
      collapsed again (`" ".join(...split())`). It has the same words as the
      preprocessed text, and no leading, trailing or doubled spaces. */
  function ProcessedText(pipeline: SpamPipeline, text: string): (r: string)
    ensures IsCollapsed(r)
  {
    var words := Split(pipeline.Preprocess([text])[0]);
    JoinWordsCollapsed(words);
    Join(" ", words)
  }

  /** The processed text has exactly the words of the preprocessed text, and
      is what `clean_text_for_spam` would make of it. */
  lemma ProcessedTextWords(pipeline: SpamPipeline, text: string)
    ensures Split(ProcessedText(pipeline, text)) == Split(pipeline.Preprocess([text])[0])
    ensures ProcessedText(pipeline, text) == CleanText(pipeline.Preprocess([text])[0])
  {
    SplitJoin(Split(pipeline.Preprocess([text])[0]));
    CleanIsSplitJoin(pipeline.Preprocess([text])[0]);
  }

  /** `processed_text[:200] + ("..." if len(processed_text) > 200 else "")`. */
  function Preview(s: string): (p: string)
    ensures |p| <= PreviewLength + |Ellipsis|
    ensures |s| <= PreviewLength ==> p == s
    ensures |s| > PreviewLength <==> |p| == PreviewLength + |Ellipsis| && p[PreviewLength..] == Ellipsis
    ensures |s| > PreviewLength ==> p[..PreviewLength] == s[..PreviewLength]
  {
    Take(s, PreviewLength) + (if |s| > PreviewLength then Ellipsis else "")
  }

  /** The dictionary `predict_pdf` returns for a given reading of the
      document. The label map must hold both class indices: `label_map[pred]`
      stands outside the `try`. */
  function PredictPdfResult(
    reading: Result<seq<PageText>>,
    pipeline: SpamPipeline,
    labelMap: map<int, string>): PredictionResult
    requires 0 in labelMap && 1 in labelMap
  {
    match ReadFirstPage(reading)
    case Err(m) => ErrorResult(ReadFailurePrefix + m)
    case Ok(text) => ResultForText(text, pipeline, labelMap)
  }

  /** What follows the `try` block once the first page's text is in hand. */
  function ResultForText(text: string, pipeline: SpamPipeline, labelMap: map<int, string>): PredictionResult
    requires 0 in labelMap && 1 in labelMap
  {
    var processed := ProcessedText(pipeline, text);
    if processed == "" then ErrorResult(NoValidText)
    else
      var pred := pipeline.Predict([processed])[0];
      SuccessResult(pred, labelMap[pred], |processed|, Preview(processed))
  }

  /** `predict_pdf(path, label_map)`: a `try` around opening the file and a
      loop over the pages that stops after the first, then the part after
      the `try`. */
  method PredictPdf(
    path: string,
    readPdf: string -> Result<seq<PageText>>,
    pipeline: SpamPipeline,
    labelMap: map<int, string>)
    returns (r: PredictionResult)
    requires 0 in labelMap && 1 in labelMap
    ensures r == PredictPdfResult(readPdf(path), pipeline, labelMap)
  {
    var reading := readPdf(path);
    if reading.Err? {
      return ErrorResult(ReadFailurePrefix + reading.message);
    }
    var pages := reading.value;
    var text := "";
    for i := 0 to |pages|
      invariant i == 0 && text == ""
    {
      var page := pages[i];
      if page.ExtractRaises? {
        return ErrorResult(ReadFailurePrefix + page.message);
      }
      if page.Text? {  // `page.extract_text() or ""`
        text := text + page.text;
        assert text == page.text;
      }
      break;  // only the first page
    }
    assert ReadFirstPage(reading) == Ok(text);
    r := PredictText(text, pipeline, labelMap);
  }

  /** The straight-line part of `predict_pdf` after the `try` block: the
      `strip()` blank test, then the prediction record. It is the method
      counterpart of `ResultForText`, where the blank test is an emptiness
      test (`StripCollapsed`). */
  method PredictText(text: string, pipeline: SpamPipeline, labelMap: map<int, string>)
    returns (r: PredictionResult)
    requires 0 in labelMap && 1 in labelMap
    ensures r == ResultForText(text, pipeline, labelMap)
  {
    var processed := ProcessedText(pipeline, text);
    if Strip(processed, IsSpace) == "" {
      StripCollapsed(processed);
      return ErrorResult(NoValidText);
    }
    var pred := pipeline.Predict([processed])[0];
    r := SuccessResult(pred, labelMap[pred], |processed|, Preview(processed));
  }

  /** The empty-text error comes back exactly when the document was read
      and its processed text is empty; it never comes back from a read
      failure. */
  lemma NoValidTextIff(reading: Result<seq<PageText>>, pipeline: SpamPipeline, labelMap: map<int, string>)
    requires 0 in labelMap && 1 in labelMap
    ensures PredictPdfResult(reading, pipeline, labelMap) == ErrorResult(NoValidText) <==>
      ReadFirstPage(reading).Ok? && ProcessedText(pipeline, ReadFirstPage(reading).value) == ""
  {
    if ReadFirstPage(reading).Err? {
      var m := ReadFirstPage(reading).message;
      assert (ReadFailurePrefix + m)[0] == 'F' != NoValidText[0];
    }
  }

  /** Otherwise the answer is the prediction record: a document that was
      read and whose processed text is not empty always gets one. */
  lemma SuccessIff(reading: Result<seq<PageText>>, pipeline: SpamPipeline, labelMap: map<int, string>)
    requires 0 in labelMap && 1 in labelMap
    ensures PredictPdfResult(reading, pipeline, labelMap).SuccessResult? <==>
      ReadFirstPage(reading).Ok? && ProcessedText(pipeline, ReadFirstPage(reading).value) != ""
  {
  }

  /** A read failure gives a record with only the error, whose message is
      the exception's text after the fixed prefix. */
  lemma ReadFailureShape(reading: Result<seq<PageText>>, pipeline: SpamPipeline, labelMap: map<int, string>)
    requires 0 in labelMap && 1 in labelMap
    ensures var r := PredictPdfResult(reading, pipeline, labelMap);
      ReadFirstPage(reading).Err? <==>
        r.ErrorResult? && |r.error| >= |ReadFailurePrefix| && r.error[..|ReadFailurePrefix|] == ReadFailurePrefix
    ensures ReadFirstPage(reading).Err? ==>
      PredictPdfResult(reading, pipeline, labelMap) == ErrorResult(ReadFailurePrefix + ReadFirstPage(reading).message)
  {
    var r := PredictPdfResult(reading, pipeline, labelMap);
    if r == ErrorResult(NoValidText) {
      assert r.error[..|ReadFailurePrefix|][0] == 'N';
    }
  }

  /** The success record: the prediction is the classifier's answer on the
      processed text, the label is the map's entry for it, `text_length` is
      the length of the (non-empty, collapsed) processed text, and the
      preview is that text cut to 200 characters, with "..." exactly when it
      was cut. */
  lemma SuccessShape(reading: Result<seq<PageText>>, pipeline: SpamPipeline, labelMap: map<int, string>)
    requires 0 in labelMap && 1 in labelMap
    requires PredictPdfResult(reading, pipeline, labelMap).SuccessResult?
    ensures var r, processed := PredictPdfResult(reading, pipeline, labelMap), ProcessedText(pipeline, ReadFirstPage(reading).value);
      ReadFirstPage(reading).Ok? &&
      processed != "" && IsCollapsed(processed) &&
      r.prediction == pipeline.Predict([processed])[0] &&
      r.labelName == labelMap[r.prediction] &&
      r.textLength == |processed| &&
      |r.preview| <= PreviewLength + |Ellipsis| &&
      (r.textLength <= PreviewLength ==> r.preview == processed) &&
      (r.textLength > PreviewLength <==> |r.preview| == PreviewLength + |Ellipsis|) &&
      (r.textLength > PreviewLength ==> r.preview == processed[..PreviewLength] + Ellipsis)
  {
    var text := ReadFirstPage(reading).value;
    var processed := ProcessedText(pipeline, text);
    if |processed| > PreviewLength {
      assert Preview(processed) == processed[..PreviewLength] + Ellipsis;
    }
  }

  /** With the default label map, a success record says "SPAM" exactly for
      prediction 1 and "HAM" exactly for prediction 0. */
  lemma DefaultLabels(reading: Result<seq<PageText>>, pipeline: SpamPipeline)
    requires PredictPdfResult(reading, pipeline, DefaultLabelMap).SuccessResult?
    ensures var r := PredictPdfResult(reading, pipeline, DefaultLabelMap);
      (r.labelName == "SPAM" <==> r.prediction == 1) && (r.labelName == "HAM" <==> r.prediction == 0)
  {
  }

  /** A page with no text, or with whitespace only, is reported as
      `NoValidText`. */
  lemma BlankPageIsRejected(reading: Result<seq<PageText>>, pipeline: SpamPipeline, labelMap: map<int, string>)
    requires 0 in labelMap && 1 in labelMap
    requires ReadFirstPage(reading).Ok?
    requires var t := ReadFirstPage(reading).value; forall k :: 0 <= k < |t| ==> IsSpace(t[k])
    ensures PredictPdfResult(reading, pipeline, labelMap) == ErrorResult(NoValidText)
  {
    PreprocessBlank(pipeline, ReadFirstPage(reading).value);
  }

  /** A document without pages is not a read failure: its text is empty, so
      the answer is `NoValidText`. */
  lemma EmptyDocumentIsNoValidText(pipeline: SpamPipeline, labelMap: map<int, string>)
    requires 0 in labelMap && 1 in labelMap
    ensures PredictPdfResult(Ok([]), pipeline, labelMap) == ErrorResult(NoValidText)
  {
    BlankPageIsRejected(Ok([]), pipeline, labelMap);
  }
}
