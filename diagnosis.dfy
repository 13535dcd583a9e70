/** The structural diagnosis of one invoice page (`diagnosticar_pdf` in
    app.py): the digital-text gate, the numbered preview of the first lines,
    the keyword scan and the layout verdict, returned as data instead of
    printed. The two texts of the first page, with and without layout
    preservation, are inputs; either may be missing, as the PDF library can
    return no text at all. */
module Diagnosis {
  import opened Text
  import opened Layout
  import opened Keywords

  datatype Option<T> = None | Some(value: T)

  /** Below this many characters the page is taken for an image or a scan. */
  const MinDigitalChars: nat := 50
  /** How many lines the preview shows. */
  const PreviewLimit: nat := 20

  /** One preview line: its 1-based number and its text. */
  datatype PreviewLine = PreviewLine(number: nat, text: string)

  /** What the diagnosis establishes about a page. */
  datatype Report =
    | ImageOrScan
      // the layout text is missing or too short: nothing else is examined
    | Digital(
        charCount: nat,
        preview: seq<PreviewLine>,
        found: seq<string>,
        hits: seq<Hit>,
        noKeywordWarning: bool,
        verdict: Option<Verdict>)
      // `verdict` is None when the plain text is missing: the substring test
      // on it raises, and the handler reports a fatal error instead

  function Min(a: int, b: int): int {
    if a <= b then a else b
  }

  /** `not text or len(text) < 50`: a missing or empty text is falsy, and the
      empty text is short anyway. */
  predicate LooksLikeImage(layoutText: Option<string>) {
    layoutText.None? || |layoutText.value| < MinDigitalChars
  }

  /** `text.split('\n')`. */
  function Lines(text: string): seq<string> {
    SplitOn(text, "\n")
  }

  /** One line more than there are newlines, none of the lines holds a
      newline, and joining them with newlines gives the text back. */
  lemma LinesOfText(text: string)
    ensures |Lines(text)| == CountChar(text, '\n') + 1
    ensures forall k :: 0 <= k < |Lines(text)| ==> '\n' !in Lines(text)[k]
    ensures JoinWith(Lines(text), "\n") == text
  {
    SplitCount(text, '\n');
    SplitJoin(text, "\n");
    SplitPiecesAvoidSep(text, "\n");
    forall k | 0 <= k < |Lines(text)|
      ensures '\n' !in Lines(text)[k]
    {
      ContainsChar(Lines(text)[k], '\n');
    }
  }

  /** Conversely, lines without newlines are recovered from their join. */
  lemma LinesOfJoin(lines: seq<string>)
    requires |lines| >= 1
    requires forall k :: 0 <= k < |lines| ==> '\n' !in lines[k]
    ensures Lines(JoinWith(lines, "\n")) == lines
  {
    forall k | 0 <= k < |lines|
      ensures !Contains(lines[k], ['\n'])
    {
      ContainsChar(lines[k], '\n');
    }
    JoinSplit(lines, '\n');
  }

  /** The preview shows the first `min(20, |lines|)` lines, in order, labelled 1, 2, ... */
  predicate IsPreviewOf(shown: seq<PreviewLine>, lines: seq<string>) {
    |shown| == Min(PreviewLimit, |lines|) &&
    forall k :: 0 <= k < |shown| ==> shown[k] == PreviewLine(k + 1, lines[k])
  }

  /** The numbered listing of `lineas[:20]`. */
  method Preview(lines: seq<string>) returns (shown: seq<PreviewLine>)
    ensures IsPreviewOf(shown, lines)
  {
    var head := lines[..Min(PreviewLimit, |lines|)];
    shown := [];
    var i := 0;
    while i < |head|
      invariant 0 <= i <= |head|
      invariant |shown| == i
      invariant forall k :: 0 <= k < i ==> shown[k] == PreviewLine(k + 1, lines[k])
    {
      shown := shown + [PreviewLine(i + 1, head[i])];
      i := i + 1;
    }
  }

  /** The whole diagnosis of one page: a short or missing layout text stops
      it before anything else; otherwise the report holds the preview, the
      scan with its "no keyword found" warning, and the verdict on the plain text. */
  method Diagnose(layoutText: Option<string>, plainText: Option<string>) returns (r: Report)
    ensures r.ImageOrScan? <==> LooksLikeImage(layoutText)
    ensures r.Digital? ==>
      var lines := Lines(layoutText.value);
      r.charCount == |layoutText.value| &&
      IsPreviewOf(r.preview, lines) &&
      r.hits == ScanHits(lines) &&
      r.found == KeysOf(r.hits) &&
      (r.noKeywordWarning <==> r.found == []) &&
      (r.noKeywordWarning <==>
        forall i, j :: 0 <= i < |lines| && 0 <= j < |Claves| ==> !Matches(lines[i], Claves[j])) &&
      r.verdict == (if plainText.None? then None else Some(Classify(plainText.value)))
  {
    if LooksLikeImage(layoutText) {
      return ImageOrScan;
    }
    var text := layoutText.value;
    var lines := Lines(text);
    var shown := Preview(lines);
    var found, hits := ScanKeywords(lines);
    NothingFoundIff(lines);
    var verdict := if plainText.None? then None else Some(Classify(plainText.value));
    r := Digital(|text|, shown, found, hits, found == [], verdict);
  }
}
