# Invoice layout diagnosis — a verified Dafny model

`app.py` holds `diagnosticar_pdf`. This is a diagnostic tool for the utility-invoice extractor. It opens an invoice PDF and takes two texts from the first page: one extracted with layout preservation, one without. It then does four things:

1. **Digital-text gate.** If the layout text is missing or shorter than 50 characters, the page is taken to be an image or a scan, and the diagnosis stops.
2. **Preview.** The layout text is split on `'\n'`, and the first 20 lines are listed with 1-based numbers.
3. **Keyword scan.** Every line is tested, in order, against every keyword of `["TOTAL", "PAGAR", "FACTURA", "POLIZA", "FECHA", "PERIODO", "CUFE"]`, in list order. A keyword is found when it occurs in the upper-cased line. Each keyword found is reported with:
   - the line number;
   - the line with its exact-case occurrences bracketed (`[TOTAL]`);
   - a flag saying whether the line holds a digit.

   The keyword is also appended to the list `encontradas`. When that list ends up empty, a "no keyword found" warning is given.
4. **Verdict.** The plain text is checked against a first-match-wins chain:
   - the exact-case tag `CUFE` gives an electronic invoice (2024-2025);
   - otherwise `PERIODO` in the upper-cased text gives a modern invoice (2023);
   - otherwise `TOTAL A PAGAR` in the upper-cased text gives a legacy invoice (2017-2020);
   - otherwise the layout is unknown or very old.

The model returns all of this as data (`Diagnosis.Report`) instead of printing it.

Modules:

- `Text` (text.dfy) models the Python `str` operations the script uses: `upper()`, `p in s`, `split(sep)`, `sep.join(...)`, `replace(old, new)` and `any(c.isdigit() ...)`. Each is a function. Lemmas relate each one to an independent definition or to its inverse:
  - `in` is matched against positional occurrence;
  - `split` and `join` undo each other;
  - `replace` equals a join of the split.
- `Layout` (layout.dfy) holds the verdict chain `Classify` and its properties. The main one is that surrounding text can only move the verdict earlier in the chain.
- `Keywords` (keywords.dfy) holds the scan as an imperative method with nested loops. `ScanKeywords` runs the outer loop over lines. `ScanLine` runs the inner loop over keywords and appends to the accumulators. Both are proved against the specification function `ScanHits`. Lemmas then characterise `ScanHits`: membership in both directions, order, bounds, emptiness, and the highlight and digit flag.
- `Diagnosis` (diagnosis.dfy) holds the gate, the line split, the preview loop and the whole diagnosis `Diagnose`.

## Model

| member | source | states |
|---|---|---|
| `Text.Upper` | app.py:42 | `line.upper()` keeps the length and upper-cases every character in place (ASCII letters) |
| `Text.Contains` | app.py:44 | `p in s`, computed as: `p` is a prefix of `s` or occurs in the rest of `s` after its first character; `Text.ContainsIff` relates it to an occurrence at an index |
| `Text.ContainsIff` | app.py:44 | `p in s` holds exactly when `p` occurs in `s` at some index |
| `Text.ContainsUpper` | app.py:42-44 | an exact occurrence of an upper-case word is also an occurrence in the upper-cased text |
| `Text.HasDigit` | app.py:48 | `any(c.isdigit() for c in s)` is true exactly when some character of `s` is a digit |
| `Text.SplitOn` | app.py:32 | `s.split(sep)` for a non-empty separator: `s` is cut at each occurrence of `sep`, left to right and without overlap, into at least one piece |
| `Text.JoinWith` | app.py:32 | `sep.join(pieces)`: the pieces in order with `sep` between each two neighbours, and the empty text for no pieces |
| `Text.ReplaceAll` | app.py:46 | `s.replace(pat, rep)`: each occurrence of `pat` found left to right without overlap is replaced by `rep`; an empty `pat` puts `rep` before every character and at the end, as in Python |
| `Text.SplitJoin` | app.py:32 | joining the pieces of `s.split(sep)` with `sep` gives `s` back |
| `Text.SplitPiecesAvoidSep` | app.py:32 | no piece of `s.split(sep)` contains `sep` |
| `Text.SplitCount` | app.py:32 | splitting on one character gives one piece more than the number of occurrences of that character |
| `Text.JoinSplit` | app.py:32 | splitting undoes joining on a one-character separator that no piece contains |
| `Text.ReplaceIsJoinOfSplit` | app.py:46 | `s.replace(old, new)` is the pieces of `s.split(old)` joined with `new`: every occurrence is replaced and nothing else changes |
| `Text.ReplaceUnchangedIff` | app.py:46 | a replacement longer than the pattern leaves the text unchanged exactly when the pattern does not occur |
| `Layout.Classify` | app.py:58-65 | the first-match chain: `CUFE` in the plain text in exact case gives electronic; otherwise `PERIODO` in the upper-cased text gives modern; otherwise `TOTAL A PAGAR` in the upper-cased text gives legacy; otherwise unknown |
| `Layout.ClassifyIff` | app.py:58-65 | each verdict holds exactly when its marker is present and every earlier marker is absent; `CUFE` is tested in exact case, the other two on the upper-cased text |
| `Layout.CufeAlwaysWins` | app.py:58-59 | any text containing the exact tag `CUFE` is electronic, whatever other markers it holds |
| `Layout.ContextOnlyPromotes` | app.py:58-65 | adding text around a text can only move its verdict earlier in the chain, never later (first match wins) |
| `Layout.CaseInsensitiveBelowCufe` | app.py:60-65 | two texts without `CUFE` that upper-case alike get the same verdict |
| `Layout.LowercaseCufeIsUnknown` | app.py:58-65 | a lower-case `cufe` is not the tag: the text "cufe" gives the unknown layout |
| `Layout.LowercaseCufeWithPeriodIsModern` | app.py:58-61 | "cufe Periodo" gives the modern layout, since `PERIODO` is found case-insensitively |
| `Keywords.KeyIndexOfClave` | app.py:38 | the seven keywords are distinct: each is recovered from its position in the list |
| `Keywords.Matches` | app.py:42-44 | a keyword is found on a line when it occurs in the upper-cased line |
| `Keywords.Highlight` | app.py:46 | the line with every exact-case occurrence of the keyword replaced by the keyword in square brackets |
| `Keywords.HitFor` | app.py:44-52 | the report of a keyword found on the line at 0-based index `i`: the line number `i + 1`, the keyword, the highlighted line and the has-digit flag of the line |
| `Keywords.LineHits` | app.py:43-52 | the reports of one line, against the keywords in list order: one report for each keyword found, and nothing for the others |
| `Keywords.ScanHits` | app.py:41-52 | the reports of the whole scan: those of the first line, then those of the second, and so on |
| `Keywords.KeysOf` | app.py:52 | the keywords of the reports, in order, which is the list `encontradas` |
| `Keywords.ScanKeywords` | app.py:39-52 | the nested scan returns exactly the reports `ScanHits(lines)`, and its accumulator `encontradas` is their keywords in order |
| `Keywords.ScanLine` | app.py:42-52 | the inner loop over the keywords appends exactly the reports of one line to the accumulators |
| `Keywords.LineHitsSound` | app.py:43-52 | a line tested against the first `m` keywords gives at most `m` reports; each is for a keyword found in the upper-cased line and carries the line number, the highlight and the digit flag (that no keyword is reported twice on a line follows from `Keywords.LineHitsOrdered`) |
| `Keywords.LineHitsOrdered` | app.py:43 | a line's reports follow the order of the keyword list, strictly |
| `Keywords.LineHitsComplete` | app.py:43-52 | every keyword found in the upper-cased line is reported for it |
| `Keywords.ScanHitsSound` | app.py:41-52 | every report is for a keyword found in the upper-cased form of its line, and there are at most 7 × the number of lines reports in all |
| `Keywords.ScanHitsOrdered` | app.py:41-52 | reports come out ordered by line number, then by keyword position |
| `Keywords.ScanHitsComplete` | app.py:41-52 | every keyword found on a line is reported |
| `Keywords.ReportedHitMatches` | app.py:44-52 | a report names a line and a keyword that matches it, and carries that line's highlight and digit flag |
| `Keywords.ScanHitIsMatch` | app.py:41-52 | every report is the report of some line and some keyword that occurs in that upper-cased line |
| `Keywords.MatchIsScanned` | app.py:41-52 | the report of a keyword found in an upper-cased line is among the scan's reports |
| `Keywords.ScanMembership` | app.py:41-52 | a report is in the scan exactly when its keyword occurs in the upper-cased line it names |
| `Keywords.ScanOrdered` | app.py:41-52 | of two reports, the earlier one has a smaller line number, or the same line and an earlier keyword, so no pair is reported twice |
| `Keywords.ScanBounds` | app.py:38-52 | the keyword list has at most 7 × the number of lines entries in all, and every entry is one of the keywords |
| `Keywords.NothingFoundIff` | app.py:54-55 | the keyword list is empty exactly when no upper-cased line contains any keyword |
| `Keywords.ExactOccurrenceReported` | app.py:42-44 | an exact-case occurrence of a keyword is always reported |
| `Keywords.HighlightBracketsEveryOccurrence` | app.py:46 | the line and its highlight are the same pieces, joined by the keyword in the line and by `[keyword]` in the highlight, and no piece holds the keyword |
| `Keywords.HighlightChangesIffExact` | app.py:44-46 | the highlight differs from the line exactly when the keyword occurs in exact case; a keyword matched only through `upper()` leaves the line unchanged |
| `Keywords.HitDigitFlag` | app.py:48 | a report's digit flag is true exactly when its line holds a digit |
| `Diagnosis.LinesOfText` | app.py:32 | `split('\n')` gives one more line than there are newlines, no line holds a newline, and joining with newlines gives the text back |
| `Diagnosis.LinesOfJoin` | app.py:32 | lines without newlines are recovered by splitting their newline join |
| `Diagnosis.LooksLikeImage` | app.py:23 | the digital-text gate fails when the layout text is missing or shorter than 50 characters |
| `Diagnosis.Lines` | app.py:32 | the lines of the layout text are its pieces when split on `'\n'` |
| `Diagnosis.Preview` | app.py:33-34 | the preview lists the first `min(20, number of lines)` lines, in order, numbered 1, 2, ... |
| `Diagnosis.Diagnose` | app.py:19-65 | a missing text or one under 50 characters stops at the image/scan outcome; otherwise the report holds the character count, the preview, the scan and its keyword list, the "no keyword" warning (given exactly when no line matches), and the verdict of the plain text (none when the plain text is missing) |

## Left out

- Opening the PDF and reading its first page are not modelled (app.py:11-20). Neither is the "no pages" check. This is a foreign PDF library, so the two extracted texts are inputs of `Diagnose`.
- Console output is not modelled: headings, emoji, `ljust(10)`, the `:02d` and `:03d` line numbers, and the `.strip()` applied to a highlighted line when it is printed (app.py:51). This is presentation. A report keeps the unstripped highlighted line.
- The `try`/`except Exception` wrapper (app.py:10, 67-68) is modelled only where the script itself raises: a missing plain text makes `"CUFE" in None` fail, and the model records this as a report with no verdict. Exceptions raised inside the PDF library are not modelled.
- The command-line driver is not modelled: `sys.argv`, `os.path.exists` and the default test file (app.py:70-81). This is process plumbing.
- Text.Upper: models `str.upper()` on ASCII letters only. Python's full Unicode case mapping is not modelled. That mapping can change a string's length (`ß` becomes `SS`). It also maps some non-ASCII letters to ASCII ones (dotless `ı` becomes `I`, long `ſ` becomes `S`). So Python finds `POLIZA` in the line "Polıza" and gives the modern verdict for a plain text holding "Perıodo", while the model finds no keyword there and gives the unknown verdict.
- Text.HasDigit: counts ASCII digits only. `str.isdigit()` also accepts other Unicode digits.
- The money and date normalisers, the per-layout field extractors and the report assembly are not part of this model. They are not in `app.py`.
- Layout classifiers elsewhere in the repository are not part of this model. The verdict modelled is the four-way chain of app.py:58-65.
