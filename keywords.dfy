/** The keyword locator of the diagnosis (app.py, lines 38-55): every line of
    the layout text is tested, in order, against every keyword, in list order;
    each keyword found in the upper-cased line is reported with the line
    number, the line with the exact-case keyword bracketed, and whether the
    line holds a digit, and is appended to the list of keywords found. */
module Keywords {
  import opened Text

  /** The keywords, in the order they are tested on each line. */
  const Claves: seq<string> := ["TOTAL", "PAGAR", "FACTURA", "POLIZA", "FECHA", "PERIODO", "CUFE"]

  /** One reported match: the 1-based line number, the keyword, the highlighted
      line and the has-digit flag. */
  datatype Hit = Hit(lineNo: nat, key: string, highlighted: string, hasDigits: bool)

  /** A keyword is found on a line when it occurs in the upper-cased line. */
  predicate Matches(line: string, key: string) {
    Contains(Upper(line), key)
  }

  /** `line.replace(key, "[" + key + "]")`: only exact-case occurrences are bracketed. */
  function Highlight(line: string, key: string): string {
    ReplaceAll(line, key, "[" + key + "]")
  }

  /** The report for keyword `key` found on the line at 0-based index `i`. */
  function HitFor(i: nat, line: string, key: string): Hit {
    Hit(i + 1, key, Highlight(line, key), HasDigit(line))
  }

  /** The reports for the line at index `i` against the first `m` keywords. */
  function LineHits(i: nat, line: string, m: nat): seq<Hit>
    requires m <= |Claves|
  {
    if m == 0 then []
    else
      LineHits(i, line, m - 1) +
      (if Matches(line, Claves[m - 1]) then [HitFor(i, line, Claves[m - 1])] else [])
  }

  /** The reports for all lines, line after line. */
  function ScanHits(lines: seq<string>): seq<Hit> {
    if lines == [] then []
    else ScanHits(lines[..|lines| - 1]) + LineHits(|lines| - 1, lines[|lines| - 1], |Claves|)
  }

  /** The keywords of the reports, in order: the list the script accumulates. */
  function KeysOf(hits: seq<Hit>): seq<string> {
    seq(|hits|, k requires 0 <= k < |hits| => hits[k].key)
  }

  lemma KeysOfAppend(hits: seq<Hit>, h: Hit)
    ensures KeysOf(hits + [h]) == KeysOf(hits) + [h.key]
  {
  }

  lemma LineHitsStep(i: nat, line: string, j: nat)
    requires j < |Claves|
    ensures LineHits(i, line, j + 1) ==
      LineHits(i, line, j) + (if Matches(line, Claves[j]) then [HitFor(i, line, Claves[j])] else [])
  {
  }

  /** The position of a keyword in `Claves` (`|Claves|` when it is not one). */
  function KeyIndex(key: string): nat {
    IndexIn(Claves, key)
  }

  function IndexIn(keys: seq<string>, key: string): nat {
    if keys == [] then 0 else if keys[0] == key then 0 else 1 + IndexIn(keys[1..], key)
  }

  /** The keywords are distinct, so each is recovered from its position. */
  lemma KeyIndexOfClave(j: nat)
    requires j < |Claves|
    ensures KeyIndex(Claves[j]) == j
  {
    assert Claves[1..][1..][1..][1..][1..][1..] == ["CUFE"];
  }

  /** The keywords are upper-case, so `Upper` leaves them unchanged. */
  lemma ClavesAreUpper(j: nat)
    requires j < |Claves|
    ensures IsUpper(Claves[j])
  {
  }

  /** Scan the lines; `found` is the script's accumulator, `hits` what it reports. */
  method ScanKeywords(lines: seq<string>) returns (found: seq<string>, hits: seq<Hit>)
    ensures hits == ScanHits(lines)
    ensures found == KeysOf(hits)
  {
    found, hits := [], [];
    var i := 0;
    while i < |lines|
      invariant 0 <= i <= |lines|
      invariant hits == ScanHits(lines[..i])
      invariant found == KeysOf(hits)
    {
      found, hits := ScanLine(i, lines[i], found, hits);
      assert lines[..i + 1][..i] == lines[..i];
      i := i + 1;
    }
    assert lines[..|lines|] == lines;
  }

  /** The inner loop over the keywords for the line at index `i`, appending to
      the accumulators. */
  method ScanLine(i: nat, line: string, found0: seq<string>, hits0: seq<Hit>)
    returns (found: seq<string>, hits: seq<Hit>)
    requires found0 == KeysOf(hits0)
    ensures hits == hits0 + LineHits(i, line, |Claves|)
    ensures found == KeysOf(hits)
  {
    found, hits := found0, hits0;
    var lineUpper := Upper(line);
    var j := 0;
    while j < |Claves|
      invariant 0 <= j <= |Claves|
      invariant hits == hits0 + LineHits(i, line, j)
      invariant found == KeysOf(hits)
    {
      var key := Claves[j];
      LineHitsStep(i, line, j);
      if Contains(lineUpper, key) {
        var highlighted := Highlight(line, key);
        var hasDigits := HasDigit(line);
        KeysOfAppend(hits, Hit(i + 1, key, highlighted, hasDigits));
        hits := hits + [Hit(i + 1, key, highlighted, hasDigits)];
        found := found + [key];
      }
      j := j + 1;
    }
  }

  // ---------------------------------------------------------------------------
  // What the reports of one line are
  // ---------------------------------------------------------------------------

  /** `h` is the report of some keyword of `Claves` found on the line at index `i`. */
  predicate ReportOf(h: Hit, i: nat, line: string) {
    exists j :: 0 <= j < |Claves| && Matches(line, Claves[j]) && h == HitFor(i, line, Claves[j])
  }

  /** The report for keyword `Claves[j]` on the line at index `i` is among `hits`. */
  predicate Reported(hits: seq<Hit>, i: nat, line: string, j: nat)
    requires j < |Claves|
  {
    HitFor(i, line, Claves[j]) in hits
  }

  /** Each report of a line is for a keyword found on it; at most one per keyword. */
  lemma {:induction false} LineHitsSound(i: nat, line: string, m: nat)
    requires m <= |Claves|
    ensures |LineHits(i, line, m)| <= m
    ensures forall a :: 0 <= a < |LineHits(i, line, m)| ==> ReportOf(LineHits(i, line, m)[a], i, line)
  {
    if m > 0 {
      LineHitsSound(i, line, m - 1);
      var prev := LineHits(i, line, m - 1);
      var hs := LineHits(i, line, m);
      LineHitsStep(i, line, m - 1);
      forall a | 0 <= a < |hs|
        ensures ReportOf(hs[a], i, line)
      {
        if a < |prev| { assert hs[a] == prev[a]; }
      }
    }
  }

  /** The reports of a line follow the order of the keyword list. */
  lemma {:induction false} LineHitsOrdered(i: nat, line: string, m: nat)
    requires m <= |Claves|
    ensures forall a :: 0 <= a < |LineHits(i, line, m)| ==> KeyIndex(LineHits(i, line, m)[a].key) < m
    ensures forall a, b :: 0 <= a < b < |LineHits(i, line, m)| ==>
      KeyIndex(LineHits(i, line, m)[a].key) < KeyIndex(LineHits(i, line, m)[b].key)
  {
    if m > 0 {
      LineHitsOrdered(i, line, m - 1);
      KeyIndexOfClave(m - 1);
      var prev := LineHits(i, line, m - 1);
      var hs := LineHits(i, line, m);
      LineHitsStep(i, line, m - 1);
      forall a | 0 <= a < |hs|
        ensures KeyIndex(hs[a].key) < m
      {
        if a < |prev| { assert hs[a] == prev[a]; }
      }
      forall a, b | 0 <= a < b < |hs|
        ensures KeyIndex(hs[a].key) < KeyIndex(hs[b].key)
      {
        if b < |prev| { assert hs[a] == prev[a] && hs[b] == prev[b]; }
        else { assert hs[a] == prev[a]; }
      }
    }
  }

  /** Every keyword found on a line is reported for it. */
  lemma {:induction false} LineHitsComplete(i: nat, line: string, m: nat)
    requires m <= |Claves|
    ensures forall j {:trigger Reported(LineHits(i, line, m), i, line, j)} ::
      0 <= j < m && Matches(line, Claves[j]) ==> Reported(LineHits(i, line, m), i, line, j)
  {
    if m > 0 {
      LineHitsComplete(i, line, m - 1);
      var prev := LineHits(i, line, m - 1);
      var hs := LineHits(i, line, m);
      LineHitsStep(i, line, m - 1);
      forall j | 0 <= j < m && Matches(line, Claves[j])
        ensures Reported(hs, i, line, j)
      {
        if j < m - 1 {
          assert Reported(prev, i, line, j);
        }
      }
    }
  }

  // ---------------------------------------------------------------------------
  // What the reports of the whole scan are
  // ---------------------------------------------------------------------------

  /** The order in which reports come out: by line, then by keyword position. */
  predicate Before(h1: Hit, h2: Hit) {
    h1.lineNo < h2.lineNo || (h1.lineNo == h2.lineNo && KeyIndex(h1.key) < KeyIndex(h2.key))
  }

  /** `h` is the report of a keyword found on one of the lines. */
  predicate ReportIn(h: Hit, lines: seq<string>) {
    1 <= h.lineNo <= |lines| && ReportOf(h, h.lineNo - 1, lines[h.lineNo - 1])
  }

  /** Unfolding `ScanHits` once: the reports of the earlier lines, then those of the last one. */
  lemma ScanHitsLast(lines: seq<string>)
    requires lines != []
    ensures ScanHits(lines) == ScanHits(lines[..|lines| - 1]) +
      LineHits(|lines| - 1, lines[|lines| - 1], |Claves|)
    ensures forall k :: 0 <= k < |lines| - 1 ==> lines[..|lines| - 1][k] == lines[k]
  {
  }

  /** Every report belongs to a keyword found on one of the lines, at most
      `|Claves|` per line. */
  lemma {:induction false} ScanHitsSound(lines: seq<string>)
    ensures |ScanHits(lines)| <= |Claves| * |lines|
    ensures forall a :: 0 <= a < |ScanHits(lines)| ==> ReportIn(ScanHits(lines)[a], lines)
    decreases |lines|
  {
    if lines != [] {
      var n := |lines| - 1;
      var init := lines[..n];
      ScanHitsLast(lines);
      ScanHitsSound(init);
      LineHitsSound(n, lines[n], |Claves|);
      var prev := ScanHits(init);
      var last := LineHits(n, lines[n], |Claves|);
      var hs := ScanHits(lines);
      forall a | 0 <= a < |hs|
        ensures ReportIn(hs[a], lines)
      {
        if a < |prev| {
          assert hs[a] == prev[a];
          assert ReportIn(prev[a], init);
          assert init[prev[a].lineNo - 1] == lines[prev[a].lineNo - 1];
        } else {
          assert hs[a] == last[a - |prev|];
        }
      }
    }
  }

  /** Reports come out by line, then by keyword position. */
  lemma {:induction false} ScanHitsOrdered(lines: seq<string>)
    ensures forall a, b :: 0 <= a < b < |ScanHits(lines)| ==>
      Before(ScanHits(lines)[a], ScanHits(lines)[b])
    decreases |lines|
  {
    if lines != [] {
      var n := |lines| - 1;
      var init := lines[..n];
      ScanHitsLast(lines);
      ScanHitsOrdered(init);
      ScanHitsSound(init);
      LineHitsSound(n, lines[n], |Claves|);
      LineHitsOrdered(n, lines[n], |Claves|);
      var prev := ScanHits(init);
      var last := LineHits(n, lines[n], |Claves|);
      var hs := ScanHits(lines);
      forall a, b | 0 <= a < b < |hs|
        ensures Before(hs[a], hs[b])
      {
        if b < |prev| {
          assert hs[a] == prev[a] && hs[b] == prev[b];
        } else if a < |prev| {
          assert hs[a] == prev[a] && hs[b] == last[b - |prev|];
          assert ReportIn(prev[a], init);
        } else {
          assert hs[a] == last[a - |prev|] && hs[b] == last[b - |prev|];
        }
      }
    }
  }

  /** Every keyword found on a line is reported. */
  lemma {:induction false} ScanHitsComplete(lines: seq<string>)
    ensures forall i, j {:trigger Reported(ScanHits(lines), i, lines[i], j)} ::
      0 <= i < |lines| && 0 <= j < |Claves| && Matches(lines[i], Claves[j]) ==>
      Reported(ScanHits(lines), i, lines[i], j)
    decreases |lines|
  {
    if lines != [] {
      var n := |lines| - 1;
      var init := lines[..n];
      ScanHitsLast(lines);
      ScanHitsComplete(init);
      LineHitsComplete(n, lines[n], |Claves|);
      var prev := ScanHits(init);
      var last := LineHits(n, lines[n], |Claves|);
      var hs := ScanHits(lines);
      forall i, j | 0 <= i < |lines| && 0 <= j < |Claves| && Matches(lines[i], Claves[j])
        ensures Reported(hs, i, lines[i], j)
      {
        if i < n {
          assert init[i] == lines[i];
          assert Reported(prev, i, init[i], j);
        } else {
          assert Reported(last, n, lines[n], j);
        }
      }
    }
  }

  /** A report is produced exactly for each (line, keyword) pair whose keyword
      occurs in the upper-cased line. */
  lemma ScanMembership(lines: seq<string>, h: Hit)
    ensures h in ScanHits(lines) <==>
      exists i, j :: 0 <= i < |lines| && 0 <= j < |Claves| && Matches(lines[i], Claves[j]) &&
        h == HitFor(i, lines[i], Claves[j])
  {
    if h in ScanHits(lines) {
      ScanHitIsMatch(lines, h);
    } else {
      forall i, j | 0 <= i < |lines| && 0 <= j < |Claves| && Matches(lines[i], Claves[j])
        ensures h != HitFor(i, lines[i], Claves[j])
      {
        MatchIsScanned(lines, i, j);
      }
    }
  }

  lemma ScanHitIsMatch(lines: seq<string>, h: Hit)
    requires h in ScanHits(lines)
    ensures exists i, j ::
      0 <= i < |lines| && 0 <= j < |Claves| && Matches(lines[i], Claves[j]) && h == HitFor(i, lines[i], Claves[j])
  {
    ReportedHitMatches(lines, h);
    ReportInIsMatch(lines, h);
  }

  lemma ReportInIsMatch(lines: seq<string>, h: Hit)
    requires ReportIn(h, lines)
    ensures exists i, j ::
      0 <= i < |lines| && 0 <= j < |Claves| && Matches(lines[i], Claves[j]) && h == HitFor(i, lines[i], Claves[j])
  {
  }

  lemma MatchIsScanned(lines: seq<string>, i: nat, j: nat)
    requires i < |lines| && j < |Claves| && Matches(lines[i], Claves[j])
    ensures HitFor(i, lines[i], Claves[j]) in ScanHits(lines)
  {
    ScanHitsComplete(lines);
    assert Reported(ScanHits(lines), i, lines[i], j);
  }

  lemma ReportedHitMatches(lines: seq<string>, h: Hit)
    requires h in ScanHits(lines)
    ensures ReportIn(h, lines)
  {
    ScanHitsSound(lines);
  }

  /** The reports come out ordered by line number, then by keyword position; in
      particular no (line, keyword) pair is reported twice. */
  lemma ScanOrdered(lines: seq<string>, a: nat, b: nat)
    requires a < b < |ScanHits(lines)|
    ensures Before(ScanHits(lines)[a], ScanHits(lines)[b])
    ensures ScanHits(lines)[a] != ScanHits(lines)[b]
  {
    ScanHitsOrdered(lines);
  }

  /** There are at most `|Claves|` reports per line, and every keyword found
      is one of `Claves`. */
  lemma ScanBounds(lines: seq<string>)
    ensures |KeysOf(ScanHits(lines))| <= |Claves| * |lines|
    ensures forall k :: 0 <= k < |KeysOf(ScanHits(lines))| ==> KeysOf(ScanHits(lines))[k] in Claves
  {
    ScanHitsSound(lines);
    forall k | 0 <= k < |KeysOf(ScanHits(lines))|
      ensures KeysOf(ScanHits(lines))[k] in Claves
    {
      assert ReportIn(ScanHits(lines)[k], lines);
    }
  }

  /** The list of keywords found is empty exactly when no line's upper-cased
      form holds any keyword: the condition of the "no keyword found" message. */
  lemma NothingFoundIff(lines: seq<string>)
    ensures KeysOf(ScanHits(lines)) == [] <==>
      forall i, j :: 0 <= i < |lines| && 0 <= j < |Claves| ==> !Matches(lines[i], Claves[j])
  {
    if ScanHits(lines) != [] {
      var h := ScanHits(lines)[0];
      ScanHitIsMatch(lines, h);
    } else {
      forall i, j | 0 <= i < |lines| && 0 <= j < |Claves|
        ensures !Matches(lines[i], Claves[j])
      {
        if Matches(lines[i], Claves[j]) {
          MatchIsScanned(lines, i, j);
        }
      }
    }
  }

  /** An exact-case occurrence of a keyword is always reported, since the
      keywords are already upper-case. */
  lemma ExactOccurrenceReported(lines: seq<string>, i: nat, j: nat)
    requires i < |lines| && j < |Claves|
    requires Contains(lines[i], Claves[j])
    ensures HitFor(i, lines[i], Claves[j]) in ScanHits(lines)
  {
    ClavesAreUpper(j);
    ContainsUpper(lines[i], Claves[j]);
    ScanHitsComplete(lines);
    assert Reported(ScanHits(lines), i, lines[i], j);
  }

  /** The highlighted line is the original line with every exact-case
      occurrence of the keyword bracketed: both are the same pieces, joined by
      the keyword in the line and by the bracketed keyword in the highlight. */
  lemma HighlightBracketsEveryOccurrence(line: string, j: nat)
    requires j < |Claves|
    ensures line == JoinWith(SplitOn(line, Claves[j]), Claves[j])
    ensures Highlight(line, Claves[j]) == JoinWith(SplitOn(line, Claves[j]), "[" + Claves[j] + "]")
    ensures forall k :: 0 <= k < |SplitOn(line, Claves[j])| ==> !Contains(SplitOn(line, Claves[j])[k], Claves[j])
  {
    SplitJoin(line, Claves[j]);
    ReplaceIsJoinOfSplit(line, Claves[j], "[" + Claves[j] + "]");
    SplitPiecesAvoidSep(line, Claves[j]);
  }

  /** The highlight changes the line exactly when the keyword occurs in it in
      exact case; a keyword matched only through upper-casing leaves the line as it is. */
  lemma HighlightChangesIffExact(line: string, j: nat)
    requires j < |Claves|
    ensures Highlight(line, Claves[j]) != line <==> Contains(line, Claves[j])
  {
    ReplaceUnchangedIff(line, Claves[j], "[" + Claves[j] + "]");
  }

  /** The has-digit flag of a report is true exactly when its line holds a digit. */
  lemma HitDigitFlag(i: nat, line: string, key: string)
    ensures HitFor(i, line, key).hasDigits <==> exists c :: 0 <= c < |line| && IsDigit(line[c])
  {
  }
}
