/** The preliminary conclusion of the diagnosis: which invoice layout the
    page's plain text looks like, decided by a fixed chain of marker tests in
    which the first marker found wins (app.py, lines 58-65). */
module Layout {
  import opened Text

  datatype Verdict =
    | Electronic  // electronic invoice, 2024-2025
    | Modern      // modern invoice, 2023
    | Legacy      // legacy invoice, 2017-2020
    | Unknown     // unknown or very old layout (2001)

  /** The invoice authentication code tag; tested case-sensitively. */
  const CufeMarker: string := "CUFE"
  /** Tested against the upper-cased text. */
  const PeriodMarker: string := "PERIODO"
  /** Tested against the upper-cased text. */
  const TotalMarker: string := "TOTAL A PAGAR"

  /** The verdict for the plain (non-layout) text of the first page. */
  function Classify(text: string): Verdict {
    if Contains(text, CufeMarker) then Electronic
    else if Contains(Upper(text), PeriodMarker) then Modern
    else if Contains(Upper(text), TotalMarker) then Legacy
    else Unknown
  }

  /** Position of a verdict in the chain: a smaller rank is tested earlier. */
  function Rank(v: Verdict): nat {
    match v
    case Electronic => 0
    case Modern => 1
    case Legacy => 2
    case Unknown => 3
  }

  /** Each verdict holds exactly when its own marker is present and every
      earlier marker is absent; the four cases cover every text. */
  lemma ClassifyIff(text: string)
    ensures Classify(text) == Electronic <==> Contains(text, CufeMarker)
    ensures Classify(text) == Modern <==>
      !Contains(text, CufeMarker) && Contains(Upper(text), PeriodMarker)
    ensures Classify(text) == Legacy <==>
      !Contains(text, CufeMarker) && !Contains(Upper(text), PeriodMarker) &&
      Contains(Upper(text), TotalMarker)
    ensures Classify(text) == Unknown <==>
      !Contains(text, CufeMarker) && !Contains(Upper(text), PeriodMarker) &&
      !Contains(Upper(text), TotalMarker)
  {
  }

  /** A text holding the exact tag "CUFE" anywhere is electronic, whatever
      other markers surround it. */
  lemma CufeAlwaysWins(before: string, after: string)
    ensures Classify(before + CufeMarker + after) == Electronic
  {
    assert Contains(CufeMarker, CufeMarker) by { assert CufeMarker <= CufeMarker; }
    ContainsInContext(before, CufeMarker, after, CufeMarker);
  }

  /** Surrounding a text with more text can only move its verdict earlier in the
      chain: a marker that was found is still found, so a later verdict can
      never replace an earlier one. */
  lemma ContextOnlyPromotes(before: string, text: string, after: string)
    ensures Rank(Classify(before + text + after)) <= Rank(Classify(text))
  {
    var whole := before + text + after;
    UpperConcat(before, text);
    UpperConcat(before + text, after);
    assert Upper(whole) == Upper(before) + Upper(text) + Upper(after);
    if Contains(text, CufeMarker) {
      ContainsInContext(before, text, after, CufeMarker);
    } else if Contains(Upper(text), PeriodMarker) {
      ContainsInContext(Upper(before), Upper(text), Upper(after), PeriodMarker);
    } else if Contains(Upper(text), TotalMarker) {
      ContainsInContext(Upper(before), Upper(text), Upper(after), TotalMarker);
    }
  }

  /** Below the exact-case tag the chain ignores letter case: two texts without
      "CUFE" that upper-case alike get the same verdict. */
  lemma CaseInsensitiveBelowCufe(text1: string, text2: string)
    requires !Contains(text1, CufeMarker) && !Contains(text2, CufeMarker)
    requires Upper(text1) == Upper(text2)
    ensures Classify(text1) == Classify(text2)
  {
  }

  /** A lower-case "cufe" is not the tag: alone it gives the unknown layout. */
  lemma LowercaseCufeIsUnknown()
    ensures Classify("cufe") == Unknown
  {
    MissingCharNotContained("cufe", CufeMarker, 0);
    assert Upper("cufe") == CufeMarker;
  }

  /** Next to "Periodo" a lower-case "cufe" gives the modern layout. The text
      is a parameter fixed by the precondition, so that `Upper` is unfolded
      only at the indices the proof names rather than on a whole literal. */
  lemma LowercaseCufeWithPeriodIsModern(t: string)
    requires t == "cufe Periodo"
    ensures Classify(t) == Modern
  {
    MissingCharNotContained(t, CufeMarker, 0);
    var u := Upper(t);
    assert u[5] == 'P' && u[6] == 'E' && u[7] == 'R' && u[8] == 'I';
    assert u[9] == 'O' && u[10] == 'D' && u[11] == 'O';
    assert u[5..12] == PeriodMarker;
    assert OccursAt(u, PeriodMarker, 5);
    ContainsIff(u, PeriodMarker);
  }
}
