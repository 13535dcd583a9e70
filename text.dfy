/** The handful of Python `str` operations the diagnostic script relies on,
    restricted to ASCII where Python's behaviour is Unicode-aware:
    `upper()`, the substring test `p in s`, `split(sep)`, `sep.join(pieces)`,
    `replace(pat, rep)` and `any(c.isdigit() for c in s)`. */
module Text {

  // ---------------------------------------------------------------------------
  // Upper-casing (`str.upper()`, ASCII letters only)
  // ---------------------------------------------------------------------------

  function UpperChar(c: char): char {
    if 'a' <= c <= 'z' then (c as int - 32) as char else c
  }

  /** A string that `Upper` leaves as it is, such as every keyword the script looks for. */
  predicate IsUpper(s: string) {
    forall i :: 0 <= i < |s| ==> UpperChar(s[i]) == s[i]
  }

  /** `s.upper()`: the same length, every character upper-cased in place. */
  function Upper(s: string): (r: string)
    ensures |r| == |s|
    ensures forall i :: 0 <= i < |s| ==> r[i] == UpperChar(s[i])
  {
    if s == [] then [] else [UpperChar(s[0])] + Upper(s[1..])
  }

  lemma UpperConcat(a: string, b: string)
    ensures Upper(a + b) == Upper(a) + Upper(b)
  {
    assert forall i :: 0 <= i < |a + b| ==> Upper(a + b)[i] == (Upper(a) + Upper(b))[i];
  }

  // ---------------------------------------------------------------------------
  // Substring test (`p in s`)
  // ---------------------------------------------------------------------------

  /** `p` occurs in `s` starting at index `i`. */
  predicate OccursAt(s: string, p: string, i: int) {
    0 <= i && i + |p| <= |s| && s[i..i + |p|] == p
  }

  /** Python's `p in s`: try every starting position from the left. */
  function Contains(s: string, p: string): bool
    decreases |s|
  {
    |p| <= |s| && (p <= s || Contains(s[1..], p))
  }

  lemma PrefixIsOccurrenceAtZero(s: string, p: string)
    ensures p <= s <==> OccursAt(s, p, 0)
  {
    if OccursAt(s, p, 0) {
      assert s[..|p|] == p;
    }
  }

  lemma OccurrenceInTail(s: string, p: string, i: int)
    requires s != [] && i >= 0
    ensures OccursAt(s[1..], p, i) <==> OccursAt(s, p, i + 1)
  {
    if 0 <= i && i + |p| <= |s| - 1 {
      assert s[1..][i..i + |p|] == s[i + 1..i + 1 + |p|];
    }
  }

  /** `Contains` agrees with the positional definition of an occurrence. */
  lemma {:induction false} ContainsIff(s: string, p: string)
    ensures Contains(s, p) <==> exists i :: OccursAt(s, p, i)
    decreases |s|
  {
    PrefixIsOccurrenceAtZero(s, p);
    if |p| <= |s| && !(p <= s) {
      assert s != [];
      ContainsIff(s[1..], p);
      if Contains(s[1..], p) {
        var i :| OccursAt(s[1..], p, i);
        OccurrenceInTail(s, p, i);
      }
      if exists i :: OccursAt(s, p, i) {
        var i :| OccursAt(s, p, i);
        OccurrenceInTail(s, p, i - 1);
      }
    }
  }

  /** An occurrence stays an occurrence whatever text surrounds it. */
  lemma ContainsInContext(u: string, s: string, w: string, p: string)
    requires Contains(s, p)
    ensures Contains(u + s + w, p)
  {
    ContainsIff(s, p);
    var i :| OccursAt(s, p, i);
    assert (u + s + w)[|u| + i..|u| + i + |p|] == s[i..i + |p|];
    assert OccursAt(u + s + w, p, |u| + i);
    ContainsIff(u + s + w, p);
  }

  /** A text lacking one of the characters of `p` cannot contain `p`. */
  lemma MissingCharNotContained(s: string, p: string, k: nat)
    requires k < |p| && p[k] !in s
    ensures !Contains(s, p)
  {
    ContainsIff(s, p);
  }

  /** A one-character pattern occurs exactly when the character does. */
  lemma ContainsChar(s: string, c: char)
    ensures Contains(s, [c]) <==> c in s
  {
    ContainsIff(s, [c]);
    if Contains(s, [c]) {
      var i :| OccursAt(s, [c], i);
      assert s[i..i + 1][0] == s[i];
    }
    if c in s {
      var i :| 0 <= i < |s| && s[i] == c;
      assert OccursAt(s, [c], i);
    }
  }

  /** An exact occurrence of an upper-case word is also an occurrence in the upper-cased text. */
  lemma ContainsUpper(s: string, p: string)
    requires IsUpper(p)
    requires Contains(s, p)
    ensures Contains(Upper(s), p)
  {
    ContainsIff(s, p);
    var i :| OccursAt(s, p, i);
    assert Upper(s)[i..i + |p|] == p;
    assert OccursAt(Upper(s), p, i);
    ContainsIff(Upper(s), p);
  }

  // ---------------------------------------------------------------------------
  // Digits (`any(c.isdigit() for c in s)`, ASCII digits only)
  // ---------------------------------------------------------------------------

  predicate IsDigit(c: char) {
    '0' <= c <= '9'
  }

  /** True exactly when some character of `s` is a digit. */
  function HasDigit(s: string): (r: bool)
    ensures r <==> exists i :: 0 <= i < |s| && IsDigit(s[i])
  {
    if s == [] then false
    else if IsDigit(s[0]) then true
    else
      var r := HasDigit(s[1..]);
      assert forall i :: 1 <= i < |s| ==> s[i] == s[1..][i - 1];
      r
  }

  // ---------------------------------------------------------------------------
  // Splitting, joining and replacing on a non-empty separator
  // ---------------------------------------------------------------------------

  /** `s.split(sep)`: cut `s` at every occurrence of `sep`, scanning left to right.
      Python rejects an empty separator. */
  function SplitOn(s: string, sep: string): (pieces: seq<string>)
    requires |sep| > 0
    ensures |pieces| >= 1
    decreases |s|
  {
    if s == [] then [[]]
    else if sep <= s then [[]] + SplitOn(s[|sep|..], sep)
    else
      var rest := SplitOn(s[1..], sep);
      [[s[0]] + rest[0]] + rest[1..]
  }

  /** `sep.join(pieces)`. */
  function JoinWith(pieces: seq<string>, sep: string): string
    decreases |pieces|
  {
    if |pieces| == 0 then []
    else if |pieces| == 1 then pieces[0]
    else pieces[0] + sep + JoinWith(pieces[1..], sep)
  }

  /** `s.replace(pat, rep)`: every non-overlapping occurrence of `pat`, from the
      left, becomes `rep`. An empty `pat` puts `rep` before every character and
      at the end, as Python does. */
  function ReplaceAll(s: string, pat: string, rep: string): string
    decreases |s|
  {
    if |pat| == 0 then
      if s == [] then rep else rep + [s[0]] + ReplaceAll(s[1..], pat, rep)
    else if s == [] then []
    else if pat <= s then rep + ReplaceAll(s[|pat|..], pat, rep)
    else [s[0]] + ReplaceAll(s[1..], pat, rep)
  }

  /** Number of occurrences of the character `c` in `s`. */
  function CountChar(s: string, c: char): nat {
    if s == [] then 0 else (if s[0] == c then 1 else 0) + CountChar(s[1..], c)
  }

  lemma JoinPrepend(x: string, pieces: seq<string>, sep: string)
    requires |pieces| >= 1
    ensures JoinWith([x + pieces[0]] + pieces[1..], sep) == x + JoinWith(pieces, sep)
  {
    var ps := [x + pieces[0]] + pieces[1..];
    assert ps[1..] == pieces[1..];
  }

  lemma JoinAfterEmpty(rest: seq<string>, sep: string)
    requires |rest| >= 1
    ensures JoinWith([[]] + rest, sep) == sep + JoinWith(rest, sep)
  {
    assert ([[]] + rest)[1..] == rest;
  }

  /** Joining the pieces with the separator gives the text back. */
  lemma {:induction false} SplitJoin(s: string, sep: string)
    requires |sep| > 0
    ensures JoinWith(SplitOn(s, sep), sep) == s
    decreases |s|
  {
    if s == [] {
    } else if sep <= s {
      var tail := s[|sep|..];
      SplitJoin(tail, sep);
      JoinAfterEmpty(SplitOn(tail, sep), sep);
      assert s == sep + tail;
    } else {
      var tail := s[1..];
      SplitJoin(tail, sep);
      JoinPrepend([s[0]], SplitOn(tail, sep), sep);
      assert s == [s[0]] + tail;
    }
  }

  /** The first piece is the text up to the first separator. */
  lemma {:induction false} SplitFirstIsPrefix(s: string, sep: string)
    requires |sep| > 0
    ensures SplitOn(s, sep)[0] <= s
    decreases |s|
  {
    if s != [] && !(sep <= s) {
      SplitFirstIsPrefix(s[1..], sep);
    }
  }

  /** No piece contains the separator. */
  lemma {:induction false} SplitPiecesAvoidSep(s: string, sep: string)
    requires |sep| > 0
    ensures forall k :: 0 <= k < |SplitOn(s, sep)| ==> !Contains(SplitOn(s, sep)[k], sep)
    decreases |s|
  {
    var pieces := SplitOn(s, sep);
    if s == [] {
    } else if sep <= s {
      SplitPiecesAvoidSep(s[|sep|..], sep);
      var rest := SplitOn(s[|sep|..], sep);
      assert pieces == [[]] + rest;
      forall k | 0 <= k < |pieces| ensures !Contains(pieces[k], sep) {
        if k > 0 { assert pieces[k] == rest[k - 1]; }
      }
    } else {
      SplitPiecesAvoidSep(s[1..], sep);
      SplitFirstIsPrefix(s[1..], sep);
      var rest := SplitOn(s[1..], sep);
      var first := [s[0]] + rest[0];
      assert pieces == [first] + rest[1..];
      assert first <= s;
      assert !Contains(first, sep);
      forall k | 0 <= k < |pieces| ensures !Contains(pieces[k], sep) {
        if k > 0 { assert pieces[k] == rest[k]; }
      }
    }
  }

  /** The text is cut at all exactly when it contains the separator. */
  lemma SplitIsSingleIff(s: string, sep: string)
    requires |sep| > 0
    ensures |SplitOn(s, sep)| == 1 <==> !Contains(s, sep)
    ensures !Contains(s, sep) ==> SplitOn(s, sep) == [s]
  {
    var pieces := SplitOn(s, sep);
    SplitJoin(s, sep);
    SplitPiecesAvoidSep(s, sep);
    if |pieces| == 1 {
      assert JoinWith(pieces, sep) == pieces[0];
      assert !Contains(pieces[0], sep);
      assert pieces == [s];
    } else {
      assert s == pieces[0] + sep + JoinWith(pieces[1..], sep);
      assert Contains(sep, sep) by { assert sep <= sep; }
      ContainsInContext(pieces[0], sep, JoinWith(pieces[1..], sep), sep);
    }
  }

  /** With a one-character separator the number of pieces is one more than the
      number of separators. */
  lemma {:induction false} SplitCount(s: string, c: char)
    ensures |SplitOn(s, [c])| == CountChar(s, c) + 1
    decreases |s|
  {
    if s != [] {
      SplitCount(s[1..], c);
      if [c] <= s {
        assert s[|[c]|..] == s[1..];
      }
    }
  }

  /** Cutting `x + [c] + y` when `x` has no `c` gives `x` and then the pieces of `y`. */
  lemma {:induction false} SplitAfterPiece(x: string, c: char, y: string)
    requires !Contains(x, [c])
    ensures SplitOn(x + [c] + y, [c]) == [x] + SplitOn(y, [c])
    decreases |x|
  {
    var s := x + [c] + y;
    if x == [] {
      assert s == [c] + y;
      assert [c] <= s;
      assert s[1..] == y;
    } else {
      assert x[0] != c;
      assert !Contains(x[1..], [c]);
      SplitAfterPiece(x[1..], c, y);
      assert s[1..] == x[1..] + [c] + y;
      assert !([c] <= s);
      assert [x[0]] + x[1..] == x;
    }
  }

  /** Splitting undoes joining on a one-character separator that no piece contains:
      together with `SplitJoin` this makes the two inverse. */
  lemma {:induction false} JoinSplit(pieces: seq<string>, c: char)
    requires |pieces| >= 1
    requires forall k :: 0 <= k < |pieces| ==> !Contains(pieces[k], [c])
    ensures SplitOn(JoinWith(pieces, [c]), [c]) == pieces
    decreases |pieces|
  {
    if |pieces| == 1 {
      SplitIsSingleIff(pieces[0], [c]);
    } else {
      JoinSplit(pieces[1..], c);
      SplitAfterPiece(pieces[0], c, JoinWith(pieces[1..], [c]));
      assert [pieces[0]] + pieces[1..] == pieces;
    }
  }

  /** `replace` is `rep.join(s.split(pat))`. */
  lemma {:induction false} ReplaceIsJoinOfSplit(s: string, pat: string, rep: string)
    requires |pat| > 0
    ensures ReplaceAll(s, pat, rep) == JoinWith(SplitOn(s, pat), rep)
    decreases |s|
  {
    if s == [] {
    } else if pat <= s {
      var rest := SplitOn(s[|pat|..], pat);
      ReplaceIsJoinOfSplit(s[|pat|..], pat, rep);
      assert SplitOn(s, pat) == [[]] + rest;
      assert ([[]] + rest)[1..] == rest;
      assert JoinWith([[]] + rest, rep) == [] + rep + JoinWith(rest, rep);
      assert ReplaceAll(s, pat, rep) == rep + ReplaceAll(s[|pat|..], pat, rep);
    } else {
      var rest := SplitOn(s[1..], pat);
      ReplaceIsJoinOfSplit(s[1..], pat, rep);
      assert SplitOn(s, pat) == [[s[0]] + rest[0]] + rest[1..];
      JoinPrepend([s[0]], rest, rep);
      assert ReplaceAll(s, pat, rep) == [s[0]] + ReplaceAll(s[1..], pat, rep);
    }
  }

  /** A replacement at least as long as the pattern never shortens the text;
      a longer one lengthens it whenever the pattern occurs, and leaves it as
      it is when the pattern does not. */
  lemma {:induction false} ReplaceGrowth(s: string, pat: string, rep: string)
    requires 0 < |pat| <= |rep|
    ensures |ReplaceAll(s, pat, rep)| >= |s|
    ensures |rep| > |pat| && Contains(s, pat) ==> |ReplaceAll(s, pat, rep)| > |s|
    ensures !Contains(s, pat) ==> ReplaceAll(s, pat, rep) == s
    decreases |s|
  {
    if s == [] {
    } else if pat <= s {
      ReplaceGrowth(s[|pat|..], pat, rep);
      assert ReplaceAll(s, pat, rep) == rep + ReplaceAll(s[|pat|..], pat, rep);
    } else {
      ReplaceGrowth(s[1..], pat, rep);
      assert ReplaceAll(s, pat, rep) == [s[0]] + ReplaceAll(s[1..], pat, rep);
      assert Contains(s, pat) ==> Contains(s[1..], pat);
      assert [s[0]] + s[1..] == s;
    }
  }

  /** A longer replacement leaves the text unchanged exactly when `pat` does not occur. */
  lemma ReplaceUnchangedIff(s: string, pat: string, rep: string)
    requires |pat| > 0
    requires |rep| > |pat|
    ensures ReplaceAll(s, pat, rep) == s <==> !Contains(s, pat)
  {
    ReplaceGrowth(s, pat, rep);
  }
}
