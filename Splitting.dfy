/**
 * `String.prototype.split` with a regular expression, for the two patterns
 * the formatter uses and for a single line feed, which the proofs compare
 * with runs of line feeds. The scan is JavaScript's: at each position the pattern
 * is tried; a match closes the current piece and resumes after the match,
 * otherwise the character joins the current piece. None of the patterns
 * matches the empty string.
 */
module Splitting {

  /** `/\n+/`, `/\n/`, and `/\t|　| {2,}/` (a tab, an ideographic space, or two or more spaces). */
  datatype Separator = NewlineRun | LineFeed | ColumnGap

  /** The characters a match of `sep` can consist of. */
  predicate IsSeparatorChar(sep: Separator, c: char) {
    match sep
    case NewlineRun => c == '\n'
    case LineFeed => c == '\n'
    case ColumnGap => c == '\t' || c == '\U{3000}' || c == ' '
  }

  /** The length of the longest prefix of `s` made of `c` only. */
  function RunOf(s: string, c: char): (k: nat)
    ensures k <= |s|
    ensures forall j :: 0 <= j < k ==> s[j] == c
    ensures k < |s| ==> s[k] != c
  {
    if s != [] && s[0] == c then 1 + RunOf(s[1..], c) else 0
  }

  /** The length of the match of `sep` at the start of `s`, or 0 when it does not match there. */
  function MatchLen(sep: Separator, s: string): (k: nat)
    ensures k <= |s|
    ensures forall j :: 0 <= j < k ==> IsSeparatorChar(sep, s[j])
  {
    if s == [] then 0
    else match sep
      case NewlineRun => RunOf(s, '\n')
      case LineFeed => if s[0] == '\n' then 1 else 0
      case ColumnGap =>
        if s[0] == '\t' || s[0] == '\U{3000}' then 1
        else if RunOf(s, ' ') >= 2 then RunOf(s, ' ')
        else 0
  }

  /** The scan, with `cur` the piece gathered so far. */
  function SplitFrom(s: string, sep: Separator, cur: string): (r: seq<string>)
    ensures |r| >= 1 && cur <= r[0]
    decreases |s|
  {
    if s == [] then [cur]
    else
      var k := MatchLen(sep, s);
      if k > 0 then [cur] + SplitFrom(s[k..], sep, [])
      else SplitFrom(s[1..], sep, cur + [s[0]])
  }

  /** `s.split(pattern)` */
  function Split(s: string, sep: Separator): seq<string> {
    SplitFrom(s, sep, [])
  }

  /** A line feed closes the current piece; the scan resumes after it. */
  lemma FeedStep(s: string, cur: string)
    requires s != [] && s[0] == '\n'
    ensures SplitFrom(s, LineFeed, cur) == [cur] + SplitFrom(s[1..], LineFeed, [])
  {
  }

  /** A run of line feeds closes the current piece; the scan resumes after the whole run. */
  lemma RunStep(s: string, cur: string)
    requires s != [] && s[0] == '\n'
    ensures 1 <= RunOf(s, '\n')
    ensures SplitFrom(s, NewlineRun, cur) == [cur] + SplitFrom(s[RunOf(s, '\n')..], NewlineRun, [])
  {
  }

  /** A character that is no line feed joins the current piece, for both line patterns. */
  lemma LineCharStep(s: string, sep: Separator, cur: string)
    requires sep == NewlineRun || sep == LineFeed
    requires s != [] && s[0] != '\n'
    ensures SplitFrom(s, sep, cur) == SplitFrom(s[1..], sep, cur + [s[0]])
  {
  }

  /** A column gap starts at index `i` of `s`. */
  predicate GapAt(s: string, i: nat)
    requires i < |s|
  {
    s[i] == '\t' || s[i] == '\U{3000}' || (s[i] == ' ' && i + 1 < |s| && s[i + 1] == ' ')
  }

  /** No tab, no ideographic space and no two consecutive spaces. */
  predicate NoGap(s: string) {
    forall i :: 0 <= i < |s| ==> !GapAt(s, i)
  }

  lemma GapMatches(s: string)
    requires s != []
    ensures MatchLen(ColumnGap, s) > 0 <==> GapAt(s, 0)
  {
    if s[0] == ' ' && |s| > 1 && s[1] == ' ' {
      assert RunOf(s, ' ') == 1 + RunOf(s[1..], ' ');
      assert s[1..][0] == ' ';
    }
  }

  /** Characters that no match can start at pass straight into the current piece. */
  lemma {:induction false} SplitFromSkips(a: string, rest: string, sep: Separator, cur: string)
    requires forall i :: 0 <= i < |a| ==> MatchLen(sep, (a + rest)[i..]) == 0
    ensures SplitFrom(a + rest, sep, cur) == SplitFrom(rest, sep, cur + a)
    decreases |a|
  {
    if a == [] {
      assert a + rest == rest;
      assert cur + a == cur;
    } else {
      var s := a + rest;
      assert MatchLen(sep, s[0..]) == 0;
      assert s[0..] == s;
      assert s[1..] == a[1..] + rest;
      forall i | 0 <= i < |a[1..]|
        ensures MatchLen(sep, (a[1..] + rest)[i..]) == 0
      {
        assert (a[1..] + rest)[i..] == s[i + 1..];
      }
      SplitFromSkips(a[1..], rest, sep, cur + [a[0]]);
      assert cur + [a[0]] + a[1..] == cur + a;
    }
  }

  /** A gap-free text has no column-gap match anywhere, even when followed by a non-space. */
  lemma NoGapNoMatch(a: string, rest: string)
    requires NoGap(a)
    requires a != [] && a[|a| - 1] == ' ' ==> rest == [] || rest[0] != ' '
    ensures forall i :: 0 <= i < |a| ==> MatchLen(ColumnGap, (a + rest)[i..]) == 0
  {
    forall i | 0 <= i < |a|
      ensures MatchLen(ColumnGap, (a + rest)[i..]) == 0
    {
      var t := (a + rest)[i..];
      assert !GapAt(a, i);
      GapMatches(t);
      if i + 1 < |a| {
        assert t[1] == a[i + 1];
      }
    }
  }

  /** A gap-free line is a single piece. */
  lemma NoGapSinglePiece(s: string, cur: string)
    requires NoGap(s)
    ensures SplitFrom(s, ColumnGap, cur) == [cur + s]
  {
    NoGapNoMatch(s, []);
    assert s + [] == s;
    SplitFromSkips(s, [], ColumnGap, cur);
  }

  /** A line with a column gap splits into at least two pieces. */
  lemma {:induction false} GapSplits(s: string, cur: string, i: nat)
    requires i < |s| && GapAt(s, i)
    ensures |SplitFrom(s, ColumnGap, cur)| >= 2
    decreases |s|
  {
    GapMatches(s);
    if MatchLen(ColumnGap, s) == 0 {
      assert i > 0 && GapAt(s[1..], i - 1);
      GapSplits(s[1..], cur + [s[0]], i - 1);
    }
  }

  /** When the text does not end in a separator character, neither does the last piece come out empty. */
  lemma {:induction false} LastPieceNonEmpty(s: string, sep: Separator, cur: string)
    requires s != [] && !IsSeparatorChar(sep, s[|s| - 1])
    ensures var r := SplitFrom(s, sep, cur); r[|r| - 1] != []
    decreases |s|
  {
    var k := MatchLen(sep, s);
    if k > 0 {
      assert k < |s|;
      LastPieceNonEmpty(s[k..], sep, []);
    } else if |s| > 1 {
      LastPieceNonEmpty(s[1..], sep, cur + [s[0]]);
    }
  }

  /**
   * Every piece a column-gap split produces is itself gap-free: no tab, no
   * ideographic space, no two consecutive spaces.
   */
  lemma {:induction false} PiecesHaveNoGap(s: string, cur: string)
    requires NoGap(cur)
    requires cur != [] && cur[|cur| - 1] == ' ' ==> s == [] || s[0] != ' '
    ensures forall p :: p in SplitFrom(s, ColumnGap, cur) ==> NoGap(p)
    decreases |s|
  {
    if s != [] {
      var k := MatchLen(ColumnGap, s);
      if k > 0 {
        PiecesHaveNoGap(s[k..], []);
        assert SplitFrom(s, ColumnGap, cur) == [cur] + SplitFrom(s[k..], ColumnGap, []);
      } else {
        GapMatches(s);
        var next := cur + [s[0]];
        assert NoGap(next) by {
          forall i | 0 <= i < |next| ensures !GapAt(next, i) {
            if i < |cur| {
              assert !GapAt(cur, i);
            }
          }
        }
        if |s| > 1 {
          assert s[0] == ' ' ==> s[1] != ' ';
        }
        PiecesHaveNoGap(s[1..], next);
      }
    }
  }

  /** Every piece of a newline split is free of line feeds. */
  lemma {:induction false} PiecesHaveNoNewline(s: string, sep: Separator, cur: string)
    requires sep == NewlineRun || sep == LineFeed
    requires '\n' !in cur
    ensures forall p :: p in SplitFrom(s, sep, cur) ==> '\n' !in p
    decreases |s|
  {
    if s != [] {
      var k := MatchLen(sep, s);
      if k > 0 {
        PiecesHaveNoNewline(s[k..], sep, []);
        assert SplitFrom(s, sep, cur) == [cur] + SplitFrom(s[k..], sep, []);
      } else {
        assert s[0] != '\n';
        PiecesHaveNoNewline(s[1..], sep, cur + [s[0]]);
      }
    }
  }
}
