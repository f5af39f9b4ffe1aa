/**
 * `buildHtml` of the content script: turns the model's raw answer into a
 * table of (term, gloss) rows followed by a block of translation lines.
 *
 * The answer is trimmed and split on runs of line feeds; each line is
 * trimmed and blank lines are dropped; a line that splits on a column gap
 * (tab, ideographic space, or two or more spaces) into two or more non-empty
 * fragments becomes a row, any other line a translation line. `Formatted` is
 * the specification, `BuildHtml` the loop that computes it.
 */
module Formatter {
  import opened Wrappers
  import opened Text
  import opened Splitting

  datatype Row = Row(term: string, gloss: string)

  /** What one non-blank line of the answer contributes. */
  datatype Entry = TableRow(row: Row) | TranslationLine(line: string)

  /** The parsed answer: the table rows and the translation lines, each in input order. */
  datatype Layout = Layout(rows: seq<Row>, translation: seq<string>)

  /** `.filter(Boolean)` on strings: keeps the non-empty ones, in order. */
  function NonEmpty(parts: seq<string>): (r: seq<string>)
    ensures forall p :: p in r <==> p in parts && p != []
    ensures |r| <= |parts|
  {
    if parts == [] then []
    else
      assert parts == [parts[0]] + parts[1..];
      (if parts[0] == [] then [] else [parts[0]]) + NonEmpty(parts[1..])
  }

  /** Filtering keeps the order: the survivors of `a + b` are those of `a` followed by those of `b`. */
  lemma {:induction false} NonEmptyAppend(a: seq<string>, b: seq<string>)
    ensures NonEmpty(a + b) == NonEmpty(a) + NonEmpty(b)
  {
    if a == [] {
      assert a + b == b;
    } else {
      assert (a + b)[1..] == a[1..] + b;
      NonEmptyAppend(a[1..], b);
    }
  }

  /** The fragments of an already trimmed line. */
  function Fragments(trimmed: string): seq<string> {
    NonEmpty(Split(trimmed, ColumnGap))
  }

  /** `text.trim().split(/\n+/)` */
  function Lines(text: string): seq<string> {
    Split(Trim(text), NewlineRun)
  }

  /**
   * The entry a line contributes, or None for a blank line (one whose trimmed
   * text is empty, that is, one made of white space only).
   */
  function Classify(line: string): Option<Entry> {
    if AllWhiteSpace(line) then None
    else
      var trimmed := Trim(line);
      var parts := Fragments(trimmed);
      if |parts| >= 2 then Some(TableRow(Row(parts[0], Join(parts[1..], " "))))
      else Some(TranslationLine(trimmed))
  }

  /** The entries of a sequence of lines, in order (the `forEach` over the lines). */
  function EntriesOf(lines: seq<string>): seq<Entry> {
    if lines == [] then []
    else
      EntriesOf(lines[..|lines| - 1]) +
      match Classify(lines[|lines| - 1]) case None => [] case Some(e) => [e]
  }

  /** The lines that are not blank once trimmed, in order. */
  function NonBlank(lines: seq<string>): seq<string> {
    if lines == [] then []
    else
      NonBlank(lines[..|lines| - 1]) +
      if AllWhiteSpace(lines[|lines| - 1]) then [] else [lines[|lines| - 1]]
  }

  function RowsOf(entries: seq<Entry>): seq<Row> {
    if entries == [] then []
    else
      var e := entries[|entries| - 1];
      RowsOf(entries[..|entries| - 1]) + if e.TableRow? then [e.row] else []
  }

  function TranslationOf(entries: seq<Entry>): seq<string> {
    if entries == [] then []
    else
      var e := entries[|entries| - 1];
      TranslationOf(entries[..|entries| - 1]) + if e.TranslationLine? then [e.line] else []
  }

  function Parse(text: string): Layout {
    var entries := EntriesOf(Lines(text));
    Layout(RowsOf(entries), TranslationOf(entries))
  }

  const TableOpen: string := "<table class='jpt-table'><tbody>"
  const TableClose: string := "</tbody></table>"
  const DivOpen: string := "<div class='jpt-translation'>"
  const DivClose: string := "</div>"
  const LineBreak: string := "<br>"

  function RowHtml(r: Row): string {
    "<tr><td>" + r.term + "</td><td>" + r.gloss + "</td></tr>"
  }

  function RowsHtml(rows: seq<Row>): string {
    if rows == [] then [] else RowsHtml(rows[..|rows| - 1]) + RowHtml(rows[|rows| - 1])
  }

  /** The markup: the table always, the translation block only when there is a translation line. */
  function Render(layout: Layout): string {
    TableOpen + RowsHtml(layout.rows) + TableClose +
    if |layout.translation| > 0 then DivOpen + Join(layout.translation, LineBreak) + DivClose else []
  }

  /** `buildHtml(text)`, as a specification. */
  function Formatted(text: string): string {
    if text == [] then [] else Render(Parse(text))
  }

  /** `buildHtml(text)`: the loops of the content script. */
  method BuildHtml(text: string) returns (html: string)
    ensures html == Formatted(text)
  {
    if text == [] {
      return [];
    }
    var rows, translationLines := CollectEntries(Lines(text));
    assert Parse(text) == Layout(rows, translationLines);
    html := TableHtml(rows);
    if |translationLines| > 0 {
      html := html + (DivOpen + Join(translationLines, LineBreak) + DivClose);
    } else {
      assert html == html + [];
    }
  }

  /** The `forEach` over the lines: each non-blank line goes to the rows or to the translation lines. */
  method CollectEntries(lines: seq<string>) returns (rows: seq<Row>, translationLines: seq<string>)
    ensures rows == RowsOf(EntriesOf(lines))
    ensures translationLines == TranslationOf(EntriesOf(lines))
  {
    rows, translationLines := [], [];
    for i := 0 to |lines|
      invariant rows == RowsOf(EntriesOf(lines[..i]))
      invariant translationLines == TranslationOf(EntriesOf(lines[..i]))
    {
      EntriesStep(lines, i);
      var trimmed := Trim(lines[i]);
      if trimmed == [] {
        continue;
      }
      var parts := Fragments(trimmed);
      if |parts| >= 2 {
        rows := rows + [Row(parts[0], Join(parts[1..], " "))];
      } else {
        translationLines := translationLines + [trimmed];
      }
    }
    assert lines[..|lines|] == lines;
  }

  /** The `forEach` over the rows: the table with one `<tr>` per row, in order. */
  method TableHtml(rows: seq<Row>) returns (html: string)
    ensures html == TableOpen + RowsHtml(rows) + TableClose
  {
    html := TableOpen;
    for j := 0 to |rows|
      invariant html == TableOpen + RowsHtml(rows[..j])
    {
      assert rows[..j + 1][..j] == rows[..j];
      html := html + RowHtml(rows[j]);
    }
    assert rows[..|rows|] == rows;
    html := html + TableClose;
  }

  /** One pass of the loop over the lines: the line's entry, if any, goes to its list. */
  lemma EntriesStep(lines: seq<string>, i: nat)
    requires i < |lines|
    ensures var before, after := EntriesOf(lines[..i]), EntriesOf(lines[..i + 1]);
      match Classify(lines[i])
      case None => RowsOf(after) == RowsOf(before) && TranslationOf(after) == TranslationOf(before)
      case Some(TableRow(r)) =>
        RowsOf(after) == RowsOf(before) + [r] && TranslationOf(after) == TranslationOf(before)
      case Some(TranslationLine(l)) =>
        RowsOf(after) == RowsOf(before) && TranslationOf(after) == TranslationOf(before) + [l]
  {
    assert lines[..i + 1][..i] == lines[..i];
    var before := EntriesOf(lines[..i]);
    match Classify(lines[i])
    case None =>
      assert EntriesOf(lines[..i + 1]) == before;
    case Some(e) =>
      var after := before + [e];
      assert EntriesOf(lines[..i + 1]) == after;
      assert after[..|after| - 1] == before;
  }

  // ---------------------------------------------------------------------
  // Fragments and classification of one line

  lemma {:induction false} NonEmptyKeepsAll(parts: seq<string>)
    requires forall p :: p in parts ==> p != []
    ensures NonEmpty(parts) == parts
  {
    if parts != [] {
      assert forall p :: p in parts[1..] ==> p in parts;
      assert parts[0] in parts;
      NonEmptyKeepsAll(parts[1..]);
    }
  }

  /** Keeping the non-empty parts keeps at least two when the first and the last are non-empty. */
  lemma {:induction false} NonEmptyKeepsEnds(parts: seq<string>)
    requires |parts| >= 2 && parts[0] != [] && parts[|parts| - 1] != []
    ensures |NonEmpty(parts)| >= 2 && NonEmpty(parts)[0] == parts[0]
  {
    NonEmptyKeepsLast(parts[1..]);
  }

  lemma {:induction false} NonEmptyKeepsLast(parts: seq<string>)
    requires parts != [] && parts[|parts| - 1] != []
    ensures NonEmpty(parts) != []
  {
    if parts[0] == [] {
      NonEmptyKeepsLast(parts[1..]);
    }
  }

  /** Every fragment is non-empty and holds no tab, no ideographic space and no two consecutive spaces. */
  lemma FragmentsAreGapFree(trimmed: string)
    ensures forall p :: p in Fragments(trimmed) ==> p != [] && NoGap(p)
  {
    PiecesHaveNoGap(trimmed, []);
  }

  /** A gap-free line is its own single fragment. */
  lemma GapFreeFragments(trimmed: string)
    requires trimmed != [] && NoGap(trimmed)
    ensures Fragments(trimmed) == [trimmed]
  {
    NoGapSinglePiece(trimmed, []);
    assert [] + trimmed == trimmed;
    NonEmptyKeepsAll([trimmed]);
  }

  /**
   * A trimmed line with a column gap in it has at least two fragments, the
   * first of which starts the line.
   */
  lemma GappedFragments(trimmed: string)
    requires trimmed != [] && Tidy(trimmed) && !NoGap(trimmed)
    ensures |Fragments(trimmed)| >= 2
    ensures Fragments(trimmed)[0] <= trimmed
  {
    var i :| 0 <= i < |trimmed| && GapAt(trimmed, i);
    GapSplits(trimmed, [], i);
    var pieces := Split(trimmed, ColumnGap);
    LastPieceNonEmpty(trimmed, ColumnGap, []);
    GapMatches(trimmed);
    assert !GapAt(trimmed, 0);
    assert [] + [trimmed[0]] == [trimmed[0]];
    assert pieces == SplitFrom(trimmed[1..], ColumnGap, [trimmed[0]]);
    FirstPiecePrefix(trimmed, ColumnGap, []);
    NonEmptyKeepsEnds(pieces);
  }

  lemma {:induction false} FirstPiecePrefix(s: string, sep: Separator, cur: string)
    ensures SplitFrom(s, sep, cur)[0] <= cur + s
    decreases |s|
  {
    if s != [] {
      var k := MatchLen(sep, s);
      if k == 0 {
        FirstPiecePrefix(s[1..], sep, cur + [s[0]]);
        assert cur + [s[0]] + s[1..] == cur + s;
      }
    }
  }

  /** A line is blank exactly when it is nothing but white space. */
  lemma ClassifyBlank(line: string)
    ensures Classify(line) == None <==> AllWhiteSpace(line)
  {
  }

  /**
   * A non-blank line becomes a table row exactly when, trimmed, it contains
   * a tab, an ideographic space or two consecutive spaces.
   */
  lemma ClassifyRowIffGap(line: string)
    requires !AllWhiteSpace(line)
    ensures Classify(line).Some?
    ensures Classify(line).value.TableRow? <==> !NoGap(Trim(line))
  {
    var t := Trim(line);
    if NoGap(t) {
      GapFreeFragments(t);
    } else {
      GappedFragments(t);
    }
  }

  /**
   * A row's term is a non-empty, gap-free prefix of the trimmed line and its
   * gloss is non-empty and holds no tab and no ideographic space.
   */
  lemma ClassifyRowShape(line: string)
    requires Classify(line).Some? && Classify(line).value.TableRow?
    ensures var r := Classify(line).value.row;
      && r.term != [] && NoGap(r.term) && r.term <= Trim(line)
      && r.gloss != [] && '\t' !in r.gloss && '\U{3000}' !in r.gloss
  {
    var t := Trim(line);
    var parts := Fragments(t);
    FragmentsAreGapFree(t);
    assert parts[0] in parts && parts[1] in parts;
    ClassifyRowIffGap(line);
    GappedFragments(t);
    var rest := parts[1..];
    forall i | 0 <= i < |rest| ensures '\t' !in rest[i] && '\U{3000}' !in rest[i] {
      assert rest[i] in parts;
      var p := rest[i];
      forall j | 0 <= j < |p| ensures p[j] != '\t' && p[j] != '\U{3000}' {
        assert !GapAt(p, j);
      }
    }
    JoinAvoids(rest, " ", '\t');
    JoinAvoids(rest, " ", '\U{3000}');
    assert rest[0] != [];
  }

  /** A translation line is the whole trimmed line, gap-free, and is its own single fragment. */
  lemma ClassifyTranslationShape(line: string)
    requires Classify(line).Some? && Classify(line).value.TranslationLine?
    ensures var t := Classify(line).value.line;
      t == Trim(line) && t != [] && NoGap(t) && Fragments(t) == [t]
  {
    ClassifyRowIffGap(line);
    GapFreeFragments(Trim(line));
  }

  // ---------------------------------------------------------------------
  // Entries of a whole answer: one per non-blank line, in order

  lemma {:induction false} EntriesOfAppend(a: seq<string>, b: seq<string>)
    ensures EntriesOf(a + b) == EntriesOf(a) + EntriesOf(b)
    decreases |b|
  {
    if b == [] {
      assert a + b == a;
    } else {
      var b' := b[..|b| - 1];
      assert (a + b)[..|a + b| - 1] == a + b';
      EntriesOfAppend(a, b');
    }
  }

  /** `entries` are the classifications of `lines`, one for one and in order. */
  ghost predicate Follows(lines: seq<string>, entries: seq<Entry>) {
    |lines| == |entries| && forall i :: 0 <= i < |lines| ==> Classify(lines[i]) == Some(entries[i])
  }

  /**
   * Every non-blank line yields exactly one entry, the entries follow the
   * lines' order, and blank lines yield nothing.
   */
  lemma {:induction false} EntriesFollowLines(lines: seq<string>)
    ensures |EntriesOf(lines)| == |NonBlank(lines)|
    ensures forall i :: 0 <= i < |NonBlank(lines)| ==>
              Classify(NonBlank(lines)[i]) == Some(EntriesOf(lines)[i])
  {
    EntriesFollow(lines);
  }

  lemma {:induction false} EntriesFollow(lines: seq<string>)
    ensures Follows(NonBlank(lines), EntriesOf(lines))
  {
    if lines != [] {
      var init, last := lines[..|lines| - 1], lines[|lines| - 1];
      EntriesFollow(init);
      LastLineStep(lines);
      if !AllWhiteSpace(last) {
        FollowsExtend(NonBlank(init), EntriesOf(init), last, Classify(last).value);
      }
    }
  }

  /** What the last line adds: nothing when blank, else itself and its entry. */
  lemma LastLineStep(lines: seq<string>)
    requires lines != []
    ensures var init, last := lines[..|lines| - 1], lines[|lines| - 1];
      if AllWhiteSpace(last) then
        NonBlank(lines) == NonBlank(init) && EntriesOf(lines) == EntriesOf(init)
      else
        && Classify(last).Some?
        && NonBlank(lines) == NonBlank(init) + [last]
        && EntriesOf(lines) == EntriesOf(init) + [Classify(last).value]
  {
  }

  lemma FollowsExtend(lines: seq<string>, entries: seq<Entry>, line: string, e: Entry)
    requires Follows(lines, entries) && Classify(line) == Some(e)
    ensures Follows(lines + [line], entries + [e])
  {
    forall i | 0 <= i < |lines| + 1 ensures Classify((lines + [line])[i]) == Some((entries + [e])[i]) {
      if i < |lines| {
        assert (lines + [line])[i] == lines[i] && (entries + [e])[i] == entries[i];
      }
    }
  }

  lemma {:induction false} PartitionCounts(entries: seq<Entry>)
    ensures |RowsOf(entries)| + |TranslationOf(entries)| == |entries|
  {
    if entries != [] {
      PartitionCounts(entries[..|entries| - 1]);
    }
  }

  /** The rows and the translation lines together number the non-blank lines. */
  lemma LayoutCounts(text: string)
    ensures |Parse(text).rows| + |Parse(text).translation| == |NonBlank(Lines(text))|
  {
    EntriesFollowLines(Lines(text));
    PartitionCounts(EntriesOf(Lines(text)));
  }

  predicate EndsWith(s: string, suffix: string) {
    |suffix| <= |s| && s[|s| - |suffix|..] == suffix
  }

  /** The markup opens with the table and is closed by the translation block exactly when there is one. */
  lemma RenderShape(layout: Layout)
    ensures TableOpen <= Render(layout)
    ensures EndsWith(Render(layout), DivClose) <==> layout.translation != []
    ensures layout.translation != [] ==>
      EndsWith(Render(layout), DivOpen + Join(layout.translation, LineBreak) + DivClose)
  {
    var table := TableOpen + RowsHtml(layout.rows) + TableClose;
    if layout.translation == [] {
      AppendNothing(table);
      StartsWith(TableOpen, RowsHtml(layout.rows), TableClose, []);
      ClosedTable(TableOpen + RowsHtml(layout.rows));
    } else {
      var inner := DivOpen + Join(layout.translation, LineBreak);
      StartsWith(TableOpen, RowsHtml(layout.rows), TableClose, inner + DivClose);
      EndsWithConcat(table, inner + DivClose);
      EndsWithConcat(inner, DivClose);
      EndsWithTail(table, inner + DivClose, DivClose);
    }
  }

  lemma AppendNothing(a: string)
    ensures a + [] == a
  {
  }

  lemma StartsWith(a: string, b: string, c: string, d: string)
    ensures a <= a + b + c + d
  {
    assert (a + b + c + d)[..|a|] == a;
  }

  lemma EndsWithConcat(a: string, b: string)
    ensures EndsWith(a + b, b)
  {
    assert (a + b)[|a + b| - |b|..] == b;
  }

  lemma EndsWithTail(a: string, b: string, c: string)
    requires EndsWith(b, c)
    ensures EndsWith(a + b, c)
  {
    assert (a + b)[|a + b| - |c|..] == b[|b| - |c|..];
  }

  /** The table's closing tag is not the div's. */
  lemma ClosedTable(s: string)
    ensures !EndsWith(s + TableClose, DivClose)
  {
    var t := s + TableClose;
    assert t[|t| - 2] == 'e';
    assert DivClose[|DivClose| - 2] == 'v';
  }

  /**
   * Only the empty answer gives empty markup; any other answer, white space
   * included, gives the table, and the translation block closes the markup
   * exactly when there is a translation line.
   */
  lemma FormattedShape(text: string)
    ensures Formatted(text) == [] <==> text == []
    ensures text != [] ==> TableOpen <= Formatted(text)
    ensures text != [] ==>
      (EndsWith(Formatted(text), DivClose) <==> Parse(text).translation != [])
    ensures text != [] && Parse(text).translation != [] ==>
      EndsWith(Formatted(text), DivOpen + Join(Parse(text).translation, LineBreak) + DivClose)
  {
    if text != [] {
      RenderShape(Parse(text));
    }
  }

  // ---------------------------------------------------------------------
  // Round trip: an answer in the format the prompt asks for

  /** A table cell or translation line as the prompt asks for them: one line, tidy, gap-free. */
  predicate Cell(s: string) {
    s != [] && Tidy(s) && NoGap(s) && '\n' !in s
  }

  /** `TERM<TAB>GLOSS` */
  function RowLine(r: Row): string {
    r.term + "\t" + r.gloss
  }

  function RowLines(rows: seq<Row>): seq<string> {
    if rows == [] then [] else RowLines(rows[..|rows| - 1]) + [RowLine(rows[|rows| - 1])]
  }

  /** Rows, then a blank line, then the translation lines (the blank line only when both parts are there). */
  function Answer(rows: seq<Row>, translation: seq<string>): string {
    Join(AnswerLines(rows, translation), "\n")
  }

  lemma RowLineClassified(r: Row)
    requires Cell(r.term) && Cell(r.gloss)
    ensures Classify(RowLine(r)) == Some(TableRow(r))
  {
    var line := RowLine(r);
    RowLineTidy(r);
    TrimTidy(line);
    RowLineFragments(r);
    assert [r.term, r.gloss][1..] == [r.gloss];
    JoinSingle(r.gloss, " ");
  }

  lemma RowLineTidy(r: Row)
    requires Cell(r.term) && Cell(r.gloss)
    ensures Tidy(RowLine(r)) && !AllWhiteSpace(RowLine(r))
  {
    var line := RowLine(r);
    assert line[0] == r.term[0] && line[|line| - 1] == r.gloss[|r.gloss| - 1];
  }

  /** A row line's fragments are its two cells. */
  lemma RowLineFragments(r: Row)
    requires Cell(r.term) && Cell(r.gloss)
    ensures Fragments(RowLine(r)) == [r.term, r.gloss]
  {
    var rest := "\t" + r.gloss;
    assert RowLine(r) == r.term + rest;
    SkipTerm(r.term, rest);
    TabThenGloss(r.term, r.gloss);
    NonEmptyKeepsAll([r.term, r.gloss]);
  }

  /** The scan passes over a gap-free term followed by a tab without closing a piece. */
  lemma SkipTerm(term: string, rest: string)
    requires NoGap(term) && rest != [] && rest[0] == '\t'
    ensures Split(term + rest, ColumnGap) == SplitFrom(rest, ColumnGap, term)
  {
    NoGapNoMatch(term, rest);
    SplitFromSkips(term, rest, ColumnGap, []);
    assert [] + term == term;
  }

  /** The tab closes the term, and the gap-free gloss is the last piece. */
  lemma TabThenGloss(term: string, gloss: string)
    requires NoGap(gloss)
    ensures SplitFrom("\t" + gloss, ColumnGap, term) == [term, gloss]
  {
    assert ("\t" + gloss)[1..] == gloss;
    NoGapSinglePiece(gloss, []);
    assert [] + gloss == gloss;
  }

  lemma CellClassified(p: string)
    requires Cell(p)
    ensures Classify(p) == Some(TranslationLine(p))
  {
    TrimTidy(p);
    GapFreeFragments(p);
  }

  function TableRows(rows: seq<Row>): seq<Entry> {
    if rows == [] then [] else TableRows(rows[..|rows| - 1]) + [TableRow(rows[|rows| - 1])]
  }

  function TranslationLines(lines: seq<string>): seq<Entry> {
    if lines == [] then [] else TranslationLines(lines[..|lines| - 1]) + [TranslationLine(lines[|lines| - 1])]
  }

  lemma {:induction false} RowLinesEntries(rows: seq<Row>)
    requires forall r :: r in rows ==> Cell(r.term) && Cell(r.gloss)
    ensures EntriesOf(RowLines(rows)) == TableRows(rows)
  {
    if rows != [] {
      var last := rows[|rows| - 1];
      RowLinesEntries(rows[..|rows| - 1]);
      EntriesOfAppend(RowLines(rows[..|rows| - 1]), [RowLine(last)]);
      RowLineClassified(last);
      assert [RowLine(last)][..0] == [];
    }
  }

  lemma {:induction false} RowLinesSingleLine(rows: seq<Row>)
    requires forall r :: r in rows ==> Cell(r.term) && Cell(r.gloss)
    ensures forall l :: l in RowLines(rows) ==> '\n' !in l
  {
    if rows != [] {
      var last := rows[|rows| - 1];
      RowLinesSingleLine(rows[..|rows| - 1]);
      assert last in rows;
      assert '\n' !in RowLine(last);
    }
  }

  lemma {:induction false} CellLinesEntries(lines: seq<string>)
    requires forall p :: p in lines ==> Cell(p)
    ensures EntriesOf(lines) == TranslationLines(lines)
  {
    if lines != [] {
      CellLinesEntries(lines[..|lines| - 1]);
      CellClassified(lines[|lines| - 1]);
    }
  }

  lemma {:induction false} RowsOfAppend(a: seq<Entry>, b: seq<Entry>)
    ensures RowsOf(a + b) == RowsOf(a) + RowsOf(b)
    ensures TranslationOf(a + b) == TranslationOf(a) + TranslationOf(b)
    decreases |b|
  {
    if b == [] {
      assert a + b == a;
    } else {
      assert (a + b)[..|a + b| - 1] == a + b[..|b| - 1];
      RowsOfAppend(a, b[..|b| - 1]);
    }
  }

  lemma {:induction false} TableRowsPartition(rows: seq<Row>)
    ensures RowsOf(TableRows(rows)) == rows && TranslationOf(TableRows(rows)) == []
  {
    if rows != [] {
      var init, last := rows[..|rows| - 1], rows[|rows| - 1];
      TableRowsPartition(init);
      assert TableRows(rows) == TableRows(init) + [TableRow(last)];
      EntriesSnoc(TableRows(init), TableRow(last));
      assert init + [last] == rows;
    }
  }

  /** One more entry at the end goes to the end of its own list. */
  lemma EntriesSnoc(entries: seq<Entry>, e: Entry)
    ensures RowsOf(entries + [e]) == RowsOf(entries) + (if e.TableRow? then [e.row] else [])
    ensures TranslationOf(entries + [e]) == TranslationOf(entries) + (if e.TranslationLine? then [e.line] else [])
  {
    assert (entries + [e])[..|entries|] == entries;
  }

  lemma {:induction false} TranslationLinesPartition(lines: seq<string>)
    ensures RowsOf(TranslationLines(lines)) == [] && TranslationOf(TranslationLines(lines)) == lines
  {
    if lines != [] {
      var init, last := lines[..|lines| - 1], lines[|lines| - 1];
      TranslationLinesPartition(init);
      assert TranslationLines(lines) == TranslationLines(init) + [TranslationLine(last)];
      EntriesSnoc(TranslationLines(init), TranslationLine(last));
      assert init + [last] == lines;
    }
  }

  /** Splitting a join on single line feeds gives the parts back. */
  lemma {:induction false} SplitJoinedLines(parts: seq<string>, cur: string)
    requires parts != []
    requires forall p :: p in parts ==> '\n' !in p
    ensures SplitFrom(Join(parts, "\n"), LineFeed, cur) == [cur + parts[0]] + parts[1..]
    decreases |parts|
  {
    var first := parts[0];
    if |parts| == 1 {
      assert first + [] == first;
      assert first in parts;
      forall i | 0 <= i < |first| ensures MatchLen(LineFeed, (first + [])[i..]) == 0 {
        assert (first + [])[i..][0] == first[i];
      }
      SplitFromSkips(first, [], LineFeed, cur);
    } else {
      var rest := "\n" + Join(parts[1..], "\n");
      assert Join(parts, "\n") == first + rest;
      assert first in parts;
      forall i | 0 <= i < |first| ensures MatchLen(LineFeed, (first + rest)[i..]) == 0 {
        assert (first + rest)[i..][0] == first[i];
      }
      SplitFromSkips(first, rest, LineFeed, cur);
      assert forall p :: p in parts[1..] ==> p in parts;
      assert rest[1..] == Join(parts[1..], "\n");
      SplitJoinedLines(parts[1..], []);
      assert [] + parts[1] == parts[1];
    }
  }

  lemma SplitJoined(parts: seq<string>)
    requires parts != []
    requires forall p :: p in parts ==> '\n' !in p
    ensures Split(Join(parts, "\n"), LineFeed) == parts
  {
    SplitJoinedLines(parts, []);
    assert [] + parts[0] == parts[0];
    assert [parts[0]] + parts[1..] == parts;
  }

  /** An empty line in front contributes no entry. */
  lemma BlankLineEntries(tail: seq<string>)
    ensures EntriesOf([[]] + tail) == EntriesOf(tail)
  {
    EntriesOfAppend([[]], tail);
    var blank: seq<string> := [[]];
    assert EntriesOf(blank) == [] by { assert blank[..0] == []; }
  }

  /** Skipping leading line feeds only skips empty lines. */
  lemma {:induction false} SkipLineFeeds(t: string, m: nat)
    requires m <= |t| && forall j :: 0 <= j < m ==> t[j] == '\n'
    ensures EntriesOf(SplitFrom(t, LineFeed, [])) == EntriesOf(SplitFrom(t[m..], LineFeed, []))
  {
    if m > 0 {
      var tail := SplitFrom(t[1..], LineFeed, []);
      FeedStep(t, []);
      BlankLineEntries(tail);
      SkipLineFeeds(t[1..], m - 1);
      assert t[1..][m - 1..] == t[m..];
    }
  }

  /** Splitting on runs of line feeds and on single line feeds differ only by empty lines. */
  lemma {:induction false} RunsAsLineFeeds(s: string, cur: string)
    ensures EntriesOf(SplitFrom(s, NewlineRun, cur)) == EntriesOf(SplitFrom(s, LineFeed, cur))
    decreases |s|
  {
    if s != [] {
      if s[0] != '\n' {
        LineCharStep(s, NewlineRun, cur);
        LineCharStep(s, LineFeed, cur);
        RunsAsLineFeeds(s[1..], cur + [s[0]]);
      } else {
        var k := RunOf(s, '\n');
        var runs := SplitFrom(s[k..], NewlineRun, []);
        var feeds := SplitFrom(s[1..], LineFeed, []);
        RunStep(s, cur);
        FeedStep(s, cur);
        EntriesOfAppend([cur], runs);
        EntriesOfAppend([cur], feeds);
        RunsAsLineFeeds(s[k..], []);
        SkipLineFeeds(s[1..], k - 1);
        assert s[1..][k - 1..] == s[k..];
      }
    }
  }

  /** The lines of an answer: rows, the separating blank line when both parts are there, translation lines. */
  function AnswerLines(rows: seq<Row>, translation: seq<string>): seq<string> {
    RowLines(rows) + (if rows != [] && translation != [] then [""] else []) + translation
  }

  lemma BlankSeparator(gap: seq<string>)
    requires gap == [] || gap == [""]
    ensures EntriesOf(gap) == []
  {
    if gap != [] {
      assert gap[..0] == [];
    }
  }

  lemma AnswerEntries(rows: seq<Row>, translation: seq<string>)
    requires forall r :: r in rows ==> Cell(r.term) && Cell(r.gloss)
    requires forall p :: p in translation ==> Cell(p)
    ensures var entries := EntriesOf(AnswerLines(rows, translation));
      RowsOf(entries) == rows && TranslationOf(entries) == translation
  {
    var gap: seq<string> := if rows != [] && translation != [] then [""] else [];
    var head := RowLines(rows);
    var lines := head + gap + translation;
    assert AnswerLines(rows, translation) == lines;
    RowLinesEntries(rows);
    CellLinesEntries(translation);
    var eHead, eGap, eTail := EntriesOf(head), EntriesOf(gap), EntriesOf(translation);
    BlankSeparator(gap);
    EntriesOfAppend(head, gap);
    assert EntriesOf(head + gap) == eHead;
    EntriesOfAppend(head + gap, translation);
    assert EntriesOf(lines) == eHead + eTail;
    RowsOfAppend(TableRows(rows), TranslationLines(translation));
    TableRowsPartition(rows);
    TranslationLinesPartition(translation);
  }

  lemma AnswerLinesShape(rows: seq<Row>, translation: seq<string>)
    requires forall r :: r in rows ==> Cell(r.term) && Cell(r.gloss)
    requires forall p :: p in translation ==> Cell(p)
    requires rows != [] || translation != []
    ensures var lines := AnswerLines(rows, translation);
      && lines != []
      && (forall p :: p in lines ==> '\n' !in p)
      && lines[0] != [] && !IsWhiteSpace(lines[0][0])
      && lines[|lines| - 1] != [] && !IsWhiteSpace(lines[|lines| - 1][|lines[|lines| - 1]| - 1])
  {
    var gap: seq<string> := if rows != [] && translation != [] then [""] else [];
    var lines := AnswerLines(rows, translation);
    RowLinesSingleLine(rows);
    forall p | p in lines ensures '\n' !in p {
      if p in RowLines(rows) {
      } else if p in gap {
      } else {
        assert p in translation;
      }
    }
    RowLinesLength(rows);
    var first := lines[0];
    var last := lines[|lines| - 1];
    if rows != [] {
      RowLineAt(rows, 0);
      assert first == RowLine(rows[0]);
      assert rows[0] in rows;
    } else {
      assert first == translation[0];
      assert translation[0] in translation;
    }
    if translation != [] {
      assert last == translation[|translation| - 1];
      assert last in translation;
    } else {
      RowLineAt(rows, |rows| - 1);
      assert last == RowLine(rows[|rows| - 1]);
      assert rows[|rows| - 1] in rows;
    }
  }

  /**
   * An answer written as the prompt asks (TERM<TAB>GLOSS rows, a blank line,
   * translation lines) is parsed back into exactly those rows and lines, in
   * order, and is rendered as their table and translation block.
   */
  lemma AnswerRoundTrip(rows: seq<Row>, translation: seq<string>)
    requires forall r :: r in rows ==> Cell(r.term) && Cell(r.gloss)
    requires forall p :: p in translation ==> Cell(p)
    ensures Parse(Answer(rows, translation)) == Layout(rows, translation)
    ensures Formatted(Answer(rows, translation)) ==
      if rows == [] && translation == [] then [] else Render(Layout(rows, translation))
  {
    AnswerEntries(rows, translation);
    if rows == [] && translation == [] {
      EmptyAnswer();
    } else {
      AnswerReadBack(rows, translation);
    }
  }

  lemma EmptyAnswer()
    ensures Answer([], []) == [] && EntriesOf(Lines([])) == [] && EntriesOf(AnswerLines([], [])) == []
  {
    assert AnswerLines([], []) == [];
    assert Lines([]) == [[]];
    assert EntriesOf(Lines([])) == [] by { assert Lines([])[..0] == []; }
  }

  /** The formatter reads back from a non-empty answer the entries of the lines it was written from. */
  lemma AnswerReadBack(rows: seq<Row>, translation: seq<string>)
    requires forall r :: r in rows ==> Cell(r.term) && Cell(r.gloss)
    requires forall p :: p in translation ==> Cell(p)
    requires rows != [] || translation != []
    ensures Answer(rows, translation) != []
    ensures EntriesOf(Lines(Answer(rows, translation))) == EntriesOf(AnswerLines(rows, translation))
  {
    var lines := AnswerLines(rows, translation);
    var text := Answer(rows, translation);
    AnswerLinesShape(rows, translation);
    TrimTidy(text);
    RunsAsLineFeeds(text, []);
    SplitJoined(lines);
  }

  lemma {:induction false} RowLinesLength(rows: seq<Row>)
    ensures |RowLines(rows)| == |rows|
  {
    if rows != [] {
      RowLinesLength(rows[..|rows| - 1]);
    }
  }

  lemma {:induction false} RowLineAt(rows: seq<Row>, i: nat)
    requires i < |rows|
    ensures |RowLines(rows)| == |rows| && RowLines(rows)[i] == RowLine(rows[i])
  {
    RowLinesLength(rows);
    if i < |rows| - 1 {
      RowLineAt(rows[..|rows| - 1], i);
    }
  }

  /** The worked example: one row and one translation line. */
  lemma WorkedExample()
    ensures Parse("忘れる(わすれる)\tto forget\n\nI forgot.") ==
      Layout([Row("忘れる(わすれる)", "to forget")], ["I forgot."])
  {
    var r := Row("忘れる(わすれる)", "to forget");
    WorkedExampleAnswer(r);
    WorkedExampleCells(r);
    AnswerRoundTrip([r], ["I forgot."]);
  }

  lemma WorkedExampleAnswer(r: Row)
    requires r == Row("忘れる(わすれる)", "to forget")
    ensures Answer([r], ["I forgot."]) == "忘れる(わすれる)\tto forget\n\nI forgot."
  {
    var rows := [r];
    assert RowLines(rows) == [RowLine(r)] by { assert rows[..0] == []; }
    assert AnswerLines(rows, ["I forgot."]) == [RowLine(r), "", "I forgot."];
    ThreeLines(RowLine(r), "I forgot.");
    WorkedExampleText(r);
  }

  /** A line, a blank line and another line, joined by line feeds. */
  lemma ThreeLines(a: string, c: string)
    ensures Join([a, "", c], "\n") == a + "\n\n" + c
  {
    JoinCons(a, ["", c], "\n");
    assert [a] + ["", c] == [a, "", c];
    JoinCons("", [c], "\n");
    assert [[]] + [c] == ["", c];
    JoinSingle(c, "\n");
  }

  lemma WorkedExampleText(r: Row)
    requires r == Row("忘れる(わすれる)", "to forget")
    ensures RowLine(r) + "\n\n" + "I forgot." == "忘れる(わすれる)\tto forget\n\nI forgot."
  {
  }

  lemma WorkedExampleCells(r: Row)
    requires r == Row("忘れる(わすれる)", "to forget")
    ensures Cell(r.term) && Cell(r.gloss) && Cell("I forgot.")
  {
  }
}
