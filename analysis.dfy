/**
 * The end-of-round screen (components/Analysis.tsx): the totals over the holes
 * played, the score-to-par label, the CSV export, archiving and resuming.
 */
module Analysis {
  import opened Wrappers
  import opened Types
  import Seqs
  import Text
  import Scoring
  import GameReducer

  // ----- Totals -----

  predicate Hit(h: RoundHoleData) {
    h.gir
  }

  /** `girCount`: the holes that reached the green in regulation. */
  function GirCount(holes: seq<RoundHoleData>): (n: nat)
    ensures n <= |holes|
    ensures n == |holes| <==> forall k :: 0 <= k < |holes| ==> holes[k].gir
    ensures n == 0 <==> forall k :: 0 <= k < |holes| ==> !holes[k].gir
  {
    FilterAll(holes);
    var hits := Seqs.Filter(Hit, holes);
    assert forall k :: 0 <= k < |holes| && holes[k].gir ==> holes[k] in hits;
    assert hits != [] ==> hits[0] in hits;
    |hits|
  }

  lemma {:induction false} FilterAll(holes: seq<RoundHoleData>)
    ensures |Seqs.Filter(Hit, holes)| == |holes| <==> forall k :: 0 <= k < |holes| ==> holes[k].gir
  {
    if holes != [] {
      FilterAll(holes[1..]);
      assert forall k :: 1 <= k < |holes| ==> holes[k] == holes[1..][k - 1];
    }
  }

  /** Every hole counts its par and its score once, whatever the order the holes were played in. */
  lemma TotalsOfRound(history: seq<RoundHoleData>, h: RoundHoleData)
    ensures Scoring.SumScore(history + [h]) == Scoring.SumScore(history) + h.score
    ensures Scoring.SumPar(history + [h]) == Scoring.SumPar(history) + h.par
    ensures Scoring.SumPutts(history + [h]) == Scoring.SumPutts(history) + h.putts
    ensures GirCount(history + [h]) == GirCount(history) + (if h.gir then 1 else 0)
  {
    assert (history + [h])[..|history + [h]| - 1] == history;
    Seqs.FilterConcat(Hit, history, [h]);
    assert [h][1..] == [];
  }

  // ----- The score-to-par label -----

  /** `scoreDiffDisplay`: `+d` over par, `E` at par, the signed number under par. */
  function ScoreDiffDisplay(totalScore: int, totalPar: int): (r: string)
    ensures |r| >= 1
    ensures r == "E" <==> totalScore == totalPar
    ensures r[0] == '+' <==> totalScore > totalPar
    ensures r[0] == '-' <==> totalScore < totalPar
  {
    var diff := totalScore - totalPar;
    if diff > 0 then "+" + Text.IntToString(diff)
    else if diff == 0 then "E"
    else Text.IntToString(diff)
  }

  /** A label other than `E` reads back, with `parseInt`, as the difference to par. */
  lemma ScoreDiffDisplayReadsBack(totalScore: int, totalPar: int)
    requires totalScore != totalPar
    ensures Text.ParseInt(ScoreDiffDisplay(totalScore, totalPar)) == Some(totalScore - totalPar)
  {
    LabelReadsBack(totalScore, totalPar, ScoreDiffDisplay(totalScore, totalPar));
  }

  /** The same, for the label as a string of its own. */
  lemma LabelReadsBack(totalScore: int, totalPar: int, shown: string)
    requires totalScore != totalPar && shown == ScoreDiffDisplay(totalScore, totalPar)
    ensures Text.ParseInt(shown) == Some(totalScore - totalPar)
  {
    var diff := totalScore - totalPar;
    assert shown == if diff > 0 then "+" + Text.IntToString(diff) else Text.IntToString(diff);
    SignedLabelReadsBack(diff, shown);
  }

  /** The label away from par, whichever side. */
  lemma SignedLabelReadsBack(diff: int, shown: string)
    requires diff != 0
    requires shown == if diff > 0 then "+" + Text.IntToString(diff) else Text.IntToString(diff)
    ensures Text.ParseInt(shown) == Some(diff)
  {
    if diff > 0 {
      AboveParReadsBack(diff, shown);
    } else {
      BelowParReadsBack(diff, shown);
    }
  }

  /** Above par: the label is a plus sign before the difference. */
  lemma AboveParReadsBack(diff: nat, shown: string)
    requires shown == "+" + Text.IntToString(diff)
    ensures Text.ParseInt(shown) == Some(diff as int)
  {
    assert Text.IntToString(diff) == Text.NatToString(diff);
    assert shown == ['+'] + Text.NatToString(diff);
    Text.ParseIntSigned('+', diff, shown);
  }

  /** Below par: the label is the negative difference as `String` prints it. */
  lemma BelowParReadsBack(diff: int, shown: string)
    requires diff < 0 && shown == Text.IntToString(diff)
    ensures Text.ParseInt(shown) == Some(diff)
  {
    Text.ParseIntToString(diff);
  }

  // ----- downloadCSV -----

  /** One line below the column header: a hole, the stroke number within it, and the shot. */
  datatype CsvRow = CsvRow(hole: RoundHoleData, shotNumber: int, shot: Shot)

  /** The rows of the first `n` shots of a hole, numbered from 1. */
  function HoleRowsUpTo(h: RoundHoleData, n: nat): (r: seq<CsvRow>)
    requires n <= |h.shots|
    ensures |r| == n
    ensures forall k :: 0 <= k < n ==> r[k] == CsvRow(h, k + 1, h.shots[k])
  {
    if n == 0 then [] else HoleRowsUpTo(h, n - 1) + [CsvRow(h, n, h.shots[n - 1])]
  }

  /** The rows of one hole: one per shot. */
  function HoleRows(h: RoundHoleData): seq<CsvRow> {
    HoleRowsUpTo(h, |h.shots|)
  }

  /** The rows of a round, hole by hole. */
  function Rows(holes: seq<RoundHoleData>): seq<CsvRow> {
    if holes == [] then [] else Rows(holes[..|holes| - 1]) + HoleRows(holes[|holes| - 1])
  }

  /** There is exactly one row per shot, in the order of `AllShots`, and holes without shots add none. */
  lemma {:induction false} RowsFollowShots(holes: seq<RoundHoleData>)
    ensures |Rows(holes)| == |Scoring.AllShots(holes)|
    ensures forall k :: 0 <= k < |Rows(holes)| ==> Rows(holes)[k].shot == Scoring.AllShots(holes)[k]
  {
    if holes != [] {
      RowsFollowShots(holes[..|holes| - 1]);
    }
  }

  /** The distance column: empty for a missing or zero distance, the number otherwise. */
  function DistanceField(d: Option<int>): (r: string)
    ensures r == "" <==> d.None? || d.value == 0
  {
    if d.Some? && d.value != 0 then Text.IntToString(d.value) else ""
  }

  function GirField(gir: bool): string {
    if gir then "Y" else "N"
  }

  /** A row as written: eight comma-separated fields and a newline. */
  function RenderRow(row: CsvRow): string {
    Text.IntToString(row.hole.holeNumber) + "," + Text.IntToString(row.hole.par) + ","
    + Text.IntToString(row.hole.score) + "," + Text.IntToString(row.hole.putts) + ","
    + GirField(row.hole.gir) + "," + Text.IntToString(row.shotNumber) + "," + row.shot.club + ","
    + DistanceField(row.shot.distance) + "\n"
  }

  function RenderRows(rows: seq<CsvRow>): string {
    if rows == [] then "" else RenderRows(rows[..|rows| - 1]) + RenderRow(rows[|rows| - 1])
  }

  /** The data-URL header of the download followed by a byte-order mark. */
  const CsvPrefix: string := "data:text/csv;charset=utf-8," + [0xFEFF as char]

  const ColumnLine: string := "Hole,Par,Score,Putts,GIR,Shot Number,Club,Distance\n"

  /** The player, course and date lines, a blank line and the column line; no course reads `Unknown`. */
  function CsvHeader(userName: string, courseName: string, date: string): string {
    "Player," + userName + "\nCourse," + (if courseName == "" then "Unknown" else courseName)
    + "\nDate," + date + "\n\n" + ColumnLine
  }

  /**
   * Reference definition of the whole export: it opens with the data-URL header and
   * the byte-order mark, and holes without shots add no line after the header.
   */
  function CsvText(userName: string, courseName: string, date: string, holes: seq<RoundHoleData>): (r: string)
    ensures |r| >= |CsvPrefix| && r[..|CsvPrefix|] == CsvPrefix
    ensures Rows(holes) == [] ==> r == CsvPrefix + CsvHeader(userName, courseName, date)
  {
    var r := CsvPrefix + CsvHeader(userName, courseName, date) + RenderRows(Rows(holes));
    assert r[..|CsvPrefix|] == CsvPrefix;
    r
  }

  lemma RenderRowsAppend(head: string, rows: seq<CsvRow>, row: CsvRow)
    ensures head + RenderRows(rows + [row]) == head + RenderRows(rows) + RenderRow(row)
  {
    RenderRowsSnoc(rows, row);
    JoinAssociative(head, RenderRows(rows), RenderRow(row));
  }

  /** Rendering one more row appends its line. */
  lemma RenderRowsSnoc(rows: seq<CsvRow>, row: CsvRow)
    ensures RenderRows(rows + [row]) == RenderRows(rows) + RenderRow(row)
  {
    var all := rows + [row];
    assert all[..|all| - 1] == rows && all[|all| - 1] == row;
  }

  /** Regrouping three strings, kept apart so that the solver sees only abstract strings. */
  lemma JoinAssociative(a: string, b: string, c: string)
    ensures a + (b + c) == a + b + c
  {
  }

  lemma Associative(a: seq<CsvRow>, b: seq<CsvRow>, c: seq<CsvRow>)
    ensures (a + b) + c == a + (b + c)
  {
  }

  lemma RowsAppend(holes: seq<RoundHoleData>, i: nat)
    requires i < |holes|
    ensures Rows(holes[..i + 1]) == Rows(holes[..i]) + HoleRows(holes[i])
  {
    assert holes[..i + 1][..i] == holes[..i];
  }

  /**
   * `downloadCSV` up to the download: nothing for an empty round, otherwise the text
   * accumulated hole by hole and shot by shot. Handing it to the browser is left out.
   */
  method DownloadCsv(userName: string, courseName: string, date: string, history: seq<RoundHoleData>)
    returns (csv: Option<string>)
    ensures history == [] ==> csv.None?
    ensures history != [] ==> csv == Some(CsvText(userName, courseName, date, history))
  {
    if |history| == 0 {
      return None;
    }
    var content := CsvPrefix;
    content := content + CsvHeader(userName, courseName, date);
    ghost var head := content;
    assert Rows(history[..0]) == [];
    var i := 0;
    while i < |history|
      invariant 0 <= i <= |history|
      invariant content == head + RenderRows(Rows(history[..i]))
    {
      var h := history[i];
      ghost var done := Rows(history[..i]);
      var idx := 0;
      assert done + HoleRowsUpTo(h, 0) == done;
      while idx < |h.shots|
        invariant 0 <= idx <= |h.shots|
        invariant content == head + RenderRows(done + HoleRowsUpTo(h, idx))
      {
        var s := h.shots[idx];
        ghost var row := CsvRow(h, idx + 1, s);
        RenderRowsAppend(head, done + HoleRowsUpTo(h, idx), row);
        assert HoleRowsUpTo(h, idx) + [row] == HoleRowsUpTo(h, idx + 1);
        Associative(done, HoleRowsUpTo(h, idx), [row]);
        content := content + RenderRow(CsvRow(h, idx + 1, s));
        idx := idx + 1;
      }
      RowsAppend(history, i);
      i := i + 1;
    }
    assert history[..i] == history;
    return Some(content);
  }

  // ----- Archiving and resuming -----

  /** `handleFinishGame`: a blank course name only raises an alert; otherwise archive under the trimmed name. */
  function HandleFinishGame(courseName: string, date: string): (r: Option<GameReducer.Action>)
    ensures r.None? <==> forall k :: 0 <= k < |courseName| ==> Text.IsWhitespace(courseName[k])
    ensures r.Some? ==> r.value == GameReducer.ArchiveRound(Text.Trim(courseName), date)
  {
    Text.TrimEmptyIff(courseName);
    var name := Text.Trim(courseName);
    if name == "" then None else Some(GameReducer.ArchiveRound(name, date))
  }

  /**
   * An archived round's course name is the trimmed name typed in, never blank and with no
   * surrounding whitespace, and the card it came from is cleared.
   */
  lemma ArchivedCourseIsTrimmed(s: GameState, courseName: string, date: string, env: GameReducer.Env)
    requires HandleFinishGame(courseName, date).Some?
    ensures var r := GameReducer.Reduce(s, HandleFinishGame(courseName, date).value, env);
      && |r.pastRounds| > 0
      && var name := r.pastRounds[0].courseName;
      && name == Text.Trim(courseName)
      && name != ""
      && !Text.IsWhitespace(name[0]) && !Text.IsWhitespace(name[|name| - 1])
      && r.history == [] && r.currentShots == []
  {
    GameReducer.ArchiveRoundPrepends(s, Text.Trim(courseName), date, env);
  }

  /** The resume button is shown while fewer than 18 holes are recorded. */
  predicate ResumeOffered(history: seq<RoundHoleData>) {
    |history| < 18
  }

  /** Whenever the button is shown, resuming leads to the next hole's setup, never back here. */
  lemma ResumeLeadsToNextHole(s: GameState, env: GameReducer.Env)
    ensures ResumeOffered(s.history) <==> GameReducer.Reduce(s, GameReducer.ResumeGame, env).view == HoleSetupView
  {
  }
}
