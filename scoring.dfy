/**
 * The sums the app takes over a round's holes (score, par and putts summed over every hole), the green-in-regulation rule and the flattening of
 * a round's shots.
 */
module Scoring {
  import opened Types

  function SumScore(holes: seq<RoundHoleData>): int {
    if holes == [] then 0 else SumScore(holes[..|holes| - 1]) + holes[|holes| - 1].score
  }

  function SumPar(holes: seq<RoundHoleData>): int {
    if holes == [] then 0 else SumPar(holes[..|holes| - 1]) + holes[|holes| - 1].par
  }

  function SumPutts(holes: seq<RoundHoleData>): int {
    if holes == [] then 0 else SumPutts(holes[..|holes| - 1]) + holes[|holes| - 1].putts
  }

  /** Green in regulation: the strokes before the first putt are at most par minus two. */
  predicate Gir(score: int, putts: int, par: int) {
    score - putts <= par - 2
  }

  /** A round whose stored totals are the sums over its holes (what `ARCHIVE_ROUND` creates). */
  predicate TotalsAgree(r: FinishedRound) {
    && r.totalScore == SumScore(r.holes)
    && r.totalPar == SumPar(r.holes)
    && r.totalPutts == SumPutts(r.holes)
  }

  /** All the shots of the holes, hole by hole and in stroke order within a hole. */
  function AllShots(holes: seq<RoundHoleData>): seq<Shot> {
    if holes == [] then [] else AllShots(holes[..|holes| - 1]) + holes[|holes| - 1].shots
  }

  lemma {:induction false} SumsConcat(a: seq<RoundHoleData>, b: seq<RoundHoleData>)
    ensures SumScore(a + b) == SumScore(a) + SumScore(b)
    ensures SumPar(a + b) == SumPar(a) + SumPar(b)
    ensures SumPutts(a + b) == SumPutts(a) + SumPutts(b)
  {
    if b == [] {
      assert a + b == a;
    } else {
      assert (a + b)[..|a + b| - 1] == a + b[..|b| - 1];
      SumsConcat(a, b[..|b| - 1]);
    }
  }

  /** Replacing one hole changes each sum by the difference between the new and the old hole. */
  lemma SumsUpdate(holes: seq<RoundHoleData>, i: nat, h: RoundHoleData)
    requires i < |holes|
    ensures SumScore(holes[i := h]) == SumScore(holes) - holes[i].score + h.score
    ensures SumPar(holes[i := h]) == SumPar(holes) - holes[i].par + h.par
    ensures SumPutts(holes[i := h]) == SumPutts(holes) - holes[i].putts + h.putts
  {
    var u := holes[i := h];
    assert holes == holes[..i] + [holes[i]] + holes[i + 1..];
    assert u == holes[..i] + [h] + holes[i + 1..];
    SumsConcat(holes[..i] + [holes[i]], holes[i + 1..]);
    SumsConcat(holes[..i], [holes[i]]);
    SumsConcat(holes[..i] + [h], holes[i + 1..]);
    SumsConcat(holes[..i], [h]);
    assert [holes[i]][..0] == [] && [h][..0] == [];
  }

  lemma {:induction false} AllShotsConcat(a: seq<RoundHoleData>, b: seq<RoundHoleData>)
    ensures AllShots(a + b) == AllShots(a) + AllShots(b)
  {
    if b == [] {
      assert a + b == a;
    } else {
      assert (a + b)[..|a + b| - 1] == a + b[..|b| - 1];
      AllShotsConcat(a, b[..|b| - 1]);
    }
  }
}
