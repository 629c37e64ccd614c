/**
 * The archive screen (components/PastGames.tsx): per-round club statistics, the
 * classification behind the score badges, and editing one hole of an archived round.
 */
module PastGames {
  import opened Wrappers
  import opened Types
  import Seqs
  import Text
  import Scoring

  // ----- getClubStats -----

  /** One entry of the usage table: a club and how often it was used. */
  datatype ClubCount = ClubCount(club: ClubName, count: int)

  /** How many of the shots were played with `club`. */
  function Count(shots: seq<Shot>, club: ClubName): (n: nat)
    ensures n <= |shots|
  {
    if shots == [] then 0
    else Count(shots[..|shots| - 1], club) + (if shots[|shots| - 1].club == club then 1 else 0)
  }

  function ClubsOf(shots: seq<Shot>): (cs: seq<ClubName>)
    ensures |cs| == |shots| && forall k :: 0 <= k < |shots| ==> cs[k] == shots[k].club
  {
    seq(|shots|, k requires 0 <= k < |shots| => shots[k].club)
  }

  /** The dictionary's keys in insertion order: each club once, in order of first use. */
  function UsedClubs(shots: seq<Shot>): seq<ClubName> {
    Seqs.Distinct(ClubsOf(shots))
  }

  /** The entry for every club of `order`, with its count over `shots`. */
  function CountsFor(order: seq<ClubName>, shots: seq<Shot>): (r: seq<ClubCount>)
    ensures |r| == |order|
    ensures forall k :: 0 <= k < |order| ==> r[k] == ClubCount(order[k], Count(shots, order[k]))
  {
    if order == [] then [] else [ClubCount(order[0], Count(shots, order[0]))] + CountsFor(order[1..], shots)
  }

  /** Counts never increase from one entry to the next. */
  predicate SortedByCount(es: seq<ClubCount>) {
    forall k :: 0 < k < |es| ==> es[k - 1].count >= es[k].count
  }

  /** Puts `e` in front of the first entry whose count is not larger than its own. */
  function Insert(e: ClubCount, xs: seq<ClubCount>): (r: seq<ClubCount>)
    ensures multiset(r) == multiset(xs) + multiset{e}
    ensures |r| == |xs| + 1
    ensures r[0] == e || (xs != [] && r[0] == xs[0])
  {
    if xs == [] || xs[0].count <= e.count then [e] + xs
    else
      assert xs == [xs[0]] + xs[1..];
      [xs[0]] + Insert(e, xs[1..])
  }

  /** Inserting into a list ordered by count keeps it ordered. */
  lemma {:induction false} InsertKeepsSorted(e: ClubCount, xs: seq<ClubCount>)
    requires SortedByCount(xs)
    ensures SortedByCount(Insert(e, xs))
  {
    if !(xs == [] || xs[0].count <= e.count) {
      var tail := Insert(e, xs[1..]);
      InsertKeepsSorted(e, xs[1..]);
      assert tail[0] == e || tail[0] == xs[1];
      assert Insert(e, xs) == [xs[0]] + tail;
    }
  }

  /**
   * Ordering by non-increasing count, written as an insertion sort. Equal
   * counts keep their relative order, as the stable `Array.prototype.sort` does.
   */
  function SortByCount(es: seq<ClubCount>): (r: seq<ClubCount>)
    ensures multiset(r) == multiset(es)
    ensures SortedByCount(r)
  {
    if es == [] then []
    else
      assert es == [es[0]] + es[1..];
      InsertKeepsSorted(es[0], SortByCount(es[1..]));
      Insert(es[0], SortByCount(es[1..]))
  }

  /** Reference definition of the statistics `getClubStats` computes. */
  function ClubStats(shots: seq<Shot>): (r: seq<ClubCount>)
    ensures SortedByCount(r)
  {
    SortByCount(CountsFor(UsedClubs(shots), shots))
  }

  /**
   * `getClubStats`: counts every shot of every hole into a dictionary keyed by club,
   * then sorts its entries by count. `maxUsage` is the first count, or 1 with no shots.
   */
  method GetClubStats(round: FinishedRound) returns (stats: seq<ClubCount>, totalShots: int, maxUsage: int)
    ensures stats == ClubStats(Scoring.AllShots(round.holes))
    ensures totalShots == |Scoring.AllShots(round.holes)|
    ensures maxUsage == if stats == [] then 1 else stats[0].count
  {
    var counts: map<ClubName, int> := map[];
    var order: seq<ClubName> := [];
    totalShots := 0;
    var i := 0;
    while i < |round.holes|
      invariant 0 <= i <= |round.holes|
      invariant Tallied(counts, order, totalShots, Scoring.AllShots(round.holes[..i]))
    {
      ghost var before := Scoring.AllShots(round.holes[..i]);
      counts, order, totalShots := TallyHole(counts, order, totalShots, before, round.holes[i].shots);
      AllShotsStep(round.holes, i);
      i := i + 1;
    }
    assert round.holes[..i] == round.holes;
    var entries := seq(|order|, k requires 0 <= k < |order| => ClubCount(order[k], counts[order[k]]));
    assert entries == CountsFor(order, Scoring.AllShots(round.holes));
    stats := SortByCount(entries);
    maxUsage := if |stats| > 0 then stats[0].count else 1;
  }

  /**
   * The dictionary state after counting `done`: the keys in first-use order, each
   * mapped to its count, and the running shot total.
   */
  ghost predicate Tallied(counts: map<ClubName, int>, order: seq<ClubName>, total: int, done: seq<Shot>) {
    && order == UsedClubs(done)
    && (forall c :: c in counts <==> c in order)
    && (forall c :: c in counts ==> counts[c] == Count(done, c))
    && total == |done|
  }

  /** Counting one more shot: a known club's count goes up by one, a new club enters with 1. */
  method TallyShot(counts0: map<ClubName, int>, order0: seq<ClubName>, total0: int, ghost done: seq<Shot>, x: Shot)
    returns (counts: map<ClubName, int>, order: seq<ClubName>, total: int)
    requires Tallied(counts0, order0, total0, done)
    ensures Tallied(counts, order, total, done + [x])
  {
    if x.club in counts0 {
      TallyKnown(counts0, order0, total0, done, x);
      counts, order := counts0[x.club := counts0[x.club] + 1], order0;
    } else {
      TallyNew(counts0, order0, total0, done, x);
      counts, order := counts0[x.club := 1], order0 + [x.club];
    }
    total := total0 + 1;
  }

  /** A club already counted: only its count moves, and the club order stays. */
  lemma TallyKnown(counts: map<ClubName, int>, order: seq<ClubName>, total: int, done: seq<Shot>, x: Shot)
    requires Tallied(counts, order, total, done) && x.club in counts
    ensures Tallied(counts[x.club := counts[x.club] + 1], order, total + 1, done + [x])
  {
    TallyStep(done, x);
    assert x.club in UsedClubs(done);
    var next := counts[x.club := counts[x.club] + 1];
    forall c | c in next
      ensures next[c] == Count(done + [x], c)
    {
    }
  }

  /** A club not seen before: it enters the counts with 1 and the order at its end. */
  lemma TallyNew(counts: map<ClubName, int>, order: seq<ClubName>, total: int, done: seq<Shot>, x: Shot)
    requires Tallied(counts, order, total, done) && x.club !in counts
    ensures Tallied(counts[x.club := 1], order + [x.club], total + 1, done + [x])
  {
    TallyStep(done, x);
    assert x.club !in UsedClubs(done);
    CountZero(done, x.club);
    var next := counts[x.club := 1];
    forall c | c in next
      ensures next[c] == Count(done + [x], c)
    {
    }
  }

  /** The inner loop of `GetClubStats`: tallies the shots of one hole onto the counts of `before`. */
  method TallyHole(counts0: map<ClubName, int>, order0: seq<ClubName>, total0: int, ghost before: seq<Shot>, shots: seq<Shot>)
    returns (counts: map<ClubName, int>, order: seq<ClubName>, totalShots: int)
    requires Tallied(counts0, order0, total0, before)
    ensures Tallied(counts, order, totalShots, before + shots)
  {
    counts, order, totalShots := counts0, order0, total0;
    ghost var done := before;
    var j := 0;
    while j < |shots|
      invariant 0 <= j <= |shots|
      invariant done == before + shots[..j]
      invariant Tallied(counts, order, totalShots, done)
    {
      counts, order, totalShots := TallyShot(counts, order, totalShots, done, shots[j]);
      done := done + [shots[j]];
      PrefixStep(shots, j);
      j := j + 1;
    }
    assert shots[..j] == shots;
  }

  /** One more element of a prefix. */
  lemma PrefixStep(shots: seq<Shot>, j: nat)
    requires j < |shots|
    ensures shots[..j + 1] == shots[..j] + [shots[j]]
  {
  }

  /** The shots of the first `i + 1` holes are those of the first `i` followed by hole `i`'s. */
  lemma AllShotsStep(holes: seq<RoundHoleData>, i: nat)
    requires i < |holes|
    ensures Scoring.AllShots(holes[..i + 1]) == Scoring.AllShots(holes[..i]) + holes[i].shots
  {
    assert holes[..i + 1][..i] == holes[..i];
  }

  /** What one more shot does to the key order and to the counts. */
  lemma TallyStep(done: seq<Shot>, x: Shot)
    ensures UsedClubs(done + [x]) == if x.club in UsedClubs(done) then UsedClubs(done) else UsedClubs(done) + [x.club]
    ensures forall c :: Count(done + [x], c) == Count(done, c) + (if x.club == c then 1 else 0)
  {
    assert (done + [x])[..|done + [x]| - 1] == done;
    assert ClubsOf(done + [x]) == ClubsOf(done) + [x.club];
    assert (ClubsOf(done) + [x.club])[..|ClubsOf(done) + [x.club]| - 1] == ClubsOf(done);
  }

  function SumCounts(es: seq<ClubCount>): int {
    if es == [] then 0 else es[0].count + SumCounts(es[1..])
  }

  lemma {:induction false} SumCountsInsert(e: ClubCount, xs: seq<ClubCount>)
    ensures SumCounts(Insert(e, xs)) == e.count + SumCounts(xs)
  {
    if xs != [] && xs[0].count > e.count {
      SumCountsInsert(e, xs[1..]);
    }
  }

  lemma {:induction false} SumCountsSort(es: seq<ClubCount>)
    ensures SumCounts(SortByCount(es)) == SumCounts(es)
  {
    if es != [] {
      SumCountsSort(es[1..]);
      SumCountsInsert(es[0], SortByCount(es[1..]));
    }
  }

  /** One more shot adds one to the sum over any list of distinct clubs that holds its club. */
  lemma {:induction false} SumCountsStep(order: seq<ClubName>, done: seq<Shot>, x: Shot)
    requires forall i, j :: 0 <= i < j < |order| ==> order[i] != order[j]
    ensures SumCounts(CountsFor(order, done + [x])) == SumCounts(CountsFor(order, done)) + (if x.club in order then 1 else 0)
  {
    TallyStep(done, x);
    if order != [] {
      SumCountsStep(order[1..], done, x);
      assert x.club in order <==> x.club == order[0] || x.club in order[1..];
      assert x.club == order[0] ==> x.club !in order[1..];
    }
  }

  lemma SumCountsAppend(order: seq<ClubName>, c: ClubName, shots: seq<Shot>)
    ensures SumCounts(CountsFor(order + [c], shots)) == SumCounts(CountsFor(order, shots)) + Count(shots, c)
    decreases |order|
  {
    if order == [] {
      assert CountsFor([c], shots) == [ClubCount(c, Count(shots, c))];
    } else {
      assert (order + [c])[1..] == order[1..] + [c];
      SumCountsAppend(order[1..], c, shots);
    }
  }

  /** The per-club counts of the used clubs add up to the number of shots. */
  lemma {:induction false} CountsAddUp(shots: seq<Shot>)
    ensures SumCounts(CountsFor(UsedClubs(shots), shots)) == |shots|
  {
    if shots != [] {
      var done := shots[..|shots| - 1];
      var x := shots[|shots| - 1];
      assert shots == done + [x];
      CountsAddUp(done);
      TallyStep(done, x);
      SumCountsStep(UsedClubs(done), done, x);
      if x.club !in UsedClubs(done) {
        SumCountsAppend(UsedClubs(done), x.club, shots);
        assert Count(done, x.club) == 0 by {
          CountZero(done, x.club);
        }
      }
    }
  }

  /** A club never used has count zero. */
  lemma {:induction false} CountZero(shots: seq<Shot>, club: ClubName)
    requires club !in UsedClubs(shots)
    ensures Count(shots, club) == 0
  {
    if shots != [] {
      var done := shots[..|shots| - 1];
      TallyStep(done, shots[|shots| - 1]);
      assert shots == done + [shots[|shots| - 1]];
      CountZero(done, club);
    }
  }

  /** `totalShots` equals the sum of the per-club counts. */
  lemma ClubStatsAddUp(shots: seq<Shot>)
    ensures SumCounts(ClubStats(shots)) == |shots|
  {
    CountsAddUp(shots);
    SumCountsSort(CountsFor(UsedClubs(shots), shots));
  }

  /**
   * Each entry is a club that was used, with its exact count (at least one); every
   * used club has an entry, and no club has two.
   */
  lemma ClubStatsEntries(shots: seq<Shot>)
    ensures var stats := ClubStats(shots);
      && (forall e :: e in stats ==> e.count == Count(shots, e.club) >= 1)
      && (forall c :: (exists e :: e in stats && e.club == c) <==> c in ClubsOf(shots))
  {
    var es := CountsFor(UsedClubs(shots), shots);
    SameElements(ClubStats(shots), es);
    EntriesCounted(shots, es);
    EntriesCover(shots, es);
  }

  /** Two sequences with the same multiset have the same elements. */
  lemma SameElements(a: seq<ClubCount>, b: seq<ClubCount>)
    requires multiset(a) == multiset(b)
    ensures forall e :: e in a <==> e in b
  {
    forall e ensures e in a <==> e in b {
      assert e in a <==> e in multiset(a);
      assert e in b <==> e in multiset(b);
    }
  }

  /** Every unsorted entry holds its club's count, which is at least one. */
  lemma EntriesCounted(shots: seq<Shot>, es: seq<ClubCount>)
    requires es == CountsFor(UsedClubs(shots), shots)
    ensures forall e :: e in es ==> e.count == Count(shots, e.club) >= 1
  {
    var order := UsedClubs(shots);
    forall e | e in es ensures e.count == Count(shots, e.club) >= 1 {
      var k :| 0 <= k < |es| && es[k] == e;
      CountPositive(shots, order[k]);
    }
  }

  /** The unsorted entries name exactly the clubs that were used. */
  lemma EntriesCover(shots: seq<Shot>, es: seq<ClubCount>)
    requires es == CountsFor(UsedClubs(shots), shots)
    ensures forall c :: (exists e :: e in es && e.club == c) <==> c in ClubsOf(shots)
  {
    var order := UsedClubs(shots);
    forall c ensures (exists e :: e in es && e.club == c) <==> c in ClubsOf(shots) {
      if c in ClubsOf(shots) {
        var k :| 0 <= k < |order| && order[k] == c;
        assert es[k] in es;
      }
    }
  }

  lemma CountPositive(shots: seq<Shot>, club: ClubName)
    requires club in UsedClubs(shots)
    ensures Count(shots, club) >= 1
  {
    var i :| 0 <= i < |shots| && shots[i].club == club by {
      assert club in ClubsOf(shots);
    }
    CountAtLeastOne(shots, club, i);
  }

  lemma {:induction false} CountAtLeastOne(shots: seq<Shot>, club: ClubName, i: nat)
    requires i < |shots| && shots[i].club == club
    ensures Count(shots, club) >= 1
  {
    if i < |shots| - 1 {
      CountAtLeastOne(shots[..|shots| - 1], club, i);
    }
  }

  /** Every count is at most the first one, so `maxUsage` is the largest count. */
  lemma {:induction false} FirstIsLargest(es: seq<ClubCount>)
    requires SortedByCount(es)
    ensures forall k :: 0 <= k < |es| ==> es[k].count <= es[0].count
  {
    if |es| > 1 {
      FirstIsLargest(es[1..]);
    }
  }

  // ----- renderTraditionalScore -----

  /** The marks around a hole score: circles under par, squares over par, a star from +3. */
  datatype Badge = Plain | Circle | DoubleCircle | Square | DoubleSquare | Star

  function ScoreBadge(score: int, par: int): (b: Badge)
    ensures b == Plain <==> score == par
    ensures b == Circle <==> score - par == -1
    ensures b == DoubleCircle <==> score - par <= -2
    ensures b == Square <==> score - par == 1
    ensures b == DoubleSquare <==> score - par == 2
    ensures b == Star <==> score - par >= 3
  {
    var diff := score - par;
    if diff == 0 then Plain
    else if diff == -1 then Circle
    else if diff <= -2 then DoubleCircle
    else if diff == 1 then Square
    else if diff == 2 then DoubleSquare
    else Star
  }

  /** Badges ordered from the best score to the worst. */
  function Rank(b: Badge): nat {
    match b
    case DoubleCircle => 0
    case Circle => 1
    case Plain => 2
    case Square => 3
    case DoubleSquare => 4
    case Star => 5
  }

  /** The badge depends on `score - par` only. */
  lemma BadgeDependsOnDifference(score: int, par: int, k: int)
    ensures ScoreBadge(score + k, par + k) == ScoreBadge(score, par)
  {
  }

  /** A worse score on the same par never gets a better badge. */
  lemma BadgeIsMonotone(s1: int, s2: int, par: int)
    requires s1 <= s2
    ensures Rank(ScoreBadge(s1, par)) <= Rank(ScoreBadge(s2, par))
  {
  }

  // ----- Editing an archived hole -----

  /** `updateArchiveShotClub`: only the club of shot `idx` changes. */
  function UpdateArchiveShotClub(shots: seq<Shot>, idx: int, club: ClubName): (r: seq<Shot>)
    requires 0 <= idx < |shots|
    ensures |r| == |shots| && r[idx].club == club
    ensures r[idx].id == shots[idx].id && r[idx].distance == shots[idx].distance
    ensures r[idx].timestamp == shots[idx].timestamp
    ensures forall k :: 0 <= k < |shots| && k != idx ==> r[k] == shots[k]
  {
    shots[idx := shots[idx].(club := club)]
  }

  /** The club of a new stroke: the first bag club, or `7 Iron` when there is none (or it is empty). */
  function DefaultClub(bag: seq<ClubName>): (c: ClubName)
    ensures c != ""
    ensures |bag| > 0 && bag[0] != "" ==> c == bag[0]
  {
    if |bag| > 0 && bag[0] != "" then bag[0] else "7 Iron"
  }

  /**
   * `addArchiveShot`: one stroke more at the end, with the default club and no distance.
   * The clock is read twice, once for the id (`idTime`) and once for the time stamp (`now`).
   */
  function AddArchiveShot(shots: seq<Shot>, bag: seq<ClubName>, idTime: int, now: int): (r: seq<Shot>)
    ensures |r| == |shots| + 1 && r[..|shots|] == shots
    ensures r[|shots|].club == DefaultClub(bag) && r[|shots|].distance.None? && r[|shots|].timestamp == now
    ensures Text.ParseInt(r[|shots|].id) == Some(idTime)
  {
    Text.ParseIntToString(idTime);
    shots + [Shot(Text.IntToString(idTime), DefaultClub(bag), None, now)]
  }

  /** `removeArchiveShot`: drops exactly stroke `idx`. */
  function RemoveArchiveShot(shots: seq<Shot>, idx: int): (r: seq<Shot>)
    ensures 0 <= idx < |shots| ==> r == shots[..idx] + shots[idx + 1..]
    ensures !(0 <= idx < |shots|) ==> r == shots
  {
    var r := Seqs.RemoveIndex(shots, idx);
    if 0 <= idx < |shots| then
      assert r == shots[..idx] + shots[idx + 1..];
      r
    else r
  }

  /** The putts stepper's minus button stops at zero; its plus button adds one. */
  function DecrementPutts(putts: int): (r: int)
    ensures r >= 0
    ensures putts >= 1 ==> r == putts - 1
    ensures putts < 1 ==> r == 0
  {
    if putts - 1 > 0 then putts - 1 else 0
  }

  function IncrementPutts(putts: int): int {
    putts + 1
  }

  /** On a non-negative count, minus undoes plus, and plus undoes minus away from zero. */
  lemma PuttsStepperUndoes(putts: int)
    requires putts >= 0
    ensures DecrementPutts(IncrementPutts(putts)) == putts
    ensures putts >= 1 ==> IncrementPutts(DecrementPutts(putts)) == putts
    ensures DecrementPutts(0) == 0
  {
  }

  /** Which hole of which archived round is being edited. */
  datatype EditTarget = EditTarget(roundId: string, holeIdx: int)

  /** The first archived round with that id, if any. */
  function FindRound(rounds: seq<FinishedRound>, id: string): (r: Option<FinishedRound>)
    ensures r.None? <==> forall k :: 0 <= k < |rounds| ==> rounds[k].id != id
    ensures r.Some? ==> r.value in rounds && r.value.id == id
    ensures r.Some? ==>
      exists k :: 0 <= k < |rounds| && rounds[k] == r.value && forall j :: 0 <= j < k ==> rounds[j].id != id
  {
    if rounds == [] then None
    else if rounds[0].id == id then Some(rounds[0])
    else
      var r := FindRound(rounds[1..], id);
      assert r.Some? ==> exists k :: 0 < k < |rounds| && rounds[k] == r.value && forall j :: 0 <= j < k ==> rounds[j].id != id by {
        if r.Some? {
          var k :| 0 <= k < |rounds| - 1 && rounds[1..][k] == r.value && forall j :: 0 <= j < k ==> rounds[1..][j].id != id;
          assert rounds[k + 1] == r.value;
          assert forall j :: 0 <= j < k + 1 ==> rounds[j].id != id by {
            forall j | 0 < j < k + 1 ensures rounds[j].id != id {
              assert rounds[j] == rounds[1..][j - 1];
            }
          }
        }
      }
      r
  }

  /** The edited hole: the new strokes and putts, with score and GIR recomputed from them. */
  function EditedHole(hole: RoundHoleData, shots: seq<Shot>, putts: int): RoundHoleData {
    hole.(shots := shots, score := |shots|, putts := putts, gir := Scoring.Gir(|shots|, putts, hole.par))
  }

  /**
   * `saveArchiveEdit`: the round to dispatch, or `None` when nothing is dispatched
   * (no edit open, no round with that id, or a hole index out of range, where the
   * source throws reading `holeData.par`).
   */
  function SaveArchiveEdit(editing: Option<EditTarget>, rounds: seq<FinishedRound>, shots: seq<Shot>, putts: int)
    : (r: Option<FinishedRound>)
    ensures editing.None? ==> r.None?
    ensures editing.Some? && FindRound(rounds, editing.value.roundId).None? ==> r.None?
    ensures r.Some? <==>
      && editing.Some?
      && FindRound(rounds, editing.value.roundId).Some?
      && 0 <= editing.value.holeIdx < |FindRound(rounds, editing.value.roundId).value.holes|
    ensures r.Some? ==>
      && editing.Some?
      && var orig := FindRound(rounds, editing.value.roundId).value;
      && var i := editing.value.holeIdx;
      && 0 <= i < |orig.holes|
      && r.value.holes == orig.holes[i := EditedHole(orig.holes[i], shots, putts)]
  {
    match editing
    case None => None
    case Some(EditTarget(roundId, holeIdx)) =>
      match FindRound(rounds, roundId)
      case None => None
      case Some(round) =>
        if 0 <= holeIdx < |round.holes| then
          var holes := round.holes[holeIdx := EditedHole(round.holes[holeIdx], shots, putts)];
          Some(round.(holes := holes, totalScore := Scoring.SumScore(holes), totalPutts := Scoring.SumPutts(holes)))
        else None
  }

  /**
   * A saved edit sets the edited hole's score to its stroke count and its GIR from the
   * new putts, leaves every other hole alone, recomputes the score and putt totals as
   * sums (moving them by the edit's difference), and keeps id, course, date, player and par.
   */
  lemma SaveArchiveEditRescores(editing: Option<EditTarget>, rounds: seq<FinishedRound>, shots: seq<Shot>, putts: int)
    requires SaveArchiveEdit(editing, rounds, shots, putts).Some?
    ensures var r := SaveArchiveEdit(editing, rounds, shots, putts).value;
      var orig := FindRound(rounds, editing.value.roundId).value;
      var i := editing.value.holeIdx;
      && |r.holes| == |orig.holes|
      && r.holes[i].score == |shots| && r.holes[i].putts == putts
      && (r.holes[i].gir <==> |shots| - putts <= orig.holes[i].par - 2)
      && r.holes[i].holeNumber == orig.holes[i].holeNumber && r.holes[i].par == orig.holes[i].par
      && (forall k :: 0 <= k < |orig.holes| && k != i ==> r.holes[k] == orig.holes[k])
      && r.totalScore == Scoring.SumScore(r.holes) && r.totalPutts == Scoring.SumPutts(r.holes)
      && r.totalScore == Scoring.SumScore(orig.holes) - orig.holes[i].score + |shots|
      && r.totalPutts == Scoring.SumPutts(orig.holes) - orig.holes[i].putts + putts
      && r.id == orig.id && r.courseName == orig.courseName && r.date == orig.date
      && r.playerName == orig.playerName && r.totalPar == orig.totalPar
  {
    var orig := FindRound(rounds, editing.value.roundId).value;
    var i := editing.value.holeIdx;
    Scoring.SumsUpdate(orig.holes, i, EditedHole(orig.holes[i], shots, putts));
  }

  /** A hole index outside the round dispatches nothing. */
  lemma SaveArchiveEditOutOfRange(t: EditTarget, rounds: seq<FinishedRound>, shots: seq<Shot>, putts: int)
    requires FindRound(rounds, t.roundId).Some?
    requires !(0 <= t.holeIdx < |FindRound(rounds, t.roundId).value.holes|)
    ensures SaveArchiveEdit(Some(t), rounds, shots, putts).None?
  {
  }

  /** An edit of a round whose totals agree yields a round whose totals agree. */
  lemma SaveArchiveEditKeepsTotals(editing: Option<EditTarget>, rounds: seq<FinishedRound>, shots: seq<Shot>, putts: int)
    requires SaveArchiveEdit(editing, rounds, shots, putts).Some?
    requires Scoring.TotalsAgree(FindRound(rounds, editing.value.roundId).value)
    ensures Scoring.TotalsAgree(SaveArchiveEdit(editing, rounds, shots, putts).value)
  {
    var orig := FindRound(rounds, editing.value.roundId).value;
    var i := editing.value.holeIdx;
    Scoring.SumsUpdate(orig.holes, i, EditedHole(orig.holes[i], shots, putts));
  }
}
