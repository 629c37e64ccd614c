/**
 * The hole-in-progress screen (components/PlayHole.tsx): what it derives from the
 * current shots, the shots and the finished hole it hands to the reducer, the shot
 * edit form, and the club lists it offers.
 */
module PlayHole {
  import opened Wrappers
  import opened Types
  import Seqs
  import Text
  import Scoring
  import GameReducer

  // ----- Derived values -----

  predicate IsPutt(s: Shot) {
    s.club == Putter
  }

  predicate IsFullShot(s: Shot) {
    s.club != Putter
  }

  /** `currentScore`: one stroke per recorded shot, so the putts and the other shots add up to it. */
  function CurrentScore(shots: seq<Shot>): (n: nat)
    ensures n == |Seqs.Filter(IsPutt, shots)| + |Seqs.Filter(IsFullShot, shots)|
  {
    Seqs.FilterSplit(IsPutt, IsFullShot, shots);
    |shots|
  }

  /** `putts`: the shots played with the Putter. */
  function PuttCount(shots: seq<Shot>): (n: nat)
    ensures n <= |shots|
    ensures n == 0 <==> forall k :: 0 <= k < |shots| ==> !IsPutt(shots[k])
  {
    var ps := Seqs.Filter(IsPutt, shots);
    assert forall k :: 0 <= k < |shots| && IsPutt(shots[k]) ==> shots[k] in ps;
    assert ps != [] ==> ps[0] in ps;
    |ps|
  }

  /** One more shot adds one to the putt count exactly when it is a putt. */
  lemma PuttCountAppend(shots: seq<Shot>, x: Shot)
    ensures PuttCount(shots + [x]) == PuttCount(shots) + (if IsPutt(x) then 1 else 0)
  {
    Seqs.FilterConcat(IsPutt, shots, [x]);
    assert Seqs.Filter(IsPutt, [x]) == if IsPutt(x) then [x] else [] by {
      assert [x][1..] == [];
    }
  }

  /** `isLastHole`: the finish button reads "finish round" rather than "next hole". */
  predicate IsLastHole(currentHole: int) {
    currentHole == 18
  }

  /**
   * On the holes of a round, `isLastHole` holds exactly when finishing the hole in
   * play goes on to the analysis rather than to the next hole.
   */
  lemma LastHoleFinishesRound(s: GameState, h: RoundHoleData, env: GameReducer.Env)
    requires !(s.isEditingMode && s.editingHoleIndex != -1)
    requires 1 <= s.currentHole <= 18
    ensures GameReducer.Reduce(s, GameReducer.FinishHole(h), env).view == AnalysisView <==> IsLastHole(s.currentHole)
  {
    GameReducer.FinishHoleAdvances(s, h, env);
  }

  // ----- Recording shots and finishing the hole -----

  /**
   * `handleClubClick`: a shot with the clicked club and no distance. The clock is read
   * twice, once for the id (`idTime`) and once for the time stamp (`now`).
   */
  function ClubClickShot(club: ClubName, idTime: int, now: int): (s: Shot)
    ensures s.club == club && s.distance.None? && s.timestamp == now
    ensures Text.ParseInt(s.id) == Some(idTime)
  {
    Text.ParseIntToString(idTime);
    Shot(Text.IntToString(idTime), club, None, now)
  }

  /** A club click grows the card by one stroke, and by one putt exactly when the club is the Putter. */
  lemma ClubClickRecordsOneStroke(s: GameState, club: ClubName, idTime: int, now: int, env: GameReducer.Env)
    ensures var r := GameReducer.Reduce(s, GameReducer.AddShot(ClubClickShot(club, idTime, now)), env);
      && CurrentScore(r.currentShots) == CurrentScore(s.currentShots) + 1
      && PuttCount(r.currentShots) == PuttCount(s.currentShots) + (if club == Putter then 1 else 0)
  {
    var x := ClubClickShot(club, idTime, now);
    GameReducer.AddShotAppends(s, x, env);
    PuttCountAppend(s.currentShots, x);
  }

  /**
   * `handleFinishHole`: the hole record to dispatch; with no shots the player must
   * confirm a zero score first, and declining dispatches nothing. `date` is the clock's
   * ISO timestamp.
   */
  function FinishHolePayload(s: GameState, confirmed: bool, date: string): (r: Option<RoundHoleData>)
    ensures r.None? <==> |s.currentShots| == 0 && !confirmed
    ensures r.Some? ==>
      && r.value.holeNumber == s.currentHole && r.value.par == s.currentPar
      && r.value.score == |s.currentShots| && r.value.shots == s.currentShots
      && r.value.putts == PuttCount(s.currentShots)
      && (r.value.gir <==> r.value.score - r.value.putts <= s.currentPar - 2)
      && r.value.date == date
      && 0 <= r.value.putts <= r.value.score
  {
    if |s.currentShots| == 0 && !confirmed then None
    else
      var score := |s.currentShots|;
      var putts := PuttCount(s.currentShots);
      Some(RoundHoleData(s.currentHole, s.currentPar, s.currentShots, score, putts,
                         Scoring.Gir(score, putts, s.currentPar), date))
  }

  /**
   * Finishing a hole in play appends a record whose score is its stroke count, so the
   * running score grows by exactly that; the card is then empty for the next hole.
   */
  lemma FinishHoleRecordsCard(s: GameState, confirmed: bool, date: string, env: GameReducer.Env)
    requires !(s.isEditingMode && s.editingHoleIndex != -1)
    requires FinishHolePayload(s, confirmed, date).Some?
    ensures var h := FinishHolePayload(s, confirmed, date).value;
      var r := GameReducer.Reduce(s, GameReducer.FinishHole(h), env);
      && r.history == s.history + [h]
      && Scoring.SumScore(r.history) == Scoring.SumScore(s.history) + |s.currentShots|
      && Scoring.SumPutts(r.history) == Scoring.SumPutts(s.history) + PuttCount(s.currentShots)
      && r.currentShots == []
  {
    var h := FinishHolePayload(s, confirmed, date).value;
    assert (s.history + [h])[..|s.history + [h]| - 1] == s.history;
  }

  // ----- Editing a recorded shot -----

  /** The form `openEditModal` fills in: the club, and the distance as text (empty for none or 0). */
  datatype EditForm = EditForm(club: ClubName, distance: string)

  function OpenEditForm(shot: Shot): (f: EditForm)
    ensures f.club == shot.club
    ensures f.distance == "" <==> shot.distance.None? || shot.distance.value == 0
  {
    EditForm(shot.club, if shot.distance.Some? && shot.distance.value != 0 then Text.IntToString(shot.distance.value) else "")
  }

  /**
   * The distance typed in the form: none when the field is empty or holds no digit after
   * the blanks, a sign and a `0x` prefix; otherwise the number `parseInt` reads.
   */
  function FormDistance(text: string): (d: Option<int>)
    ensures d.None? <==> text == "" || !Text.HasLeadingNumber(text)
    ensures d.Some? ==> d == Text.ParseInt(text)
  {
    if text == "" then None else Text.ParseInt(text)
  }

  /**
   * `saveEdit`: with a shot selected, the `UPDATE_SHOT` action for it (the club and the
   * distance from the form, id and time kept); with none selected (-1), nothing.
   */
  function SaveEdit(shots: seq<Shot>, editingIndex: int, form: EditForm): (r: Option<GameReducer.Action>)
    requires editingIndex == -1 || 0 <= editingIndex < |shots|
    ensures editingIndex == -1 <==> r.None?
    ensures r.Some? ==>
      && r.value.UpdateShot? && r.value.index == editingIndex
      && r.value.shot.id == shots[editingIndex].id
      && r.value.shot.timestamp == shots[editingIndex].timestamp
      && r.value.shot.club == form.club
      && r.value.shot.distance == FormDistance(form.distance)
  {
    if editingIndex == -1 then None
    else
      var original := shots[editingIndex];
      Some(GameReducer.UpdateShot(editingIndex, original.(club := form.club, distance := FormDistance(form.distance))))
  }

  /**
   * Opening a shot's form and saving it unchanged gives the same shot back, except that
   * a distance of 0 comes back as none.
   */
  lemma EditUnchangedKeepsShot(shots: seq<Shot>, i: int)
    requires 0 <= i < |shots|
    ensures var r := SaveEdit(shots, i, OpenEditForm(shots[i]));
      && r.Some?
      && r.value.shot == if shots[i].distance == Some(0) then shots[i].(distance := None) else shots[i]
  {
    if shots[i].distance.Some? && shots[i].distance.value != 0 {
      Text.ParseIntToString(shots[i].distance.value);
    }
  }

  /** The edit never reaches the card: the reducer has no `UPDATE_SHOT` case. */
  lemma SavedEditIsDropped(s: GameState, editingIndex: int, form: EditForm, env: GameReducer.Env)
    requires 0 <= editingIndex < |s.currentShots|
    ensures GameReducer.Reduce(s, SaveEdit(s.currentShots, editingIndex, form).value, env) == s
  {
    var a := SaveEdit(s.currentShots, editingIndex, form).value;
    GameReducer.UnhandledActionsAreNoOps(s, a, env);
  }

  // ----- Club lists -----

  predicate NotPutter(c: ClubName) {
    c != Putter
  }

  /** The shot pad: every bag club but the Putter, in bag order, then Penalty, then Putter. */
  function PadClubs(bag: seq<ClubName>): (r: seq<ClubName>)
    ensures |r| >= 2 && r[|r| - 2] == Penalty && r[|r| - 1] == Putter
    ensures r[..|r| - 2] == Seqs.Filter(NotPutter, bag)
    ensures forall c :: c in r[..|r| - 2] <==> c in bag && c != Putter
  {
    var r := Seqs.Filter(NotPutter, bag) + [Penalty, Putter];
    assert r[..|r| - 2] == Seqs.Filter(NotPutter, bag);
    r
  }

  /** Of the first `n` positions of `a`, those holding the first occurrence of their value. */
  function FirstOccurrences(a: seq<ClubName>, n: nat): seq<ClubName>
    requires n <= |a|
  {
    if n == 0 then []
    else FirstOccurrences(a, n - 1) + (if Seqs.IndexOf(a, a[n - 1]) == n - 1 then [a[n - 1]] else [])
  }

  /** The edit form's clubs: the bag and Penalty, each name once, at its first position. */
  function EditClubs(bag: seq<ClubName>): (r: seq<ClubName>)
    ensures r == Seqs.Distinct(bag + [Penalty])
  {
    var a := bag + [Penalty];
    FirstOccurrencesAreDistinct(a, |a|);
    assert a[..|a|] == a;
    FirstOccurrences(a, |a|)
  }

  /** The `indexOf` filter computes the reference first-occurrence list. */
  lemma {:induction false} FirstOccurrencesAreDistinct(a: seq<ClubName>, n: nat)
    requires n <= |a|
    ensures FirstOccurrences(a, n) == Seqs.Distinct(a[..n])
  {
    if n > 0 {
      FirstOccurrencesAreDistinct(a, n - 1);
      var x := a[n - 1];
      assert a[..n][..n - 1] == a[..n - 1];
      assert a[..n][n - 1] == x;
      var i := Seqs.IndexOf(a, x);
      assert a[n - 1] == x;
      if i < n - 1 {
        assert a[..n - 1][i] == x;
      }
      assert x in a[..n - 1] <==> i < n - 1;
    }
  }

  /** The edit form offers every bag club and Penalty exactly once. */
  lemma EditClubsOffersEachOnce(bag: seq<ClubName>)
    ensures var r := EditClubs(bag);
      && Penalty in r
      && (forall c :: c in bag ==> c in r)
      && (forall c :: c in r ==> c in bag || c == Penalty)
      && (forall i, j :: 0 <= i < j < |r| ==> r[i] != r[j])
  {
    assert Penalty in bag + [Penalty];
  }
}
