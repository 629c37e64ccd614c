/** The app's records (types.ts) as Dafny values. */
module Types {
  import opened Wrappers

  /** The seven screens of the app. */
  datatype ViewState = HomeView | BagSetupView | HoleSetupView | PlayView | AnalysisView | PastGamesView | SocialView

  /** The two interface languages, `'en'` and `'zh-TW'`. */
  datatype Language = En | ZhTw

  type ClubName = string

  /** One stroke; `distance` is `null` (here `None`) until the player enters a number. */
  datatype Shot = Shot(id: string, club: ClubName, distance: Option<int>, timestamp: int)

  /** One played hole as stored in the current round's history. */
  datatype RoundHoleData = RoundHoleData(
    holeNumber: int, par: int, shots: seq<Shot>, score: int, putts: int, gir: bool, date: string)

  /**
   * An archived round. The totals are stored beside the holes; nothing in the type
   * ties them together (see `Scoring.TotalsAgree`).
   */
  datatype FinishedRound = FinishedRound(
    id: string, courseName: string, date: string, playerName: string,
    holes: seq<RoundHoleData>, totalScore: int, totalPar: int, totalPutts: int)

  /**
   * A friend's replicated profile. `rounds` is an ordered list, not a set.
   * `lastUpdated` is absent (`undefined` in the source) when the entry came from a
   * peer snapshot, which carries no timestamp.
   */
  datatype Friend = Friend(id: string, name: string, lastUpdated: Option<int>, rounds: seq<FinishedRound>)

  /** The whole application state owned by the reducer. */
  datatype GameState = GameState(
    view: ViewState,
    language: Language,
    myBag: seq<ClubName>,
    userName: string,
    golferId: string,
    homeBackgroundImage: Option<string>,
    currentHole: int,
    currentPar: int,
    currentShots: seq<Shot>,
    history: seq<RoundHoleData>,
    pastRounds: seq<FinishedRound>,
    friends: seq<Friend>,
    isEditingMode: bool,
    editingHoleIndex: int,
    maxHoleReached: int)

  const Putter: ClubName := "Putter"
  const Penalty: ClubName := "Penalty"

  /** The standard clubs offered on the bag screen; Putter and Penalty are handled apart. */
  const AllPossibleClubs: seq<ClubName> := [
    "Driver", "3 Wood", "5 Wood", "Hybrid",
    "4 Iron", "5 Iron", "6 Iron", "7 Iron", "8 Iron", "9 Iron",
    "PW", "AW", "SW", "LW"
  ]

  lemma AllPossibleClubsDistinct()
    ensures |AllPossibleClubs| == 14
    ensures forall i, j :: 0 <= i < j < |AllPossibleClubs| ==> AllPossibleClubs[i] != AllPossibleClubs[j]
  {
  }

  lemma PutterAndPenaltyAreNotStandard()
    ensures Putter !in AllPossibleClubs && Penalty !in AllPossibleClubs
  {
  }
}
