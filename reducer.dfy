/**
 * The app's single state owner (context/GameContext.tsx): `gameReducer` as a pure
 * function from a state and an action to the next state, the initial state, the
 * profile snapshot pushed to friends and the filter on incoming peer messages.
 * `Date.now()` and the random suffix of a fresh golfer id are parameters (`Env`).
 */
module GameReducer {
  import opened Wrappers
  import opened Types
  import Seqs
  import Text
  import Scoring

  /** What the reducer reads from outside: the clock and the random part of a new id. */
  datatype Env = Env(now: int, randomSuffix: string)

  /**
   * A saved state as `JSON.parse` returns it: every field may be missing (`None`).
   * `homeBackgroundImage` is itself nullable, hence `Option<Option<string>>`.
   */
  datatype SavedState = SavedState(
    view: Option<ViewState>,
    language: Option<Language>,
    myBag: Option<seq<ClubName>>,
    userName: Option<string>,
    golferId: Option<string>,
    homeBackgroundImage: Option<Option<string>>,
    currentHole: Option<int>,
    currentPar: Option<int>,
    currentShots: Option<seq<Shot>>,
    history: Option<seq<RoundHoleData>>,
    pastRounds: Option<seq<FinishedRound>>,
    friends: Option<seq<Friend>>,
    isEditingMode: Option<bool>,
    editingHoleIndex: Option<int>,
    maxHoleReached: Option<int>)

  /**
   * The actions dispatched in the app. `UpdatePastRound` is dispatched by the archive
   * editor but is not one of the reducer's declared actions.
   */
  datatype Action =
    | LoadState(saved: SavedState)
    | SetBag(bag: seq<ClubName>)
    | SetView(view: ViewState)
    | SetLanguage(language: Language)
    | SetUserName(name: string)
    | SetHomeBackground(image: Option<string>)
    | StartHole(hole: int, par: int)
    | SetCurrentPar(par: int)
    | AddShot(shot: Shot)
    | UpdateShot(index: int, shot: Shot)
    | DeleteShot(index: int)
    | FinishHole(finished: RoundHoleData)
    | EditHole(index: int, data: RoundHoleData)
    | ArchiveRound(courseName: string, date: string)
    | ResumeGame
    | ResetGame
    | DeleteRound(index: int)
    | ClearHistory
    | AddFriend(friend: Friend)
    | RemoveFriend(id: string)
    | UpdatePastRound(roundId: string, updatedRound: FinishedRound)

  const DefaultBag: seq<ClubName> := ["Driver", "Hybrid", "7 Iron", "8 Iron", "9 Iron", "PW", "SW", Putter]

  /** `initialState`; its golfer id is `GF-` followed by the random suffix. */
  function InitialState(randomSuffix: string): (s: GameState)
    ensures s.golferId != ""
  {
    GameState(
      view := HomeView, language := ZhTw, myBag := DefaultBag, userName := "Golfer",
      golferId := "GF-" + randomSuffix, homeBackgroundImage := None,
      currentHole := 1, currentPar := 4, currentShots := [], history := [],
      pastRounds := [], friends := [], isEditingMode := false, editingHoleIndex := -1,
      maxHoleReached := 1)
  }

  /** Merging one field of a saved state over the initial one: the saved value when present. */
  function Overlay<T>(saved: Option<T>, base: T): T {
    match saved
    case Some(v) => v
    case None => base
  }

  /** Assigning slot `i` of a copy of the list: overwrites slot `i`; `i == |xs|` appends. */
  function AssignAt(xs: seq<RoundHoleData>, i: int, h: RoundHoleData): seq<RoundHoleData> {
    if 0 <= i < |xs| then xs[i := h] else if i == |xs| then xs + [h] else xs
  }

  /** Some friend in the list has this id. */
  predicate HasFriend(friends: seq<Friend>, id: string) {
    exists k :: 0 <= k < |friends| && friends[k].id == id
  }

  /** A friend whose id is not `id`, as a predicate that can be named in contracts. */
  function OtherId(id: string): Friend -> bool {
    (f: Friend) => f.id != id
  }

  /** Every entry with the id of `p` becomes `p` stamped with `now`; the others stay. */
  function ReplaceFriend(friends: seq<Friend>, p: Friend, now: int): (r: seq<Friend>)
    ensures |r| == |friends|
    ensures forall k :: 0 <= k < |r| ==> r[k].id == friends[k].id
  {
    seq(|friends|, i requires 0 <= i < |friends| =>
      if friends[i].id == p.id then p.(lastUpdated := Some(now)) else friends[i])
  }

  /**
   * `gameReducer`. Besides a load, which replaces the whole state, each field is owned by a
   * few actions: only a load sets the golfer id or switches edit mode on, only archiving,
   * deleting and clearing touch the archive, and only adding and removing touch the friends.
   */
  function Reduce(s: GameState, a: Action, env: Env): (r: GameState)
    ensures !a.LoadState? ==> r.golferId == s.golferId
    ensures r.isEditingMode ==> s.isEditingMode || a.LoadState?
    ensures r.pastRounds != s.pastRounds ==> a.LoadState? || a.ArchiveRound? || a.DeleteRound? || a.ClearHistory?
    ensures r.friends != s.friends ==> a.LoadState? || a.AddFriend? || a.RemoveFriend?
  {
    match a
    case LoadState(p) =>
      var init := InitialState(env.randomSuffix);
      GameState(
        view := Overlay(p.view, init.view),
        language := Overlay(p.language, init.language),
        myBag := Overlay(p.myBag, init.myBag),
        userName := Overlay(p.userName, init.userName),
        golferId := if p.golferId.Some? && p.golferId.value != "" then p.golferId.value else init.golferId,
        homeBackgroundImage := Overlay(p.homeBackgroundImage, init.homeBackgroundImage),
        currentHole := Overlay(p.currentHole, init.currentHole),
        currentPar := Overlay(p.currentPar, init.currentPar),
        currentShots := Overlay(p.currentShots, init.currentShots),
        history := Overlay(p.history, init.history),
        pastRounds := Overlay(p.pastRounds, init.pastRounds),
        friends := Overlay(p.friends, init.friends),
        isEditingMode := Overlay(p.isEditingMode, init.isEditingMode),
        editingHoleIndex := Overlay(p.editingHoleIndex, init.editingHoleIndex),
        maxHoleReached := Overlay(p.maxHoleReached, init.maxHoleReached))
    case SetBag(bag) => s.(myBag := bag)
    case SetView(v) => s.(view := v)
    case SetLanguage(l) => s.(language := l)
    case SetUserName(n) => s.(userName := n)
    case SetHomeBackground(img) => s.(homeBackgroundImage := img)
    case StartHole(hole, par) =>
      s.(currentHole := hole, currentPar := par, currentShots := [], view := PlayView, isEditingMode := false)
    case SetCurrentPar(par) => s.(currentPar := par)
    case AddShot(shot) => s.(currentShots := s.currentShots + [shot])
    case FinishHole(h) =>
      if s.isEditingMode && s.editingHoleIndex != -1 then
        s.(history := AssignAt(s.history, s.editingHoleIndex, h), isEditingMode := false,
           editingHoleIndex := -1, view := AnalysisView)
      else
        var next := s.currentHole + 1;
        s.(history := s.history + [h], maxHoleReached := next, currentHole := next, currentShots := [],
           view := if next > 18 then AnalysisView else HoleSetupView)
    case ArchiveRound(courseName, date) =>
      var round := FinishedRound(
        id := "round_" + Text.IntToString(env.now), courseName := courseName, date := date,
        playerName := s.userName, holes := s.history,
        totalScore := Scoring.SumScore(s.history), totalPar := Scoring.SumPar(s.history),
        totalPutts := Scoring.SumPutts(s.history));
      s.(currentHole := 1, currentPar := 4, currentShots := [], history := [],
         pastRounds := [round] + s.pastRounds, view := PastGamesView)
    case AddFriend(p) =>
      if HasFriend(s.friends, p.id) then s.(friends := ReplaceFriend(s.friends, p, env.now))
      else s.(friends := [p] + s.friends)
    case RemoveFriend(id) => s.(friends := Seqs.Filter(OtherId(id), s.friends))
    case ResumeGame => s.(view := if |s.history| >= 18 then AnalysisView else HoleSetupView)
    case ResetGame => s.(view := HomeView, currentHole := 1, currentShots := [], history := [], maxHoleReached := 1)
    case DeleteRound(i) => s.(pastRounds := Seqs.RemoveIndex(s.pastRounds, i))
    case ClearHistory => s.(pastRounds := [])
    // UPDATE_SHOT, DELETE_SHOT and EDIT_HOLE have no case, UPDATE_PAST_ROUND is not an action at all:
    // they reach `default` and leave the state as it is.
    case UpdateShot(_, _) => s
    case DeleteShot(_) => s
    case EditHole(_, _) => s
    case UpdatePastRound(_, _) => s
  }

  // ----- Persistence: what `localStorage` holds is the whole state -----

  /** The saved form of a state, every field present (`JSON.stringify(state)` read back). */
  function Saved(t: GameState): SavedState {
    SavedState(Some(t.view), Some(t.language), Some(t.myBag), Some(t.userName), Some(t.golferId),
      Some(t.homeBackgroundImage), Some(t.currentHole), Some(t.currentPar), Some(t.currentShots),
      Some(t.history), Some(t.pastRounds), Some(t.friends), Some(t.isEditingMode),
      Some(t.editingHoleIndex), Some(t.maxHoleReached))
  }

  /** Loading a complete saved state restores it exactly, whatever the state before, as long as it has an id. */
  lemma LoadSavedRestores(s: GameState, t: GameState, env: Env)
    requires t.golferId != ""
    ensures Reduce(s, LoadState(Saved(t)), env) == t
  {
  }

  /**
   * `LOAD_STATE` overlays the saved fields on the initial state and never yields an
   * empty golfer id: a missing or empty saved id falls back to the generated `GF-` one.
   */
  lemma LoadStateGolferId(s: GameState, p: SavedState, env: Env)
    ensures var r := Reduce(s, LoadState(p), env);
      && r.golferId != ""
      && (r.golferId == if p.golferId.Some? && p.golferId.value != "" then p.golferId.value
                        else "GF-" + env.randomSuffix)
      && (p.pastRounds.None? ==> r.pastRounds == [])
      && (p.friends.None? ==> r.friends == [])
      && (p.myBag.None? ==> r.myBag == DefaultBag)
      && r == Reduce(InitialState(env.randomSuffix), LoadState(p), env)
  {
  }

  /** A non-empty golfer id stays non-empty under every action. */
  lemma GolferIdStaysNonEmpty(s: GameState, a: Action, env: Env)
    requires s.golferId != ""
    ensures Reduce(s, a, env).golferId != ""
  {
  }

  // ----- Shots and holes -----

  /** `ADD_SHOT` appends exactly one shot and changes nothing else. */
  lemma AddShotAppends(s: GameState, shot: Shot, env: Env)
    ensures var r := Reduce(s, AddShot(shot), env);
      && r.currentShots == s.currentShots + [shot]
      && r.(currentShots := s.currentShots) == s
  {
  }

  /** Actions without a case, and `UPDATE_PAST_ROUND`, leave the state as it is. */
  lemma UnhandledActionsAreNoOps(s: GameState, a: Action, env: Env)
    requires a.UpdateShot? || a.DeleteShot? || a.EditHole? || a.UpdatePastRound?
    ensures Reduce(s, a, env) == s
  {
  }

  /**
   * `FINISH_HOLE` outside edit mode appends the hole, moves both the current and the
   * furthest hole one on, clears the shots, and goes to the analysis exactly after hole 18.
   */
  lemma FinishHoleAdvances(s: GameState, h: RoundHoleData, env: Env)
    requires !(s.isEditingMode && s.editingHoleIndex != -1)
    ensures var r := Reduce(s, FinishHole(h), env);
      && r.history == s.history + [h]
      && r.currentHole == r.maxHoleReached == s.currentHole + 1
      && r.currentShots == []
      && (r.view == AnalysisView <==> s.currentHole + 1 > 18)
      && (r.view != AnalysisView ==> r.view == HoleSetupView)
      && r.pastRounds == s.pastRounds && r.friends == s.friends
  {
  }

  /**
   * `FINISH_HOLE` in edit mode overwrites only the edited slot, keeps the length,
   * leaves edit mode and shows the analysis.
   */
  lemma FinishHoleInEditMode(s: GameState, h: RoundHoleData, env: Env)
    requires s.isEditingMode && 0 <= s.editingHoleIndex < |s.history|
    ensures var r := Reduce(s, FinishHole(h), env);
      && |r.history| == |s.history|
      && r.history[s.editingHoleIndex] == h
      && (forall k :: 0 <= k < |s.history| && k != s.editingHoleIndex ==> r.history[k] == s.history[k])
      && !r.isEditingMode && r.editingHoleIndex == -1 && r.view == AnalysisView
      && r.currentHole == s.currentHole && r.currentShots == s.currentShots
  {
  }

  /** No action turns edit mode on: only a loaded state can be in edit mode. */
  lemma EditModeOnlyFromLoad(s: GameState, a: Action, env: Env)
    requires !s.isEditingMode && !a.LoadState?
    ensures !Reduce(s, a, env).isEditingMode
  {
  }

  // ----- Archiving and deleting rounds -----

  /**
   * `ARCHIVE_ROUND` puts one new round in front whose holes are the history and whose
   * totals are its sums, keeps the older rounds after it, and starts over at hole 1, par 4.
   */
  lemma ArchiveRoundPrepends(s: GameState, courseName: string, date: string, env: Env)
    ensures var r := Reduce(s, ArchiveRound(courseName, date), env);
      && |r.pastRounds| == |s.pastRounds| + 1
      && r.pastRounds[1..] == s.pastRounds
      && r.pastRounds[0].holes == s.history
      && Scoring.TotalsAgree(r.pastRounds[0])
      && r.pastRounds[0].courseName == courseName && r.pastRounds[0].date == date
      && r.pastRounds[0].playerName == s.userName
      && r.history == [] && r.currentShots == []
      && r.currentHole == 1 && r.currentPar == 4 && r.view == PastGamesView
      && r.friends == s.friends
  {
  }

  predicate AllTotalsAgree(rounds: seq<FinishedRound>) {
    forall k :: 0 <= k < |rounds| ==> Scoring.TotalsAgree(rounds[k])
  }

  /** Every archived round's totals are its sums, for as long as nothing is loaded from storage. */
  lemma TotalsAgreeIsPreserved(s: GameState, a: Action, env: Env)
    requires AllTotalsAgree(s.pastRounds) && !a.LoadState?
    ensures AllTotalsAgree(Reduce(s, a, env).pastRounds)
  {
    if a.DeleteRound? {
      var r := Seqs.RemoveIndex(s.pastRounds, a.index);
      assert forall k :: 0 <= k < |r| ==> r[k] == s.pastRounds[k] || r[k] == s.pastRounds[k + 1];
    }
  }

  /** `DELETE_ROUND i` drops exactly the round at `i`; any other index changes nothing. */
  lemma DeleteRoundDropsOne(s: GameState, i: int, env: Env)
    ensures var r := Reduce(s, DeleteRound(i), env);
      && (0 <= i < |s.pastRounds| ==> r.pastRounds == s.pastRounds[..i] + s.pastRounds[i + 1..])
      && (!(0 <= i < |s.pastRounds|) ==> r == s)
      && r == s.(pastRounds := r.pastRounds)
  {
    var r := Seqs.RemoveIndex(s.pastRounds, i);
    if 0 <= i < |s.pastRounds| {
      assert r == s.pastRounds[..i] + s.pastRounds[i + 1..];
    }
  }

  /** `RESET_GAME` clears the round in progress and leaves the archive and the friends alone. */
  lemma ResetGameKeepsArchive(s: GameState, env: Env)
    ensures var r := Reduce(s, ResetGame, env);
      && r.pastRounds == s.pastRounds && r.friends == s.friends
      && r.history == [] && r.currentShots == [] && r.currentHole == 1 && r.maxHoleReached == 1
      && r.view == HomeView
  {
  }

  // ----- The friend roster -----

  /** No two friends share an id. */
  predicate UniqueIds(friends: seq<Friend>) {
    forall i, j :: 0 <= i < j < |friends| ==> friends[i].id != friends[j].id
  }

  /**
   * `ADD_FRIEND` with a known id replaces every entry with that id by the payload,
   * stamped with the current time, and keeps length and order; an unknown id is put in
   * front. It never merges rounds: the payload's rounds replace the old ones.
   */
  lemma AddFriendReplacesOrPrepends(s: GameState, p: Friend, env: Env)
    ensures var r := Reduce(s, AddFriend(p), env);
      && (HasFriend(s.friends, p.id) ==>
            && |r.friends| == |s.friends|
            && forall k :: 0 <= k < |s.friends| ==>
                 r.friends[k] == if s.friends[k].id == p.id then p.(lastUpdated := Some(env.now)) else s.friends[k])
      && (!HasFriend(s.friends, p.id) ==> r.friends == [p] + s.friends)
      && r.pastRounds == s.pastRounds && r.history == s.history
  {
  }

  /** Id uniqueness of the roster survives every action but `LOAD_STATE`. */
  lemma UniqueIdsPreserved(s: GameState, a: Action, env: Env)
    requires UniqueIds(s.friends) && !a.LoadState?
    ensures UniqueIds(Reduce(s, a, env).friends)
  {
    if a.AddFriend? {
      if !HasFriend(s.friends, a.friend.id) {
        ConsUnique(a.friend, s.friends);
      }
    } else if a.RemoveFriend? {
      FilterKeepsUnique(s.friends, a.id);
    } else {
      FriendsUnchanged(s, a, env);
    }
  }

  /** Only `ADD_FRIEND`, `REMOVE_FRIEND` and `LOAD_STATE` touch the roster. */
  lemma FriendsUnchanged(s: GameState, a: Action, env: Env)
    requires !a.LoadState? && !a.AddFriend? && !a.RemoveFriend?
    ensures Reduce(s, a, env).friends == s.friends
  {
  }

  /** A friend whose id no entry of a roster with unique ids carries can be put in front. */
  lemma ConsUnique(x: Friend, friends: seq<Friend>)
    requires UniqueIds(friends)
    requires forall k :: 0 <= k < |friends| ==> friends[k].id != x.id
    ensures UniqueIds([x] + friends)
  {
    var r := [x] + friends;
    forall i, j | 0 <= i < j < |r| ensures r[i].id != r[j].id {
      assert r[j] == friends[j - 1];
      if i > 0 {
        assert r[i] == friends[i - 1];
      }
    }
  }

  lemma {:induction false} FilterKeepsUnique(friends: seq<Friend>, id: string)
    requires UniqueIds(friends)
    ensures UniqueIds(Seqs.Filter(OtherId(id), friends))
  {
    if friends != [] {
      var p := OtherId(id);
      var rest := friends[1..];
      var tail := Seqs.Filter(p, rest);
      FilterKeepsUnique(rest, id);
      assert UniqueIds(rest) by {
        forall i, j | 0 <= i < j < |rest| ensures rest[i].id != rest[j].id {
          assert rest[i] == friends[i + 1] && rest[j] == friends[j + 1];
        }
      }
      forall k | 0 <= k < |tail| ensures tail[k].id != friends[0].id {
        assert tail[k] in rest;
        var m :| 0 <= m < |rest| && rest[m] == tail[k];
        assert friends[m + 1] == tail[k];
      }
      if p(friends[0]) {
        ConsUnique(friends[0], tail);
      } else {
        assert [] + tail == tail;
      }
    }
  }

  /**
   * `REMOVE_FRIEND` drops exactly the entries with that id: the others stay in their
   * order (the filter is order-preserving, `Seqs.FilterConcat`), each as often as before,
   * and no other field changes.
   */
  lemma RemoveFriendDropsId(s: GameState, id: string, env: Env)
    ensures var r := Reduce(s, RemoveFriend(id), env);
      && r.friends == Seqs.Filter(OtherId(id), s.friends)
      && (forall f :: f in r.friends <==> f in s.friends && f.id != id)
      && (forall f :: multiset(r.friends)[f] == if f.id == id then 0 else multiset(s.friends)[f])
      && r == s.(friends := r.friends)
  {
    var r := Reduce(s, RemoveFriend(id), env);
    assert r == s.(friends := Seqs.Filter(OtherId(id), s.friends));
    FilteredRoster(s.friends, r.friends, id);
  }

  /** The filtered roster: the entries without the id, each as often as before. */
  lemma FilteredRoster(friends: seq<Friend>, kept: seq<Friend>, id: string)
    requires kept == Seqs.Filter(OtherId(id), friends)
    ensures forall f :: f in kept <==> f in friends && f.id != id
    ensures forall f :: multiset(kept)[f] == if f.id == id then 0 else multiset(friends)[f]
  {
    Seqs.FilterMultiplicity(OtherId(id), friends);
  }

  /** With unique ids, the roster has exactly one entry for the added id afterwards. */
  lemma AddFriendSingleEntry(s: GameState, p: Friend, env: Env)
    requires UniqueIds(s.friends)
    ensures var r := Reduce(s, AddFriend(p), env).friends;
      && UniqueIds(r)
      && exists k :: 0 <= k < |r| && r[k].id == p.id && r[k].rounds == p.rounds && r[k].name == p.name
  {
    UniqueIdsPreserved(s, AddFriend(p), env);
    var r := Reduce(s, AddFriend(p), env).friends;
    if HasFriend(s.friends, p.id) {
      var k :| 0 <= k < |s.friends| && s.friends[k].id == p.id;
      assert r[k].id == p.id;
    } else {
      assert r[0] == p;
    }
  }

  // ----- Peer sync: the outgoing snapshot and the incoming filter -----

  /** The profile a device shares: its id, its name and at most its ten newest rounds. */
  datatype Profile = Profile(id: string, name: string, rounds: seq<FinishedRound>)

  /** The profile sent to peers: own id and name and the ten most recent rounds. */
  function Snapshot(s: GameState): (p: Profile)
    ensures p.id == s.golferId && p.name == s.userName
    ensures |p.rounds| == if |s.pastRounds| < 10 then |s.pastRounds| else 10
    ensures p.rounds == s.pastRounds[..|p.rounds|]
  {
    Profile(s.golferId, s.userName, if |s.pastRounds| < 10 then s.pastRounds else s.pastRounds[..10])
  }

  /** Data arriving on a peer connection: nothing, or an object with an optional `type` tag. */
  datatype PeerData = NoData | Message(tag: Option<string>, payload: Friend)

  const SyncProfileTag := "SYNC_PROFILE"

  /** The sender's snapshot travels as a friend record with no `lastUpdated`. */
  function SyncMessage(s: GameState): PeerData {
    var p := Snapshot(s);
    Message(Some(SyncProfileTag), Friend(p.id, p.name, None, p.rounds))
  }

  /** Only data tagged `SYNC_PROFILE` becomes an `ADD_FRIEND` of its payload. */
  function IncomingAction(data: PeerData): (r: Option<Action>)
    ensures r.Some? <==> data.Message? && data.tag == Some(SyncProfileTag)
    ensures r.Some? ==> r.value == AddFriend(data.payload)
  {
    match data
    case Message(Some(tag), payload) => if tag == SyncProfileTag then Some(AddFriend(payload)) else None
    case _ => None
  }

  /**
   * A receiver that applies the sender's sync message ends up with one entry for the
   * sender (if its ids were unique), carrying the sender's name and newest rounds.
   */
  lemma SyncDeliversSnapshot(sender: GameState, receiver: GameState, env: Env)
    requires UniqueIds(receiver.friends)
    ensures var a := IncomingAction(SyncMessage(sender));
      && a.Some?
      && var r := Reduce(receiver, a.value, env).friends;
      && UniqueIds(r)
      && exists k :: 0 <= k < |r| && r[k].id == sender.golferId && r[k].name == sender.userName
           && r[k].rounds == Snapshot(sender).rounds
  {
    var p := Snapshot(sender);
    AddFriendSingleEntry(receiver, Friend(p.id, p.name, None, p.rounds), env);
  }
}
