/**
 * The bag editor (components/BagSelection.tsx): toggling a club in or out of the bag,
 * adding a custom club, and listing the custom clubs. The Putter is always kept.
 */
module BagSelection {
  import opened Wrappers
  import opened Types
  import Seqs
  import Text

  /** A club other than `club`, as a predicate that can be named in contracts. */
  function Other(club: ClubName): ClubName -> bool {
    c => c != club
  }

  /** The bag with the Putter pushed at the end if it is missing. */
  function WithPutter(bag: seq<ClubName>): (r: seq<ClubName>)
    ensures Putter in r
    ensures Putter in bag ==> r == bag
    ensures Putter !in bag ==> r == bag + [Putter]
  {
    if Putter in bag then bag else bag + [Putter]
  }

  /** Reference definition of `toggleClub`: remove every copy of a present club, push an absent one. */
  function Toggled(bag: seq<ClubName>, club: ClubName): seq<ClubName> {
    WithPutter(if club in bag then Seqs.Filter(Other(club), bag) else bag + [club])
  }

  /** `toggleClub`: the bag it dispatches with `SET_BAG`, built on a copy; `Toggled` is its specification. */
  method ToggleClub(bag: seq<ClubName>, club: ClubName) returns (newBag: seq<ClubName>)
    ensures newBag == Toggled(bag, club)
    ensures Putter in newBag
  {
    newBag := bag;
    if club in newBag {
      newBag := Seqs.Filter(Other(club), newBag);
    } else {
      newBag := newBag + [club];
    }
    if Putter !in newBag {
      newBag := newBag + [Putter];
    }
  }

  /** Toggling a present club other than the Putter takes out every copy of it and nothing else. */
  lemma ToggleRemoves(bag: seq<ClubName>, club: ClubName)
    requires club in bag && club != Putter
    ensures var r := Toggled(bag, club);
      && club !in r
      && forall c :: c != club && c != Putter ==> (c in r <==> c in bag)
  {
  }

  /** Toggling an absent club puts it at the end, after the old bag and before a Putter that had to be added. */
  lemma ToggleAppends(bag: seq<ClubName>, club: ClubName)
    requires club !in bag
    ensures var r := Toggled(bag, club);
      && r[..|bag| + 1] == bag + [club]
      && (Putter in bag || club == Putter ==> r == bag + [club])
  {
  }

  /**
   * Toggling a club other than the Putter leaves the other clubs in their relative order:
   * with the club filtered out, the bag is as before apart from a Putter added at the end.
   */
  lemma ToggleKeepsOrder(bag: seq<ClubName>, club: ClubName)
    requires club != Putter
    ensures Seqs.Filter(Other(club), Toggled(bag, club)) == WithPutter(Seqs.Filter(Other(club), bag))
  {
    if club in bag {
      ToggleKeepsOrderPresent(bag, club);
    } else {
      ToggleKeepsOrderAbsent(bag, club);
    }
  }

  lemma ToggleKeepsOrderPresent(bag: seq<ClubName>, club: ClubName)
    requires club != Putter && club in bag
    ensures Seqs.Filter(Other(club), Toggled(bag, club)) == WithPutter(Seqs.Filter(Other(club), bag))
  {
    var p := Other(club);
    var fb := Seqs.Filter(p, bag);
    Seqs.FilterIdempotent(p, bag);
    if Putter !in fb {
      Seqs.FilterAppend(p, fb, Putter);
    }
  }

  lemma ToggleKeepsOrderAbsent(bag: seq<ClubName>, club: ClubName)
    requires club != Putter && club !in bag
    ensures Seqs.Filter(Other(club), Toggled(bag, club)) == WithPutter(Seqs.Filter(Other(club), bag))
  {
    var p := Other(club);
    var fb := Seqs.Filter(p, bag);
    Seqs.FilterAppend(p, bag, club);
    assert Seqs.Filter(p, bag + [club]) == fb;
    assert Putter in fb <==> Putter in bag;
    if Putter !in bag {
      Seqs.FilterAppend(p, bag + [club], Putter);
    }
  }

  /** Toggling a present Putter keeps it, but moves it to the end, once. */
  lemma TogglePutterMovesItLast(bag: seq<ClubName>)
    requires Putter in bag
    ensures var r := Toggled(bag, Putter);
      && r == Seqs.Filter(Other(Putter), bag) + [Putter]
      && Putter !in r[..|r| - 1]
  {
    var f := Seqs.Filter(Other(Putter), bag);
    assert Putter !in f;
    assert (f + [Putter])[..|f + [Putter]| - 1] == f;
  }

  /**
   * `addCustomClub`: the bag to dispatch, if any, and whether the input is cleared.
   * A blank name does nothing; a name already in the bag only clears the input.
   */
  method AddCustomClub(bag: seq<ClubName>, customClub: string) returns (dispatched: Option<seq<ClubName>>, cleared: bool)
    ensures cleared <==> Text.Trim(customClub) != ""
    ensures dispatched.Some? <==> Text.Trim(customClub) != "" && Text.Trim(customClub) !in bag
    ensures dispatched.Some? ==> dispatched.value == bag + [Text.Trim(customClub)]
  {
    dispatched := None;
    cleared := false;
    var name := Text.Trim(customClub);
    if name != "" {
      var newBag := bag;
      if name !in newBag {
        newBag := newBag + [name];
        dispatched := Some(newBag);
      }
      cleared := true;
    }
  }

  /** A name that passes the blank test is a proper club name: not blank, no surrounding whitespace. */
  lemma AddedNameIsTrimmed(customClub: string)
    requires Text.Trim(customClub) != ""
    ensures var name := Text.Trim(customClub);
      && !Text.IsWhitespace(name[0]) && !Text.IsWhitespace(name[|name| - 1])
      && (exists k :: 0 <= k < |customClub| && !Text.IsWhitespace(customClub[k]))
  {
    Text.TrimEmptyIff(customClub);
  }

  predicate IsCustom(c: ClubName) {
    c !in AllPossibleClubs && c != Putter && c != Penalty
  }

  /**
   * `currentCustomClubs`: the bag entries that are neither standard clubs, Putter nor
   * Penalty, each as often as in the bag (the order is `CustomClubsInBagOrder`).
   */
  function CurrentCustomClubs(bag: seq<ClubName>): (r: seq<ClubName>)
    ensures forall c :: c in r <==> c in bag && c !in AllPossibleClubs && c != Putter && c != Penalty
    ensures forall c :: multiset(r)[c] == if IsCustom(c) then multiset(bag)[c] else 0
    ensures |r| <= |bag|
  {
    Seqs.FilterMultiplicity(IsCustom, bag);
    Seqs.Filter(IsCustom, bag)
  }

  /**
   * The custom list keeps bag order: the list of a bag split in two is the first part's
   * list followed by the second's.
   */
  lemma CustomClubsInBagOrder(a: seq<ClubName>, b: seq<ClubName>)
    ensures CurrentCustomClubs(a + b) == CurrentCustomClubs(a) + CurrentCustomClubs(b)
  {
    Seqs.FilterConcat(IsCustom, a, b);
  }

  /** A freshly added custom name shows up in the custom list, unless it is Putter or Penalty. */
  lemma AddedCustomIsListed(bag: seq<ClubName>, name: ClubName)
    requires name !in AllPossibleClubs && name != Putter && name != Penalty
    ensures CurrentCustomClubs(bag + [name]) == CurrentCustomClubs(bag) + [name]
  {
    Seqs.FilterAppend(IsCustom, bag, name);
  }
}
