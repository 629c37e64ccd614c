# Golf round tracker: a verified model of its core

The app records a round of golf, one shot at a time. The set-up screen chooses the
clubs in the bag. While a hole is played, each tap on a club records a stroke, and
finishing the hole files a score card entry: strokes, par, putts and green in
regulation. A finished round can be archived, edited afterwards, inspected for club
usage and exported as CSV. Golfers exchange profiles in two ways: as a base64 "friend
code" that can be pasted with any surrounding text, and as a sync message over a
peer-to-peer connection.

This project models the app's state machine and the logic of its screens in Dafny:

- **`GameReducer`** (`reducer.dfy`): the whole reducer over the game state, action by
  action. It also covers restoring a saved state, the profile snapshot sent to peers
  and the filter on incoming peer messages.
- **`ShareCode`** (`sharecode.dfy`), built on **`Utf8`** (RFC 3629, sections 3 and 4)
  and **`Base64`** (the RFC 4648 alphabet, section 4, with the forgiving decoder that
  browsers implement):
  - the friend-code encoder and the noise-stripping decoder;
  - taking the longest base64 run out of pasted text;
  - the add-friend handler, the own-code generator and the "last updated" label.
- **`PastGames`** (`pastgames.dfy`):
  - the club-usage statistics, as a method with loops proved against a specification;
  - the score badges;
  - the helpers of the archive editor and the save of an archive edit.
- **`PlayHole`** (`playhole.dfy`): the per-hole derivations, the shot a club tap
  records, the payload of "finish hole", the shot-edit form and the two club lists the
  screen offers.
- **`Analysis`** (`analysis.dfy`): the round totals, the score-to-par label, the CSV
  export (a method with loops proved against the text it must produce), archiving and
  resuming.
- **`BagSelection`** (`bagselection.dfy`): toggling a club and adding a custom club,
  both as methods, and the list of custom clubs.
- **`Types`**, **`Scoring`**, **`Seqs`**, **`Text`** and **`Wrappers`**: the data
  model, the sums over holes, sequence helpers standing for the JavaScript array
  methods, the string operations `trim`, `String(n)` and `parseInt`, and
  `Option`/`Result`.

The clock (`Date.now()`) and the random suffix of a fresh golfer id are parameters:
`GameReducer.Env` carries both. JSON printing and parsing are function parameters
(`stringify`, `parse`), and the model only assumes that parsing reads back what
printing wrote. The calendar date a caller passes in is a plain string.

### Behaviour of the code worth knowing


- Adding a friend whose id is already known **replaces** that entry, rounds included.
  The rounds of the two entries are not merged.
- The reducer has no case for `UPDATE_SHOT`, `DELETE_SHOT`, `EDIT_HOLE` or
  `UPDATE_PAST_ROUND`: each of them leaves the state unchanged.
  - Saving an archive edit and saving a shot edit during play dispatch two of these
    actions, so neither edit changes the state.
  - This is proved: `GameReducer.UnhandledActionsAreNoOps` and `PlayHole.SavedEditIsDropped`.

## Model

| member | source | states |
|---|---|---|
| Types.AllPossibleClubsDistinct | types.ts:63-67 | the standard club list names no club twice |
| Types.PutterAndPenaltyAreNotStandard | types.ts:63-67 | Putter and Penalty are not among the standard clubs, so the screens append them separately |
| GameReducer.Reduce | context/GameContext.tsx:47-89 | only a load changes the golfer id or switches edit mode on; only loading, archiving, deleting and clearing change the archive; only loading, adding and removing change the friends |
| GameReducer.InitialState | context/GameContext.tsx:29-45 | a fresh state always carries a non-empty golfer id, whatever the random suffix |
| GameReducer.LoadSavedRestores | context/GameContext.tsx:49 | loading a state that was saved whole gives back exactly that state |
| GameReducer.LoadStateGolferId | context/GameContext.tsx:49 | a load does not depend on the previous state; the golfer id is the saved one when it is non-empty, else a fresh one; a missing archive, friend list or bag falls back to the initial one |
| GameReducer.GolferIdStaysNonEmpty | context/GameContext.tsx:47-89 | no action leaves the golfer id empty |
| GameReducer.AddShotAppends | context/GameContext.tsx:57 | a shot is appended to the current hole's shots and nothing else changes |
| GameReducer.UnhandledActionsAreNoOps | context/GameContext.tsx:87 | UPDATE_SHOT, DELETE_SHOT, EDIT_HOLE and UPDATE_PAST_ROUND return the state unchanged |
| GameReducer.FinishHoleAdvances | context/GameContext.tsx:64-66 | outside edit mode the hole is appended to the history, the shots are cleared, the hole number advances and the view moves to hole set-up |
| GameReducer.FinishHoleInEditMode | context/GameContext.tsx:59-62 | in edit mode the hole overwrites the edited slot, edit mode ends and the view returns to the analysis |
| GameReducer.EditModeOnlyFromLoad | context/GameContext.tsx:47-89 | only loading a saved state can switch edit mode on |
| GameReducer.ArchiveRoundPrepends | context/GameContext.tsx:68-74 | archiving puts a new round first in the archive, with totals equal to the history's sums, and clears the current round |
| GameReducer.TotalsAgreeIsPreserved | context/GameContext.tsx:68-86 | if every archived round's totals equal the sums over its holes, this stays true after any action except a load |
| GameReducer.DeleteRoundDropsOne | context/GameContext.tsx:85 | deleting removes exactly the round at that index and changes no other field; an out-of-range index changes nothing |
| GameReducer.ResetGameKeepsArchive | context/GameContext.tsx:84 | a reset clears the current round, returns home and keeps the archive and the friends |
| GameReducer.AddFriendReplacesOrPrepends | context/GameContext.tsx:75-81 | a known id has its entry replaced in place, with a new time stamp; an unknown id is prepended |
| GameReducer.UniqueIdsPreserved | context/GameContext.tsx:75-82 | if the friend list has distinct ids, it still does after any action except a load |
| GameReducer.RemoveFriendDropsId | context/GameContext.tsx:82 | the friend list becomes the entries without that id, in their order and each as often as before, and no other field changes |
| GameReducer.AddFriendSingleEntry | context/GameContext.tsx:75-81 | after adding, exactly one friend carries the added id |
| GameReducer.Snapshot | context/GameContext.tsx:134-139 | the profile carries the golfer's id and name and the first ten archived rounds (all of them when there are fewer) |
| GameReducer.IncomingAction | context/GameContext.tsx:126-129 | a peer message becomes an ADD_FRIEND action exactly when it is tagged as a profile sync, and then carries its payload |
| GameReducer.SyncDeliversSnapshot | context/GameContext.tsx:126-144 | the receiver of a sync message ends up with exactly one entry for the sender, holding the sender's snapshot |
| Utf8.Encode | components/Social.tsx:37 | a string of n characters takes between n and 4n bytes |
| Utf8.Decode | components/Social.tsx:45 | a decoded string has no more characters than the bytes it came from, and no bytes at all decode to the empty string |
| Utf8.EncodeChar | components/Social.tsx:37 | a character becomes one to four bytes |
| Utf8.DecodeEncode | components/Social.tsx:37-45 | decoding the UTF-8 encoding of a string gives back the string |
| Utf8.EncodeDecode | components/Social.tsx:45 | bytes that decode are exactly the encoding of what they decode to |
| Base64.ForgivingDecode | components/Social.tsx:45 | the input is accepted exactly when, once ASCII whitespace is removed and, at a length that is a multiple of four, one or two final `=` are dropped, it uses only the alphabet and its length is not 1 modulo 4 |
| Base64.Encode | components/Social.tsx:37 | the encoding has a length that is a multiple of four and uses only the alphabet and `=` |
| Base64.DecodeEncode | components/Social.tsx:37-45 | decoding an encoding gives back the bytes |
| Base64.DecodeEncodeBody | components/Social.tsx:42-45 | the encoding with its `=` padding removed decodes to the same bytes |
| Base64.DecodeRejectsLengthOneModFour | components/Social.tsx:45 | an input whose count of non-whitespace characters is 1 modulo 4 is rejected |
| ShareCode.Utf8ToB64 | components/Social.tsx:36-38 | a share code has a length that is a multiple of four and only base64 characters |
| ShareCode.Clean | components/Social.tsx:42 | the cleaned input holds only base64 characters and `=` |
| ShareCode.B64ToUtf8 | components/Social.tsx:40-47 | decoding succeeds exactly when the cleaned input is accepted by the base64 decoder and its bytes are well-formed UTF-8; every failure ends in the one error message; on success the cleaned input decodes to the result's UTF-8 bytes |
| ShareCode.B64RoundTrip | components/Social.tsx:36-47 | decoding a share code gives back the encoded string |
| ShareCode.NoiseIsIgnored | components/Social.tsx:42 | characters outside the base64 alphabet, anywhere in the input, do not change the decoding |
| ShareCode.CleanIsIdempotent | components/Social.tsx:42 | decoding already-cleaned input gives the same result as decoding the raw input |
| ShareCode.Runs | components/Social.tsx:109 | every run is non-empty and made of base64 alphabet characters |
| ShareCode.Matches | components/Social.tsx:109 | the matches are exactly the maximal runs that are at least 30 characters long |
| ShareCode.Longest | components/Social.tsx:110-111 | the chosen match is at least as long as every earlier one and longer than every later one |
| ShareCode.CodeToDecode | components/Social.tsx:109-111 | without a match the whole input is decoded; otherwise a maximal run of at least 30 characters |
| ShareCode.ExtractEmbedded | components/Social.tsx:109-111 | a run of at least 30 characters set apart from its surroundings, with no longer run around it, is picked out of the text |
| ShareCode.PastedCodeDecodes | components/Social.tsx:109-114 | a share code pasted inside other text decodes to the encoded string |
| ShareCode.BareCodeDecodes | components/Social.tsx:109-114 | a bare share code goes through extraction and decodes to the encoded string, whatever its length |
| ShareCode.RawInput | components/Social.tsx:103 | a non-empty deep-link code is used as it is; otherwise the typed text, trimmed |
| ShareCode.HandleAddFriend | components/Social.tsx:102-137 | nothing happens exactly when the input is empty; a friend is added exactly when the extracted code decodes and parses to a value with a non-empty id and name; the added friend carries the decoded id, name and rounds and the current time, and the update flag holds exactly when the id is known |
| ShareCode.AddDecoded | components/Social.tsx:114-132 | a friend is added exactly when the decoded text parses to a value with a non-empty id and name, and any other outcome is an invalid code; the entry carries that id, name, rounds (none when missing) and the current time |
| ShareCode.InvalidCodesRejected | components/Social.tsx:113-132 | an input that does not decode, does not parse, or lacks an id or a name is reported as an invalid code |
| ShareCode.GenerateMyCode | components/Social.tsx:49-56 | the own code decodes to the printed snapshot |
| ShareCode.FriendCodeRoundTrip | components/Social.tsx:49-137 | a golfer's own code, received verbatim as the link's code, adds that golfer with their id, name and first ten rounds |
| ShareCode.TypedCodeRoundTrip | components/Social.tsx:49-137 | the same code typed into the field, with any blanks around it, adds the same golfer |
| ShareCode.GetRelativeTime | components/Social.tsx:139-144 | under a minute reads "just now"; under an hour reads whole minutes, 1 to 59; later reads the date; a missing time is an invalid date |
| Scoring.SumsConcat | components/Analysis.tsx:12-14 | the score, par and putt sums over two hole lists add up |
| Scoring.SumsUpdate | context/GameContext.tsx:59-62 | overwriting one hole changes each sum by the difference between the new hole and the old one |
| Scoring.AllShotsConcat | components/PastGames.tsx:48 | the shots of two hole lists are the shots of the first followed by the shots of the second |
| PastGames.Count | components/PastGames.tsx:50-52 | a club is counted at most once per shot |
| PastGames.SortByCount | components/PastGames.tsx:55 | the entries are a permutation of the input, ordered by non-increasing count |
| PastGames.ClubStats | components/PastGames.tsx:47-59 | the reference usage table: the count of every club used, ordered by non-increasing count |
| PastGames.GetClubStats | components/PastGames.tsx:47-59 | the method's loops compute the usage table of all the round's shots in that order, the total shot count, and the largest usage (1 when there are no shots) |
| PastGames.ClubStatsAddUp | components/PastGames.tsx:47-59 | the usage counts add up to the number of shots |
| PastGames.ClubStatsEntries | components/PastGames.tsx:47-59 | every entry holds its club's shot count, at least 1, and the listed clubs are exactly the clubs used |
| PastGames.ScoreBadge | components/PastGames.tsx:61-90 | the badge is plain at par, a circle one under, a double circle two or more under, a square one over, a double square two over and a star three or more over |
| PastGames.FirstIsLargest | components/PastGames.tsx:56-57 | in a list ordered by count the first count is the largest, so the largest usage is the first entry's |
| PastGames.BadgeDependsOnDifference | components/PastGames.tsx:61-90 | only the score minus par decides the badge |
| PastGames.BadgeIsMonotone | components/PastGames.tsx:61-90 | a higher score on the same par never gets a better badge |
| PastGames.UpdateArchiveShotClub | components/PastGames.tsx:179-183 | only the club of the chosen shot changes |
| PastGames.DefaultClub | components/PastGames.tsx:186 | a new shot gets the first club of the bag when that is non-empty, and never an empty name |
| PastGames.AddArchiveShot | components/PastGames.tsx:185-188 | one shot is appended after the others, with the default club, no distance, the second clock reading as its time and an id that parses back to the first reading |
| PastGames.RemoveArchiveShot | components/PastGames.tsx:190-192 | only the shot at the index is dropped, and an out-of-range index drops nothing |
| PastGames.DecrementPutts | components/PastGames.tsx:369-371 | the minus button never takes the putts below zero |
| PastGames.PuttsStepperUndoes | components/PastGames.tsx:369-371 | on a count of zero or more, minus undoes plus, plus undoes minus above zero, and minus leaves zero at zero |
| PastGames.FindRound | components/PastGames.tsx:199 | a round is found exactly when some round has the id, and the one found is the first round with that id |
| PastGames.SaveArchiveEdit | components/PastGames.tsx:194-226 | a round is saved exactly when there is an edit target, a round with its id and a hole at its index; the saved round is the found one with that hole replaced |
| PastGames.SaveArchiveEditRescores | components/PastGames.tsx:200-222 | the edited hole's score is its shot count, green in regulation is recomputed, the other holes are kept, and the totals are the new sums |
| PastGames.SaveArchiveEditOutOfRange | components/PastGames.tsx:200-212 | an out-of-range hole index saves nothing |
| PastGames.SaveArchiveEditKeepsTotals | components/PastGames.tsx:214-222 | the saved round's totals again equal the sums over its holes |
| PlayHole.CurrentScore | components/PlayHole.tsx:18-19 | the score counts every shot: the putts and the other shots add up to it |
| PlayHole.PuttCount | components/PlayHole.tsx:19 | putts never exceed strokes, and are zero exactly when no shot was taken with the putter |
| PlayHole.LastHoleFinishesRound | components/PlayHole.tsx:21 | on holes 1 to 18, outside the editing of a recorded hole, `isLastHole` holds exactly when finishing the hole leads to the analysis rather than to the next hole |
| PlayHole.PuttCountAppend | components/PlayHole.tsx:19 | a new shot adds one putt exactly when it was taken with the putter |
| PlayHole.ClubClickShot | components/PlayHole.tsx:29-37 | a club tap records that club and no distance, with the second clock reading as its time and an id that parses back to the first reading |
| PlayHole.ClubClickRecordsOneStroke | components/PlayHole.tsx:29-37 | a club tap raises the current score by one, and the putt count by one exactly when the club is the putter |
| PlayHole.FinishHolePayload | components/PlayHole.tsx:39-57 | finishing with no shot needs confirmation; the card carries the hole, par, shot count, putts, green in regulation and the shots |
| PlayHole.FinishHoleRecordsCard | components/PlayHole.tsx:39-57 | finishing a hole files its card last in the history, the score and putt sums grow by its strokes and putts, and the shots are cleared |
| PlayHole.OpenEditForm | components/PlayHole.tsx:59-65 | the form shows the shot's club, and an empty distance exactly when none or zero was entered |
| PlayHole.FormDistance | components/PlayHole.tsx:70-78 | there is no distance exactly when the field is empty or no digit follows its leading blanks, one sign and a `0x` prefix; otherwise the distance is the number read |
| PlayHole.SaveEdit | components/PlayHole.tsx:67-84 | nothing is dispatched without a selected shot; otherwise an UPDATE_SHOT with the form's club and distance at that index |
| PlayHole.EditUnchangedKeepsShot | components/PlayHole.tsx:59-84 | saving an untouched form gives back the same shot, except that a zero distance becomes none |
| PlayHole.SavedEditIsDropped | components/PlayHole.tsx:67-84 | the UPDATE_SHOT that saving an edit dispatches leaves the state unchanged |
| PlayHole.PadClubs | components/PlayHole.tsx:147-151 | the shot pad lists the bag without the putter, then Penalty, then Putter |
| PlayHole.EditClubs | components/PlayHole.tsx:174 | the edit list is the bag plus Penalty with duplicates removed, first occurrences kept |
| PlayHole.FirstOccurrencesAreDistinct | components/PlayHole.tsx:174 | keeping the positions equal to the first index of their value is removing duplicates |
| PlayHole.EditClubsOffersEachOnce | components/PlayHole.tsx:174 | the edit list offers each bag club and Penalty exactly once |
| Analysis.GirCount | components/Analysis.tsx:15-16 | the hit count is at most the number of holes, equal to it exactly when every hole was hit, zero exactly when none was |
| Analysis.TotalsOfRound | components/Analysis.tsx:12-15 | one more hole adds its score, par, putts and hit to the totals |
| Analysis.ScoreDiffDisplay | components/Analysis.tsx:17-18 | the label is "E" exactly at par, starts with + exactly above par and with - exactly below it |
| Analysis.ScoreDiffDisplayReadsBack | components/Analysis.tsx:17-18 | away from par, the label reads back as the score minus par |
| Analysis.RowsFollowShots | components/Analysis.tsx:27-31 | the export has one row per shot, in the order of the shots |
| Analysis.DistanceField | components/Analysis.tsx:29 | the distance column is empty exactly when no distance or zero was entered |
| Analysis.CsvText | components/Analysis.tsx:20-40 | the reference text of the export: it starts with the data-URL header and the byte-order mark, and a round without shots exports the header lines only |
| Analysis.DownloadCsv | components/Analysis.tsx:20-40 | an empty history exports nothing; otherwise the method's loops build exactly the header followed by every shot row |
| Analysis.HandleFinishGame | components/Analysis.tsx:42-56 | a blank course name archives nothing; otherwise ARCHIVE_ROUND with the trimmed name |
| Analysis.ArchivedCourseIsTrimmed | components/Analysis.tsx:42-56 | the archived round's course name is the trimmed name typed in, is not empty and has no whitespace at either end; the history and the shots are cleared |
| Analysis.ResumeLeadsToNextHole | components/Analysis.tsx:133 | resuming moves to hole set-up exactly when holes remain |
| BagSelection.WithPutter | components/BagSelection.tsx:18-19 | the putter is in the result, appended when it was missing |
| BagSelection.ToggleClub | components/BagSelection.tsx:10-21 | the method's new bag is the toggled bag and always holds the putter |
| BagSelection.ToggleRemoves | components/BagSelection.tsx:12-13 | toggling a club in the bag removes every copy of it and nothing else |
| BagSelection.ToggleAppends | components/BagSelection.tsx:14-16 | toggling a club not in the bag appends it |
| BagSelection.ToggleKeepsOrder | components/BagSelection.tsx:10-21 | the other clubs keep their order, with the putter appended if it was missing |
| BagSelection.TogglePutterMovesItLast | components/BagSelection.tsx:10-21 | toggling the putter moves it to the end of the bag |
| BagSelection.AddCustomClub | components/BagSelection.tsx:23-33 | a blank name does nothing; a new name is appended trimmed; the field is cleared whenever the name is not blank |
| BagSelection.AddedNameIsTrimmed | components/BagSelection.tsx:23-33 | a trimmed name that passes the blank test neither starts nor ends with whitespace, and the input held a non-whitespace character |
| BagSelection.CurrentCustomClubs | components/BagSelection.tsx:41-42 | the custom clubs are exactly the bag's clubs outside the standard list, Putter and Penalty, each as often as in the bag |
| BagSelection.CustomClubsInBagOrder | components/BagSelection.tsx:41-42 | the custom list keeps bag order: for a bag split in two, it is the first part's list followed by the second's |
| BagSelection.AddedCustomIsListed | components/BagSelection.tsx:23-42 | a newly added custom club appears last among the custom clubs |
| Text.Trim | components/Analysis.tsx:44 | the result has no whitespace at either end, and everything cut off on either side is whitespace |
| Text.TrimAround | components/Social.tsx:103 | trimming a string with blanks around it and none at its own ends gives the string back |
| Text.IntToString | components/PlayHole.tsx:31 | the decimal text of a number starts with a minus sign exactly when the number is negative |
| Text.ParseInt | components/PlayHole.tsx:70 | the result is NaN exactly when no digit follows the leading blanks, one sign and a `0x` prefix; otherwise it is the value of the longest digit run there, negated after a minus sign |
| Text.TrimEmptyIff | components/Analysis.tsx:44 | trimming gives the empty string exactly when the input is all whitespace |
| Text.ParseIntToString | components/PlayHole.tsx:63-70 | parsing reads back what printing an integer writes |

## Left out

- Networking: the peer connection, its events, retries and errors are a `PeerData` value; only the filter on incoming data and the message sent are modelled.
- Local storage: reading and writing it are left out. `GameReducer.LoadState` with a `SavedState` stands for the parsed value.
- The DOM, the clipboard, sharing, the deep-link URL handling, image upload, PNG export and the AI text service are left out. They are I/O.
- The Home, Layout, HoleSetup and App views are left out. They only dispatch the simple setters modelled in the reducer.
- Clock and randomness are parameters (`Env`); the hole's calendar date and the archive date are string parameters.
- JSON is a pair of function parameters. Values of the wrong type for id or name (numbers, objects) are not modelled: a field is either missing or a string.
- Strings are sequences of Unicode scalar values. Lone UTF-16 surrogates, which make the encoder throw, cannot occur.
- `Analysis.GirCount`: the percentage is a floating-point division and is left out; the model keeps the integer count it divides.
- `ShareCode.GetRelativeTime`: the locale-formatted date is represented by the time stamp it formats.
- `Analysis.DownloadCsv`: the URI encoding of the CSV text and the file download are left out. The model produces the data-URL text before encoding.
- `PastGames.GetClubStats`: the model keeps the usage table in first-use order and counts any club name. Two behaviours of the plain object the code counts into are not modelled. First, integer-like club names, for example a custom club called "60", come first in the object's entries, in numeric order. Second, names that the object inherits (`constructor`, `toString`, `__proto__`) do not start from zero, so their counts come out wrong; `PastGames.ClubStatsAddUp` does not hold of the code for such names.
- `PastGames.SortByCount`: the model sorts by insertion. It is proved to be a permutation and ordered; stability, which the sort in the code has, is not stated.
- `GameReducer.Reduce`: a FINISH_HOLE in edit mode whose index lies past the end of the history would make a sparse array in JavaScript. The model leaves the history unchanged in that case, and the screens never send such an index.
- `PlayHole.SaveEdit` and `PastGames.UpdateArchiveShotClub` require an index in range, because their callers only pass positions of the displayed list.
- `ShareCode.FriendCodeRoundTrip`: the code is taken to reach the handler verbatim. The shared deep link puts the code into the URL unescaped (components/Social.tsx:62), and reading the `code` parameter (components/Social.tsx:21-22) turns every `+` into a space. A code that contains `+` may then fail to decode or decode wrongly. This is a plausible defect of the code, not executed.
- Numbers are unbounded integers: precision loss above 2^53 is not modelled.
- The scorecard table of the analysis screen is left out. It is rendering only.
