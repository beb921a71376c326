# Music Tournament: a Dafny model of the bracket core

This project models the tournament logic of the Music Tournament
application:

- the single-elimination **bracket** of `bracket.py`, which `main.py`
  repeats line for line as its own `Bracket` class;
- the `Competitor` and `Match` classes of `main.py`;
- the **vote cursor** of `MusicTournamentApp` (`start_tournament`,
  `update_bracket_after_vote`, `prepare_next_round`), without any Tk calls;
- the **song registry** of `MusicTournament.py`: upload, names, elimination
  by vote, end of tournament, and the match-to-winner dictionary.

Everything is written as immutable datatypes and pure functions. A Python
exception becomes a `Failure` value and `None` becomes `Option.None`.

## Design

- **Competitors are indices.** Python's `winner not in [a, b]` compares
  `Competitor` objects by identity, so two entrants called "TBD" are
  different. The padded competitor list (`Bracket.field`) is an arena, and a
  match slot (`Slot = Option<nat>`) is an index into it or `None`.
- **Matches.** `Match(a, b, winner)` uses `Slot` for all three fields.
  `SetWinner` accepts exactly the values that are one of the two slots. That
  includes `None` when a slot is empty, as `None in [a, None]` does in
  Python. An accepted value overwrites any earlier winner.
- **Bracket size.** `2 ** math.ceil(math.log2(n))` is replaced by the
  integer function `NextPow2`. `NextPow2IsLeast` proves it is the least power
  of two not below `n`.
- **Construction errors.** `NewBracket` returns `LogOfZero` for no names
  (`math.log2(0)` fails) and `PairIndexOutOfRange` for one name (the pairing
  reads `competitors[1]`). From two names on it builds the bracket.
- **One match list, not two.** The application's `self.matches` is the same
  list object as the bracket's current round, so a vote recorded through one
  is seen through the other. The model keeps one copy: `ActiveMatches` reads
  the current round of the bracket. `AppState.cursor` is the application's
  `self.current_round`, which counts matches within a round.
- **Application errors.** A vote before any tournament has started would
  index an empty list (`NoActiveMatch`). Reading `.name` of an empty slot
  raises (`EmptySlot`). A name matching neither slot is refused
  (`InvalidVote`). A refused vote returns `Failure`, so the caller keeps
  the old state unchanged.
- **The announcement.** When advancing yields nothing, the application shows
  the name of the winner of `rounds[-1][0]`, or "TBD" if that match has no
  winner. `Vote` returns that name in `Step.announced`.
- **Application invariant.** `TournamentApp.Invariant` says that:
  - every match before the cursor is resolved;
  - every match of the active round has two entrants;
  - the active round has a power-of-two size;
  - each round is half the size of the round before it.

  `VoteKeepsValid` proves that every successful vote keeps it. As a
  result, the `EmptySlot` error can never occur during play started by
  `Start`, and `RoundsBound` limits play to log2 of the padded size
  in rounds.

Behaviour a bracket might be expected to have but the code lacks, and which
the model therefore lacks too:

- A match against a "TBD" padding entrant is **not** decided automatically.
  It is voted on like any other match (`Scenarios.XyzPaddingIsVotedOn`).
- Recording a second, different winner **overwrites** the first. No
  conflict error exists (`Matches.SetWinnerOverwrites`).
- A vote is not checked against an "active match" identity. It always
  applies to the match under the cursor.
- An odd number of winners produces a last match with an empty second
  slot. It does not raise an invariant-violation error (`Brackets.PairUp`).
- The end of play is detected when advancing finds fewer than two winners,
  not by a separate completion query. Voting again after the end re-votes
  the final match and re-announces.

## Model

| member | source | states |
|---|---|---|
| `Matches.NewMatch` | main.py:14-17 | a new match holds the two given slots and has no winner |
| `Matches.Plays` | main.py:21 | a value plays in a match exactly when it is in the list of its two slots; `None` plays when a slot is empty |
| `Matches.SetWinner` | main.py:19-23 | refused exactly when the value is in neither slot; on success the slots are kept and `GetWinner` returns the value |
| `Matches.GetWinner` | main.py:25-27 | the winner read back is the one last accepted, and recording the value read back again leaves the match unchanged |
| `Matches.SetWinnerOverwrites` | main.py:19-27 | setting one slot and then the other gives the same match as setting the second directly; there is no conflict check |
| `PowerOfTwo.NextPow2` | bracket.py:16-17 | the bracket size is a power of two, at least `n`, and half of it is below `n` |
| `PowerOfTwo.NextPow2IsLeast` | bracket.py:17 | no power of two that is at least `n` is smaller than `NextPow2(n)` |
| `Brackets.PaddedField` | bracket.py:14-19 | the padded list has bracket size, the names first in order with empty paths, then only "TBD" entrants |
| `Brackets.FirstRound` | bracket.py:22 | a list of even size `P` gives `P/2` matches, match `i` pairing entries `2i` and `2i+1` with no winner |
| `Brackets.Build` | bracket.py:6-22 | from two names on: one round, current round 0, bracket size `NextPow2(n)` with `P/2` first-round matches pairing `2i` and `2i+1`, and the bracket invariant holds |
| `Brackets.NewBracket` | main.py:37-47 | fails exactly for fewer than two names, with the log-of-zero error for none and the index error for one |
| `Brackets.CurrentRoundMatches` | bracket.py:24-26 | the matches handed out are one of the rounds, and in a valid bracket always the last round built |
| `Brackets.Winners` | bracket.py:31 | at most one winner per match, and a value is among the winners exactly when some match records it |
| `Brackets.WinnersOfConcat` | bracket.py:31 | winners are collected left to right: the winners of `xs + ys` are those of `xs` followed by those of `ys` |
| `Brackets.WinnersOfResolvedRound` | bracket.py:31 | with every match resolved there is one winner per match, the `j`-th winner being match `j`'s |
| `Brackets.PairUp` | bracket.py:36 | `ceil(k/2)` matches, match `i` pairing entries `2i` and `2i+1`, the second slot `None` for an odd last entry, no winners |
| `Brackets.ContestantsOfPairUp` | bracket.py:36 | reading the slots of a paired-up round back left to right returns the original list |
| `Brackets.Advance` | bracket.py:28-39 | returns nothing exactly when fewer than two winners exist; otherwise appends one round of `ceil(k/2)` new matches pairing winners `2i`, `2i+1`, whose entrants are exactly the winners in order, advances the current round by one and leaves earlier rounds and the arena untouched |
| `Brackets.AdvanceHalvesFullRound` | bracket.py:31-36 | when all `2m` matches of a round are resolved, the next round has `m` matches and no empty slot |
| `Brackets.AdvanceKeepsValid` | main.py:53-64 | advancing preserves the bracket invariant: every slot is in the arena and every recorded winner plays in its match |
| `Brackets.RecordWinner` | main.py:200-205 | recording a winner in the current round changes only that match's winner; all other matches, rounds and the arena are unchanged |
| `Brackets.RecordWinnerKeepsValid` | main.py:19-23 | recording a winner that plays in the match preserves the bracket invariant |
| `TournamentApp.Initial` | main.py:123-124 | before a start there is no bracket and the cursor is 0, which satisfies the application invariant |
| `TournamentApp.Start` | main.py:142-148 | fails exactly with fewer than two songs; otherwise the bracket of the songs is built, its first round is the active list, the cursor is 0 and the invariant holds |
| `TournamentApp.ActiveMatches` | main.py:147 | before a start the list is empty; afterwards it is the last round of the bracket, holding the cursor, with a power-of-two size |
| `TournamentApp.Choose` | main.py:202-208 | a matching slot a is chosen even when slot b has the same name; slot b is chosen when only its name matches; neither matching is an invalid vote; an empty slot reached before a match is an error |
| `TournamentApp.FinalWinnerName` | main.py:223-224 | the announced name is one of the song names or "TBD" |
| `TournamentApp.Vote` | main.py:198-216 | no bracket means no match to vote on; otherwise the vote is invalid exactly when the name matches neither slot of the match under the cursor, and it never reaches an empty slot |
| `TournamentAppProofs.VoteRecordsChoice` | main.py:200-205 | a successful vote records slot a if its name matches and slot b otherwise, in the match under the cursor, leaving every other match of the round and every earlier round untouched |
| `TournamentAppProofs.VoteMovesCursor` | main.py:210-232 | the cursor moves to the next match; after the last match either a new round starts with the cursor at 0, or play stops with the vote recorded, the cursor kept and a winner announced; each successor state is given exactly in terms of `RecordWinner` and `Advance` |
| `TournamentAppProofs.VoteKeepsValid` | main.py:210-232 | every successful vote preserves the application invariant: power-of-two active round, no empty slot, earlier matches resolved, rounds halving |
| `TournamentAppProofs.RoundsBound` | main.py:218-232 | `2 ^ (number of rounds)` never exceeds the padded bracket size |
| `TournamentAppProofs.AnnouncementIsFinal` | main.py:220-225 | a winner is announced only when the last round is a single decided match, and the name is that match's winner's |
| `TournamentAppProofs.FinishedAfterLog2Rounds` | main.py:218-227 | when play stops the padded size `P` is a power of two and exactly log2(P) rounds exist |
| `Scenarios.AbcdChampion` | main.py:142-232 | with songs A, B, C, D, votes for A and C open the final (A, C), and a vote for A announces A |
| `Scenarios.XyzPaddingIsVotedOn` | main.py:42-47 | with songs X, Y, Z, the (Z, TBD) match stays undecided until it is voted on, and a vote for "TBD" is accepted |
| `MusicTournament.Empty` | MusicTournament.py:5-8 | a new registry has no songs and no recorded winners |
| `MusicTournament.UploadSong` | MusicTournament.py:10-16 | the song is appended exactly when its path ends in ".mp3" and no stored song has that path; otherwise nothing changes |
| `MusicTournament.UploadKeepsValid` | MusicTournament.py:12-13 | uploading preserves: every stored path ends in ".mp3" and no two stored songs share a path |
| `MusicTournament.UploadIdempotent` | MusicTournament.py:12 | uploading the same song a second time changes nothing |
| `MusicTournament.SongNames` | MusicTournament.py:18-20 | one name per stored song, in upload order |
| `MusicTournament.UploadAppendsName` | MusicTournament.py:18-20 | an accepted upload adds its name at the end of the name list |
| `MusicTournament.RandomPair` | MusicTournament.py:22-27 | no pair exactly when fewer than two songs are stored; otherwise both songs come from the store |
| `MusicTournament.FirstOther` | MusicTournament.py:41 | none exactly when every song carries the voted name; otherwise the first position whose name differs |
| `MusicTournament.RemoveNamed` | MusicTournament.py:43 | every song not carrying the removed name survives as many times as it was stored, and no song carrying it survives |
| `MusicTournament.RemoveNamedKeepsOrder` | MusicTournament.py:43 | the survivors keep their original relative order |
| `MusicTournament.Vote` | MusicTournament.py:38-43 | fails exactly when every song carries the voted name; otherwise removes every song sharing the first loser's name and keeps every other song with its multiplicity, strictly shrinks the list and leaves the winner map alone |
| `MusicTournament.VoteSparesWinner` | MusicTournament.py:41-43 | no song named after the vote is removed, and the survivors keep their order |
| `MusicTournament.VoteBetweenTwoEnds` | MusicTournament.py:38-47 | with two differently named songs, a vote for either leaves only that song and the tournament is over |
| `MusicTournament.IsOver` | MusicTournament.py:45-47 | when the tournament is over the name list is the survivor's name alone, and voting for the survivor finds no loser |
| `MusicTournament.SetMatchWinner` | MusicTournament.py:49-53 | refused exactly when the winner plays in neither slot; otherwise that match's recorded winner is the value and no other match's changes |
| `MusicTournament.GetMatchWinner` | MusicTournament.py:55-58 | `None` for a match with no record, the recorded winner otherwise |

## Left out

- styles.py: only colours and widget styles.
- All Tk widgets, labels, buttons, message boxes, file dialogs, `print` and
  the canvas drawing of `draw_bracket` (main.py:234-291). They are
  presentation only. The announcement text is kept as `Step.announced`.
- Audio playback with pygame (main.py:75, main.py:176-186) and `play_song`
  (MusicTournament.py:29-36). These are I/O and a foreign library.
- `upload_songs` of main.py (main.py:126-140). It reads paths from a file
  dialog. The song names it collects are the `songs` field of `AppState`.
- The label-text parsing of `vote_for_song_1/2` (main.py:188-196) and the
  path lookup of `show_match` (main.py:152-174). A vote is modelled as the
  already extracted name.
- The random draw of `get_random_pair` (MusicTournament.py:26). The two
  positions it picks are parameters of `RandomPair`, so only its size guard
  and result shape are modelled.
- Floating-point `math.log2`/`math.ceil`. They are replaced by the exact
  integer `NextPow2`, so rounding of very large counts is not modelled.
- The `votes` list of `MusicTournament` is initialised but never used.
- The `competitor` and `match` modules imported by bracket.py are not part
  of this model. The `Competitor` and `Match` classes of main.py stand for
  them.
- `MusicTournament.RandomPair`: does not state that the two songs are
  random or uniformly chosen, because the randomness is a parameter.
