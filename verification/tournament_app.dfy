/** The tournament logic of `MusicTournamentApp` in main.py: starting a
    tournament, recording a vote for the match under the cursor and moving
    on to the next match or round.

    In the application `self.matches` is the very list object stored as the
    bracket's current round, so a vote written into it is a vote written
    into the bracket.  The model keeps one copy: the active match list is
    always read from the bracket.  `cursor` is the application's
    `self.current_round`, which counts matches within the round, not
    rounds. */
module TournamentApp {
  import opened Wrappers
  import opened Matches
  import opened PowerOfTwo
  import opened Brackets

  /** The uploaded song names, the bracket once started, and the index of
      the match being voted on. */
  datatype AppState = AppState(songs: seq<string>, tournament: Option<Bracket>, cursor: nat)

  /** What the application reports instead of changing its state:
      fewer than two songs at start, a vote with no match to vote on
      (indexing the empty match list), a vote that reaches an empty slot
      (reading `.name` of `None`), and a name that matches neither slot. */
  datatype AppError = TooFewSongs | NoActiveMatch | EmptySlot | InvalidVote

  /** The state after a vote, and the name shown in the "Tournament Winner"
      message when the vote ended the tournament. */
  datatype Step = Step(state: AppState, announced: Option<string>)

  /** The application before any tournament has started. */
  function Initial(songs: seq<string>): (s: AppState)
    ensures Invariant(s) && s.tournament.None?
  {
    AppState(songs, None, 0)
  }

  /** The list the application shows and votes on (`self.matches`). */
  function ActiveMatches(s: AppState): (ms: seq<Match>)
    requires s.tournament.Some? ==> s.tournament.value.current < |s.tournament.value.rounds|
    ensures s.tournament.None? ==> ms == []
    ensures s.tournament.Some? && Brackets.Valid(s.tournament.value) ==>
      ms == s.tournament.value.rounds[|s.tournament.value.rounds| - 1]
    ensures Invariant(s) && s.tournament.Some? ==> s.cursor < |ms| && IsPow2(|ms|)
  {
    if s.tournament.None? then [] else CurrentRoundMatches(s.tournament.value)
  }

  /** The invariant of the application between two events. */
  predicate Invariant(s: AppState) {
    match s.tournament
    case None => s.cursor == 0
    case Some(b) =>
      && Brackets.Valid(b)
      && b.names == s.songs
      && PlayValid(b, s.cursor)
  }

  /** How voting in match order shapes the bracket: the cursor is inside
      the current round, every match before it is resolved, every current
      match has two entrants, the current round has a power-of-two size,
      and each round is half the size of the one before it. */
  predicate PlayValid(b: Bracket, cursor: nat)
    requires Brackets.Valid(b)
  {
    var ms := CurrentRoundMatches(b);
    && cursor < |ms|
    && (forall j :: 0 <= j < cursor ==> ms[j].winner.Some?)
    && (forall j :: 0 <= j < |ms| ==> ms[j].a.Some? && ms[j].b.Some?)
    && IsPow2(|ms|)
    && 2 * |b.rounds[0]| == |b.field|
    && (forall r :: 0 <= r < |b.rounds| ==> |b.rounds[r]| * Pow2(r) == |b.rounds[0]|)
  }

  /** `start_tournament`: at least two songs build a bracket whose first
      round becomes the active list, with the cursor on its first match. */
  function Start(s: AppState): (r: Result<AppState, AppError>)
    requires Invariant(s)
    ensures r.Failure? <==> |s.songs| < 2
    ensures r.Failure? ==> r.error == TooFewSongs
    ensures r.Success? ==> Invariant(r.value)
    ensures r.Success? ==> r.value.songs == s.songs && r.value.cursor == 0
    ensures r.Success? ==> r.value.tournament == Some(Build(s.songs))
    ensures r.Success? ==> ActiveMatches(r.value) == Build(s.songs).rounds[0]
  {
    if |s.songs| < 2 then Failure(TooFewSongs)
    else
      var b := Build(s.songs);
      NextPow2Even(|s.songs|);
      assert IsPow2(|b.rounds[0]|) by { HalfOfPow2(|b.field|); }
      Success(AppState(s.songs, Some(b), 0))
  }

  /** The name of the competitor in slot `x`. */
  function SlotName(field: seq<Competitor>, x: Slot): string
    requires x.Some? && x.value < |field|
  {
    field[x.value].name
  }

  /** The slot a vote for `name` selects: slot a when its name matches,
      otherwise slot b when its name matches.  Slot a is examined first, so
      two entrants of the same name (two "TBD"s) always resolve to a. */
  function Choose(field: seq<Competitor>, m: Match, name: string): (r: Result<Slot, AppError>)
    requires MatchOk(m, |field|)
    ensures r.Success? ==> Plays(m, r.value) && r.value.Some?
    ensures r.Success? ==> SlotName(field, r.value) == name
    ensures m.a.Some? && SlotName(field, m.a) == name ==> r == Success(m.a)
    ensures r == Failure(InvalidVote) <==>
      m.a.Some? && m.b.Some? && SlotName(field, m.a) != name && SlotName(field, m.b) != name
    ensures r == Failure(EmptySlot) <==>
      m.a.None? || (m.b.None? && SlotName(field, m.a) != name)
  {
    if m.a.None? then Failure(EmptySlot)
    else if SlotName(field, m.a) == name then Success(m.a)
    else if m.b.None? then Failure(EmptySlot)
    else if SlotName(field, m.b) == name then Success(m.b)
    else Failure(InvalidVote)
  }

  /** The name announced when play stops: the winner of the first match of
      the last round, or "TBD" when that match has none. */
  function FinalWinnerName(b: Bracket): (name: string)
    requires Brackets.Valid(b)
    ensures name in b.names || name == Tbd
  {
    var w := b.rounds[|b.rounds| - 1][0].winner;
    assert MatchOk(b.rounds[|b.rounds| - 1][0], |b.field|);
    if w.Some? then b.field[w.value].name else Tbd
  }

  /** `update_bracket_after_vote` followed, after the last match of a round,
      by `prepare_next_round`. */
  function Vote(s: AppState, name: string): (r: Result<Step, AppError>)
    requires Invariant(s)
    ensures s.tournament.None? ==> r == Failure(NoActiveMatch)
    ensures s.tournament.Some? ==>
      var b := s.tournament.value;
      var m := CurrentRoundMatches(b)[s.cursor];
      && (r == Failure(InvalidVote) <==>
          SlotName(b.field, m.a) != name && SlotName(b.field, m.b) != name)
      && r != Failure(EmptySlot)
    ensures r.Success? ==> r.value.state.songs == s.songs && r.value.state.tournament.Some?
  {
    if s.tournament.None? then Failure(NoActiveMatch)
    else
      var b := s.tournament.value;
      var ms := CurrentRoundMatches(b);
      var choice := Choose(b.field, ms[s.cursor], name);
      if choice.Failure? then Failure(choice.error)
      else
        var b1 := RecordWinner(b, s.cursor, choice.value);
        if s.cursor + 1 < |ms| then
          Success(Step(AppState(s.songs, Some(b1), s.cursor + 1), None))
        else
          RecordWinnerKeepsValid(b, s.cursor, choice.value);
          match Advance(b1)
          case None =>
            Success(Step(AppState(s.songs, Some(b1), s.cursor), Some(FinalWinnerName(b1))))
          case Some(b2) =>
            Success(Step(AppState(s.songs, Some(b2), 0), None))
  }
}

