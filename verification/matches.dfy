/** Competitors and matches of the tournament (main.py, classes
    `Competitor` and `Match`).

    Python compares competitors by object identity, so two competitors
    called "TBD" are different entrants.  The model therefore keeps every
    competitor in an arena (a sequence) and lets matches refer to entrants
    by their index in that arena.  A slot is `None` when the match has no
    opponent there, exactly as the Python attribute may hold `None`. */
module Matches {
  import opened Wrappers

  /** An entrant: a display name and the path of its audio file. */
  datatype Competitor = Competitor(name: string, path: string)

  /** A reference to an entrant of the arena, or `None`. */
  type Slot = Option<nat>

  /** A match between two slots with the winner, if one was recorded. */
  datatype Match = Match(a: Slot, b: Slot, winner: Slot)

  /** Raised by `set_winner` when the proposed winner plays in neither slot. */
  datatype MatchError = NotACompetitor

  /** A freshly built match: two slots and no winner yet. */
  function NewMatch(a: Slot, b: Slot): (m: Match)
    ensures m.a == a && m.b == b
    ensures GetWinner(m) == None
  {
    Match(a, b, None)
  }

  /** True when `w` is one of the two slots of `m` (Python's
      `w in [m.competitor_a, m.competitor_b]`). */
  predicate Plays(m: Match, w: Slot)
    ensures Plays(m, w) <==> w in [m.a, m.b]
    ensures w.None? && m.b.None? ==> Plays(m, w)
  {
    w == m.a || w == m.b
  }

  /** Records `w` as the winner of `m`.  A value that is in neither slot is
      refused; an accepted value replaces whatever winner was there. */
  function SetWinner(m: Match, w: Slot): (r: Result<Match, MatchError>)
    ensures r.Failure? <==> !Plays(m, w)
    ensures r.Success? ==> r.value.a == m.a && r.value.b == m.b
    ensures r.Success? ==> r.value.winner == w
  {
    if !Plays(m, w) then Failure(NotACompetitor)
    else Success(m.(winner := w))
  }

  /** The recorded winner, `None` when there is none.  Reading the winner
      and recording it again changes nothing, and after any accepted
      `SetWinner` the value read back is the one recorded. */
  function GetWinner(m: Match): (w: Slot)
    ensures Plays(m, w) ==> SetWinner(m, w) == Success(m)
    ensures forall v :: Plays(m, v) ==> SetWinner(m, v).value.winner == v
  {
    m.winner
  }

  /** Recording a winner twice simply keeps the second value: there is no
      conflict check, so voting for the other slot overwrites the first
      result. */
  lemma SetWinnerOverwrites(m: Match, w1: Slot, w2: Slot)
    requires Plays(m, w1) && Plays(m, w2)
    ensures SetWinner(m, w1).Success?
    ensures SetWinner(SetWinner(m, w1).value, w2) == SetWinner(m, w2)
  {
  }
}
