/** Properties of the vote state machine. */
module TournamentAppProofs {
  import opened Wrappers
  import opened Matches
  import opened PowerOfTwo
  import opened Brackets
  import opened TournamentApp

  /** A successful vote records slot a when the name is slot a's (even if
      slot b carries the same name) and slot b otherwise.  Every other match
      of the active round and every earlier round is untouched. */
  lemma VoteRecordsChoice(s: AppState, name: string)
    requires Invariant(s) && Vote(s, name).Success?
    ensures var b := s.tournament.value;
      var ms := CurrentRoundMatches(b);
      var m := ms[s.cursor];
      var b' := Vote(s, name).value.state.tournament.value;
      && |b'.rounds| >= |b.rounds|
      && b'.rounds[..b.current] == b.rounds[..b.current]
      && |b'.rounds[b.current]| == |ms|
      && (forall k :: 0 <= k < |ms| && k != s.cursor ==> b'.rounds[b.current][k] == ms[k])
      && b'.rounds[b.current][s.cursor].a == m.a
      && b'.rounds[b.current][s.cursor].b == m.b
      && b'.rounds[b.current][s.cursor].winner ==
         (if SlotName(b.field, m.a) == name then m.a else m.b)
  {
    var b := s.tournament.value;
    var ms := CurrentRoundMatches(b);
    var w := Choose(b.field, ms[s.cursor], name).value;
    var b1 := RecordWinner(b, s.cursor, w);
    assert b1.rounds[..b.current] == b.rounds[..b.current];
    if s.cursor + 1 >= |ms| && Advance(b1).Some? {
      var b2 := Advance(b1).value;
      assert b2.rounds[..|b1.rounds|] == b1.rounds;
      assert b2.rounds[b.current] == b1.rounds[b.current];
      assert b2.rounds[..b.current] == b1.rounds[..b.current];
    }
  }

  /** After a valid vote, with `w` the slot the vote chose: inside a round
      the vote is recorded and the cursor moves to the next match; after
      the last match the round is advanced and the cursor returns to 0, or,
      when advancing yields nothing, play stops with the vote recorded, the
      cursor where it was, and the winner announced. */
  lemma VoteMovesCursor(s: AppState, name: string)
    requires Invariant(s) && Vote(s, name).Success?
    ensures var b := s.tournament.value;
      var w := Choose(b.field, CurrentRoundMatches(b)[s.cursor], name).value;
      var b1 := RecordWinner(b, s.cursor, w);
      var st := Vote(s, name).value;
      if s.cursor + 1 < |CurrentRoundMatches(b)| then
        st == Step(AppState(s.songs, Some(b1), s.cursor + 1), None)
      else if Advance(b1).None? then
        st == Step(AppState(s.songs, Some(b1), s.cursor), Some(FinalWinnerName(b1)))
      else
        st == Step(AppState(s.songs, Advance(b1), 0), None)
  {
  }

  /** Multiplying by a positive count never makes a value smaller. */
  lemma MulAtLeast(a: nat, p: nat)
    requires a >= 1
    ensures p <= a * p
  {
  }

  /** Half a round weighted by twice the factor is the whole round. */
  lemma HalfTimesDouble(size: nat, half: nat, p: nat)
    requires size == 2 * half
    ensures half * (2 * p) == size * p
  {
  }

  /** Recording a vote that is not the last of the round keeps the
      invariant with the cursor one further on. */
  lemma VoteInsideRoundKeepsInvariant(b: Bracket, cursor: nat, w: Slot)
    requires Brackets.Valid(b) && PlayValid(b, cursor)
    requires Plays(CurrentRoundMatches(b)[cursor], w) && w.Some?
    requires cursor + 1 < |CurrentRoundMatches(b)|
    ensures Brackets.Valid(RecordWinner(b, cursor, w))
    ensures PlayValid(RecordWinner(b, cursor, w), cursor + 1)
  {
    RecordWinnerKeepsValid(b, cursor, w);
  }

  /** Recording the vote on the last match of a round resolves the whole
      round. */
  lemma LastVoteResolvesRound(b: Bracket, cursor: nat, w: Slot)
    requires Brackets.Valid(b) && PlayValid(b, cursor)
    requires Plays(CurrentRoundMatches(b)[cursor], w) && w.Some?
    requires cursor + 1 == |CurrentRoundMatches(b)|
    ensures Brackets.Valid(RecordWinner(b, cursor, w))
    ensures PlayValid(RecordWinner(b, cursor, w), cursor)
    ensures AllResolved(CurrentRoundMatches(RecordWinner(b, cursor, w)))
  {
    RecordWinnerKeepsValid(b, cursor, w);
  }

  /** Advancing from a fully resolved round keeps the invariant, with the
      cursor on the first match of the new round. */
  lemma AdvanceKeepsInvariant(b: Bracket, cursor: nat)
    requires Brackets.Valid(b) && PlayValid(b, cursor)
    requires AllResolved(CurrentRoundMatches(b))
    requires Advance(b).Some?
    ensures Brackets.Valid(Advance(b).value)
    ensures PlayValid(Advance(b).value, 0)
  {
    var ms := CurrentRoundMatches(b);
    var b2 := Advance(b).value;
    AdvanceKeepsValid(b);
    WinnersOfResolvedRound(ms);
    HalfOfPow2(|ms|);
    AdvanceHalvesFullRound(b);
    var next := b2.rounds[|b.rounds|];
    assert b2.rounds[..|b.rounds|] == b.rounds;
    assert b2.rounds[0] == b.rounds[0];
    forall r | 0 <= r < |b2.rounds|
      ensures |b2.rounds[r]| * Pow2(r) == |b2.rounds[0]|
    {
      if r == |b.rounds| {
        assert |ms| * Pow2(b.current) == |b.rounds[0]|;
        HalfTimesDouble(|ms|, |next|, Pow2(b.current));
      } else {
        assert b2.rounds[r] == b.rounds[r];
      }
    }
  }

  /** A successful vote keeps the application invariant: in particular the
      active round always has a power-of-two size and no empty slot, and
      every round is half the size of the one before. */
  lemma VoteKeepsValid(s: AppState, name: string)
    requires Invariant(s) && Vote(s, name).Success?
    ensures Invariant(Vote(s, name).value.state)
  {
    var b := s.tournament.value;
    var ms := CurrentRoundMatches(b);
    var w := Choose(b.field, ms[s.cursor], name).value;
    var b1 := RecordWinner(b, s.cursor, w);
    if s.cursor + 1 < |ms| {
      VoteInsideRoundKeepsInvariant(b, s.cursor, w);
    } else {
      LastVoteResolvesRound(b, s.cursor, w);
      if Advance(b1).Some? {
        AdvanceKeepsInvariant(b1, s.cursor);
      }
    }
  }

  /** A tournament of `P` padded entrants never has more than log2(P)
      rounds: `2 ^ (number of rounds)` is at most the padded size. */
  lemma RoundsBound(s: AppState)
    requires Invariant(s) && s.tournament.Some?
    ensures Pow2(|s.tournament.value.rounds|) <= |s.tournament.value.field|
  {
    var b := s.tournament.value;
    var c := b.current;
    var ms := CurrentRoundMatches(b);
    assert |ms| * Pow2(c) == |b.rounds[0]|;
    MulAtLeast(|ms|, Pow2(c));
  }

  /** The winner is announced only after the single match of a final round
      has been decided, and the announced name is that match's winner's. */
  lemma AnnouncementIsFinal(s: AppState, name: string)
    requires Invariant(s) && Vote(s, name).Success?
    requires Vote(s, name).value.announced.Some?
    ensures var b' := Vote(s, name).value.state.tournament.value;
      var last := CurrentRoundMatches(b');
      && |last| == 1
      && last[0].winner.Some?
      && Vote(s, name).value.announced == Some(b'.field[last[0].winner.value].name)
  {
    var b := s.tournament.value;
    var ms := CurrentRoundMatches(b);
    var w := Choose(b.field, ms[s.cursor], name).value;
    var b1 := RecordWinner(b, s.cursor, w);
    var ms1 := CurrentRoundMatches(b1);
    assert forall j :: 0 <= j <= s.cursor ==> ms1[j].winner.Some?;
    assert AllResolved(ms1);
    WinnersOfResolvedRound(ms1);
  }

  /** When play stops, exactly log2(P) rounds have been played, where P is
      the padded bracket size. */
  lemma FinishedAfterLog2Rounds(s: AppState, name: string)
    requires Invariant(s) && Vote(s, name).Success?
    requires Vote(s, name).value.announced.Some?
    ensures var b' := Vote(s, name).value.state.tournament.value;
      IsPow2(|b'.field|) && |b'.rounds| == Log2(|b'.field|)
  {
    AnnouncementIsFinal(s, name);
    VoteKeepsValid(s, name);
    var b' := Vote(s, name).value.state.tournament.value;
    var c := b'.current;
    assert |b'.rounds[c]| * Pow2(c) == |b'.rounds[0]|;
    assert Pow2(c + 1) == |b'.field|;
    Log2OfPow2(c + 1);
  }
}
