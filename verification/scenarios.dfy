/** Concrete plays of the application, followed vote by vote against
    explicitly written states. */
module Scenarios {
  import opened Wrappers
  import opened Matches
  import opened PowerOfTwo
  import opened Brackets
  import opened TournamentApp
  import TournamentAppProofs

  const Abcd: seq<string> := ["A", "B", "C", "D"]
  const AbcdField: seq<Competitor> :=
    [Competitor("A", ""), Competitor("B", ""), Competitor("C", ""), Competitor("D", "")]

  /** The bracket for A, B, C, D with the given first and second round. */
  function AbcdBracket(rounds: seq<seq<Match>>): Bracket
    requires |rounds| >= 1
  {
    Bracket(Abcd, AbcdField, rounds, |rounds| - 1)
  }

  /** The state after the start, after the vote for A and after the vote
      for C. */
  const AbcdOpened: AppState := AppState(Abcd, Some(AbcdBracket(
    [[Match(Some(0), Some(1), None), Match(Some(2), Some(3), None)]])), 0)
  const AbcdAfterA: AppState := AppState(Abcd, Some(AbcdBracket(
    [[Match(Some(0), Some(1), Some(0)), Match(Some(2), Some(3), None)]])), 1)
  const AbcdFinal: AppState := AppState(Abcd, Some(AbcdBracket(
    [[Match(Some(0), Some(1), Some(0)), Match(Some(2), Some(3), Some(2))],
     [Match(Some(0), Some(2), None)]])), 0)

  /** Starting with A, B, C, D opens the first round (A, B), (C, D). */
  lemma AbcdStart()
    ensures Start(Initial(Abcd)) == Success(AbcdOpened)
  {
    assert NextPow2(4) == 4;
    assert PaddedField(Abcd) == AbcdField;
    var r0 := FirstRound(4);
    assert r0 == [Match(Some(0), Some(1), None), Match(Some(2), Some(3), None)];
  }

  /** A vote for A decides the first match and moves to the second. */
  lemma AbcdVoteA()
    ensures Invariant(AbcdOpened) ==>
      Vote(AbcdOpened, "A") == Success(Step(AbcdAfterA, None))
  {
    var m0 := Match(Some(0), Some(1), None);
    var m1 := Match(Some(2), Some(3), None);
    var b := AbcdBracket([[m0, m1]]);
    assert Choose(b.field, m0, "A") == Success(Some(0));
    var m0' := Match(Some(0), Some(1), Some(0));
    assert [m0, m1][0 := m0'] == [m0', m1];
    assert [[m0, m1]][0 := [m0', m1]] == [[m0', m1]];
    assert RecordWinner(b, 0, Some(0)) == AbcdBracket([[m0', m1]]);
  }

  /** A vote for C closes the first round and opens the final (A, C). */
  lemma AbcdVoteC()
    ensures Invariant(AbcdAfterA) ==>
      Vote(AbcdAfterA, "C") == Success(Step(AbcdFinal, None))
  {
    var m0 := Match(Some(0), Some(1), Some(0));
    var m1 := Match(Some(2), Some(3), None);
    var m1' := Match(Some(2), Some(3), Some(2));
    var b := AbcdBracket([[m0, m1]]);
    assert Choose(b.field, m1, "C") == Success(Some(2));
    assert [m0, m1][1 := m1'] == [m0, m1'];
    assert [[m0, m1]][0 := [m0, m1']] == [[m0, m1']];
    var b1 := RecordWinner(b, 1, Some(2));
    assert b1 == AbcdBracket([[m0, m1']]);
    var r0 := [m0, m1'];
    assert Winners(r0) == [0, 2] by {
      assert r0[1..] == [m1'];
      assert r0[1..][1..] == [];
    }
    assert PairUp([0, 2]) == [Match(Some(0), Some(2), None)] by {
      assert [0, 2][2..] == [];
    }
    assert CurrentRoundMatches(b1) == r0;
    var f := Match(Some(0), Some(2), None);
    assert [[m0, m1']] + [[f]] == [[m0, m1'], [f]];
    assert Advance(b1) == Some(AbcdBracket([[m0, m1'], [f]]));
  }

  /** A vote for A in the final ends play and announces A. */
  lemma AbcdVoteFinal()
    ensures Invariant(AbcdFinal) ==>
      Vote(AbcdFinal, "A") == Success(Step(AppState(Abcd, Some(AbcdBracket(
        [[Match(Some(0), Some(1), Some(0)), Match(Some(2), Some(3), Some(2))],
         [Match(Some(0), Some(2), Some(0))]])), 0), Some("A")))
  {
    var r0 := [Match(Some(0), Some(1), Some(0)), Match(Some(2), Some(3), Some(2))];
    var f := Match(Some(0), Some(2), None);
    var f' := Match(Some(0), Some(2), Some(0));
    var b := AbcdBracket([r0, [f]]);
    assert Choose(b.field, f, "A") == Success(Some(0));
    assert [f][0 := f'] == [f'];
    assert [r0, [f]][1 := [f']] == [r0, [f']];
    var b1 := RecordWinner(b, 0, Some(0));
    assert b1 == AbcdBracket([r0, [f']]);
    assert Winners([f']) == [0] by {
      assert [f'][1..] == [];
    }
    assert Advance(b1) == None;
    assert FinalWinnerName(b1) == "A";
  }

  /** The whole play: start, then votes A, C, A announce A as the winner. */
  lemma AbcdChampion()
    ensures Start(Initial(Abcd)) == Success(AbcdOpened) && Invariant(AbcdOpened)
    ensures Vote(AbcdOpened, "A") == Success(Step(AbcdAfterA, None)) && Invariant(AbcdAfterA)
    ensures Vote(AbcdAfterA, "C") == Success(Step(AbcdFinal, None)) && Invariant(AbcdFinal)
    ensures ActiveMatches(AbcdFinal) == [Match(Some(0), Some(2), None)]
    ensures Vote(AbcdFinal, "A").value.announced == Some("A")
  {
    assert Start(Initial(Abcd)) == Success(AbcdOpened) && Invariant(AbcdOpened) by {
      AbcdStart();
    }
    assert Vote(AbcdOpened, "A") == Success(Step(AbcdAfterA, None)) && Invariant(AbcdAfterA) by {
      AbcdVoteA();
      TournamentAppProofs.VoteKeepsValid(AbcdOpened, "A");
    }
    assert Vote(AbcdAfterA, "C") == Success(Step(AbcdFinal, None)) && Invariant(AbcdFinal) by {
      AbcdVoteC();
      TournamentAppProofs.VoteKeepsValid(AbcdAfterA, "C");
    }
    assert ActiveMatches(AbcdFinal) == [Match(Some(0), Some(2), None)];
    assert Vote(AbcdFinal, "A").value.announced == Some("A") by {
      AbcdVoteFinal();
    }
  }

  const Xyz: seq<string> := ["X", "Y", "Z"]
  const XyzField: seq<Competitor> :=
    [Competitor("X", ""), Competitor("Y", ""), Competitor("Z", ""), Competitor(Tbd, "")]

  /** Three songs are padded with one "TBD" entrant to a first round of
      (X, Y) and (Z, TBD). */
  lemma XyzStart()
    ensures Start(Initial(Xyz)) == Success(AppState(Xyz, Some(Bracket(Xyz, XyzField,
      [[Match(Some(0), Some(1), None), Match(Some(2), Some(3), None)]], 0)), 0))
  {
    assert NextPow2(3) == 4;
    assert PaddedField(Xyz) == XyzField;
    var r0 := FirstRound(4);
    assert r0 == [Match(Some(0), Some(1), None), Match(Some(2), Some(3), None)];
  }

  /** After the vote on (X, Y) the cursor stops at (Z, TBD), still without a
      winner: a match against padding is not decided automatically, and a
      vote for "TBD" is accepted like any other. */
  lemma XyzPaddingIsVotedOn()
    ensures var s0 := Start(Initial(Xyz)).value;
      var s1 := Vote(s0, "Y").value.state;
      && s1.cursor == 1
      && ActiveMatches(s1)[1] == Match(Some(2), Some(3), None)
      && Vote(s1, Tbd).Success?
  {
    XyzStart();
    var m0 := Match(Some(0), Some(1), None);
    var m1 := Match(Some(2), Some(3), None);
    var b := Bracket(Xyz, XyzField, [[m0, m1]], 0);
    var s0 := AppState(Xyz, Some(b), 0);
    assert Choose(b.field, m0, "Y") == Success(Some(1));
    var m0' := Match(Some(0), Some(1), Some(1));
    assert [m0, m1][0 := m0'] == [m0', m1];
    assert [[m0, m1]][0 := [m0', m1]] == [[m0', m1]];
    var b1 := RecordWinner(b, 0, Some(1));
    assert b1 == Bracket(Xyz, XyzField, [[m0', m1]], 0);
    var s1 := Vote(s0, "Y").value.state;
    assert s1 == AppState(Xyz, Some(b1), 1);
    TournamentAppProofs.VoteKeepsValid(s0, "Y");
    assert Choose(b1.field, m1, Tbd) == Success(Some(3));
  }
}
