/** The single-elimination bracket: class `Bracket` of bracket.py, which
    main.py:30-64 repeats line for line.

    The padded list of competitors is the arena that every match slot
    indexes into, so a competitor is the same entrant wherever it appears,
    as the shared Python objects are. */
module Brackets {
  import opened Wrappers
  import opened Matches
  import opened PowerOfTwo

  /** Name given to the padding entrants. */
  const Tbd: string := "TBD"

  /** `names` is the list the bracket was built from, `field` the padded
      competitors, `rounds` every round so far and `current` the index of
      the round being played. */
  datatype Bracket = Bracket(
    names: seq<string>,
    field: seq<Competitor>,
    rounds: seq<seq<Match>>,
    current: nat)

  /** The exceptions construction raises for fewer than two names:
      `math.log2(0)` is a domain error, and for one name the pairing reads
      past the end of the list. */
  datatype BracketError = LogOfZero | PairIndexOutOfRange

  /** One competitor per name, in order, each with an empty path. */
  function Entrants(names: seq<string>): (cs: seq<Competitor>)
    ensures |cs| == |names|
    ensures forall i :: 0 <= i < |names| ==> cs[i] == Competitor(names[i], "")
  {
    if |names| == 0 then []
    else [Competitor(names[0], "")] + Entrants(names[1..])
  }

  /** `k` padding competitors. */
  function Padding(k: nat): (cs: seq<Competitor>)
    ensures |cs| == k
    ensures forall i :: 0 <= i < k ==> cs[i] == Competitor(Tbd, "")
  {
    if k == 0 then [] else [Competitor(Tbd, "")] + Padding(k - 1)
  }

  /** The competitor list after padding up to the bracket size: the
      entrants keep their order at the front and "TBD" fills the rest. */
  function PaddedField(names: seq<string>): (cs: seq<Competitor>)
    ensures |cs| == NextPow2(|names|)
    ensures forall i :: 0 <= i < |names| ==> cs[i] == Competitor(names[i], "")
    ensures forall i :: |names| <= i < |cs| ==> cs[i] == Competitor(Tbd, "")
  {
    Entrants(names) + Padding(NextPow2(|names|) - |names|)
  }

  /** The arena indices `0, 1, ..., n - 1`. */
  function Range(n: nat): (r: seq<nat>)
    ensures |r| == n
    ensures forall i :: 0 <= i < n ==> r[i] == i
  {
    if n == 0 then [] else Range(n - 1) + [n - 1]
  }

  /** Pairs entries `2i` and `2i + 1` into match `i`; when the count is odd
      the last match gets `None` as its second slot. */
  function PairUp(ws: seq<nat>): (ms: seq<Match>)
    ensures |ms| == (|ws| + 1) / 2
    ensures forall i :: 0 <= i < |ms| ==> ms[i].a == Some(ws[2 * i])
    ensures forall i :: 0 <= i < |ms| ==>
      ms[i].b == (if 2 * i + 1 < |ws| then Some(ws[2 * i + 1]) else None)
    ensures forall i :: 0 <= i < |ms| ==> ms[i].winner == None
  {
    if |ws| == 0 then []
    else if |ws| == 1 then [NewMatch(Some(ws[0]), None)]
    else [NewMatch(Some(ws[0]), Some(ws[1]))] + PairUp(ws[2..])
  }

  /** The entrants of a round read back left to right: slot a, then slot b
      when it holds someone.  This undoes `PairUp`. */
  function Contestants(ms: seq<Match>): seq<nat> {
    if |ms| == 0 then []
    else
      (if ms[0].a.Some? then [ms[0].a.value] else [])
      + (if ms[0].b.Some? then [ms[0].b.value] else [])
      + Contestants(ms[1..])
  }

  /** Reading a paired-up round back gives the list it was built from. */
  lemma {:induction false} ContestantsOfPairUp(ws: seq<nat>)
    ensures Contestants(PairUp(ws)) == ws
  {
    if |ws| >= 2 {
      ContestantsOfPairUp(ws[2..]);
      assert PairUp(ws)[1..] == PairUp(ws[2..]);
      assert ws == [ws[0], ws[1]] + ws[2..];
    }
  }

  /** The winners of a round, in match order, skipping unresolved matches. */
  function Winners(ms: seq<Match>): (ws: seq<nat>)
    ensures |ws| <= |ms|
    ensures forall x :: x in ws <==> exists j :: 0 <= j < |ms| && ms[j].winner == Some(x)
  {
    if |ms| == 0 then []
    else
      var rest := Winners(ms[1..]);
      assert forall j :: 1 <= j < |ms| ==> ms[j] == ms[1..][j - 1];
      (if ms[0].winner.Some? then [ms[0].winner.value] else []) + rest
  }

  /** Winners are collected left to right: the winners of two consecutive
      stretches of matches are the first stretch's followed by the
      second's. */
  lemma {:induction false} WinnersOfConcat(xs: seq<Match>, ys: seq<Match>)
    ensures Winners(xs + ys) == Winners(xs) + Winners(ys)
  {
    if |xs| > 0 {
      assert (xs + ys)[1..] == xs[1..] + ys;
      WinnersOfConcat(xs[1..], ys);
    } else {
      assert xs + ys == ys;
    }
  }

  /** A single match contributes its winner if it has one, else nothing. */
  lemma WinnersOfOne(m: Match)
    ensures Winners([m]) == (if m.winner.Some? then [m.winner.value] else [])
  {
    assert [m][1..] == [];
  }

  /** True when every match of `ms` has a winner. */
  predicate AllResolved(ms: seq<Match>) {
    forall j :: 0 <= j < |ms| ==> ms[j].winner.Some?
  }

  /** When every match is resolved, the winners are exactly the matches'
      winners, one per match and in match order. */
  lemma {:induction false} WinnersOfResolvedRound(ms: seq<Match>)
    requires AllResolved(ms)
    ensures |Winners(ms)| == |ms|
    ensures forall j :: 0 <= j < |ms| ==> Winners(ms)[j] == ms[j].winner.value
  {
    if |ms| > 0 {
      WinnersOfResolvedRound(ms[1..]);
    }
  }

  /** Slot `s` is empty or names an entrant of an arena of size `n`. */
  predicate SlotIn(s: Slot, n: nat) {
    s.None? || s.value < n
  }

  /** Both slots point into the arena and a recorded winner plays in the
      match. */
  predicate MatchOk(m: Match, n: nat) {
    SlotIn(m.a, n) && SlotIn(m.b, n) && (m.winner.None? || Plays(m, m.winner))
  }

  /** Every match of a non-empty round is well formed. */
  predicate RoundOk(ms: seq<Match>, n: nat) {
    |ms| >= 1 && forall j :: 0 <= j < |ms| ==> MatchOk(ms[j], n)
  }

  /** The bracket invariant: the arena is the padded name list, there is at
      least one round, the current round is the last one and every round is
      well formed. */
  predicate Valid(b: Bracket) {
    && b.field == PaddedField(b.names)
    && |b.rounds| >= 1
    && b.current == |b.rounds| - 1
    && forall r :: 0 <= r < |b.rounds| ==> RoundOk(b.rounds[r], |b.field|)
  }

  /** The first round: padded entries `2i` and `2i + 1` meet in match `i`. */
  function FirstRound(size: nat): (ms: seq<Match>)
    requires size % 2 == 0
    ensures |ms| == size / 2
    ensures forall i :: 0 <= i < |ms| ==> ms[i] == NewMatch(Some(2 * i), Some(2 * i + 1))
  {
    PairUp(Range(size))
  }

  /** Builds the bracket for at least two names (the constructor and
      `generate_bracket`). */
  function Build(names: seq<string>): (b: Bracket)
    requires |names| >= 2
    ensures Valid(b)
    ensures b.names == names
    ensures |b.rounds| == 1 && b.current == 0
    ensures |b.field| == NextPow2(|names|)
    ensures |b.rounds[0]| == NextPow2(|names|) / 2
    ensures forall i :: 0 <= i < |b.rounds[0]| ==>
      b.rounds[0][i] == NewMatch(Some(2 * i), Some(2 * i + 1))
  {
    NextPow2Even(|names|);
    Bracket(names, PaddedField(names), [FirstRound(NextPow2(|names|))], 0)
  }

  /** The constructor, including the exceptions it raises for fewer than
      two names. */
  function NewBracket(names: seq<string>): (r: Result<Bracket, BracketError>)
    ensures r.Failure? <==> |names| < 2
    ensures |names| == 0 ==> r == Failure(LogOfZero)
    ensures |names| == 1 ==> r == Failure(PairIndexOutOfRange)
    ensures r.Success? ==> r.value == Build(names)
  {
    if |names| == 0 then Failure(LogOfZero)
    else if |names| == 1 then Failure(PairIndexOutOfRange)
    else Success(Build(names))
  }

  /** The matches of the round being played. */
  function CurrentRoundMatches(b: Bracket): (ms: seq<Match>)
    requires b.current < |b.rounds|
    ensures ms in b.rounds
    ensures Valid(b) ==> ms == b.rounds[|b.rounds| - 1]
  {
    b.rounds[b.current]
  }

  /** `advance_to_next_round`: with fewer than two winners in the current
      round nothing changes and `None` is returned; otherwise the winners
      are paired into a new round that is appended and becomes current. */
  function Advance(b: Bracket): (r: Option<Bracket>)
    requires b.current < |b.rounds|
    ensures r.None? <==> |Winners(CurrentRoundMatches(b))| < 2
    ensures r.Some? ==> var ws := Winners(CurrentRoundMatches(b));
      && r.value.names == b.names
      && r.value.field == b.field
      && |r.value.rounds| == |b.rounds| + 1
      && r.value.rounds[..|b.rounds|] == b.rounds
      && r.value.current == b.current + 1
      && |r.value.rounds[|b.rounds|]| == (|ws| + 1) / 2
      && Contestants(r.value.rounds[|b.rounds|]) == ws
      && (forall i :: 0 <= i < |r.value.rounds[|b.rounds|]| ==>
            && r.value.rounds[|b.rounds|][i].a == Some(ws[2 * i])
            && r.value.rounds[|b.rounds|][i].b ==
               (if 2 * i + 1 < |ws| then Some(ws[2 * i + 1]) else None))
      && AllUnresolved(r.value.rounds[|b.rounds|])
  {
    var ws := Winners(CurrentRoundMatches(b));
    if |ws| < 2 then None
    else
      ContestantsOfPairUp(ws);
      Some(b.(rounds := b.rounds + [PairUp(ws)], current := b.current + 1))
  }

  /** No match of `ms` has a winner yet. */
  predicate AllUnresolved(ms: seq<Match>) {
    forall j :: 0 <= j < |ms| ==> ms[j].winner.None?
  }

  /** When all `2m` matches of a round are resolved, the next round has
      exactly `m` matches and none of them has an empty slot. */
  lemma AdvanceHalvesFullRound(b: Bracket)
    requires b.current < |b.rounds|
    requires AllResolved(CurrentRoundMatches(b))
    requires |CurrentRoundMatches(b)| >= 2 && |CurrentRoundMatches(b)| % 2 == 0
    ensures Advance(b).Some?
    ensures var next := Advance(b).value.rounds[|b.rounds|];
      && |next| == |CurrentRoundMatches(b)| / 2
      && forall j :: 0 <= j < |next| ==> next[j].a.Some? && next[j].b.Some?
  {
    WinnersOfResolvedRound(CurrentRoundMatches(b));
  }

  /** Advancing keeps the bracket invariant. */
  lemma AdvanceKeepsValid(b: Bracket)
    requires Valid(b)
    requires Advance(b).Some?
    ensures Valid(Advance(b).value)
  {
    var ms := CurrentRoundMatches(b);
    var ws := Winners(ms);
    var b' := Advance(b).value;
    assert b'.rounds == b.rounds + [PairUp(ws)];
    forall x | x in ws
      ensures x < |b.field|
    {
      var j :| 0 <= j < |ms| && ms[j].winner == Some(x);
      assert MatchOk(ms[j], |b.field|);
    }
    assert RoundOk(PairUp(ws), |b.field|);
  }

  /** Records `w` as winner of match `j` of the current round, the way the
      application does through the list it shares with the bracket. */
  function RecordWinner(b: Bracket, j: nat, w: Slot): (b': Bracket)
    requires b.current < |b.rounds| && j < |b.rounds[b.current]|
    requires Plays(b.rounds[b.current][j], w)
    ensures b'.names == b.names && b'.field == b.field && b'.current == b.current
    ensures |b'.rounds| == |b.rounds|
    ensures forall r :: 0 <= r < |b.rounds| && r != b.current ==> b'.rounds[r] == b.rounds[r]
    ensures |b'.rounds[b.current]| == |b.rounds[b.current]|
    ensures forall k :: 0 <= k < |b.rounds[b.current]| && k != j ==>
      b'.rounds[b.current][k] == b.rounds[b.current][k]
    ensures GetWinner(b'.rounds[b.current][j]) == w
    ensures b'.rounds[b.current][j].a == b.rounds[b.current][j].a
    ensures b'.rounds[b.current][j].b == b.rounds[b.current][j].b
  {
    var ms := b.rounds[b.current];
    b.(rounds := b.rounds[b.current := ms[j := SetWinner(ms[j], w).value]])
  }

  /** Recording a winner that plays in the match keeps the invariant. */
  lemma RecordWinnerKeepsValid(b: Bracket, j: nat, w: Slot)
    requires Valid(b) && j < |b.rounds[b.current]|
    requires Plays(b.rounds[b.current][j], w)
    ensures Valid(RecordWinner(b, j, w))
  {
    var b' := RecordWinner(b, j, w);
    assert RoundOk(b'.rounds[b.current], |b.field|) by {
      assert MatchOk(b.rounds[b.current][j], |b.field|);
    }
  }
}
