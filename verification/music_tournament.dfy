/** The song registry of MusicTournament.py: songs are uploaded as
    (name, path) pairs, a vote eliminates songs by name, and a separate map
    records match winners. */
module MusicTournament {
  import opened Wrappers
  import opened Matches

  /** A stored song: its display name and its file path. */
  datatype Song = Song(name: string, path: string)

  /** Match objects are dictionary keys by identity; a key stands for that
      identity. */
  type MatchKey = nat

  /** `songs` in upload order and the match-to-winner dictionary. */
  datatype Tournament = Tournament(songs: seq<Song>, matchWinners: map<MatchKey, Slot>)

  /** `vote` raises `StopIteration` when every song carries the voted
      name: there is no loser to find. */
  datatype RegistryError = NoLoser

  /** The only accepted file extension. */
  const Mp3: string := ".mp3"

  /** An empty registry. */
  function Empty(): (t: Tournament)
    ensures Valid(t) && |t.songs| == 0 && t.matchWinners == map[]
  {
    Tournament([], map[])
  }

  /** Python's `s.endswith(suffix)`. */
  predicate EndsWith(s: string, suffix: string) {
    |suffix| <= |s| && s[|s| - |suffix|..] == suffix
  }

  /** True when some stored song has path `p`. */
  predicate HasPath(songs: seq<Song>, p: string) {
    exists i :: 0 <= i < |songs| && songs[i].path == p
  }

  /** What uploading keeps true of the stored songs: every path is an mp3
      path and no two songs share a path. */
  predicate Valid(t: Tournament) {
    && (forall i :: 0 <= i < |t.songs| ==> EndsWith(t.songs[i].path, Mp3))
    && (forall i, j :: 0 <= i < j < |t.songs| ==> t.songs[i].path != t.songs[j].path)
  }

  /** `upload_song`: the song is appended when its path ends in ".mp3" and
      is not stored yet; otherwise nothing changes. */
  function UploadSong(t: Tournament, name: string, path: string): (r: Tournament)
    ensures r.matchWinners == t.matchWinners
    ensures EndsWith(path, Mp3) && !HasPath(t.songs, path) ==>
      r.songs == t.songs + [Song(name, path)]
    ensures !(EndsWith(path, Mp3) && !HasPath(t.songs, path)) ==> r.songs == t.songs
  {
    if EndsWith(path, Mp3) && !HasPath(t.songs, path) then
      t.(songs := t.songs + [Song(name, path)])
    else t
  }

  /** Uploading keeps the registry invariant, whatever is uploaded. */
  lemma UploadKeepsValid(t: Tournament, name: string, path: string)
    requires Valid(t)
    ensures Valid(UploadSong(t, name, path))
  {
    var r := UploadSong(t, name, path);
    if r.songs != t.songs {
      forall i, j | 0 <= i < j < |r.songs|
        ensures r.songs[i].path != r.songs[j].path
      {
        if j == |t.songs| {
          assert r.songs[i] == t.songs[i];
        }
      }
    }
  }

  /** Uploading a path that is already stored changes nothing, so uploading
      the same song twice is the same as uploading it once. */
  lemma UploadIdempotent(t: Tournament, name: string, path: string)
    ensures var once := UploadSong(t, name, path);
      UploadSong(once, name, path) == once
  {
    var once := UploadSong(t, name, path);
    if once.songs != t.songs {
      assert once.songs[|t.songs|].path == path;
    }
  }

  /** `get_song_names`: the names, in upload order. */
  function SongNames(t: Tournament): (names: seq<string>)
    ensures |names| == |t.songs|
    ensures forall i :: 0 <= i < |t.songs| ==> names[i] == t.songs[i].name
  {
    NamesOf(t.songs)
  }

  /** The names of `songs`, in order. */
  function NamesOf(songs: seq<Song>): (names: seq<string>)
    ensures |names| == |songs|
    ensures forall i :: 0 <= i < |songs| ==> names[i] == songs[i].name
  {
    if |songs| == 0 then [] else [songs[0].name] + NamesOf(songs[1..])
  }

  /** An accepted upload adds its name at the end of the name list. */
  lemma UploadAppendsName(t: Tournament, name: string, path: string)
    requires EndsWith(path, Mp3) && !HasPath(t.songs, path)
    ensures SongNames(UploadSong(t, name, path)) == SongNames(t) + [name]
  {
  }

  /** `get_random_pair`, with the random draw supplied as the two distinct
      positions `i` and `j` that `random.sample` would pick: no pair when
      fewer than two songs are stored. */
  function RandomPair(t: Tournament, i: nat, j: nat): (r: Option<(Song, Song)>)
    requires |t.songs| >= 2 ==> i < |t.songs| && j < |t.songs| && i != j
    ensures r.None? <==> |t.songs| < 2
    ensures r.Some? ==> r.value.0 in t.songs && r.value.1 in t.songs
  {
    if |t.songs| < 2 then None else Some((t.songs[i], t.songs[j]))
  }

  /** The first song whose name is not `w` (the loser `vote` looks for). */
  function FirstOther(songs: seq<Song>, w: string): (r: Option<nat>)
    ensures r.None? <==> forall i :: 0 <= i < |songs| ==> songs[i].name == w
    ensures r.Some? ==> r.value < |songs| && songs[r.value].name != w
    ensures r.Some? ==> forall k :: 0 <= k < r.value ==> songs[k].name == w
  {
    if |songs| == 0 then None
    else if songs[0].name != w then Some(0)
    else
      match FirstOther(songs[1..], w)
      case None => None
      case Some(k) => Some(k + 1)
  }

  /** The songs not named `n`, in their original order. */
  function RemoveNamed(songs: seq<Song>, n: string): (r: seq<Song>)
    ensures |r| <= |songs|
    ensures forall s :: s in r <==> s in songs && s.name != n
    ensures forall s :: multiset(r)[s] == (if s.name == n then 0 else multiset(songs)[s])
  {
    if |songs| == 0 then []
    else
      assert songs == [songs[0]] + songs[1..];
      if songs[0].name == n then RemoveNamed(songs[1..], n)
      else [songs[0]] + RemoveNamed(songs[1..], n)
  }

  /** `a` is `b` with some elements left out, the rest kept in order. */
  predicate IsSubsequence<T(==)>(a: seq<T>, b: seq<T>)
    decreases |b|
  {
    if |a| == 0 then true
    else if |b| == 0 then false
    else if a[0] == b[0] then IsSubsequence(a[1..], b[1..])
    else IsSubsequence(a, b[1..])
  }

  /** Removing by name keeps the survivors in their original relative
      order. */
  lemma {:induction false} RemoveNamedKeepsOrder(songs: seq<Song>, n: string)
    ensures IsSubsequence(RemoveNamed(songs, n), songs)
  {
    if |songs| > 0 {
      RemoveNamedKeepsOrder(songs[1..], n);
      var r := RemoveNamed(songs, n);
      if songs[0].name != n {
        assert r[0] == songs[0] && r[1..] == RemoveNamed(songs[1..], n);
      } else if |r| > 0 {
        assert r[0] != songs[0];
      }
    }
  }

  /** Removing a name that some song carries strictly shortens the list. */
  lemma {:induction false} RemoveNamedShrinks(songs: seq<Song>, n: string, i: nat)
    requires i < |songs| && songs[i].name == n
    ensures |RemoveNamed(songs, n)| < |songs|
  {
    var rest := RemoveNamed(songs[1..], n);
    if songs[0].name == n {
      assert RemoveNamed(songs, n) == rest;
    } else {
      assert songs[1..][i - 1] == songs[i];
      RemoveNamedShrinks(songs[1..], n, i - 1);
      assert RemoveNamed(songs, n) == [songs[0]] + rest;
    }
  }

  /** `vote`: the first song not named `w` is the loser, and every song that
      shares the loser's name is removed. */
  function Vote(t: Tournament, w: string): (r: Result<Tournament, RegistryError>)
    ensures r.Failure? <==> forall i :: 0 <= i < |t.songs| ==> t.songs[i].name == w
    ensures r.Success? ==> r.value.matchWinners == t.matchWinners
    ensures r.Success? ==> var loser := t.songs[FirstOther(t.songs, w).value];
      forall s :: s in r.value.songs <==> s in t.songs && s.name != loser.name
    ensures r.Success? ==> var loser := t.songs[FirstOther(t.songs, w).value];
      forall s :: multiset(r.value.songs)[s] ==
        (if s.name == loser.name then 0 else multiset(t.songs)[s])
    ensures r.Success? ==> |r.value.songs| < |t.songs|
  {
    match FirstOther(t.songs, w)
    case None => Failure(NoLoser)
    case Some(k) =>
      RemoveNamedShrinks(t.songs, t.songs[k].name, k);
      Success(t.(songs := RemoveNamed(t.songs, t.songs[k].name)))
  }

  /** A vote never eliminates a song named after the vote, and the songs it
      keeps stay in their original order. */
  lemma VoteSparesWinner(t: Tournament, w: string)
    requires Vote(t, w).Success?
    ensures forall s :: s in t.songs && s.name == w ==> s in Vote(t, w).value.songs
    ensures IsSubsequence(Vote(t, w).value.songs, t.songs)
  {
    var k := FirstOther(t.songs, w).value;
    RemoveNamedKeepsOrder(t.songs, t.songs[k].name);
  }

  /** `is_tournament_over`: exactly one song remains. */
  predicate IsOver(t: Tournament)
    ensures IsOver(t) ==> |t.songs| > 0 && SongNames(t) == [t.songs[0].name]
    ensures IsOver(t) ==> |t.songs| > 0 && Vote(t, t.songs[0].name) == Failure(NoLoser)
  {
    |t.songs| == 1
  }

  /** With two differently named songs, a vote for either name ends the
      tournament with the voted song as the only one left. */
  lemma VoteBetweenTwoEnds(t: Tournament, k: nat)
    requires |t.songs| == 2 && t.songs[0].name != t.songs[1].name && k < 2
    ensures Vote(t, t.songs[k].name).Success?
    ensures IsOver(Vote(t, t.songs[k].name).value)
    ensures Vote(t, t.songs[k].name).value.songs == [t.songs[k]]
  {
    var w := t.songs[k].name;
    var songs := t.songs;
    assert songs[1 - k].name != w;
    var loser := FirstOther(songs, w).value;
    assert loser == 1 - k;
    var rest := RemoveNamed(songs, songs[loser].name);
    assert songs[1..][1..] == [];
    if k == 0 {
      assert rest == [songs[0]] + RemoveNamed(songs[1..], songs[1].name);
    } else {
      assert rest == RemoveNamed(songs[1..], songs[0].name);
    }
  }

  /** `set_winner`: the winner must play in the match; it is then recorded
      under the match, replacing any earlier record. */
  function SetMatchWinner(t: Tournament, key: MatchKey, m: Match, w: Slot)
    : (r: Result<Tournament, MatchError>)
    ensures r.Failure? <==> !Plays(m, w)
    ensures r.Success? ==> r.value.songs == t.songs
    ensures r.Success? ==> GetMatchWinner(r.value, key) == w
    ensures r.Success? ==> forall k :: k != key ==> GetMatchWinner(r.value, k) == GetMatchWinner(t, k)
  {
    if !Plays(m, w) then Failure(NotACompetitor)
    else Success(t.(matchWinners := t.matchWinners[key := w]))
  }

  /** `get_winner`: the recorded winner of a match, `None` when none was
      recorded. */
  function GetMatchWinner(t: Tournament, key: MatchKey): (w: Slot)
    ensures key !in t.matchWinners ==> w == None
    ensures key in t.matchWinners ==> w == t.matchWinners[key]
  {
    if key in t.matchWinners then t.matchWinners[key] else None
  }
}
