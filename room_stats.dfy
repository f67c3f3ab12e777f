/**
 * Per-match statistics of a room (src/room_stats.rs): the raw records, their
 * conversion, and the three-level normalisation walk over matches, teams
 * and players.
 */
module RoomStats {
  import opened Shared
  import opened Mapping

  datatype Player = Player(nickname: string, playerId: string, stats: map<string, string>)

  /** `Team_` as decoded. */
  datatype RawTeam = RawTeam(premade: bool, teamId: string, players: seq<Player>, stats: map<string, string>)

  /** `MatchStats_` as decoded. */
  datatype RawMatchStats = RawMatchStats(
    bestOf: string, date: u64, createdAt: u64, updatedAt: u64, competitionId: string,
    game: string, gameMode: string, matchId: string, matchRound: string, played: string,
    teams: seq<RawTeam>, stats: map<string, string>)

  datatype Response = Response(matches: seq<RawMatchStats>)

  datatype Team = Team(teamId: string, players: seq<Player>, stats: map<string, string>)

  datatype MatchStats = MatchStats(
    date: Timestamp, game: string, gameMode: string, matchId: string, played: string,
    teams: seq<Team>, stats: map<string, string>)

  /** `Into<Team> for Team_`: keeps the id, the players and the stats, drops `premade`. */
  function TeamFromRaw(raw: RawTeam): (t: Team)
    ensures t.teamId == raw.teamId && t.players == raw.players && t.stats == raw.stats
  {
    Team(raw.teamId, raw.players, raw.stats)
  }

  /** `Into<MatchStats> for MatchStats_`: copies the kept fields, converts the date, converts each team in order. */
  function MatchStatsFromRaw(raw: RawMatchStats): (m: MatchStats)
    ensures m.date == UnixTimeMs(raw.date)
    ensures m.game == raw.game && m.gameMode == raw.gameMode && m.matchId == raw.matchId
    ensures m.played == raw.played && m.stats == raw.stats
    ensures |m.teams| == |raw.teams|
    ensures forall i :: 0 <= i < |raw.teams| ==> m.teams[i] == TeamFromRaw(raw.teams[i])
  {
    var teams := seq(|raw.teams|, i requires 0 <= i < |raw.teams| => TeamFromRaw(raw.teams[i]));
    MatchStats(UnixTimeMs(raw.date), raw.game, raw.gameMode, raw.matchId, raw.played, teams, raw.stats)
  }

  /** `Into<RoomStats> for Response`: one converted record per raw record, in the same order. */
  function RoomStatsFromResponse(resp: Response): (ms: seq<MatchStats>)
    ensures |ms| == |resp.matches|
    ensures forall i :: 0 <= i < |ms| ==> ms[i] == MatchStatsFromRaw(resp.matches[i])
  {
    seq(|resp.matches|, i requires 0 <= i < |resp.matches| => MatchStatsFromRaw(resp.matches[i]))
  }

  /** `after` is `before` with only its stats normalised. */
  ghost predicate PlayerNormalized(before: Player, mapping: Mapping, after: Player) {
    && after == before.(stats := after.stats)
    && IsNormalization(before.stats, mapping, after.stats)
  }

  /** `after` is `before` with its own stats and every player's stats normalised, nothing else changed. */
  ghost predicate TeamNormalized(before: Team, mapping: Mapping, after: Team) {
    && after.teamId == before.teamId
    && |after.players| == |before.players|
    && (forall j :: 0 <= j < |before.players| ==> PlayerNormalized(before.players[j], mapping, after.players[j]))
    && IsNormalization(before.stats, mapping, after.stats)
  }

  /** `after` is `before` with the match, team and player stats normalised, nothing else changed. */
  ghost predicate MatchNormalized(before: MatchStats, mapping: Mapping, after: MatchStats) {
    && after.date == before.date && after.game == before.game && after.gameMode == before.gameMode
    && after.matchId == before.matchId && after.played == before.played
    && |after.teams| == |before.teams|
    && (forall j :: 0 <= j < |before.teams| ==> TeamNormalized(before.teams[j], mapping, after.teams[j]))
    && IsNormalization(before.stats, mapping, after.stats)
  }

  /** The innermost walk: the team's stats, then each player's stats in order. */
  method NormalizeTeam(team: Team, mapping: Mapping) returns (r: Team)
    ensures TeamNormalized(team, mapping, r)
  {
    var stats := Normalize(team.stats, mapping);
    var players := team.players;
    var j := 0;
    while j < |players|
      invariant 0 <= j <= |players| == |team.players|
      invariant forall k :: 0 <= k < j ==> PlayerNormalized(team.players[k], mapping, players[k])
      invariant players[j..] == team.players[j..]
    {
      var playerStats := Normalize(players[j].stats, mapping);
      players := players[j := players[j].(stats := playerStats)];
      j := j + 1;
    }
    r := Team(team.teamId, players, stats);
  }

  /** One match of the walk: the match's stats, then each team in order. */
  method NormalizeMatch(m: MatchStats, mapping: Mapping) returns (r: MatchStats)
    ensures MatchNormalized(m, mapping, r)
  {
    var stats := Normalize(m.stats, mapping);
    var teams := m.teams;
    var j := 0;
    while j < |teams|
      invariant 0 <= j <= |teams| == |m.teams|
      invariant forall k :: 0 <= k < j ==> TeamNormalized(m.teams[k], mapping, teams[k])
      invariant teams[j..] == m.teams[j..]
    {
      var team := NormalizeTeam(teams[j], mapping);
      teams := teams[j := team];
      j := j + 1;
    }
    r := m.(teams := teams, stats := stats);
  }

  /** `RoomStats`: the list of per-match statistics that `map_stats` rewrites in place. */
  class RoomStats {
    var matches: seq<MatchStats>

    constructor (resp: Response)
      ensures matches == RoomStatsFromResponse(resp)
    {
      matches := RoomStatsFromResponse(resp);
    }

    /** `MapStats for RoomStats::map_stats`: normalises every stats record of every match, team and player. */
    method MapStats(mapping: Mapping)
      modifies this
      ensures |matches| == |old(matches)|
      ensures forall i :: 0 <= i < |matches| ==> MatchNormalized(old(matches)[i], mapping, matches[i])
    {
      var i := 0;
      while i < |matches|
        invariant 0 <= i <= |matches| == |old(matches)|
        invariant forall k :: 0 <= k < i ==> MatchNormalized(old(matches)[k], mapping, matches[k])
        invariant matches[i..] == old(matches)[i..]
      {
        var m := NormalizeMatch(matches[i], mapping);
        matches := matches[i := m];
        i := i + 1;
      }
    }
  }

  /** Every stats key of a match, of its teams and of their players is a label of the table. */
  ghost predicate AllKeysLabelled(m: MatchStats, mapping: Mapping) {
    && m.stats.Keys <= mapping.table.Values
    && forall j :: 0 <= j < |m.teams| ==>
         && m.teams[j].stats.Keys <= mapping.table.Values
         && forall k :: 0 <= k < |m.teams[j].players| ==> m.teams[j].players[k].stats.Keys <= mapping.table.Values
  }

  /** After the walk, no code survives at any level: every key left is a label. */
  lemma MatchNormalizedIsLabelled(before: MatchStats, mapping: Mapping, after: MatchStats)
    requires MatchNormalized(before, mapping, after)
    ensures AllKeysLabelled(after, mapping)
  {
    NormalizedKeysAreLabels(before.stats, mapping, after.stats);
    forall j | 0 <= j < |after.teams|
      ensures after.teams[j].stats.Keys <= mapping.table.Values
      ensures forall k :: 0 <= k < |after.teams[j].players| ==> after.teams[j].players[k].stats.Keys <= mapping.table.Values
    {
      var b, a := before.teams[j], after.teams[j];
      NormalizedKeysAreLabels(b.stats, mapping, a.stats);
      forall k | 0 <= k < |a.players|
        ensures a.players[k].stats.Keys <= mapping.table.Values
      {
        NormalizedKeysAreLabels(b.players[k].stats, mapping, a.players[k].stats);
      }
    }
  }

  /** Normalising a freshly converted room keeps every team id and player identity of the raw payload. */
  lemma NormalizedRoomKeepsIdentities(resp: Response, mapping: Mapping, after: seq<MatchStats>, i: nat, j: nat, k: nat)
    requires |after| == |resp.matches|
    requires forall n :: 0 <= n < |after| ==> MatchNormalized(RoomStatsFromResponse(resp)[n], mapping, after[n])
    requires i < |resp.matches| && j < |resp.matches[i].teams| && k < |resp.matches[i].teams[j].players|
    ensures after[i].matchId == resp.matches[i].matchId
    ensures j < |after[i].teams| && after[i].teams[j].teamId == resp.matches[i].teams[j].teamId
    ensures k < |after[i].teams[j].players|
    ensures after[i].teams[j].players[k].nickname == resp.matches[i].teams[j].players[k].nickname
    ensures after[i].teams[j].players[k].playerId == resp.matches[i].teams[j].players[k].playerId
  {
    var m := RoomStatsFromResponse(resp)[i];
    assert MatchNormalized(m, mapping, after[i]);
    assert TeamNormalized(m.teams[j], mapping, after[i].teams[j]);
    assert PlayerNormalized(m.teams[j].players[k], mapping, after[i].teams[j].players[k]);
  }
}
