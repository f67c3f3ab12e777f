/**
 * A player's match history (src/matches.rs): decoding of the raw records,
 * including the elo field and the string-valued stats, and the
 * normalisation of each match's stats in place.
 */
module Matches {
  import opened Wrappers
  import opened Digits
  import opened Shared
  import opened Json
  import opened Mapping

  datatype Id = Id(matchId: string, playerId: string)

  /** `Match_` as decoded; `stats` holds the flattened remaining fields. */
  datatype RawMatch = RawMatch(
    id: Id, createdAt: Option<u64>, updatedAt: Option<u64>, nickname: string, playerId: string,
    teamId: string, premade: Option<bool>, bestOf: Option<string>, competitionId: Option<string>,
    date: u64, game: string, gameMode: string, matchId: string, matchRound: Option<string>,
    played: Option<string>, status: string, elo: Option<Value>, stats: map<string, Value>)

  datatype Match = Match(
    matchId: string, date: Timestamp, elo: Option<nat>, premade: Option<bool>, teamId: string,
    gameMode: string, bestOf: string, played: string, status: string, game: string,
    stats: map<string, string>)

  /** The ways the conversion panics while decoding `elo`. */
  datatype Panic =
    | EloNotU64       // `num.as_u64().unwrap()` on a negative or fractional number
    | EloOutOfRange   // `u16::try_from(..).unwrap()` on a u64 above 65535
    | EloUnparsable   // `num.parse::<u16>().unwrap()` on a string that is not a u16
    | EloInvalidType  // `panic!("elo has invalid type")`

  /**
   * The elo decoding of `Into<Match>`: absent stays absent; a number must be a
   * u64 that fits in u16; a string must parse as u16; anything else panics.
   */
  function DecodeElo(elo: Option<Value>): (r: Result<Option<nat>, Panic>)
    ensures elo.None? <==> r == Ok(None)
    ensures r.Ok? && r.value.Some? ==> r.value.value < U16_LIMIT
    ensures elo.Some? && elo.value.Number? ==>
      (r.Ok? <==> AsU64(elo.value.n).Some? && AsU64(elo.value.n).value < U16_LIMIT)
      && (r.Ok? ==> r.value == AsU64(elo.value.n))
    ensures elo.Some? && elo.value.String? ==>
      (r.Ok? <==> ParseU16(elo.value.s).Some?) && (r.Ok? ==> r.value == ParseU16(elo.value.s))
    ensures elo.Some? && !elo.value.Number? && !elo.value.String? ==> r == Err(EloInvalidType)
  {
    match elo
    case None => Ok(None)
    case Some(v) =>
      match v
      case Number(n) =>
        (match AsU64(n)
         case None => Err(EloNotU64)
         case Some(u) => if u < U16_LIMIT then Ok(Some(u)) else Err(EloOutOfRange))
      case String(s) =>
        (match ParseU16(s)
         case Some(e) => Ok(Some(e))
         case None => Err(EloUnparsable))
      case _ => Err(EloInvalidType)
  }

  /** Every u16 elo decodes to itself, whether sent as a JSON number or as a JSON string. */
  lemma DecodeEloRoundTrip(e: nat)
    requires e < U16_LIMIT
    ensures DecodeElo(Some(Number(PosInt(e)))) == Ok(Some(e))
    ensures DecodeElo(Some(String(NatToString(e)))) == Ok(Some(e))
  {
    ParseU16RoundTrip(e);
  }

  /** The panics of the elo decoding, one witness each. */
  lemma DecodeEloPanics()
    ensures DecodeElo(Some(Number(NegInt(-1)))) == Err(EloNotU64)
    ensures DecodeElo(Some(Number(Float))) == Err(EloNotU64)
    ensures DecodeElo(Some(Number(PosInt(U16_LIMIT)))) == Err(EloOutOfRange)
    ensures DecodeElo(Some(String("65536"))) == Err(EloUnparsable)
    ensures DecodeElo(Some(String("-1"))) == Err(EloUnparsable)
    ensures DecodeElo(Some(Bool(true))) == Err(EloInvalidType)
  {
    assert DigitsValue("65536") == 65536 by {
      assert "65"[..1] == "6" && DigitsValue("6") == 6;
      assert "655"[..2] == "65" && DigitsValue("65") == 65;
      assert "6553"[..3] == "655" && DigitsValue("655") == 655;
      assert "65536"[..4] == "6553" && DigitsValue("6553") == 6553;
    }
    assert !IsDigit("-1"[0]);
  }

  /**
   * `Into<Match> for Match_`: panics exactly when the elo does not decode;
   * otherwise copies the identifying fields, defaults the optional strings
   * to "", and keeps exactly the string-valued stats.
   */
  function MatchFromRaw(raw: RawMatch): (r: Result<Match, Panic>)
    ensures r.Err? <==> DecodeElo(raw.elo).Err?
    ensures r.Err? ==> r.error == DecodeElo(raw.elo).error
    ensures r.Ok? ==>
      && r.value.elo == DecodeElo(raw.elo).value
      && r.value.date == UnixTimeMs(raw.date)
      && r.value.matchId == raw.matchId && r.value.premade == raw.premade
      && r.value.teamId == raw.teamId && r.value.gameMode == raw.gameMode
      && r.value.status == raw.status && r.value.game == raw.game
      && (r.value.bestOf == if raw.bestOf.Some? then raw.bestOf.value else "")
      && (r.value.played == if raw.played.Some? then raw.played.value else "")
      && (forall k :: k in r.value.stats <==> k in raw.stats && raw.stats[k].String?)
      && (forall k :: k in r.value.stats ==> r.value.stats[k] == raw.stats[k].s)
  {
    match DecodeElo(raw.elo)
    case Err(p) => Err(p)
    case Ok(elo) =>
      Ok(Match(raw.matchId, UnixTimeMs(raw.date), elo, raw.premade, raw.teamId, raw.gameMode,
               raw.bestOf.GetOr(""), raw.played.GetOr(""), raw.status, raw.game, StringValued(raw.stats)))
  }

  /**
   * `Into<Matches> for Response`: converts the records in order; the first
   * record whose conversion panics aborts the whole conversion.
   */
  function MatchesFromResponse(raws: seq<RawMatch>): (r: Result<seq<Match>, Panic>)
    ensures r.Ok? <==> forall i :: 0 <= i < |raws| ==> MatchFromRaw(raws[i]).Ok?
    ensures r.Ok? ==> |r.value| == |raws| && forall i :: 0 <= i < |raws| ==> r.value[i] == MatchFromRaw(raws[i]).value
    ensures r.Err? ==> exists i :: 0 <= i < |raws| && MatchFromRaw(raws[i]) == Err(r.error)
                                   && forall j :: 0 <= j < i ==> MatchFromRaw(raws[j]).Ok?
  {
    if raws == [] then Ok([])
    else
      match MatchFromRaw(raws[0])
      case Err(p) => Err(p)
      case Ok(m) =>
        match MatchesFromResponse(raws[1..])
        case Err(p) => Err(p)
        case Ok(ms) => Ok([m] + ms)
  }

  /** `after` is `before` with only its stats normalised. */
  ghost predicate MatchNormalized(before: Match, mapping: Mapping, after: Match) {
    && after == before.(stats := after.stats)
    && IsNormalization(before.stats, mapping, after.stats)
  }

  /** `Matches`: the list of matches whose stats `map_stats` rewrites in place. */
  class Matches {
    var matches: seq<Match>

    constructor (matches: seq<Match>)
      ensures this.matches == matches
    {
      this.matches := matches;
    }

    /** `Matches::map_stats`: normalises each match's stats; count, order and every other field stay. */
    method MapStats(mapping: Mapping)
      modifies this
      ensures |matches| == |old(matches)|
      ensures forall i :: 0 <= i < |matches| ==> MatchNormalized(old(matches)[i], mapping, matches[i])
    {
      var i := 0;
      while i < |matches|
        invariant 0 <= i <= |matches| == |old(matches)|
        invariant forall k :: 0 <= k < i ==> MatchNormalized(old(matches)[k], mapping, matches[k])
        invariant matches[i..] == old(matches)[i..]
      {
        var stats := Normalize(matches[i].stats, mapping);
        matches := matches[i := matches[i].(stats := stats)];
        i := i + 1;
      }
    }
  }
}
