# faceit_api core, modelled in Dafny

This project models the logic of the `faceit_api` Rust crate that sits around
its HTTP glue:

- the human-readable formatters of `src/humanize.rs`: the `[Dd ]HH:MM:SS`
  clock (`FormattedDuration`), the rounded single-unit duration
  (`HumanDuration`), the comma-grouped count (`HumanCount`) and the text
  post-processing of `HumanFloatCount`;
- the stat-key normalisation of `src/mapping.rs` (`map_stats` on a
  `HashMap<String, String>` and the conversion of the configuration payload
  into the code-to-label table);
- the walks that apply that normalisation in place to a room's matches,
  teams and players (`src/room_stats.rs`) and to a player's match history
  (`src/matches.rs`), with the conversions of the decoded payloads;
- the small conversions of `src/stats.rs` (string-valued stat filter),
  `src/democracy.rs` (first map-veto ticket) and `src/shared.rs`
  (millisecond timestamps split into seconds and nanoseconds).

Files and modules:

| file | module | models |
|---|---|---|
| `wrappers.dfy` | `Wrappers` | `Option` and `Result` |
| `digits.dfy` | `Digits` | `to_string` of unsigned integers and `parse::<u16>` |
| `sets.dfy` | `Sets` | cardinality facts about subsets and images of maps |
| `shared.dfy` | `Shared` | `src/shared.rs`, the `as i64` / `as u32` casts |
| `json.dfy` | `Json` | `serde_json::Value` and the string-valued filter |
| `humanize.dfy` | `Humanize` | `src/humanize.rs` |
| `mapping.dfy` | `Mapping` | `src/mapping.rs` |
| `room_stats.dfy` | `RoomStats` | `src/room_stats.rs` |
| `matches.dfy` | `Matches` | `src/matches.rs` |
| `stats.dfy` | `LifetimeStats` | `src/stats.rs` |
| `democracy.dfy` | `Democracy` | `src/democracy.rs` |

Modelling choices:

- A `Duration` is a `nat` of nanoseconds, so `as_secs`, `cur / 2` and
  `next / 2` are exact integer operations. The `f64` division and `round()`
  of `HumanDuration` become exact rounding half up: `RoundedCount(d, u)` is
  the `t` with `2tu <= 2d + u < 2tu + 2u`.
- Text written to a `fmt::Formatter` is a `string` built up by the methods;
  `f.alternate()` is a parameter.
- `map_stats` on a hash map visits the entries in an unspecified order, and
  when two codes share a label the later one wins. `Mapping.Normalize` picks
  each next entry with `:|`, so its contract holds for every visiting order.
  Its specification is the relation `IsNormalization`: the keys are exactly
  the labels of the known codes, and each value is the value of some entry
  whose code has that label.
- The in-place walks are classes (`StatRecord`, `RoomStats.RoomStats`,
  `Matches.Matches`) whose `MapStats` method reassigns a `seq` or `map` field.
- The panics of the elo decoding are `Err` values of a `Panic` datatype.
  `Into<Matches>` is then a `Result`: the first record that panics aborts
  the conversion.
- chrono is not modelled. `Timestamp(secs, nanos)` is the pair of arguments
  handed to `Utc.timestamp`, after the `as i64` and `as u32` casts.
- `serde_json::Number` is a u64 (`PosInt`), a negative integer that fits an
  i64 (`NegInt`) or a float; serde_json stores every other number literal
  as a float. That is all `as_u64` distinguishes.

### Behaviour worth noting

- `HumanDuration` keeps the current unit when `d + next/2 >= cur + cur/2`
  holds and moves on to the finer unit when it does not
  (src/humanize.rs:81). `StopsAt` and `UnitIndex` state this test.
- The count is clamped to 2 after the unit is chosen (src/humanize.rs:89-91);
  the clamp does not take part in choosing the unit. `DisplayCountIsRounded`
  shows that it only ever lifts a rounded 1.
- A leading '-' is grouped like a digit (src/humanize.rs:163-170), so no
  property about a sign is stated.
- `unix_time_sec` wraps values of 2^63 and above to negative seconds through
  `as i64` (src/shared.rs:9, `Shared.UnixTimeSec`).

## Model

| member | source | states |
|---|---|---|
| `Digits.NatToString` | src/humanize.rs:141 | the decimal text of an unsigned integer: non-empty, digits only, no leading zero, one character exactly below 10 |
| `Digits.NatToStringValue` | src/humanize.rs:141 | reading the decimal text back gives the number |
| `Digits.ParseU16` | src/matches.rs:84 | `parse::<u16>` accepts an optional '+' and digits whose value is below 65536, and yields that value |
| `Digits.ParseU16RoundTrip` | src/matches.rs:84 | every u16 printed (with or without '+') parses back to itself |
| `Digits.ParseU16Rejects` | src/matches.rs:84 | empty text, a lone '+' and anything starting with '-' are rejected |
| `Shared.AsI64` | src/shared.rs:6 | `as i64` keeps values below 2^63 and subtracts 2^64 from the rest |
| `Shared.AsU32` | src/shared.rs:6 | `as u32` keeps the value modulo 2^32 |
| `Shared.UnixTimeMs` | src/shared.rs:3-7 | seconds are `unix / 1000`, nanoseconds `(unix % 1000) * 1000000`, a whole number of milliseconds below one second, and both casts are lossless |
| `Shared.UnixTimeMsRoundTrip` | src/shared.rs:4-5 | `secs * 1000 + nanos / 1000000 == unix` |
| `Shared.UnixTimeMsInjective` | src/shared.rs:4-6 | distinct millisecond values give distinct `(secs, nanos)` pairs |
| `Shared.UnixTimeSec` | src/shared.rs:8-10 | nanoseconds are 0; seconds are `unix` below 2^63 and wrap to negative above |
| `Json.AsU64` | src/matches.rs:83 | `as_u64` is `Some` exactly for a u64 number, with its value, and none for a negative integer or a float |
| `Json.StringValued` | src/stats.rs:34-40 | keeps exactly the entries whose value is a JSON string, same key, that string as value |
| `Json.StringValuedSize` | src/stats.rs:34-40 | the filter never grows the map, and keeps its size exactly when every value is a string |
| `Mapping.FromResponse` | src/mapping.rs:28-33 | the table has exactly the payload's codes, each mapped to its `label.en` |
| `Mapping.Normalize` | src/mapping.rs:42-45 | for every visiting order, the result is a normalisation of the input: keys are the labels of the known codes, values come from entries with that label |
| `Mapping.StatRecord.MapStats` | src/mapping.rs:40-46 | the record is replaced in place by a normalisation of its old contents |
| `Mapping.NormalizedKeysAreLabels` | src/mapping.rs:44 | every key left is a label of the table |
| `Mapping.LabelsOfSize` | src/mapping.rs:44 | a set of codes has at most as many labels, and exactly as many when all are known and no two share a label |
| `Mapping.NormalizedSize` | src/mapping.rs:42-45 | normalising never adds entries, and loses none exactly when every code is known and no two codes share a label |
| `Mapping.NormalizedValues` | src/mapping.rs:44 | when no two codes share a label, each known code's value sits unchanged under its label |
| `Mapping.NormalizedEmpty` | src/mapping.rs:42-45 | an empty table or an empty record gives the empty record |
| `Mapping.NormalizeTwiceDropsAll` | src/mapping.rs:42-45 | when no label is also a code, normalising a second time drops every entry |
| `Mapping.NormalizeExample` | src/mapping.rs:44 | `{"a":"1","b":"2"}` with table `{"a":"X"}` becomes `{"X":"1"}` |
| `RoomStats.TeamFromRaw` | src/room_stats.rs:61-69 | keeps team id, players and stats, drops `premade` |
| `RoomStats.MatchStatsFromRaw` | src/room_stats.rs:105-120 | copies game, game mode, match id, played and stats, converts the date, converts each team in order |
| `RoomStats.RoomStatsFromResponse` | src/room_stats.rs:99-103 | one converted record per raw record, same count and order |
| `RoomStats.NormalizeTeam` | src/room_stats.rs:89-94 | the team's stats and every player's stats are normalised; team id, players' count, order, nicknames and ids unchanged |
| `RoomStats.NormalizeMatch` | src/room_stats.rs:87-95 | the match's stats and every team are normalised; date, game, mode, id, played and the teams' count and order unchanged |
| `RoomStats.RoomStats.constructor` | src/room_stats.rs:99-103 | the room holds the converted records of the payload |
| `RoomStats.RoomStats.MapStats` | src/room_stats.rs:85-97 | every match, team and player stats map of the room is normalised in place; only stats change |
| `RoomStats.MatchNormalizedIsLabelled` | src/room_stats.rs:85-97 | after the walk every key at every level is a label of the table |
| `RoomStats.NormalizedRoomKeepsIdentities` | src/room_stats.rs:85-103 | converting and normalising keeps every match id, team id, nickname and player id of the payload in place |
| `Matches.DecodeElo` | src/matches.rs:82-86 | absent elo stays absent; a number decodes exactly when `as_u64` gives a value below 65536, a string exactly when it parses as u16; a bool, array or object panics (a null elo reaches the program as absent) |
| `Matches.DecodeEloRoundTrip` | src/matches.rs:83-84 | every u16 elo decodes to itself, sent as number or as string |
| `Matches.DecodeEloPanics` | src/matches.rs:82-86 | negative, fractional, too large, unparsable and wrongly typed elo values each panic with their own cause |
| `Matches.MatchFromRaw` | src/matches.rs:79-109 | panics exactly when the elo does not decode; otherwise copies the identifying fields, defaults `best_of` and `played` to "", keeps exactly the string-valued stats |
| `Matches.MatchesFromResponse` | src/matches.rs:111-115 | succeeds exactly when every record converts, then element by element in order; otherwise fails with the first panic |
| `Matches.Matches.constructor` | src/matches.rs:111-115 | the list holds the given matches |
| `Matches.Matches.MapStats` | src/matches.rs:73-77 | each match's stats is normalised in place; count, order and all other fields unchanged |
| `LifetimeStats.StatsFromResponse` | src/stats.rs:32-47 | match count is `rev`; creation time present exactly when given; both times converted by `unix_time_ms`; stats are exactly the string-valued fields and no more numerous |
| `Democracy.FindMapTicket` | src/democracy.rs:44 | the index of the first ticket whose entity type is "map", or none when there is none |
| `Democracy.MapVeto` | src/democracy.rs:41-46 | the entities of the first map ticket, in order, or empty when no ticket is a map ticket |
| `Democracy.DemocracyFromResponse` | src/democracy.rs:38-53 | the match id is copied and the veto is the first map ticket's entities |
| `Democracy.MapVetoTail` | src/democracy.rs:44 | a leading ticket of another kind is skipped |
| `Democracy.MapVetoIgnoresLaterTickets` | src/democracy.rs:44 | tickets after a map ticket never change the veto |
| `Democracy.MapVetoSkipsOtherTickets` | src/democracy.rs:44 | non-map tickets in front never change the veto |
| `Humanize.Pad2` | src/humanize.rs:53 | `{:02}`: digits whose value is the number, exactly two of them below 100 |
| `Humanize.DivSteps` | src/humanize.rs:44-50 | dividing by 60, 60 and 24 in turn is dividing by 3600 and by 86400 |
| `Humanize.FormattedDuration` | src/humanize.rs:42-57 | the text is `ClockText` of the whole seconds of the duration (`{days}d ` from one day on, then `Clock`: `HH:MM:SS` of hours within the day, minutes, seconds); sub-second nanoseconds are ignored |
| `Humanize.ClockFieldsRecompose` | src/humanize.rs:44-50 | hours < 24, minutes < 60, seconds < 60, and days, hours, minutes and seconds add back up to the seconds |
| `Humanize.ClockTextBelowDay` | src/humanize.rs:55 | below one day the text is `HH:MM:SS`: eight characters with ':' at 2 and 5 |
| `Humanize.DayRemainderFields` | src/humanize.rs:45-50 | the hour, minute and second fields are those of the time left within the day |
| `Humanize.ClockTextFromDay` | src/humanize.rs:51-53 | from one day on the text is the unpadded day count, "d " and the clock of the rest of the day |
| `Humanize.ClockWithinDay` | src/humanize.rs:53 | whole days do not change the clock part |
| `Humanize.ClockTextHourExample` | src/humanize.rs:55 | 3661 s read "01:01:01" |
| `Humanize.ClockTextDayExample` | src/humanize.rs:53 | 90061 s read "1d 01:01:01" |
| `Humanize.UnitsOrdered` | src/humanize.rs:101-108 | six units strictly decreasing, year = 365 days, week = 7 days, day = 24 h, hour = 60 min, minute = 60 s, seconds last |
| `Humanize.UnitNanos` | src/humanize.rs:7-12 | every unit is at least one second long |
| `Humanize.UnitNanosValues` | src/humanize.rs:7-12 | the unit lengths in nanoseconds |
| `Humanize.UnitIndexFrom` | src/humanize.rs:78-84 | the scan from a unit settles on the first unit at or after it where the tie-break holds, else on seconds |
| `Humanize.UnitIndex` | src/humanize.rs:77-86 | the chosen index is in range, is seconds or a unit where the tie-break holds, and the tie-break fails at every earlier unit |
| `Humanize.UnitIndexMonotone` | src/humanize.rs:81 | a longer duration never picks a finer unit |
| `Humanize.RoundedCount` | src/humanize.rs:88 | the nearest whole number of units, halves rounded up |
| `Humanize.HumanDuration` | src/humanize.rs:75-99 | the text is `HumanDurationText`: the unit is `UnitIndex`, the first where `StopsAt` (`d + next/2 >= cur + cur/2`) holds, else seconds; the count is `DisplayCount`, the rounded count clamped to at least 2 except for seconds; `Render` writes `{t}{abbr}` in alternate mode, else `{t} {name}` for 1 and `{t} {name}s` otherwise |
| `Humanize.DisplayCountAtLeastTwo` | src/humanize.rs:89-91 | every unit but seconds shows at least 2; a count of 1 only ever means seconds, for half a second up to just under one and a half |
| `Humanize.DisplayCountIsRounded` | src/humanize.rs:88-91 | the count shown is the rounded count, except that a rounded 1 is lifted to 2 |
| `Humanize.HumanDuration89Seconds` | src/humanize.rs:68-69 | 89 s read "89 seconds" |
| `Humanize.HumanDuration90Seconds` | src/humanize.rs:72-73 | 90 s read "2 minutes", "2m" in alternate mode |
| `Humanize.HumanDuration119Minutes` | src/humanize.rs:60-63 | 1 h 59 min read "2 hours" |
| `Humanize.HumanDurationOneSecond` | src/humanize.rs:95 | 1 s reads "1 second", singular |
| `Humanize.WriteGrouped` | src/humanize.rs:143-149 | the loop writes each character and a comma after those followed by a positive multiple of three characters |
| `Humanize.GroupedIsGroupRight` | src/humanize.rs:143-149 | the loop's grouping equals groups of three counted from the right with a leading group of one to three |
| `Humanize.GroupRightLength` | src/humanize.rs:143-149 | grouping adds `(n - 1) / 3` commas to n characters |
| `Humanize.GroupedStripCommas` | src/humanize.rs:143-149 | deleting the commas from the grouped text gives back the input |
| `Humanize.GroupedEnds` | src/humanize.rs:143-149 | the grouped text neither starts nor ends with a comma |
| `Humanize.GroupedChars` | src/humanize.rs:143-149 | the grouped text holds only input characters and commas |
| `Humanize.HumanCount` | src/humanize.rs:137-152 | the text is the decimal text grouped by threes from the right, and deleting its commas gives `n.to_string()` |
| `Humanize.HumanCountExample` | src/humanize.rs:137-152 | 1234567 reads "1,234,567" |
| `Humanize.SplitOnce` | src/humanize.rs:159 | `split_once('.')`: none exactly when there is no '.'; otherwise the parts around the first '.' |
| `Humanize.SplitOnceAt` | src/humanize.rs:159 | text with no '.' before a '.' splits exactly there |
| `Humanize.TrimEnd` | src/humanize.rs:171 | `trim_end_matches('0')`: the longest prefix not ending in '0', only '0's removed |
| `Humanize.HumanFloatCount` | src/humanize.rs:154-178 | the text is `FloatCountText`: the text is split at the first '.' (or taken whole with the truncated text when there is none), the integer part is grouped, and '.' plus the fraction without trailing zeros follows when that fraction is not empty |
| `Humanize.FloatCountShape` | src/humanize.rs:163-175 | for `int.frac` text: grouped integer part, trailing zeros trimmed, and a '.' exactly when a non-zero fraction digit exists |
| `Humanize.FloatCountFractionExample` | src/humanize.rs:163-175 | "1234.5000" reads "1,234.5" |
| `Humanize.FloatCountWholeExample` | src/humanize.rs:163-175 | "1000.0000" reads "1,000" |

## Left out

- HTTP, serde and the client (`src/client.rs`, every `impl Client` method,
  `src/nickname.rs`): network I/O and deserialisation by foreign crates. The
  models start from the decoded payload.
- `src/rate_limit.rs`: its behaviour is timing inside tokio's `Interval`.
- `src/room.rs`, `src/player_info.rs`, `src/search.rs`: field copies, chrono
  date arithmetic and an `f32` maximum, outside the modelled core.
- `src/lib.rs` is module wiring; the `types` module it declares is not part of
  this model.
- `HumanBytes`, `DecimalBytes`, `BinaryBytes`: they delegate to the external
  `number_prefix` crate on `f64` values.
- Humanize.HumanFloatCount: the `{:.4}` formatting of the `f64` and the
  `trunc().to_string()` text for a value without '.' are not modelled; both
  texts are parameters.
- Humanize.RoundedCount: rounds exactly, where the source divides and rounds
  in `f64`; the two may differ for durations too long to be represented
  exactly as `f64` seconds.
- Humanize.HumanDuration: `d + next / 2` on `Duration` panics on overflow for
  durations near `u64::MAX` seconds; the model's integers do not overflow.
- Humanize.HumanCount: takes any `nat`, where the source takes a `u64`.
- chrono: `Utc.timestamp`, its panic on out-of-range values, the conversion
  to local time and `parse_rfc3339` with its `unwrap`. The model stops at the
  arguments passed to `Utc.timestamp`.
- `stats.rs` and `democracy.rs` integer widths (`u16` match count, `u8`
  round): serde rejects out-of-range values before the conversions run, so
  they are `nat` here.
- Matches.DecodeElo: serde turns `"elo": null` into `None`, so the
  `Some(Null)` input, for which the model gives `EloInvalidType`, stands for
  no real input.
- Mapping.Normalize: when two codes share a label, which value wins depends
  on the hash map's order; the contract allows any of them and does not
  fix one.
