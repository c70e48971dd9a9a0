# Defensive on-ice/off-ice shot records, modelled in Dafny

This project models the core of `main.py`, a script that turns one NHL
game's play-by-play events into one record per defender per shot. Each
record is tagged "on" or "off" by whether the defender was on the ice when
the shot was taken, and carries the shot's expected-goal (xG) value. The
model covers these parts of the script:

- **`clock_to_seconds`**: converts a "MM:SS left in the period" reading and
  a period number into cumulative seconds since puck-drop, with 1200-second
  periods (module `Clock`).
- **`estimate_xg`**: an explicit expected-goal value on the event wins.
  Without one, a missing distance gives 0.0, and otherwise a five-tier step
  function of the distance applies (module `ExpectedGoals`).
- **`parse_shifts`**: rebuilds every player's shifts from the game's
  substitution events (module `Shifts`, properties in `ShiftProperties`):
  - substitutions are replayed in ascending cumulative time, using a stable
    sort (module `Sorting`);
  - each substitution names the new on-ice group of one side;
  - players who drop out of the group have their open shift closed, and new
    arrivals open one;
  - shifts still open at the end are closed at the latest timestamp of any
    play of the game.
- **`on_off_ice`**: splits the defending roster at a shot's second into
  on-ice and off-ice players (module `OnIce`). A shift contains its own end
  points.
- **The roster build and shot loop of one game**: rosters are the union of
  each side's substitution groups. Every shot statistic yields one row per
  defender, with the on-ice rows first (module `GameRows`). The rows are
  returned instead of written to a CSV file.

Plays are modelled as records with the keys the script reads (`Events.Play`).
One play can carry several statistics, and each shot statistic counts as a
shot with its own attacking team. The loops over Python sets (the leaving
and arriving players, the defenders) are modelled as loops that pick an
arbitrary remaining element. Their contracts therefore hold whatever order
the iteration takes.

Each imperative function is a method proved against a specification
function. `ParseShifts` is proved equal to `ShiftsOf`, a fold of `Step` over
the sorted substitutions followed by the final close. `ShotRows` is proved
to produce the rows described by `RowsCover`: one block per shot, holding
exactly the defenders of that shot. The lemmas then state what those
specifications guarantee.

Behaviour of the script worth noting:

- Shot distance is read from the event's `distance` detail. It is not
  computed from coordinates.
- The xG estimate applies no angle or shot-type multipliers and no lookup
  against a reference dataset.
- A malformed clock is not recovered from: the conversion raises.
- Consecutive shifts of one player may share an end point. A player leaving
  and rejoining at the same second gets `[a, t]` then `[t, b]`, so
  "non-overlapping" holds only in the sense `end <= next start`.
- The open-shift table is shared by both sides. A player who appears in both
  teams' groups can have a shift closed or restarted by the other team's
  substitution, so some properties below need the two rosters to be
  disjoint.

## Model

| member | source | states |
|---|---|---|
| Clock.ClockToSeconds | main.py:36-41 | The result plus the seconds left equals `period * 1200`; a well-formed clock (seconds below 60, at most 20:00 left) lands inside its period |
| Clock.SecondsRoundTrip | main.py:36-41 | Converting any cumulative second to a (period, clock) reading and back gives the same second |
| Clock.ClockRoundTrip | main.py:36-41 | A well-formed clock that is not at 00:00 is recovered exactly from its cumulative second |
| Clock.PeriodEndIsNextStart | main.py:36-41 | 00:00 of period p and 20:00 of period p+1 are the same instant |
| Clock.ClockOrder | main.py:36-41 | Within a period, less time left means a later instant, in both directions; a later period is never earlier |
| Clock.ClockExamples | main.py:36-41 | 20:00 of period 1 is 0, 00:00 of period 1 is 1200, 00:00 of period 2 is 2400 |
| ExpectedGoals.EstimateXg | main.py:44-55 | An explicit value is returned unchanged; no value and no distance gives 0.0; otherwise the result is one of 0.20, 0.12, 0.08, 0.04, 0.02 and equals the tier-table lookup |
| ExpectedGoals.DistanceTierIsLookup | main.py:51-55 | The if-chain equals the first-matching-tier reading of the table (10, 0.20), (20, 0.12), (30, 0.08), (40, 0.04), else 0.02 |
| ExpectedGoals.LookupMonotone | main.py:51-55 | Any tier table whose probabilities never increase outwards gives a non-increasing function of distance |
| ExpectedGoals.DistanceTierMonotone | main.py:51-55 | A farther shot is never worth more, and every tier value lies in [0.02, 0.20] |
| ExpectedGoals.EstimateExamples | main.py:44-55 | Distance 5 gives 0.20, distance 25 gives 0.08, no distance gives 0.0, an explicit 0.31 wins over distance 5 |
| Events.Substitutions | main.py:88 | The substitutions are exactly the plays of type substitution, and there are no more of them than plays |
| Events.SubstitutionsAppend | main.py:88 | The filter distributes over concatenation, so it keeps the plays' order and any repeated play, as the list comprehension does |
| Events.SubstitutionsSnoc | main.py:88 | One more play adds itself to the end of the substitutions exactly when it is a substitution |
| Events.FinalTime | main.py:122-127 | The final time is no earlier than any play's time and is the time of some play; 0 for no plays |
| Events.Roster | main.py:174-181 | A player is in a side's roster exactly when some substitution of that side lists the player |
| Sorting.SortBy | main.py:95-98 | The result is sorted by key, is a permutation of the input, and keeps the input order among elements with equal keys |
| Shifts.ParseShifts | main.py:83-133 | The result equals the specification `ShiftsOf`: empty for a game without substitutions, otherwise the replay of the time-sorted substitutions with every still-open shift closed at the final time |
| Shifts.ApplySubstitution | main.py:104-120 | One loop iteration leaves exactly the replay state `Step` prescribes for that substitution |
| Shifts.CloseLeaving | main.py:110-114 | Visiting the leaving players in any order gives the closed form `CloseShifts`: each leaving player with an open shift gets exactly that interval, ending at t0, appended, while every other player's shifts stay unchanged; the leaving players are removed from the open-shift table |
| Shifts.OpenArriving | main.py:116-118 | Visiting the arriving players in any order gives the closed form: every arriving player has an open shift starting at t0, and every other entry is unchanged |
| Shifts.CloseStillOpen | main.py:129-131 | Visiting the open shifts in any order gives the closed form `CloseShifts` over all open players: every open shift is appended, closed at the final time |
| ShiftProperties.StepKeepsInvariant | main.py:104-120 | A substitution no earlier than the previous ones keeps every closed shift ordered and anchored at substitution instants, and every open shift starting no earlier than the end of the player's last closed one |
| ShiftProperties.ReplayKeepsInvariant | main.py:95-120 | Replaying time-sorted substitutions keeps that invariant up to the last substitution's second |
| ShiftProperties.CloseAllKeepsOrder | main.py:122-131 | Closing all open shifts at a time no earlier than the replay's last second leaves every player's list valid |
| ShiftProperties.ShiftsWellFormed | main.py:95-131 | Every player's shifts are non-empty, start no later than they end, each ends no later than the next starts, none ends after the final time, each starts at a substitution instant and ends at one or at the final time |
| ShiftProperties.SortedSubstitutionsFromPlays | main.py:88-98 | The sorted substitutions are exactly the game's substitution plays, as many as before sorting |
| ShiftProperties.ReplayWithinRosters | main.py:104-120 | During the replay the on-ice sets lie within the rosters; the players with an open shift are among those on the ice, and are exactly those when the rosters are disjoint |
| ShiftProperties.OpenShiftsAreOnIce | main.py:101-120 | At every point of the loop the open-shift table's players are among the on-ice players, and are exactly them when no player appears for both sides |
| ShiftProperties.ShiftPlayersInRosters | main.py:83-133 | Only rostered players have shifts |
| ShiftProperties.ShiftPlayersAreRostered | main.py:83-133 | The players with shifts are exactly the players of the two rosters |
| ShiftProperties.RostersHaveShifts | main.py:104-120 | Every player some replayed substitution lists has a closed or an open shift |
| ShiftProperties.NoSubstitutionsNoShifts | main.py:88-90 | A game without substitutions has empty rosters and an empty shift map |
| ShiftProperties.FirstAppearanceOpens | main.py:116-118 | The substitution where a player first appears opens that player's shift at its second, with no closed shift before it |
| ShiftProperties.ReplayKeepsOpen | main.py:110-120 | Later substitutions that keep the player on the ice of the same side, and never name the player for the other side, leave that open shift untouched |
| ShiftProperties.NeverRemovedSingleShift | main.py:104-131 | A player first put on the ice at second T and never removed afterwards has exactly one shift, [T, final time] |
| ShiftProperties.OpenAtEndSingleShift | main.py:129-131 | A shift still open after the replay, with none closed before it, becomes the player's only shift, ending at the final time |
| OnIce.Covers | main.py:144 | True exactly when some interval contains t, both end points included |
| OnIce.OnOffIce | main.py:136-148 | The two lists together hold exactly the defending roster (away if the home team attacks, home otherwise); every on-ice player has a shift containing t and no off-ice player has one; no player is listed twice |
| OnIce.NoShiftsOffIce | main.py:144 | A player without a shift entry is off the ice at every second |
| OnIce.NoSubstitutionsAllOffIce | main.py:88-90 | In a game without substitutions every player is off the ice at every second |
| OnIce.CoversExamples | main.py:144 | With shifts [0,100] and [150,200]: 120 is off the ice; 50, 100 and 150 are on it |
| GameRows.BuildRosters | main.py:174-181 | The loop builds exactly the home and away rosters of `Events.Roster`, which holds a player exactly when some substitution of that side lists the player |
| GameRows.AddToRoster | main.py:177-179 | A substitution adds the players it lists to its own side's roster and leaves the other roster unchanged; any other play changes neither roster |
| GameRows.ClassifiedBlock | main.py:193-199 | The on-ice rows followed by the off-ice rows form a valid block for the shot: one row per defender, each tagged by the defender's status, on before off |
| GameRows.WriteShotRows | main.py:193-199 | Writing one shot's rows extends rows that cover the previous shots into rows that cover those shots and this one; the row counter follows |
| GameRows.AppendTagged | main.py:194-199 | The loop appends one row per listed player, in list order, each with the shot's game, period, second and xG and the given tag (the closed form `TaggedRows`), and counts them |
| GameRows.StatRows | main.py:185-199 | A shot statistic adds one covered shot with its rows and bumps the shot counter; any other statistic changes nothing |
| GameRows.PlayShotRows | main.py:185-199 | All statistics of one play add exactly that play's shots, in order, with their rows |
| GameRows.ShotRows | main.py:183-199 | The rows cover every shot of the game in play order, one block per shot; the counters are the number of shots and of rows |
| GameRows.ProcessGame | main.py:172-199 | With the reconstructed shifts and the rosters of the game, the rows cover every shot of the game |
| GameRows.CountRowsAppend | main.py:193-199 | Counting a player's rows with a tag adds up over concatenation |
| GameRows.BlockCount | main.py:193-199 | One shot's block has one row for a player exactly when the player defends that shot with that status |
| GameRows.RowsPerPlayer | main.py:183-199 | Over a game, a player's rows tagged on (off) are exactly as many as the shots the player defended while on (off) the ice |
| GameRows.AttemptsAddUp | main.py:193-199 | A player's on-ice and off-ice shot counts add up to the number of shots at which the player's side was defending |
| GameRows.RowsTagged | main.py:193-199 | Every row is tagged on exactly when its player is on the ice at its second, and only rostered players get rows |
| GameRows.NoShotStatsNoShots | main.py:184-188 | Plays none of which holds a shot statistic yield no shots |
| GameRows.NoShotsNoRows | main.py:183-199 | The rows that cover the shots of a game whose plays hold no shot statistic, such as those `ShotRows` and `ProcessGame` return, are empty, and the shot count is 0 |

## Left out

- Fetching the schedule and the play-by-play (main.py:58-80) is network I/O. The model starts from the flattened list of plays, with each play's period already set.
- Logging, the CSV writer and its header, the `TEST_MODE` game limit and the loop over games are left out. They are I/O and configuration. The shot loop returns its rows and counters instead of writing them.
- `post.py` is not part of this model. It is a pandas aggregation and printing step over the CSV file.
- `config.py` is not part of this model. It holds constants only.
- Splitting the "MM:SS" string and converting it with `int` is left out. The clock is taken as already split into minutes and seconds, and a malformed string, which would raise, is not modelled.
- `ExpectedGoals.EstimateXg`: an `expected_goals` key that is present but null is returned as None by the source; the model treats the value as present and real.
- The xG values and distances are exact reals, not IEEE doubles.
- A play that lacks a key the script reads makes the script raise `KeyError` and stop. The keys are `clock_decimal` and `period` on any play, `attribution` and `players` on a substitution, and `team` on a shot statistic. `Events.Play` always carries these fields, so the model does not capture that failure.
- A missing `statistics` key is modelled as an empty list, which is what the source's default does.
- The iteration order of Python sets is not modelled. The order of players inside one shot's on-ice and off-ice row groups is therefore left open.
- `Sorting.SortBy`: Python's Timsort is replaced by a stable insertion sort. Both are stable, so they give the same result.
- `Shifts.ParseShifts`: `away_id` is accepted but not consulted, as in the source. Every team other than the home team counts as the away side.
- `ShiftProperties.OpenShiftsAreOnIce`: the open-shift players equal the on-ice players only when no player appears for both sides, because both sides share one open-shift table.
- `ShiftProperties.NeverRemovedSingleShift`: this also requires that the player is never listed in the other side's group, and that the substitution at T is the player's first appearance. An earlier appearance would leave an earlier shift, and an appearance for the other side would close or restart the shared open shift.
- `GameRows.ProcessGame`: the returned totals are per game. The running total across games is left out along with the loop over games.
