/**
 * The per-game pass of the batch run: rosters are collected from the
 * substitutions, shifts are reconstructed, and every shot statistic of every
 * play yields one row per defender, tagged on or off the ice and carrying
 * the shot's expected-goal estimate. The rows are returned instead of being
 * written to the output file.
 */
module GameRows {
  import opened Events
  import opened ExpectedGoals
  import opened Shifts
  import opened OnIce

  /**
   * Collects each side's roster from the substitutions: every player a
   * substitution puts on the ice joins the roster of that substitution's side.
   */
  method BuildRosters(plays: seq<Play>, homeId: TeamId) returns (homeRoster: set<PlayerId>, awayRoster: set<PlayerId>)
    ensures homeRoster == Roster(plays, homeId, Home)
    ensures awayRoster == Roster(plays, homeId, Away)
  {
    homeRoster, awayRoster := {}, {};
    var i := 0;
    while i < |plays|
      invariant 0 <= i <= |plays|
      invariant homeRoster == Roster(plays[..i], homeId, Home)
      invariant awayRoster == Roster(plays[..i], homeId, Away)
    {
      homeRoster, awayRoster := AddToRoster(homeRoster, awayRoster, plays[i], homeId);
      RosterStep(plays, i + 1, homeId, Home);
      RosterStep(plays, i + 1, homeId, Away);
      i := i + 1;
    }
    assert plays[..i] == plays;
  }

  /** A substitution adds its group to the roster of its side. */
  method AddToRoster(home0: set<PlayerId>, away0: set<PlayerId>, ev: Play, homeId: TeamId)
    returns (homeRoster: set<PlayerId>, awayRoster: set<PlayerId>)
    ensures homeRoster == home0 + (if IsSubstitution(ev) && SideOf(ev.attribution, homeId) == Home then Group(ev) else {})
    ensures awayRoster == away0 + (if IsSubstitution(ev) && SideOf(ev.attribution, homeId) == Away then Group(ev) else {})
  {
    homeRoster, awayRoster := home0, away0;
    if ev.eventType == Substitution {
      if SideOf(ev.attribution, homeId) == Home {
        homeRoster := homeRoster + Group(ev);
      } else {
        awayRoster := awayRoster + Group(ev);
      }
    }
  }

  /** The roster of the first `j` plays grows by the group of play `j - 1`. */
  lemma RosterStep(plays: seq<Play>, j: nat, homeId: TeamId, sd: Side)
    requires 0 < j <= |plays|
    ensures Roster(plays[..j], homeId, sd) == Roster(plays[..j - 1], homeId, sd) +
      (if IsSubstitution(plays[j - 1]) && SideOf(plays[j - 1].attribution, homeId) == sd then Group(plays[j - 1]) else {})
  {
    assert plays[..j][..j - 1] == plays[..j - 1];
  }

  /** One shot statistic: when, how dangerous, and which team took it. */
  datatype Shot = Shot(period: int, time: int, xg: real, attacker: TeamId)

  /** The shot a shot statistic of play `ev` records. */
  function ShotOf(ev: Play, stat: Statistic): Shot
  {
    Shot(ev.period, Time(ev), EstimateXg(ev.xgFields), stat.team)
  }

  /** The shots among the statistics `stats` of play `ev`, in order. */
  function StatShots(ev: Play, stats: seq<Statistic>): (shots: seq<Shot>)
    ensures |shots| <= |stats|
  {
    if stats == [] then []
    else
      var stat := stats[|stats| - 1];
      StatShots(ev, stats[..|stats| - 1]) +
        (if stat.statType == ShotStat then [ShotOf(ev, stat)] else [])
  }

  /** Every shot of the game, play by play. */
  function ShotsOf(plays: seq<Play>): seq<Shot>
  {
    if plays == [] then []
    else
      var ev := plays[|plays| - 1];
      ShotsOf(plays[..|plays| - 1]) + StatShots(ev, ev.statistics)
  }

  datatype OnOff = On | Off

  /** One output row: game, period, cumulative second, defender, on/off, xG. */
  datatype Row = Row(gameId: string, period: int, clockSeconds: int, player: PlayerId, onOff: OnOff, xg: real)

  /** What the shot loop reads besides the plays. */
  datatype Lineup = Lineup(shifts: ShiftMap, homeRoster: set<PlayerId>, awayRoster: set<PlayerId>, homeId: TeamId)

  function Defenders(shot: Shot, lu: Lineup): set<PlayerId>
  {
    DefendingRoster(shot.attacker, lu.homeRoster, lu.awayRoster, lu.homeId)
  }

  /** The players that have a row in `rows`. */
  function Players(rows: seq<Row>): set<PlayerId>
  {
    set i | 0 <= i < |rows| :: rows[i].player
  }

  /** The row for defender `p` at `shot`, tagged by whether `p` is on the ice. */
  function RowFor(gameId: string, shot: Shot, lu: Lineup, p: PlayerId): Row
  {
    Row(gameId, shot.period, shot.time, p, if OnIceAt(lu.shifts, p, shot.time) then On else Off, shot.xg)
  }

  /**
   * The rows of one shot: one per defender, each tagged by whether the
   * defender is on the ice, the on-ice rows first.
   */
  predicate ShotBlock(block: seq<Row>, shot: Shot, lu: Lineup, gameId: string)
  {
    |block| == |Defenders(shot, lu)| &&
    Players(block) == Defenders(shot, lu) &&
    (forall i, j :: 0 <= i < j < |block| ==> block[i].player != block[j].player) &&
    (forall i :: 0 <= i < |block| ==> block[i] == RowFor(gameId, shot, lu, block[i].player)) &&
    (forall i, j :: 0 <= i < j < |block| && block[i].onOff == Off ==> block[j].onOff == Off)
  }

  /** `rows` is the concatenation of one block per shot of `shots`, in order. */
  predicate RowsCover(rows: seq<Row>, shots: seq<Shot>, lu: Lineup, gameId: string)
    decreases shots
  {
    if shots == [] then rows == []
    else
      var n := |Defenders(shots[|shots| - 1], lu)|;
      n <= |rows| && ShotBlock(rows[|rows| - n..], shots[|shots| - 1], lu, gameId) &&
      RowsCover(rows[..|rows| - n], shots[..|shots| - 1], lu, gameId)
  }

  /** Appending one shot's block to covering rows covers that shot too. */
  lemma RowsCoverAppend(rows: seq<Row>, shots: seq<Shot>, block: seq<Row>, shot: Shot, lu: Lineup, gameId: string)
    requires RowsCover(rows, shots, lu, gameId)
    requires ShotBlock(block, shot, lu, gameId)
    ensures RowsCover(rows + block, shots + [shot], lu, gameId)
  {
    assert (shots + [shot])[..|shots|] == shots;
    assert (rows + block)[..|rows|] == rows && (rows + block)[|rows|..] == block;
  }

  /** The rows of the players `ps`, all with tag `tag`. */
  function TaggedRows(gameId: string, shot: Shot, ps: seq<PlayerId>, tag: OnOff): (r: seq<Row>)
    ensures |r| == |ps|
    ensures forall i :: 0 <= i < |ps| ==> r[i] == Row(gameId, shot.period, shot.time, ps[i], tag, shot.xg)
  {
    seq(|ps|, i requires 0 <= i < |ps| => Row(gameId, shot.period, shot.time, ps[i], tag, shot.xg))
  }

  /** The on-ice rows of `onIce` followed by the off-ice rows of `offIce`. */
  function TaggedBlock(gameId: string, shot: Shot, onIce: seq<PlayerId>, offIce: seq<PlayerId>): (block: seq<Row>)
    ensures |block| == |onIce| + |offIce|
    ensures forall i :: 0 <= i < |onIce| ==> block[i] == Row(gameId, shot.period, shot.time, onIce[i], On, shot.xg)
    ensures forall i :: |onIce| <= i < |block| ==>
      block[i] == Row(gameId, shot.period, shot.time, offIce[i - |onIce|], Off, shot.xg)
  {
    TaggedRows(gameId, shot, onIce, On) + TaggedRows(gameId, shot, offIce, Off)
  }

  /** The on-ice rows followed by the off-ice rows of a classification form one shot's block. */
  lemma ClassifiedBlock(gameId: string, shot: Shot, lu: Lineup, onIce: seq<PlayerId>, offIce: seq<PlayerId>)
    requires forall p :: p in Defenders(shot, lu) <==> p in onIce || p in offIce
    requires forall p :: p in onIce ==> OnIceAt(lu.shifts, p, shot.time)
    requires forall p :: p in offIce ==> !OnIceAt(lu.shifts, p, shot.time)
    requires NoDuplicates(onIce) && NoDuplicates(offIce)
    requires |onIce| + |offIce| == |Defenders(shot, lu)|
    ensures ShotBlock(TaggedBlock(gameId, shot, onIce, offIce), shot, lu, gameId)
  {
    var block := TaggedBlock(gameId, shot, onIce, offIce);
    BlockRows(gameId, shot, lu, onIce, offIce);
    BlockPlayers(gameId, shot, lu, onIce, offIce);
    BlockDistinct(gameId, shot, onIce, offIce);
  }

  lemma BlockRows(gameId: string, shot: Shot, lu: Lineup, onIce: seq<PlayerId>, offIce: seq<PlayerId>)
    requires forall p :: p in onIce ==> OnIceAt(lu.shifts, p, shot.time)
    requires forall p :: p in offIce ==> !OnIceAt(lu.shifts, p, shot.time)
    ensures var block := TaggedBlock(gameId, shot, onIce, offIce);
      (forall i :: 0 <= i < |block| ==> block[i] == RowFor(gameId, shot, lu, block[i].player)) &&
      (forall i, j :: 0 <= i < j < |block| && block[i].onOff == Off ==> block[j].onOff == Off)
  {
    var block := TaggedBlock(gameId, shot, onIce, offIce);
    forall i | 0 <= i < |block|
      ensures block[i] == RowFor(gameId, shot, lu, block[i].player)
    {
      if i < |onIce| {
        assert onIce[i] in onIce;
      } else {
        assert offIce[i - |onIce|] in offIce;
      }
    }
  }

  lemma BlockPlayers(gameId: string, shot: Shot, lu: Lineup, onIce: seq<PlayerId>, offIce: seq<PlayerId>)
    requires forall p :: p in Defenders(shot, lu) <==> p in onIce || p in offIce
    ensures Players(TaggedBlock(gameId, shot, onIce, offIce)) == Defenders(shot, lu)
  {
    var block := TaggedBlock(gameId, shot, onIce, offIce);
    forall i | 0 <= i < |block| ensures block[i].player in Defenders(shot, lu) {
      if i < |onIce| {
        assert onIce[i] in onIce;
      } else {
        assert offIce[i - |onIce|] in offIce;
      }
    }
    forall p | p in Defenders(shot, lu) ensures p in Players(block) {
      if p in onIce {
        var i :| 0 <= i < |onIce| && onIce[i] == p;
        assert block[i].player == p;
      } else {
        var i :| 0 <= i < |offIce| && offIce[i] == p;
        assert block[|onIce| + i].player == p;
      }
    }
  }

  lemma BlockDistinct(gameId: string, shot: Shot, onIce: seq<PlayerId>, offIce: seq<PlayerId>)
    requires NoDuplicates(onIce) && NoDuplicates(offIce)
    requires forall p :: p in onIce ==> p !in offIce
    ensures var block := TaggedBlock(gameId, shot, onIce, offIce);
      forall i, j :: 0 <= i < j < |block| ==> block[i].player != block[j].player
  {
    var block := TaggedBlock(gameId, shot, onIce, offIce);
    forall i, j | 0 <= i < j < |block| ensures block[i].player != block[j].player {
      if j >= |onIce| && i < |onIce| {
        assert onIce[i] in onIce;
      }
    }
  }

  /**
   * Classifies the defenders of one shot and appends their rows, on-ice
   * defenders first, counting every row written.
   */
  method WriteShotRows(gameId: string, shot: Shot, lu: Lineup, rows0: seq<Row>, count0: nat, ghost done: seq<Shot>)
    returns (rows: seq<Row>, rowCount: nat)
    requires count0 == |rows0|
    requires RowsCover(rows0, done, lu, gameId)
    ensures RowsCover(rows, done + [shot], lu, gameId)
    ensures rowCount == |rows|
  {
    var onD, offD := OnOffIce(lu.shifts, shot.time, shot.attacker, lu.homeRoster, lu.awayRoster, lu.homeId);
    var middle, middleCount := AppendTagged(gameId, shot, onD, On, rows0, count0);
    rows, rowCount := AppendTagged(gameId, shot, offD, Off, middle, middleCount);
    ghost var block := TaggedBlock(gameId, shot, onD, offD);
    TaggedBlockAppend(gameId, shot, onD, offD, rows0);
    ClassifiedBlock(gameId, shot, lu, onD, offD);
    RowsCoverAppend(rows0, done, block, shot, lu, gameId);
  }

  lemma TaggedBlockAppend(gameId: string, shot: Shot, onIce: seq<PlayerId>, offIce: seq<PlayerId>, rows: seq<Row>)
    ensures rows + TaggedRows(gameId, shot, onIce, On) + TaggedRows(gameId, shot, offIce, Off) ==
            rows + TaggedBlock(gameId, shot, onIce, offIce)
  {
  }

  /** Appends one row tagged `tag` per player of `ps`, counting each row. */
  method AppendTagged(gameId: string, shot: Shot, ps: seq<PlayerId>, tag: OnOff, rows0: seq<Row>, count0: nat)
    returns (rows: seq<Row>, rowCount: nat)
    requires count0 == |rows0|
    ensures rows == rows0 + TaggedRows(gameId, shot, ps, tag)
    ensures rowCount == |rows|
  {
    rows, rowCount := rows0, count0;
    var k := 0;
    while k < |ps|
      invariant 0 <= k <= |ps|
      invariant rows == rows0 + TaggedRows(gameId, shot, ps[..k], tag)
      invariant rowCount == |rows|
    {
      rows := rows + [Row(gameId, shot.period, shot.time, ps[k], tag, shot.xg)];
      rowCount := rowCount + 1;
      k := k + 1;
    }
    assert ps[..k] == ps;
  }

  /**
   * The shot loop of one game: for every shot statistic of every play, one
   * row per defender, on-ice rows first. Also counts the shots and the rows.
   */
  method ShotRows(gameId: string, plays: seq<Play>, lu: Lineup) returns (rows: seq<Row>, shots: nat, rowCount: nat)
    ensures RowsCover(rows, ShotsOf(plays), lu, gameId)
    ensures shots == |ShotsOf(plays)| && rowCount == |rows|
  {
    rows, shots, rowCount := [], 0, 0;
    var i := 0;
    while i < |plays|
      invariant 0 <= i <= |plays|
      invariant RowsCover(rows, ShotsOf(plays[..i]), lu, gameId)
      invariant shots == |ShotsOf(plays[..i])| && rowCount == |rows|
    {
      rows, shots, rowCount := PlayShotRows(gameId, plays[i], lu, rows, shots, rowCount, ShotsOf(plays[..i]));
      ShotsOfStep(plays, i);
      i := i + 1;
    }
    assert plays[..i] == plays;
  }

  /** The rows of the shot statistics of one play, appended to `rows0`. */
  method PlayShotRows(gameId: string, ev: Play, lu: Lineup, rows0: seq<Row>, shots0: nat, count0: nat, ghost done: seq<Shot>)
    returns (rows: seq<Row>, shots: nat, rowCount: nat)
    requires RowsCover(rows0, done, lu, gameId)
    requires shots0 == |done| && count0 == |rows0|
    ensures RowsCover(rows, done + StatShots(ev, ev.statistics), lu, gameId)
    ensures shots == |done + StatShots(ev, ev.statistics)| && rowCount == |rows|
  {
    rows, shots, rowCount := rows0, shots0, count0;
    ghost var seen := done;
    var j := 0;
    StatShotsEnds(done, ev);
    while j < |ev.statistics|
      invariant 0 <= j <= |ev.statistics|
      invariant seen == done + StatShots(ev, ev.statistics[..j])
      invariant RowsCover(rows, seen, lu, gameId)
      invariant shots == |seen| && rowCount == |rows|
    {
      StatShotsStep(done, ev, j);
      rows, shots, rowCount, seen := StatRows(gameId, ev, ev.statistics[j], lu, rows, shots, rowCount, seen);
      j := j + 1;
    }
  }

  /** The rows of one statistic of play `ev`: a block for a shot, nothing otherwise. */
  method StatRows(gameId: string, ev: Play, stat: Statistic, lu: Lineup, rows0: seq<Row>, shots0: nat, count0: nat, ghost seen0: seq<Shot>)
    returns (rows: seq<Row>, shots: nat, rowCount: nat, ghost seen: seq<Shot>)
    requires RowsCover(rows0, seen0, lu, gameId)
    requires shots0 == |seen0| && count0 == |rows0|
    ensures seen == seen0 + (if stat.statType == ShotStat then [ShotOf(ev, stat)] else [])
    ensures RowsCover(rows, seen, lu, gameId)
    ensures shots == |seen| && rowCount == |rows|
  {
    rows, shots, rowCount, seen := rows0, shots0, count0, seen0;
    if stat.statType == ShotStat {
      shots := shots + 1;
      var tEv := Time(ev);
      var xg := EstimateXg(ev.xgFields);
      var atkId := stat.team;
      var shot := Shot(ev.period, tEv, xg, atkId);
      rows, rowCount := WriteShotRows(gameId, shot, lu, rows, rowCount, seen);
      seen := seen + [shot];
    } else {
      assert seen == seen0 + [];
    }
  }

  lemma ShotsOfStep(plays: seq<Play>, i: nat)
    requires i < |plays|
    ensures ShotsOf(plays[..i + 1]) == ShotsOf(plays[..i]) + StatShots(plays[i], plays[i].statistics)
  {
    assert plays[..i + 1][..i] == plays[..i];
  }

  lemma StatShotsStep(done: seq<Shot>, ev: Play, j: nat)
    requires j < |ev.statistics|
    ensures var stat := ev.statistics[j];
      done + StatShots(ev, ev.statistics[..j + 1]) == done + StatShots(ev, ev.statistics[..j]) +
        (if stat.statType == ShotStat then [ShotOf(ev, stat)] else [])
  {
    assert ev.statistics[..j + 1][..j] == ev.statistics[..j];
  }

  lemma StatShotsEnds(done: seq<Shot>, ev: Play)
    ensures done + StatShots(ev, ev.statistics[..0]) == done
    ensures StatShots(ev, ev.statistics[..|ev.statistics|]) == StatShots(ev, ev.statistics)
  {
    assert ev.statistics[..|ev.statistics|] == ev.statistics;
  }

  /**
   * One game end to end, without the output file: shifts, rosters and the
   * rows of every shot. `awayId` is passed on to the shift reconstruction.
   */
  method ProcessGame(gameId: string, plays: seq<Play>, homeId: TeamId, awayId: TeamId)
    returns (rows: seq<Row>, shots: nat, rowCount: nat)
    ensures RowsCover(rows, ShotsOf(plays), GameLineup(plays, homeId), gameId)
    ensures shots == |ShotsOf(plays)| && rowCount == |rows|
  {
    var shifts := ParseShifts(plays, homeId, awayId);
    var homeRoster, awayRoster := BuildRosters(plays, homeId);
    rows, shots, rowCount := ShotRows(gameId, plays, Lineup(shifts, homeRoster, awayRoster, homeId));
  }

  /** The shifts and rosters of a game, as the shot loop sees them. */
  function GameLineup(plays: seq<Play>, homeId: TeamId): Lineup
  {
    Lineup(ShiftsOf(plays, homeId), Roster(plays, homeId, Home), Roster(plays, homeId, Away), homeId)
  }

  /** The rows of player `p` tagged `tag`. */
  function CountRows(rows: seq<Row>, p: PlayerId, tag: OnOff): nat
  {
    if rows == [] then 0
    else
      var last := rows[|rows| - 1];
      CountRows(rows[..|rows| - 1], p, tag) + (if last.player == p && last.onOff == tag then 1 else 0)
  }

  /** The shots at which `p` defends, on the ice when `tag` is On and off it otherwise. */
  function ShotsFaced(shots: seq<Shot>, lu: Lineup, p: PlayerId, tag: OnOff): nat
  {
    if shots == [] then 0
    else
      var last := shots[|shots| - 1];
      ShotsFaced(shots[..|shots| - 1], lu, p, tag) +
      (if p in Defenders(last, lu) && (OnIceAt(lu.shifts, p, last.time) <==> tag == On) then 1 else 0)
  }

  /** The shots at which `p` is among the defenders. */
  function ShotsDefended(shots: seq<Shot>, lu: Lineup, p: PlayerId): nat
  {
    if shots == [] then 0
    else ShotsDefended(shots[..|shots| - 1], lu, p) + (if p in Defenders(shots[|shots| - 1], lu) then 1 else 0)
  }

  lemma {:induction false} CountRowsAppend(a: seq<Row>, b: seq<Row>, p: PlayerId, tag: OnOff)
    ensures CountRows(a + b, p, tag) == CountRows(a, p, tag) + CountRows(b, p, tag)
    decreases |b|
  {
    if b == [] {
      assert a + b == a;
    } else {
      var init := b[..|b| - 1];
      assert (a + b)[..|a + b| - 1] == a + init;
      assert (a + b)[|a + b| - 1] == b[|b| - 1];
      CountRowsAppend(a, init, p, tag);
    }
  }

  /** In rows with distinct players, a player tagged `tag` is counted once or not at all. */
  lemma {:induction false} CountDistinct(rows: seq<Row>, p: PlayerId, tag: OnOff)
    requires forall i, j :: 0 <= i < j < |rows| ==> rows[i].player != rows[j].player
    ensures CountRows(rows, p, tag) ==
      if exists i :: 0 <= i < |rows| && rows[i].player == p && rows[i].onOff == tag then 1 else 0
  {
    if rows != [] {
      var k := |rows| - 1;
      var init := rows[..k];
      CountDistinct(init, p, tag);
      if rows[k].player == p {
        assert !exists i :: 0 <= i < |init| && init[i].player == p;
      }
      if i :| 0 <= i < |rows| && rows[i].player == p && rows[i].onOff == tag {
        if i < k {
          assert init[i].player == p;
        }
      }
    }
  }

  /** One shot's rows count `p` once exactly when `p` defends with that status. */
  lemma BlockCount(block: seq<Row>, shot: Shot, lu: Lineup, gameId: string, p: PlayerId, tag: OnOff)
    requires ShotBlock(block, shot, lu, gameId)
    ensures CountRows(block, p, tag) ==
      if p in Defenders(shot, lu) && (OnIceAt(lu.shifts, p, shot.time) <==> tag == On) then 1 else 0
  {
    CountDistinct(block, p, tag);
    if p in Defenders(shot, lu) {
      var i :| 0 <= i < |block| && block[i].player == p;
      assert block[i] == RowFor(gameId, shot, lu, p);
    }
  }

  /**
   * Over a game, the rows of `p` tagged `tag` are exactly as many as the
   * shots at which `p` defended with that on-ice status.
   */
  lemma {:induction false} RowsPerPlayer(rows: seq<Row>, shots: seq<Shot>, lu: Lineup, gameId: string, p: PlayerId, tag: OnOff)
    requires RowsCover(rows, shots, lu, gameId)
    ensures CountRows(rows, p, tag) == ShotsFaced(shots, lu, p, tag)
    decreases shots
  {
    if shots != [] {
      var last := shots[|shots| - 1];
      var m := |rows| - |Defenders(last, lu)|;
      RowsPerPlayer(rows[..m], shots[..|shots| - 1], lu, gameId, p, tag);
      BlockCount(rows[m..], last, lu, gameId, p, tag);
      CountRowsSplit(rows, m, p, tag);
    }
  }

  lemma CountRowsSplit(rows: seq<Row>, m: nat, p: PlayerId, tag: OnOff)
    requires m <= |rows|
    ensures CountRows(rows, p, tag) == CountRows(rows[..m], p, tag) + CountRows(rows[m..], p, tag)
  {
    CountRowsAppend(rows[..m], rows[m..], p, tag);
    assert rows[..m] + rows[m..] == rows;
  }

  /** On-ice and off-ice attempts of a player add up to the shots the player defended. */
  lemma {:induction false} AttemptsAddUp(shots: seq<Shot>, lu: Lineup, p: PlayerId)
    ensures ShotsFaced(shots, lu, p, On) + ShotsFaced(shots, lu, p, Off) == ShotsDefended(shots, lu, p)
  {
    if shots != [] {
      AttemptsAddUp(shots[..|shots| - 1], lu, p);
    }
  }

  /**
   * Every row is tagged on exactly when its player is on the ice at its
   * second, and only rostered players get rows.
   */
  predicate TagsCorrect(rows: seq<Row>, lu: Lineup)
  {
    forall i :: 0 <= i < |rows| ==>
      (rows[i].onOff == On <==> OnIceAt(lu.shifts, rows[i].player, rows[i].clockSeconds)) &&
      rows[i].player in lu.homeRoster + lu.awayRoster
  }

  lemma {:induction false} RowsTagged(rows: seq<Row>, shots: seq<Shot>, lu: Lineup, gameId: string)
    requires RowsCover(rows, shots, lu, gameId)
    ensures TagsCorrect(rows, lu)
    decreases shots
  {
    if shots != [] {
      var last := shots[|shots| - 1];
      var m := |rows| - |Defenders(last, lu)|;
      RowsTagged(rows[..m], shots[..|shots| - 1], lu, gameId);
      BlockTagged(rows[m..], last, lu, gameId);
      TagsSplit(rows, m, lu);
    }
  }

  lemma BlockTagged(block: seq<Row>, shot: Shot, lu: Lineup, gameId: string)
    requires ShotBlock(block, shot, lu, gameId)
    ensures TagsCorrect(block, lu)
  {
    forall i | 0 <= i < |block|
      ensures block[i].player in lu.homeRoster + lu.awayRoster
    {
      assert block[i].player in Players(block);
    }
  }

  lemma TagsSplit(rows: seq<Row>, m: nat, lu: Lineup)
    requires m <= |rows|
    requires TagsCorrect(rows[..m], lu) && TagsCorrect(rows[m..], lu)
    ensures TagsCorrect(rows, lu)
  {
    forall i | 0 <= i < |rows|
      ensures (rows[i].onOff == On <==> OnIceAt(lu.shifts, rows[i].player, rows[i].clockSeconds))
      ensures rows[i].player in lu.homeRoster + lu.awayRoster
    {
      if i < m {
        assert rows[i] == rows[..m][i];
      } else {
        assert rows[i] == rows[m..][i - m];
      }
    }
  }

  /** A play that holds any shot statistic. */
  predicate HasShotStat(ev: Play)
  {
    exists j :: 0 <= j < |ev.statistics| && ev.statistics[j].statType == ShotStat
  }

  /** Statistics none of which is a shot yield no shots. */
  lemma {:induction false} StatShotsNone(ev: Play, stats: seq<Statistic>)
    requires forall j :: 0 <= j < |stats| ==> stats[j].statType != ShotStat
    ensures StatShots(ev, stats) == []
  {
    if stats != [] {
      var init := stats[..|stats| - 1];
      assert forall j :: 0 <= j < |init| ==> init[j] == stats[j];
      StatShotsNone(ev, init);
    }
  }

  /** Plays without a shot statistic yield no shots. */
  lemma {:induction false} NoShotStatsNoShots(plays: seq<Play>)
    requires forall i :: 0 <= i < |plays| ==> !HasShotStat(plays[i])
    ensures ShotsOf(plays) == []
  {
    if plays != [] {
      var init := plays[..|plays| - 1];
      assert forall i :: 0 <= i < |init| ==> init[i] == plays[i];
      NoShotStatsNoShots(init);
      var ev := plays[|plays| - 1];
      assert !HasShotStat(ev);
      StatShotsNone(ev, ev.statistics);
    }
  }

  /**
   * A game whose plays hold no shot statistic yields no rows, so the rows
   * `ShotRows` and `ProcessGame` return for it are empty.
   */
  lemma NoShotsNoRows(rows: seq<Row>, plays: seq<Play>, lu: Lineup, gameId: string)
    requires forall i :: 0 <= i < |plays| ==> !HasShotStat(plays[i])
    requires RowsCover(rows, ShotsOf(plays), lu, gameId)
    ensures rows == [] && |ShotsOf(plays)| == 0
  {
    NoShotStatsNoShots(plays);
  }
}
