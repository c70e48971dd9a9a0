/**
 * Shift reconstruction: rebuilds every player's on-ice intervals of one game
 * from its substitution events. Substitutions are replayed in time order;
 * each names the complete new on-ice group of one side, so players who drop
 * out of the group have their open shift closed and players who join it open
 * one. Shifts still open after the last substitution are closed at the
 * latest timestamp of any play of the game.
 */
module Shifts {
  import opened Events
  import opened Sorting

  /** An on-ice interval in cumulative game seconds, both ends inclusive. */
  datatype Interval = Interval(start: int, end: int)

  /** Each player's closed shifts, in the order they were closed. */
  type ShiftMap = map<PlayerId, seq<Interval>>

  /** The shifts of `p`; a player without an entry has none. */
  function ShiftsFor(shifts: ShiftMap, p: PlayerId): seq<Interval>
  {
    if p in shifts then shifts[p] else []
  }

  /** What the replay keeps between substitutions. */
  datatype ReplayState = ReplayState(
    shifts: ShiftMap,
    homeOnIce: set<PlayerId>,
    awayOnIce: set<PlayerId>,
    shiftStart: map<PlayerId, int>)
  {
    function OnIce(sd: Side): set<PlayerId>
    {
      if sd == Home then homeOnIce else awayOnIce
    }
  }

  const Initial: ReplayState := ReplayState(map[], {}, {}, map[])

  /**
   * Closes, at second `t`, the open shift of every player of `leaving` who
   * has one; everybody else's shifts are unchanged.
   */
  function CloseShifts(shifts: ShiftMap, shiftStart: map<PlayerId, int>, leaving: set<PlayerId>, t: int): (r: ShiftMap)
    ensures r.Keys == shifts.Keys + (leaving * shiftStart.Keys)
    ensures forall p :: p in leaving && p in shiftStart ==>
      ShiftsFor(r, p) == ShiftsFor(shifts, p) + [Interval(shiftStart[p], t)]
    ensures forall p :: !(p in leaving && p in shiftStart) ==> ShiftsFor(r, p) == ShiftsFor(shifts, p)
  {
    map p | p in shifts.Keys + (leaving * shiftStart.Keys) ::
      if p in leaving && p in shiftStart then ShiftsFor(shifts, p) + [Interval(shiftStart[p], t)]
      else shifts[p]
  }

  /** Open shifts after `leaving` dropped theirs and `arriving` opened one at `t`. */
  function OpenShifts(shiftStart: map<PlayerId, int>, leaving: set<PlayerId>, arriving: set<PlayerId>, t: int): (r: map<PlayerId, int>)
    ensures r.Keys == (shiftStart.Keys - leaving) + arriving
    ensures forall p :: p in arriving ==> r[p] == t
    ensures forall p :: p in shiftStart && p !in leaving && p !in arriving ==> r[p] == shiftStart[p]
  {
    (shiftStart - leaving) + map p | p in arriving :: t
  }

  /** The effect of one substitution event on the replay. */
  function Step(st: ReplayState, ev: Play, homeId: TeamId): ReplayState
  {
    var t0 := Time(ev);
    var sd := SideOf(ev.attribution, homeId);
    var group := Group(ev);
    var leaving := st.OnIce(sd) - group;
    var arriving := group - st.OnIce(sd);
    ReplayState(
      CloseShifts(st.shifts, st.shiftStart, leaving, t0),
      if sd == Home then group else st.homeOnIce,
      if sd == Away then group else st.awayOnIce,
      OpenShifts(st.shiftStart, leaving, arriving, t0))
  }

  /** The replay state after the substitutions `subs`, applied in order. */
  function Replay(subs: seq<Play>, homeId: TeamId): ReplayState
  {
    if subs == [] then Initial
    else Step(Replay(subs[..|subs| - 1], homeId), subs[|subs| - 1], homeId)
  }

  /** The game's substitutions in ascending time, ties in their original order. */
  function SortedSubstitutions(plays: seq<Play>): seq<Play>
  {
    SortBy(Substitutions(plays), Time)
  }

  /** The shift map of a game: the specification of ParseShifts. */
  function ShiftsOf(plays: seq<Play>, homeId: TeamId): ShiftMap
  {
    if Substitutions(plays) == [] then map[]
    else
      var st := Replay(SortedSubstitutions(plays), homeId);
      CloseShifts(st.shifts, st.shiftStart, st.shiftStart.Keys, FinalTime(plays))
  }

  /**
   * Reconstructs the shifts of one game from its plays. `awayId` is not
   * consulted: every team other than the home team counts as the away side.
   */
  method ParseShifts(plays: seq<Play>, homeId: TeamId, awayId: TeamId) returns (shifts: ShiftMap)
    ensures shifts == ShiftsOf(plays, homeId)
  {
    var subs := Substitutions(plays);
    if subs == [] {
      return map[];
    }
    var subsSorted := SortBy(subs, Time);
    shifts := map[];
    var homeOnIce: set<PlayerId>, awayOnIce: set<PlayerId> := {}, {};
    var shiftStart: map<PlayerId, int> := map[];
    var i := 0;
    while i < |subsSorted|
      invariant 0 <= i <= |subsSorted|
      invariant ReplayState(shifts, homeOnIce, awayOnIce, shiftStart) == Replay(subsSorted[..i], homeId)
    {
      shifts, homeOnIce, awayOnIce, shiftStart := ApplySubstitution(shifts, homeOnIce, awayOnIce, shiftStart, subsSorted[i], homeId);
      assert subsSorted[..i + 1][..i] == subsSorted[..i];
      i := i + 1;
    }
    assert subsSorted[..i] == subsSorted;
    var finalT := FinalTime(plays);
    shifts := CloseStillOpen(shifts, shiftStart, finalT);
  }

  /**
   * One substitution: the players of the side's previous group who are not
   * in the new group have their shift closed, the new arrivals open one,
   * and the new group becomes the side's on-ice set.
   */
  method ApplySubstitution(shifts0: ShiftMap, homeOnIce0: set<PlayerId>, awayOnIce0: set<PlayerId>,
                           start0: map<PlayerId, int>, ev: Play, homeId: TeamId)
    returns (shifts: ShiftMap, homeOnIce: set<PlayerId>, awayOnIce: set<PlayerId>, shiftStart: map<PlayerId, int>)
    ensures ReplayState(shifts, homeOnIce, awayOnIce, shiftStart) ==
            Step(ReplayState(shifts0, homeOnIce0, awayOnIce0, start0), ev, homeId)
  {
    var t0 := Time(ev);
    var sd := SideOf(ev.attribution, homeId);
    var group := Group(ev);
    var onIce := if sd == Home then homeOnIce0 else awayOnIce0;
    shifts, shiftStart := CloseLeaving(shifts0, start0, onIce - group, t0);
    shiftStart := OpenArriving(shiftStart, group - onIce, t0);
    homeOnIce, awayOnIce := homeOnIce0, awayOnIce0;
    if sd == Home {
      homeOnIce := group;
    } else {
      awayOnIce := group;
    }
  }

  /**
   * For each player of `leaving`, pops the open shift if there is one and
   * appends it to the player's shifts, closed at `t0`.
   */
  method CloseLeaving(shifts0: ShiftMap, start0: map<PlayerId, int>, leaving: set<PlayerId>, t0: int)
    returns (shifts: ShiftMap, shiftStart: map<PlayerId, int>)
    ensures shifts == CloseShifts(shifts0, start0, leaving, t0)
    ensures shiftStart == start0 - leaving
  {
    shifts, shiftStart := shifts0, start0;
    var toClose := leaving;
    ghost var done: set<PlayerId> := {};
    while toClose != {}
      invariant toClose <= leaving && done == leaving - toClose
      invariant shifts == CloseShifts(shifts0, start0, done, t0)
      invariant shiftStart == start0 - done
      decreases toClose
    {
      var pid :| pid in toClose;
      CloseOneMore(shifts0, start0, done, pid, t0);
      assert pid in shiftStart <==> pid in start0;
      if pid in shiftStart {
        assert shiftStart[pid] == start0[pid];
        shifts := shifts[pid := ShiftsFor(shifts, pid) + [Interval(shiftStart[pid], t0)]];
        shiftStart := shiftStart - {pid};
      } else {
        assert shiftStart - {pid} == shiftStart;
      }
      toClose := toClose - {pid};
      done := done + {pid};
      assert shiftStart == start0 - done;
    }
    assert done == leaving;
  }

  /** Opens a shift at `t0` for every player of `arriving`. */
  method OpenArriving(start0: map<PlayerId, int>, arriving: set<PlayerId>, t0: int)
    returns (shiftStart: map<PlayerId, int>)
    ensures shiftStart == start0 + map p | p in arriving :: t0
  {
    shiftStart := start0;
    var toOpen := arriving;
    while toOpen != {}
      invariant toOpen <= arriving
      invariant shiftStart == start0 + map p | p in arriving - toOpen :: t0
      decreases toOpen
    {
      var pid :| pid in toOpen;
      assert arriving - (toOpen - {pid}) == (arriving - toOpen) + {pid};
      shiftStart := shiftStart[pid := t0];
      toOpen := toOpen - {pid};
    }
  }

  /** Closes every shift still open, at the final timestamp `finalT`. */
  method CloseStillOpen(shifts0: ShiftMap, shiftStart: map<PlayerId, int>, finalT: int)
    returns (shifts: ShiftMap)
    ensures shifts == CloseShifts(shifts0, shiftStart, shiftStart.Keys, finalT)
  {
    shifts := shifts0;
    var open := shiftStart.Keys;
    ghost var done: set<PlayerId> := {};
    while open != {}
      invariant open <= shiftStart.Keys && done == shiftStart.Keys - open
      invariant shifts == CloseShifts(shifts0, shiftStart, done, finalT)
      decreases open
    {
      var pid :| pid in open;
      CloseOneMore(shifts0, shiftStart, done, pid, finalT);
      shifts := shifts[pid := ShiftsFor(shifts, pid) + [Interval(shiftStart[pid], finalT)]];
      open := open - {pid};
      done := done + {pid};
    }
    assert done == shiftStart.Keys;
  }

  /** Closing one more player's shift extends the map by that player's interval. */
  lemma CloseOneMore(shifts: ShiftMap, shiftStart: map<PlayerId, int>, done: set<PlayerId>, pid: PlayerId, t: int)
    requires pid !in done
    ensures var cur := CloseShifts(shifts, shiftStart, done, t);
      CloseShifts(shifts, shiftStart, done + {pid}, t) ==
        if pid in shiftStart then cur[pid := ShiftsFor(cur, pid) + [Interval(shiftStart[pid], t)]] else cur
  {
  }
}
