/**
 * What the shift reconstruction guarantees: every player's shifts are
 * non-empty, each starts no later than it ends, they follow one another in
 * time without overlapping, and each boundary is a substitution instant or
 * the final timestamp; the open shifts are exactly those of the players on
 * the ice; and a player who joins the ice and never leaves it has the one
 * shift from that instant to the final timestamp.
 */
module ShiftProperties {
  import opened Events
  import opened Sorting
  import opened Shifts

  /** Each interval is ordered, and each ends before the next one starts. */
  predicate Chronological(ivs: seq<Interval>)
  {
    (forall i :: 0 <= i < |ivs| ==> ivs[i].start <= ivs[i].end) &&
    (forall i, j :: 0 <= i < j < |ivs| ==> ivs[i].end <= ivs[j].start)
  }

  predicate EndsBy(ivs: seq<Interval>, t: int)
  {
    forall i :: 0 <= i < |ivs| ==> ivs[i].end <= t
  }

  /** Every boundary is one of `times`. */
  predicate BoundsIn(ivs: seq<Interval>, times: set<int>)
  {
    forall i :: 0 <= i < |ivs| ==> ivs[i].start in times && ivs[i].end in times
  }

  /** Every start is one of `times`; every end is one of `times` or `finalT`. */
  predicate AnchoredIn(ivs: seq<Interval>, times: set<int>, finalT: int)
  {
    forall i :: 0 <= i < |ivs| ==> ivs[i].start in times && (ivs[i].end in times || ivs[i].end == finalT)
  }

  /** The shifts of one player in a finished shift map. */
  predicate ValidShifts(ivs: seq<Interval>, times: set<int>, finalT: int)
  {
    ivs != [] && Chronological(ivs) && EndsBy(ivs, finalT) && AnchoredIn(ivs, times, finalT)
  }

  /** What holds of the replay after the substitutions up to second `now`. */
  ghost predicate ReplayInvariant(st: ReplayState, now: int, times: set<int>)
  {
    (forall p :: p in st.shifts ==>
      st.shifts[p] != [] && Chronological(st.shifts[p]) && EndsBy(st.shifts[p], now) &&
      BoundsIn(st.shifts[p], times)) &&
    (forall p :: p in st.shiftStart ==>
      st.shiftStart[p] <= now && st.shiftStart[p] in times &&
      EndsBy(ShiftsFor(st.shifts, p), st.shiftStart[p]))
  }

  lemma AppendInterval(ivs: seq<Interval>, iv: Interval)
    requires Chronological(ivs) && EndsBy(ivs, iv.start) && iv.start <= iv.end
    ensures Chronological(ivs + [iv]) && EndsBy(ivs + [iv], iv.end)
  {
    var r := ivs + [iv];
    forall i, j | 0 <= i < j < |r| ensures r[i].end <= r[j].start {
      if j == |ivs| {
        assert r[i] == ivs[i];
      } else {
        assert r[i] == ivs[i] && r[j] == ivs[j];
      }
    }
    forall i | 0 <= i < |r| ensures r[i].end <= iv.end {
      if i < |ivs| {
        assert r[i] == ivs[i];
      }
    }
  }

  /** One substitution, no earlier than every previous one, keeps the invariant. */
  lemma StepKeepsInvariant(st: ReplayState, ev: Play, homeId: TeamId, now: int, times: set<int>)
    requires ReplayInvariant(st, now, times)
    requires now <= Time(ev) && Time(ev) in times
    ensures ReplayInvariant(Step(st, ev, homeId), Time(ev), times)
  {
    StepKeepsClosedShifts(st, ev, homeId, now, times);
    StepKeepsOpenShifts(st, ev, homeId, now, times);
  }

  lemma StepKeepsClosedShifts(st: ReplayState, ev: Play, homeId: TeamId, now: int, times: set<int>)
    requires ReplayInvariant(st, now, times)
    requires now <= Time(ev) && Time(ev) in times
    ensures var next := Step(st, ev, homeId);
      forall p :: p in next.shifts ==>
        next.shifts[p] != [] && Chronological(next.shifts[p]) && EndsBy(next.shifts[p], Time(ev)) &&
        BoundsIn(next.shifts[p], times)
  {
    var t0 := Time(ev);
    var sd := SideOf(ev.attribution, homeId);
    var leaving := st.OnIce(sd) - Group(ev);
    var next := Step(st, ev, homeId);
    forall p | p in next.shifts
      ensures next.shifts[p] != [] && Chronological(next.shifts[p]) && EndsBy(next.shifts[p], t0)
      ensures BoundsIn(next.shifts[p], times)
    {
      assert next.shifts[p] == ShiftsFor(next.shifts, p);
      if p in leaving && p in st.shiftStart {
        var prior := ShiftsFor(st.shifts, p);
        var iv := Interval(st.shiftStart[p], t0);
        AppendInterval(prior, iv);
        assert next.shifts[p] == prior + [iv];
        forall i | 0 <= i < |prior| + 1 ensures (prior + [iv])[i].start in times && (prior + [iv])[i].end in times {
          if i < |prior| {
            assert (prior + [iv])[i] == prior[i];
          }
        }
      } else {
        assert next.shifts[p] == st.shifts[p];
      }
    }
  }

  lemma StepKeepsOpenShifts(st: ReplayState, ev: Play, homeId: TeamId, now: int, times: set<int>)
    requires ReplayInvariant(st, now, times)
    requires now <= Time(ev) && Time(ev) in times
    ensures var next := Step(st, ev, homeId);
      forall p :: p in next.shiftStart ==>
        next.shiftStart[p] <= Time(ev) && next.shiftStart[p] in times &&
        EndsBy(ShiftsFor(next.shifts, p), next.shiftStart[p])
  {
    var t0 := Time(ev);
    var sd := SideOf(ev.attribution, homeId);
    var leaving := st.OnIce(sd) - Group(ev);
    var arriving := Group(ev) - st.OnIce(sd);
    var next := Step(st, ev, homeId);
    forall p | p in next.shiftStart
      ensures next.shiftStart[p] <= t0 && next.shiftStart[p] in times
      ensures EndsBy(ShiftsFor(next.shifts, p), next.shiftStart[p])
    {
      assert p !in leaving;
      assert ShiftsFor(next.shifts, p) == ShiftsFor(st.shifts, p);
      if p in arriving {
        assert next.shiftStart[p] == t0;
        if p in st.shifts {
          assert EndsBy(st.shifts[p], now);
        }
      } else {
        assert next.shiftStart[p] == st.shiftStart[p];
      }
    }
  }

  /** Replaying substitutions in ascending time keeps the invariant. */
  lemma {:induction false} ReplayKeepsInvariant(subs: seq<Play>, homeId: TeamId, times: set<int>)
    requires subs != [] && SortedBy(subs, Time)
    requires forall i :: 0 <= i < |subs| ==> Time(subs[i]) in times
    ensures ReplayInvariant(Replay(subs, homeId), Time(subs[|subs| - 1]), times)
  {
    var init, last := subs[..|subs| - 1], subs[|subs| - 1];
    if init == [] {
      StepKeepsInvariant(Initial, last, homeId, Time(last), times);
    } else {
      assert SortedBy(init, Time) by {
        forall i, j | 0 <= i < j < |init| ensures Time(init[i]) <= Time(init[j]) {
          assert init[i] == subs[i] && init[j] == subs[j];
        }
      }
      assert forall i :: 0 <= i < |init| ==> init[i] == subs[i];
      ReplayKeepsInvariant(init, homeId, times);
      var now := Time(init[|init| - 1]);
      assert now <= Time(last);
      StepKeepsInvariant(Replay(init, homeId), last, homeId, now, times);
    }
  }

  /** Closing every open shift at a final second no earlier than the replay finishes them all. */
  lemma CloseAllKeepsOrder(st: ReplayState, now: int, times: set<int>, finalT: int)
    requires ReplayInvariant(st, now, times) && now <= finalT
    ensures var m := CloseShifts(st.shifts, st.shiftStart, st.shiftStart.Keys, finalT);
      forall p :: p in m ==> ValidShifts(m[p], times, finalT)
  {
    var m := CloseShifts(st.shifts, st.shiftStart, st.shiftStart.Keys, finalT);
    forall p | p in m ensures ValidShifts(m[p], times, finalT) {
      assert m[p] == ShiftsFor(m, p);
      var prior := ShiftsFor(st.shifts, p);
      assert p in st.shifts ==> EndsBy(prior, finalT) by {
        if p in st.shifts {
          assert EndsBy(st.shifts[p], now);
        }
      }
      if p in st.shiftStart {
        var iv := Interval(st.shiftStart[p], finalT);
        AppendInterval(prior, iv);
        assert m[p] == prior + [iv];
        forall i | 0 <= i < |prior| + 1
          ensures (prior + [iv])[i].start in times && ((prior + [iv])[i].end in times || (prior + [iv])[i].end == finalT)
        {
          if i < |prior| {
            assert (prior + [iv])[i] == prior[i];
          }
        }
      } else {
        assert m[p] == st.shifts[p];
      }
    }
  }

  /** Every sorted substitution is a substitution of the game. */
  lemma SortedSubstitutionsFromPlays(plays: seq<Play>)
    ensures forall ev :: ev in SortedSubstitutions(plays) ==> ev in plays && IsSubstitution(ev)
    ensures forall i :: 0 <= i < |SortedSubstitutions(plays)| ==> IsSubstitution(SortedSubstitutions(plays)[i])
    ensures forall ev :: ev in plays && IsSubstitution(ev) ==> ev in SortedSubstitutions(plays)
    ensures |SortedSubstitutions(plays)| == |Substitutions(plays)|
  {
    var subs := Substitutions(plays);
    var sorted := SortedSubstitutions(plays);
    assert |sorted| == |multiset(sorted)| == |multiset(subs)| == |subs|;
    forall ev | ev in sorted ensures ev in plays && IsSubstitution(ev) {
      assert ev in multiset(sorted);
      assert ev in multiset(subs);
    }
    forall ev | ev in plays && IsSubstitution(ev) ensures ev in sorted {
      assert ev in multiset(subs);
      assert ev in multiset(sorted);
    }
  }

  /**
   * Every player's shifts are non-empty and chronological; each starts at a
   * substitution instant and ends at one or at the final timestamp, never
   * after it.
   */
  lemma ShiftsWellFormed(plays: seq<Play>, homeId: TeamId)
    ensures forall p :: p in ShiftsOf(plays, homeId) ==>
      ValidShifts(ShiftsOf(plays, homeId)[p], SubstitutionTimes(plays), FinalTime(plays))
  {
    if Substitutions(plays) != [] {
      var subs := SortedSubstitutions(plays);
      var times := SubstitutionTimes(plays);
      SortedSubstitutionsFromPlays(plays);
      forall i | 0 <= i < |subs| ensures Time(subs[i]) in times {
        assert subs[i] in subs;
      }
      ReplayKeepsInvariant(subs, homeId, times);
      var last := subs[|subs| - 1];
      assert last in subs;
      CloseAllKeepsOrder(Replay(subs, homeId), Time(last), times, FinalTime(plays));
    }
  }

  /** The replay facts about rosters, for rosters `home` and `away`. */
  predicate WithinRosters(st: ReplayState, home: set<PlayerId>, away: set<PlayerId>)
  {
    st.homeOnIce <= home && st.awayOnIce <= away &&
    st.shifts.Keys + st.shiftStart.Keys <= home + away &&
    st.shiftStart.Keys <= st.homeOnIce + st.awayOnIce &&
    (home !! away ==> st.shiftStart.Keys == st.homeOnIce + st.awayOnIce)
  }

  lemma StepWithinRosters(st: ReplayState, ev: Play, homeId: TeamId, home: set<PlayerId>, away: set<PlayerId>)
    requires WithinRosters(st, home, away)
    ensures var sd := SideOf(ev.attribution, homeId);
      WithinRosters(Step(st, ev, homeId),
        if sd == Home then home + Group(ev) else home,
        if sd == Away then away + Group(ev) else away)
  {
    var sd := SideOf(ev.attribution, homeId);
    var group := Group(ev);
    var next := Step(st, ev, homeId);
    assert next.shifts.Keys <= st.shifts.Keys + st.shiftStart.Keys;
    StepOpenKeys(st, ev, homeId);
    if (if sd == Home then home + group else home) !! (if sd == Away then away + group else away) {
      StepOpenKeysExact(st, ev, homeId);
    }
  }

  /** After a substitution the players with an open shift are still among those on the ice. */
  lemma StepOpenKeys(st: ReplayState, ev: Play, homeId: TeamId)
    requires st.shiftStart.Keys <= st.homeOnIce + st.awayOnIce
    ensures var next := Step(st, ev, homeId);
      next.shiftStart.Keys <= next.homeOnIce + next.awayOnIce
  {
  }

  /** ...and exactly those when the new group shares no player with the other side. */
  lemma StepOpenKeysExact(st: ReplayState, ev: Play, homeId: TeamId)
    requires st.shiftStart.Keys == st.homeOnIce + st.awayOnIce
    requires st.homeOnIce !! st.awayOnIce
    requires Group(ev) !! st.OnIce(Opposite(SideOf(ev.attribution, homeId)))
    ensures var next := Step(st, ev, homeId);
      next.shiftStart.Keys == next.homeOnIce + next.awayOnIce
  {
    var sd := SideOf(ev.attribution, homeId);
    var leaving := st.OnIce(sd) - Group(ev);
    assert st.OnIce(Opposite(sd)) !! leaving;
  }

  /**
   * Replaying substitutions only involves players of the rosters, and the
   * players with an open shift are always among those on the ice; exactly
   * those when no player appears for both sides.
   */
  lemma {:induction false} ReplayWithinRosters(subs: seq<Play>, homeId: TeamId)
    requires forall i :: 0 <= i < |subs| ==> IsSubstitution(subs[i])
    ensures WithinRosters(Replay(subs, homeId), Roster(subs, homeId, Home), Roster(subs, homeId, Away))
  {
    if subs != [] {
      var init, ev := subs[..|subs| - 1], subs[|subs| - 1];
      assert forall i :: 0 <= i < |init| ==> init[i] == subs[i];
      ReplayWithinRosters(init, homeId);
      StepWithinRosters(Replay(init, homeId), ev, homeId, Roster(init, homeId, Home), Roster(init, homeId, Away));
      assert IsSubstitution(ev);
    }
  }

  /**
   * At every point of the replay the players with an open shift are among
   * those on the ice, and are exactly those when the two rosters share no
   * player.
   */
  lemma OpenShiftsAreOnIce(plays: seq<Play>, homeId: TeamId, k: nat)
    requires k <= |SortedSubstitutions(plays)|
    ensures var st := Replay(SortedSubstitutions(plays)[..k], homeId);
      st.shiftStart.Keys <= st.homeOnIce + st.awayOnIce &&
      (Roster(plays, homeId, Home) !! Roster(plays, homeId, Away) ==>
        st.shiftStart.Keys == st.homeOnIce + st.awayOnIce)
  {
    var prefix := SortedSubstitutions(plays)[..k];
    SortedSubstitutionsFromPlays(plays);
    assert forall ev :: ev in prefix ==> ev in plays && IsSubstitution(ev);
    ReplayWithinRosters(prefix, homeId);
    assert Roster(prefix, homeId, Home) <= Roster(plays, homeId, Home);
    assert Roster(prefix, homeId, Away) <= Roster(plays, homeId, Away);
  }

  /** Only rostered players have shifts. */
  lemma ShiftPlayersInRosters(plays: seq<Play>, homeId: TeamId)
    ensures ShiftsOf(plays, homeId).Keys <= Roster(plays, homeId, Home) + Roster(plays, homeId, Away)
  {
    if Substitutions(plays) != [] {
      var subs := SortedSubstitutions(plays);
      SortedSubstitutionsFromPlays(plays);
      ReplayWithinRosters(subs, homeId);
      assert Roster(subs, homeId, Home) <= Roster(plays, homeId, Home);
      assert Roster(subs, homeId, Away) <= Roster(plays, homeId, Away);
    }
  }

  /**
   * The players with a shift are exactly the rostered players: everybody a
   * substitution puts on the ice gets at least one shift, and nobody else.
   */
  lemma ShiftPlayersAreRostered(plays: seq<Play>, homeId: TeamId)
    ensures ShiftsOf(plays, homeId).Keys == Roster(plays, homeId, Home) + Roster(plays, homeId, Away)
  {
    ShiftPlayersInRosters(plays, homeId);
    if Substitutions(plays) != [] {
      var subs := SortedSubstitutions(plays);
      SortedSubstitutionsFromPlays(plays);
      RostersHaveShifts(subs, homeId);
      RosterOfSorted(plays, homeId, Home);
      RosterOfSorted(plays, homeId, Away);
    }
  }

  /** A game without substitutions has empty rosters and no shifts at all. */
  lemma NoSubstitutionsNoShifts(plays: seq<Play>, homeId: TeamId)
    requires Substitutions(plays) == []
    ensures Roster(plays, homeId, Home) == {} && Roster(plays, homeId, Away) == {}
    ensures ShiftsOf(plays, homeId) == map[]
  {
  }

  /** The rosters read off the sorted substitutions are those of the game. */
  lemma RosterOfSorted(plays: seq<Play>, homeId: TeamId, sd: Side)
    requires forall ev :: ev in plays && IsSubstitution(ev) ==> ev in SortedSubstitutions(plays)
    ensures Roster(plays, homeId, sd) <= Roster(SortedSubstitutions(plays), homeId, sd)
  {
    forall p | p in Roster(plays, homeId, sd) ensures p in Roster(SortedSubstitutions(plays), homeId, sd) {
      var ev :| ev in plays && PutsOnIce(ev, homeId, sd, p);
      assert ev in SortedSubstitutions(plays);
    }
  }

  /** The players with a closed or an open shift. */
  function Tracked(st: ReplayState): set<PlayerId>
  {
    st.shifts.Keys + st.shiftStart.Keys
  }

  /**
   * A substitution never forgets a tracked player and tracks its whole
   * group, so rosters that were tracked stay tracked once the group joins
   * its side's roster.
   */
  lemma StepTracks(st: ReplayState, ev: Play, homeId: TeamId, home: set<PlayerId>, away: set<PlayerId>)
    requires home + away <= Tracked(st)
    requires st.homeOnIce <= home && st.awayOnIce <= away
    ensures var sd := SideOf(ev.attribution, homeId);
      (if sd == Home then home + Group(ev) else home) + (if sd == Away then away + Group(ev) else away)
        <= Tracked(Step(st, ev, homeId))
  {
  }

  /** Replaying substitutions tracks every player of either roster. */
  lemma {:induction false} RostersHaveShifts(subs: seq<Play>, homeId: TeamId)
    requires forall i :: 0 <= i < |subs| ==> IsSubstitution(subs[i])
    ensures Roster(subs, homeId, Home) + Roster(subs, homeId, Away) <= Tracked(Replay(subs, homeId))
  {
    if subs != [] {
      var init, ev := subs[..|subs| - 1], subs[|subs| - 1];
      assert forall i :: 0 <= i < |init| ==> init[i] == subs[i];
      RostersHaveShifts(init, homeId);
      ReplayWithinRosters(init, homeId);
      StepTracks(Replay(init, homeId), ev, homeId, Roster(init, homeId, Home), Roster(init, homeId, Away));
      assert IsSubstitution(ev);
    }
  }

  function Opposite(sd: Side): Side
  {
    if sd == Home then Away else Home
  }

  /** `x` is on the ice for `sd` only, with a shift open since `t` and none closed. */
  predicate OpenSince(st: ReplayState, x: PlayerId, sd: Side, t: int)
  {
    x in st.OnIce(sd) && x !in st.OnIce(Opposite(sd)) &&
    x in st.shiftStart && st.shiftStart[x] == t && x !in st.shifts
  }

  /** A substitution that keeps `x` on the ice of side `sd` leaves the open shift alone. */
  lemma StepKeepsOpen(st: ReplayState, ev: Play, homeId: TeamId, x: PlayerId, sd: Side, t: int)
    requires OpenSince(st, x, sd, t)
    requires SideOf(ev.attribution, homeId) == sd <==> x in Group(ev)
    ensures OpenSince(Step(st, ev, homeId), x, sd, t)
  {
    var next := Step(st, ev, homeId);
    var side := SideOf(ev.attribution, homeId);
    var leaving := st.OnIce(side) - Group(ev);
    var arriving := Group(ev) - st.OnIce(side);
    assert x !in leaving && x !in arriving;
    assert next.shiftStart[x] == t;
  }

  /** The replay of a longer prefix is one more step. */
  lemma ReplayPrefix(subs: seq<Play>, homeId: TeamId, j: nat)
    requires j < |subs|
    ensures Replay(subs[..j + 1], homeId) == Step(Replay(subs[..j], homeId), subs[j], homeId)
  {
    assert subs[..j + 1][..j] == subs[..j];
  }

  /** One more substitution that keeps `x` on the ice of side `sd` leaves the open shift alone. */
  lemma ReplayStepKeepsOpen(subs: seq<Play>, homeId: TeamId, j: nat, x: PlayerId, sd: Side, t: int)
    requires 0 < j <= |subs|
    requires OpenSince(Replay(subs[..j - 1], homeId), x, sd, t)
    requires SideOf(subs[j - 1].attribution, homeId) == sd <==> x in Group(subs[j - 1])
    ensures OpenSince(Replay(subs[..j], homeId), x, sd, t)
  {
    assert subs[..j][..j - 1] == subs[..j - 1];
    StepKeepsOpen(Replay(subs[..j - 1], homeId), subs[j - 1], homeId, x, sd, t);
  }

  lemma {:induction false} ReplayKeepsOpen(subs: seq<Play>, homeId: TeamId, k: nat, x: PlayerId, sd: Side, t: int, j: nat)
    requires k < j <= |subs|
    requires OpenSince(Replay(subs[..k + 1], homeId), x, sd, t)
    requires forall i :: k < i < |subs| ==> (SideOf(subs[i].attribution, homeId) == sd <==> x in Group(subs[i]))
    ensures OpenSince(Replay(subs[..j], homeId), x, sd, t)
  {
    if j > k + 1 {
      ReplayKeepsOpen(subs, homeId, k, x, sd, t, j - 1);
      assert k < j - 1 < |subs|;
      ReplayStepKeepsOpen(subs, homeId, j, x, sd, t);
    }
  }

  /** Before its first appearance in a substitution a player takes no part in the replay. */
  lemma AbsentBeforeFirstAppearance(subs: seq<Play>, homeId: TeamId, k: nat, x: PlayerId)
    requires k <= |subs|
    requires forall i :: 0 <= i < |subs| ==> IsSubstitution(subs[i])
    requires forall j :: 0 <= j < k ==> x !in Group(subs[j])
    ensures var st := Replay(subs[..k], homeId);
      x !in st.homeOnIce && x !in st.awayOnIce && x !in st.shifts && x !in st.shiftStart
  {
    var prefix := subs[..k];
    assert forall i :: 0 <= i < |prefix| ==> prefix[i] == subs[i];
    ReplayWithinRosters(prefix, homeId);
    NotInRosters(prefix, homeId, x);
  }

  /** A player no play names is in neither roster. */
  lemma NotInRosters(plays: seq<Play>, homeId: TeamId, x: PlayerId)
    requires forall i :: 0 <= i < |plays| ==> x !in Group(plays[i])
    ensures x !in Roster(plays, homeId, Home) && x !in Roster(plays, homeId, Away)
  {
    forall e | e in plays ensures x !in e.players {
      var i :| 0 <= i < |plays| && plays[i] == e;
      assert x !in Group(plays[i]);
    }
  }

  /** The substitution where a player first appears opens the player's shift. */
  lemma FirstAppearanceOpens(subs: seq<Play>, homeId: TeamId, k: nat, x: PlayerId)
    requires k < |subs|
    requires forall i :: 0 <= i < |subs| ==> IsSubstitution(subs[i])
    requires x in Group(subs[k])
    requires forall j :: 0 <= j < k ==> x !in Group(subs[j])
    ensures OpenSince(Replay(subs[..k + 1], homeId), x, SideOf(subs[k].attribution, homeId), Time(subs[k]))
  {
    AbsentBeforeFirstAppearance(subs, homeId, k, x);
    ReplayPrefix(subs, homeId, k);
    var before := Replay(subs[..k], homeId);
    var ev := subs[k];
    var sd := SideOf(ev.attribution, homeId);
    var arriving := Group(ev) - before.OnIce(sd);
    assert x in arriving && x !in before.OnIce(sd);
    assert Step(before, ev, homeId).shiftStart[x] == Time(ev);
  }

  /**
   * A player who first appears in a substitution at second T, is never
   * removed by a later substitution of that side and never appears for the
   * other side has exactly one shift: from T to the final timestamp.
   */
  lemma NeverRemovedSingleShift(plays: seq<Play>, homeId: TeamId, k: nat, x: PlayerId)
    requires k < |SortedSubstitutions(plays)|
    requires x in Group(SortedSubstitutions(plays)[k])
    requires forall j :: 0 <= j < k ==> x !in Group(SortedSubstitutions(plays)[j])
    requires forall j :: k < j < |SortedSubstitutions(plays)| ==>
      (SideOf(SortedSubstitutions(plays)[j].attribution, homeId) ==
         SideOf(SortedSubstitutions(plays)[k].attribution, homeId)
       <==> x in Group(SortedSubstitutions(plays)[j]))
    ensures x in ShiftsOf(plays, homeId)
    ensures ShiftsOf(plays, homeId)[x] == [Interval(Time(SortedSubstitutions(plays)[k]), FinalTime(plays))]
  {
    var subs := SortedSubstitutions(plays);
    SortedSubstitutionsFromPlays(plays);
    FirstAppearanceOpens(subs, homeId, k, x);
    ReplayKeepsOpen(subs, homeId, k, x, SideOf(subs[k].attribution, homeId), Time(subs[k]), |subs|);
    assert subs[..|subs|] == subs;
    assert Substitutions(plays) != [];
    OpenAtEndSingleShift(plays, homeId, x, SideOf(subs[k].attribution, homeId), Time(subs[k]));
  }

  /** A shift still open after the replay, with none closed before it, is the player's only one. */
  lemma OpenAtEndSingleShift(plays: seq<Play>, homeId: TeamId, x: PlayerId, sd: Side, t: int)
    requires Substitutions(plays) != []
    requires OpenSince(Replay(SortedSubstitutions(plays), homeId), x, sd, t)
    ensures x in ShiftsOf(plays, homeId)
    ensures ShiftsOf(plays, homeId)[x] == [Interval(t, FinalTime(plays))]
  {
    CloseAllSingle(Replay(SortedSubstitutions(plays), homeId), x, FinalTime(plays));
  }

  lemma CloseAllSingle(st: ReplayState, x: PlayerId, finalT: int)
    requires x in st.shiftStart && x !in st.shifts
    ensures var m := CloseShifts(st.shifts, st.shiftStart, st.shiftStart.Keys, finalT);
      x in m && m[x] == [Interval(st.shiftStart[x], finalT)]
  {
    var m := CloseShifts(st.shifts, st.shiftStart, st.shiftStart.Keys, finalT);
    assert ShiftsFor(m, x) == ShiftsFor(st.shifts, x) + [Interval(st.shiftStart[x], finalT)];
  }
}
