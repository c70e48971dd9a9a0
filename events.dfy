/**
 * One game's play-by-play events as the shift reconstruction and the shot
 * loop read them: each play keeps the keys of the event record that are
 * used, with the clock already split into minutes and seconds.
 */
module Events {
  import opened Clock
  import opened ExpectedGoals

  type PlayerId = string
  type TeamId = string

  /** The event_type of a play: only substitutions are told apart. */
  datatype EventType = Substitution | OtherEvent

  /** The type of one entry of a play's statistics list: only shots are used. */
  datatype StatType = ShotStat | OtherStat

  /** One entry of a play's statistics list, with the team it is credited to. */
  datatype Statistic = Statistic(statType: StatType, team: TeamId)

  /**
   * A play. `attribution` and `players` are the team and the resulting
   * on-ice players of a substitution; `statistics` may hold several shots;
   * `xgFields` are the keys the expected-goal estimate reads.
   */
  datatype Play = Play(
    eventType: EventType,
    period: int,
    clock: Clock,
    attribution: TeamId,
    players: seq<PlayerId>,
    statistics: seq<Statistic>,
    xgFields: XgFields)

  /** The two sides of a game. */
  datatype Side = Home | Away

  /** A team is the home side exactly when its id is the home team's id. */
  function SideOf(team: TeamId, homeId: TeamId): Side
  {
    if team == homeId then Home else Away
  }

  predicate IsSubstitution(ev: Play)
  {
    ev.eventType == Substitution
  }

  /** Cumulative game second of a play. */
  function Time(ev: Play): int
  {
    ClockToSeconds(ev.clock, ev.period)
  }

  /** The set of players a substitution puts on the ice. */
  function Group(ev: Play): (g: set<PlayerId>)
    ensures forall p :: p in g <==> p in ev.players
  {
    set p | p in ev.players
  }

  /** The substitutions among `plays`, in their original order. */
  function Substitutions(plays: seq<Play>): (subs: seq<Play>)
    ensures forall ev :: ev in subs <==> ev in plays && IsSubstitution(ev)
    ensures |subs| <= |plays|
  {
    if plays == [] then []
    else
      var last := plays[|plays| - 1];
      Substitutions(plays[..|plays| - 1]) + (if IsSubstitution(last) then [last] else [])
  }

  /** Filtering distributes over concatenation: plays keep their order and repeats. */
  lemma {:induction false} SubstitutionsAppend(a: seq<Play>, b: seq<Play>)
    ensures Substitutions(a + b) == Substitutions(a) + Substitutions(b)
    decreases |b|
  {
    if b == [] {
      assert a + b == a;
    } else {
      var init, last := b[..|b| - 1], b[|b| - 1];
      var kept := if IsSubstitution(last) then [last] else [];
      assert b == init + [last];
      assert a + b == (a + init) + [last];
      calc {
        Substitutions(a + b);
        Substitutions((a + init) + [last]);
        { SubstitutionsSnoc(a + init, last); }
        Substitutions(a + init) + kept;
        { SubstitutionsAppend(a, init); }
        Substitutions(a) + Substitutions(init) + kept;
        { SubstitutionsSnoc(init, last); }
        Substitutions(a) + Substitutions(b);
      }
    }
  }

  /** Appending one play appends it to the substitutions exactly when it is one. */
  lemma SubstitutionsSnoc(s: seq<Play>, ev: Play)
    ensures Substitutions(s + [ev]) == Substitutions(s) + (if IsSubstitution(ev) then [ev] else [])
  {
    assert (s + [ev])[..|s|] == s;
  }

  /** A single play is kept exactly when it is a substitution. */
  lemma SubstitutionsSingle(ev: Play)
    ensures Substitutions([ev]) == if IsSubstitution(ev) then [ev] else []
  {
    assert [ev][..0] == [];
  }

  /** The cumulative seconds at which some substitution happens. */
  function SubstitutionTimes(plays: seq<Play>): set<int>
  {
    set ev | ev in plays && IsSubstitution(ev) :: Time(ev)
  }

  /** Latest timestamp over all plays, shots included; 0 for no plays. */
  function FinalTime(plays: seq<Play>): (f: int)
    ensures forall ev :: ev in plays ==> Time(ev) <= f
    ensures plays == [] ==> f == 0
    ensures plays != [] ==> exists ev :: ev in plays && Time(ev) == f
  {
    if plays == [] then 0 else LatestTime(plays)
  }

  /** The maximum of the timestamps of a non-empty list of plays. */
  function LatestTime(plays: seq<Play>): (f: int)
    requires plays != []
    ensures forall ev :: ev in plays ==> Time(ev) <= f
    ensures exists ev :: ev in plays && Time(ev) == f
  {
    if |plays| == 1 then Time(plays[0])
    else
      var rest := LatestTime(plays[1..]);
      assert forall ev :: ev in plays ==> ev == plays[0] || ev in plays[1..];
      if Time(plays[0]) >= rest then Time(plays[0]) else rest
  }

  /** Substitution `ev` puts player `p` on the ice for side `sd`. */
  predicate PutsOnIce(ev: Play, homeId: TeamId, sd: Side, p: PlayerId)
  {
    IsSubstitution(ev) && SideOf(ev.attribution, homeId) == sd && p in ev.players
  }

  /**
   * The roster of side `sd`: every player some substitution of that side
   * puts on the ice.
   */
  function Roster(plays: seq<Play>, homeId: TeamId, sd: Side): (r: set<PlayerId>)
    ensures forall p :: p in r <==> exists ev :: ev in plays && PutsOnIce(ev, homeId, sd, p)
  {
    if plays == [] then {}
    else
      var init, last := plays[..|plays| - 1], plays[|plays| - 1];
      var r := Roster(init, homeId, sd) +
        (if IsSubstitution(last) && SideOf(last.attribution, homeId) == sd then Group(last) else {});
      assert plays == init + [last];
      forall p ensures p in r <==> exists ev :: ev in plays && PutsOnIce(ev, homeId, sd, p) {
        if p in r && p !in Roster(init, homeId, sd) {
          assert PutsOnIce(last, homeId, sd, p);
        }
        if ev :| ev in plays && PutsOnIce(ev, homeId, sd, p) {
          assert ev in init || ev == last;
        }
      }
      r
  }
}
