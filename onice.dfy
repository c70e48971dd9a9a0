/**
 * On-ice classification of the defending side at one shot: the defenders
 * are the roster of the side that is not attacking, and a defender is on
 * the ice when one of the player's shifts contains the shot's second, both
 * ends included.
 */
module OnIce {
  import opened Events
  import opened Shifts

  /** Some interval of `ivs` contains `t`, both ends included. */
  function Covers(ivs: seq<Interval>, t: int): (b: bool)
    ensures b <==> exists i :: 0 <= i < |ivs| && ivs[i].start <= t <= ivs[i].end
  {
    if ivs == [] then false
    else
      assert forall i :: 0 < i < |ivs| ==> ivs[i] == ivs[1..][i - 1];
      (ivs[0].start <= t <= ivs[0].end) || Covers(ivs[1..], t)
  }

  /** Player `p` is on the ice at second `t`. */
  predicate OnIceAt(shifts: ShiftMap, p: PlayerId, t: int)
  {
    Covers(ShiftsFor(shifts, p), t)
  }

  /** The roster of the side that is not attacking. */
  function DefendingRoster(atkId: TeamId, homeRoster: set<PlayerId>, awayRoster: set<PlayerId>, homeId: TeamId): set<PlayerId>
  {
    if atkId == homeId then awayRoster else homeRoster
  }

  predicate NoDuplicates<T(==)>(s: seq<T>)
  {
    forall i, j :: 0 <= i < j < |s| ==> s[i] != s[j]
  }

  /**
   * Splits the defenders of a shot at second `t` by attacking team `atkId`
   * into those on the ice and those off it. The two lists list every
   * defender exactly once between them; their order is that of the set
   * iteration, which the model leaves open.
   */
  method OnOffIce(shifts: ShiftMap, t: int, atkId: TeamId,
                  homeRoster: set<PlayerId>, awayRoster: set<PlayerId>, homeId: TeamId)
    returns (onIce: seq<PlayerId>, offIce: seq<PlayerId>)
    ensures forall p :: p in DefendingRoster(atkId, homeRoster, awayRoster, homeId) <==> p in onIce || p in offIce
    ensures forall p :: p in onIce ==> OnIceAt(shifts, p, t)
    ensures forall p :: p in offIce ==> !OnIceAt(shifts, p, t)
    ensures NoDuplicates(onIce) && NoDuplicates(offIce)
    ensures |onIce| + |offIce| == |DefendingRoster(atkId, homeRoster, awayRoster, homeId)|
  {
    var defenders := if atkId == homeId then awayRoster else homeRoster;
    onIce, offIce := [], [];
    var rest := defenders;
    ghost var done: set<PlayerId> := {};
    while rest != {}
      invariant rest <= defenders && done == defenders - rest
      invariant Classified(shifts, t, done, onIce, offIce)
      decreases rest
    {
      var pid :| pid in rest;
      ClassifyOne(shifts, t, done, onIce, offIce, pid);
      MoveOne(defenders, rest, done, pid);
      if OnIceAt(shifts, pid, t) {
        onIce := onIce + [pid];
      } else {
        offIce := offIce + [pid];
      }
      rest := rest - {pid};
      done := done + {pid};
    }
    assert done == defenders;
  }

  /** `onIce` and `offIce` split the players of `done` by their status at `t`, each once. */
  ghost predicate Classified(shifts: ShiftMap, t: int, done: set<PlayerId>, onIce: seq<PlayerId>, offIce: seq<PlayerId>)
  {
    (forall p :: p in done <==> p in onIce || p in offIce) &&
    (forall p :: p in onIce ==> OnIceAt(shifts, p, t)) &&
    (forall p :: p in offIce ==> !OnIceAt(shifts, p, t)) &&
    NoDuplicates(onIce) && NoDuplicates(offIce) &&
    |onIce| + |offIce| == |done|
  }

  /** Moving `pid` from the players still to visit to the visited ones. */
  lemma MoveOne<T>(all: set<T>, rest: set<T>, done: set<T>, pid: T)
    requires rest <= all && done == all - rest && pid in rest
    ensures rest - {pid} <= all && done + {pid} == all - (rest - {pid}) && pid !in done
  {
  }

  lemma ClassifyOne(shifts: ShiftMap, t: int, done: set<PlayerId>, onIce: seq<PlayerId>, offIce: seq<PlayerId>, pid: PlayerId)
    requires Classified(shifts, t, done, onIce, offIce) && pid !in done
    ensures OnIceAt(shifts, pid, t) ==> Classified(shifts, t, done + {pid}, onIce + [pid], offIce)
    ensures !OnIceAt(shifts, pid, t) ==> Classified(shifts, t, done + {pid}, onIce, offIce + [pid])
  {
  }

  /** A player without shifts is never on the ice. */
  lemma NoShiftsOffIce(shifts: ShiftMap, p: PlayerId, t: int)
    requires p !in shifts
    ensures !OnIceAt(shifts, p, t)
  {
  }

  /** A game without substitutions has every player off the ice at every second. */
  lemma NoSubstitutionsAllOffIce(plays: seq<Play>, homeId: TeamId, p: PlayerId, t: int)
    requires Substitutions(plays) == []
    ensures !OnIceAt(ShiftsOf(plays, homeId), p, t)
  {
  }

  /** Boundaries count as on the ice: shifts [0,100] and [150,200]. */
  lemma CoversExamples()
    ensures var ivs := [Interval(0, 100), Interval(150, 200)];
      !Covers(ivs, 120) && Covers(ivs, 50) && Covers(ivs, 100) && Covers(ivs, 150)
  {
    var ivs := [Interval(0, 100), Interval(150, 200)];
    assert ivs[1..] == [Interval(150, 200)] && ivs[1..][1..] == [];
  }
}
