/** The data side of `plot_winger_actions_for_player`: the target player's events in the
    opponent half, sorted into the drawn categories with the de-duplication priorities
    (goal over shot, assist over key pass and cross, key pass over cross), and the end
    point chosen for a shot's arrow. */
module WingerActions {
  import opened Common
  import opened Text

  /** One event row as the classifier reads it. The flag fields hold the numeric value
      of the `isGoal` and `qNone_*` columns (a boolean column as 0 or 1); `None` is a
      missing column or a cell that is not numeric. */
  datatype ActionEvent = ActionEvent(
    id: Option<int>,
    typ: Option<string>,
    outcome: Option<string>,
    playerId: Option<int>,
    x: Option<real>,
    y: Option<real>,
    endX: Option<real>,
    endY: Option<real>,
    goalMouthY: Option<real>,
    isGoal: Option<real>,
    cross: Option<real>,
    keyPass: Option<real>,
    shotAssist: Option<real>,
    assisted: Option<real>,
    intentionalAssist: Option<real>,
    intentionalGoalAssist: Option<real>)

  /** The drawn categories. */
  datatype Actions = Actions(
    goals: seq<ActionEvent>,
    shotsOnTarget: seq<ActionEvent>,
    shotsOffTarget: seq<ActionEvent>,
    dribblesWon: seq<ActionEvent>,
    dribblesLost: seq<ActionEvent>,
    crosses: seq<ActionEvent>,
    keyPasses: seq<ActionEvent>,
    assists: seq<ActionEvent>,
    recoveries: seq<ActionEvent>)

  const OnTargetKinds: set<string> := {"savedshot", "attemptsaved", "goal", "shotonpost"}
  const OffTargetKinds: set<string> := {"missedshots"}
  const RecoveryKinds: set<string> := {"ballrecovery", "interception", "tackle"}

  // ---------------------------------------------------------------------------------
  // Normalisation of the type text and of flag columns (lines 582-592)

  /** A character the type normalisation deletes: whitespace, `_` or `-`. */
  predicate IsSeparator(c: char)
  {
    IsSpace(c) || c == '_' || c == '-'
  }

  predicate KeptInKind(c: char)
  {
    !IsSeparator(c)
  }

  /** `norm_type` on one text: lower-cased, with every whitespace, `_` and `-` removed. */
  function NormalizeText(s: string): (r: string)
    ensures |r| <= |s|
    ensures forall i :: 0 <= i < |r| ==> !IsSeparator(r[i]) && !('A' <= r[i] <= 'Z')
    ensures forall c :: c in r <==> c in Lower(s) && !IsSeparator(c)
  {
    var low := Lower(s);
    var r := Filter(low, KeptInKind);
    assert forall i :: 0 <= i < |r| ==> r[i] in low;
    r
  }

  /** Normalising a normalised text changes nothing. */
  lemma NormalizeIdempotent(s: string)
    ensures NormalizeText(NormalizeText(s)) == NormalizeText(s)
  {
    var r := NormalizeText(s);
    assert Lower(r) == r;
    FilterAll(r, KeptInKind);
  }

  /** The normalisation works character by character: a text normalises to the
      normalisations of its parts, in order. */
  lemma NormalizeConcat(a: string, b: string)
    ensures NormalizeText(a + b) == NormalizeText(a) + NormalizeText(b)
  {
    assert Lower(a + b) == Lower(a) + Lower(b);
    FilterConcat(Lower(a), Lower(b), KeptInKind);
  }

  /** A separator is deleted; any other character is kept, lower-cased. */
  lemma NormalizeChar(c: char)
    ensures NormalizeText([c]) == if IsSeparator(c) then [] else [LowerChar(c)]
  {
    assert Lower([c]) == [LowerChar(c)];
    assert Filter([LowerChar(c)], KeptInKind) == if KeptInKind(LowerChar(c)) then [LowerChar(c)] else [];
  }

  /** The normalised type of an event (a missing type reads as "nan"). */
  function Kind(e: ActionEvent): string
  {
    NormalizeText(AsText(e.typ))
  }

  /** `truthy`: the value, with a missing one read as 0, truncated to an integer, is
      positive. */
  function Truthy(v: Option<real>): (b: bool)
    ensures b <==> v.Some? && v.value >= 1.0
  {
    v.Some? && TruncToInt(v.value) > 0
  }

  /** The lower-cased outcome text starts with "succ". */
  predicate Succeeded(e: ActionEvent)
  {
    StartsWith(Lower(AsText(e.outcome)), "succ")
  }

  // ---------------------------------------------------------------------------------
  // Categories (lines 628-651)

  /** The target player's event in the opponent half (a missing `x` compares as false). */
  predicate Own(e: ActionEvent, pid: int)
  {
    e.playerId == Some(pid) && e.x.Some? && e.x.value > 50.0
  }

  predicate IsGoal(e: ActionEvent) { Kind(e) == "goal" && Truthy(e.isGoal) }
  predicate IsShotOnTarget(e: ActionEvent) { Kind(e) in OnTargetKinds }
  predicate IsShotOffTarget(e: ActionEvent) { Kind(e) in OffTargetKinds }
  predicate IsDribbleWon(e: ActionEvent) { Kind(e) == "takeon" && Succeeded(e) }
  predicate IsDribbleLost(e: ActionEvent) { Kind(e) == "takeon" && !Succeeded(e) }
  predicate IsCross(e: ActionEvent) { Truthy(e.cross) }
  predicate IsKeyPass(e: ActionEvent) { Truthy(e.keyPass) || Truthy(e.shotAssist) }

  predicate IsAssist(e: ActionEvent)
  {
    Truthy(e.assisted) || Truthy(e.intentionalAssist) || Truthy(e.intentionalGoalAssist)
  }

  predicate IsRecovery(e: ActionEvent) { Kind(e) in RecoveryKinds && Succeeded(e) }

  /** The non-missing event ids of `s`. */
  function IdsOf(s: seq<ActionEvent>): (ids: set<int>)
    ensures forall i :: i in ids <==> exists e :: e in s && e.id == Some(i)
  {
    set e | e in s && e.id.Some? :: e.id.value
  }

  /** `isin(ids)`: the event's id is known and in `ids`. */
  predicate IdIn(e: ActionEvent, ids: set<int>)
  {
    e.id.Some? && e.id.value in ids
  }

  /** The target player's event of the match in the opponent half. */
  predicate Mine(events: seq<ActionEvent>, pid: int, e: ActionEvent)
  {
    e in events && Own(e, pid)
  }

  /** The classification and the priorities of lines 628-671: each category holds the
      player's opponent-half events of its kind, shots lose the events whose id is a goal's,
      key passes and crosses those whose id is an assist's, and crosses also those whose
      id is a remaining key pass's. Events without an id are never removed. */
  method ClassifyActions(events: seq<ActionEvent>, playerArg: real) returns (acts: Actions)
    ensures forall e :: e in acts.goals <==> Mine(events, TruncToInt(playerArg), e) && IsGoal(e)
    ensures forall e :: e in acts.shotsOnTarget <==>
      Mine(events, TruncToInt(playerArg), e) && IsShotOnTarget(e) && !IdIn(e, IdsOf(acts.goals))
    ensures forall e :: e in acts.shotsOffTarget <==>
      Mine(events, TruncToInt(playerArg), e) && IsShotOffTarget(e) && !IdIn(e, IdsOf(acts.goals))
    ensures forall e :: e in acts.dribblesWon <==> Mine(events, TruncToInt(playerArg), e) && IsDribbleWon(e)
    ensures forall e :: e in acts.dribblesLost <==> Mine(events, TruncToInt(playerArg), e) && IsDribbleLost(e)
    ensures forall e :: e in acts.assists <==> Mine(events, TruncToInt(playerArg), e) && IsAssist(e)
    ensures forall e :: e in acts.keyPasses <==>
      Mine(events, TruncToInt(playerArg), e) && IsKeyPass(e) && !IdIn(e, IdsOf(acts.assists))
    ensures forall e :: e in acts.crosses <==>
      Mine(events, TruncToInt(playerArg), e) && IsCross(e)
      && !IdIn(e, IdsOf(acts.assists)) && !IdIn(e, IdsOf(acts.keyPasses))
    ensures forall e :: e in acts.recoveries <==> Mine(events, TruncToInt(playerArg), e) && IsRecovery(e)
    ensures IdsOf(acts.goals) !! IdsOf(acts.shotsOnTarget) && IdsOf(acts.goals) !! IdsOf(acts.shotsOffTarget)
    ensures IdsOf(acts.assists) !! IdsOf(acts.keyPasses) && IdsOf(acts.assists) !! IdsOf(acts.crosses)
    ensures IdsOf(acts.keyPasses) !! IdsOf(acts.crosses)
  {
    var pid := TruncToInt(playerArg);
    var me := Filter(events, (e: ActionEvent) => Own(e, pid));
    var goals := Filter(me, IsGoal);
    var shotsOn := Filter(me, IsShotOnTarget);
    var shotsOff := Filter(me, IsShotOffTarget);
    var won := Filter(me, IsDribbleWon);
    var lost := Filter(me, IsDribbleLost);
    var crosses := Filter(me, IsCross);
    var keyPasses := Filter(me, IsKeyPass);
    var assists := Filter(me, IsAssist);
    var recoveries := Filter(me, IsRecovery);

    // a goal wins over any shot
    var goalIds := IdsOf(goals);
    shotsOn := Filter(shotsOn, (e: ActionEvent) => !IdIn(e, goalIds));
    shotsOff := Filter(shotsOff, (e: ActionEvent) => !IdIn(e, goalIds));

    // an assist wins over a key pass and a cross
    var assistIds := IdsOf(assists);
    keyPasses := Filter(keyPasses, (e: ActionEvent) => !IdIn(e, assistIds));
    crosses := Filter(crosses, (e: ActionEvent) => !IdIn(e, assistIds));

    // a key pass wins over a cross
    var keyPassIds := IdsOf(keyPasses);
    crosses := Filter(crosses, (e: ActionEvent) => !IdIn(e, keyPassIds));

    acts := Actions(goals, shotsOn, shotsOff, won, lost, crosses, keyPasses, assists, recoveries);
  }

  // ---------------------------------------------------------------------------------
  // Shot end point (lines 720-744)

  predicate OnPitch(v: real)
  {
    0.0 <= v <= 100.0
  }

  function Dist(a: real, b: real): real
  {
    if a <= b then b - a else a - b
  }

  /** `min(100, max(0, v))`: the point of [0, 100] nearest to `v`. */
  function Clamp(v: real): (r: real)
    ensures OnPitch(r)
    ensures forall w :: OnPitch(w) ==> Dist(r, v) <= Dist(w, v)
  {
    if v < 0.0 then 0.0 else if v > 100.0 then 100.0 else v
  }

  /** `_endpoint_for_shot` for a shot starting at height `y`: the recorded end point when
      both coordinates are present and on the pitch; else `(100, goalMouthY)` when the goal
      mouth is known; else the recorded end point clamped to the pitch when present; else
      straight to the goal line at the shot's own height. */
  function EndpointForShot(y: real, endX: Option<real>, endY: Option<real>, goalMouthY: Option<real>): (p: (real, real))
    ensures OnPitch(p.0)
    ensures OnPitch(y) && (goalMouthY.None? || OnPitch(goalMouthY.value)) ==> OnPitch(p.1)
  {
    if endX.Some? && endY.Some? && OnPitch(endX.value) && OnPitch(endY.value) then (endX.value, endY.value)
    else if goalMouthY.Some? then (100.0, goalMouthY.value)
    else if endX.Some? && endY.Some? then (Clamp(endX.value), Clamp(endY.value))
    else (100.0, y)
  }

  /** The four priority levels, each taken exactly when the levels above it do not apply. */
  lemma EndpointPriorities(y: real, endX: Option<real>, endY: Option<real>, goalMouthY: Option<real>)
    ensures var p := EndpointForShot(y, endX, endY, goalMouthY);
      var recorded := endX.Some? && endY.Some?;
      (recorded && OnPitch(endX.value) && OnPitch(endY.value) ==> p == (endX.value, endY.value))
      && (!(recorded && OnPitch(endX.value) && OnPitch(endY.value)) && goalMouthY.Some? ==> p == (100.0, goalMouthY.value))
      && (recorded && goalMouthY.None? ==> p == (Clamp(endX.value), Clamp(endY.value)))
      && (!recorded && goalMouthY.None? ==> p == (100.0, y))
  {
  }

  /** With no goal mouth, a recorded end point is moved only to the nearest point of the
      pitch, coordinate by coordinate. */
  lemma EndpointNearestOnPitch(y: real, endX: Option<real>, endY: Option<real>)
    requires endX.Some? && endY.Some?
    ensures var p := EndpointForShot(y, endX, endY, None);
      (forall w :: OnPitch(w) ==> Dist(p.0, endX.value) <= Dist(w, endX.value))
      && (forall w :: OnPitch(w) ==> Dist(p.1, endY.value) <= Dist(w, endY.value))
  {
  }
}
