/** The data side of `plot_pass_network_for_player`: for a target player, resolve the team,
    keep that team's successful passes, find each pass's receiver (the related-player field,
    or a search of the following ten seconds of the team's events), and aggregate undirected
    edges with pass counts and nodes with a median position and a received-pass count.
    Drawing is not modelled: the result is the aggregated network the drawing starts from,
    or `None` where the source returns before drawing. */
module PassNetwork {
  import opened Common
  import opened Text
  import opened Stats

  /** One row of the match's event table after column normalisation (lines 102-133). Ids
      are the `Int64` columns, coordinates and times the numeric ones; `None` is NA/NaN. */
  datatype Event = Event(
    typ: Option<string>,
    outcome: Option<string>,
    playerId: Option<int>,
    teamId: Option<int>,
    relatedPlayerId: Option<int>,
    x: Option<real>,
    y: Option<real>,
    endX: Option<real>,
    endY: Option<real>,
    minute: Option<real>,
    second: Option<real>)

  /** One row of the optional player table: the two columns team resolution reads. */
  datatype RosterRow = RosterRow(playerId: Option<int>, teamId: Option<int>)

  /** A pass whose receiver has been resolved. */
  datatype Link = Link(pass: Event, receiver: int)

  /** A node of the network: median position and number of passes received. */
  datatype Node = Node(x: real, y: real, received: nat)

  /** The aggregated network (`edges_u` and the nodes): the resolved team, the undirected
      edges `(a, b)` with `a <= b` and their pass counts, and the nodes by player id. The
      drawing also skips an edge whose end has no node; that step is not part of this
      value. */
  datatype Network = Network(team: int, edges: map<(int, int), nat>, nodes: map<int, Node>)

  /** Seconds after a pass in which its receiver is searched for. */
  const TimeWindow: real := 10.0

  /** Distance from a pass's end point within which a later event counts as the reception. */
  const ReachRadius: real := 12.0

  /** Outcome texts accepted as a success, including the source's misspellings. */
  const SuccessSpellings: set<string> := {"successful", "success", "succesful", "successfull"}

  /** Seconds since kick-off, a missing minute or second counting as 0. */
  function Time(e: Event): real
  {
    OrZero(e.minute) * 60.0 + OrZero(e.second)
  }

  // ---------------------------------------------------------------------------------
  // Team resolution (lines 141-153)

  /** Number of events in `es` whose team is `t`. */
  function CountTeam(es: seq<Event>, t: int): nat
  {
    if es == [] then 0 else (if es[0].teamId == Some(t) then 1 else 0) + CountTeam(es[1..], t)
  }

  /** The non-missing team ids of `es` (`["tid"].dropna()`), with their multiplicities. */
  function TeamIdsOf(es: seq<Event>): (ts: seq<int>)
    ensures forall t :: t in ts <==> exists e :: e in es && e.teamId == Some(t)
    ensures forall t :: multiset(ts)[t] == CountTeam(es, t)
  {
    if es == [] then []
    else
      var rest := TeamIdsOf(es[1..]);
      assert es == [es[0]] + es[1..];
      if es[0].teamId.Some? then [es[0].teamId.value] + rest else rest
  }

  /** The target player's events. */
  function PlayerEvents(events: seq<Event>, pid: int): (r: seq<Event>)
    ensures forall e :: e in r <==> e in events && e.playerId == Some(pid)
    ensures forall e :: multiset(r)[e] == if e.playerId == Some(pid) then multiset(events)[e] else 0
  {
    forall e ensures multiset(Filter(events, PlayerMask(pid)))[e] == if e.playerId == Some(pid) then multiset(events)[e] else 0 {
      FilterCount(events, PlayerMask(pid), e);
    }
    Filter(events, PlayerMask(pid))
  }

  /** The mask `pid == player_id`. */
  function PlayerMask(pid: int): Event -> bool
  {
    (e: Event) => e.playerId == Some(pid)
  }

  /** The team the player table gives for `pid`: that of the first row for the player
      with a team id, when the table and both its columns are present. */
  function RosterTeam(roster: Option<seq<RosterRow>>, pid: int): (r: Option<int>)
    ensures r.Some? ==> roster.Some? && exists row :: row in roster.value && row.playerId == Some(pid) && row.teamId == r
    ensures r.None? <==> roster.None? || forall row :: row in roster.value ==> row.playerId != Some(pid) || row.teamId.None?
    ensures r.Some? ==>
      exists k :: 0 <= k < |roster.value| && roster.value[k].playerId == Some(pid) && roster.value[k].teamId == r
        && forall j :: 0 <= j < k ==> roster.value[j].playerId != Some(pid) || roster.value[j].teamId.None?
  {
    if roster.None? then None
    else
      var rows := Filter(roster.value, RosterMask(pid));
      if rows == [] then None
      else
        assert rows[0] in rows;
        FilterHead(roster.value, RosterMask(pid));
        rows[0].teamId
  }

  /** The player table's rows for `pid` that carry a team id. */
  function RosterMask(pid: int): RosterRow -> bool
  {
    (row: RosterRow) => row.playerId == Some(pid) && row.teamId.Some?
  }

  /** The fallback chain for the team: the explicit argument, else the player's most
      frequent team, else the player table's team, else the match's most frequent team. */
  function TeamChain(events: seq<Event>, pid: int, explicitTeam: Option<int>, roster: Option<seq<RosterRow>>): Option<int>
  {
    if explicitTeam.Some? then explicitTeam
    else
      var mine := TeamIdsOf(PlayerEvents(events, pid));
      if mine != [] then Some(Mode(mine))
      else
        var fromRoster := RosterTeam(roster, pid);
        if fromRoster.Some? then fromRoster
        else
          var all := TeamIdsOf(events);
          if all != [] then Some(Mode(all)) else None
  }

  /** The chain fails exactly when no team is given, the player table has none for the
      player, and no event of the match carries a team. */
  lemma TeamChainFails(events: seq<Event>, pid: int, explicitTeam: Option<int>, roster: Option<seq<RosterRow>>)
    ensures TeamChain(events, pid, explicitTeam, roster).None? <==>
      explicitTeam.None? && RosterTeam(roster, pid).None? && forall e :: e in events ==> e.teamId.None?
  {
    var mine := TeamIdsOf(PlayerEvents(events, pid));
    if mine != [] {
      var e :| e in PlayerEvents(events, pid) && e.teamId == Some(mine[0]);
      assert e in events;
    }
  }

  /** With no explicit team, a player who has team-bearing events is placed in the team of
      most of them; on a tie, in the team with the smallest id. */
  lemma TeamChainPicksModalTeam(events: seq<Event>, pid: int, roster: Option<seq<RosterRow>>)
    requires exists e :: e in events && e.playerId == Some(pid) && e.teamId.Some?
    ensures TeamChain(events, pid, None, roster).Some?
    ensures var t := TeamChain(events, pid, None, roster).value;
      var mine := PlayerEvents(events, pid);
      CountTeam(mine, t) > 0
      && (forall u :: CountTeam(mine, u) <= CountTeam(mine, t))
      && (forall u :: CountTeam(mine, u) == CountTeam(mine, t) ==> t <= u)
  {
    var mine := PlayerEvents(events, pid);
    var ids := TeamIdsOf(mine);
    var e :| e in events && e.playerId == Some(pid) && e.teamId.Some?;
    assert e in mine;
    assert e.teamId.value in ids;
    var t := Mode(ids);
    forall u ensures CountTeam(mine, u) <= CountTeam(mine, t) {
      if u in ids {
        assert multiset(ids)[u] <= multiset(ids)[t];
      } else {
        assert multiset(ids)[u] == 0;
      }
    }
    forall u | CountTeam(mine, u) == CountTeam(mine, t) ensures t <= u {
      assert multiset(ids)[u] == multiset(ids)[t] > 0;
      assert u in ids;
    }
  }

  // ---------------------------------------------------------------------------------
  // Pass filter (lines 155-162)

  /** The type text, lower-cased, contains "pass". */
  predicate IsPassType(e: Event)
  {
    Contains(Lower(AsText(e.typ)), "pass")
  }

  /** The outcome text, lower-cased, is one of the accepted spellings of success. */
  predicate IsSuccessful(e: Event)
  {
    Lower(AsText(e.outcome)) in SuccessSpellings
  }

  /** The boolean mask `type_pass & out_ok & (tid == team_id)`. */
  function PassMask(team: int): Event -> bool
  {
    e => IsPassType(e) && IsSuccessful(e) && e.teamId == Some(team)
  }

  /** The team's successful passes, in table order. */
  function SuccessfulPasses(events: seq<Event>, team: int): (ps: seq<Event>)
    ensures forall p :: p in ps <==>
      p in events && (exists i :: OccursAt(Lower(AsText(p.typ)), "pass", i))
      && Lower(AsText(p.outcome)) in SuccessSpellings && p.teamId == Some(team)
    ensures forall p :: multiset(ps)[p] == if PassMask(team)(p) then multiset(events)[p] else 0
  {
    forall p ensures multiset(Filter(events, PassMask(team)))[p] == if PassMask(team)(p) then multiset(events)[p] else 0 {
      FilterCount(events, PassMask(team), p);
    }
    Filter(events, PassMask(team))
  }

  // ---------------------------------------------------------------------------------
  // Receiver resolution (lines 164-196)

  /** The team's events in time order (`same_team.sort_values("t")`). */
  function TeamTimeline(events: seq<Event>, team: int): (s: seq<Event>)
    ensures SortedBy(s, Time)
    ensures forall e :: e in s <==> e in events && e.teamId == Some(team)
    ensures forall e :: multiset(s)[e] == if e.teamId == Some(team) then multiset(events)[e] else 0
  {
    var mine := Filter(events, TeamMask(team));
    var s := SortBy(mine, Time);
    assert forall e :: e in s <==> e in mine by {
      forall e ensures e in s <==> e in mine {
        assert e in s <==> e in multiset(s);
      }
    }
    forall e ensures multiset(s)[e] == if e.teamId == Some(team) then multiset(events)[e] else 0 {
      FilterCount(events, TeamMask(team), e);
    }
    s
  }

  /** The mask `tid == team_id`. */
  function TeamMask(team: int): Event -> bool
  {
    (e: Event) => e.teamId == Some(team)
  }

  /** `c` happens after the pass and at most `TimeWindow` seconds later. */
  predicate InWindow(c: Event, p: Event)
  {
    Time(p) < Time(c) <= Time(p) + TimeWindow
  }

  /** `c` is by a known player other than the passer (a missing id compares as false). */
  predicate ByOtherPlayer(c: Event, p: Event)
  {
    c.playerId.Some? && p.playerId.Some? && c.playerId != p.playerId
  }

  /** `c` is a candidate reception of the pass `p`. */
  predicate IsCandidate(c: Event, p: Event)
  {
    InWindow(c, p) && ByOtherPlayer(c, p)
  }

  function Sq(v: real): real { v * v }

  /** `c` starts within `ReachRadius` of `(xe, ye)`; compared squared, which over exact
      reals is the same as comparing `hypot` with the radius, and false when `c` lacks a
      coordinate. */
  predicate NearPoint(c: Event, xe: real, ye: real)
  {
    c.x.Some? && c.y.Some? && Sq(c.x.value - xe) + Sq(c.y.value - ye) <= Sq(ReachRadius)
  }

  /** Candidate receptions of `p` in timeline order. */
  function Candidates(p: Event, timeline: seq<Event>): (cs: seq<Event>)
    ensures forall c :: c in cs <==> c in timeline && IsCandidate(c, p)
  {
    Filter(timeline, (c: Event) => IsCandidate(c, p))
  }

  /** Candidate receptions of `p` that start near its end point, in timeline order. */
  function NearCandidates(p: Event, timeline: seq<Event>): (cs: seq<Event>)
    requires p.endX.Some? && p.endY.Some?
    ensures forall c :: c in cs <==> c in timeline && IsCandidate(c, p) && NearPoint(c, p.endX.value, p.endY.value)
  {
    Filter(Candidates(p, timeline), (c: Event) => NearPoint(c, p.endX.value, p.endY.value))
  }

  /** The search for a pass without a related player: nothing when its end point is
      incomplete or no candidate exists; otherwise the first near candidate's player, or
      the first candidate's player when none is near. */
  function SearchReceiver(p: Event, timeline: seq<Event>): Option<int>
  {
    if p.endX.None? || p.endY.None? then None
    else
      var cands := Candidates(p, timeline);
      if cands == [] then None
      else
        var near := NearCandidates(p, timeline);
        if near != [] then near[0].playerId else cands[0].playerId
  }

  /** The receiver of a pass: its related player when present, else the search result. */
  function ReceiverOf(p: Event, timeline: seq<Event>): Option<int>
  {
    if p.relatedPlayerId.Some? then p.relatedPlayerId else SearchReceiver(p, timeline)
  }

  /** `p` has no related player and a complete end point, so its receiver is searched for. */
  predicate Searched(p: Event)
  {
    p.relatedPlayerId.None? && p.endX.Some? && p.endY.Some?
  }

  /** `c` is in `s` and no event of `s` is earlier. */
  predicate EarliestIn(c: Event, s: seq<Event>)
  {
    c in s && forall d :: d in s ==> Time(c) <= Time(d)
  }

  /** On a timeline in time order: a pass with a related player keeps it; one without and
      with an incomplete end point stays unresolved; otherwise the search picks the
      temporally earliest candidate that starts near the pass's end point (not the nearest
      one), failing that the earliest candidate, and finds nothing when there is no
      candidate. A searched receiver is never the passer. */
  lemma {:induction false} ReceiverIsEarliest(p: Event, timeline: seq<Event>)
    requires SortedBy(timeline, Time)
    ensures p.relatedPlayerId.Some? ==> ReceiverOf(p, timeline) == p.relatedPlayerId
    ensures p.relatedPlayerId.None? && (p.endX.None? || p.endY.None?) ==> ReceiverOf(p, timeline).None?
    ensures Searched(p) && NearCandidates(p, timeline) != [] ==>
      exists c :: EarliestIn(c, NearCandidates(p, timeline)) && ReceiverOf(p, timeline) == c.playerId
    ensures Searched(p) && NearCandidates(p, timeline) == [] && Candidates(p, timeline) != [] ==>
      exists c :: EarliestIn(c, Candidates(p, timeline)) && ReceiverOf(p, timeline) == c.playerId
    ensures Searched(p) && Candidates(p, timeline) == [] ==> ReceiverOf(p, timeline).None?
    ensures p.relatedPlayerId.None? && ReceiverOf(p, timeline).Some? ==> ReceiverOf(p, timeline) != p.playerId
  {
    if !Searched(p) {
      return;
    }
    var xe, ye := p.endX.value, p.endY.value;
    var cands := Candidates(p, timeline);
    FilterKeepsSorted(timeline, c => IsCandidate(c, p), Time);
    if cands != [] {
      assert cands[0] in cands;
      FirstIsEarliest(cands, Time);
      var near := NearCandidates(p, timeline);
      FilterKeepsSorted(cands, c => NearPoint(c, xe, ye), Time);
      if near != [] {
        assert near[0] in near;
        FirstIsEarliest(near, Time);
        assert EarliestIn(near[0], near);
      } else {
        assert EarliestIn(cands[0], cands);
      }
    }
  }

  /** A near candidate strictly earlier than every other near candidate is the receiver,
      however far it is from the end point compared with the others. */
  lemma EarliestNearIsReceiver(p: Event, timeline: seq<Event>, a: Event)
    requires SortedBy(timeline, Time)
    requires p.relatedPlayerId.None? && p.endX.Some? && p.endY.Some?
    requires a in timeline && IsCandidate(a, p) && NearPoint(a, p.endX.value, p.endY.value)
    requires forall c :: c in timeline && IsCandidate(c, p) && NearPoint(c, p.endX.value, p.endY.value) && c != a ==> Time(a) < Time(c)
    ensures ReceiverOf(p, timeline) == a.playerId
  {
    var near := NearCandidates(p, timeline);
    assert a in near;
    ReceiverIsEarliest(p, timeline);
    var c :| EarliestIn(c, near) && ReceiverOf(p, timeline) == c.playerId;
    assert Time(c) <= Time(a);
  }

  /** A pass ending at (60, 50) at kick-off, followed two seconds later by a team-mate
      touching the ball 10 units away and five seconds later by another exactly at the end
      point: the earlier, farther team-mate is the receiver. */
  lemma EarliestNotNearest(p: Event, a: Event, b: Event)
    requires p.relatedPlayerId.None? && p.playerId == Some(1) && Time(p) == 0.0
    requires p.endX == Some(60.0) && p.endY == Some(50.0)
    requires a.playerId == Some(2) && Time(a) == 2.0 && a.x == Some(70.0) && a.y == Some(50.0)
    requires b.playerId == Some(3) && Time(b) == 5.0 && b.x == Some(60.0) && b.y == Some(50.0)
    ensures ReceiverOf(p, [p, a, b]) == Some(2)
  {
    var timeline := [p, a, b];
    assert SortedBy(timeline, Time) by {
      forall i, j | 0 <= i < j < |timeline| ensures Time(timeline[i]) <= Time(timeline[j]) { }
    }
    assert a in timeline && IsCandidate(a, p) && NearPoint(a, 60.0, 50.0);
    EarliestNearIsReceiver(p, timeline, a);
  }

  /** The receiver column after the loop over passes without a related player (lines
      165 and 177-194): each such pass that the search resolves gets the found player; the
      others keep their related player, or stay missing. */
  method ResolveReceivers(passes: seq<Event>, timeline: seq<Event>) returns (receivers: seq<Option<int>>)
    ensures |receivers| == |passes|
    ensures forall i :: 0 <= i < |passes| ==> receivers[i] == ReceiverOf(passes[i], timeline)
  {
    receivers := seq(|passes|, i requires 0 <= i < |passes| => passes[i].relatedPlayerId);
    for i := 0 to |passes|
      invariant |receivers| == |passes|
      invariant forall k :: 0 <= k < i ==> receivers[k] == ReceiverOf(passes[k], timeline)
      invariant forall k :: i <= k < |passes| ==> receivers[k] == passes[k].relatedPlayerId
    {
      if receivers[i].None? {
        receivers := receivers[i := SearchReceiver(passes[i], timeline)];
      }
    }
  }

  /** The receiver column as a whole. */
  function ReceiverColumn(passes: seq<Event>, timeline: seq<Event>): seq<Option<int>>
  {
    seq(|passes|, i requires 0 <= i < |passes| => ReceiverOf(passes[i], timeline))
  }

  /** `dropna(subset=["receiver"])`: the passes whose receiver is known, with it. */
  function Links(passes: seq<Event>, receivers: seq<Option<int>>): (ls: seq<Link>)
    requires |receivers| == |passes|
    ensures forall l :: l in ls ==> exists i :: 0 <= i < |passes| && passes[i] == l.pass && receivers[i] == Some(l.receiver)
    ensures forall i :: 0 <= i < |passes| && receivers[i].Some? ==> Link(passes[i], receivers[i].value) in ls
  {
    if passes == [] then []
    else
      var rest := Links(passes[1..], receivers[1..]);
      assert forall i :: 1 <= i < |passes| ==> passes[i] == passes[1..][i - 1] && receivers[i] == receivers[1..][i - 1];
      if receivers[0].Some? then [Link(passes[0], receivers[0].value)] + rest else rest
  }

  /** Rows `i` of the pass table whose pass is `l.pass` and whose receiver is `l.receiver`. */
  function RowsOf(passes: seq<Event>, receivers: seq<Option<int>>, l: Link): nat
    requires |receivers| == |passes|
  {
    if passes == [] then 0
    else (if passes[0] == l.pass && receivers[0] == Some(l.receiver) then 1 else 0) + RowsOf(passes[1..], receivers[1..], l)
  }

  /** Each pass row with a receiver gives exactly one link: a link occurs as often as the
      rows that produce it. */
  lemma {:induction false} LinksCount(passes: seq<Event>, receivers: seq<Option<int>>, l: Link)
    requires |receivers| == |passes|
    ensures multiset(Links(passes, receivers))[l] == RowsOf(passes, receivers, l)
  {
    if passes != [] {
      LinksCount(passes[1..], receivers[1..], l);
    }
  }

  /** The resolved passes of `team` in the match. */
  function ResolvedLinks(events: seq<Event>, team: int): seq<Link>
  {
    var passes := SuccessfulPasses(events, team);
    Links(passes, ReceiverColumn(passes, TeamTimeline(events, team)))
  }

  // ---------------------------------------------------------------------------------
  // Edges (lines 199-208)

  /** The unordered pair `(min, max)` of each resolved pass with a known passer (the
      group-by on passer and receiver skips a missing passer). */
  function PairKeys(links: seq<Link>): seq<(int, int)>
  {
    if links == [] then []
    else
      var l := links[0];
      (if l.pass.playerId.Some? then
         var p := l.pass.playerId.value;
         [(if p <= l.receiver then p else l.receiver, if p <= l.receiver then l.receiver else p)]
       else [])
      + PairKeys(links[1..])
  }

  /** Passes from `p` to `r`. */
  function Directed(links: seq<Link>, p: int, r: int): nat
  {
    if links == [] then 0
    else (if links[0].pass.playerId == Some(p) && links[0].receiver == r then 1 else 0) + Directed(links[1..], p, r)
  }

  /** Passes between `a` and `b` in either direction. */
  function Between(links: seq<Link>, a: int, b: int): nat
  {
    if a == b then Directed(links, a, a) else Directed(links, a, b) + Directed(links, b, a)
  }

  /** The pair `(a, b)` occurs as often as there are passes between `a` and `b` in either
      direction when `a <= b`, and never otherwise. */
  lemma {:induction false} PairKeysCount(links: seq<Link>, a: int, b: int)
    ensures multiset(PairKeys(links))[(a, b)] == if a <= b then Between(links, a, b) else 0
  {
    if links != [] {
      PairKeysCount(links[1..], a, b);
    }
  }

  /** The surviving edges: pair counts at least `minCount`, restricted to pairs touching
      `pid` unless `showAll`. */
  function Edges(links: seq<Link>, pid: int, minCount: int, showAll: bool): map<(int, int), nat>
  {
    var counts := Tally(PairKeys(links));
    map k | k in counts && counts[k] >= minCount && (showAll || k.0 == pid || k.1 == pid) :: counts[k]
  }

  /** An edge `(a, b)` exists exactly when `a <= b`, some pass went between them, their
      merged count reaches `minCount`, and `showAll` holds or one end is `pid`; its count is
      the passes from `a` to `b` plus those from `b` to `a`. */
  lemma EdgesAreMergedPairs(links: seq<Link>, pid: int, minCount: int, showAll: bool, a: int, b: int)
    ensures (a, b) in Edges(links, pid, minCount, showAll) <==>
      a <= b && Between(links, a, b) > 0 && Between(links, a, b) >= minCount && (showAll || a == pid || b == pid)
    ensures (a, b) in Edges(links, pid, minCount, showAll) ==>
      Edges(links, pid, minCount, showAll)[(a, b)] == Between(links, a, b)
  {
    PairKeysCount(links, a, b);
    var keys := PairKeys(links);
    assert (a, b) in keys <==> multiset(keys)[(a, b)] > 0;
  }

  // ---------------------------------------------------------------------------------
  // Nodes (lines 210-219)

  /** One complete position row of `pos_all`. */
  datatype Sample = Sample(player: int, px: real, py: real)

  /** Passer start points with a known passer and both coordinates. */
  function StartSamples(links: seq<Link>): seq<Sample>
  {
    if links == [] then []
    else
      var e := links[0].pass;
      (if e.playerId.Some? && e.x.Some? && e.y.Some? then [Sample(e.playerId.value, e.x.value, e.y.value)] else [])
      + StartSamples(links[1..])
  }

  /** Receiver end points with both coordinates. */
  function EndSamples(links: seq<Link>): seq<Sample>
  {
    if links == [] then []
    else
      var e := links[0].pass;
      (if e.endX.Some? && e.endY.Some? then [Sample(links[0].receiver, e.endX.value, e.endY.value)] else [])
      + EndSamples(links[1..])
  }

  /** `pos_all`: start samples followed by end samples. */
  function Samples(links: seq<Link>): seq<Sample>
  {
    StartSamples(links) + EndSamples(links)
  }

  function SamplesOf(ss: seq<Sample>, p: int): (r: seq<Sample>)
    ensures forall s :: s in r <==> s in ss && s.player == p
  {
    Filter(ss, SampleMask(p))
  }

  /** Each of `p`'s samples is grouped under `p` as many times as it occurs in `pos_all`,
      so the median reads every sample row once. */
  lemma SamplesOfCount(ss: seq<Sample>, p: int)
    ensures forall s :: multiset(SamplesOf(ss, p))[s] == if s.player == p then multiset(ss)[s] else 0
  {
    forall s ensures multiset(SamplesOf(ss, p))[s] == if s.player == p then multiset(ss)[s] else 0 {
      FilterCount(ss, SampleMask(p), s);
    }
  }

  /** The rows of `pos_all` grouped under player `p`. */
  function SampleMask(p: int): Sample -> bool
  {
    (s: Sample) => s.player == p
  }

  function Xs(ss: seq<Sample>): seq<real>
  {
    seq(|ss|, i requires 0 <= i < |ss| => ss[i].px)
  }

  function Ys(ss: seq<Sample>): seq<real>
  {
    seq(|ss|, i requires 0 <= i < |ss| => ss[i].py)
  }

  /** The x positions that place `p`'s node. */
  function PositionXs(links: seq<Link>, p: int): seq<real>
  {
    Xs(SamplesOf(Samples(links), p))
  }

  /** The y positions that place `p`'s node. */
  function PositionYs(links: seq<Link>, p: int): seq<real>
  {
    Ys(SamplesOf(Samples(links), p))
  }

  function ReceiverIds(links: seq<Link>): seq<int>
  {
    seq(|links|, i requires 0 <= i < |links| => links[i].receiver)
  }

  /** Resolved passes naming `p` as receiver. */
  function Received(links: seq<Link>, p: int): nat
  {
    if links == [] then 0 else (if links[0].receiver == p then 1 else 0) + Received(links[1..], p)
  }

  /** The node of a player with at least one complete position sample. */
  function NodeFor(links: seq<Link>, received: map<int, nat>, p: int): Node
    requires exists s :: s in Samples(links) && s.player == p
  {
    var mine := SamplesOf(Samples(links), p);
    assert |mine| > 0 by {
      var s :| s in Samples(links) && s.player == p;
      assert s in mine;
    }
    Node(Median(Xs(mine)), Median(Ys(mine)), if p in received then received[p] else 0)
  }

  /** `avg_pos` merged with the received counts, by player id. */
  function Nodes(links: seq<Link>): map<int, Node>
  {
    var received := Tally(ReceiverIds(links));
    map p | p in (set s | s in Samples(links) :: s.player) :: NodeFor(links, received, p)
  }

  /** `p` starts a resolved pass with both start coordinates. */
  predicate StartsAt(l: Link, p: int)
  {
    l.pass.playerId == Some(p) && l.pass.x.Some? && l.pass.y.Some?
  }

  /** `p` receives a resolved pass with both end coordinates. */
  predicate EndsAt(l: Link, p: int)
  {
    l.receiver == p && l.pass.endX.Some? && l.pass.endY.Some?
  }

  lemma {:induction false} StartSamplesOf(links: seq<Link>, p: int)
    ensures (exists s :: s in StartSamples(links) && s.player == p) <==> exists l :: l in links && StartsAt(l, p)
  {
    if links != [] {
      StartSamplesOf(links[1..], p);
      assert links == [links[0]] + links[1..];
      if StartsAt(links[0], p) {
        assert StartSamples(links)[0].player == p;
      }
    }
  }

  lemma {:induction false} EndSamplesOf(links: seq<Link>, p: int)
    ensures (exists s :: s in EndSamples(links) && s.player == p) <==> exists l :: l in links && EndsAt(l, p)
  {
    if links != [] {
      EndSamplesOf(links[1..], p);
      assert links == [links[0]] + links[1..];
      if EndsAt(links[0], p) {
        assert EndSamples(links)[0].player == p;
      }
    }
  }

  lemma {:induction false} ReceiverIdsCount(links: seq<Link>, p: int)
    ensures multiset(ReceiverIds(links))[p] == Received(links, p)
  {
    if links != [] {
      ReceiverIdsCount(links[1..], p);
      assert ReceiverIds(links) == [links[0].receiver] + ReceiverIds(links[1..]);
    }
  }

  /** A player has a node exactly when they start a resolved pass with both start
      coordinates or receive one with both end coordinates; the node's coordinates are
      the pandas medians of those samples, and its size is the number of resolved passes they
      received. */
  lemma NodesArePositionMedians(links: seq<Link>, p: int)
    ensures p in Nodes(links) <==> exists l :: l in links && (StartsAt(l, p) || EndsAt(l, p))
    ensures p in Nodes(links) ==> |PositionXs(links, p)| > 0 && |PositionYs(links, p)| > 0
    ensures p in Nodes(links) ==> IsMedian(PositionXs(links, p), Nodes(links)[p].x)
    ensures p in Nodes(links) ==> IsMedian(PositionYs(links, p), Nodes(links)[p].y)
    ensures p in Nodes(links) ==> Nodes(links)[p].received == Received(links, p)
    ensures p in Nodes(links) ==>
      Nodes(links)[p].x == Median(PositionXs(links, p)) && Nodes(links)[p].y == Median(PositionYs(links, p))
  {
    StartSamplesOf(links, p);
    EndSamplesOf(links, p);
    var ss := Samples(links);
    assert (exists s :: s in ss && s.player == p) <==> exists l :: l in links && (StartsAt(l, p) || EndsAt(l, p));
    if p in Nodes(links) {
      var s :| s in ss && s.player == p;
      assert s in SamplesOf(ss, p);
      MedianSplits(PositionXs(links, p));
      MedianSplits(PositionYs(links, p));
      ReceiverIdsCount(links, p);
      var ids := ReceiverIds(links);
      assert p in ids <==> multiset(ids)[p] > 0;
    }
  }

  // ---------------------------------------------------------------------------------
  // The whole builder

  /** The network `plot_pass_network_for_player` aggregates before drawing, or `None` where
      it returns early: no events, a player argument that is missing or not numeric, no
      team, no pass. With no resolved receiver, the edges and nodes are empty and nothing
      is drawn either. */
  function NetworkOf(events: seq<Event>, playerArg: Option<real>, explicitTeam: Option<int>,
                     roster: Option<seq<RosterRow>>, minEdgeCount: int, showAll: bool): Option<Network>
  {
    if events == [] || playerArg.None? then None
    else
      var pid := ParseId(playerArg).value;
      var team := TeamChain(events, pid, explicitTeam, roster);
      if team.None? || SuccessfulPasses(events, team.value) == [] then None
      else
        var links := ResolvedLinks(events, team.value);
        Some(Network(team.value, Edges(links, pid, minEdgeCount, showAll), Nodes(links)))
  }

  /** The builder does nothing exactly when the events are empty, the player argument is
      missing or not numeric, no team resolves, or the team has no successful pass. */
  lemma NetworkIsNoOp(events: seq<Event>, playerArg: Option<real>, explicitTeam: Option<int>,
                      roster: Option<seq<RosterRow>>, minEdgeCount: int, showAll: bool)
    ensures events == [] || playerArg.None? ==> NetworkOf(events, playerArg, explicitTeam, roster, minEdgeCount, showAll).None?
    ensures events != [] && playerArg.Some? ==>
      var pid := ParseId(playerArg).value;
      NetworkOf(events, playerArg, explicitTeam, roster, minEdgeCount, showAll).None? <==>
        (explicitTeam.None? && RosterTeam(roster, pid).None? && forall e :: e in events ==> e.teamId.None?)
        || forall p :: p in events ==> !(IsPassType(p) && IsSuccessful(p) && p.teamId == TeamChain(events, pid, explicitTeam, roster))
  {
    if events == [] || playerArg.None? {
      return;
    }
    var pid := ParseId(playerArg).value;
    TeamChainFails(events, pid, explicitTeam, roster);
    var team := TeamChain(events, pid, explicitTeam, roster);
    if team.Some? {
      var ps := SuccessfulPasses(events, team.value);
      if ps != [] {
        assert ps[0] in ps;
      }
    }
  }

  /** The team fallback chain as the source runs it, reassigning `team` at each step. */
  method ResolveTeam(events: seq<Event>, pid: int, explicitTeam: Option<int>, roster: Option<seq<RosterRow>>)
    returns (team: Option<int>)
    ensures team == TeamChain(events, pid, explicitTeam, roster)
  {
    team := explicitTeam;
    if team.None? {
      var mine := TeamIdsOf(PlayerEvents(events, pid));
      if mine != [] {
        team := Some(Mode(mine));
      } else if roster.Some? {
        team := RosterTeam(roster, pid);
      }
    }
    if team.None? {
      var all := TeamIdsOf(events);
      team := if all != [] then Some(Mode(all)) else None;
    }
  }

  /** `plot_pass_network_for_player` without the drawing: guard clauses, the team fallback
      chain reassigning `team`, the pass filter, the receiver loop and the aggregation. */
  method BuildNetwork(events: seq<Event>, playerArg: Option<real>, explicitTeam: Option<int>,
                      roster: Option<seq<RosterRow>>, minEdgeCount: int, showAll: bool)
    returns (net: Option<Network>)
    ensures net == NetworkOf(events, playerArg, explicitTeam, roster, minEdgeCount, showAll)
  {
    if events == [] || playerArg.None? {
      return None;
    }
    var pid := ParseId(playerArg).value;
    var team := ResolveTeam(events, pid, explicitTeam, roster);
    if team.None? {
      return None;
    }
    var passes := SuccessfulPasses(events, team.value);
    if passes == [] {
      return None;
    }
    var timeline := TeamTimeline(events, team.value);
    var receivers := ResolveReceivers(passes, timeline);
    assert receivers == ReceiverColumn(passes, timeline);
    var links := Links(passes, receivers);
    assert links == ResolvedLinks(events, team.value);
    net := Some(Network(team.value, Edges(links, pid, minEdgeCount, showAll), Nodes(links)));
  }

  /** A two-event match: player 1 of team 5 passes successfully at kick-off from (40, 50)
      to (60, 50) with no related player; five seconds later player 2 of team 5, whose event
      has no outcome, is at (62, 49). */
  predicate TwoEventMatch(p: Event, q: Event)
  {
    p.typ == Some("Pass") && p.outcome == Some("Successful") && p.playerId == Some(1)
    && p.teamId == Some(5) && p.relatedPlayerId.None? && Time(p) == 0.0
    && p.x == Some(40.0) && p.y == Some(50.0) && p.endX == Some(60.0) && p.endY == Some(50.0)
    && q.outcome.None? && q.playerId == Some(2) && q.teamId == Some(5) && Time(q) == 5.0
    && q.x == Some(62.0) && q.y == Some(49.0)
  }

  /** In the two-event match, player 1's team is the team of their only event. */
  lemma TwoEventTeam(p: Event, q: Event)
    requires TwoEventMatch(p, q)
    ensures TeamChain([p, q], 1, None, None) == Some(5)
  {
    var mine := TeamIdsOf(PlayerEvents([p, q], 1));
    assert p in PlayerEvents([p, q], 1);
    assert 5 in mine;
  }

  /** In the two-event match, the pass is the only row kept. */
  lemma TwoEventPasses(p: Event, q: Event)
    requires TwoEventMatch(p, q)
    ensures SuccessfulPasses([p, q], 5) == [p]
  {
    var events := [p, q];
    assert IsPassType(p) by {
      assert Lower("Pass") == "pass";
      assert OccursAt(Lower(AsText(p.typ)), "pass", 0);
    }
    assert IsSuccessful(p) by {
      assert Lower("Successful") == "successful";
    }
    assert !IsSuccessful(q) by {
      assert Lower("nan") == "nan";
    }
    var ps := SuccessfulPasses(events, 5);
    FilterCount(events, PassMask(5), p);
    FilterCount(events, PassMask(5), q);
    assert multiset(events)[p] == 1;
    assert multiset(ps) == multiset{p} by {
      forall x ensures multiset(ps)[x] == multiset{p}[x] {
        if x != p && x != q {
          assert x !in ps;
        }
      }
    }
    assert |ps| == 1;
    assert ps[0] in multiset(ps);
  }

  /** In the two-event match, the search finds player 2 as the pass's receiver. */
  lemma TwoEventReceiver(p: Event, q: Event)
    requires TwoEventMatch(p, q)
    ensures ReceiverOf(p, TeamTimeline([p, q], 5)) == Some(2)
  {
    var tl := TeamTimeline([p, q], 5);
    assert q in tl && IsCandidate(q, p) && NearPoint(q, 60.0, 50.0);
    EarliestNearIsReceiver(p, tl, q);
  }

  /** In the two-event match, the one resolved pass goes from player 1 to player 2. */
  lemma TwoEventLinks(p: Event, q: Event)
    requires TwoEventMatch(p, q)
    ensures ResolvedLinks([p, q], 5) == [Link(p, 2)]
  {
    TwoEventPasses(p, q);
    TwoEventReceiver(p, q);
    OnePassLink(p, TeamTimeline([p, q], 5), 2);
  }

  /** A single pass with receiver `r` gives the single link to `r`. */
  lemma OnePassLink(p: Event, tl: seq<Event>, r: int)
    requires ReceiverOf(p, tl) == Some(r)
    ensures Links([p], ReceiverColumn([p], tl)) == [Link(p, r)]
  {
    assert ReceiverColumn([p], tl) == [Some(r)];
    assert [p][1..] == [] && [Some(r)][1..] == [];
  }

  /** The two-event match gives the single edge (1, 2) with one pass. */
  lemma TwoEventEdges(p: Event)
    requires p.playerId == Some(1)
    ensures Edges([Link(p, 2)], 1, 1, false) == map[(1, 2) := 1]
  {
    var links := [Link(p, 2)];
    assert links[1..] == [];
    var keys := PairKeys(links);
    assert PairKeys(links[1..]) == [];
    assert keys == [(1, 2)] + PairKeys(links[1..]);
    var counts := Tally(keys);
    assert counts.Keys == {(1, 2)};
    assert counts[(1, 2)] == 1;
  }

  /** The position samples of the two-event match: the pass's start and its end. */
  lemma TwoEventSamples(p: Event)
    requires p.playerId == Some(1) && p.x == Some(40.0) && p.y == Some(50.0)
    requires p.endX == Some(60.0) && p.endY == Some(50.0)
    ensures Samples([Link(p, 2)]) == [Sample(1, 40.0, 50.0), Sample(2, 60.0, 50.0)]
  {
    var links := [Link(p, 2)];
    assert links[1..] == [];
    assert StartSamples(links) == [Sample(1, 40.0, 50.0)] + StartSamples(links[1..]);
    assert EndSamples(links) == [Sample(2, 60.0, 50.0)] + EndSamples(links[1..]);
  }

  /** The received counts of the two-event match: one pass to player 2. */
  lemma TwoEventReceived(p: Event)
    ensures Tally(ReceiverIds([Link(p, 2)])) == map[2 := 1]
  {
    var ids := ReceiverIds([Link(p, 2)]);
    assert ids == [2];
    var m := Tally(ids);
    assert m.Keys == {2};
    assert m[2] == 1;
  }

  /** In the two-event match, both players have a node. */
  lemma TwoEventNodeKeys(p: Event)
    requires p.playerId == Some(1) && p.x == Some(40.0) && p.y == Some(50.0)
    requires p.endX == Some(60.0) && p.endY == Some(50.0)
    ensures Nodes([Link(p, 2)]).Keys == {1, 2}
  {
    TwoEventSamples(p);
    var ss := Samples([Link(p, 2)]);
    assert (set s | s in ss :: s.player) == {1, 2} by {
      assert ss[0] in ss && ss[1] in ss;
    }
  }

  /** In the two-event match, a player's only samples are at `(x, y)`. */
  lemma TwoEventSamplesOf(p: Event, k: int, x: real, y: real)
    requires p.playerId == Some(1) && p.x == Some(40.0) && p.y == Some(50.0)
    requires p.endX == Some(60.0) && p.endY == Some(50.0)
    requires (k, x, y) == (1, 40.0, 50.0) || (k, x, y) == (2, 60.0, 50.0)
    ensures forall s :: s in Samples([Link(p, 2)]) && s.player == k ==> s.px == x && s.py == y
  {
    TwoEventSamples(p);
  }

  /** In the two-event match, player `k`'s node sits at their only sample and counts the
      passes they received. */
  lemma TwoEventNode(p: Event, k: int, x: real, y: real, received: nat)
    requires p.playerId == Some(1) && p.x == Some(40.0) && p.y == Some(50.0)
    requires p.endX == Some(60.0) && p.endY == Some(50.0)
    requires (k, x, y, received) == (1, 40.0, 50.0, 0) || (k, x, y, received) == (2, 60.0, 50.0, 1)
    ensures k in Nodes([Link(p, 2)]) && Nodes([Link(p, 2)])[k] == Node(x, y, received)
  {
    var links := [Link(p, 2)];
    TwoEventNodeKeys(p);
    TwoEventSamplesOf(p, k, x, y);
    assert links[0] in links && (StartsAt(links[0], k) || EndsAt(links[0], k));
    SinglePosition(links, k, x, y);
    NodeSize(links, k);
    assert links[1..] == [];
    assert Received(links, k) == received;
  }

  /** The two-event match gives player 1 a node at the pass's start, size 0, and player 2
      a node at its end, size 1. */
  lemma TwoEventNodes(p: Event)
    requires p.playerId == Some(1) && p.x == Some(40.0) && p.y == Some(50.0)
    requires p.endX == Some(60.0) && p.endY == Some(50.0)
    ensures Nodes([Link(p, 2)]).Keys == {1, 2}
    ensures Nodes([Link(p, 2)])[1] == Node(40.0, 50.0, 0) && Nodes([Link(p, 2)])[2] == Node(60.0, 50.0, 1)
  {
    TwoEventNodeKeys(p);
    TwoEventNode(p, 1, 40.0, 50.0, 0);
    TwoEventNode(p, 2, 60.0, 50.0, 1);
  }

  /** A player who starts or receives a resolved pass with coordinates has a node whose
      size is the number of resolved passes they received. */
  lemma NodeSize(links: seq<Link>, k: int)
    requires exists l :: l in links && (StartsAt(l, k) || EndsAt(l, k))
    ensures k in Nodes(links) && Nodes(links)[k].received == Received(links, k)
  {
    NodesArePositionMedians(links, k);
  }

  /** A player all of whose samples sit at one point has its node at that point. */
  lemma SinglePosition(links: seq<Link>, k: int, x: real, y: real)
    requires exists l :: l in links && (StartsAt(l, k) || EndsAt(l, k))
    requires forall s :: s in Samples(links) && s.player == k ==> s.px == x && s.py == y
    ensures k in Nodes(links) && Nodes(links)[k].x == x && Nodes(links)[k].y == y
  {
    NodesArePositionMedians(links, k);
    var mine := SamplesOf(Samples(links), k);
    var xs, ys := Xs(mine), Ys(mine);
    assert |mine| > 0 by {
      var s :| s in Samples(links) && s.player == k;
      assert s in mine;
    }
    forall i | 0 <= i < |mine| ensures xs[i] == x && ys[i] == y {
      assert mine[i] in mine;
    }
    MedianOfConstant(xs, x);
    MedianOfConstant(ys, y);
    assert Nodes(links)[k] == NodeFor(links, Tally(ReceiverIds(links)), k);
  }

  /** The two-event match end to end: team 5, the edge (1, 2) with one pass, player 1's
      node at the pass's start and player 2's node at its end with one pass received. */
  lemma TwoEventMatchNetwork(p: Event, q: Event)
    requires TwoEventMatch(p, q)
    ensures var net := NetworkOf([p, q], Some(1.0), None, None, 1, false);
      net.Some? && net.value.team == 5 && net.value.edges == map[(1, 2) := 1]
      && net.value.nodes.Keys == {1, 2}
      && net.value.nodes[1] == Node(40.0, 50.0, 0) && net.value.nodes[2] == Node(60.0, 50.0, 1)
  {
    var events := [p, q];
    var links := [Link(p, 2)];
    assert ParseId(Some(1.0)).value == 1;
    TwoEventTeam(p, q);
    TwoEventPasses(p, q);
    TwoEventLinks(p, q);
    TwoEventEdges(p);
    TwoEventNodes(p);
    assert NetworkOf(events, Some(1.0), None, None, 1, false)
      == Some(Network(5, Edges(links, 1, 1, false), Nodes(links)));
  }

  // ---------------------------------------------------------------------------------
  // Labels (lines 95-99)

  /** The last token of `s` starts at `k`: it occurs there, follows whitespace or the
      start, and only whitespace follows it. */
  predicate LastTokenAt(s: string, r: string, k: int)
  {
    OccursAt(s, r, k) && (k == 0 || IsSpace(s[k - 1]))
    && forall j :: k + |r| <= j < |s| ==> IsSpace(s[j])
  }

  /** `_short_name`: "" for a non-string name, the last whitespace-separated token of a
      name that has one, and the name itself when it is blank. */
  function ShortName(name: Option<string>): (r: string)
    ensures name.None? ==> r == ""
    ensures name.Some? && (forall i :: 0 <= i < |name.value| ==> IsSpace(name.value[i])) ==> r == name.value
    ensures name.Some? && (exists i :: 0 <= i < |name.value| && !IsSpace(name.value[i])) ==>
      r != [] && (forall i :: 0 <= i < |r| ==> !IsSpace(r[i])) && exists k :: LastTokenAt(name.value, r, k)
  {
    if name.None? then ""
    else
      var s := name.value;
      var t := TrimEnd(s);
      if t == [] then s
      else
        var r := TrailingRun(t);
        assert t[|t| - 1] == r[|r| - 1];
        assert LastTokenAt(s, r, |t| - |r|) by {
          assert s[|t| - |r|..|t|] == t[|t| - |r|..];
          if |t| - |r| > 0 {
            assert s[|t| - |r| - 1] == t[|t| - |r| - 1];
          }
        }
        r
  }
}
