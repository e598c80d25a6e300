/** The reputation system as a value: its nodes, its update queue and its published statistics
    (src/reputation/score.go). */
module ReputationStates {
  import opened Wrappers
  import opened Integers
  import opened Scores

  const BASE_SCORE: nat := 100
  const QUEUE_CAPACITY: nat := 1000

  datatype Node = Node(
    did: string,
    score: Uint64,
    baseScore: Uint64,
    firstSeen: Time,
    lastSeen: Time,
    successCount: nat,
    failureCount: nat,
    penaltyCount: nat,
    lastPenalty: Time,
    isActive: bool,
    isBlacklisted: bool,
    blacklistReason: string)

  datatype Update = Update(id: string, delta: Int64)

  /** `averageScore` keeps its old value while there are no nodes. */
  datatype Stats = Stats(totalNodes: nat, activeNodes: nat, blacklistedNodes: nat, averageScore: real)

  type Nodes = map<string, Node>

  /** Updates on their way: those in the channel, and the one that the processing loop has taken out and not
      yet applied. */
  datatype Waiting = Waiting(queue: seq<Update>, inFlight: Option<Update>)

  datatype Reputation = Reputation(nodes: Nodes, waiting: Waiting, stats: Stats)

  function NewNode(did: string, now: Time): Node {
    Node(did, BASE_SCORE, BASE_SCORE, now, now, 0, 0, 0, 0, true, false, "")
  }

  /** A node that is first heard of by being blacklisted has only a score and the mark; the times are Go's
      zero time. */
  function BlacklistedNode(reason: string): Node {
    Node("", 1, 0, 0, 0, 0, 0, 0, 0, false, true, reason)
  }

  function BlacklistNode(n: Node, reason: string): Node {
    n.(isBlacklisted := true, blacklistReason := reason, isActive := false, score := 1)
  }

  /** The part of `applyUpdate` that concerns the node. */
  function UpdateNode(n: Node, delta: Int64, isPenalty: bool, now: Time): Node {
    var m := n.(score := AddScore(n.score, delta));
    var counted :=
      if isPenalty then m.(penaltyCount := m.penaltyCount + 1, lastPenalty := now)
      else if delta > 0 then m.(successCount := m.successCount + 1)
      else if delta < 0 then m.(failureCount := m.failureCount + 1)
      else m;
    counted.(lastSeen := now, isActive := m.score > 100 && !m.isBlacklisted)
  }

  /** `amount` is what the floating-point formula of `applyDecay` comes to for this node. */
  function DecayNode(n: Node, amount: nat): Node {
    if amount == 0 then n
    else
      var m := n.(score := if n.score > amount then n.score - amount else MIN_SCORE);
      m.(isActive := m.score > 100)
  }

  /** `NodeReputation.ApplyPenalty`. */
  function PenalizeNode(n: Node, points: Uint64, now: Time): Node {
    var m := n.(penaltyCount := n.penaltyCount + 1, lastPenalty := now,
                score := if n.score > points then n.score - points else 1);
    if m.score < 100 then m.(isActive := false) else m
  }

  /** An update moves the score by its delta between 1 and 1000, counts as what it is, and decides the activity
      anew; who the node is and whether it is blacklisted stay. */
  lemma {:induction false} UpdateMovesScore(n: Node, delta: Int64, isPenalty: bool, now: Time)
    requires 1 <= n.score <= 1000 && n.score + delta <= MAX_INT64
    ensures var m, sum := UpdateNode(n, delta, isPenalty, now), n.score + delta;
            && m.score == (if sum < 1 then 1 else if sum > 1000 then 1000 else sum)
            && m.successCount == n.successCount + (if delta > 0 && !isPenalty then 1 else 0)
            && m.failureCount == n.failureCount + (if delta < 0 && !isPenalty then 1 else 0)
            && m.penaltyCount == n.penaltyCount + (if isPenalty then 1 else 0)
            && m.lastPenalty == (if isPenalty then now else n.lastPenalty)
            && m.lastSeen == now && (m.isActive <==> m.score > 100 && !n.isBlacklisted)
            && m.did == n.did && m.baseScore == n.baseScore && m.firstSeen == n.firstSeen
            && m.isBlacklisted == n.isBlacklisted && m.blacklistReason == n.blacklistReason
  {
  }

  /** Decay takes its amount down to 1; if that is anything, the activity follows the score alone. */
  lemma {:induction false} DecayTakesAmount(n: Node, amount: nat)
    requires 1 <= n.score
    ensures var m := DecayNode(n, amount);
            && m.score == (if n.score - amount < 1 then 1 else n.score - amount)
            && (m.isActive <==> if amount == 0 then n.isActive else m.score > 100)
            && m.(score := n.score, isActive := n.isActive) == n
  {
  }

  /** A direct penalty takes its points down to 1 and is counted; below 100 the node becomes inactive. */
  lemma {:induction false} PenaltyTakesPoints(n: Node, points: Uint64, now: Time)
    requires 1 <= n.score
    ensures var m := PenalizeNode(n, points, now);
            && m.score == (if n.score - points < 1 then 1 else n.score - points)
            && m.penaltyCount == n.penaltyCount + 1 && m.lastPenalty == now
            && (m.isActive <==> n.isActive && m.score >= 100)
            && m.(score := n.score, isActive := n.isActive, penaltyCount := n.penaltyCount,
                  lastPenalty := n.lastPenalty) == n
  {
  }

  /** Blacklisting marks the node with its reason, stops it and leaves it one point; a node first heard of this
      way has nothing else, and a registered one starts active with 100 points. */
  lemma {:induction false} FirstAndLast(n: Node, did: string, reason: string, now: Time)
    ensures var m, k, r := BlacklistNode(n, reason), BlacklistedNode(reason), NewNode(did, now);
            && (forall b <- {m, k} :: b.isBlacklisted && b.blacklistReason == reason && !b.isActive && b.score == 1)
            && m.(isBlacklisted := n.isBlacklisted, blacklistReason := n.blacklistReason, isActive := n.isActive,
                  score := n.score) == n
            && r.score == 100 && r.baseScore == 100 && r.did == did && r.firstSeen == now && r.lastSeen == now
            && r.isActive && !r.isBlacklisted && r.blacklistReason == ""
            && (forall b <- {k, r} ::
                  b.successCount == 0 && b.failureCount == 0 && b.penaltyCount == 0 && b.lastPenalty == 0)
            && k.did == "" && k.baseScore == 0 && k.firstSeen == 0 && k.lastSeen == 0
  {
  }

  /** What one visit to every node adds up; `counted` is the operations recorded, good or bad. */
  datatype Tally = Tally(nodes: nat, score: nat, active: nat, blacklisted: nat, counted: nat)

  function Visit(t: Tally, n: Node): Tally {
    Tally(t.nodes + 1, t.score + n.score, if n.isActive then t.active + 1 else t.active,
          if n.isBlacklisted then t.blacklisted + 1 else t.blacklisted, t.counted + n.successCount + n.failureCount)
  }

  ghost function TallyOf(nodes: Nodes): Tally
    decreases |nodes|
  {
    if nodes == map[] then Tally(0, 0, 0, 0, 0)
    else
      var id :| id in nodes;
      Visit(TallyOf(nodes - {id}), nodes[id])
  }

  /** The tally does not depend on the order in which the map hands out its nodes. */
  lemma {:induction false} AnyNodeLast(nodes: Nodes, id: string)
    requires id in nodes
    ensures TallyOf(nodes) == Visit(TallyOf(nodes - {id}), nodes[id])
    decreases |nodes|
  {
    var last :| last in nodes && TallyOf(nodes) == Visit(TallyOf(nodes - {last}), nodes[last]);
    if last != id {
      AnyNodeLast(nodes - {last}, id);
      AnyNodeLast(nodes - {id}, last);
      var rest := nodes - {last} - {id};
      assert rest == nodes - {id} - {last};
      VisitsCommute(TallyOf(rest), nodes[id], nodes[last]);
    }
  }

  lemma VisitsCommute(t: Tally, n: Node, m: Node)
    ensures Visit(Visit(t, n), m) == Visit(Visit(t, m), n)
  {
  }

  lemma TallyWith(nodes: Nodes, id: string, n: Node)
    ensures TallyOf(nodes[id := n]) == Visit(TallyOf(nodes - {id}), n)
    ensures id in nodes ==> TallyOf(nodes) == Visit(TallyOf(nodes - {id}), nodes[id])
    ensures id !in nodes ==> nodes - {id} == nodes
  {
    AnyNodeLast(nodes[id := n], id);
    assert nodes[id := n] - {id} == nodes - {id};
    if id in nodes {
      AnyNodeLast(nodes, id);
    }
  }

  /** Visiting one more node, whichever comes next. */
  lemma OneMoreNode(nodes: Nodes, todo: set<string>, id: string)
    requires id in todo && todo <= nodes.Keys
    ensures TallyOf(nodes - (todo - {id})) == Visit(TallyOf(nodes - todo), nodes[id])
  {
    var more := nodes - (todo - {id});
    assert more - {id} == nodes - todo;
    AnyNodeLast(more, id);
  }

  ghost function Active(nodes: Nodes): set<string> {
    set id | id in nodes && nodes[id].isActive
  }

  ghost function Blacklisted(nodes: Nodes): set<string> {
    set id | id in nodes && nodes[id].isBlacklisted
  }

  /** Every point of every score, and every operation recorded with a node, told apart by its number. */
  ghost function Points(nodes: Nodes): set<(string, int)> {
    set id, k: int | id in nodes && 0 <= k < nodes[id].score :: (id, k)
  }

  ghost function Records(nodes: Nodes): set<(string, int)> {
    set id, k: int | id in nodes && 0 <= k < nodes[id].successCount + nodes[id].failureCount :: (id, k)
  }

  ghost function Numbered(id: string, n: nat): set<(string, int)> {
    set k: int | 0 <= k < n :: (id, k)
  }

  lemma {:induction false} NumberedSize(id: string, n: nat)
    ensures |Numbered(id, n)| == n
  {
    if n > 0 {
      NumberedSize(id, n - 1);
      assert Numbered(id, n) == Numbered(id, n - 1) + {(id, n - 1)};
    }
  }

  lemma DisjointSize(all: set<(string, int)>, rest: set<(string, int)>, id: string, n: nat)
    requires all == rest + Numbered(id, n) && rest !! Numbered(id, n)
    ensures |all| == |rest| + n
  {
    NumberedSize(id, n);
  }

  lemma PointsWith(nodes: Nodes, id: string)
    requires id in nodes
    ensures |Points(nodes)| == |Points(nodes - {id})| + nodes[id].score
  {
    assert Points(nodes) == Points(nodes - {id}) + Numbered(id, nodes[id].score);
    DisjointSize(Points(nodes), Points(nodes - {id}), id, nodes[id].score);
  }

  lemma RecordsWith(nodes: Nodes, id: string)
    requires id in nodes
    ensures |Records(nodes)| == |Records(nodes - {id})| + nodes[id].successCount + nodes[id].failureCount
  {
    var recorded := nodes[id].successCount + nodes[id].failureCount;
    assert Records(nodes) == Records(nodes - {id}) + Numbered(id, recorded);
    DisjointSize(Records(nodes), Records(nodes - {id}), id, recorded);
  }

  /** The tally counts the nodes there are, those that are active, those that are blacklisted, the points of all
      scores, and the operations recorded. */
  lemma {:induction false} TallyIsCardinality(nodes: Nodes)
    ensures var t := TallyOf(nodes);
            && t.nodes == |nodes| && t.active == |Active(nodes)| && t.blacklisted == |Blacklisted(nodes)|
            && t.score == |Points(nodes)| && t.counted == |Records(nodes)|
    decreases |nodes|
  {
    if nodes == map[] {
      assert Active(nodes) == {} && Blacklisted(nodes) == {} && Points(nodes) == {} && Records(nodes) == {};
    } else {
      var id :| id in nodes;
      AnyNodeLast(nodes, id);
      TallyIsCardinality(nodes - {id});
      MarksWith(nodes, id);
      PointsWith(nodes, id);
      RecordsWith(nodes, id);
    }
  }

  lemma MarksWith(nodes: Nodes, id: string)
    requires id in nodes
    ensures |Active(nodes)| == |Active(nodes - {id})| + if nodes[id].isActive then 1 else 0
    ensures |Blacklisted(nodes)| == |Blacklisted(nodes - {id})| + if nodes[id].isBlacklisted then 1 else 0
  {
    assert Active(nodes - {id}) == Active(nodes) - {id};
    assert Blacklisted(nodes - {id}) == Blacklisted(nodes) - {id};
  }

  function StatsOf(t: Tally, before: real): Stats {
    Stats(t.nodes, t.active, t.blacklisted, if t.nodes > 0 then (t.score as real) / (t.nodes as real) else before)
  }

  /** A fresh scan of all nodes. */
  ghost function Scan(nodes: Nodes, before: real): Stats {
    StatsOf(TallyOf(nodes), before)
  }

  /** The figures are those of the nodes: how many there are, are active and are blacklisted, and an
      average that accounts for the sum of their scores. */
  ghost predicate Reports(s: Stats, nodes: Nodes) {
    && s.totalNodes == |nodes|
    && s.activeNodes == |Active(nodes)|
    && s.blacklistedNodes == |Blacklisted(nodes)|
    && s.averageScore * (s.totalNodes as real) == |Points(nodes)| as real
  }

  lemma ScanReports(nodes: Nodes)
    ensures Reports(Scan(nodes, 0.0), nodes)
  {
    TallyIsCardinality(nodes);
    assert TallyOf(nodes).nodes == 0 ==> Points(nodes) == {};
    Average(TallyOf(nodes), Scan(nodes, 0.0).averageScore);
  }

  lemma Average(t: Tally, average: real)
    requires average == StatsOf(t, 0.0).averageScore && (t.nodes == 0 ==> t.score == 0)
    ensures average * (t.nodes as real) == t.score as real
  {
  }

  ghost function WithNodes(s: Reputation, nodes: Nodes): Reputation {
    s.(nodes := nodes, stats := Scan(nodes, s.stats.averageScore))
  }

  ghost function Register(s: Reputation, id: string, did: string, now: Time): Reputation {
    if id in s.nodes then s else WithNodes(s, s.nodes[id := NewNode(did, now)])
  }

  /** What `GetScore` returns: unknown nodes are given the base score. */
  function ScoreIn(nodes: Nodes, id: string): Uint64 {
    if id in nodes then nodes[id].score else BASE_SCORE
  }

  function UpdateIn(nodes: Nodes, u: Update, isPenalty: bool, now: Time): Nodes {
    var n := if u.id in nodes then nodes[u.id] else NewNode("", now);
    nodes[u.id := UpdateNode(n, u.delta, isPenalty, now)]
  }

  ghost function ApplyUpdate(s: Reputation, u: Update, isPenalty: bool, now: Time): Reputation {
    WithNodes(s, UpdateIn(s.nodes, u, isPenalty, now))
  }

  function Enqueue(w: Waiting, u: Update): Waiting {
    if |w.queue| < QUEUE_CAPACITY then w.(queue := w.queue + [u]) else w
  }

  /** A submitted update waits in the queue if there is room, and overtakes it otherwise. */
  ghost function Submit(s: Reputation, u: Update, now: Time): Reputation {
    if |s.waiting.queue| < QUEUE_CAPACITY then s.(waiting := Enqueue(s.waiting, u))
    else ApplyUpdate(s, u, false, now)
  }

  /** The processing loop takes the oldest update out of the channel, unless it still holds one. */
  function TakeNext(w: Waiting): Waiting {
    if w.queue == [] || w.inFlight.Some? then w else Waiting(w.queue[1..], Some(w.queue[0]))
  }

  ghost function Receive(s: Reputation): Reputation {
    s.(waiting := TakeNext(s.waiting))
  }

  /** It applies the update it holds. */
  ghost function Process(s: Reputation, now: Time): Reputation {
    if s.waiting.inFlight.None? then s
    else ApplyUpdate(s.(waiting := s.waiting.(inFlight := None)), s.waiting.inFlight.value, false, now)
  }

  /** `amounts` holds what each node loses; nodes it does not mention lose nothing. */
  function DecayAll(nodes: Nodes, amounts: map<string, nat>): Nodes {
    map id | id in nodes :: DecayedNode(nodes, amounts, id)
  }

  function DecayedNode(nodes: Nodes, amounts: map<string, nat>, id: string): Node
    requires id in nodes
  {
    DecayNode(nodes[id], if id in amounts then amounts[id] else 0)
  }

  ghost function Decay(s: Reputation, amounts: map<string, nat>): Reputation {
    WithNodes(s, DecayAll(s.nodes, amounts))
  }

  function BlacklistIn(nodes: Nodes, id: string, reason: string): Nodes {
    nodes[id := if id in nodes then BlacklistNode(nodes[id], reason) else BlacklistedNode(reason)]
  }

  ghost function Blacklist(s: Reputation, id: string, reason: string): Reputation {
    WithNodes(s, BlacklistIn(s.nodes, id, reason))
  }

  /** A node that is not both blacklisted and active stays so under every operation but decay, which
      brings it back exactly if it takes something and leaves more than 100. */
  lemma {:induction false} DecayReactivatesExactlyWhen(n: Node, amount: nat)
    requires !(n.isBlacklisted && n.isActive)
    ensures var m := DecayNode(n, amount);
            m.isBlacklisted && m.isActive <==> n.isBlacklisted && amount > 0 && n.score > amount + 100
  {
  }

  lemma {:induction false} OthersKeepBlacklistedInactive(n: Node, delta: Int64, isPenalty: bool, points: Uint64,
                                                         reason: string, now: Time)
    requires !(n.isBlacklisted && n.isActive)
    ensures var u, p, b := UpdateNode(n, delta, isPenalty, now), PenalizeNode(n, points, now), BlacklistNode(n, reason);
            !(u.isBlacklisted && u.isActive) && !(p.isBlacklisted && p.isActive) && !(b.isBlacklisted && b.isActive)
  {
  }
}
