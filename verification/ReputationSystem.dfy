/** The reputation system itself (src/reputation/score.go).  Each method is one critical section. */
module ReputationSystems {
  import opened Wrappers
  import opened Integers
  import opened Scores
  import opened ReputationStates

  class NodeReputation {
    const nodeID: string
    const did: string
    var score: Uint64
    const baseScore: Uint64
    const firstSeen: Time
    var lastSeen: Time
    var successCount: nat
    var failureCount: nat
    var penaltyCount: nat
    var lastPenalty: Time
    var isActive: bool
    var isBlacklisted: bool
    var blacklistReason: string

    ghost function View(): Node
      reads this
    {
      Node(did, score, baseScore, firstSeen, lastSeen, successCount, failureCount, penaltyCount, lastPenalty,
           isActive, isBlacklisted, blacklistReason)
    }

    constructor (nodeID: string, did: string, now: Time)
      ensures this.nodeID == nodeID && View() == NewNode(did, now)
    {
      this.nodeID := nodeID;
      this.did := did;
      score, baseScore := BASE_SCORE, BASE_SCORE;
      firstSeen, lastSeen, lastPenalty := now, now, 0;
      successCount, failureCount, penaltyCount := 0, 0, 0;
      isActive, isBlacklisted, blacklistReason := true, false, "";
    }

    constructor Blacklisted(nodeID: string, reason: string)
      ensures this.nodeID == nodeID && View() == BlacklistedNode(reason)
    {
      this.nodeID := nodeID;
      did := "";
      score, baseScore := 1, 0;
      firstSeen, lastSeen, lastPenalty := 0, 0, 0;
      successCount, failureCount, penaltyCount := 0, 0, 0;
      isActive, isBlacklisted, blacklistReason := false, true, reason;
    }

    method UpdateScore(delta: Int64)
      modifies this`score
      ensures score == AddScore(old(score), delta)
    {
      var newScore := ToInt64(ToInt64(score) + delta);
      if newScore < 1 {
        newScore := 1;
      }
      if newScore > 1000 {
        newScore := 1000;
      }
      score := newScore;
    }

    /** What `applyUpdate` does to the node. */
    method Apply(delta: Int64, isPenalty: bool, now: Time)
      modifies this
      ensures View() == UpdateNode(old(View()), delta, isPenalty, now)
    {
      UpdateScore(delta);
      if isPenalty {
        penaltyCount := penaltyCount + 1;
        lastPenalty := now;
      } else if delta > 0 {
        successCount := successCount + 1;
      } else if delta < 0 {
        failureCount := failureCount + 1;
      }
      lastSeen := now;
      isActive := score > 100 && !isBlacklisted;
    }

    method ApplyPenalty(points: Uint64, now: Time)
      modifies this
      ensures View() == PenalizeNode(old(View()), points, now)
    {
      penaltyCount := penaltyCount + 1;
      lastPenalty := now;
      if score > points {
        score := score - points;
      } else {
        score := 1;
      }
      if score < 100 {
        isActive := false;
      }
    }

    method Decay(amount: nat)
      modifies this
      ensures View() == DecayNode(old(View()), amount)
    {
      if amount > 0 {
        if score > amount {
          score := score - amount;
        } else {
          score := MIN_SCORE;
        }
        isActive := score > 100;
      }
    }

    method Blacklist(reason: string)
      modifies this
      ensures View() == BlacklistNode(old(View()), reason)
    {
      isBlacklisted := true;
      blacklistReason := reason;
      isActive := false;
      score := 1;
    }
  }

  class ReputationSystem {
    var reputations: map<string, NodeReputation>
    var updateCh: seq<Update>

    /** What the processing loop has received and not yet applied; a local variable of that loop. */
    var inFlight: Option<Update>

    var stats: Stats

    /** The states of the objects in `reputations`, each filed under its own id. */
    ghost var nodes: Nodes

    ghost predicate Valid()
      reads this, reputations.Values
    {
      && nodes.Keys == reputations.Keys
      && forall id <- reputations :: reputations[id].View() == nodes[id] && reputations[id].nodeID == id
    }

    ghost function View(): Reputation
      reads this
    {
      Reputation(nodes, Waiting(updateCh, inFlight), stats)
    }

    constructor ()
      ensures Valid() && View() == Reputation(map[], Waiting([], None), Stats(0, 0, 0, 0.0))
    {
      reputations := map[];
      updateCh := [];
      inFlight := None;
      stats := Stats(0, 0, 0, 0.0);
      nodes := map[];
    }

    /** Counts everything afresh. */
    method UpdateStats()
      requires Valid()
      modifies this`stats
      ensures Valid() && View() == WithNodes(old(View()), nodes)
    {
      var totalNodes, totalScore, activeNodes, blacklistedNodes := Count();
      stats := Stats(totalNodes, activeNodes, blacklistedNodes,
                     if totalNodes > 0 then (totalScore as real) / (totalNodes as real) else stats.averageScore);
    }

    /** The loop of the scan; the map may be visited in any order. */
    method Count() returns (totalNodes: nat, totalScore: nat, activeNodes: nat, blacklistedNodes: nat)
      requires Valid()
      ensures Counts(TallyOf(nodes), totalNodes, totalScore, activeNodes, blacklistedNodes)
    {
      totalNodes, totalScore, activeNodes, blacklistedNodes := 0, 0, 0, 0;
      ghost var visited := TallyOf(map[]);
      var todo := reputations.Keys;
      assert nodes - todo == map[];
      while todo != {}
        invariant todo <= reputations.Keys && visited == TallyOf(nodes - todo)
        invariant Counts(visited, totalNodes, totalScore, activeNodes, blacklistedNodes)
        decreases todo
      {
        var id :| id in todo;
        var rep := reputations[id];
        Figures(id);
        OneMoreNode(nodes, todo, id);
        OneMoreCounted(visited, nodes[id], totalNodes, totalScore, activeNodes, blacklistedNodes);
        visited := Visit(visited, nodes[id]);
        totalNodes := totalNodes + 1;
        totalScore := totalScore + rep.score;
        if rep.isActive {
          activeNodes := activeNodes + 1;
        }
        if rep.isBlacklisted {
          blacklistedNodes := blacklistedNodes + 1;
        }
        todo := todo - {id};
      }
      assert nodes - todo == nodes;
    }

    /** The counting variables stand for a tally. */
    static ghost predicate Counts(t: Tally, nodes: nat, score: nat, active: nat, blacklisted: nat) {
      t.nodes == nodes && t.score == score && t.active == active && t.blacklisted == blacklisted
    }

    static lemma OneMoreCounted(t: Tally, n: Node, nodes: nat, score: nat, active: nat, blacklisted: nat)
      requires Counts(t, nodes, score, active, blacklisted)
      ensures Counts(Visit(t, n), nodes + 1, score + n.score, if n.isActive then active + 1 else active,
                     if n.isBlacklisted then blacklisted + 1 else blacklisted)
    {
    }

    lemma Figures(id: string)
      requires Valid() && id in reputations
      ensures var rep, n := reputations[id], nodes[id];
              rep.score == n.score && rep.isActive == n.isActive && rep.isBlacklisted == n.isBlacklisted
    {
      assert reputations[id].View() == nodes[id];
    }

    /** Files a new object under its id. */
    method Add(rep: NodeReputation)
      requires Valid() && rep.nodeID !in reputations
      modifies this`reputations, this`nodes
      ensures Valid() && reputations == old(reputations)[rep.nodeID := rep]
      ensures nodes == old(nodes)[rep.nodeID := rep.View()]
    {
      reputations := reputations[rep.nodeID := rep];
      nodes := nodes[rep.nodeID := rep.View()];
    }

    method RegisterNode(nodeID: string, did: string, now: Time) returns (rep: NodeReputation)
      requires Valid()
      modifies this
      ensures Valid() && View() == Register(old(View()), nodeID, did, now)
      ensures nodeID in reputations && rep == reputations[nodeID]
    {
      if nodeID in reputations {
        return reputations[nodeID];
      }
      rep := new NodeReputation(nodeID, did, now);
      Add(rep);
      UpdateStats();
    }

    /** The object an operation on `id` writes to. */
    ghost function Target(id: string): set<object>
      reads this
    {
      if id in reputations then {reputations[id]} else {}
    }

    method ApplyUpdate(id: string, delta: Int64, isPenalty: bool, now: Time)
      requires Valid()
      modifies this, Target(id)
      ensures Valid() && View() == ReputationStates.ApplyUpdate(old(View()), Update(id, delta), isPenalty, now)
    {
      UpdateNodes(Update(id, delta), isPenalty, now);
      UpdateStats();
    }

    method UpdateNodes(u: Update, isPenalty: bool, now: Time)
      requires Valid()
      modifies this`reputations, this`nodes, Target(u.id)
      ensures Valid() && nodes == UpdateIn(old(nodes), u, isPenalty, now)
    {
      ghost var before := nodes;
      FindOrAdd(u.id, now);
      UpdateTarget(before, nodes, u.id, u, isPenalty, now);
      ApplyTo(u.id, u.delta, isPenalty, now);
    }

    static lemma UpdateTarget(before: Nodes, found: Nodes, id: string, u: Update, isPenalty: bool, now: Time)
      requires u.id == id && found == if id in before then before else before[id := NewNode("", now)]
      ensures found[id := UpdateNode(found[id], u.delta, isPenalty, now)] == UpdateIn(before, u, isPenalty, now)
    {
    }

    method FindOrAdd(id: string, now: Time)
      requires Valid()
      modifies this`reputations, this`nodes
      ensures Valid() && id in reputations
      ensures id in old(reputations) ==> reputations[id] == old(reputations)[id]
      ensures id !in old(reputations) ==> fresh(reputations[id])
      ensures nodes == if id in old(nodes) then old(nodes) else old(nodes)[id := NewNode("", now)]
    {
      if id !in reputations {
        var rep := new NodeReputation(id, "", now);
        Add(rep);
      }
    }

    method ApplyTo(id: string, delta: Int64, isPenalty: bool, now: Time)
      requires Valid() && id in reputations
      modifies this`nodes, reputations[id]
      ensures Valid() && nodes == old(nodes)[id := UpdateNode(old(nodes)[id], delta, isPenalty, now)]
    {
      reputations[id].Apply(delta, isPenalty, now);
      nodes := nodes[id := reputations[id].View()];
      assert forall j <- reputations :: j != id ==> reputations[j].View() == nodes[j];
    }

    method GetScore(id: string) returns (score: Uint64)
      requires Valid()
      ensures score == ScoreIn(nodes, id)
    {
      if id in reputations {
        Figures(id);
        return reputations[id].score;
      }
      return BASE_SCORE;
    }

    /** Sends to the queue, or applies at once if that is full. */
    method UpdateScore(id: string, delta: Int64, now: Time)
      requires Valid()
      modifies this, Target(id)
      ensures Valid() && View() == Submit(old(View()), Update(id, delta), now)
    {
      if |updateCh| < QUEUE_CAPACITY {
        updateCh := updateCh + [Update(id, delta)];
      } else {
        ApplyUpdate(id, delta, false, now);
      }
    }

    method Penalize(id: string, points: Uint64, now: Time)
      requires Valid()
      modifies this, Target(id)
      ensures Valid() && View() == Submit(old(View()), Update(id, PenaltyDelta(points)), now)
    {
      UpdateScore(id, ToInt64(-(ToInt64(points))), now);
    }

    /** The first half of a turn of the processing loop: it takes an update out of the channel.  With nothing
        there the real loop would wait. */
    method ReceiveUpdate()
      requires Valid()
      modifies this`updateCh, this`inFlight
      ensures Valid() && View() == Receive(old(View()))
    {
      if updateCh != [] && inFlight.None? {
        inFlight := Some(updateCh[0]);
        updateCh := updateCh[1..];
      }
    }

    /** The second half: it applies the update it has received.  Others may have gone first. */
    method ProcessUpdate(now: Time)
      requires Valid()
      modifies this, if inFlight.Some? then Target(inFlight.value.id) else {}
      ensures Valid() && View() == Process(old(View()), now)
    {
      if inFlight.Some? {
        var update := inFlight.value;
        inFlight := None;
        ApplyUpdate(update.id, update.delta, false, now);
      }
    }

    /** `amounts` holds what each node loses. */
    method ApplyDecay(amounts: map<string, nat>)
      requires Valid()
      modifies this, reputations.Values
      ensures Valid() && View() == Decay(old(View()), amounts)
    {
      DecayNodes(amounts);
      UpdateStats();
    }

    method DecayNodes(amounts: map<string, nat>)
      requires Valid()
      modifies this`nodes, reputations.Values
      ensures Valid() && nodes == DecayAll(old(nodes), amounts)
    {
      ghost var before := nodes;
      var todo := reputations.Keys;
      while todo != {}
        invariant todo <= reputations.Keys && Valid()
        invariant PartlyDecayed(before, nodes, amounts, todo)
        decreases todo
      {
        var id :| id in todo;
        OneMoreDecayed(before, nodes, amounts, todo, id);
        DecayOne(id, if id in amounts then amounts[id] else 0);
        todo := todo - {id};
      }
    }

    /** The nodes still to come are as they were; the others have decayed. */
    static ghost predicate PartlyDecayed(before: Nodes, now: Nodes, amounts: map<string, nat>, todo: set<string>) {
      && now.Keys == before.Keys
      && forall id <- before :: now[id] == if id in todo then before[id] else DecayedNode(before, amounts, id)
    }

    static lemma OneMoreDecayed(before: Nodes, now: Nodes, amounts: map<string, nat>, todo: set<string>, id: string)
      requires PartlyDecayed(before, now, amounts, todo) && id in todo && todo <= now.Keys
      ensures var amount := if id in amounts then amounts[id] else 0;
              PartlyDecayed(before, now[id := DecayNode(now[id], amount)], amounts, todo - {id})
    {
      assert now[id] == before[id];
    }

    method DecayOne(id: string, amount: nat)
      requires Valid() && id in reputations
      modifies this`nodes, reputations[id]
      ensures Valid() && nodes == old(nodes)[id := DecayNode(old(nodes)[id], amount)]
    {
      reputations[id].Decay(amount);
      nodes := nodes[id := reputations[id].View()];
      assert forall j <- reputations :: j != id ==> reputations[j].View() == nodes[j];
    }

    method BlacklistNode(id: string, reason: string)
      requires Valid()
      modifies this, Target(id)
      ensures Valid() && View() == Blacklist(old(View()), id, reason)
    {
      if id in reputations {
        reputations[id].Blacklist(reason);
        nodes := nodes[id := reputations[id].View()];
        assert forall j <- reputations :: j != id ==> reputations[j].View() == nodes[j];
      } else {
        var rep := new NodeReputation.Blacklisted(id, reason);
        Add(rep);
      }
      UpdateStats();
    }
  }
}
