/** What holds in every run of the reputation system (src/reputation/score.go). */
module ReputationRuns {
  import opened Wrappers
  import opened Integers
  import opened Scores
  import opened ReputationStates

  datatype Step =
    | Registered(id: string, did: string, now: Time)
    | Submitted(update: Update, now: Time)
    | Received
    | Processed(now: Time)
    | Decayed(amounts: map<string, nat>)
    | Blacklisted(id: string, reason: string)

  const INITIAL := Reputation(map[], Waiting([], None), Stats(0, 0, 0, 0.0))

  ghost function Perform(s: Reputation, step: Step): Reputation {
    match step
    case Registered(id, did, now) => Register(s, id, did, now)
    case Submitted(u, now) => Submit(s, u, now)
    case Received => Receive(s)
    case Processed(now) => Process(s, now)
    case Decayed(amounts) => Decay(s, amounts)
    case Blacklisted(id, reason) => Blacklist(s, id, reason)
  }

  ghost function Run(steps: seq<Step>): Reputation {
    if steps == [] then INITIAL else Perform(Run(steps[..|steps| - 1]), steps[|steps| - 1])
  }

  /** What a step does to the nodes and to the waiting updates, without the statistics. */
  function NodesAfter(nodes: Nodes, waiting: Waiting, step: Step): Nodes {
    match step
    case Registered(id, did, now) => if id in nodes then nodes else nodes[id := NewNode(did, now)]
    case Submitted(u, now) => if |waiting.queue| < QUEUE_CAPACITY then nodes else UpdateIn(nodes, u, false, now)
    case Received => nodes
    case Processed(now) =>
      if waiting.inFlight.None? then nodes else UpdateIn(nodes, waiting.inFlight.value, false, now)
    case Decayed(amounts) => DecayAll(nodes, amounts)
    case Blacklisted(id, reason) => BlacklistIn(nodes, id, reason)
  }

  function WaitingAfter(waiting: Waiting, step: Step): Waiting {
    match step
    case Submitted(u, _) => Enqueue(waiting, u)
    case Received => TakeNext(waiting)
    case Processed(_) => waiting.(inFlight := None)
    case _ => waiting
  }

  /** All updates on their way. */
  function Pending(waiting: Waiting): seq<Update> {
    (if waiting.inFlight.Some? then [waiting.inFlight.value] else []) + waiting.queue
  }

  lemma RunParts(steps: seq<Step>)
    requires steps != []
    ensures var s := Run(steps[..|steps| - 1]);
            && Run(steps).nodes == NodesAfter(s.nodes, s.waiting, steps[|steps| - 1])
            && Run(steps).waiting == WaitingAfter(s.waiting, steps[|steps| - 1])
  {
    PerformParts(Run(steps[..|steps| - 1]), steps[|steps| - 1]);
  }

  lemma PerformParts(s: Reputation, step: Step)
    ensures Perform(s, step).nodes == NodesAfter(s.nodes, s.waiting, step)
    ensures Perform(s, step).waiting == WaitingAfter(s.waiting, step)
  {
  }

  /** The updates a step submits, and those it applies to a node. */
  function SubmittedBy(step: Step): seq<Update> {
    if step.Submitted? then [step.update] else []
  }

  function AppliedBy(waiting: Waiting, step: Step): seq<Update> {
    match step
    case Submitted(u, _) => if |waiting.queue| < QUEUE_CAPACITY then [] else [u]
    case Processed(_) => if waiting.inFlight.None? then [] else [waiting.inFlight.value]
    case _ => []
  }

  /** The updates submitted in a run, in order. */
  function Submissions(steps: seq<Step>): seq<Update> {
    if steps == [] then [] else Submissions(steps[..|steps| - 1]) + SubmittedBy(steps[|steps| - 1])
  }

  /** The updates applied in a run, in order. */
  ghost function Applied(steps: seq<Step>): seq<Update> {
    if steps == [] then []
    else Applied(steps[..|steps| - 1]) + AppliedBy(Run(steps[..|steps| - 1]).waiting, steps[|steps| - 1])
  }

  function NonZero(updates: seq<Update>): nat {
    if updates == [] then 0
    else NonZero(updates[..|updates| - 1]) + (if updates[|updates| - 1].delta != 0 then 1 else 0)
  }

  lemma {:induction false} DecayKeepsCounts(nodes: Nodes, amounts: map<string, nat>)
    ensures TallyOf(DecayAll(nodes, amounts)).counted == TallyOf(nodes).counted
    decreases |nodes|
  {
    var decayed := DecayAll(nodes, amounts);
    if nodes == map[] {
      assert decayed == map[];
    } else {
      var id :| id in nodes;
      AnyNodeLast(nodes, id);
      AnyNodeLast(decayed, id);
      assert decayed - {id} == DecayAll(nodes - {id}, amounts);
      DecayKeepsCounts(nodes - {id}, amounts);
    }
  }

  /** What a step applies was at the front, and what it submits goes to the back. */
  lemma PendingMoves(waiting: Waiting, step: Step)
    ensures var applied, after := AppliedBy(waiting, step), Pending(WaitingAfter(waiting, step));
            if step.Submitted? && applied != [] then applied == SubmittedBy(step) && after == Pending(waiting)
            else applied + after == Pending(waiting) + SubmittedBy(step)
  {
    match step
    case Submitted(u, _) =>
    case Received =>
      if waiting.queue != [] {
        assert waiting.queue == [waiting.queue[0]] + waiting.queue[1..];
      }
    case _ =>
  }

  lemma ConservedByStep(waiting: Waiting, step: Step)
    ensures multiset(AppliedBy(waiting, step)) + multiset(Pending(WaitingAfter(waiting, step)))
         == multiset(Pending(waiting)) + multiset(SubmittedBy(step))
    ensures |waiting.queue| <= QUEUE_CAPACITY ==> |WaitingAfter(waiting, step).queue| <= QUEUE_CAPACITY
  {
    PendingMoves(waiting, step);
    SumsAlike(AppliedBy(waiting, step), Pending(WaitingAfter(waiting, step)), Pending(waiting), SubmittedBy(step));
  }

  lemma SumsAlike(a: seq<Update>, b: seq<Update>, c: seq<Update>, d: seq<Update>)
    requires a + b == c + d || (a == d && b == c)
    ensures multiset(a) + multiset(b) == multiset(c) + multiset(d)
  {
    assert multiset(a + b) == multiset(a) + multiset(b) && multiset(c + d) == multiset(c) + multiset(d);
  }

  /** Conservation over every run: nothing submitted is lost or applied twice, whether it waited in the
      queue, was in flight, or overtook both. */
  lemma {:induction false} UpdatesAreConserved(steps: seq<Step>)
    ensures multiset(Submissions(steps)) == multiset(Applied(steps)) + multiset(Pending(Run(steps).waiting))
    ensures |Run(steps).waiting.queue| <= 1000
  {
    if steps != [] {
      var before, last := steps[..|steps| - 1], steps[|steps| - 1];
      var waiting := Run(before).waiting;
      UpdatesAreConserved(before);
      RunParts(steps);
      ConservedByStep(waiting, last);
      Balance(Submissions(before), Applied(before), Pending(waiting),
              SubmittedBy(last), AppliedBy(waiting, last), Pending(WaitingAfter(waiting, last)));
    }
  }

  lemma Balance(submitted: seq<Update>, applied: seq<Update>, queue: seq<Update>, more: seq<Update>,
                done: seq<Update>, left: seq<Update>)
    requires multiset(submitted) == multiset(applied) + multiset(queue)
    requires multiset(done) + multiset(left) == multiset(queue) + multiset(more)
    ensures multiset(submitted + more) == multiset(applied + done) + multiset(left)
  {
    forall u: Update
      ensures multiset(submitted + more)[u] == (multiset(applied + done) + multiset(left))[u]
    {
      assert multiset(submitted)[u] == (multiset(applied) + multiset(queue))[u];
      assert (multiset(done) + multiset(left))[u] == (multiset(queue) + multiset(more))[u];
    }
  }

  lemma CountedByUpdate(nodes: Nodes, u: Update, now: Time)
    ensures TallyOf(UpdateIn(nodes, u, false, now)).counted == TallyOf(nodes).counted + NonZero([u])
  {
    var n := if u.id in nodes then nodes[u.id] else NewNode("", now);
    TallyWith(nodes, u.id, UpdateNode(n, u.delta, false, now));
    assert [u][..0] == [];
  }

  lemma CountedByStep(nodes: Nodes, waiting: Waiting, step: Step)
    ensures TallyOf(NodesAfter(nodes, waiting, step)).counted
         == TallyOf(nodes).counted + NonZero(AppliedBy(waiting, step))
  {
    match step
    case Registered(id, did, now) =>
      TallyWith(nodes, id, NewNode(did, now));
    case Submitted(u, now) =>
      CountedByUpdate(nodes, u, now);
    case Received =>
    case Processed(now) =>
      if waiting.inFlight.Some? {
        CountedByUpdate(nodes, waiting.inFlight.value, now);
      }
    case Decayed(amounts) =>
      DecayKeepsCounts(nodes, amounts);
    case Blacklisted(id, reason) =>
      TallyWith(nodes, id, if id in nodes then BlacklistNode(nodes[id], reason) else BlacklistedNode(reason));
  }

  lemma {:induction false} NonZeroSum(updates: seq<Update>, more: seq<Update>)
    ensures NonZero(updates + more) == NonZero(updates) + NonZero(more)
  {
    if more == [] {
      assert updates + more == updates;
    } else {
      assert (updates + more)[..|updates + more| - 1] == updates + more[..|more| - 1];
      NonZeroSum(updates, more[..|more| - 1]);
    }
  }

  /** Every non-zero update that was applied is counted once, as a success or as a failure. */
  lemma {:induction false} CountersMatchUpdates(steps: seq<Step>)
    ensures TallyOf(Run(steps).nodes).counted == NonZero(Applied(steps))
  {
    if steps != [] {
      var before, last := steps[..|steps| - 1], steps[|steps| - 1];
      CountersMatchUpdates(before);
      RunParts(steps);
      CountedByStep(Run(before).nodes, Run(before).waiting, last);
      NonZeroSum(Applied(before), AppliedBy(Run(before).waiting, last));
    }
  }

  predicate AllInRange(nodes: Nodes) {
    forall id <- nodes :: InRange(nodes[id].score)
  }

  lemma StepKeepsRange(nodes: Nodes, waiting: Waiting, step: Step)
    requires AllInRange(nodes)
    ensures AllInRange(NodesAfter(nodes, waiting, step))
  {
  }

  /** In every run each score stays between 1 and 1000. */
  lemma {:induction false} ScoresStayInRange(steps: seq<Step>)
    ensures forall id <- Run(steps).nodes :: 1 <= Run(steps).nodes[id].score <= 1000
  {
    if steps != [] {
      var before := Run(steps[..|steps| - 1]);
      ScoresStayInRange(steps[..|steps| - 1]);
      RunParts(steps);
      StepKeepsRange(before.nodes, before.waiting, steps[|steps| - 1]);
    }
  }

  lemma {:induction false} StatisticsAreScanned(steps: seq<Step>)
    ensures var s := Run(steps); s.stats == Scan(s.nodes, 0.0)
  {
    if steps == [] {
      assert |INITIAL.nodes| == 0;
    } else {
      StatisticsAreScanned(steps[..|steps| - 1]);
      EmptyAverage(steps[..|steps| - 1]);
    }
  }

  /** In every run the published statistics are true of the nodes there are at that moment. */
  lemma {:induction false} StatisticsAreFresh(steps: seq<Step>)
    ensures Reports(Run(steps).stats, Run(steps).nodes)
  {
    StatisticsAreScanned(steps);
    ScanReports(Run(steps).nodes);
  }

  lemma {:induction false} EmptyAverage(steps: seq<Step>)
    ensures Run(steps).nodes == map[] ==> Run(steps).stats.averageScore == 0.0
  {
    if steps != [] {
      var before, last := steps[..|steps| - 1], steps[|steps| - 1];
      EmptyAverage(before);
      if last.Decayed? && Run(before).nodes != map[] {
        var id :| id in Run(before).nodes;
        assert id in Run(steps).nodes;
      }
    }
  }

  /** The deltas among some updates that are meant for one node. */
  function For(updates: seq<Update>, id: string): seq<Int64> {
    if updates == [] then []
    else
      var before, last := For(updates[..|updates| - 1], id), updates[|updates| - 1];
      if last.id == id then before + [last.delta] else before
  }

  /** The step neither takes anything from the node by decay nor blacklists it.  It may register it, and it
      may do anything to other nodes. */
  predicate Spares(step: Step, id: string) {
    match step
    case Decayed(amounts) => id in amounts ==> amounts[id] == 0
    case Blacklisted(other, _) => other != id
    case _ => true
  }

  predicate AllSpare(steps: seq<Step>, id: string) {
    forall step <- steps :: Spares(step, id)
  }

  /** The node's score is what the deltas make of the base score; an unknown node has had none. */
  predicate Folds(nodes: Nodes, id: string, deltas: seq<Int64>) {
    if id in nodes then nodes[id].score == AddAll(BASE_SCORE, deltas) else deltas == []
  }

  lemma UpdateFolds(nodes: Nodes, updates: seq<Update>, u: Update, now: Time, id: string)
    requires Folds(nodes, id, For(updates, id))
    ensures Folds(UpdateIn(nodes, u, false, now), id, For(updates + [u], id))
  {
    assert (updates + [u])[..|updates|] == updates;
    var deltas := For(updates, id);
    assert (deltas + [u.delta])[..|deltas|] == deltas;
  }

  lemma FoldStep(nodes: Nodes, waiting: Waiting, updates: seq<Update>, step: Step, id: string)
    requires Spares(step, id) && Folds(nodes, id, For(updates, id))
    ensures Folds(NodesAfter(nodes, waiting, step), id, For(updates + AppliedBy(waiting, step), id))
  {
    assert updates + [] == updates;
    match step
    case Submitted(u, now) => UpdateFolds(nodes, updates, u, now, id);
    case Processed(now) =>
      if waiting.inFlight.Some? {
        UpdateFolds(nodes, updates, waiting.inFlight.value, now, id);
      }
    case _ =>
  }

  lemma {:induction false} RunFolds(steps: seq<Step>, id: string)
    requires AllSpare(steps, id)
    ensures Folds(Run(steps).nodes, id, For(Applied(steps), id))
  {
    if steps != [] {
      var before, last := steps[..|steps| - 1], steps[|steps| - 1];
      assert last in steps && forall step <- before :: step in steps;
      RunFolds(before, id);
      RunParts(steps);
      FoldStep(Run(before).nodes, Run(before).waiting, Applied(before), last, id);
    }
  }

  /** In every run that does not decay or blacklist the node, its score is the base score moved by the updates
      applied to it, in the order of their application. */
  lemma {:induction false} ScoreIsFold(steps: seq<Step>, id: string)
    requires AllSpare(steps, id)
    ensures ScoreIn(Run(steps).nodes, id) == AddAll(100, For(Applied(steps), id))
    ensures id !in Run(steps).nodes ==> For(Applied(steps), id) == []
  {
    RunFolds(steps, id);
  }

  /** A delta meant for the node, as a multiset; nothing if the update is meant for another. */
  function Share(u: Update, id: string): multiset<Int64> {
    if u.id == id then multiset{u.delta} else multiset{}
  }

  lemma {:induction false} ForConcat(updates: seq<Update>, more: seq<Update>, id: string)
    ensures For(updates + more, id) == For(updates, id) + For(more, id)
  {
    if more == [] {
      assert updates + more == updates;
    } else {
      assert (updates + more)[..|updates + more| - 1] == updates + more[..|more| - 1];
      ForConcat(updates, more[..|more| - 1], id);
    }
  }

  lemma ForOne(u: Update, id: string)
    ensures multiset(For([u], id)) == Share(u, id)
  {
    assert [u][..0] == [];
  }

  lemma ForWithout(updates: seq<Update>, i: nat, id: string)
    requires i < |updates|
    ensures multiset(For(updates, id)) == multiset(For(updates[..i] + updates[i + 1..], id)) + Share(updates[i], id)
  {
    var before, u, after := updates[..i], updates[i], updates[i + 1..];
    assert updates == before + [u] + after;
    ForConcat(before + [u], after, id);
    ForConcat(before, [u], id);
    ForConcat(before, after, id);
    ForOne(u, id);
  }

  lemma {:induction false} ForPermutation(updates: seq<Update>, others: seq<Update>, id: string)
    requires multiset(updates) == multiset(others)
    ensures multiset(For(updates, id)) == multiset(For(others, id))
  {
    if updates == [] {
      assert |multiset(others)| == 0;
    } else {
      var n := |updates| - 1;
      assert updates == updates[..n] + [updates[n]];
      assert updates[n] in multiset(others);
      var i :| 0 <= i < |others| && others[i] == updates[n];
      SplitAt(others, i);
      var rest := others[..i] + others[i + 1..];
      assert multiset(updates[..n]) == multiset(updates) - multiset{updates[n]} == multiset(rest);
      ForPermutation(updates[..n], rest, id);
      ForWithout(others, i, id);
    }
  }

  predicate Small(deltas: seq<Int64>) {
    forall i :: 0 <= i < |deltas| ==> deltas[i] <= MAX_INT64 - MAX_SCORE
  }

  lemma {:induction false} SmallDeltasNeverOverflow(score: Uint64, deltas: seq<Int64>)
    requires InRange(score) && Small(deltas)
    ensures NoOverflow(score, deltas) && InRange(AddAll(score, deltas))
  {
    if deltas != [] {
      SmallDeltasNeverOverflow(score, deltas[..|deltas| - 1]);
    }
  }

  lemma PermutationStaysSmall(deltas: seq<Int64>, others: seq<Int64>)
    requires multiset(deltas) == multiset(others) && Small(deltas)
    ensures Small(others) && |deltas| == |others|
  {
    forall i | 0 <= i < |others|
      ensures others[i] <= MAX_INT64 - MAX_SCORE
    {
      assert others[i] in multiset(deltas);
    }
    assert |multiset(deltas)| == |deltas| && |multiset(others)| == |others|;
  }

  lemma SameFold(deltas: seq<Int64>, others: seq<Int64>)
    requires multiset(deltas) == multiset(others) && OneSign(deltas) && Small(deltas)
    ensures AddAll(BASE_SCORE, deltas) == AddAll(BASE_SCORE, others) && |deltas| == |others|
  {
    PermutationStaysSmall(deltas, others);
    SmallDeltasNeverOverflow(BASE_SCORE, deltas);
    SmallDeltasNeverOverflow(BASE_SCORE, others);
    OneSignOrderIrrelevant(BASE_SCORE, deltas, others);
  }

  /** Once nothing for a node is on its way, the deltas it got are those that were submitted for it. */
  lemma {:induction false} DrainedAppliesAll(steps: seq<Step>, id: string)
    requires For(Pending(Run(steps).waiting), id) == []
    ensures multiset(For(Applied(steps), id)) == multiset(For(Submissions(steps), id))
  {
    var pending := Pending(Run(steps).waiting);
    UpdatesAreConserved(steps);
    assert multiset(Applied(steps) + pending) == multiset(Submissions(steps));
    ForPermutation(Submissions(steps), Applied(steps) + pending, id);
    ForConcat(Applied(steps), pending, id);
    assert For(Applied(steps), id) + [] == For(Applied(steps), id);
  }

  /** The queue does not change the outcome: when nothing for the node is on its way, two runs that submitted
      the same rewards, or the same penalties, for the node give it the same score, whichever of
      them waited and whichever overtook the others, and whatever happened to other nodes. */
  lemma {:induction false} QueueIsInvisible(steps: seq<Step>, others: seq<Step>, id: string)
    requires AllSpare(steps, id) && AllSpare(others, id)
    requires For(Pending(Run(steps).waiting), id) == [] && For(Pending(Run(others).waiting), id) == []
    requires multiset(For(Submissions(steps), id)) == multiset(For(Submissions(others), id))
    requires OneSign(For(Submissions(steps), id)) && Small(For(Submissions(steps), id))
    ensures ScoreIn(Run(steps).nodes, id) == ScoreIn(Run(others).nodes, id)
  {
    var submitted := For(Submissions(steps), id);
    DrainedAppliesAll(steps, id);
    DrainedAppliesAll(others, id);
    SameFold(submitted, For(Applied(steps), id));
    SameFold(submitted, For(Applied(others), id));
    ScoreIsFold(steps, id);
    ScoreIsFold(others, id);
  }

  /** No step takes anything from the node by decay. */
  predicate NeverDecays(steps: seq<Step>, id: string) {
    forall step <- steps :: step.Decayed? && id in step.amounts ==> step.amounts[id] == 0
  }

  predicate ActiveThoughBlacklisted(nodes: Nodes, id: string) {
    id in nodes && nodes[id].isBlacklisted && nodes[id].isActive
  }

  /** In every run, a step makes a node active although it is blacklisted if and only if it is a decay that
      takes something from a blacklisted node and leaves more than 100. */
  lemma {:induction false} ReactivatedExactlyWhen(steps: seq<Step>, step: Step, id: string)
    requires !ActiveThoughBlacklisted(Run(steps).nodes, id)
    ensures ActiveThoughBlacklisted(Run(steps + [step]).nodes, id) <==>
              var before := Run(steps).nodes;
              && step.Decayed? && id in step.amounts && step.amounts[id] > 0
              && id in before && before[id].isBlacklisted && before[id].score > step.amounts[id] + 100
  {
    assert (steps + [step])[..|steps|] == steps;
    RunParts(steps + [step]);
    StepReactivatesExactlyWhen(Run(steps).nodes, Run(steps).waiting, step, id);
  }

  lemma StepReactivatesExactlyWhen(nodes: Nodes, waiting: Waiting, step: Step, id: string)
    requires !ActiveThoughBlacklisted(nodes, id)
    ensures ActiveThoughBlacklisted(NodesAfter(nodes, waiting, step), id) <==>
              && step.Decayed? && id in step.amounts && step.amounts[id] > 0
              && id in nodes && nodes[id].isBlacklisted && nodes[id].score > step.amounts[id] + 100
  {
    if step.Decayed? && id in nodes {
      DecayReactivatesExactlyWhen(nodes[id], if id in step.amounts then step.amounts[id] else 0);
    }
  }

  /** In every run that never decays a node, the node is inactive whenever it is blacklisted. */
  lemma {:induction false} BlacklistedStaysInactive(steps: seq<Step>, id: string)
    requires NeverDecays(steps, id)
    ensures !ActiveThoughBlacklisted(Run(steps).nodes, id)
  {
    if steps != [] {
      var before, last := steps[..|steps| - 1], steps[|steps| - 1];
      assert last in steps && forall step <- before :: step in steps;
      BlacklistedStaysInactive(before, id);
      assert steps == before + [last];
      ReactivatedExactlyWhen(before, last, id);
    }
  }

  lemma OneMoreStep(steps: seq<Step>, step: Step)
    ensures Run(steps + [step]).nodes == NodesAfter(Run(steps).nodes, Run(steps).waiting, step)
    ensures Run(steps + [step]).waiting == WaitingAfter(Run(steps).waiting, step)
  {
    assert (steps + [step])[..|steps|] == steps;
    RunParts(steps + [step]);
  }

  /** It does happen: a node that is blacklisted, then rewarded, and then decays is active. */
  lemma {:induction false} DecayReactivates(id: string, reason: string, now: Time)
    ensures var rewarded := [Step.Blacklisted(id, reason)] + [Submitted(Update(id, 200), now)] + [Received]
                            + [Processed(now)];
            !ActiveThoughBlacklisted(Run(rewarded).nodes, id)
            && ActiveThoughBlacklisted(Run(rewarded + [Decayed(map[id := 10])]).nodes, id)
  {
    var s1 := [Step.Blacklisted(id, reason)];
    var s2 := s1 + [Submitted(Update(id, 200), now)];
    var s3 := s2 + [Received];
    assert [] + s1 == s1;
    OneMoreStep([], s1[0]);
    OneMoreStep(s1, Submitted(Update(id, 200), now));
    assert Run(s2).waiting == Waiting([Update(id, 200)], None);
    OneMoreStep(s2, Received);
    assert Run(s3).waiting == Waiting([], Some(Update(id, 200)));
    OneMoreStep(s3, Processed(now));
    RewardedNode(Run(s3).nodes, Run(s3 + [Processed(now)]).nodes, id, reason, now);
    ReactivatedExactlyWhen(s3 + [Processed(now)], Decayed(map[id := 10]), id);
  }

  lemma RewardedNode(nodes: Nodes, after: Nodes, id: string, reason: string, now: Time)
    requires nodes == map[id := BlacklistedNode(reason)]
    requires after == UpdateIn(nodes, Update(id, 200), false, now)
    ensures id in after && after[id].isBlacklisted && !after[id].isActive && after[id].score == 201
  {
  }
}
