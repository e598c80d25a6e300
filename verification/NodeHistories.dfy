/** What a run leaves of a single node (src/reputation/score.go). */
module NodeHistories {
  import opened Wrappers
  import opened Integers
  import opened ReputationStates
  import opened ReputationRuns

  /** Some step blacklisted the node. */
  ghost predicate EverBlacklisted(steps: seq<Step>, id: string) {
    exists step <- steps :: step.Blacklisted? && step.id == id
  }

  /** The reason given by the last such step. */
  function LastReason(steps: seq<Step>, id: string): string {
    if steps == [] then ""
    else
      var last := steps[|steps| - 1];
      if last.Blacklisted? && last.id == id then last.reason else LastReason(steps[..|steps| - 1], id)
  }

  lemma SplitLastStep(steps: seq<Step>, id: string)
    requires steps != []
    ensures var before, last := steps[..|steps| - 1], steps[|steps| - 1];
            EverBlacklisted(steps, id) <==> EverBlacklisted(before, id) || (last.Blacklisted? && last.id == id)
  {
    var before, last := steps[..|steps| - 1], steps[|steps| - 1];
    assert steps == before + [last];
    if EverBlacklisted(before, id) {
      var step :| step in before && step.Blacklisted? && step.id == id;
      assert step in steps;
    }
    assert last in steps;
  }

  /** In every run a node is blacklisted exactly if some step blacklisted it, for the reason last given. */
  lemma {:induction false} BlacklistedExactlyWhen(steps: seq<Step>, id: string)
    ensures var nodes := Run(steps).nodes;
            && (id in nodes && nodes[id].isBlacklisted <==> EverBlacklisted(steps, id))
            && (id in nodes ==> nodes[id].blacklistReason == LastReason(steps, id))
            && (id !in nodes ==> LastReason(steps, id) == "")
  {
    if steps != [] {
      BlacklistedExactlyWhen(steps[..|steps| - 1], id);
      SplitLastStep(steps, id);
      RunParts(steps);
    }
  }

  /** In every run, blacklisting a node, known or not, leaves it marked, inactive, with one point and the reason
      given, and in the figures; what was recorded about it stays. */
  lemma {:induction false} BlacklistingStrikes(steps: seq<Step>, id: string, reason: string)
    ensures var before, after := Run(steps).nodes, Run(steps + [Step.Blacklisted(id, reason)]).nodes;
            && id in after && after[id].isBlacklisted && after[id].blacklistReason == reason
            && !after[id].isActive && after[id].score == 1
            && (id in before ==> after[id].successCount == before[id].successCount
                                 && after[id].failureCount == before[id].failureCount)
            && after.Keys == before.Keys + {id}
    ensures id in ReputationStates.Blacklisted(Run(steps + [Step.Blacklisted(id, reason)]).nodes)
  {
    OneMoreStep(steps, Step.Blacklisted(id, reason));
  }

  function Rewarded(deltas: seq<Int64>): nat {
    if deltas == [] then 0
    else Rewarded(deltas[..|deltas| - 1]) + if deltas[|deltas| - 1] > 0 then 1 else 0
  }

  function Punished(deltas: seq<Int64>): nat {
    if deltas == [] then 0
    else Punished(deltas[..|deltas| - 1]) + if deltas[|deltas| - 1] < 0 then 1 else 0
  }

  /** The counters tell rewards from punishments; nothing that passes through the system counts as a penalty. */
  predicate Counted(nodes: Nodes, id: string, deltas: seq<Int64>) {
    if id in nodes then
      && nodes[id].successCount == Rewarded(deltas) && nodes[id].failureCount == Punished(deltas)
      && nodes[id].penaltyCount == 0
    else deltas == []
  }

  lemma CountedAfterUpdate(nodes: Nodes, updates: seq<Update>, u: Update, now: Time, id: string)
    requires Counted(nodes, id, For(updates, id))
    ensures Counted(UpdateIn(nodes, u, false, now), id, For(updates + [u], id))
  {
    assert (updates + [u])[..|updates|] == updates;
    var deltas := For(updates, id);
    assert (deltas + [u.delta])[..|deltas|] == deltas;
  }

  lemma CountedAfterStep(nodes: Nodes, waiting: Waiting, updates: seq<Update>, step: Step, id: string)
    requires Counted(nodes, id, For(updates, id))
    ensures Counted(NodesAfter(nodes, waiting, step), id, For(updates + AppliedBy(waiting, step), id))
  {
    assert updates + [] == updates;
    match step
    case Submitted(u, now) => CountedAfterUpdate(nodes, updates, u, now, id);
    case Processed(now) =>
      if waiting.inFlight.Some? {
        CountedAfterUpdate(nodes, updates, waiting.inFlight.value, now, id);
      }
    case _ =>
  }

  /** In every run, a node's successes are the rewards applied to it, and its failures the punishments. */
  lemma {:induction false} CountersTellApart(steps: seq<Step>, id: string)
    ensures Counted(Run(steps).nodes, id, For(Applied(steps), id))
  {
    if steps != [] {
      var before, last := steps[..|steps| - 1], steps[|steps| - 1];
      CountersTellApart(before, id);
      RunParts(steps);
      CountedAfterStep(Run(before).nodes, Run(before).waiting, Applied(before), last, id);
    }
  }

  /** The last time that the step gives the node, if it gives one: by registering it anew or applying an update. */
  function TimeGiven(nodes: Nodes, waiting: Waiting, step: Step, id: string): Option<Time> {
    match step
    case Registered(other, _, now) => if other == id && id !in nodes then Some(now) else None
    case Submitted(u, now) => if |waiting.queue| >= 1000 && u.id == id then Some(now) else None
    case Processed(now) => if waiting.inFlight.Some? && waiting.inFlight.value.id == id then Some(now) else None
    case _ => None
  }

  ghost function LastTime(steps: seq<Step>, id: string): Time {
    if steps == [] then 0
    else
      var before, last := steps[..|steps| - 1], steps[|steps| - 1];
      var given := TimeGiven(Run(before).nodes, Run(before).waiting, last, id);
      if given.Some? then given.value else LastTime(before, id)
  }

  lemma {:induction false} UnknownHasNoTime(steps: seq<Step>, id: string)
    requires id !in Run(steps).nodes
    ensures LastTime(steps, id) == 0
  {
    if steps != [] {
      RunParts(steps);
      UnknownHasNoTime(steps[..|steps| - 1], id);
    }
  }

  /** In every run a node was last seen when it was registered or when an update was last applied to it, whichever
      came later; a node known only from a blacklist was never seen. */
  lemma {:induction false} LastSeenIsLastTime(steps: seq<Step>, id: string)
    requires id in Run(steps).nodes
    ensures Run(steps).nodes[id].lastSeen == LastTime(steps, id)
  {
    if steps != [] {
      var before := steps[..|steps| - 1];
      RunParts(steps);
      if id in Run(before).nodes {
        LastSeenIsLastTime(before, id);
      } else {
        UnknownHasNoTime(before, id);
      }
    }
  }

  /** As long as the channel never fills up, updates are applied in the order in which they were submitted. */
  lemma {:induction false} FirstInFirstOut(steps: seq<Step>)
    requires forall i :: 0 <= i < |steps| ==> |Run(steps[..i]).waiting.queue| < 1000
    ensures Submissions(steps) == Applied(steps) + Pending(Run(steps).waiting)
  {
    if steps != [] {
      var n := |steps| - 1;
      var before, last := steps[..n], steps[n];
      assert forall i :: 0 <= i < n ==> before[..i] == steps[..i];
      FirstInFirstOut(before);
      RunParts(steps);
      var waiting := Run(before).waiting;
      assert |waiting.queue| < 1000;
      MovesInOrder(Submissions(before), Applied(before), waiting, last);
    }
  }

  lemma MovesInOrder(submitted: seq<Update>, applied: seq<Update>, waiting: Waiting, step: Step)
    requires submitted == applied + Pending(waiting) && |waiting.queue| < 1000
    ensures submitted + SubmittedBy(step)
         == applied + AppliedBy(waiting, step) + Pending(WaitingAfter(waiting, step))
  {
    PendingMoves(waiting, step);
    Regroup(applied, Pending(waiting), SubmittedBy(step),
            AppliedBy(waiting, step), Pending(WaitingAfter(waiting, step)));
  }

  lemma Regroup(a: seq<Update>, b: seq<Update>, c: seq<Update>, d: seq<Update>, e: seq<Update>)
    requires d + e == b + c
    ensures a + b + c == a + d + e
  {
    assert a + b + c == a + (b + c) && a + d + e == a + (d + e);
  }

  /** In every run, decay takes its amount from every node there is, down to 1, and changes nothing else but the
      activity. */
  lemma {:induction false} DecayTakesFromAll(steps: seq<Step>, amounts: map<string, nat>)
    ensures var before, after := Run(steps).nodes, Run(steps + [Decayed(amounts)]).nodes;
            && after.Keys == before.Keys
            && forall id <- before ::
                 var amount := if id in amounts then amounts[id] else 0;
                 && after[id].score == (if before[id].score - amount < 1 then 1 else before[id].score - amount)
                 && (after[id].isActive <==> if amount == 0 then before[id].isActive else after[id].score > 100)
                 && after[id].(score := before[id].score, isActive := before[id].isActive) == before[id]
  {
    OneMoreStep(steps, Decayed(amounts));
    ScoresStayInRange(steps);
    forall id | id in Run(steps).nodes
      ensures var amount := if id in amounts then amounts[id] else 0;
              DecayedNode(Run(steps).nodes, amounts, id) == DecayNode(Run(steps).nodes[id], amount)
    {
      DecayTakesAmount(Run(steps).nodes[id], if id in amounts then amounts[id] else 0);
    }
  }

  /** In every run, registering a known node changes nothing, and an unknown one starts active with 100 points. */
  lemma {:induction false} RegistrationStarts(steps: seq<Step>, id: string, did: string, now: Time)
    ensures var before, after := Run(steps).nodes, Run(steps + [Registered(id, did, now)]).nodes;
            if id in before then after == before
            else
              && id in after && after - {id} == before
              && after[id].score == 100 && after[id].did == did && after[id].firstSeen == now
              && after[id].isActive && !after[id].isBlacklisted
  {
    OneMoreStep(steps, Registered(id, did, now));
    if id !in Run(steps).nodes {
      assert Run(steps + [Registered(id, did, now)]).nodes - {id} == Run(steps).nodes;
    }
  }

  /** In every run, a node first heard of by an update starts like a registered one, but without a name. */
  lemma {:induction false} UpdateIntroduces(steps: seq<Step>, now: Time)
    requires var s := Run(steps); s.waiting.inFlight.Some? && s.waiting.inFlight.value.id !in s.nodes
    ensures var id, after := Run(steps).waiting.inFlight.value.id, Run(steps + [Processed(now)]).nodes;
            && id in after && after[id].did == "" && after[id].baseScore == 100
            && after[id].firstSeen == now && after[id].lastSeen == now && !after[id].isBlacklisted
  {
    OneMoreStep(steps, Processed(now));
  }

  /** The step does nothing to the node. */
  predicate PassesBy(waiting: Waiting, step: Step, id: string) {
    && (step.Registered? || step.Blacklisted? ==> step.id != id)
    && (step.Decayed? && id in step.amounts ==> step.amounts[id] == 0)
    && forall u <- AppliedBy(waiting, step) :: u.id != id
  }

  /** In every run a step leaves alone every node that it does not concern. */
  lemma {:induction false} OthersUntouched(steps: seq<Step>, step: Step, id: string)
    requires PassesBy(Run(steps).waiting, step, id)
    ensures var before, after := Run(steps).nodes, Run(steps + [step]).nodes;
            (id in after <==> id in before) && (id in before ==> after[id] == before[id])
  {
    OneMoreStep(steps, step);
    StepPassesBy(Run(steps).nodes, Run(steps).waiting, step, id);
  }

  lemma StepPassesBy(nodes: Nodes, waiting: Waiting, step: Step, id: string)
    requires PassesBy(waiting, step, id)
    ensures var after := NodesAfter(nodes, waiting, step);
            (id in after <==> id in nodes) && (id in nodes ==> after[id] == nodes[id])
  {
    if AppliedBy(waiting, step) != [] {
      assert AppliedBy(waiting, step)[0] in AppliedBy(waiting, step);
    }
  }
}
