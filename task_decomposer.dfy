/**
 * Task decomposition: the components of a task become `task-NNN` subtasks
 * whose dependencies are the ids of the components they depend on; the
 * subtasks are levelled into parallel groups and a recommendation and a
 * worker count are derived from the groups.
 */
module TaskDecomposer {
  import opened Wrappers
  import opened PySlice
  import opened Subtasks
  import opened TaskComponents
  import opened TaskDependencies
  import opened ParallelGroups
  import Numerals

  datatype Recommendation = SingleWorker | FullParallel | Sequential | Mixed

  /** The result dictionary; `suggested_workers` is absent on the single-task
      path. */
  datatype Decomposition = Decomposition(
    originalTask: string,
    subtasks: seq<Subtask>,
    parallelGroups: seq<seq<string>>,
    recommendation: Recommendation,
    suggestedWorkers: Option<nat>)

  /** `max()` over no groups raises `ValueError`; that is the only failure. */
  datatype Outcome = Decomposed(result: Decomposition) | NoGroups

  /** `components.index(x)`: the first position holding x. */
  function IndexOf(cs: seq<string>, x: string): (i: nat)
    requires x in cs
    ensures i < |cs| && cs[i] == x
    ensures forall j :: 0 <= j < i ==> cs[j] != x
    decreases |cs|
  {
    if cs[0] == x then 0 else 1 + IndexOf(cs[1..], x)
  }

  /** The id of the first subtask made from a component. */
  function IdOf(cs: seq<string>, x: string): string
    requires x in cs
  {
    TaskId(IndexOf(cs, x) + 1)
  }

  /** The ids of the dependencies that are components, in order. */
  function DepIds(cs: seq<string>, deps: seq<string>): seq<string>
    decreases |deps|
  {
    if deps == [] then []
    else
      var d := deps[|deps| - 1];
      DepIds(cs, deps[..|deps| - 1]) + (if d in cs then [IdOf(cs, d)] else [])
  }

  lemma {:induction false} DepIdsMembers(cs: seq<string>, deps: seq<string>, y: string)
    ensures y in DepIds(cs, deps) <==> exists d :: d in deps && d in cs && y == IdOf(cs, d)
    decreases |deps|
  {
    if deps != [] {
      var init := deps[..|deps| - 1];
      DepIdsMembers(cs, init, y);
      assert deps == init + [deps[|deps| - 1]];
    }
  }

  /** No id is produced exactly when no dependency is a component. */
  lemma {:induction false} DepIdsEmpty(cs: seq<string>, deps: seq<string>)
    ensures DepIds(cs, deps) == [] <==> forall d :: d in deps ==> d !in cs
    decreases |deps|
  {
    if deps != [] {
      var init := deps[..|deps| - 1];
      DepIdsEmpty(cs, init);
      assert deps == init + [deps[|deps| - 1]];
    }
  }

  /** The subtask made from component i. */
  function SubtaskFor(cs: seq<string>, deps: Deps, i: nat): Subtask
    requires i < |cs|
  {
    var ids := DepIds(cs, if cs[i] in deps then deps[cs[i]] else []);
    Subtask(TaskId(i + 1), "Implement " + cs[i], ids, EstimateSize(cs[i]), |ids| == 0)
  }

  function SubtasksFor(cs: seq<string>, deps: Deps): (r: seq<Subtask>)
    ensures |r| == |cs| && forall i :: 0 <= i < |cs| ==> r[i] == SubtaskFor(cs, deps, i)
  {
    seq(|cs|, i requires 0 <= i < |cs| => SubtaskFor(cs, deps, i))
  }

  /** The recommendation for a list of groups. */
  function Recommend(groups: seq<seq<string>>, subtaskCount: nat): Recommendation {
    if |groups| == 1 then FullParallel
    else if |groups| == subtaskCount then Sequential
    else Mixed
  }

  /** `max(len(g) for g in groups)`. */
  function MaxLen(groups: seq<seq<string>>): (m: nat)
    requires groups != []
    ensures forall k :: 0 <= k < |groups| ==> |groups[k]| <= m
    ensures exists k :: 0 <= k < |groups| && |groups[k]| == m
    decreases |groups|
  {
    if |groups| == 1 then |groups[0]|
    else
      var m := MaxLen(groups[..|groups| - 1]);
      var n := |groups[|groups| - 1]|;
      if n > m then n else m
  }

  /** The result for a task with at most one component. */
  function Single(task: string): Decomposition {
    Decomposition(task, [Subtask("task-001", task, [], EstimateSize(task), true)],
      [["task-001"]], SingleWorker, None)
  }

  /** `decompose_task` past the single-task check, on the kept components. */
  function Plan(task: string, cs: seq<string>): Outcome {
    var subtasks := SubtasksFor(cs, Dependencies(cs));
    var groups := GroupsFor(subtasks);
    if groups == [] then NoGroups
    else
      var m := MaxLen(groups);
      Decomposed(Decomposition(task, subtasks, groups, Recommend(groups, |subtasks|),
        Some(if m < 3 then m else 3)))
  }

  /** `decompose_task`: at most one component gives the single task, otherwise
      the components are cut to the first `max_subtasks`. */
  function Decompose(task: string, maxSubtasks: int): Outcome {
    var all := Components(task);
    if |all| <= 1 then Decomposed(Single(task)) else Plan(task, TakeFirst(all, maxSubtasks))
  }

  // ---- Properties -----------------------------------------------------------

  /** The single-task path: one subtask `task-001` holding the whole task,
      with no dependencies, safe to run in parallel, alone in its group. */
  lemma SingleTask(task: string, maxSubtasks: int)
    requires |Components(task)| <= 1
    ensures Decompose(task, maxSubtasks).Decomposed?
    ensures var d := Decompose(task, maxSubtasks).result;
      && |d.subtasks| == 1
      && d.subtasks[0] == Subtask(TaskId(1), task, [], EstimateSize(task), true)
      && d.parallelGroups == [[TaskId(1)]]
      && d.recommendation == SingleWorker && d.suggestedWorkers == None
  {
    FirstTaskId();
  }

  /** Grouping fails exactly when no component is kept. */
  lemma PlanFails(task: string, cs: seq<string>)
    ensures Plan(task, cs) == NoGroups <==> cs == []
  {
    GroupCount(SubtasksFor(cs, Dependencies(cs)));
  }

  /** The only failure: several components, of which the truncation keeps
      none (`max_subtasks` is 0, or negative enough to drop them all). */
  lemma Fails(task: string, maxSubtasks: int)
    ensures Decompose(task, maxSubtasks) == NoGroups <==>
      |Components(task)| > 1 && (maxSubtasks == 0 || maxSubtasks <= -|Components(task)|)
  {
    var all := Components(task);
    if |all| > 1 {
      PlanFails(task, TakeFirst(all, maxSubtasks));
    }
  }

  /** Subtask i is made from the i-th kept component: id `task-{i+1:03d}`,
      description "Implement " and the component, the component's size. */
  lemma SubtaskShape(cs: seq<string>, i: nat)
    requires i < |cs|
    ensures var t := SubtasksFor(cs, Dependencies(cs))[i];
      && t.id == TaskId(i + 1)
      && t.description == "Implement " + cs[i]
      && t.estimatedSize == EstimateSize(cs[i])
  {
  }

  /** The subtask ids are distinct, so the grouping keeps the subtasks in
      their own order. */
  lemma SubtaskIdsDistinct(cs: seq<string>, deps: Deps)
    ensures DistinctIds(SubtasksFor(cs, deps))
    ensures Entries(SubtasksFor(cs, deps)) == SubtasksFor(cs, deps)
  {
    var ts := SubtasksFor(cs, deps);
    forall i, j | 0 <= i < j < |ts| ensures ts[i].id != ts[j].id {
      SubtaskIdsDiffer(cs, deps, i, j);
    }
    EntriesOfDistinct(ts);
  }

  lemma SubtaskIdsDiffer(cs: seq<string>, deps: Deps, i: nat, j: nat)
    requires i < j < |cs|
    ensures SubtasksFor(cs, deps)[i].id != SubtasksFor(cs, deps)[j].id
  {
    var ts := SubtasksFor(cs, deps);
    var a, b := ts[i].id, ts[j].id;
    assert a == TaskId(i + 1) && b == TaskId(j + 1);
    TaskIdDigits(i + 1);
    TaskIdDigits(j + 1);
    assert Numerals.ParseDecimal(a[5..]) != Numerals.ParseDecimal(b[5..]);
  }

  /** Subtask i depends on exactly the ids of the components component i
      depends on, each named by the first subtask made from it. */
  lemma DependencyIds(cs: seq<string>, i: nat, y: string)
    requires i < |cs|
    ensures y in SubtasksFor(cs, Dependencies(cs))[i].dependencies <==>
      exists x :: Depends(cs, cs[i], x) && y == IdOf(cs, x)
  {
    var deps := Dependencies(cs)[cs[i]];
    DependenciesSound(cs, cs[i], cs[i]);
    DepIdsMembers(cs, deps, y);
    if y in DepIds(cs, deps) {
      var d :| d in deps && d in cs && y == IdOf(cs, d);
      DependenciesSound(cs, cs[i], d);
    }
    if exists x :: Depends(cs, cs[i], x) && y == IdOf(cs, x) {
      var x :| Depends(cs, cs[i], x) && y == IdOf(cs, x);
      DependenciesSound(cs, cs[i], x);
    }
  }

  /** A subtask is parallel-safe exactly when its component depends on no
      other; it never depends on itself. */
  lemma ParallelSafe(cs: seq<string>, i: nat)
    requires i < |cs|
    ensures var t := SubtasksFor(cs, Dependencies(cs))[i];
      && (t.parallelSafe <==> forall x :: !Depends(cs, cs[i], x))
      && TaskId(i + 1) !in t.dependencies
  {
    var deps := Dependencies(cs)[cs[i]];
    DependenciesSound(cs, cs[i], cs[i]);
    DepIdsEmpty(cs, deps);
    forall x ensures x in deps <==> Depends(cs, cs[i], x) {
      DependenciesSound(cs, cs[i], x);
    }
    DependencyIds(cs, i, TaskId(i + 1));
    if exists x :: Depends(cs, cs[i], x) && TaskId(i + 1) == IdOf(cs, x) {
      var x :| Depends(cs, cs[i], x) && TaskId(i + 1) == IdOf(cs, x);
      TaskIdInjective(i + 1, IndexOf(cs, x) + 1);
    }
  }

  /** Every dependency id is the id of one of the subtasks. */
  lemma DependenciesAreSubtasks(cs: seq<string>, i: nat, y: string)
    requires i < |cs|
    requires y in SubtasksFor(cs, Dependencies(cs))[i].dependencies
    ensures y in Ids(SubtasksFor(cs, Dependencies(cs)))
  {
    DependencyIds(cs, i, y);
    var x :| Depends(cs, cs[i], x) && y == IdOf(cs, x);
    assert Ids(SubtasksFor(cs, Dependencies(cs)))[IndexOf(cs, x)] == y;
  }

  /** With non-empty groups holding n ids in all: one group means full
      parallelism, a group per id (so each of size one) means sequential, and
      anything else is mixed. */
  lemma RecommendRules(groups: seq<seq<string>>, n: nat)
    requires forall k :: 0 <= k < |groups| ==> groups[k] != []
    requires |Flatten(groups)| == n
    ensures Recommend(groups, n) == FullParallel <==> |groups| == 1
    ensures Recommend(groups, n) == Sequential <==>
      |groups| != 1 && forall k :: 0 <= k < |groups| ==> |groups[k]| == 1
    ensures Recommend(groups, n) == Mixed <==>
      |groups| != 1 && exists k :: 0 <= k < |groups| && |groups[k]| > 1
  {
    FlattenLength(groups);
  }

  /** The worker count is the size of the largest group, capped at 3: some
      group is at least that large, and no group is larger unless the cap
      applies. */
  lemma WorkerCount(groups: seq<seq<string>>)
    requires groups != [] && forall k :: 0 <= k < |groups| ==> groups[k] != []
    ensures var m := MaxLen(groups);
      var w := if m < 3 then m else 3;
      && 1 <= w <= 3
      && (exists k :: 0 <= k < |groups| && |groups[k]| >= w)
      && (w == 3 || forall k :: 0 <= k < |groups| ==> |groups[k]| <= w)
  {
    assert |groups[0]| >= 1;
  }

  /** On success the groups cover the subtasks, each id exactly once, and are
      non-empty; so the recommendation and worker count follow the rules
      above. */
  lemma PlanGroups(task: string, cs: seq<string>)
    requires Plan(task, cs).Decomposed?
    ensures var d := Plan(task, cs).result;
      var f := Flatten(d.parallelGroups);
      && ParallelGroups.Distinct(f)
      && (forall x :: x in f <==> x in Ids(d.subtasks))
      && |f| == |d.subtasks|
      && (forall k :: 0 <= k < |d.parallelGroups| ==> d.parallelGroups[k] != [])
      && d.recommendation == Recommend(d.parallelGroups, |d.subtasks|)
  {
    var subtasks := SubtasksFor(cs, Dependencies(cs));
    var groups := GroupsFor(subtasks);
    GroupsPartition(subtasks);
    SubtaskIdsDistinct(cs, Dependencies(cs));
    EntriesSpec(subtasks);
    forall k | 0 <= k < |groups| ensures groups[k] != [] {
      GroupNonEmpty(Entries(subtasks), {}, k);
    }
    assert ParallelGroups.Distinct(Ids(subtasks));
    DistinctSameLength(Flatten(groups), Ids(subtasks));
  }

  // ---- The function as the code runs it -------------------------------------

  /** `decompose_task`. */
  method DecomposeTask(task: string, maxSubtasks: int) returns (o: Outcome)
    ensures o == Decompose(task, maxSubtasks)
  {
    var components := ExtractComponents(task);
    if |components| <= 1 {
      return Decomposed(Single(task));
    }
    components := TakeFirst(components, maxSubtasks);
    var deps := DetectDependencies(components);
    var subtasks := BuildSubtasks(components, deps);
    var groups := ComputeParallelGroups(subtasks);
    if groups == [] {
      return NoGroups;
    }
    var recommendation := Recommend(groups, |subtasks|);
    var largest := MaxLen(groups);
    o := Decomposed(Decomposition(task, subtasks, groups, recommendation,
      Some(if largest < 3 then largest else 3)));
  }

  /** The loop that makes one subtask per kept component. */
  method BuildSubtasks(components: seq<string>, deps: Deps) returns (subtasks: seq<Subtask>)
    ensures subtasks == SubtasksFor(components, deps)
  {
    subtasks := [];
    for i := 0 to |components|
      invariant |subtasks| == i
      invariant forall k :: 0 <= k < i ==> subtasks[k] == SubtaskFor(components, deps, k)
    {
      var subtask := MakeSubtask(components, deps, i);
      subtasks := subtasks + [subtask];
    }
  }

  /** The loop body for component i. */
  method MakeSubtask(components: seq<string>, deps: Deps, i: nat) returns (subtask: Subtask)
    requires i < |components|
    ensures subtask == SubtaskFor(components, deps, i)
  {
    var component := components[i];
    var componentDeps := if component in deps then deps[component] else [];
    var depIds := TranslateDeps(components, componentDeps);
    subtask := Subtask(TaskId(i + 1), "Implement " + component, depIds,
      EstimateSize(component), |depIds| == 0);
  }

  /** The loop that turns dependency names into subtask ids. */
  method TranslateDeps(components: seq<string>, componentDeps: seq<string>) returns (depIds: seq<string>)
    ensures depIds == DepIds(components, componentDeps)
  {
    depIds := [];
    for j := 0 to |componentDeps|
      invariant depIds == DepIds(components, componentDeps[..j])
    {
      assert componentDeps[..j + 1][..j] == componentDeps[..j];
      var dep := componentDeps[j];
      if dep in components {
        var depIdx := IndexOf(components, dep);
        depIds := depIds + [TaskId(depIdx + 1)];
      }
    }
    assert componentDeps[..|componentDeps|] == componentDeps;
  }
}
