/** Running the analyses in parallel and merging their results. */
module Pipeline {
  import opened Options
  import opened Text

  const ALL_TASKS := ["review", "bug", "optimize", "lint"]

  predicate IsTask(t: string) {
    t == "review" || t == "bug" || t == "optimize" || t == "lint"
  }

  // ------------------------------------------------------------- choosing what to run

  /** The orchestrator's reply, if it came and could be parsed. */
  datatype Plan = Unavailable | Unparsable | Parsed(tasks: seq<string>)

  function ValidTasks(tasks: seq<string>): seq<string> {
    if tasks == [] then []
    else
      var t := tasks[|tasks| - 1];
      ValidTasks(tasks[..|tasks| - 1]) + (if IsTask(t) then [t] else [])
  }

  /** The known tasks of the plan in its order, or all tasks when there are none. */
  function ChosenTasks(plan: Plan): seq<string> {
    if plan.Parsed? && ValidTasks(plan.tasks) != [] then ValidTasks(plan.tasks) else ALL_TASKS
  }

  method Orchestrate(plan: Plan) returns (chosen: seq<string>)
    ensures chosen == ChosenTasks(plan)
  {
    if plan.Unavailable? || plan.Unparsable? || |plan.tasks| == 0 {
      return ALL_TASKS;
    }
    chosen := [];
    for i := 0 to |plan.tasks|
      invariant chosen == ValidTasks(plan.tasks[..i])
    {
      assert plan.tasks[..i + 1][..i] == plan.tasks[..i];
      if IsTask(plan.tasks[i]) {
        chosen := chosen + [plan.tasks[i]];
      }
    }
    assert plan.tasks[..|plan.tasks|] == plan.tasks;
    if |chosen| == 0 {
      return ALL_TASKS;
    }
  }

  predicate AllTasks(tasks: seq<string>) {
    forall i | 0 <= i < |tasks| :: IsTask(tasks[i])
  }

  lemma {:induction false} ValidTasksAreTasks(tasks: seq<string>)
    ensures AllTasks(ValidTasks(tasks))
    ensures forall t :: t in ValidTasks(tasks) <==> t in tasks && IsTask(t)
  {
    if tasks != [] {
      ValidTasksAreTasks(tasks[..|tasks| - 1]);
      assert tasks == tasks[..|tasks| - 1] + [tasks[|tasks| - 1]];
    }
  }

  /** The known tasks of a plan are kept in its order, each as often as it is listed. */
  lemma {:induction false} ValidTasksInOrder(front: seq<string>, back: seq<string>)
    ensures ValidTasks(front + back) == ValidTasks(front) + ValidTasks(back)
  {
    if back == [] {
      assert front + back == front;
    } else {
      var n := |back| - 1;
      ValidTasksInOrder(front, back[..n]);
      assert (front + back)[..|front| + n] == front + back[..n];
    }
  }

  lemma ValidTaskAlone(task: string)
    ensures ValidTasks([task]) == if task in ["review", "bug", "optimize", "lint"] then [task] else []
  {
    assert [task][..0] == [];
  }

  /** Some task always runs, and only known tasks do; without a known task in the plan all
      four do. */
  lemma ChosenTasksAreTasks(plan: Plan)
    ensures ChosenTasks(plan) != [] && AllTasks(ChosenTasks(plan))
    ensures !plan.Parsed? || (forall t | t in plan.tasks :: !IsTask(t)) ==>
              ChosenTasks(plan) == ["review", "bug", "optimize", "lint"]
    ensures plan.Parsed? && (exists t | t in plan.tasks :: IsTask(t)) ==> ChosenTasks(plan) == ValidTasks(plan.tasks)
  {
    if plan.Parsed? {
      ValidTasksAreTasks(plan.tasks);
      if ValidTasks(plan.tasks) != [] {
        var t := ValidTasks(plan.tasks)[0];
        assert t in ValidTasks(plan.tasks);
      }
    }
  }

  // ------------------------------------------------------------------- the merge

  /** A finished task: its result, None if it failed. */
  datatype Completion = Completion(task: string, result: Option<string>)

  datatype Merged = Merged(review: Option<string>, bug: Option<string>, optimize: Option<string>, lint: Option<string>)

  const NOTHING := Merged(None, None, None, None)

  function Record(m: Merged, c: Completion): Merged {
    if c.result.None? then m
    else if c.task == "review" then m.(review := c.result)
    else if c.task == "bug" then m.(bug := c.result)
    else if c.task == "optimize" then m.(optimize := c.result)
    else if c.task == "lint" then m.(lint := c.result)
    else m
  }

  /** The merge for the given order of completion. */
  function MergeAll(cs: seq<Completion>): Merged {
    if cs == [] then NOTHING else Record(MergeAll(cs[..|cs| - 1]), cs[|cs| - 1])
  }

  function ResultOf(m: Merged, task: string): Option<string> {
    if task == "review" then m.review
    else if task == "bug" then m.bug
    else if task == "optimize" then m.optimize
    else if task == "lint" then m.lint
    else None
  }

  lemma MergedEqual(m: Merged, m': Merged)
    requires forall t | IsTask(t) :: ResultOf(m, t) == ResultOf(m', t)
    ensures m == m'
  {
    assert IsTask("review") && IsTask("bug") && IsTask("optimize") && IsTask("lint");
    assert ResultOf(m, "review") == ResultOf(m', "review");
    assert ResultOf(m, "bug") == ResultOf(m', "bug");
    assert ResultOf(m, "optimize") == ResultOf(m', "optimize");
    assert ResultOf(m, "lint") == ResultOf(m', "lint");
  }

  predicate Disagree(c: Completion, c': Completion) {
    c.task == c'.task && c.result.Some? && c'.result.Some? && c.result != c'.result
  }

  /** Two successful completions of one task differ. */
  ghost predicate Conflict(cs: seq<Completion>) {
    exists c, c' | c in cs && c' in cs :: Disagree(c, c')
  }

  predicate AllKnown(cs: seq<Completion>) {
    forall c | c in cs :: IsTask(c.task)
  }

  /** A merged field comes from some successful completion, and is set if there is one. */
  lemma {:induction false} MergedField(cs: seq<Completion>, task: string)
    requires IsTask(task)
    ensures var r := ResultOf(MergeAll(cs), task);
            && (r.Some? ==> Completion(task, r) in cs)
            && (r.None? ==> forall c | c in cs && c.task == task :: c.result.None?)
  {
    if cs != [] {
      var n := |cs| - 1;
      MergedField(cs[..n], task);
      assert cs == cs[..n] + [cs[n]];
    }
  }

  lemma NoConflictNoChoice(cs: seq<Completion>, order: seq<Completion>)
    requires AllKnown(cs) && !Conflict(cs) && multiset(order) == multiset(cs)
    ensures MergeAll(order) == MergeAll(cs)
  {
    assert forall c :: c in order <==> c in multiset(order);
    assert forall c :: c in cs <==> c in multiset(cs);
    forall t | IsTask(t)
      ensures ResultOf(MergeAll(order), t) == ResultOf(MergeAll(cs), t)
    {
      MergedField(order, t);
      MergedField(cs, t);
    }
    MergedEqual(MergeAll(order), MergeAll(cs));
  }

  /** The field holds what some successful completion of the task gave, if there was one. */
  predicate Reports(field: Option<string>, order: seq<Completion>, task: string) {
    && (field.Some? ==> Completion(task, field) in order)
    && (field.None? ==> forall c | c in order && c.task == task :: c.result.None?)
  }

  lemma FieldsReport(order: seq<Completion>)
    ensures var m := MergeAll(order);
            && Reports(m.review, order, "review") && Reports(m.bug, order, "bug")
            && Reports(m.optimize, order, "optimize") && Reports(m.lint, order, "lint")
  {
    MergedField(order, "review");
    MergedField(order, "bug");
    MergedField(order, "optimize");
    MergedField(order, "lint");
  }

  /** The order in which c completes last. */
  lemma LastOneWins(cs: seq<Completion>, c: Completion) returns (order: seq<Completion>)
    requires c in cs && IsTask(c.task) && c.result.Some?
    ensures multiset(order) == multiset(cs)
    ensures ResultOf(MergeAll(order), c.task) == c.result
  {
    var i :| 0 <= i < |cs| && cs[i] == c;
    var others := cs[..i] + cs[i + 1..];
    assert cs == cs[..i] + [c] + cs[i + 1..];
    order := others + [c];
    assert order[..|others|] == others;
  }

  /** Every order of completion merges to the same result. */
  ghost predicate Confluent(cs: seq<Completion>) {
    forall order | multiset(order) == multiset(cs) :: MergeAll(order) == MergeAll(cs)
  }

  /** Confluence: the merge is the same for every order of completion exactly when no two
      successful runs of one task disagree. */
  lemma ConfluentExactlyWithoutConflict(cs: seq<Completion>)
    requires AllKnown(cs)
    ensures Confluent(cs) <==> !Conflict(cs)
  {
    if !Conflict(cs) {
      forall order | multiset(order) == multiset(cs)
        ensures MergeAll(order) == MergeAll(cs)
      {
        NoConflictNoChoice(cs, order);
      }
    } else {
      var c, c' :| c in cs && c' in cs && Disagree(c, c');
      var order := LastOneWins(cs, c);
      var order' := LastOneWins(cs, c');
      assert MergeAll(order) != MergeAll(order');
    }
  }

  function Completions(tasks: seq<string>, results: seq<Option<string>>): (cs: seq<Completion>)
    requires |results| == |tasks|
    ensures |cs| == |tasks|
  {
    seq(|tasks|, k requires 0 <= k < |tasks| => Completion(tasks[k], results[k]))
  }

  lemma NoConflictExactlyWithoutRepeats(tasks: seq<string>)
    ensures (forall results: seq<Option<string>> | |results| == |tasks| :: !Conflict(Completions(tasks, results)))
            <==> NoRepeats(tasks)
  {
    if NoRepeats(tasks) {
      forall results: seq<Option<string>> | |results| == |tasks|
        ensures !Conflict(Completions(tasks, results))
      {
        var cs := Completions(tasks, results);
        forall c, c' | c in cs && c' in cs && c.task == c'.task
          ensures c.result == c'.result
        {
          var i :| 0 <= i < |cs| && cs[i] == c;
          var j :| 0 <= j < |cs| && cs[j] == c';
          assert tasks[i] == tasks[j];
        }
      }
    } else {
      var i, j :| 0 <= i < j < |tasks| && tasks[i] == tasks[j];
      var results: seq<Option<string>> := seq(|tasks|, k => if k == i then Some("a") else Some("b"));
      var cs := Completions(tasks, results);
      assert cs[i] == Completion(tasks[i], Some("a")) && cs[j] == Completion(tasks[i], Some("b"));
      assert cs[i].result.value[0] != cs[j].result.value[0];
      assert Disagree(cs[i], cs[j]);
    }
  }

  lemma CompletionsAreKnown(tasks: seq<string>, results: seq<Option<string>>)
    requires |results| == |tasks| && AllTasks(tasks)
    ensures AllKnown(Completions(tasks, results))
  {
    forall c | c in Completions(tasks, results)
      ensures IsTask(c.task)
    {
      var i :| 0 <= i < |tasks| && Completions(tasks, results)[i] == c;
      assert IsTask(tasks[i]);
    }
  }

  /** Scheduling can never show in the merged result, whatever the analyses return, exactly
      when no task is listed twice. */
  lemma DeterministicExactlyWithoutRepeats(tasks: seq<string>)
    requires AllTasks(tasks)
    ensures (forall results: seq<Option<string>> | |results| == |tasks| :: Confluent(Completions(tasks, results)))
            <==> NoRepeats(tasks)
  {
    forall results: seq<Option<string>> | |results| == |tasks|
      ensures Confluent(Completions(tasks, results)) <==> !Conflict(Completions(tasks, results))
    {
      CompletionsAreKnown(tasks, results);
      ConfluentExactlyWithoutConflict(Completions(tasks, results));
    }
    NoConflictExactlyWithoutRepeats(tasks);
  }

  // --------------------------------------------------------------------- the run

  datatype Context = Summary(text: string) | Full(text: string)

  /** The context builder's call: failed, or a reply with what parsing it gave. */
  datatype Reply = NoReply | Replied(raw: string, parsed: Option<Context>, valid: bool)

  /** BuildContextFromDiff: every path gives a context. */
  function BuildContext(dependencies: string, reply: Reply): Context {
    match reply
    case NoReply => Summary(dependencies)
    case Replied(raw, parsed, valid) => if parsed.Some? && valid then parsed.value else Summary(raw)
  }

  datatype Analysis = Analysis(context: Option<Context>, tasksRun: seq<string>, merged: Merged)

  /** The chosen tasks complete in this order, each once for every time it is listed. */
  predicate IsSchedule(order: seq<Completion>, tasks: seq<string>, results: seq<Option<string>>) {
    |results| == |tasks| && multiset(order) == multiset(Completions(tasks, results))
  }

  /** Run: None when neither a context nor any task result was obtained. */
  function Outcome(cancelled: bool, dependencies: string, reply: Reply, tasks: seq<string>, order: seq<Completion>)
    : Option<Analysis>
  {
    var a := Analysis(if cancelled then None else Some(BuildContext(dependencies, reply)), tasks, MergeAll(order));
    if a.context.None? && a.merged == NOTHING then None else Some(a)
  }

  /** The shared struct that the analyses write to, each under the lock. */
  class ParallelResult {
    var merged: Merged

    constructor ()
      ensures merged == NOTHING
    {
      merged := NOTHING;
    }

    method Complete(c: Completion)
      modifies this
      ensures merged == Record(old(merged), c)
    {
      if c.result.Some? {
        match c.task {
          case "review" => merged := merged.(review := c.result);
          case "bug" => merged := merged.(bug := c.result);
          case "optimize" => merged := merged.(optimize := c.result);
          case "lint" => merged := merged.(lint := c.result);
          case _ =>
        }
      }
    }
  }

  /** One run: the tasks chosen from the plan end with these results, in this order. */
  method Run(cancelled: bool, dependencies: string, reply: Reply, plan: Plan,
             results: seq<Option<string>>, order: seq<Completion>) returns (r: Option<Analysis>)
    requires IsSchedule(order, ChosenTasks(plan), results)
    ensures r == Outcome(cancelled, dependencies, reply, ChosenTasks(plan), order)
    ensures !cancelled ==> r.Some?
    ensures r.Some? ==> r.value.tasksRun == ChosenTasks(plan) && (r.value.context.None? <==> cancelled)
    ensures !cancelled && reply.NoReply? ==> r.value.context == Some(Summary(dependencies))
    ensures !cancelled && reply.Replied? && reply.parsed.Some? && reply.valid ==> r.value.context == reply.parsed
    ensures !cancelled && reply.Replied? && (reply.parsed.None? || !reply.valid) ==>
              r.value.context == Some(Summary(reply.raw))
    ensures r.Some? ==> Reports(r.value.merged.review, order, "review")
    ensures r.Some? ==> Reports(r.value.merged.bug, order, "bug")
    ensures r.Some? ==> Reports(r.value.merged.optimize, order, "optimize")
    ensures r.Some? ==> Reports(r.value.merged.lint, order, "lint")
  {
    FieldsReport(order);
    var context: Option<Context> := None;
    if !cancelled {
      context := Some(BuildContext(dependencies, reply));
    }
    var tasks := Orchestrate(plan);
    var pr := new ParallelResult();
    for i := 0 to |order|
      invariant fresh(pr)
      invariant pr.merged == MergeAll(order[..i])
    {
      assert order[..i + 1][..i] == order[..i];
      pr.Complete(order[i]);
    }
    assert order[..|order|] == order;
    if context.None? && pr.merged == NOTHING {
      return None;
    }
    r := Some(Analysis(context, tasks, pr.merged));
  }

  lemma SchedulesMergeAlike(tasks: seq<string>, results: seq<Option<string>>, order: seq<Completion>,
                            order': seq<Completion>)
    requires IsSchedule(order, tasks, results) && IsSchedule(order', tasks, results)
    requires Confluent(Completions(tasks, results))
    ensures MergeAll(order) == MergeAll(order')
  {
    assert MergeAll(order) == MergeAll(Completions(tasks, results));
  }

  lemma ScheduleThatDiffers(tasks: seq<string>) returns (results: seq<Option<string>>, order: seq<Completion>)
    requires AllTasks(tasks) && !NoRepeats(tasks)
    ensures |results| == |tasks| && IsSchedule(order, tasks, results)
    ensures MergeAll(order) != MergeAll(Completions(tasks, results))
  {
    DeterministicExactlyWithoutRepeats(tasks);
    results :| |results| == |tasks| && !Confluent(Completions(tasks, results));
    order :| multiset(order) == multiset(Completions(tasks, results))
             && MergeAll(order) != MergeAll(Completions(tasks, results));
  }

  /** A run's outcome is settled by the plan and the results, in whatever order the analyses
      complete, for all results exactly when the plan lists no known task twice. */
  lemma RunDeterministicExactlyWithoutRepeats(cancelled: bool, dependencies: string, reply: Reply, plan: Plan)
    ensures var tasks := ChosenTasks(plan);
            (forall results, order, order' | IsSchedule(order, tasks, results) && IsSchedule(order', tasks, results) ::
               Outcome(cancelled, dependencies, reply, tasks, order)
                 == Outcome(cancelled, dependencies, reply, tasks, order'))
            <==> NoRepeats(tasks)
  {
    var tasks := ChosenTasks(plan);
    ChosenTasksAreTasks(plan);
    if NoRepeats(tasks) {
      forall results, order, order' | IsSchedule(order, tasks, results) && IsSchedule(order', tasks, results)
        ensures MergeAll(order) == MergeAll(order')
      {
        DeterministicExactlyWithoutRepeats(tasks);
        SchedulesMergeAlike(tasks, results, order, order');
      }
    } else {
      var results, order := ScheduleThatDiffers(tasks);
      assert IsSchedule(Completions(tasks, results), tasks, results);
      assert Outcome(cancelled, dependencies, reply, tasks, order)
          != Outcome(cancelled, dependencies, reply, tasks, Completions(tasks, results));
    }
  }

  /** A plan that lists the review twice: the review that completes last is reported. */
  lemma RepeatedTaskDependsOnOrder()
    ensures var tasks := ChosenTasks(Parsed(["review", "review"]));
            var results := [Some("a"), Some("b")];
            var first, second := Completion("review", Some("a")), Completion("review", Some("b"));
            && IsSchedule([first, second], tasks, results) && MergeAll([first, second]).review == Some("b")
            && IsSchedule([second, first], tasks, results) && MergeAll([second, first]).review == Some("a")
  {
    var plan, results := ["review", "review"], [Some("a"), Some("b")];
    assert plan[..1] == ["review"] && ["review"][..0] == [];
    assert ValidTasks(["review"]) == ["review"];
    assert ValidTasks(plan) == plan;
    var first, second := Completion("review", Some("a")), Completion("review", Some("b"));
    assert Completions(plan, results) == [first, second];
    MergeOfTwo(first, second);
    MergeOfTwo(second, first);
  }

  lemma MergeOfTwo(c: Completion, c': Completion)
    ensures MergeAll([c, c']) == Record(Record(NOTHING, c), c')
  {
    assert [c, c'][..1] == [c] && [c][..0] == [];
    assert MergeAll([c]) == Record(NOTHING, c);
  }

  lemma {:induction false} MergeOfFailures(cs: seq<Completion>)
    requires AllKnown(cs)
    ensures MergeAll(cs) == NOTHING <==> forall c | c in cs :: c.result.None?
  {
    if forall c | c in cs :: c.result.None? {
      forall t | IsTask(t)
        ensures ResultOf(MergeAll(cs), t) == ResultOf(NOTHING, t)
      {
        MergedField(cs, t);
      }
      MergedEqual(MergeAll(cs), NOTHING);
    } else {
      var c :| c in cs && c.result.Some?;
      MergedField(cs, c.task);
    }
  }

  lemma ScheduleMembers(tasks: seq<string>, results: seq<Option<string>>, order: seq<Completion>, c: Completion)
    requires IsSchedule(order, tasks, results)
    ensures c in order <==> c in Completions(tasks, results)
  {
    assert c in order <==> c in multiset(order);
    assert c in Completions(tasks, results) <==> c in multiset(Completions(tasks, results));
  }

  lemma ScheduleIsKnown(tasks: seq<string>, results: seq<Option<string>>, order: seq<Completion>)
    requires IsSchedule(order, tasks, results) && AllTasks(tasks)
    ensures AllKnown(order)
  {
    CompletionsAreKnown(tasks, results);
    forall c | c in order
      ensures IsTask(c.task)
    {
      ScheduleMembers(tasks, results, order, c);
    }
  }

  lemma AllFailedExactly(tasks: seq<string>, results: seq<Option<string>>, order: seq<Completion>)
    requires IsSchedule(order, tasks, results)
    ensures (forall c | c in order :: c.result.None?) <==> forall i | 0 <= i < |results| :: results[i].None?
  {
    var cs := Completions(tasks, results);
    forall c | c in order
      ensures c in cs
    {
      ScheduleMembers(tasks, results, order, c);
    }
    forall i | 0 <= i < |results|
      ensures cs[i] in order && cs[i].result == results[i]
    {
      ScheduleMembers(tasks, results, order, cs[i]);
    }
  }

  /** A run fails exactly when it was cancelled before its first stage and every task
      failed; a failing LLM alone never makes it fail. */
  lemma FailsExactlyWhenCancelledAndAllFailed(cancelled: bool, dependencies: string, reply: Reply, plan: Plan,
                                              results: seq<Option<string>>, order: seq<Completion>)
    requires IsSchedule(order, ChosenTasks(plan), results)
    ensures Outcome(cancelled, dependencies, reply, ChosenTasks(plan), order).None?
            <==> cancelled && forall i | 0 <= i < |results| :: results[i].None?
  {
    var tasks := ChosenTasks(plan);
    ChosenTasksAreTasks(plan);
    ScheduleIsKnown(tasks, results, order);
    MergeOfFailures(order);
    AllFailedExactly(tasks, results, order);
  }
}
