/** What the late dates of the critical-path calculation mean for the project's finish: the latest days each task can
    really take, read off the paths of dependencies, and when the reported slack and flag are those. */
module ProjectSlack {
  import opened Common
  import opened Rounding
  import opened CriticalPath

  // ----- dependency chains and the late finish -----

  /** A chain of dependencies from `id` down to a task with no successors. */
  ghost predicate ChainFrom(net: Network, id: string, chain: seq<Dependency>)
    decreases |chain|
  {
    if chain == [] then net.Leaf(id)
    else net.From(chain[0], id) && ChainFrom(net, chain[0].successorId, chain[1..])
  }

  /** How far past its successor's finish a dependency lets its predecessor finish. */
  function Allowance(net: Network, e: Dependency): int {
    match e.kind
    case FinishToStart => -net.Days(e.successorId) - e.lagDays
    case StartToStart => net.Days(e.predecessorId) - net.Days(e.successorId) - e.lagDays
    case FinishToFinish => -e.lagDays
    case StartToFinish => net.Days(e.predecessorId) - e.lagDays
  }

  function ChainAllowance(net: Network, chain: seq<Dependency>): int {
    if chain == [] then 0 else Allowance(net, chain[0]) + ChainAllowance(net, chain[1..])
  }

  lemma BoundIsAllowance(net: Network, e: Dependency, succFinish: int)
    ensures net.Bound(e, succFinish) == succFinish + Allowance(net, e)
  {
  }

  /** Every chain bounds the late finish ... */
  lemma {:induction false} ChainBounds(net: Network, late: Plan, id: string, chain: seq<Dependency>)
    requires net.Valid() && Latest(net, late) && id in net.ids && ChainFrom(net, id, chain)
    ensures late(id) <= net.finish + ChainAllowance(net, chain)
    decreases |chain|
  {
    assert LatestAt(net, id, late);
    if chain != [] {
      var e := chain[0];
      ChainBounds(net, late, e.successorId, chain[1..]);
      BoundIsAllowance(net, e, late(e.successorId));
      assert net.From(e, id);
    }
  }

  lemma ChainExtend(net: Network, e: Dependency, rest: seq<Dependency>)
    requires e in net.edges && ChainFrom(net, e.successorId, rest)
    ensures ChainFrom(net, e.predecessorId, [e] + rest)
    ensures ChainAllowance(net, [e] + rest) == Allowance(net, e) + ChainAllowance(net, rest)
  {
    assert ([e] + rest)[1..] == rest;
  }

  /** ... and some chain attains it: a driving chain of the task. */
  lemma {:induction false} DrivingChain(net: Network, order: seq<string>, late: Plan, i: nat)
    returns (chain: seq<Dependency>)
    requires net.Valid() && Topological(net, order) && Latest(net, late) && i < |order|
    ensures ChainFrom(net, order[i], chain)
    ensures late(order[i]) == net.finish + ChainAllowance(net, chain)
    decreases |order| - i
  {
    var id := order[i];
    assert id in net.ids && LatestAt(net, id, late);
    if net.Leaf(id) {
      chain := [];
    } else {
      var e := DrivingEdge(net, late, id);
      var j := SuccessorLater(net, order, e, i);
      var rest := DrivingChain(net, order, late, j);
      ChainExtend(net, e, rest);
      BoundIsAllowance(net, e, late(e.successorId));
      chain := [e] + rest;
    }
  }

  /** Some chain from the task to one without successors allows no more than this. */
  ghost predicate HasChainWithin(net: Network, id: string, allowance: int) {
    exists chain :: ChainFrom(net, id, chain) && ChainAllowance(net, chain) <= allowance
  }

  /** A task's late finish is at most so far past the project's finish exactly when some chain allows no more; with no
      such chain for 0, as start-to-start and start-to-finish links and negative lags make possible, it is past
      the project's end. */
  lemma LateWithinIff(net: Network, late: Plan, id: string, allowance: int)
    requires net.Valid() && Acyclic(net) && Latest(net, late) && id in net.ids
    ensures late(id) <= net.finish + allowance <==> HasChainWithin(net, id, allowance)
  {
    var order :| Topological(net, order);
    var i := IndexOf(order, id);
    var driving := DrivingChain(net, order, late, i);
    if chain :| ChainFrom(net, id, chain) && ChainAllowance(net, chain) <= allowance {
      ChainBounds(net, late, id, chain);
    }
  }

  // ----- plans that keep the project's finish -----

  /** A plan under which every task, not just those nothing depends on, finishes by the project's finish. */
  ghost predicate OnTime(net: Network, plan: Plan) {
    Feasible(net, plan) && forall id :: id in net.ids ==> plan(id) <= net.finish
  }

  /** Some plan that keeps the project's finish lets the task finish on that day or later. */
  ghost predicate CanFinish(net: Network, id: string, day: int) {
    exists plan: Plan :: OnTime(net, plan) && day <= plan(id)
  }

  /** A path of dependencies from `id` to any task. */
  ghost predicate PathFrom(net: Network, id: string, path: seq<Dependency>)
    decreases |path|
  {
    path == [] || (net.From(path[0], id) && PathFrom(net, path[0].successorId, path[1..]))
  }

  lemma PathExtend(net: Network, e: Dependency, rest: seq<Dependency>)
    requires e in net.edges && PathFrom(net, e.successorId, rest)
    ensures PathFrom(net, e.predecessorId, [e] + rest)
    ensures ChainAllowance(net, [e] + rest) == Allowance(net, e) + ChainAllowance(net, rest)
  {
    assert ([e] + rest)[1..] == rest;
  }

  /** The equation of the greatest plan on time: the least of the project's finish and of all successors' bounds. */
  ghost predicate BestAt(net: Network, id: string, plan: Plan) {
    && plan(id) <= net.finish
    && (forall e :: net.From(e, id) ==> plan(id) <= net.Bound(e, plan(e.successorId)))
    && (plan(id) == net.finish || exists e :: net.From(e, id) && plan(id) == net.Bound(e, plan(e.successorId)))
  }

  ghost predicate Best(net: Network, plan: Plan) {
    forall id :: id in net.ids ==> BestAt(net, id, plan)
  }

  /** The least of the project's finish and of the bounds of the dependencies out of `id`. */
  function Capped(net: Network, edges: seq<Dependency>, id: string, plan: Plan): (day: int)
    ensures day <= net.finish
    ensures forall e :: e in edges && e.predecessorId == id ==> day <= net.Bound(e, plan(e.successorId))
    ensures day == net.finish
            || exists e :: e in edges && e.predecessorId == id && day == net.Bound(e, plan(e.successorId))
  {
    if edges == [] then net.finish else
      var e := edges[|edges| - 1];
      assert edges == edges[..|edges| - 1] + [e];
      var day := Capped(net, edges[..|edges| - 1], id, plan);
      if e.predecessorId == id then Min(day, net.Bound(e, plan(e.successorId))) else day
  }

  /** What a plan does before the tasks from i on are settled does not matter to them. */
  lemma BestStays(net: Network, order: seq<string>, plan: Plan, plan': Plan, i: nat, j: nat)
    requires net.Valid() && Topological(net, order) && i < j < |order| && BestAt(net, order[j], plan)
    requires forall x :: x != order[i] ==> plan'(x) == plan(x)
    ensures BestAt(net, order[j], plan')
  {
    forall e | net.From(e, order[j]) ensures plan'(e.successorId) == plan(e.successorId) {
      var k := SuccessorLater(net, order, e, j);
    }
  }

  lemma CappedIsBest(net: Network, order: seq<string>, plan: Plan, plan': Plan, i: nat)
    requires net.Valid() && Topological(net, order) && i < |order|
    requires forall x :: plan'(x) == if x == order[i] then Capped(net, net.edges, order[i], plan) else plan(x)
    ensures BestAt(net, order[i], plan')
  {
    var id := order[i];
    forall e | net.From(e, id) ensures plan'(e.successorId) == plan(e.successorId) {
      var k := SuccessorLater(net, order, e, i);
    }
    if plan'(id) != net.finish {
      var e :| e in net.edges && e.predecessorId == id && plan'(id) == net.Bound(e, plan(e.successorId));
      assert net.From(e, id) && plan'(id) == net.Bound(e, plan'(e.successorId));
    }
  }

  /** Settling the tasks from the last to the first gives a greatest plan. */
  lemma {:induction false} BestFrom(net: Network, order: seq<string>, i: nat) returns (plan: Plan)
    requires net.Valid() && Topological(net, order) && i <= |order|
    ensures forall j :: i <= j < |order| ==> BestAt(net, order[j], plan)
    decreases |order| - i
  {
    if i == |order| {
      plan := _ => 0;
    } else {
      var rest := BestFrom(net, order, i + 1);
      var id, day := order[i], Capped(net, net.edges, order[i], rest);
      plan := x => if x == id then day else rest(x);
      CappedIsBest(net, order, rest, plan, i);
      forall j | i < j < |order| ensures BestAt(net, order[j], plan) {
        BestStays(net, order, rest, plan, i, j);
      }
    }
  }

  lemma BestPlan(net: Network) returns (plan: Plan)
    requires net.Valid() && Acyclic(net)
    ensures Best(net, plan) && OnTime(net, plan)
  {
    var order :| Topological(net, order);
    plan := BestFrom(net, order, 0);
    forall id | id in net.ids ensures BestAt(net, id, plan) {
      var i := IndexOf(order, id);
    }
    forall e | e in net.edges ensures DependencyKept(net, e, plan) {
      BestKeeps(net, plan, e);
    }
  }

  lemma BestKeeps(net: Network, plan: Plan, e: Dependency)
    requires e in net.edges && BestAt(net, e.predecessorId, plan)
    ensures DependencyKept(net, e, plan)
  {
    assert net.From(e, e.predecessorId);
    BoundsMirror(plan(e.predecessorId), net.Days(e.predecessorId), plan(e.successorId), net.Days(e.successorId), e.kind, e.lagDays);
  }

  /** Every path bounds what a plan on time can do, as any task on it must finish by the project's finish ... */
  lemma {:induction false} PathBounds(net: Network, plan: Plan, id: string, path: seq<Dependency>)
    requires net.Valid() && OnTime(net, plan) && id in net.ids && PathFrom(net, id, path)
    ensures plan(id) <= net.finish + ChainAllowance(net, path)
    decreases |path|
  {
    if path != [] {
      var e := path[0];
      PathBounds(net, plan, e.successorId, path[1..]);
      KeptBound(net, e, plan, plan(e.successorId));
      BoundIsAllowance(net, e, plan(e.successorId));
    }
  }

  /** ... and some path attains the greatest one. */
  lemma {:induction false} DrivingPath(net: Network, order: seq<string>, plan: Plan, i: nat)
    returns (path: seq<Dependency>)
    requires net.Valid() && Topological(net, order) && Best(net, plan) && i < |order|
    ensures PathFrom(net, order[i], path)
    ensures plan(order[i]) == net.finish + ChainAllowance(net, path)
    decreases |order| - i
  {
    var id := order[i];
    assert id in net.ids && BestAt(net, id, plan);
    if plan(id) == net.finish {
      path := [];
    } else {
      var e :| net.From(e, id) && plan(id) == net.Bound(e, plan(e.successorId));
      var j := SuccessorLater(net, order, e, i);
      var rest := DrivingPath(net, order, plan, j);
      PathExtend(net, e, rest);
      BoundIsAllowance(net, e, plan(e.successorId));
      path := [e] + rest;
    }
  }

  ghost predicate PathsAllow(net: Network, id: string, day: int) {
    forall path :: PathFrom(net, id, path) ==> day <= net.finish + ChainAllowance(net, path)
  }

  /** A task can finish on a day without moving the project's finish exactly when every path from it allows that day. */
  lemma CanFinishIff(net: Network, id: string, day: int)
    requires net.Valid() && Acyclic(net) && id in net.ids
    ensures CanFinish(net, id, day) <==> PathsAllow(net, id, day)
  {
    if CanFinish(net, id, day) {
      var plan: Plan :| OnTime(net, plan) && day <= plan(id);
      forall path | PathFrom(net, id, path) ensures day <= net.finish + ChainAllowance(net, path) {
        PathBounds(net, plan, id, path);
      }
    }
    if PathsAllow(net, id, day) {
      var order :| Topological(net, order);
      var best := BestPlan(net);
      var i := IndexOf(order, id);
      var path := DrivingPath(net, order, best, i);
      assert OnTime(net, best) && day <= best(id);
    }
  }

  // ----- when the late finishes are what they are documented to be -----

  /** The task's late finish is the latest day that does not move the project's finish. */
  ghost predicate AsDocumentedFor(net: Network, late: Plan, id: string) {
    forall day: int :: CanFinish(net, id, day) <==> day <= late(id)
  }

  ghost predicate AsDocumented(net: Network, late: Plan) {
    forall id :: id in net.ids ==> AsDocumentedFor(net, late, id)
  }

  /** Some path from the task, wherever it ends, allows no more than this. */
  ghost predicate HasPathWithin(net: Network, id: string, allowance: int) {
    exists path :: PathFrom(net, id, path) && ChainAllowance(net, path) <= allowance
  }

  /** What a path allows at most, some chain to the end does: no task on the way is bound by the project's finish alone. */
  ghost predicate ChainsDecide(net: Network, id: string) {
    forall path :: PathFrom(net, id, path) ==> HasChainWithin(net, id, ChainAllowance(net, path))
  }

  lemma CanFinishBound(net: Network, late: Plan, id: string, day: int)
    requires net.Valid() && Acyclic(net) && Latest(net, late) && id in net.ids
    ensures CanFinish(net, id, day) ==> day <= late(id)
  {
    if CanFinish(net, id, day) {
      var plan: Plan :| OnTime(net, plan) && day <= plan(id);
      FeasibleNotLater(net, late, plan, id);
    }
  }

  lemma HasPathWithinIff(net: Network, id: string, allowance: int)
    ensures HasPathWithin(net, id, allowance) <==> !PathsAllow(net, id, net.finish + allowance + 1)
  {
    if HasPathWithin(net, id, allowance) {
      var path :| PathFrom(net, id, path) && ChainAllowance(net, path) <= allowance;
      assert !(net.finish + allowance + 1 <= net.finish + ChainAllowance(net, path));
    }
    if !PathsAllow(net, id, net.finish + allowance + 1) {
      var path :| PathFrom(net, id, path) && !(net.finish + allowance + 1 <= net.finish + ChainAllowance(net, path));
      assert ChainAllowance(net, path) <= allowance;
    }
  }

  lemma ChainsDecideIff(net: Network, late: Plan, id: string)
    requires net.Valid() && Acyclic(net) && Latest(net, late) && id in net.ids
    ensures ChainsDecide(net, id) <==> PathsAllow(net, id, late(id))
  {
    forall path | PathFrom(net, id, path)
      ensures HasChainWithin(net, id, ChainAllowance(net, path)) <==> late(id) <= net.finish + ChainAllowance(net, path)
    {
      LateWithinIff(net, late, id, ChainAllowance(net, path));
    }
  }

  /** One task's late finish is as documented exactly when the chains from it decide what its paths allow. */
  lemma AsDocumentedForIff(net: Network, late: Plan, id: string)
    requires net.Valid() && Acyclic(net) && Latest(net, late) && id in net.ids
    ensures AsDocumentedFor(net, late, id) <==> ChainsDecide(net, id)
  {
    ChainsDecideIff(net, late, id);
    CanFinishIff(net, id, late(id));
    forall day: int ensures CanFinish(net, id, day) ==> day <= late(id) {
      CanFinishBound(net, late, id, day);
    }
  }

  /** All tasks' late finishes are as documented exactly when every task has a chain that allows nothing past the
      project's finish. */
  lemma LateFinishesAsDocumentedIff(net: Network, late: Plan)
    requires net.Valid() && Acyclic(net) && Latest(net, late)
    ensures AsDocumented(net, late) <==> forall id :: id in net.ids ==> HasChainWithin(net, id, 0)
  {
    forall id | id in net.ids ensures late(id) <= net.finish <==> HasChainWithin(net, id, 0) {
      LateWithinIff(net, late, id, 0);
    }
    AsDocumentedIfWithin(net, late);
  }

  lemma AsDocumentedIfWithin(net: Network, late: Plan)
    requires net.Valid() && Acyclic(net) && Latest(net, late)
    ensures AsDocumented(net, late) <==> forall id :: id in net.ids ==> late(id) <= net.finish
  {
    LatestIsFeasible(net, late);
    if forall id :: id in net.ids ==> late(id) <= net.finish {
      assert OnTime(net, late);
      forall id, day: int | id in net.ids ensures CanFinish(net, id, day) <==> day <= late(id) {
        CanFinishBound(net, late, id, day);
      }
    }
    if AsDocumented(net, late) {
      forall id | id in net.ids ensures late(id) <= net.finish {
        assert AsDocumentedFor(net, late, id) && CanFinish(net, id, late(id));
      }
    }
  }

  // ----- the slack and the flag reported -----

  /** A task's row as reported. */
  function Row(net: Network, epoch: int, t: Task, lf: Dates): Result {
    ResultFor(t, epoch, LateStart(net, t.id, Get(lf, t.id)), Get(lf, t.id))
  }

  /** The day a task finishes when it starts as scheduled and takes its duration. */
  function ScheduledFinish(epoch: int, t: Task): int {
    DiffDays(epoch, t.startDate) + Duration(t)
  }

  /** `t` is a task of an acyclic network with the late dates `lf`. */
  ghost predicate Solved(net: Network, t: Task, lf: Dates) {
    && net.Valid() && Acyclic(net) && Latest(net, PlanOf(lf))
    && t.id in net.ids && net.Days(t.id) == Duration(t) && Get(lf, t.id).Some?
  }

  /** So are all tasks the calculation is given, unless the dependencies have a cycle, and these are the rows it returns. */
  lemma ComputedRow(tasks: seq<Task>, dependencies: seq<Dependency>, t: Task, ls: Dates, lf: Dates)
    requires t in tasks && Distinct(Ids(tasks))
    requires var net := NetworkOf(tasks, dependencies);
             StartsMatch(net, ls, lf) && Acyclic(net) && AllNumbers(net, lf) && Latest(net, PlanOf(lf))
    ensures Solved(NetworkOf(tasks, dependencies), t, lf)
    ensures ResultFor(t, Epoch(tasks), Get(ls, t.id), Get(lf, t.id)) == Row(NetworkOf(tasks, dependencies), Epoch(tasks), t, lf)
  {
    NetworkValid(tasks, dependencies);
    DurationsOf(tasks, dependencies, t);
    var i :| 0 <= i < |tasks| && tasks[i] == t;
    assert Ids(tasks)[i] == t.id;
  }

  lemma RowSlack(net: Network, epoch: int, t: Task, lf: Dates)
    requires Get(lf, t.id).Some? && net.Days(t.id) == Duration(t)
    ensures var row, slack := Row(net, epoch, t, lf), PlanOf(lf)(t.id) - ScheduledFinish(epoch, t);
            row.slackDays == Some(slack) && row.critical == (slack <= 0)
  {
  }

  /** A task is flagged critical exactly when no feasible plan finishes it even a day after its scheduled finish. */
  lemma CriticalIff(net: Network, epoch: int, t: Task, lf: Dates)
    requires Solved(net, t, lf)
    ensures Row(net, epoch, t, lf).critical
        <==> !exists plan: Plan :: Feasible(net, plan) && ScheduledFinish(epoch, t) + 1 <= plan(t.id)
  {
    RowSlack(net, epoch, t, lf);
    LatestIsFeasible(net, PlanOf(lf));
    if plan: Plan :| Feasible(net, plan) && ScheduledFinish(epoch, t) + 1 <= plan(t.id) {
      FeasibleNotLater(net, PlanOf(lf), plan, t.id);
    }
  }

  /** The task can finish so many days after its scheduled finish without moving the project's. */
  ghost predicate CanDelay(net: Network, epoch: int, t: Task, delay: int) {
    CanFinish(net, t.id, ScheduledFinish(epoch, t) + delay)
  }

  /** The slack is the largest such delay. */
  ghost predicate LargestDelay(net: Network, epoch: int, t: Task, slack: int) {
    forall delay: int :: CanDelay(net, epoch, t, delay) <==> delay <= slack
  }

  lemma LargestDelayIff(net: Network, epoch: int, t: Task, late: Plan)
    ensures LargestDelay(net, epoch, t, late(t.id) - ScheduledFinish(epoch, t)) <==> AsDocumentedFor(net, late, t.id)
  {
    var scheduled := ScheduledFinish(epoch, t);
    if LargestDelay(net, epoch, t, late(t.id) - scheduled) {
      forall day: int ensures CanFinish(net, t.id, day) <==> day <= late(t.id) {
        assert CanDelay(net, epoch, t, day - scheduled) <==> day - scheduled <= late(t.id) - scheduled;
      }
    }
  }

  /** The slack reported for a task is the largest delay that does not move the project's finish exactly when the chains
      from the task decide. */
  lemma SlackAsDocumentedIff(net: Network, epoch: int, t: Task, lf: Dates)
    requires Solved(net, t, lf)
    ensures var slack := Row(net, epoch, t, lf).slackDays;
            slack.Some? && (LargestDelay(net, epoch, t, slack.value) <==> ChainsDecide(net, t.id))
  {
    RowSlack(net, epoch, t, lf);
    LargestDelayIff(net, epoch, t, PlanOf(lf));
    AsDocumentedForIff(net, PlanOf(lf), t.id);
  }

  /** A task flagged critical can indeed not finish a day later; the flag says so of every task that cannot exactly when, if
      some path from the task allows no more than its scheduled finish, some chain does. */
  lemma FlagAsDocumentedIff(net: Network, epoch: int, t: Task, lf: Dates)
    requires Solved(net, t, lf)
    ensures var critical, movesFinish := Row(net, epoch, t, lf).critical, !CanDelay(net, epoch, t, 1);
            var allowed := ScheduledFinish(epoch, t) - net.finish;
            && (critical ==> movesFinish)
            && ((critical <==> movesFinish)
                <==> (HasPathWithin(net, t.id, allowed) ==> HasChainWithin(net, t.id, allowed)))
  {
    RowSlack(net, epoch, t, lf);
    MovesFinishIff(net, epoch, t, PlanOf(lf));
  }

  lemma MovesFinishIff(net: Network, epoch: int, t: Task, late: Plan)
    requires net.Valid() && Acyclic(net) && Latest(net, late) && t.id in net.ids
    ensures var allowed := ScheduledFinish(epoch, t) - net.finish;
            && (!CanDelay(net, epoch, t, 1) <==> HasPathWithin(net, t.id, allowed))
            && (late(t.id) <= ScheduledFinish(epoch, t) <==> HasChainWithin(net, t.id, allowed))
            && (late(t.id) <= ScheduledFinish(epoch, t) ==> !CanDelay(net, epoch, t, 1))
  {
    var allowed := ScheduledFinish(epoch, t) - net.finish;
    CanFinishIff(net, t.id, net.finish + allowed + 1);
    HasPathWithinIff(net, t.id, allowed);
    LateWithinIff(net, late, t.id, allowed);
    CanFinishBound(net, late, t.id, net.finish + allowed + 1);
  }

  // ----- inputs on which they are not -----

  function Day(n: int): int {
    n * DAY_MS
  }

  lemma DiffWholeDays(from: int, to: int)
    ensures DiffDays(Day(from), Day(to)) == to - from
  {
    assert Day(to) - Day(from) == (to - from) * DAY_MS;
    RoundDivWhole(to - from, DAY_MS);
  }

  lemma EpochIs(tasks: seq<Task>)
    requires tasks != [] && tasks[0].startDate == 0 && forall t :: t in tasks ==> 0 <= t.startDate
    ensures Epoch(tasks) == 0
  {
    assert tasks[0] in tasks;
  }

  lemma FinishIs(tasks: seq<Task>, finish: int, k: nat)
    requires k < |tasks| && DiffDays(0, tasks[k].dueDate) == finish
    requires forall t :: t in tasks ==> DiffDays(0, t.dueDate) <= finish
    ensures ProjectFinish(tasks, 0) == finish
  {
    assert tasks[k] in tasks;
  }

  lemma DurationsAre(tasks: seq<Task>, net: Network)
    requires Distinct(Ids(tasks)) && Ids(tasks) == net.ids && net.Valid()
    requires forall t :: t in tasks ==> net.Days(t.id) == Duration(t)
    ensures Durations(tasks) == net.durations
  {
    var durations := Durations(tasks);
    forall id | id in net.ids ensures durations[id] == net.durations[id] {
      var i := IndexOf(net.ids, id);
      assert tasks[i] in tasks;
    }
  }

  /** The network of some tasks, of which the first starts on day 0 and no other before, and the k-th finishes last. */
  lemma NetworkIs(tasks: seq<Task>, net: Network, k: nat)
    requires k < |tasks| && Ids(tasks) == net.ids && net.Valid()
    requires tasks[0].startDate == 0 && forall t :: t in tasks ==> 0 <= t.startDate
    requires DiffDays(0, tasks[k].dueDate) == net.finish && forall t :: t in tasks ==> DiffDays(0, t.dueDate) <= net.finish
    requires forall t :: t in tasks ==> net.Days(t.id) == Duration(t)
    ensures Epoch(tasks) == 0 && NetworkOf(tasks, net.edges) == net
  {
    EpochIs(tasks);
    FinishIs(tasks, net.finish, k);
    DurationsAre(tasks, net);
    KnownEdgesAll(net.edges, net.ids);
  }

  /** A ten-day and a two-day task that start together; the two-day one may not start before the other. */
  const TEN_DAYS := Task("A", Day(0), Day(10))
  const TWO_DAYS := Task("B", Day(0), Day(2))
  const START_LINK := Dependency("A", "B", StartToStart, 0)
  const START_LINKED := Network(["A", "B"], map["A" := 10, "B" := 2], [START_LINK], 10)

  lemma StartLinkedAcyclic()
    ensures START_LINKED.Valid() && Acyclic(START_LINKED)
  {
    assert Topological(START_LINKED, ["A", "B"]) by {
      assert ["A", "B"][..1] == ["A"];
    }
  }

  lemma StartLinkedNetwork()
    ensures Distinct(Ids([TEN_DAYS, TWO_DAYS])) && Epoch([TEN_DAYS, TWO_DAYS]) == 0
    ensures NetworkOf([TEN_DAYS, TWO_DAYS], [START_LINK]) == START_LINKED
  {
    DiffWholeDays(0, 10);
    DiffWholeDays(0, 2);
    assert Ids([TEN_DAYS, TWO_DAYS]) == START_LINKED.ids;
    StartLinkedAcyclic();
    NetworkIs([TEN_DAYS, TWO_DAYS], START_LINKED, 0);
  }

  lemma StartLinkedLate(late: Plan)
    requires Latest(START_LINKED, late)
    ensures late("B") == 10 && late("A") == 18
  {
    assert LatestAt(START_LINKED, "B", late) && LatestAt(START_LINKED, "A", late);
    assert START_LINKED.Leaf("B") && START_LINKED.From(START_LINK, "A");
  }

  /** Of these the ten-day task gets a late finish eight days past the end of the project it determines, and so is not
      flagged critical: the late dates are not those documented. */
  lemma StartLinkOutrunsProject(late: Plan)
    ensures Distinct(Ids([TEN_DAYS, TWO_DAYS]))
    ensures var net := NetworkOf([TEN_DAYS, TWO_DAYS], [START_LINK]);
            && net.Valid() && Acyclic(net) && net.finish == 10
            && (Latest(net, late) ==> late("B") == 10 && late("A") == 18 && !AsDocumented(net, late))
    ensures !ResultFor(TEN_DAYS, 0, Some(18 - 10), Some(18)).critical
  {
    StartLinkedNetwork();
    StartLinkedAcyclic();
    if Latest(START_LINKED, late) {
      StartLinkedLate(late);
      AsDocumentedIfWithin(START_LINKED, late);
      assert "A" in START_LINKED.ids;
    }
    DiffWholeDays(0, 0);
  }

  /** A day's work, then ten days' and, from their start on, one day more: each scheduled as early as it can be. */
  const BEFORE := Task("A", Day(0), Day(1))
  const LONG := Task("B", Day(1), Day(11))
  const BESIDE := Task("C", Day(1), Day(2))
  const THEN := Dependency("A", "B", FinishToStart, 0)
  const TOGETHER := Dependency("B", "C", StartToStart, 0)
  const THREE := Network(["A", "B", "C"], map["A" := 1, "B" := 10, "C" := 1], [THEN, TOGETHER], 11)

  lemma ThreeAcyclic()
    ensures THREE.Valid() && Acyclic(THREE)
  {
    assert Topological(THREE, ["A", "B", "C"]) by {
      assert ["A", "B", "C"][..1] == ["A"] && ["A", "B", "C"][..2] == ["A", "B"];
    }
  }

  lemma ThreeNetwork()
    ensures Distinct(Ids([BEFORE, LONG, BESIDE])) && Epoch([BEFORE, LONG, BESIDE]) == 0
    ensures NetworkOf([BEFORE, LONG, BESIDE], [THEN, TOGETHER]) == THREE
  {
    DiffWholeDays(0, 1);
    DiffWholeDays(0, 11);
    DiffWholeDays(0, 2);
    DiffWholeDays(1, 11);
    DiffWholeDays(1, 2);
    assert Ids([BEFORE, LONG, BESIDE]) == THREE.ids;
    ThreeAcyclic();
    NetworkIs([BEFORE, LONG, BESIDE], THREE, 1);
  }

  lemma ThreeLate(late: Plan)
    requires Latest(THREE, late)
    ensures late("C") == 11 && late("B") == 20 && late("A") == 10
  {
    assert LatestAt(THREE, "C", late) && LatestAt(THREE, "B", late) && LatestAt(THREE, "A", late);
    assert THREE.Leaf("C") && THREE.From(TOGETHER, "B") && THREE.From(THEN, "A");
  }

  /** The first task cannot finish a day later, and has a chain that allows nothing past the project's finish. Yet its late
      finish is nine days after its scheduled one, within the project, and it is not flagged critical: the task in the
      middle would not finish in time. */
  lemma WithinProjectNotEnough(late: Plan)
    ensures Distinct(Ids([BEFORE, LONG, BESIDE]))
    ensures var net := NetworkOf([BEFORE, LONG, BESIDE], [THEN, TOGETHER]);
            && net.Valid() && Acyclic(net) && HasChainWithin(net, "A", 0)
            && (Latest(net, late) ==> late("A") == 10 && net.finish == 11)
            && !CanDelay(net, 0, BEFORE, 1) && !ResultFor(BEFORE, 0, Some(10 - 1), Some(10)).critical
  {
    ThreeNetwork();
    ThreeAcyclic();
    DiffWholeDays(0, 0);
    DiffWholeDays(0, 1);
    if Latest(THREE, late) {
      ThreeLate(late);
    }
    ThreePaths();
    CanFinishIff(THREE, "A", 2);
  }

  lemma ThreePaths()
    ensures HasChainWithin(THREE, "A", 0) && !PathsAllow(THREE, "A", 2)
  {
    var path := [THEN];
    assert path[1..] == [] && PathFrom(THREE, "B", path[1..]) && THREE.From(THEN, "A");
    assert PathFrom(THREE, "A", path) && ChainAllowance(THREE, path) == -10;
    var chain := [THEN, TOGETHER];
    assert chain[1..] == [TOGETHER] && chain[1..][1..] == [];
    assert THREE.Leaf("C") && THREE.From(TOGETHER, "B");
    assert ChainFrom(THREE, "B", chain[1..]);
    assert ChainAllowance(THREE, chain[1..]) == 9;
    assert ChainFrom(THREE, "A", chain) && ChainAllowance(THREE, chain) == -1;
  }
}
