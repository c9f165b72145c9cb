/** Slack over an as-scheduled task network: Kahn's topological order, then a backward pass that gives
    every task its latest finish.  Dates are milliseconds; offsets are whole days. */
module CriticalPath {
  import opened Common
  import opened Rounding

  const DAY_MS := 24 * 60 * 60 * 1000

  datatype DependencyType = FinishToStart | StartToStart | FinishToFinish | StartToFinish

  datatype Task = Task(id: string, startDate: int, dueDate: int)

  datatype Dependency = Dependency(predecessorId: string, successorId: string, kind: DependencyType, lagDays: int)

  /** None stands for NaN and for the invalid date made of it. */
  datatype Result = Result(id: string, earlyStart: int, earlyFinish: int,
                           lateStart: Option<int>, lateFinish: Option<int>, slackDays: Option<int>, critical: bool)

  /** Late dates by task id, in days from the epoch. */
  type Dates = map<string, Option<int>>

  /** The dependencies into or out of each task. */
  type Adjacent = map<string, seq<Dependency>>

  function DiffDays(from: int, to: int): int {
    RoundDiv(to - from, DAY_MS)
  }

  function AddDays(date: int, days: int): int {
    date + days * DAY_MS
  }

  function Duration(t: Task): int {
    Max(1, DiffDays(t.startDate, t.dueDate))
  }

  function MinSuccessorStartOffset(predEs: int, predEf: int, kind: DependencyType, lagDays: int, succDuration: int): int {
    match kind
    case FinishToStart => predEf + lagDays
    case StartToStart => predEs + lagDays
    case FinishToFinish => predEf + lagDays - succDuration
    case StartToFinish => predEs + lagDays - succDuration
  }

  function MaxPredecessorFinishOffset(succLs: int, succLf: int, kind: DependencyType, lagDays: int, predDuration: int): int {
    match kind
    case FinishToStart => succLs - lagDays
    case StartToStart => succLs - lagDays + predDuration
    case FinishToFinish => succLf - lagDays
    case StartToFinish => succLf - lagDays + predDuration
  }

  /** The two translations of a dependency mirror each other: finishing the predecessor by the backward bound
      is starting the successor no earlier than the forward bound. */
  lemma BoundsMirror(predFinish: int, predDuration: int, succFinish: int, succDuration: int, kind: DependencyType, lagDays: int)
    ensures predFinish <= MaxPredecessorFinishOffset(succFinish - succDuration, succFinish, kind, lagDays, predDuration)
            <==> MinSuccessorStartOffset(predFinish - predDuration, predFinish, kind, lagDays, succDuration) <= succFinish - succDuration
  {
  }

  // ----- the network and its schedules -----

  datatype Network = Network(ids: seq<string>, durations: map<string, int>, edges: seq<Dependency>, finish: int)
  {
    ghost predicate Valid() {
      && Distinct(ids)
      && (forall id :: id in ids <==> id in durations)
      && (forall e :: e in edges ==> e.predecessorId in ids && e.successorId in ids)
    }

    function Days(id: string): int {
      if id in durations then durations[id] else 1
    }

    /** The latest finish of e's predecessor that e allows, when its successor finishes at succFinish. */
    function Bound(e: Dependency, succFinish: int): int {
      MaxPredecessorFinishOffset(succFinish - Days(e.successorId), succFinish, e.kind, e.lagDays, Days(e.predecessorId))
    }

    /** e leads out of the task `id`. */
    predicate From(e: Dependency, id: string) {
      e in edges && e.predecessorId == id
    }

    /** Nothing depends on the task `id`. */
    ghost predicate Leaf(id: string) {
      forall e :: e in edges ==> e.predecessorId != id
    }
  }

  function Out(edges: seq<Dependency>, id: string): seq<Dependency> {
    if edges == [] then [] else
      var e := edges[|edges| - 1];
      Out(edges[..|edges| - 1], id) + if e.predecessorId == id then [e] else []
  }

  function In(edges: seq<Dependency>, id: string): seq<Dependency> {
    if edges == [] then [] else
      var e := edges[|edges| - 1];
      In(edges[..|edges| - 1], id) + if e.successorId == id then [e] else []
  }

  lemma {:induction false} OutMembers(edges: seq<Dependency>, id: string)
    ensures forall e :: e in Out(edges, id) <==> e in edges && e.predecessorId == id
  {
    if edges != [] {
      OutMembers(edges[..|edges| - 1], id);
      assert edges == edges[..|edges| - 1] + [edges[|edges| - 1]];
    }
  }

  /** A plan gives every task a finish day. */
  type Plan = string -> int

  /** A feasible plan respects every dependency, and the tasks nothing depends on finish by the project's finish. */
  ghost predicate Feasible(net: Network, plan: Plan) {
    && (forall id :: id in net.ids && net.Leaf(id) ==> plan(id) <= net.finish)
    && (forall e :: e in net.edges ==> DependencyKept(net, e, plan))
  }

  /** The successor starts no earlier than the predecessor's dates and the lag allow. */
  ghost predicate DependencyKept(net: Network, e: Dependency, plan: Plan) {
    var predFinish, succFinish := plan(e.predecessorId), plan(e.successorId);
    MinSuccessorStartOffset(predFinish - net.Days(e.predecessorId), predFinish, e.kind, e.lagDays, net.Days(e.successorId))
    <= succFinish - net.Days(e.successorId)
  }

  /** The equation the backward pass solves at one task: the project's finish without successors, else the
      least of the successors' bounds. */
  ghost predicate LatestAt(net: Network, id: string, plan: Plan) {
    if net.Leaf(id) then plan(id) == net.finish
    else (forall e :: net.From(e, id) ==> plan(id) <= net.Bound(e, plan(e.successorId)))
         && exists e :: net.From(e, id) && plan(id) == net.Bound(e, plan(e.successorId))
  }

  ghost predicate Latest(net: Network, plan: Plan) {
    forall id :: id in net.ids ==> LatestAt(net, id, plan)
  }

  /** What a plan that keeps a dependency does: the successor starts or finishes no earlier than the lag after the
      predecessor starts or finishes, as the dependency's type names the two ends. */
  lemma DependencyKeptIff(net: Network, e: Dependency, plan: Plan)
    ensures var predFinish, succFinish := plan(e.predecessorId), plan(e.successorId);
            var predStart, succStart := predFinish - net.Days(e.predecessorId), succFinish - net.Days(e.successorId);
            DependencyKept(net, e, plan)
            <==> match e.kind
                 case FinishToStart => predFinish + e.lagDays <= succStart
                 case StartToStart => predStart + e.lagDays <= succStart
                 case FinishToFinish => predFinish + e.lagDays <= succFinish
                 case StartToFinish => predStart + e.lagDays <= succFinish
  {
  }

  // ----- orders -----

  /** `order` lists every task once and every dependency points forward in it. */
  ghost predicate Topological(net: Network, order: seq<string>) {
    && Distinct(order)
    && (forall id :: id in order <==> id in net.ids)
    && (forall i :: 0 <= i < |order| ==> PredecessorsIn(net.edges, order[i], order[..i]))
  }

  ghost predicate PredecessorsIn(edges: seq<Dependency>, id: string, done: seq<string>) {
    forall e :: e in edges && e.successorId == id ==> e.predecessorId in done
  }

  ghost predicate Acyclic(net: Network) {
    exists order :: Topological(net, order)
  }

  lemma SuccessorLater(net: Network, order: seq<string>, e: Dependency, i: nat)
    returns (j: nat)
    requires net.Valid() && Topological(net, order)
    requires e in net.edges && i < |order| && order[i] == e.predecessorId
    ensures i < j < |order| && order[j] == e.successorId
  {
    assert e.successorId in order;
    j :| 0 <= j < |order| && order[j] == e.successorId;
    assert PredecessorsIn(net.edges, order[j], order[..j]);
    assert e.predecessorId in order[..j];
  }

  // ----- what the backward pass's solution means -----

  lemma LatestKeeps(net: Network, late: Plan, e: Dependency)
    requires e in net.edges && LatestAt(net, e.predecessorId, late)
    ensures DependencyKept(net, e, late)
  {
    assert net.From(e, e.predecessorId);
    BoundsMirror(late(e.predecessorId), net.Days(e.predecessorId), late(e.successorId), net.Days(e.successorId), e.kind, e.lagDays);
  }

  lemma LatestIsFeasible(net: Network, late: Plan)
    requires net.Valid() && Latest(net, late)
    ensures Feasible(net, late)
  {
    forall e | e in net.edges ensures DependencyKept(net, e, late) {
      LatestKeeps(net, late, e);
    }
    forall id | id in net.ids && net.Leaf(id) ensures late(id) <= net.finish {
      assert LatestAt(net, id, late);
    }
  }

  /** Of a task with successors, one dependency sets the late finish. */
  lemma DrivingEdge(net: Network, late: Plan, id: string) returns (e: Dependency)
    requires LatestAt(net, id, late) && !net.Leaf(id)
    ensures net.From(e, id) && late(id) == net.Bound(e, late(e.successorId))
  {
    e :| net.From(e, id) && late(id) == net.Bound(e, late(e.successorId));
  }

  /** A dependency kept under a plan is kept in the backward pass's terms, whatever later finish stands in. */
  lemma KeptBound(net: Network, e: Dependency, plan: Plan, succFinish: int)
    requires Feasible(net, plan) && e in net.edges && plan(e.successorId) <= succFinish
    ensures plan(e.predecessorId) <= net.Bound(e, succFinish)
  {
    assert DependencyKept(net, e, plan);
    BoundsMirror(plan(e.predecessorId), net.Days(e.predecessorId), plan(e.successorId), net.Days(e.successorId), e.kind, e.lagDays);
  }

  /** No feasible plan finishes any task later than the solution does. */
  lemma {:induction false} LatestIsGreatest(net: Network, order: seq<string>, late: Plan, plan: Plan, i: nat)
    requires net.Valid() && Topological(net, order) && Latest(net, late) && Feasible(net, plan)
    requires i < |order|
    ensures plan(order[i]) <= late(order[i])
    decreases |order| - i
  {
    var id := order[i];
    assert id in net.ids && LatestAt(net, id, late);
    if !net.Leaf(id) {
      var e := DrivingEdge(net, late, id);
      var j := SuccessorLater(net, order, e, i);
      LatestIsGreatest(net, order, late, plan, j);
      KeptBound(net, e, plan, late(e.successorId));
    }
  }

  lemma FeasibleNotLater(net: Network, late: Plan, plan: Plan, id: string)
    requires net.Valid() && Acyclic(net) && Latest(net, late) && Feasible(net, plan) && id in net.ids
    ensures plan(id) <= late(id)
  {
    var order :| Topological(net, order);
    assert id in order;
    var i :| 0 <= i < |order| && order[i] == id;
    LatestIsGreatest(net, order, late, plan, i);
  }

  /** Slack is exactly the largest delay a task can take: some feasible plan starts the task `delay` days or
      more after its early start if and only if the delay is within the slack. */
  lemma SlackIsLargestDelay(net: Network, late: Plan, id: string, earlyStart: int, delay: int)
    requires net.Valid() && Acyclic(net) && Latest(net, late) && id in net.ids
    ensures delay <= late(id) - net.Days(id) - earlyStart
        <==> exists plan: Plan :: Feasible(net, plan) && earlyStart + delay <= plan(id) - net.Days(id)
  {
    LatestIsFeasible(net, late);
    if plan: Plan :| Feasible(net, plan) && earlyStart + delay <= plan(id) - net.Days(id) {
      FeasibleNotLater(net, late, plan, id);
    }
  }

  // ----- Kahn's algorithm -----

  /** How many dependencies into `id` have a predecessor not yet done. */
  function Open(edges: seq<Dependency>, id: string, done: set<string>): nat {
    if edges == [] then 0 else
      var e := edges[|edges| - 1];
      Open(edges[..|edges| - 1], id, done) + if e.successorId == id && e.predecessorId !in done then 1 else 0
  }

  lemma {:induction false} OpenInitially(edges: seq<Dependency>, id: string)
    ensures Open(edges, id, {}) == |In(edges, id)|
  {
    if edges != [] {
      OpenInitially(edges[..|edges| - 1], id);
    }
  }

  /** Finishing `p` closes as many dependencies into `id` as lead there from `p`. */
  lemma {:induction false} OpenAfter(edges: seq<Dependency>, id: string, done: set<string>, p: string)
    requires p !in done
    ensures Open(edges, id, done) == Open(edges, id, done + {p}) + |In(Out(edges, p), id)|
  {
    if edges != [] {
      var front, e := edges[..|edges| - 1], edges[|edges| - 1];
      OpenAfter(front, id, done, p);
      if e.predecessorId == p {
        InAppend(Out(front, p), e, id);
      } else {
        assert Out(edges, p) == Out(front, p);
      }
    }
  }

  lemma InAppend(edges: seq<Dependency>, e: Dependency, id: string)
    ensures In(edges + [e], id) == In(edges, id) + if e.successorId == id then [e] else []
  {
    assert (edges + [e])[..|edges|] == edges;
  }

  lemma {:induction false} InPrefix(edges: seq<Dependency>, k: nat, id: string)
    requires k <= |edges|
    ensures |In(edges[..k], id)| <= |In(edges, id)|
    decreases |edges|
  {
    if k == |edges| {
      assert edges[..k] == edges;
    } else {
      var front := edges[..|edges| - 1];
      InPrefix(front, k, id);
      assert front[..k] == edges[..k];
    }
  }

  lemma {:induction false} OpenZeroIff(edges: seq<Dependency>, id: string, done: set<string>)
    ensures Open(edges, id, done) == 0 <==> forall e :: e in edges && e.successorId == id ==> e.predecessorId in done
  {
    if edges != [] {
      OpenZeroIff(edges[..|edges| - 1], id, done);
      assert edges == edges[..|edges| - 1] + [edges[|edges| - 1]];
    }
  }

  function Elems(s: seq<string>): set<string> {
    set x | x in s
  }

  /** If the tasks outside `sorted` each wait for another of them, none is outside: along a topological order
      the first one outside would wait for nothing. */
  lemma {:induction false} NothingLeftOver(net: Network, order: seq<string>, sorted: seq<string>, i: nat)
    requires net.Valid() && Topological(net, order) && i <= |order|
    requires forall id :: id in net.ids && id !in sorted ==> Open(net.edges, id, Elems(sorted)) > 0
    ensures forall k :: 0 <= k < i ==> order[k] in sorted
  {
    if i > 0 {
      NothingLeftOver(net, order, sorted, i - 1);
      var id := order[i - 1];
      assert id in order && PredecessorsIn(net.edges, id, order[..i - 1]);
      OpenZeroIff(net.edges, id, Elems(sorted));
    }
  }

  method Adjacency(ids: seq<string>, edges: seq<Dependency>)
    returns (predecessorsOf: Adjacent, successorsOf: Adjacent)
    requires forall e :: e in edges ==> e.predecessorId in ids && e.successorId in ids
    ensures forall id :: id in ids <==> id in predecessorsOf
    ensures forall id :: id in ids <==> id in successorsOf
    ensures forall id :: id in ids ==> predecessorsOf[id] == In(edges, id) && successorsOf[id] == Out(edges, id)
  {
    predecessorsOf := map id | id in ids :: [];
    successorsOf := map id | id in ids :: [];
    for k := 0 to |edges|
      invariant forall id :: id in ids <==> id in predecessorsOf
      invariant forall id :: id in ids <==> id in successorsOf
      invariant forall id :: id in ids ==> predecessorsOf[id] == In(edges[..k], id) && successorsOf[id] == Out(edges[..k], id)
    {
      var e := edges[k];
      assert edges[..k + 1][..k] == edges[..k];
      predecessorsOf := predecessorsOf[e.successorId := predecessorsOf[e.successorId] + [e]];
      successorsOf := successorsOf[e.predecessorId := successorsOf[e.predecessorId] + [e]];
    }
    assert edges[..|edges|] == edges;
  }

  /** The in-degree table counts what is open when `done` are finished and `closed` have been closed since. */
  ghost predicate Counts(net: Network, inDegree: map<string, int>, done: set<string>, closed: seq<Dependency>) {
    forall x :: x in net.ids ==> x in inDegree && inDegree[x] == Open(net.edges, x, done) - |In(closed, x)|
  }

  ghost predicate QueuedIffFree(net: Network, inDegree: map<string, int>, inQueue: set<string>) {
    forall x :: x in net.ids ==> x in inDegree && (x in inQueue <==> inDegree[x] == 0)
  }

  /** `added` are the tasks queued since the queue held `inQueue0`. */
  ghost predicate Grown(net: Network, inQueue0: set<string>, added: seq<string>, inQueue: set<string>) {
    && Distinct(added) && inQueue == inQueue0 + Elems(added)
    && forall x :: x in added ==> x in net.ids && x !in inQueue0
  }

  lemma GrownPush(net: Network, inQueue0: set<string>, added: seq<string>, inQueue: set<string>, s: string)
    requires Grown(net, inQueue0, added, inQueue) && s !in inQueue && s in net.ids
    ensures Grown(net, inQueue0, added + [s], inQueue + {s})
  {
    assert Elems(added + [s]) == Elems(added) + {s};
    assert s !in Elems(added);
  }

  /** Midway through the visit of `id`, after its first k dependencies. */
  ghost predicate Visiting(net: Network, id: string, done: set<string>, inQueue0: set<string>, k: nat,
                           inDegree: map<string, int>, added: seq<string>, inQueue: set<string>) {
    && k <= |Out(net.edges, id)| && Counts(net, inDegree, done, Out(net.edges, id)[..k])
    && QueuedIffFree(net, inDegree, inQueue) && Grown(net, inQueue0, added, inQueue)
  }

  /** Counting the next dependency's successor one less, and queueing it if it waits for nothing more. */
  lemma VisitNext(net: Network, id: string, done: set<string>, inQueue0: set<string>, k: nat,
                  inDegree: map<string, int>, added: seq<string>, inQueue: set<string>)
    requires net.Valid() && id !in done && k < |Out(net.edges, id)|
    requires Visiting(net, id, done, inQueue0, k, inDegree, added, inQueue)
    ensures var s := Out(net.edges, id)[k].successorId;
            s in inDegree &&
            var less := inDegree[s := inDegree[s] - 1];
            if less[s] == 0 && s !in inQueue then Visiting(net, id, done, inQueue0, k + 1, less, added + [s], inQueue + {s})
            else Visiting(net, id, done, inQueue0, k + 1, less, added, inQueue)
  {
    var s := Out(net.edges, id)[k].successorId;
    CloseOne(net, inDegree, id, done, k);
    if inDegree[s] == 1 && s !in inQueue {
      GrownPush(net, inQueue0, added, inQueue, s);
    }
  }

  lemma VisitBegins(net: Network, id: string, done: set<string>, inDegree: map<string, int>, inQueue: set<string>)
    requires Counts(net, inDegree, done, []) && QueuedIffFree(net, inDegree, inQueue)
    ensures Visiting(net, id, done, inQueue, 0, inDegree, [], inQueue)
  {
    assert Out(net.edges, id)[..0] == [];
  }

  lemma VisitEnds(net: Network, id: string, done: set<string>, inQueue0: set<string>,
                  inDegree: map<string, int>, added: seq<string>, inQueue: set<string>)
    requires id !in done && Visiting(net, id, done, inQueue0, |Out(net.edges, id)|, inDegree, added, inQueue)
    ensures Counts(net, inDegree, done + {id}, [])
    ensures QueuedIffFree(net, inDegree, inQueue) && Grown(net, inQueue0, added, inQueue)
  {
    VisitCloses(net, inDegree, id, done);
  }

  /** One visit of Kahn's loop: closes the dependencies out of `id` and queues what they leave free. */
  method Visit(net: Network, id: string, out: seq<Dependency>, ghost done: set<string>,
               inDegree0: map<string, int>, queue0: seq<string>, inQueue0: set<string>)
    returns (inDegree: map<string, int>, queue: seq<string>, inQueue: set<string>, ghost added: seq<string>)
    requires net.Valid() && out == Out(net.edges, id) && id !in done
    requires Counts(net, inDegree0, done, []) && QueuedIffFree(net, inDegree0, inQueue0)
    ensures Counts(net, inDegree, done + {id}, []) && QueuedIffFree(net, inDegree, inQueue)
    ensures queue == queue0 + added && Grown(net, inQueue0, added, inQueue)
  {
    inDegree, queue, inQueue, added := inDegree0, queue0, inQueue0, [];
    VisitBegins(net, id, done, inDegree, inQueue);
    for k := 0 to |out|
      invariant Visiting(net, id, done, inQueue0, k, inDegree, added, inQueue)
      invariant queue == queue0 + added
    {
      var s := out[k].successorId;
      VisitNext(net, id, done, inQueue0, k, inDegree, added, inQueue);
      var next := inDegree[s] - 1;
      inDegree := inDegree[s := next];
      if next == 0 && s !in inQueue {
        inQueue := inQueue + {s};
        queue := queue + [s];
        added := added + [s];
        assert queue == queue0 + added;
      }
    }
    VisitEnds(net, id, done, inQueue0, inDegree, added, inQueue);
  }

  lemma CloseOne(net: Network, inDegree: map<string, int>, id: string, done: set<string>, k: nat)
    requires net.Valid() && id !in done && k < |Out(net.edges, id)|
    requires Counts(net, inDegree, done, Out(net.edges, id)[..k])
    ensures var out := Out(net.edges, id);
            var s := out[k].successorId;
            s in net.ids && s in inDegree && inDegree[s] > 0
            && Counts(net, inDegree[s := inDegree[s] - 1], done, out[..k + 1])
  {
    var out := Out(net.edges, id);
    OutMembers(net.edges, id);
    assert out[k] in out;
    NotYetClosed(net.edges, id, done, k);
    InOneMore(out, k);
  }

  lemma VisitCloses(net: Network, inDegree: map<string, int>, id: string, done: set<string>)
    requires id !in done
    requires Counts(net, inDegree, done, Out(net.edges, id)[..|Out(net.edges, id)|])
    ensures Counts(net, inDegree, done + {id}, [])
  {
    var out := Out(net.edges, id);
    assert out[..|out|] == out;
    forall x ensures Open(net.edges, x, done) == Open(net.edges, x, done + {id}) + |In(out, x)| {
      OpenAfter(net.edges, x, done, id);
    }
  }

  lemma InOneMore(edges: seq<Dependency>, k: nat)
    requires k < |edges|
    ensures forall x :: |In(edges[..k + 1], x)| == |In(edges[..k], x)| + if x == edges[k].successorId then 1 else 0
  {
    assert edges[..k + 1] == edges[..k] + [edges[k]];
    forall x ensures |In(edges[..k + 1], x)| == |In(edges[..k], x)| + if x == edges[k].successorId then 1 else 0 {
      InAppend(edges[..k], edges[k], x);
    }
  }

  /** Midway through a visit, the next dependency to close is still counted. */
  lemma NotYetClosed(edges: seq<Dependency>, id: string, done: set<string>, k: nat)
    requires id !in done && k < |Out(edges, id)|
    ensures var out := Out(edges, id); |In(out[..k], out[k].successorId)| < Open(edges, out[k].successorId, done)
  {
    var out := Out(edges, id);
    OpenAfter(edges, out[k].successorId, done, id);
    InPrefix(out, k + 1, out[k].successorId);
    InOneMore(out, k);
  }

  /** What the loop keeps: the tasks sorted so far and those queued, each after its predecessors. */
  ghost predicate Sorting(net: Network, order: seq<string>, queue: seq<string>, inDegree: map<string, int>, inQueue: set<string>) {
    && Distinct(order + queue) && Elems(order + queue) == inQueue
    && (forall id :: id in inQueue ==> id in net.ids)
    && Counts(net, inDegree, Elems(order), []) && QueuedIffFree(net, inDegree, inQueue)
    && (forall i :: 0 <= i < |order| ==> PredecessorsIn(net.edges, order[i], order[..i]))
  }

  lemma FrontIsNew(net: Network, order: seq<string>, queue: seq<string>, inDegree: map<string, int>, inQueue: set<string>)
    requires Sorting(net, order, queue, inDegree, inQueue) && queue != []
    ensures queue[0] in net.ids && queue[0] !in Elems(order)
    ensures PredecessorsIn(net.edges, queue[0], order)
  {
    var id, all := queue[0], order + queue;
    assert all[|order|] == id && id in all;
    assert forall i :: 0 <= i < |order| ==> all[i] == order[i];
    OpenZeroIff(net.edges, id, Elems(order));
    assert In([], id) == [];
  }

  lemma DistinctAppend(a: seq<string>, b: seq<string>)
    requires Distinct(a) && Distinct(b) && forall x :: x in b ==> x !in a
    ensures Distinct(a + b) && Elems(a + b) == Elems(a) + Elems(b)
  {
    forall i, j | 0 <= i < j < |a + b| ensures (a + b)[i] != (a + b)[j] {
      if i < |a| && |a| <= j {
        assert a[i] in a && b[j - |a|] in b;
      }
    }
  }

  /** Visiting the front of the queue keeps what the loop keeps. */
  lemma SortingAfterVisit(net: Network, order: seq<string>, queue: seq<string>, inDegree: map<string, int>, inQueue: set<string>,
                          inDegree': map<string, int>, added: seq<string>, inQueue': set<string>)
    requires Sorting(net, order, queue, inDegree, inQueue) && queue != []
    requires Counts(net, inDegree', Elems(order) + {queue[0]}, []) && QueuedIffFree(net, inDegree', inQueue')
    requires Grown(net, inQueue, added, inQueue')
    ensures Sorting(net, order + [queue[0]], queue[1..] + added, inDegree', inQueue')
  {
    FrontIsNew(net, order, queue, inDegree, inQueue);
    var longer := order + [queue[0]];
    assert Elems(longer) == Elems(order) + {queue[0]};
    assert longer + (queue[1..] + added) == (order + queue) + added;
    assert forall x :: x in order + queue ==> x in Elems(order + queue);
    DistinctAppend(order + queue, added);
    forall i | 0 <= i < |longer| ensures PredecessorsIn(net.edges, longer[i], longer[..i]) {
      if i < |order| {
        assert longer[..i] == order[..i];
      } else {
        assert longer[..i] == order;
      }
    }
  }

  lemma SortingInitially(net: Network, inDegree: map<string, int>, queue: seq<string>)
    requires net.Valid()
    requires forall id :: id in net.ids ==> id in inDegree && inDegree[id] == |In(net.edges, id)|
    requires Distinct(queue) && forall id :: id in queue <==> id in net.ids && inDegree[id] == 0
    ensures Sorting(net, [], queue, inDegree, Elems(queue))
  {
    assert [] + queue == queue && Elems([]) == {};
    forall id ensures Open(net.edges, id, {}) == |In(net.edges, id)| && In([], id) == [] {
      OpenInitially(net.edges, id);
    }
  }

  /** Kahn's loop, from the tasks nothing precedes. */
  method Sort(net: Network, successorsOf: Adjacent, inDegree0: map<string, int>, queue0: seq<string>)
    returns (order: seq<string>, ghost inDegree: map<string, int>)
    requires net.Valid() && Sorting(net, [], queue0, inDegree0, Elems(queue0))
    requires forall id :: id in net.ids ==> id in successorsOf && successorsOf[id] == Out(net.edges, id)
    ensures Sorting(net, order, [], inDegree, Elems(order))
  {
    var degrees, queue, inQueue := inDegree0, queue0, Elems(queue0);
    order := [];
    while queue != []
      invariant Sorting(net, order, queue, degrees, inQueue)
      decreases Elems(net.ids) - Elems(order)
    {
      var id := queue[0];
      FrontIsNew(net, order, queue, degrees, inQueue);
      ghost var order0, queue0, degrees0, inQueue0 := order, queue, degrees, inQueue;
      order, queue := order + [id], queue[1..];
      ghost var added;
      degrees, queue, inQueue, added := Visit(net, id, successorsOf[id], Elems(order0), degrees, queue, inQueue);
      SortingAfterVisit(net, order0, queue0, degrees0, inQueue0, degrees, added, inQueue);
      assert id in Elems(order);
    }
    inDegree := degrees;
    assert order + [] == order;
  }

  /** Kahn's algorithm; tasks a cycle keeps waiting are appended in input order. */
  method TopologicalOrder(net: Network, predecessorsOf: Adjacent, successorsOf: Adjacent)
    returns (order: seq<string>)
    requires net.Valid()
    requires forall id :: id in net.ids ==> id in predecessorsOf && predecessorsOf[id] == In(net.edges, id)
    requires forall id :: id in net.ids ==> id in successorsOf && successorsOf[id] == Out(net.edges, id)
    ensures Distinct(order) && forall id :: id in order <==> id in net.ids
    ensures Acyclic(net) ==> Topological(net, order)
  {
    var inDegree := map id | id in net.ids :: |predecessorsOf[id]|;
    var queue := FreeTasks(net.ids, inDegree);
    SortingInitially(net, inDegree, queue);
    ghost var left;
    order, left := Sort(net, successorsOf, inDegree, queue);
    order := AppendLeftOver(net, order, left);
  }

  /** Appends what the loop did not reach: nothing, when the dependencies have no cycle. */
  method AppendLeftOver(net: Network, sorted: seq<string>, ghost inDegree: map<string, int>) returns (order: seq<string>)
    requires net.Valid() && Sorting(net, sorted, [], inDegree, Elems(sorted))
    ensures Distinct(order) && forall id :: id in order <==> id in net.ids
    ensures Acyclic(net) ==> Topological(net, order)
  {
    order := sorted;
    assert sorted + [] == sorted;
    assert forall id :: id in sorted ==> id in Elems(sorted);
    for k := 0 to |net.ids|
      invariant sorted <= order && Distinct(order)
      invariant forall id :: id in order ==> id in net.ids
      invariant forall i :: 0 <= i < k ==> net.ids[i] in order
      invariant (forall id :: id in net.ids ==> id in sorted) ==> order == sorted
    {
      if net.ids[k] !in order {
        order := order + [net.ids[k]];
      }
    }
    if Acyclic(net) {
      ghost var proper :| Topological(net, proper);
      StillWaiting(net, sorted, inDegree);
      NothingLeftOver(net, proper, sorted, |proper|);
      assert forall id :: id in net.ids ==> id in proper;
    }
  }

  lemma StillWaiting(net: Network, sorted: seq<string>, inDegree: map<string, int>)
    requires Sorting(net, sorted, [], inDegree, Elems(sorted))
    ensures forall id :: id in net.ids && id !in sorted ==> Open(net.edges, id, Elems(sorted)) > 0
  {
    forall id | id in net.ids && id !in sorted ensures Open(net.edges, id, Elems(sorted)) > 0 {
      assert id !in Elems(sorted);
      assert In([], id) == [];
    }
  }

  function FreeTasks(ids: seq<string>, inDegree: map<string, int>): (free: seq<string>)
    requires Distinct(ids) && forall id :: id in ids ==> id in inDegree
    ensures Distinct(free) && forall id :: id in free <==> id in ids && inDegree[id] == 0
  {
    if ids == [] then [] else
      assert ids == [ids[0]] + ids[1..];
      (if inDegree[ids[0]] == 0 then [ids[0]] else []) + FreeTasks(ids[1..], inDegree)
  }

  // ----- the backward pass -----

  /** `Math.min` of the given numbers: NaN as soon as one of them is. */
  function MathMin(xs: seq<Option<int>>): (r: Option<int>)
    requires xs != []
    ensures r.Some? <==> forall x :: x in xs ==> x.Some?
    ensures r.Some? ==> r in xs && forall x :: x in xs ==> r.value <= x.value
  {
    if |xs| == 1 then xs[0] else
      assert xs == [xs[0]] + xs[1..];
      var rest := MathMin(xs[1..]);
      if xs[0].Some? && rest.Some? then Some(Min(xs[0].value, rest.value)) else None
  }

  /** `get` on a table of late dates: a missing entry is as good as NaN. */
  function Get(dates: Dates, id: string): Option<int> {
    if id in dates then dates[id] else None
  }

  /** One successor's bound; NaN while the successor has no late dates. */
  function BoundOn(net: Network, e: Dependency, ls: Dates, lf: Dates): Option<int> {
    var succLs, succLf := Get(ls, e.successorId), Get(lf, e.successorId);
    if succLs.Some? && succLf.Some?
    then Some(MaxPredecessorFinishOffset(succLs.value, succLf.value, e.kind, e.lagDays, net.Days(e.predecessorId)))
    else None
  }

  function LateStart(net: Network, id: string, finish: Option<int>): Option<int> {
    if finish.Some? then Some(finish.value - net.Days(id)) else None
  }

  ghost predicate StartsMatch(net: Network, ls: Dates, lf: Dates) {
    forall id :: Get(ls, id) == LateStart(net, id, Get(lf, id))
  }

  ghost predicate Settled(lf: Dates, id: string, later: seq<string>) {
    id in later && Get(lf, id).Some?
  }

  /** The finish days a table gives, as a plan. */
  ghost function PlanOf(lf: Dates): Plan {
    id => Get(lf, id).GetOr(0)
  }

  /** What the pass leaves at a task visited after `later`: a number exactly when all its successors were
      visited before and have numbers, and then the backward equation's solution. */
  ghost predicate SolvedAt(net: Network, id: string, later: seq<string>, lf: Dates) {
    && (Get(lf, id).Some? <==> forall e :: net.From(e, id) ==> Settled(lf, e.successorId, later))
    && (Get(lf, id).Some? ==> LatestAt(net, id, PlanOf(lf)))
  }

  ghost predicate PassedFrom(net: Network, order: seq<string>, i: nat, ls: Dates, lf: Dates)
    requires i <= |order|
  {
    && (forall id :: id in order[i..] <==> id in lf)
    && StartsMatch(net, ls, lf)
    && (forall j :: i <= j < |order| ==> SolvedAt(net, order[j], order[j + 1..], lf))
  }

  lemma BoundOnSettled(net: Network, e: Dependency, ls: Dates, lf: Dates)
    requires StartsMatch(net, ls, lf)
    ensures BoundOn(net, e, ls, lf)
            == if Get(lf, e.successorId).Some? then Some(net.Bound(e, PlanOf(lf)(e.successorId))) else None
  {
    assert Get(ls, e.successorId) == LateStart(net, e.successorId, Get(lf, e.successorId));
  }

  /** The bounds of the dependencies out of a task, as `succs.map` computes them. */
  function Bounds(net: Network, succs: seq<Dependency>, ls: Dates, lf: Dates): (bounds: seq<Option<int>>)
    ensures |bounds| == |succs|
  {
    seq(|succs|, k requires 0 <= k < |succs| => BoundOn(net, succs[k], ls, lf))
  }

  /** The late finish the pass computes at a task. */
  function LateFinish(net: Network, succs: seq<Dependency>, ls: Dates, lf: Dates): Option<int> {
    if |succs| == 0 then Some(net.finish) else MathMin(Bounds(net, succs, ls, lf))
  }

  /** That late finish is a number when all bounds are, and then one of the bounds and no more than any. */
  lemma LateFinishSolves(net: Network, id: string, ls: Dates, lf: Dates, v: Option<int>)
    requires StartsMatch(net, ls, lf) && v == LateFinish(net, Out(net.edges, id), ls, lf)
    ensures v.Some? <==> forall e :: net.From(e, id) ==> Get(lf, e.successorId).Some?
    ensures v.Some? ==> if net.Leaf(id) then v.value == net.finish
                        else (forall e :: net.From(e, id) ==> v.value <= net.Bound(e, PlanOf(lf)(e.successorId)))
                             && exists e :: net.From(e, id) && v.value == net.Bound(e, PlanOf(lf)(e.successorId))
  {
    var succs := Out(net.edges, id);
    OutMembers(net.edges, id);
    forall e ensures net.From(e, id) <==> e in succs {
    }
    if succs != [] {
      assert net.From(succs[0], id) && !net.Leaf(id);
      var bounds := Bounds(net, succs, ls, lf);
      forall e | net.From(e, id)
        ensures v.Some? ==> Get(lf, e.successorId).Some? && v.value <= net.Bound(e, PlanOf(lf)(e.successorId))
      {
        var k :| 0 <= k < |succs| && succs[k] == e;
        assert bounds[k] in bounds;
        BoundOnSettled(net, e, ls, lf);
      }
      if v.Some? {
        var k :| 0 <= k < |bounds| && bounds[k] == v;
        BoundOnSettled(net, succs[k], ls, lf);
        assert net.From(succs[k], id);
      } else {
        var b :| b in bounds && b.None?;
        var k :| 0 <= k < |bounds| && bounds[k] == b;
        BoundOnSettled(net, succs[k], ls, lf);
        assert net.From(succs[k], id);
      }
    }
  }

  /** Plans that agree on a task and on its successors satisfy its equation together. */
  lemma LatestAtStays(net: Network, id: string, p: Plan, q: Plan)
    requires LatestAt(net, id, p) && p(id) == q(id)
    requires forall e :: net.From(e, id) ==> p(e.successorId) == q(e.successorId)
    ensures LatestAt(net, id, q)
  {
    if !net.Leaf(id) {
      var e := DrivingEdge(net, p, id);
      assert net.From(e, id) && q(id) == net.Bound(e, q(e.successorId));
    }
  }

  /** Entering a further task leaves what was solved before it solved. */
  lemma SolvedStays(net: Network, id: string, later: seq<string>, lf: Dates, x: string, v: Option<int>)
    requires SolvedAt(net, id, later, lf) && x != id && x !in later
    ensures SolvedAt(net, id, later, lf[x := v])
  {
    forall e ensures Settled(lf, e, later) <==> Settled(lf[x := v], e, later) {
    }
    if Get(lf, id).Some? {
      forall e | net.From(e, id) ensures PlanOf(lf)(e.successorId) == PlanOf(lf[x := v])(e.successorId) {
        assert Settled(lf, e.successorId, later);
      }
      LatestAtStays(net, id, PlanOf(lf), PlanOf(lf[x := v]));
    }
  }

  /** The value the pass enters for a task solves its equation. */
  lemma SolvesHere(net: Network, id: string, later: seq<string>, ls: Dates, lf: Dates, v: Option<int>)
    requires id !in later && forall x :: x in later <==> x in lf
    requires StartsMatch(net, ls, lf) && v == LateFinish(net, Out(net.edges, id), ls, lf)
    ensures SolvedAt(net, id, later, lf[id := v])
  {
    var lf' := lf[id := v];
    LateFinishSolves(net, id, ls, lf, v);
    forall e | net.From(e, id)
      ensures Get(lf, e.successorId).Some? ==> PlanOf(lf')(e.successorId) == PlanOf(lf)(e.successorId)
      ensures Get(lf, e.successorId).Some? <==> Settled(lf', e.successorId, later)
    {
    }
    if v.Some? {
      if net.Leaf(id) {
        assert LatestAt(net, id, PlanOf(lf'));
      } else {
        var e :| net.From(e, id) && v.value == net.Bound(e, PlanOf(lf)(e.successorId));
        assert net.From(e, id) && PlanOf(lf')(id) == net.Bound(e, PlanOf(lf')(e.successorId));
      }
    }
  }

  lemma SolvedLater(net: Network, order: seq<string>, i: nat, j: nat, lf: Dates, v: Option<int>)
    requires Distinct(order) && i < j < |order| && SolvedAt(net, order[j], order[j + 1..], lf)
    ensures SolvedAt(net, order[j], order[j + 1..], lf[order[i] := v])
  {
    SolvedStays(net, order[j], order[j + 1..], lf, order[i], v);
  }

  lemma NotLater(order: seq<string>, i: nat)
    requires Distinct(order) && i < |order|
    ensures order[i] !in order[i + 1..] && order[i..] == [order[i]] + order[i + 1..]
  {
    var later := order[i + 1..];
    assert forall j :: 0 <= j < |later| ==> later[j] == order[i + 1 + j];
  }

  lemma StartsStillMatch(net: Network, ls: Dates, lf: Dates, id: string, v: Option<int>)
    requires StartsMatch(net, ls, lf)
    ensures StartsMatch(net, ls[id := LateStart(net, id, v)], lf[id := v])
  {
    var ls', lf' := ls[id := LateStart(net, id, v)], lf[id := v];
    forall x ensures Get(ls', x) == LateStart(net, x, Get(lf', x)) {
      assert Get(ls, x) == LateStart(net, x, Get(lf, x));
    }
  }

  lemma PassOne(net: Network, order: seq<string>, i: nat, ls: Dates, lf: Dates, v: Option<int>)
    requires Distinct(order) && i < |order| && PassedFrom(net, order, i + 1, ls, lf)
    requires v == LateFinish(net, Out(net.edges, order[i]), ls, lf)
    ensures PassedFrom(net, order, i, ls[order[i] := LateStart(net, order[i], v)], lf[order[i] := v])
  {
    var id, later := order[i], order[i + 1..];
    NotLater(order, i);
    SolvesHere(net, id, later, ls, lf, v);
    forall j | i < j < |order| ensures SolvedAt(net, order[j], order[j + 1..], lf[id := v]) {
      SolvedLater(net, order, i, j, lf, v);
    }
    StartsStillMatch(net, ls, lf, id, v);
  }

  /** Late starts and finishes, visiting the order backwards. */
  method BackwardPass(net: Network, order: seq<string>, successorsOf: Adjacent)
    returns (ls: Dates, lf: Dates)
    requires Distinct(order) && forall id :: id in order <==> id in net.ids
    requires forall id :: id in net.ids ==> id in successorsOf && successorsOf[id] == Out(net.edges, id)
    ensures PassedFrom(net, order, 0, ls, lf)
  {
    ls, lf := map[], map[];
    for i := |order| downto 0
      invariant PassedFrom(net, order, i, ls, lf)
    {
      var id := order[i];
      assert id in order;
      var succs := successorsOf[id];
      var finish := LateFinish(net, succs, ls, lf);
      PassOne(net, order, i, ls, lf, finish);
      lf := lf[id := finish];
      ls := ls[id := LateStart(net, id, finish)];
    }
  }

  ghost predicate AllNumbers(net: Network, lf: Dates) {
    forall id :: id in net.ids ==> Get(lf, id).Some?
  }

  /** Numbers everywhere mean that every successor was visited first: the order was topological. */
  lemma NumbersMeanTopological(net: Network, order: seq<string>, ls: Dates, lf: Dates)
    requires net.Valid() && Distinct(order) && (forall id :: id in order <==> id in net.ids)
    requires PassedFrom(net, order, 0, ls, lf) && AllNumbers(net, lf)
    ensures Topological(net, order) && Latest(net, PlanOf(lf))
  {
    forall i, e | 0 <= i < |order| && e in net.edges && e.successorId == order[i] ensures e.predecessorId in order[..i] {
      var j := IndexOf(order, e.predecessorId);
      assert SolvedAt(net, order[j], order[j + 1..], lf) && net.From(e, order[j]);
      assert Settled(lf, order[i], order[j + 1..]);
      var m := IndexOf(order[j + 1..], order[i]);
      assert order[j + 1 + m] == order[i];
    }
    forall i | 0 <= i < |order| ensures PredecessorsIn(net.edges, order[i], order[..i]) {
    }
    forall id | id in net.ids ensures LatestAt(net, id, PlanOf(lf)) {
      var j := IndexOf(order, id);
      assert SolvedAt(net, order[j], order[j + 1..], lf);
    }
  }

  lemma IndexOf(order: seq<string>, id: string) returns (j: nat)
    requires id in order
    ensures j < |order| && order[j] == id
  {
    j :| 0 <= j < |order| && order[j] == id;
  }

  lemma SettledNext(net: Network, order: seq<string>, ls: Dates, lf: Dates, i: nat)
    requires net.Valid() && Topological(net, order) && PassedFrom(net, order, 0, ls, lf) && i < |order|
    requires forall j :: i < j < |order| ==> Get(lf, order[j]).Some?
    ensures Get(lf, order[i]).Some?
  {
    forall e | net.From(e, order[i]) ensures Settled(lf, e.successorId, order[i + 1..]) {
      var j := SuccessorLater(net, order, e, i);
      assert order[i + 1..][j - i - 1] == order[j];
    }
    assert SolvedAt(net, order[i], order[i + 1..], lf);
  }

  /** Along a topological order every task gets a number. */
  lemma {:induction false} TopologicalMeansNumbers(net: Network, order: seq<string>, ls: Dates, lf: Dates, i: nat)
    requires net.Valid() && Topological(net, order) && PassedFrom(net, order, 0, ls, lf) && i <= |order|
    ensures forall j :: i <= j < |order| ==> Get(lf, order[j]).Some?
    decreases |order| - i
  {
    if i < |order| {
      TopologicalMeansNumbers(net, order, ls, lf, i + 1);
      SettledNext(net, order, ls, lf, i);
    }
  }

  // ----- the whole computation -----

  function Ids(tasks: seq<Task>): (ids: seq<string>)
    ensures |ids| == |tasks| && forall i :: 0 <= i < |tasks| ==> ids[i] == tasks[i].id
  {
    seq(|tasks|, i requires 0 <= i < |tasks| => tasks[i].id)
  }

  function KnownEdges(dependencies: seq<Dependency>, ids: seq<string>): seq<Dependency> {
    if dependencies == [] then [] else
      (if dependencies[0].predecessorId in ids && dependencies[0].successorId in ids then [dependencies[0]] else [])
      + KnownEdges(dependencies[1..], ids)
  }

  lemma {:induction false} KnownEdgesMembers(dependencies: seq<Dependency>, ids: seq<string>)
    ensures forall e :: e in KnownEdges(dependencies, ids)
                        <==> e in dependencies && e.predecessorId in ids && e.successorId in ids
  {
    if dependencies != [] {
      KnownEdgesMembers(dependencies[1..], ids);
      assert dependencies == [dependencies[0]] + dependencies[1..];
    }
  }

  lemma {:induction false} KnownEdgesAll(dependencies: seq<Dependency>, ids: seq<string>)
    requires forall e :: e in dependencies ==> e.predecessorId in ids && e.successorId in ids
    ensures KnownEdges(dependencies, ids) == dependencies
  {
    if dependencies != [] {
      assert dependencies == [dependencies[0]] + dependencies[1..];
      KnownEdgesAll(dependencies[1..], ids);
    }
  }

  /** The earliest start among the tasks. */
  function Epoch(tasks: seq<Task>): (epoch: int)
    requires tasks != []
    ensures forall t :: t in tasks ==> epoch <= t.startDate
    ensures exists t :: t in tasks && epoch == t.startDate
  {
    if |tasks| == 1 then
      assert tasks[0] in tasks;
      tasks[0].startDate
    else
      assert tasks == [tasks[0]] + tasks[1..];
      Min(tasks[0].startDate, Epoch(tasks[1..]))
  }

  /** The latest early finish, in days from the epoch. */
  function ProjectFinish(tasks: seq<Task>, epoch: int): (finish: int)
    requires tasks != []
    ensures forall t :: t in tasks ==> DiffDays(epoch, t.dueDate) <= finish
    ensures exists t :: t in tasks && finish == DiffDays(epoch, t.dueDate)
  {
    if |tasks| == 1 then
      assert tasks[0] in tasks;
      DiffDays(epoch, tasks[0].dueDate)
    else
      assert tasks == [tasks[0]] + tasks[1..];
      Max(DiffDays(epoch, tasks[0].dueDate), ProjectFinish(tasks[1..], epoch))
  }

  lemma IdsApart(tasks: seq<Task>)
    requires Distinct(Ids(tasks))
    ensures forall t, u :: t in tasks && u in tasks && t.id == u.id ==> t == u
    ensures forall id :: id in Ids(tasks) <==> exists t :: t in tasks && t.id == id
  {
    forall t, u | t in tasks && u in tasks && t.id == u.id ensures t == u {
      var i :| 0 <= i < |tasks| && tasks[i] == t;
      var j :| 0 <= j < |tasks| && tasks[j] == u;
      assert Ids(tasks)[i] == Ids(tasks)[j];
    }
    forall id ensures id in Ids(tasks) <==> exists t :: t in tasks && t.id == id {
      if t :| t in tasks && t.id == id {
        var i :| 0 <= i < |tasks| && tasks[i] == t;
        assert Ids(tasks)[i] == id;
      }
      if id in Ids(tasks) {
        var i := IndexOf(Ids(tasks), id);
        assert tasks[i] in tasks;
      }
    }
  }

  function Durations(tasks: seq<Task>): (durations: map<string, int>)
    requires Distinct(Ids(tasks))
    ensures forall id :: id in durations <==> id in Ids(tasks)
    ensures forall i :: 0 <= i < |tasks| ==> durations[tasks[i].id] == Duration(tasks[i])
  {
    IdsApart(tasks);
    map t | t in tasks :: t.id := Duration(t)
  }

  function NetworkOf(tasks: seq<Task>, dependencies: seq<Dependency>): Network
    requires tasks != [] && Distinct(Ids(tasks))
  {
    Network(Ids(tasks), Durations(tasks), KnownEdges(dependencies, Ids(tasks)), ProjectFinish(tasks, Epoch(tasks)))
  }

  lemma NetworkValid(tasks: seq<Task>, dependencies: seq<Dependency>)
    requires tasks != [] && Distinct(Ids(tasks))
    ensures NetworkOf(tasks, dependencies).Valid()
  {
    KnownEdgesMembers(dependencies, Ids(tasks));
  }

  /** A task's row, from its own dates and its late ones. */
  function ResultFor(t: Task, epoch: int, lateStart: Option<int>, lateFinish: Option<int>): Result {
    var es := DiffDays(epoch, t.startDate);
    var slack := if lateStart.Some? then Some(lateStart.value - es) else None;
    Result(t.id, AddDays(epoch, es), AddDays(epoch, DiffDays(epoch, t.dueDate)),
           if lateStart.Some? then Some(AddDays(epoch, lateStart.value)) else None,
           if lateFinish.Some? then Some(AddDays(epoch, lateFinish.value)) else None,
           slack, slack.Some? && slack.value <= 0)
  }

  function Rows(tasks: seq<Task>, epoch: int, ls: Dates, lf: Dates): (rows: seq<Result>)
    ensures |rows| == |tasks|
    ensures forall i :: 0 <= i < |tasks| ==> rows[i] == ResultFor(tasks[i], epoch, Get(ls, tasks[i].id), Get(lf, tasks[i].id))
  {
    seq(|tasks|, i requires 0 <= i < |tasks| => ResultFor(tasks[i], epoch, Get(ls, tasks[i].id), Get(lf, tasks[i].id)))
  }

  /** The late dates are numbers exactly when the dependencies have no cycle, and then they solve the backward
      equations. */
  method LateDates(net: Network) returns (ls: Dates, lf: Dates)
    requires net.Valid()
    ensures StartsMatch(net, ls, lf)
    ensures AllNumbers(net, lf) <==> Acyclic(net)
    ensures Acyclic(net) ==> Latest(net, PlanOf(lf))
  {
    var predecessorsOf, successorsOf := Adjacency(net.ids, net.edges);
    var order := TopologicalOrder(net, predecessorsOf, successorsOf);
    ls, lf := BackwardPass(net, order, successorsOf);
    NumbersIffAcyclic(net, order, ls, lf);
  }

  /** One row per task, in input order, from the late dates of the tasks' network. */
  method ComputeCriticalPath(tasks: seq<Task>, dependencies: seq<Dependency>)
    returns (results: seq<Result>, ghost ls: Dates, ghost lf: Dates)
    requires Distinct(Ids(tasks))
    ensures |results| == |tasks|
    ensures forall i :: 0 <= i < |tasks| ==>
              results[i] == ResultFor(tasks[i], Epoch(tasks), Get(ls, tasks[i].id), Get(lf, tasks[i].id))
    ensures tasks != [] ==>
              var net := NetworkOf(tasks, dependencies);
              StartsMatch(net, ls, lf) && (AllNumbers(net, lf) <==> Acyclic(net)) && (Acyclic(net) ==> Latest(net, PlanOf(lf)))
    ensures forall i :: 0 <= i < |tasks| ==> RowDates(results[i], tasks[i], Epoch(tasks), Get(lf, tasks[i].id))
  {
    if |tasks| == 0 {
      return [], map[], map[];
    }
    NetworkValid(tasks, dependencies);
    var lateStarts, lateFinishes := LateDates(NetworkOf(tasks, dependencies));
    ls, lf := lateStarts, lateFinishes;
    results := Rows(tasks, Epoch(tasks), lateStarts, lateFinishes);
    forall i | 0 <= i < |tasks| ensures RowDates(results[i], tasks[i], Epoch(tasks), Get(lf, tasks[i].id)) {
      DurationsOf(tasks, dependencies, tasks[i]);
      RowHasDates(NetworkOf(tasks, dependencies), tasks[i], Epoch(tasks), ls, lf);
    }
  }

  lemma NumbersIffAcyclic(net: Network, order: seq<string>, ls: Dates, lf: Dates)
    requires net.Valid() && Distinct(order) && (forall id :: id in order <==> id in net.ids)
    requires PassedFrom(net, order, 0, ls, lf) && (Acyclic(net) ==> Topological(net, order))
    ensures AllNumbers(net, lf) <==> Acyclic(net)
    ensures Acyclic(net) ==> Latest(net, PlanOf(lf))
  {
    if Acyclic(net) {
      TopologicalMeansNumbers(net, order, ls, lf, 0);
      forall id | id in net.ids ensures Get(lf, id).Some? {
        var j := IndexOf(order, id);
      }
    }
    if AllNumbers(net, lf) {
      NumbersMeanTopological(net, order, ls, lf);
    }
  }

  lemma DurationsOf(tasks: seq<Task>, dependencies: seq<Dependency>, t: Task)
    requires Distinct(Ids(tasks)) && t in tasks
    ensures NetworkOf(tasks, dependencies).Days(t.id) == Duration(t)
  {
    var i :| 0 <= i < |tasks| && tasks[i] == t;
    assert Ids(tasks)[i] == t.id;
  }

  // ----- the dates of a row -----

  /** Offsets are the nearest whole number of days. */
  lemma DiffDaysNearest(from: int, to: int)
    ensures -DAY_MS <= 2 * (to - from - DiffDays(from, to) * DAY_MS) < DAY_MS
  {
  }

  /** A duration is the nearest whole number of days between the task's dates, and at least one. */
  lemma DurationNearest(t: Task)
    ensures 1 <= Duration(t)
    ensures DAY_MS <= 2 * (t.dueDate - t.startDate) ==>
              -DAY_MS <= 2 * (t.dueDate - t.startDate - Duration(t) * DAY_MS) < DAY_MS
    ensures 2 * (t.dueDate - t.startDate) < DAY_MS ==> Duration(t) == 1
  {
    DiffDaysNearest(t.startDate, t.dueDate);
  }

  /** A date within half a day of another, whole days from the epoch. */
  ghost predicate Snapped(epoch: int, date: int, snapped: int) {
    -DAY_MS <= 2 * (date - snapped) < DAY_MS && (snapped - epoch) % DAY_MS == 0
  }

  /** The row of a task with the late finish `day`, field by field. */
  ghost predicate RowDates(row: Result, t: Task, epoch: int, day: Option<int>) {
    && row.id == t.id
    && Snapped(epoch, t.startDate, row.earlyStart) && Snapped(epoch, t.dueDate, row.earlyFinish)
    && (day.None? ==> row.lateStart.None? && row.lateFinish.None? && row.slackDays.None? && !row.critical)
    && (day.Some? ==> && row.lateStart.Some? && row.lateFinish.Some? && row.slackDays.Some?
                      && row.lateFinish.value - epoch == day.value * DAY_MS
                      && row.lateFinish.value - row.lateStart.value == Duration(t) * DAY_MS
                      && row.lateStart.value - row.earlyStart == row.slackDays.value * DAY_MS
                      && row.critical == (row.lateStart.value <= row.earlyStart))
  }

  lemma SnappedByDays(epoch: int, date: int)
    ensures Snapped(epoch, date, AddDays(epoch, DiffDays(epoch, date)))
  {
    DiffDaysNearest(epoch, date);
    WholeDays(DiffDays(epoch, date));
  }

  lemma WholeDays(days: int)
    ensures days * DAY_MS % DAY_MS == 0
  {
  }

  lemma RowOfDates(t: Task, epoch: int, finish: Option<int>)
    ensures RowDates(ResultFor(t, epoch, if finish.Some? then Some(finish.value - Duration(t)) else None, finish), t, epoch, finish)
  {
    SnappedByDays(epoch, t.startDate);
    SnappedByDays(epoch, t.dueDate);
  }

  /** A row holds its task's id, the task's own dates snapped to whole days from the epoch, and the solved late finish
      with the late start one duration before it; the slack is the days from early to late start, and the flag says
      that there are none. */
  lemma RowHasDates(net: Network, t: Task, epoch: int, ls: Dates, lf: Dates)
    requires StartsMatch(net, ls, lf) && net.Days(t.id) == Duration(t)
    ensures RowDates(ResultFor(t, epoch, Get(ls, t.id), Get(lf, t.id)), t, epoch, Get(lf, t.id))
  {
    RowOfDates(t, epoch, Get(lf, t.id));
  }
}
