/** The field task list's optimistic status changes: each tap shows the next status at once, keeps the list from
    before, and puts that list back if the server rejects the change. */
module TaskAdvance {
  import opened Common

  datatype Status = Planned | InProgress | Done

  datatype Task = Task(id: string, name: string, status: Status)

  /** A submission under way, numbered in the order of the taps, with the list its tap found. */
  datatype Submission = Submission(serial: nat, previous: seq<Task>)

  /** A tap's request, setting a task's status outright, and its outcome so far: it stands unless the server has
      rejected it. */
  datatype Tap = Tap(taskId: string, sent: Status, stands: bool)

  datatype State = State(tasks: seq<Task>, cache: seq<Task>, pending: seq<Submission>, failed: bool, taps: seq<Tap>)

  datatype Event = Tapped(task: Task) | Settled(which: nat, rejected: bool)

  function Next(s: Status): Status {
    match s
    case Planned => InProgress
    case InProgress => Done
    case Done => Planned
  }

  function WithStatus(tasks: seq<Task>, id: string, status: Status): (updated: seq<Task>)
    ensures |updated| == |tasks|
    ensures forall i :: 0 <= i < |tasks| ==> updated[i] == if tasks[i].id == id then tasks[i].(status := status) else tasks[i]
  {
    seq(|tasks|, i requires 0 <= i < |tasks| => if tasks[i].id == id then tasks[i].(status := status) else tasks[i])
  }

  function Loaded(tasks: seq<Task>): State {
    State(tasks, tasks, [], false, [])
  }

  function Step(s: State, e: Event): State {
    match e
    case Tapped(task) =>
      var updated := WithStatus(s.tasks, task.id, Next(task.status));
      State(updated, updated, s.pending + [Submission(|s.taps|, s.tasks)], false, s.taps + [Tap(task.id, Next(task.status), true)])
    case Settled(which, rejected) =>
      if which >= |s.pending| then s
      else
        var sub := s.pending[which];
        var rest := Without(s.pending, which);
        if !rejected || sub.serial >= |s.taps| then s.(pending := rest)
        else State(sub.previous, sub.previous, rest, true, s.taps[sub.serial := s.taps[sub.serial].(stands := false)])
  }

  function Run(initial: seq<Task>, events: seq<Event>): State {
    if events == [] then Loaded(initial) else Step(Run(initial, events[..|events| - 1]), events[|events| - 1])
  }

  /** The tab as the component updates it; `advance` runs up to its await in Advance and from there in Settle. */
  class TasksTab {
    var tasks: seq<Task>
    var cache: seq<Task>
    var actionError: bool
    var pending: seq<Submission>
    var taps: seq<Tap>

    ghost function Now(): State
      reads this
    {
      State(tasks, cache, pending, actionError, taps)
    }

    constructor (initial: seq<Task>)
      ensures Now() == Loaded(initial)
    {
      tasks, cache, actionError, pending, taps := initial, initial, false, [], [];
    }

    method Advance(task: Task)
      modifies this
      ensures Now() == Step(old(Now()), Tapped(task))
    {
      var next := Next(task.status);
      var previous := tasks;
      var updated := WithStatus(previous, task.id, next);
      tasks := updated;
      cache := updated;
      actionError := false;
      pending := pending + [Submission(|taps|, previous)];
      taps := taps + [Tap(task.id, next, true)];
    }

    method Settle(which: nat, rejected: bool)
      requires which < |pending| && pending[which].serial < |taps|
      modifies this
      ensures Now() == Step(old(Now()), Settled(which, rejected))
    {
      var sub := pending[which];
      pending := Without(pending, which);
      if rejected {
        tasks := sub.previous;
        cache := sub.previous;
        actionError := true;
        taps := taps[sub.serial := taps[sub.serial].(stands := false)];
      }
    }
  }

  // ----- under any overlap -----

  /** The same tasks, by id and name, in the same order. */
  ghost predicate SameShape(a: seq<Task>, b: seq<Task>) {
    |a| == |b| && forall i :: 0 <= i < |a| ==> a[i].id == b[i].id && a[i].name == b[i].name
  }

  /** However taps and outcomes overlap, ids, names and order never change, on screen, in the cache or in any list kept
      for rolling back; and the cache holds what the screen shows. */
  lemma {:induction false} ShapeKept(initial: seq<Task>, events: seq<Event>)
    ensures var s := Run(initial, events);
            SameShape(initial, s.tasks) && s.cache == s.tasks
            && (forall p :: p in s.pending ==> SameShape(initial, p.previous) && p.serial < |s.taps|)
  {
    if events != [] {
      ShapeKept(initial, events[..|events| - 1]);
    }
  }

  const STATUS_ORDER := [Planned, InProgress, Done]

  /** The next status is the one behind in the order, after the last the first. */
  lemma NextInOrder(i: nat)
    requires i < |STATUS_ORDER|
    ensures Next(STATUS_ORDER[i]) == STATUS_ORDER[(i + 1) % |STATUS_ORDER|]
  {
  }

  /** A rejection is reported until the next tap. */
  ghost predicate ErrorDue(initial: seq<Task>, events: seq<Event>) {
    events != [] &&
    var front := events[..|events| - 1];
    match events[|events| - 1]
    case Tapped(_) => false
    case Settled(which, rejected) => (rejected && which < |Run(initial, front).pending|) || ErrorDue(initial, front)
  }

  lemma {:induction false} ErrorShown(initial: seq<Task>, events: seq<Event>)
    ensures Run(initial, events).failed <==> ErrorDue(initial, events)
  {
    if events != [] {
      var front := events[..|events| - 1];
      ErrorShown(initial, front);
      ShapeKept(initial, front);
    }
  }

  // ----- what should be showing -----

  function Moved(s: Status, times: nat): Status {
    if times == 0 then s else Next(Moved(s, times - 1))
  }

  /** Three moves come back to the start. */
  lemma {:induction false} MovedCycles(s: Status, times: nat)
    ensures Moved(s, times) == Moved(s, times % 3)
    ensures Moved(s, times) == s <==> times % 3 == 0
  {
    if times > 0 {
      MovedCycles(s, times - 1);
    }
  }

  function Count(ids: seq<string>, id: string): nat {
    if ids == [] then 0 else Count(ids[..|ids| - 1], id) + if ids[|ids| - 1] == id then 1 else 0
  }

  /** Every task's status moved on once for each of the ids that names it. */
  function Advanced(tasks: seq<Task>, ids: seq<string>): (advanced: seq<Task>)
    ensures |advanced| == |tasks|
    ensures forall i :: 0 <= i < |tasks| ==> advanced[i] == tasks[i].(status := Moved(tasks[i].status, Count(ids, tasks[i].id)))
  {
    seq(|tasks|, i requires 0 <= i < |tasks| => tasks[i].(status := Moved(tasks[i].status, Count(ids, tasks[i].id))))
  }

  /** The taps the server accepted, queued or has not answered yet. */
  function Standing(taps: seq<Tap>): seq<string> {
    if taps == [] then [] else
      var last := taps[|taps| - 1];
      Standing(taps[..|taps| - 1]) + if last.stands then [last.taskId] else []
  }

  /** What the last standing tap on a task asked the server to set. */
  function LastSent(taps: seq<Tap>, id: string): Option<Status> {
    if taps == [] then None else
      var last := taps[|taps| - 1];
      if last.stands && last.taskId == id then Some(last.sent) else LastSent(taps[..|taps| - 1], id)
  }

  /** The list as the server has it once every standing request has reached it in the order of the taps. */
  function ServerView(initial: seq<Task>, taps: seq<Tap>): (view: seq<Task>)
    ensures |view| == |initial|
    ensures forall i :: 0 <= i < |initial| ==>
              view[i] == initial[i].(status := LastSent(taps, initial[i].id).GetOr(initial[i].status))
  {
    seq(|initial|, i requires 0 <= i < |initial| =>
                     initial[i].(status := LastSent(taps, initial[i].id).GetOr(initial[i].status)))
  }

  function Ids(tasks: seq<Task>): (ids: seq<string>)
    ensures |ids| == |tasks| && forall i :: 0 <= i < |tasks| ==> ids[i] == tasks[i].id
  {
    seq(|tasks|, i requires 0 <= i < |tasks| => tasks[i].id)
  }

  /** A tap is on a row of the list then showing. */
  ghost predicate OnScreen(s: State, e: Event) {
    e.Tapped? ==> e.task in s.tasks
  }

  /** A rejection comes when no later tap stands any more. */
  ghost predicate LastStanding(s: State, e: Event) {
    e.Settled? && e.rejected && e.which < |s.pending| ==>
      forall n :: s.pending[e.which].serial < n < |s.taps| ==> !s.taps[n].stands
  }

  ghost predicate Orderly(initial: seq<Task>, events: seq<Event>) {
    events == [] ||
    var front := events[..|events| - 1];
    var s, e := Run(initial, front), events[|events| - 1];
    Orderly(initial, front) && OnScreen(s, e) && LastStanding(s, e)
  }

  /** No tap while another submission is under way. */
  ghost predicate OneAtATime(initial: seq<Task>, events: seq<Event>) {
    events == [] ||
    var front := events[..|events| - 1];
    var s, e := Run(initial, front), events[|events| - 1];
    OneAtATime(initial, front) && OnScreen(s, e) && (e.Tapped? ==> s.pending == [])
  }

  /** The screen shows the server's view, and each kept list the view of the taps before its own. */
  ghost predicate Faithful(initial: seq<Task>, s: State) {
    && s.tasks == ServerView(initial, s.taps)
    && forall p :: p in s.pending ==> p.serial < |s.taps| && s.taps[p.serial].stands
                                      && p.previous == ServerView(initial, s.taps[..p.serial])
  }

  /** The same, counting: every list is the initial one moved on once for each tap standing. */
  ghost predicate Counted(initial: seq<Task>, s: State) {
    && s.tasks == Advanced(initial, Standing(s.taps))
    && forall p :: p in s.pending ==> p.serial < |s.taps| && s.taps[p.serial].stands
                                      && p.previous == Advanced(initial, Standing(s.taps[..p.serial]))
  }

  /** Submissions are kept in the order of their taps. */
  ghost predicate InTapOrder(pending: seq<Submission>, taps: nat) {
    && (forall p :: p in pending ==> p.serial < taps)
    && (forall i, j :: 0 <= i < j < |pending| ==> pending[i].serial < pending[j].serial)
  }

  lemma OneMoreInOrder(pending: seq<Submission>, taps: nat, previous: seq<Task>)
    requires InTapOrder(pending, taps)
    ensures InTapOrder(pending + [Submission(taps, previous)], taps + 1)
  {
    var more := pending + [Submission(taps, previous)];
    forall i, j | 0 <= i < j < |more| ensures more[i].serial < more[j].serial {
      assert more[i] == pending[i] && pending[i] in pending;
    }
  }

  lemma OneLessInOrder(pending: seq<Submission>, taps: nat, which: nat)
    requires InTapOrder(pending, taps) && which < |pending|
    ensures InTapOrder(Without(pending, which), taps)
  {
    var rest := Without(pending, which);
    forall p | p in rest ensures p.serial < taps {
      var i :| 0 <= i < |rest| && rest[i] == p;
      assert pending[if i < which then i else i + 1] in pending;
    }
  }

  lemma StepSerials(s: State, e: Event)
    requires InTapOrder(s.pending, |s.taps|)
    ensures InTapOrder(Step(s, e).pending, |Step(s, e).taps|)
  {
    match e
    case Tapped(_) => OneMoreInOrder(s.pending, |s.taps|, s.tasks);
    case Settled(which, _) =>
      if which < |s.pending| {
        OneLessInOrder(s.pending, |s.taps|, which);
      }
  }

  lemma {:induction false} SerialsInOrder(initial: seq<Task>, events: seq<Event>)
    ensures InTapOrder(Run(initial, events).pending, |Run(initial, events).taps|)
  {
    if events != [] {
      SerialsInOrder(initial, events[..|events| - 1]);
      StepSerials(Run(initial, events[..|events| - 1]), events[|events| - 1]);
    }
  }

  lemma CountOneMore(ids: seq<string>, id: string, s: Status, x: string)
    ensures Moved(s, Count(ids + [id], x)) == if x == id then Next(Moved(s, Count(ids, x))) else Moved(s, Count(ids, x))
  {
    assert (ids + [id])[..|ids|] == ids;
  }

  lemma TapAdvances(initial: seq<Task>, ids: seq<string>, task: Task)
    requires Distinct(Ids(initial)) && task in Advanced(initial, ids)
    ensures WithStatus(Advanced(initial, ids), task.id, Next(task.status)) == Advanced(initial, ids + [task.id])
  {
    var shown, next := Advanced(initial, ids), Advanced(initial, ids + [task.id]);
    var k :| 0 <= k < |shown| && shown[k] == task;
    var updated := WithStatus(shown, task.id, Next(task.status));
    forall i | 0 <= i < |initial| ensures updated[i] == next[i] {
      CountOneMore(ids, task.id, initial[i].status, initial[i].id);
      assert Ids(initial)[i] == shown[i].id && Ids(initial)[k] == shown[k].id;
      assert initial[i].id == task.id ==> i == k;
    }
  }

  lemma {:induction false} StandingConcat(a: seq<Tap>, b: seq<Tap>)
    ensures Standing(a + b) == Standing(a) + Standing(b)
  {
    if b == [] {
      assert a + b == a;
    } else {
      assert (a + b)[..|a + b| - 1] == a + b[..|b| - 1];
      StandingConcat(a, b[..|b| - 1]);
    }
  }

  lemma {:induction false} NoneStanding(taps: seq<Tap>)
    requires forall t :: t in taps ==> !t.stands
    ensures Standing(taps) == []
  {
    if taps != [] {
      NoneStanding(taps[..|taps| - 1]);
    }
  }

  /** The standing taps around one of them, and without it. */
  lemma StandingAround(taps: seq<Tap>, n: nat)
    requires n < |taps| && taps[n].stands
    ensures Standing(taps) == Standing(taps[..n]) + [taps[n].taskId] + Standing(taps[n + 1..])
    ensures Standing(taps[n := taps[n].(stands := false)]) == Standing(taps[..n]) + Standing(taps[n + 1..])
  {
    var off := taps[n].(stands := false);
    assert taps == taps[..n] + [taps[n]] + taps[n + 1..];
    assert taps[n := off] == taps[..n] + [off] + taps[n + 1..];
    StandingConcat(taps[..n] + [taps[n]], taps[n + 1..]);
    StandingConcat(taps[..n], [taps[n]]);
    StandingConcat(taps[..n] + [off], taps[n + 1..]);
    StandingConcat(taps[..n], [off]);
    assert [off][..0] == [] && [taps[n]][..0] == [];
  }

  lemma {:induction false} LastSentConcat(a: seq<Tap>, b: seq<Tap>, id: string)
    ensures LastSent(a + b, id) == if LastSent(b, id).Some? then LastSent(b, id) else LastSent(a, id)
  {
    if b == [] {
      assert a + b == a;
    } else {
      assert (a + b)[..|a + b| - 1] == a + b[..|b| - 1];
      LastSentConcat(a, b[..|b| - 1], id);
    }
  }

  /** Without one of the taps, what was last asked comes from those after it, or else from those before. */
  lemma LastSentWithout(taps: seq<Tap>, n: nat, id: string)
    requires n < |taps|
    ensures var later := LastSent(taps[n + 1..], id);
            LastSent(taps[n := taps[n].(stands := false)], id) == if later.Some? then later else LastSent(taps[..n], id)
  {
    var off := taps[n].(stands := false);
    assert taps[n := off] == taps[..n] + [off] + taps[n + 1..];
    LastSentConcat(taps[..n] + [off], taps[n + 1..], id);
    LastSentConcat(taps[..n], [off], id);
    assert [off][..0] == [];
  }

  lemma {:induction false} NothingSent(taps: seq<Tap>, id: string)
    requires forall t :: t in taps ==> !t.stands
    ensures LastSent(taps, id) == None
  {
    if taps != [] {
      NothingSent(taps[..|taps| - 1], id);
    }
  }

  /** One tap, on whatever row, keeps the screen faithful. */
  lemma TapFaithful(initial: seq<Task>, s: State, task: Task)
    requires Faithful(initial, s)
    ensures Faithful(initial, Step(s, Tapped(task)))
  {
    var s' := Step(s, Tapped(task));
    assert s'.taps[..|s.taps|] == s.taps;
    forall p | p in s'.pending ensures p.serial < |s'.taps| && s'.taps[p.serial].stands
                                       && p.previous == ServerView(initial, s'.taps[..p.serial]) {
      assert s'.taps[..p.serial] == s.taps[..p.serial];
    }
  }

  lemma TapCounted(initial: seq<Task>, s: State, task: Task)
    requires Distinct(Ids(initial)) && Counted(initial, s) && task in s.tasks
    ensures Counted(initial, Step(s, Tapped(task)))
  {
    var s' := Step(s, Tapped(task));
    TapAdvances(initial, Standing(s.taps), task);
    assert s'.taps[..|s.taps|] == s.taps;
    forall p | p in s'.pending ensures p.serial < |s'.taps| && s'.taps[p.serial].stands
                                       && p.previous == Advanced(initial, Standing(s'.taps[..p.serial])) {
      assert s'.taps[..p.serial] == s.taps[..p.serial];
    }
  }

  /** The submissions left after a rejection that finds no later tap standing are of earlier taps. */
  lemma LeftAreEarlier(s: State, which: nat)
    requires which < |s.pending| && InTapOrder(s.pending, |s.taps|) && LastStanding(s, Settled(which, true))
    requires forall p :: p in s.pending ==> p.serial < |s.taps| && s.taps[p.serial].stands
    ensures forall p :: p in Without(s.pending, which) ==> p in s.pending && p.serial < s.pending[which].serial
    ensures forall t :: t in s.taps[s.pending[which].serial + 1..] ==> !t.stands
  {
    var rest := Without(s.pending, which);
    assert s.pending[which] in s.pending;
    forall p | p in rest ensures p in s.pending && p.serial < s.pending[which].serial {
      var i :| 0 <= i < |rest| && rest[i] == p;
      assert p == s.pending[if i < which then i else i + 1];
    }
  }

  /** An outcome, unless it rejects a tap with a later one standing, keeps the screen faithful. */
  lemma SettleFaithful(initial: seq<Task>, s: State, e: Event)
    requires e.Settled? && Faithful(initial, s) && InTapOrder(s.pending, |s.taps|) && LastStanding(s, e)
    ensures Faithful(initial, Step(s, e))
  {
    if e.which < |s.pending| && e.rejected {
      var n, s' := s.pending[e.which].serial, Step(s, e);
      assert s.pending[e.which] in s.pending;
      LeftAreEarlier(s, e.which);
      forall id ensures LastSent(s'.taps, id) == LastSent(s.taps[..n], id) {
        LastSentWithout(s.taps, n, id);
        NothingSent(s.taps[n + 1..], id);
      }
      forall p | p in s'.pending ensures p.serial < |s'.taps| && s'.taps[p.serial].stands
                                         && p.previous == ServerView(initial, s'.taps[..p.serial]) {
        assert s'.taps[..p.serial] == s.taps[..p.serial];
      }
    }
  }

  lemma SettleCounted(initial: seq<Task>, s: State, e: Event)
    requires e.Settled? && Counted(initial, s) && InTapOrder(s.pending, |s.taps|) && LastStanding(s, e)
    ensures Counted(initial, Step(s, e))
  {
    if e.which < |s.pending| && e.rejected {
      var n, s' := s.pending[e.which].serial, Step(s, e);
      assert s.pending[e.which] in s.pending;
      LeftAreEarlier(s, e.which);
      StandingAround(s.taps, n);
      NoneStanding(s.taps[n + 1..]);
      assert Standing(s.taps[..n]) + [] == Standing(s.taps[..n]);
      forall p | p in s'.pending ensures p.serial < |s'.taps| && s'.taps[p.serial].stands
                                         && p.previous == Advanced(initial, Standing(s'.taps[..p.serial])) {
        assert s'.taps[..p.serial] == s.taps[..p.serial];
      }
    }
  }

  /** Over every run, overlapping or not, whose rejections each find no later tap standing, the list shows what the
      standing taps last asked the server to set, which is the initial list moved on once for each of them:
      rejected ones leave no trace. */
  lemma {:induction false} OrderlyRunsAreFaithful(initial: seq<Task>, events: seq<Event>)
    requires Distinct(Ids(initial)) && Orderly(initial, events)
    ensures Faithful(initial, Run(initial, events)) && Counted(initial, Run(initial, events))
  {
    if events != [] {
      var front, e := events[..|events| - 1], events[|events| - 1];
      OrderlyRunsAreFaithful(initial, front);
      SerialsInOrder(initial, front);
      match e {
        case Tapped(task) =>
          TapFaithful(initial, Run(initial, front), task);
          TapCounted(initial, Run(initial, front), task);
        case Settled(_, _) =>
          SettleFaithful(initial, Run(initial, front), e);
          SettleCounted(initial, Run(initial, front), e);
      }
    }
  }

  /** At most the last tap's submission is under way. */
  ghost predicate Alone(s: State) {
    s.pending == [] || (|s.pending| == 1 && s.pending[0].serial == |s.taps| - 1)
  }

  lemma AloneStep(s: State, e: Event)
    requires Alone(s) && (e.Tapped? ==> s.pending == [])
    ensures Alone(Step(s, e)) && LastStanding(s, e)
  {
  }

  /** One submission at a time is orderly. */
  lemma {:induction false} OneAtATimeIsOrderly(initial: seq<Task>, events: seq<Event>)
    requires OneAtATime(initial, events)
    ensures Orderly(initial, events) && Alone(Run(initial, events))
  {
    if events != [] {
      var front := events[..|events| - 1];
      OneAtATimeIsOrderly(initial, front);
      AloneStep(Run(initial, front), events[|events| - 1]);
    }
  }

  /** Without overlapping submissions, the visible list is the server's view, the initial list with the standing
      advances applied. */
  lemma OneAtATimeIsFaithful(initial: seq<Task>, events: seq<Event>)
    requires Distinct(Ids(initial)) && OneAtATime(initial, events)
    ensures var s := Run(initial, events);
            s.tasks == ServerView(initial, s.taps) == Advanced(initial, Standing(s.taps))
  {
    OneAtATimeIsOrderly(initial, events);
    OrderlyRunsAreFaithful(initial, events);
  }

  /** In a faithful state, rejecting a tap shows the server's view exactly when, for every task with a later standing
      tap, the last such tap sent the status the task has in the kept list: otherwise the roll-back takes
      standing changes off the screen with its own. */
  lemma RejectionExactIff(initial: seq<Task>, s: State, which: nat)
    requires Faithful(initial, s) && which < |s.pending|
    ensures var sub := s.pending[which];
            var s' := Step(s, Settled(which, true));
            && sub.serial < |s.taps| && |sub.previous| == |initial|
            && (s'.tasks == ServerView(initial, s'.taps)
                <==> forall i :: 0 <= i < |initial| ==>
                       LastSent(s.taps[sub.serial + 1..], initial[i].id) in {None, Some(sub.previous[i].status)})
  {
    var sub := s.pending[which];
    assert sub in s.pending;
    var n, s' := sub.serial, Step(s, Settled(which, true));
    var view := ServerView(initial, s'.taps);
    forall i | 0 <= i < |initial|
      ensures sub.previous[i] == view[i]
          <==> LastSent(s.taps[n + 1..], initial[i].id) in {None, Some(sub.previous[i].status)}
    {
      LastSentWithout(s.taps, n, initial[i].id);
    }
  }

  lemma RunAppend(initial: seq<Task>, events: seq<Event>, e: Event)
    ensures Run(initial, events + [e]) == Step(Run(initial, events), e)
  {
    assert (events + [e])[..|events|] == events;
  }

  lemma RunFour(initial: seq<Task>, e0: Event, e1: Event, e2: Event, e3: Event)
    ensures Run(initial, [e0, e1, e2, e3]) == Step(Step(Step(Step(Loaded(initial), e0), e1), e2), e3)
  {
    assert [] + [e0] == [e0] && [e0] + [e1] == [e0, e1] && [e0, e1] + [e2] == [e0, e1, e2];
    assert [e0, e1, e2] + [e3] == [e0, e1, e2, e3];
    RunAppend(initial, [], e0);
    RunAppend(initial, [e0], e1);
    RunAppend(initial, [e0, e1], e2);
    RunAppend(initial, [e0, e1, e2], e3);
  }

  /** Two overlapping taps: the first is rejected, the second accepted, yet the list shows neither. */
  lemma OverlapLosesAdvance(a: Task, b: Task)
    requires a.id != b.id
    ensures var s := Run([a, b], [Tapped(a), Tapped(b), Settled(0, true), Settled(0, false)]);
            s.tasks == [a, b] && s.pending == [] && ServerView([a, b], s.taps) == [a, b.(status := Next(b.status))]
  {
    RunFour([a, b], Tapped(a), Tapped(b), Settled(0, true), Settled(0, false));
    var s2 := Step(Step(Loaded([a, b]), Tapped(a)), Tapped(b));
    assert s2.pending[0] == Submission(0, [a, b]) && s2.pending[1].serial == 1;
    var off, on := Tap(a.id, Next(a.status), false), Tap(b.id, Next(b.status), true);
    assert s2.taps[0 := off] == [off] + [on];
    forall id ensures LastSent([off] + [on], id) == if id == b.id then Some(on.sent) else None {
      LastSentConcat([off], [on], id);
      assert [off][..0] == [] && [on][..0] == [];
    }
  }

  // ----- repeated taps on one task -----

  /** k taps on a task shown as `t` at first, each on the row as then shown, none answered. */
  function Tapping(s: State, t: Task, k: nat): State {
    if k == 0 then s else Step(Tapping(s, t, k - 1), Tapped(t.(status := Moved(t.status, k - 1))))
  }

  /** The list with the task moved on. */
  function MovedOn(tasks: seq<Task>, t: Task, times: nat): seq<Task> {
    WithStatus(tasks, t.id, Moved(t.status, times))
  }

  /** What the k taps ask for. */
  function Asked(t: Task, k: nat): (taps: seq<Tap>)
    ensures |taps| == k
  {
    if k == 0 then [] else Asked(t, k - 1) + [Tap(t.id, Moved(t.status, k), true)]
  }

  /** The state after them: on screen, each asked for and pending, with the list each found. */
  ghost predicate AllPending(s: State, t: Task, k: nat, s': State) {
    && s'.tasks == MovedOn(s.tasks, t, k) && s'.taps == s.taps + Asked(t, k)
    && |s'.pending| == |s.pending| + k
    && forall j :: 0 <= j < k ==> s'.pending[|s.pending| + j] == Submission(|s.taps| + j, MovedOn(s.tasks, t, j))
  }

  lemma MovedOnce(tasks: seq<Task>, t: Task, k: nat)
    ensures WithStatus(MovedOn(tasks, t, k), t.id, Moved(t.status, k + 1)) == MovedOn(tasks, t, k + 1)
  {
  }

  lemma OneMoreTap(s: State, t: Task, k: nat, s': State)
    requires AllPending(s, t, k, s')
    ensures AllPending(s, t, k + 1, Step(s', Tapped(t.(status := Moved(t.status, k)))))
  {
    MovedOnce(s.tasks, t, k);
  }

  lemma {:induction false} AfterTapping(s: State, t: Task, k: nat)
    requires t in s.tasks && Distinct(Ids(s.tasks))
    ensures AllPending(s, t, k, Tapping(s, t, k))
  {
    if k > 0 {
      AfterTapping(s, t, k - 1);
      OneMoreTap(s, t, k - 1, Tapping(s, t, k - 1));
    } else {
      var i :| 0 <= i < |s.tasks| && s.tasks[i] == t;
      forall n | 0 <= n < |s.tasks| ensures MovedOn(s.tasks, t, 0)[n] == s.tasks[n] {
        assert Ids(s.tasks)[n] == s.tasks[n].id && Ids(s.tasks)[i] == t.id;
      }
      assert MovedOn(s.tasks, t, 0) == s.tasks;
    }
  }

  lemma {:induction false} TappingFaithful(initial: seq<Task>, s: State, t: Task, k: nat)
    requires Faithful(initial, s)
    ensures Faithful(initial, Tapping(s, t, k))
  {
    if k > 0 {
      TappingFaithful(initial, s, t, k - 1);
      TapFaithful(initial, Tapping(s, t, k - 1), t.(status := Moved(t.status, k - 1)));
    }
  }

  /** The last of the requests after the j-th is the k-th. */
  lemma LastAsked(t: Task, j: nat, k: nat, id: string)
    requires j <= k
    ensures LastSent(Asked(t, k)[j..], id) == if j < k && id == t.id then Some(Moved(t.status, k)) else None
    decreases k
  {
    if j < k {
      var front, last := Asked(t, k - 1)[j..], Tap(t.id, Moved(t.status, k), true);
      LastAsked(t, j, k - 1, id);
      assert Asked(t, k)[j..] == front + [last];
      LastSentConcat(front, [last], id);
      assert [last][..0] == [];
    }
  }

  /** From the j-th of k taps on there is only it, or a multiple of three. */
  predicate OneOrThrees(j: nat, k: nat)
    requires j <= k
  {
    j == k || (k - j + 1) % 3 == 0
  }

  lemma MovedAlike(s: Status, j: nat, k: nat)
    requires 0 < j <= k
    ensures OneOrThrees(j, k) <==> j == k || Moved(s, j - 1) == Moved(s, k)
  {
    MovedCycles(s, j - 1);
    MovedCycles(s, k);
  }

  /** Rejecting a submission leaves the server's view showing. */
  ghost predicate RightAfterRejection(initial: seq<Task>, s: State, which: nat) {
    var s' := Step(s, Settled(which, true));
    s'.tasks == ServerView(initial, s'.taps)
  }

  /** Where all later standing taps are on one task, the last of them decides. */
  lemma RejectionBeforeOneTask(initial: seq<Task>, s: State, which: nat, i: nat, later: seq<Tap>, last: Option<Status>)
    requires Distinct(Ids(initial)) && Faithful(initial, s) && which < |s.pending| && i < |initial|
    requires s.pending[which].serial < |s.taps| && later == s.taps[s.pending[which].serial + 1..]
    requires forall n :: 0 <= n < |initial| ==> LastSent(later, initial[n].id) == if n == i then last else None
    requires |s.pending[which].previous| == |initial|
    ensures RightAfterRejection(initial, s, which) <==> last in {None, Some(s.pending[which].previous[i].status)}
  {
    RejectionExactIff(initial, s, which);
    assert LastSent(later, initial[i].id) == last;
  }

  lemma AskedLast(initial: seq<Task>, t: Task, i: nat, j: nat, k: nat)
    requires Distinct(Ids(initial)) && i < |initial| && initial[i].id == t.id && j <= k
    ensures forall n :: 0 <= n < |initial| ==>
              LastSent(Asked(t, k)[j..], initial[n].id) == if n == i then (if j < k then Some(Moved(t.status, k)) else None) else None
  {
    forall n | 0 <= n < |initial|
      ensures LastSent(Asked(t, k)[j..], initial[n].id) == if n == i then (if j < k then Some(Moved(t.status, k)) else None) else None
    {
      LastAsked(t, j, k, initial[n].id);
      assert Ids(initial)[n] == initial[n].id && Ids(initial)[i] == t.id;
    }
  }

  lemma RowOf(initial: seq<Task>, s: State, t: Task) returns (i: nat)
    requires Faithful(initial, s) && t in s.tasks
    ensures i < |initial| == |s.tasks| && s.tasks[i] == t && initial[i].id == t.id && Ids(s.tasks) == Ids(initial)
  {
    i :| 0 <= i < |s.tasks| && s.tasks[i] == t;
  }

  /** The j-th of the pending taps, what it kept of the task, and what was asked after it. */
  lemma PendingTap(s: State, t: Task, k: nat, s': State, j: nat, i: nat)
    requires AllPending(s, t, k, s') && 0 < j <= k && i < |s.tasks| && s.tasks[i] == t
    ensures var sub := s'.pending[|s.pending| + j - 1];
            && sub.serial == |s.taps| + j - 1 < |s'.taps| && |sub.previous| == |s.tasks|
            && sub.previous[i].status == Moved(t.status, j - 1)
            && s'.taps[sub.serial + 1..] == Asked(t, k)[j..]
  {
    assert s'.pending[|s.pending| + (j - 1)] == Submission(|s.taps| + (j - 1), MovedOn(s.tasks, t, j - 1));
  }

  /** The tap, what it kept and what was asked after it, as the case of one task needs them. */
  lemma RejectedAmong(initial: seq<Task>, t: Task, i: nat, j: nat, k: nat, s: State, which: nat)
    requires Distinct(Ids(initial)) && i < |initial| && initial[i].id == t.id && 0 < j <= k
    requires Faithful(initial, s) && which < |s.pending| && s.pending[which].serial < |s.taps|
    requires |s.pending[which].previous| == |initial| && s.pending[which].previous[i].status == Moved(t.status, j - 1)
    requires s.taps[s.pending[which].serial + 1..] == Asked(t, k)[j..]
    ensures RightAfterRejection(initial, s, which) <==> j == k || Moved(t.status, j - 1) == Moved(t.status, k)
  {
    AskedLast(initial, t, i, j, k);
    RejectionBeforeOneTask(initial, s, which, i, Asked(t, k)[j..], if j < k then Some(Moved(t.status, k)) else None);
  }

  lemma TappedInOrder(initial: seq<Task>, s: State, t: Task, k: nat)
    requires Distinct(Ids(initial)) && Faithful(initial, s) && t in s.tasks
    ensures Faithful(initial, Tapping(s, t, k)) && AllPending(s, t, k, Tapping(s, t, k))
  {
    var i := RowOf(initial, s, t);
    AfterTapping(s, t, k);
    TappingFaithful(initial, s, t, k);
  }

  lemma RejectedAfterTapping(initial: seq<Task>, s: State, t: Task, i: nat, j: nat, k: nat, s': State)
    requires Distinct(Ids(initial)) && i < |initial| == |s.tasks| && s.tasks[i] == t && initial[i].id == t.id && 0 < j <= k
    requires AllPending(s, t, k, s') && Faithful(initial, s')
    ensures var which := |s.pending| + j - 1;
            which < |s'.pending|
            && (RightAfterRejection(initial, s', which) <==> OneOrThrees(j, k))
  {
    MovedAlike(t.status, j, k);
    PendingTap(s, t, k, s', j, i);
    RejectedAmong(initial, t, i, j, k, s', |s.pending| + j - 1);
  }

  /** From any faithful state, of k pending taps on one task in a row, rejecting the j-th shows the server's view exactly
      when it is the last, or those from it on are a multiple of three. */
  lemma RepeatedTapsIff(initial: seq<Task>, s: State, t: Task, k: nat, j: nat)
    requires Distinct(Ids(initial)) && Faithful(initial, s) && t in s.tasks && 0 < j <= k
    ensures var s', which := Tapping(s, t, k), |s.pending| + j - 1;
            which < |s'.pending| && (RightAfterRejection(initial, s', which) <==> OneOrThrees(j, k))
  {
    var i := RowOf(initial, s, t);
    TappedInOrder(initial, s, t, k);
    RejectedAfterTapping(initial, s, t, i, j, k, Tapping(s, t, k));
  }
}
