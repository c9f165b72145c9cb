/** The audit log's cursor paging: the loaded list grows page by page, while responses may overlap. */
module AuditLog {
  import opened Common

  const PAGE_SIZE := 50

  datatype Entry = Entry(id: string, actorName: string, summary: string, createdAt: string)

  function Ids(list: seq<Entry>): (ids: seq<string>)
    ensures |ids| == |list| && forall i :: 0 <= i < |list| ==> ids[i] == list[i].id
  {
    seq(|list|, i requires 0 <= i < |list| => list[i].id)
  }

  function IndexOf(list: seq<Entry>, id: string): nat {
    if list == [] || list[0].id == id then 0 else 1 + IndexOf(list[1..], id)
  }

  /** The server's page: the first entries, or those right after the cursor; none after an unknown cursor. */
  function Page(list: seq<Entry>, cursor: Option<string>): (page: seq<Entry>)
    ensures |page| <= PAGE_SIZE
  {
    var start := if cursor.None? then 0 else IndexOf(list, cursor.value) + 1;
    if start >= |list| then [] else list[start..Min(start + PAGE_SIZE, |list|)]
  }

  /** A request under way; `More` carries the list its page will be appended to. */
  datatype Request = First | More(log: seq<Entry>)

  datatype State = State(auditLog: Option<seq<Entry>>, hasMore: bool, inFlight: seq<Request>)

  datatype Event = AskFirst | AskMore | Arrives(which: nat) | Fails(which: nat)

  const INITIAL := State(None, false, [])

  function Cursor(log: seq<Entry>): Option<string> {
    if log == [] then None else Some(log[|log| - 1].id)
  }

  function MoreAsked(s: State): State {
    if s.auditLog.None? || s.auditLog.value == [] then s
    else s.(inFlight := s.inFlight + [More(s.auditLog.value)])
  }

  /** A response: its page replaces what is loaded, or follows the list its request carried. */
  function Answered(list: seq<Entry>, request: Request, rest: seq<Request>): State {
    var log := if request.First? then [] else request.log;
    var page := Page(list, Cursor(log));
    State(Some(log + page), |page| == PAGE_SIZE, rest)
  }

  function Arrived(list: seq<Entry>, s: State, which: nat): State {
    if which >= |s.inFlight| then s else Answered(list, s.inFlight[which], Without(s.inFlight, which))
  }

  function Step(list: seq<Entry>, s: State, e: Event): State {
    match e
    case AskFirst => s.(inFlight := s.inFlight + [First])
    case AskMore => MoreAsked(s)
    case Arrives(which) => Arrived(list, s, which)
    case Fails(which) =>
      if which >= |s.inFlight| then s else s.(inFlight := Without(s.inFlight, which))
  }

  function Run(list: seq<Entry>, events: seq<Event>): State {
    if events == [] then INITIAL else Step(list, Run(list, events[..|events| - 1]), events[|events| - 1])
  }

  // ----- what every run keeps -----

  /** What is loaded is a prefix of the log, cut only at a page's end, and complete once no more is offered. */
  ghost predicate Loaded(list: seq<Entry>, log: seq<Entry>, hasMore: bool) {
    && log <= list
    && (hasMore ==> log != [] && |log| % PAGE_SIZE == 0)
    && (!hasMore ==> log == list)
  }

  ghost predicate Sound(list: seq<Entry>, s: State) {
    && (s.auditLog.Some? ==> Loaded(list, s.auditLog.value, s.hasMore))
    && forall r :: r in s.inFlight && r.More? ==> r.log != [] && r.log <= list && (|r.log| % PAGE_SIZE == 0 || r.log == list)
  }

  lemma {:induction false} IndexOfAt(list: seq<Entry>, i: nat)
    requires Distinct(Ids(list)) && i < |list|
    ensures IndexOf(list, list[i].id) == i
  {
    if i > 0 {
      assert Ids(list)[0] != Ids(list)[i];
      assert Ids(list[1..]) == Ids(list)[1..];
      IndexOfAt(list[1..], i - 1);
    }
  }

  /** The page after a prefix starts where the prefix ends. */
  lemma PageAfter(list: seq<Entry>, log: seq<Entry>)
    requires Distinct(Ids(list)) && log <= list
    ensures Page(list, Cursor(log)) == list[|log|..Min(|log| + PAGE_SIZE, |list|)]
  {
    if log != [] {
      assert log[|log| - 1] == list[|log| - 1];
      IndexOfAt(list, |log| - 1);
    }
  }

  lemma WholePages(size: nat)
    requires size % PAGE_SIZE == 0
    ensures (size + PAGE_SIZE) % PAGE_SIZE == 0
  {
  }

  /** The page after a prefix's last entry extends the prefix without gap or repetition. */
  lemma PageExtends(list: seq<Entry>, log: seq<Entry>)
    requires Distinct(Ids(list)) && log <= list
    requires |log| % PAGE_SIZE == 0 || log == list
    ensures var page := Page(list, Cursor(log));
            Loaded(list, log + page, |page| == PAGE_SIZE) && |page| == Min(PAGE_SIZE, |list| - |log|)
  {
    PageAfter(list, log);
    var page := Page(list, Cursor(log));
    ExtendedPrefix(list, log, page);
    if |page| == PAGE_SIZE {
      WholePages(|log|);
    }
  }

  lemma ExtendedPrefix(list: seq<Entry>, log: seq<Entry>, page: seq<Entry>)
    requires log <= list && page == list[|log|..Min(|log| + PAGE_SIZE, |list|)]
    ensures log + page <= list && |page| == Min(PAGE_SIZE, |list| - |log|)
    ensures |page| < PAGE_SIZE ==> log + page == list
  {
    assert log == list[..|log|];
    assert log + page == list[..|log| + |page|];
  }

  /** Under any overlap of first loads, further loads, arrivals and failures, the loaded log is a prefix of the list,
      and the whole of it whenever no more is offered. */
  lemma {:induction false} RunSound(list: seq<Entry>, events: seq<Event>)
    requires Distinct(Ids(list))
    ensures Sound(list, Run(list, events))
  {
    if events != [] {
      var s, e := Run(list, events[..|events| - 1]), events[|events| - 1];
      RunSound(list, events[..|events| - 1]);
      if e.Arrives? && e.which < |s.inFlight| {
        var r := s.inFlight[e.which];
        assert r in s.inFlight;
        PageExtends(list, if r.First? then [] else r.log);
      }
    }
  }

  // ----- pressing "load more" -----

  /** A load that fails leaves no trace. */
  lemma FailureUndoes(list: seq<Entry>, s: State, ask: Event)
    requires s.inFlight == [] && ask in {AskFirst, AskMore}
    ensures Step(list, Step(list, s, ask), Fails(0)) == s
  {
    var asked := Step(list, s, ask).inFlight;
    assert asked != [] ==> Without(asked, 0) == [];
  }

  /** One press and its answer, nothing else under way. */
  function Round(list: seq<Entry>, s: State): State {
    Arrived(list, MoreAsked(s), 0)
  }

  function Rounds(list: seq<Entry>, s: State, n: nat): State
    decreases n
  {
    if n == 0 then s else Rounds(list, Round(list, s), n - 1)
  }

  /** The first load and its answer. */
  function FirstLoad(list: seq<Entry>): State {
    Step(list, Step(list, INITIAL, AskFirst), Arrives(0))
  }

  /** The first k entries loaded, or all, with nothing under way; more is offered if there may be more. */
  predicate LoadedTo(list: seq<Entry>, s: State, k: nat) {
    s.auditLog == Some(list[..Min(k, |list|)]) && s.hasMore == (k <= |list|) && s.inFlight == []
  }

  lemma FirstRound(list: seq<Entry>)
    requires Distinct(Ids(list))
    ensures LoadedTo(list, FirstLoad(list), PAGE_SIZE)
  {
    PageAfter(list, []);
    assert Without([First], 0) == [] && [] + [First] == [First];
    assert [] + Page(list, None) == list[..Min(PAGE_SIZE, |list|)];
  }

  lemma NextPage(list: seq<Entry>, k: nat, page: seq<Entry>)
    requires page == list[Min(k, |list|)..Min(Min(k, |list|) + PAGE_SIZE, |list|)]
    ensures list[..Min(k, |list|)] + page == list[..Min(k + PAGE_SIZE, |list|)]
    ensures |page| == PAGE_SIZE <==> k + PAGE_SIZE <= |list|
  {
  }

  lemma NextRound(list: seq<Entry>, s: State, k: nat)
    requires Distinct(Ids(list)) && 0 < k && LoadedTo(list, s, k)
    ensures LoadedTo(list, Round(list, s), k + PAGE_SIZE)
  {
    var log := list[..Min(k, |list|)];
    if log == [] {
      assert list == [];
    } else {
      PageAfter(list, log);
      assert Without([More(log)], 0) == [] && [] + [More(log)] == [More(log)];
      NextPage(list, k, Page(list, Cursor(log)));
      assert Round(list, s) == Answered(list, More(log), []);
    }
  }

  /** The entries n full pages hold. */
  function Pages(n: nat): nat {
    if n == 0 then 0 else Pages(n - 1) + PAGE_SIZE
  }

  lemma {:induction false} FullPages(n: nat, length: nat)
    ensures Pages(n) == n * PAGE_SIZE
    ensures Pages(n) <= length <==> n <= length / PAGE_SIZE
  {
    assert PAGE_SIZE == 50;
    if n > 0 {
      FullPages(n - 1, length);
    }
  }

  lemma {:induction false} RoundsReach(list: seq<Entry>, s: State, m: nat, n: nat)
    requires Distinct(Ids(list)) && 0 < m && LoadedTo(list, s, Pages(m))
    ensures LoadedTo(list, Rounds(list, s, n), Pages(m + n))
    decreases n
  {
    if n > 0 {
      NextRound(list, s, Pages(m));
      RoundsReach(list, Round(list, s), m + 1, n - 1);
    }
  }

  /** The first n pages are loaded, and more is offered exactly while they are full. */
  predicate PagesLoaded(list: seq<Entry>, s: State, n: nat) {
    && s.auditLog == Some(list[..Min(n * PAGE_SIZE, |list|)])
    && (s.hasMore <==> n <= |list| / PAGE_SIZE)
    && (!s.hasMore ==> s.auditLog == Some(list))
  }

  lemma LoadedPages(list: seq<Entry>, s: State, n: nat)
    requires LoadedTo(list, s, Pages(n))
    ensures PagesLoaded(list, s, n)
  {
    FullPages(n, |list|);
    assert list[..|list|] == list;
  }

  /** After the first load and n presses the first n + 1 pages are loaded, and more is offered exactly while those pages
      are full; so loading stops with the whole list after one press per full page, also when the length is a
      multiple of the page size. */
  lemma RoundsLoad(list: seq<Entry>, n: nat)
    requires Distinct(Ids(list))
    ensures PagesLoaded(list, Rounds(list, FirstLoad(list), n), n + 1)
  {
    FirstRound(list);
    var first := FirstLoad(list);
    assert LoadedTo(list, first, Pages(1));
    RoundsReach(list, first, 1, n);
    LoadedPages(list, Rounds(list, first, n), n + 1);
  }

  /** The panel as the component updates it; each load runs up to its request and from the response. */
  class AuditLogPanel {
    var auditLog: Option<seq<Entry>>
    var hasMore: bool
    var inFlight: seq<Request>

    ghost function Now(): State
      reads this
    {
      State(auditLog, hasMore, inFlight)
    }

    constructor ()
      ensures Now() == INITIAL
    {
      auditLog, hasMore, inFlight := None, false, [];
    }

    method LoadAuditLog(ghost list: seq<Entry>)
      modifies this
      ensures Now() == Step(list, old(Now()), AskFirst)
    {
      inFlight := inFlight + [First];
    }

    method LoadMoreAuditLog(ghost list: seq<Entry>)
      modifies this
      ensures Now() == Step(list, old(Now()), AskMore)
    {
      if auditLog.None? || |auditLog.value| == 0 {
        return;
      }
      inFlight := inFlight + [More(auditLog.value)];
    }

    method Arrive(list: seq<Entry>, which: nat)
      requires which < |inFlight|
      modifies this
      ensures Now() == Step(list, old(Now()), Arrives(which))
    {
      var request := inFlight[which];
      inFlight := Without(inFlight, which);
      match request {
        case First =>
          var page := Page(list, None);
          assert [] + page == page;
          auditLog := Some(page);
          hasMore := |page| == PAGE_SIZE;
        case More(log) =>
          var page := Page(list, Cursor(log));
          auditLog := Some(log + page);
          hasMore := |page| == PAGE_SIZE;
      }
    }
  }
}
