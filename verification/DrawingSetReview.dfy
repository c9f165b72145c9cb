/** Reviewing an uploaded drawing set: responses from upload, open, poll and import arrive in any order and
    are merged into one screen that also holds the person's edits; the import guard and the server's check
    of what it posts. */
module DrawingSetReview {
  import opened Common
  import opened Text

  datatype Status = Analyzing | Ready | Importing | Imported | Failed

  datatype SetPage = SetPage(page: int, sheetNumber: Option<string>, title: Option<string>, discipline: Option<string>)

  datatype DrawingSet = DrawingSet(id: string, status: Status, pageCount: nat, importResult: Option<(nat, nat)>, pages: seq<SetPage>)

  datatype Row = Row(page: int, included: bool, sheetNumber: string, title: string, discipline: string, revision: string)

  /** The fields an edit sets; the others keep their value. */
  datatype Patch = Patch(included: Option<bool>, sheetNumber: Option<string>, title: Option<string>,
                         discipline: Option<string>, revision: Option<string>)

  /** The review's state variables; `current` is the ref that `show` reads, `shown` the set being rendered. Of the discards
      under way, `asking` wait for the person's confirmation and `discarding` for the server. */
  datatype View = View(current: Option<DrawingSet>, shown: Option<DrawingSet>, rows: seq<Row>,
                       preview: Option<int>, result: Option<(nat, nat)>, asking: nat, discarding: nat)

  const EMPTY_VIEW := View(None, None, [], None, None, 0, 0)

  datatype Event =
    | Response(next: DrawingSet)
    | Edit(page: int, patch: Patch)
    | DiscardPressed
    | Confirmed(agreed: bool)
    | Discarded
    | UploadStarted
    | Previewed(target: Option<int>)

  predicate HasNumber(p: SetPage) {
    p.sheetNumber.Some? && p.sheetNumber.value != ""
  }

  function RowFor(p: SetPage): Row {
    Row(p.page, HasNumber(p), p.sheetNumber.GetOr(""), p.title.GetOr(""), p.discipline.GetOr(""), "")
  }

  function RowsFor(pages: seq<SetPage>): (rows: seq<Row>)
    ensures |rows| == |pages|
    ensures forall i :: 0 <= i < |pages| ==> rows[i] == RowFor(pages[i])
  {
    if pages == [] then [] else [RowFor(pages[0])] + RowsFor(pages[1..])
  }

  /** The first page without a recognized number. */
  function FirstUnrecognized(pages: seq<SetPage>): Option<int> {
    if pages == [] then None
    else if !HasNumber(pages[0]) then Some(pages[0].page)
    else FirstUnrecognized(pages[1..])
  }

  /** The set becomes reviewable with this response: it was not the one on screen, or was not ready. */
  predicate Rebuilds(current: Option<DrawingSet>, next: DrawingSet) {
    next.status == Ready && (current.None? || current.value.id != next.id || current.value.status != Ready)
  }

  function Show(v: View, next: DrawingSet): View {
    if next.status == Imported then v.(current := None, shown := None, rows := [], result := next.importResult)
    else if Rebuilds(v.current, next) then
      v.(current := Some(next), shown := Some(next), rows := RowsFor(next.pages), preview := FirstUnrecognized(next.pages))
    else v.(current := Some(next), shown := Some(next))
  }

  /** A set that failed to be read is discarded at once, any other after a confirmation. */
  function Pressed(v: View): View {
    if v.shown.None? then v
    else if v.shown.value.status == Failed then v.(discarding := v.discarding + 1)
    else v.(asking := v.asking + 1)
  }

  function Patched(r: Row, patch: Patch): Row {
    Row(r.page, patch.included.GetOr(r.included), patch.sheetNumber.GetOr(r.sheetNumber), patch.title.GetOr(r.title),
        patch.discipline.GetOr(r.discipline), patch.revision.GetOr(r.revision))
  }

  function Updated(rows: seq<Row>, page: int, patch: Patch): (updated: seq<Row>)
    ensures |updated| == |rows|
    ensures forall i :: 0 <= i < |rows| ==> updated[i] == if rows[i].page == page then Patched(rows[i], patch) else rows[i]
  {
    if rows == [] then [] else
      [if rows[0].page == page then Patched(rows[0], patch) else rows[0]] + Updated(rows[1..], page, patch)
  }

  function Step(v: View, e: Event): View {
    match e
    case Response(next) => Show(v, next)
    case Edit(page, patch) => v.(rows := Updated(v.rows, page, patch))
    case DiscardPressed => Pressed(v)
    case Confirmed(agreed) =>
      if v.asking == 0 then v else v.(asking := v.asking - 1, discarding := v.discarding + if agreed then 1 else 0)
    case Discarded =>
      if v.discarding == 0 then v else v.(current := None, shown := None, rows := [], discarding := v.discarding - 1)
    case UploadStarted => v.(result := None)
    case Previewed(target) => v.(preview := target)
  }

  function Run(v: View, events: seq<Event>): View {
    if events == [] then v else Step(Run(v, events[..|events| - 1]), events[|events| - 1])
  }

  /** The screen as the component updates it. */
  class ReviewScreen {
    var current: Option<DrawingSet>
    var shown: Option<DrawingSet>
    var rows: seq<Row>
    var preview: Option<int>
    var result: Option<(nat, nat)>
    var asking: nat
    var discarding: nat

    ghost function State(): View
      reads this
    {
      View(current, shown, rows, preview, result, asking, discarding)
    }

    constructor ()
      ensures State() == EMPTY_VIEW
    {
      current, shown, rows, preview, result := None, None, [], None, None;
      asking, discarding := 0, 0;
    }

    method ShowSet(next: DrawingSet)
      modifies this
      ensures State() == Step(old(State()), Response(next))
    {
      var prev := current;
      if next.status == Imported {
        current := None;
        shown := None;
        rows := [];
        result := next.importResult;
        return;
      }
      if next.status == Ready && (prev.None? || prev.value.id != next.id || prev.value.status != Ready) {
        rows := RowsFor(next.pages);
        preview := FirstUnrecognized(next.pages);
      }
      current := Some(next);
      shown := Some(next);
    }

    method Update(page: int, patch: Patch)
      modifies this
      ensures State() == Step(old(State()), Edit(page, patch))
    {
      rows := Updated(rows, page, patch);
    }

    /** Up to the first await. */
    method BeginDiscard()
      modifies this
      ensures State() == Step(old(State()), DiscardPressed)
    {
      if shown.None? {
        return;
      }
      if shown.value.status != Failed {
        asking := asking + 1;
      } else {
        discarding := discarding + 1;
      }
    }

    /** From the person's answer to the request, whatever is shown by then. */
    method ConfirmDiscard(agreed: bool)
      requires asking > 0
      modifies this
      ensures State() == Step(old(State()), Confirmed(agreed))
    {
      asking := asking - 1;
      if !agreed {
        return;
      }
      discarding := discarding + 1;
    }

    /** From the server's answer, whatever it was and whatever is shown by then. */
    method FinishDiscard()
      requires discarding > 0
      modifies this
      ensures State() == Step(old(State()), Discarded)
    {
      discarding := discarding - 1;
      current := None;
      shown := None;
      rows := [];
    }

    method StartUpload()
      modifies this
      ensures State() == Step(old(State()), UploadStarted)
    {
      result := None;
    }
  }

  // ----- what every run keeps -----

  function PageNumbers(pages: seq<SetPage>): seq<int> {
    seq(|pages|, i requires 0 <= i < |pages| => pages[i].page)
  }

  function RowPages(rows: seq<Row>): seq<int> {
    seq(|rows|, i requires 0 <= i < |rows| => rows[i].page)
  }

  /** One screen, and on a ready set one row per page, in page order. */
  ghost predicate Consistent(v: View) {
    && v.shown == v.current
    && (v.current.Some? && v.current.value.status == Ready ==> RowPages(v.rows) == PageNumbers(v.current.value.pages))
  }

  /** A set's page list, once the set is ready, is always sent the same. */
  ghost predicate PagesFixed(events: seq<Event>, pagesOf: string -> seq<int>) {
    forall e :: e in events && e.Response? && e.next.status == Ready ==> PageNumbers(e.next.pages) == pagesOf(e.next.id)
  }

  ghost predicate Known(v: View, pagesOf: string -> seq<int>) {
    v.current.Some? && v.current.value.status == Ready ==> PageNumbers(v.current.value.pages) == pagesOf(v.current.value.id)
  }

  /** In any order of responses, edits and discards the screen stays consistent. */
  lemma {:induction false} RunConsistent(events: seq<Event>, pagesOf: string -> seq<int>)
    requires PagesFixed(events, pagesOf)
    ensures Consistent(Run(EMPTY_VIEW, events)) && Known(Run(EMPTY_VIEW, events), pagesOf)
  {
    if events != [] {
      var front, e := events[..|events| - 1], events[|events| - 1];
      assert PagesFixed(front, pagesOf) by {
        assert forall x :: x in front ==> x in events;
      }
      RunConsistent(front, pagesOf);
      assert e in events;
      var v := Run(EMPTY_VIEW, front);
      match e {
        case Response(next) =>
          assert RowPages(RowsFor(next.pages)) == PageNumbers(next.pages);
        case Edit(page, patch) =>
          assert RowPages(Updated(v.rows, page, patch)) == RowPages(v.rows);
        case _ =>
      }
    }
  }

  /** `pages.find(p => p.page === page)`. */
  function FindPage(pages: seq<SetPage>, page: int): Option<SetPage> {
    if pages == [] then None else if pages[0].page == page then Some(pages[0]) else FindPage(pages[1..], page)
  }

  lemma {:induction false} FindPageSome(pages: seq<SetPage>, page: int)
    ensures FindPage(pages, page).Some? <==> page in PageNumbers(pages)
    ensures FindPage(pages, page).Some? ==> FindPage(pages, page).value in pages && FindPage(pages, page).value.page == page
  {
    if pages != [] {
      FindPageSome(pages[1..], page);
      assert pages == [pages[0]] + pages[1..];
      assert PageNumbers(pages) == [pages[0].page] + PageNumbers(pages[1..]);
    }
  }

  /** So while a ready set is shown, the lookup each row makes for its page succeeds. */
  lemma EveryRowFindsItsPage(events: seq<Event>, pagesOf: string -> seq<int>, r: Row)
    requires PagesFixed(events, pagesOf)
    requires var v := Run(EMPTY_VIEW, events); v.shown.Some? && v.shown.value.status == Ready && r in v.rows
    ensures var found := FindPage(Run(EMPTY_VIEW, events).shown.value.pages, r.page);
            found.Some? && found.value.page == r.page
  {
    RunConsistent(events, pagesOf);
    var v := Run(EMPTY_VIEW, events);
    var i :| 0 <= i < |v.rows| && v.rows[i] == r;
    assert RowPages(v.rows)[i] == r.page;
    FindPageSome(v.shown.value.pages, r.page);
  }

  // ----- what is first proposed, and what an edit does -----

  /** A page's first row: what was recognized on it, ticked if that includes a number. */
  ghost predicate Proposes(r: Row, p: SetPage) {
    && r.page == p.page && r.revision == ""
    && (match p.sheetNumber case Some(s) => r.sheetNumber == s case None => r.sheetNumber == "")
    && (match p.title case Some(s) => r.title == s case None => r.title == "")
    && (match p.discipline case Some(s) => r.discipline == s case None => r.discipline == "")
    && (r.included <==> p.sheetNumber.Some? && p.sheetNumber.value != "")
  }

  ghost predicate Unnumbered(p: SetPage) {
    p.sheetNumber == None || p.sheetNumber == Some("")
  }

  lemma {:induction false} FirstUnrecognizedIs(pages: seq<SetPage>) returns (i: nat)
    ensures i <= |pages| && forall j :: 0 <= j < i ==> !Unnumbered(pages[j])
    ensures if i == |pages| then FirstUnrecognized(pages) == None
            else Unnumbered(pages[i]) && FirstUnrecognized(pages) == Some(pages[i].page)
  {
    if pages == [] || !HasNumber(pages[0]) {
      i := 0;
    } else {
      i := FirstUnrecognizedIs(pages[1..]);
      i := i + 1;
    }
  }

  /** A set newly reviewable gets one row per page, proposing what was recognized on it, and its first page without a
      number is previewed. */
  lemma FirstProposal(v: View, next: DrawingSet) returns (i: nat)
    requires next.status == Ready && (v.current.None? || v.current.value.id != next.id || v.current.value.status != Ready)
    ensures var w := Step(v, Response(next));
            && |w.rows| == |next.pages| && (forall k :: 0 <= k < |w.rows| ==> Proposes(w.rows[k], next.pages[k]))
            && i <= |next.pages| && (forall j :: 0 <= j < i ==> !Unnumbered(next.pages[j]))
            && (if i == |next.pages| then w.preview == None
                else Unnumbered(next.pages[i]) && w.preview == Some(next.pages[i].page))
  {
    i := FirstUnrecognizedIs(next.pages);
  }

  /** The fields a patch gives are set, the others kept. */
  ghost predicate PatchedTo(r: Row, patch: Patch, after: Row) {
    && after.page == r.page
    && (if patch.included.Some? then patch.included == Some(after.included) else after.included == r.included)
    && (if patch.sheetNumber.Some? then patch.sheetNumber == Some(after.sheetNumber) else after.sheetNumber == r.sheetNumber)
    && (if patch.title.Some? then patch.title == Some(after.title) else after.title == r.title)
    && (if patch.discipline.Some? then patch.discipline == Some(after.discipline) else after.discipline == r.discipline)
    && (if patch.revision.Some? then patch.revision == Some(after.revision) else after.revision == r.revision)
  }

  /** An edit patches the rows of its page and touches nothing else. */
  lemma EditPatches(v: View, page: int, patch: Patch)
    ensures var w := Step(v, Edit(page, patch));
            && w == v.(rows := w.rows) && |w.rows| == |v.rows|
            && forall k :: 0 <= k < |v.rows| ==>
                 if v.rows[k].page == page then PatchedTo(v.rows[k], patch, w.rows[k]) else w.rows[k] == v.rows[k]
  {
  }

  // ----- the outcome and the preview shown -----

  /** The outcome last reported, none once an upload has begun since. */
  function LastOutcome(start: Option<(nat, nat)>, events: seq<Event>): Option<(nat, nat)> {
    if events == [] then start else
      match events[|events| - 1]
      case Response(next) => if next.status == Imported then next.importResult else LastOutcome(start, events[..|events| - 1])
      case UploadStarted => None
      case _ => LastOutcome(start, events[..|events| - 1])
  }

  /** The page last chosen, or proposed by a set newly reviewable since. */
  function LastPreview(v: View, events: seq<Event>): Option<int> {
    if events == [] then v.preview else
      var front := events[..|events| - 1];
      match events[|events| - 1]
      case Previewed(target) => target
      case Response(next) =>
        var c := Run(v, front).current;
        if next.status == Ready && !(c.Some? && c.value.id == next.id && c.value.status == Ready) then FirstUnrecognized(next.pages)
        else LastPreview(v, front)
      case _ => LastPreview(v, front)
  }

  lemma {:induction false} OutcomeAndPreview(v: View, events: seq<Event>)
    ensures Run(v, events).result == LastOutcome(v.result, events)
    ensures Run(v, events).preview == LastPreview(v, events)
  {
    if events != [] {
      OutcomeAndPreview(v, events[..|events| - 1]);
    }
  }

  // ----- what happens to the person's edits -----

  /** The edits among some events, applied to a table on their own. */
  function OnlyEdits(rows: seq<Row>, events: seq<Event>): seq<Row> {
    if events == [] then rows else
      var before := OnlyEdits(rows, events[..|events| - 1]);
      var e := events[|events| - 1];
      if e.Edit? then Updated(before, e.page, e.patch) else before
  }

  /** The event puts other rows on the screen: it discards, reports an import or makes a set reviewable. */
  predicate Overwrites(v: View, e: Event) {
    match e
    case Response(next) => next.status == Imported || Rebuilds(v.current, next)
    case Discarded => v.discarding > 0
    case _ => false
  }

  /** None of the events does, each where it comes in the run. */
  predicate Harmless(v: View, events: seq<Event>) {
    events == [] ||
    var front := events[..|events| - 1];
    Harmless(v, front) && !Overwrites(Run(v, front), events[|events| - 1])
  }

  lemma StepAside(v: View, rows: seq<Row>, e: Event)
    ensures var w := Step(v.(rows := rows), e);
            w == Step(v, e).(rows := w.rows)
  {
  }

  /** Nothing but the rows depends on the rows. */
  lemma {:induction false} RowsAside(v: View, rows: seq<Row>, events: seq<Event>)
    ensures var w := Run(v.(rows := rows), events);
            w == Run(v, events).(rows := w.rows)
  {
    if events != [] {
      var front := events[..|events| - 1];
      RowsAside(v, rows, front);
      StepAside(Run(v, front), Run(v.(rows := rows), front).rows, events[|events| - 1]);
    }
  }

  /** A harmless run leaves exactly the edits it holds. */
  lemma {:induction false} HarmlessKeeps(v: View, rows: seq<Row>, events: seq<Event>)
    requires Harmless(v, events)
    ensures Run(v.(rows := rows), events).rows == OnlyEdits(rows, events)
  {
    if events != [] {
      var front := events[..|events| - 1];
      HarmlessKeeps(v, rows, front);
      RowsAside(v, rows, front);
    }
  }

  /** After an overwriting event nothing is left of the rows there were at first. */
  lemma {:induction false} HarmForgets(v: View, rows: seq<Row>, events: seq<Event>)
    requires !Harmless(v, events)
    ensures Run(v.(rows := rows), events) == Run(v, events)
  {
    var front := events[..|events| - 1];
    RowsAside(v, rows, front);
    if !Harmless(v, front) {
      HarmForgets(v, rows, front);
    }
  }

  lemma {:induction false} OnlyEditsLength(rows: seq<Row>, events: seq<Event>)
    ensures |OnlyEdits(rows, events)| == |rows|
  {
    if events != [] {
      OnlyEditsLength(rows, events[..|events| - 1]);
    }
  }

  /** Over any run, from any screen: whatever rows there are, they come out with exactly the run's edits applied, if and
      only if none of its events discards, reports an import or, where it comes, makes a set reviewable anew. */
  lemma KeepsEditsIff(v: View, events: seq<Event>)
    ensures (forall rows: seq<Row> :: Run(v.(rows := rows), events).rows == OnlyEdits(rows, events)) <==> Harmless(v, events)
  {
    if Harmless(v, events) {
      forall rows: seq<Row> ensures Run(v.(rows := rows), events).rows == OnlyEdits(rows, events) {
        HarmlessKeeps(v, rows, events);
      }
    } else {
      var put := Run(v, events).rows;
      var other := put + [Row(0, false, "", "", "", "")];
      HarmForgets(v, other, events);
      OnlyEditsLength(other, events);
      assert Run(v.(rows := other), events).rows != OnlyEdits(other, events);
    }
  }

  /** While a ready set is on screen, its further ready responses, however many and wherever they fall between
      edits, leave the table exactly as the edits alone would. */
  lemma ReadyResponsesNeverDisturbEdits(v: View, events: seq<Event>)
    requires v.current.Some? && v.current.value.status == Ready
    requires forall e :: e in events ==>
               !e.Discarded? && (e.Response? ==> e.next.id == v.current.value.id && e.next.status == Ready)
    ensures Run(v, events).rows == OnlyEdits(v.rows, events)
    ensures var c := Run(v, events).current; c.Some? && c.value.status == Ready && c.value.id == v.current.value.id
  {
    ReadyResponsesHarmless(v, events);
    HarmlessKeeps(v, v.rows, events);
    assert v.(rows := v.rows) == v;
  }

  lemma ReadyStep(v: View, e: Event, id: string)
    requires v.current.Some? && v.current.value.status == Ready && v.current.value.id == id
    requires !e.Discarded? && (e.Response? ==> e.next.id == id && e.next.status == Ready)
    ensures !Overwrites(v, e)
    ensures var c := Step(v, e).current; c.Some? && c.value.status == Ready && c.value.id == id
  {
  }

  lemma {:induction false} ReadyResponsesHarmless(v: View, events: seq<Event>)
    requires v.current.Some? && v.current.value.status == Ready
    requires forall e :: e in events ==>
               !e.Discarded? && (e.Response? ==> e.next.id == v.current.value.id && e.next.status == Ready)
    ensures Harmless(v, events)
    ensures var c := Run(v, events).current; c.Some? && c.value.status == Ready && c.value.id == v.current.value.id
  {
    if events != [] {
      var front, e := events[..|events| - 1], events[|events| - 1];
      assert forall x :: x in front ==> x in events;
      ReadyResponsesHarmless(v, front);
      assert e in events;
      ReadyStep(Run(v, front), e, v.current.value.id);
    }
  }

  /** An import that fails sends the set back to review: whatever was edited before is replaced by the rows first
      proposed, although the set had been reviewable already. */
  lemma FailedImportDropsEdits(v: View, s: DrawingSet)
    requires s.status == Ready
    ensures Run(v, [Response(s.(status := Importing)), Response(s)]).rows == RowsFor(s.pages)
  {
    var e, f := Response(s.(status := Importing)), Response(s);
    assert [e, f][..1] == [e] && [e][..0] == [];
    assert Run(v, [e]) == Step(v, e);
  }

  const DISCARD := [DiscardPressed, Confirmed(true)]

  lemma DiscardUnderWay(v: View)
    requires v.shown.Some? && v.shown.value.status != Failed
    ensures Run(v, DISCARD) == v.(discarding := v.discarding + 1)
  {
    RunPair(v, DiscardPressed, Confirmed(true));
  }

  /** Nothing shown, nothing to discard; a set that failed to be read is discarded at once; declining keeps any other. */
  lemma DiscardAsks(v: View)
    ensures v.shown.None? ==> Run(v, [DiscardPressed]) == v
    ensures v.shown.Some? && v.shown.value.status == Failed ==> Run(v, [DiscardPressed]) == v.(discarding := v.discarding + 1)
    ensures v.shown.Some? && v.shown.value.status != Failed ==> Run(v, [DiscardPressed, Confirmed(false)]) == v
  {
    assert [] + [DiscardPressed] == [DiscardPressed];
    RunAppend(v, [], DiscardPressed);
    RunPair(v, DiscardPressed, Confirmed(false));
  }

  /** Confirmed and answered, a discard has cleared the screen and is over. */
  lemma DiscardClears(v: View)
    requires v.shown.Some? && v.shown.value.status != Failed
    ensures Run(v, DISCARD + [Discarded]) == v.(current := None, shown := None, rows := [])
  {
    DiscardUnderWay(v);
    RunAppend(v, DISCARD, Discarded);
  }

  /** With two discards under way, the first answer clears the screen, another set is opened, and the second clears that. */
  lemma LateAnswer(v: View, asked: seq<Event>, s: DrawingSet)
    requires Run(v, asked).discarding > 1 && s.status == Ready
    ensures var other := Run(v, asked + [Discarded, Response(s)]);
            other.shown == Some(s) && other.rows == RowsFor(s.pages)
    ensures var late := Run(v, asked + [Discarded, Response(s)] + [Discarded]);
            late.shown == None && late.rows == []
  {
    RunConcat(v, asked, [Discarded, Response(s)]);
    RunPair(Run(v, asked), Discarded, Response(s));
    RunAppend(v, asked + [Discarded, Response(s)], Discarded);
  }

  /** So it goes when discarding is pressed and confirmed twice on one set. */
  lemma LateDiscardClearsOtherSet(v: View, s: DrawingSet)
    requires v.shown.Some? && v.shown.value.status != Failed && s.status == Ready
    ensures var other := Run(v, DISCARD + DISCARD + [Discarded, Response(s)]);
            other.shown == Some(s) && other.rows == RowsFor(s.pages)
    ensures var late := Run(v, DISCARD + DISCARD + [Discarded, Response(s)] + [Discarded]);
            late.shown == None && late.rows == []
  {
    DiscardUnderWay(v);
    DiscardUnderWay(Run(v, DISCARD));
    RunConcat(v, DISCARD, DISCARD);
    LateAnswer(v, DISCARD + DISCARD, s);
  }

  lemma {:induction false} RunConcat(v: View, a: seq<Event>, b: seq<Event>)
    ensures Run(v, a + b) == Run(Run(v, a), b)
  {
    if b == [] {
      assert a + b == a;
    } else {
      var front, e := b[..|b| - 1], b[|b| - 1];
      RunConcat(v, a, front);
      assert b == front + [e] && a + b == (a + front) + [e];
      RunAppend(v, a + front, e);
      RunAppend(Run(v, a), front, e);
    }
  }

  lemma RunPair(v: View, e: Event, f: Event)
    ensures Run(v, [e, f]) == Step(Step(v, e), f)
  {
    assert [e, f] == [] + [e] + [f];
    RunAppend(v, [], e);
    RunAppend(v, [] + [e], f);
  }

  lemma RunAppend(v: View, events: seq<Event>, e: Event)
    ensures Run(v, events + [e]) == Step(Run(v, events), e)
  {
    assert (events + [e])[..|events|] == events;
  }

  /** A late "imported" response of one set takes any other set, edits and all, off the screen. */
  lemma LateImportClearsOtherSet(v: View, s: DrawingSet)
    requires v.shown.Some? && s.id != v.shown.value.id && s.status == Imported
    ensures Step(v, Response(s)).shown == None && Step(v, Response(s)).rows == []
  {
  }

  // ----- the import guard -----

  /** Upper-casing, one character at a time; white space has no case. */
  type CaseMap = f: char -> string | forall c :: IsSpace(c) ==> f(c) == [c]
    witness (c: char) => [c]

  predicate Separator(c: char) {
    IsSpace(c) || c == '.' || c == '_' || c == '-'
  }

  function Strip(s: string): string {
    if s == "" then "" else (if Separator(s[0]) then "" else [s[0]]) + Strip(s[1..])
  }

  /** `n.toUpperCase().replace(/[\s._-]/g, "")`. */
  function Key(n: string, upper: CaseMap): string {
    if n == "" then "" else Strip(upper(n[0])) + Key(n[1..], upper)
  }

  lemma {:induction false} KeyConcat(a: string, b: string, upper: CaseMap)
    ensures Key(a + b, upper) == Key(a, upper) + Key(b, upper)
  {
    if a == "" {
      assert a + b == b;
    } else {
      assert (a + b)[1..] == a[1..] + b;
      KeyConcat(a[1..], b, upper);
    }
  }

  lemma {:induction false} KeyOfSpaces(s: string, upper: CaseMap)
    requires AllSpaces(s)
    ensures Key(s, upper) == ""
  {
    if s != "" {
      assert s[0] in s;
      KeyOfSpaces(s[1..], upper);
      assert Strip([s[0]]) == "";
    }
  }

  /** The key does not see what trimming removes. */
  lemma KeyTrim(s: string, upper: CaseMap)
    ensures Key(Trim(s), upper) == Key(s, upper)
  {
    var lead, tail := TrimSplits(s);
    KeyConcat(lead + Trim(s), tail, upper);
    KeyConcat(lead, Trim(s), upper);
    KeyOfSpaces(lead, upper);
    KeyOfSpaces(tail, upper);
  }

  lemma KeyOfOne(c: char, upper: CaseMap)
    requires upper(c) == [c]
    ensures Key([c], upper) == if IsSpace(c) || c in "._-" then "" else [c]
  {
    assert [c][1..] == "" && Strip([c]) == (if Separator(c) then "" else [c]) + Strip("");
    assert Key([c], upper) == Strip(upper(c)) + Key("", upper);
  }

  /** White space, dots, underscores and hyphens do not count, wherever they stand. */
  lemma KeySkips(a: string, c: char, b: string, upper: CaseMap)
    requires (IsSpace(c) || c in "._-") && upper(c) == [c]
    ensures Key(a + [c] + b, upper) == Key(a + b, upper)
  {
    KeyConcat(a + [c], b, upper);
    KeyConcat(a, [c], upper);
    KeyConcat(a, b, upper);
    KeyOfOne(c, upper);
  }

  /** Nor does case. */
  lemma {:induction false} KeyIgnoresCase(a: string, b: string, upper: CaseMap)
    requires |a| == |b| && forall i :: 0 <= i < |a| ==> upper(a[i]) == upper(b[i])
    ensures Key(a, upper) == Key(b, upper)
  {
    if a != "" {
      KeyIgnoresCase(a[1..], b[1..], upper);
    }
  }

  /** All else does: a number in upper case without those is its own key. */
  lemma {:induction false} KeyKeeps(n: string, upper: CaseMap)
    requires forall c :: c in n ==> upper(c) == [c] && !IsSpace(c) && c !in "._-"
    ensures Key(n, upper) == n
  {
    if n != "" {
      assert n == [n[0]] + n[1..] && n[0] in n;
      KeyConcat([n[0]], n[1..], upper);
      KeyOfOne(n[0], upper);
      KeyKeeps(n[1..], upper);
    }
  }

  function Included(rows: seq<Row>): seq<Row> {
    if rows == [] then [] else (if rows[0].included then [rows[0]] else []) + Included(rows[1..])
  }

  /** How many of `rs` have a number with the key k. */
  function CountOf(rs: seq<Row>, k: string, upper: CaseMap): nat {
    if rs == [] then 0 else
      var r := rs[|rs| - 1];
      CountOf(rs[..|rs| - 1], k, upper) + if Trim(r.sheetNumber) != "" && Key(r.sheetNumber, upper) == k then 1 else 0
  }

  ghost predicate KeysDistinct(rs: seq<Row>, upper: CaseMap) {
    forall i, j :: 0 <= i < j < |rs| ==> Key(rs[i].sheetNumber, upper) != Key(rs[j].sheetNumber, upper)
  }

  /** Something to import, every number given, no number twice. */
  ghost predicate Importable(rs: seq<Row>, upper: CaseMap) {
    rs != [] && (forall r :: r in rs ==> Trim(r.sheetNumber) != "") && KeysDistinct(rs, upper)
  }

  ghost predicate Has(r: Row, k: string, upper: CaseMap) {
    Trim(r.sheetNumber) != "" && Key(r.sheetNumber, upper) == k
  }

  lemma {:induction false} CountedOnce(rs: seq<Row>, k: string, upper: CaseMap, i: nat)
    requires i < |rs| && Has(rs[i], k, upper)
    ensures CountOf(rs, k, upper) >= 1
  {
    if i < |rs| - 1 {
      CountedOnce(rs[..|rs| - 1], k, upper, i);
    }
  }

  lemma {:induction false} CountedTwice(rs: seq<Row>, k: string, upper: CaseMap, i: nat, j: nat)
    requires i < j < |rs| && Has(rs[i], k, upper) && Has(rs[j], k, upper)
    ensures CountOf(rs, k, upper) >= 2
  {
    if j < |rs| - 1 {
      CountedTwice(rs[..|rs| - 1], k, upper, i, j);
    } else {
      CountedOnce(rs[..|rs| - 1], k, upper, i);
    }
  }

  lemma {:induction false} FindCounted(rs: seq<Row>, k: string, upper: CaseMap) returns (i: nat)
    requires CountOf(rs, k, upper) >= 1
    ensures i < |rs| && Has(rs[i], k, upper)
  {
    if Has(rs[|rs| - 1], k, upper) {
      i := |rs| - 1;
    } else {
      i := FindCounted(rs[..|rs| - 1], k, upper);
    }
  }

  lemma {:induction false} FindTwice(rs: seq<Row>, k: string, upper: CaseMap) returns (i: nat, j: nat)
    requires CountOf(rs, k, upper) >= 2
    ensures i < j < |rs| && Has(rs[i], k, upper) && Has(rs[j], k, upper)
  {
    var front := rs[..|rs| - 1];
    if Has(rs[|rs| - 1], k, upper) {
      i := FindCounted(front, k, upper);
      j := |rs| - 1;
    } else {
      i, j := FindTwice(front, k, upper);
    }
  }

  datatype Problem = NoProblem | NeedsNumber | DuplicateNumber

  /** What is wrong with a row, given the included ones. */
  function ProblemOf(r: Row, rs: seq<Row>, upper: CaseMap): Problem {
    if !r.included then NoProblem
    else if Trim(r.sheetNumber) == "" then NeedsNumber
    else if CountOf(rs, Key(r.sheetNumber, upper), upper) > 1 then DuplicateNumber
    else NoProblem
  }

  /** No included row has a problem exactly when all numbers are given and no two share a key. */
  lemma NoProblemsIff(rs: seq<Row>, upper: CaseMap)
    requires rs != [] && forall r :: r in rs ==> r.included
    ensures (forall r :: r in rs ==> ProblemOf(r, rs, upper) == NoProblem) <==> Importable(rs, upper)
  {
    if Importable(rs, upper) {
      forall r | r in rs ensures ProblemOf(r, rs, upper) == NoProblem {
        if CountOf(rs, Key(r.sheetNumber, upper), upper) >= 2 {
          var i, j := FindTwice(rs, Key(r.sheetNumber, upper), upper);
          assert false;
        }
      }
    }
    if forall r :: r in rs ==> ProblemOf(r, rs, upper) == NoProblem {
      forall i, j | 0 <= i < j < |rs| ensures Key(rs[i].sheetNumber, upper) != Key(rs[j].sheetNumber, upper) {
        assert rs[i] in rs && rs[j] in rs;
        if Key(rs[i].sheetNumber, upper) == Key(rs[j].sheetNumber, upper) {
          CountedTwice(rs, Key(rs[i].sheetNumber, upper), upper, i, j);
        }
      }
    }
  }

  /** The key counts, filled row by row. */
  method CountKeys(rs: seq<Row>, upper: CaseMap) returns (counts: map<string, nat>)
    ensures forall k :: CountOf(rs, k, upper) == if k in counts then counts[k] else 0
  {
    counts := map[];
    for i := 0 to |rs|
      invariant forall k :: CountOf(rs[..i], k, upper) == if k in counts then counts[k] else 0
    {
      assert rs[..i + 1][..i] == rs[..i];
      if Trim(rs[i].sheetNumber) != "" {
        var k := Key(rs[i].sheetNumber, upper);
        counts := counts[k := (if k in counts then counts[k] else 0) + 1];
      }
    }
    assert rs[..|rs|] == rs;
  }

  /** A row's problem, by the counts. */
  function ProblemBy(r: Row, counts: map<string, nat>, upper: CaseMap): Problem {
    var key := Key(r.sheetNumber, upper);
    if !r.included then NoProblem
    else if Trim(r.sheetNumber) == "" then NeedsNumber
    else if (if key in counts then counts[key] else 0) > 1 then DuplicateNumber
    else NoProblem
  }

  /** `blocked`, as rendered beside the import button. */
  method ImportBlocked(rows: seq<Row>, upper: CaseMap) returns (blocked: bool)
    ensures !blocked <==> TickedImportable(rows, upper)
  {
    var included := Included(rows);
    var counts := CountKeys(included, upper);
    blocked := |included| == 0 || exists r :: r in included && ProblemBy(r, counts, upper) != NoProblem;
    IncludedTicked(rows);
    TickedIff(rows, upper);
    if included != [] {
      assert forall r :: r in included ==> ProblemBy(r, counts, upper) == ProblemOf(r, included, upper);
      NoProblemsIff(included, upper);
    }
  }

  /** What is said beside the i-th row. */
  method ShowProblem(rows: seq<Row>, i: nat, upper: CaseMap) returns (problem: Problem)
    requires i < |rows|
    ensures problem == NeedsNumber <==> rows[i].included && AllSpaces(rows[i].sheetNumber)
    ensures problem == DuplicateNumber <==> rows[i].included && !AllSpaces(rows[i].sheetNumber) && SharesKey(rows, i, upper)
  {
    var included := Included(rows);
    var counts := CountKeys(included, upper);
    problem := ProblemBy(rows[i], counts, upper);
    TrimBlank(rows[i].sheetNumber);
    if rows[i].included && Trim(rows[i].sheetNumber) != "" {
      SharedIff(rows, i, upper);
    }
  }

  /** Another ticked row has a number that counts as the same. */
  ghost predicate SharesKey(rows: seq<Row>, i: nat, upper: CaseMap)
    requires i < |rows|
  {
    exists j :: 0 <= j < |rows| && j != i && SameSheet(rows[i], rows[j], upper)
  }

  ghost predicate SameSheet(r: Row, other: Row, upper: CaseMap) {
    other.included && !AllSpaces(other.sheetNumber) && Key(other.sheetNumber, upper) == Key(r.sheetNumber, upper)
  }

  /** The count of a ticked and numbered row's key is more than one exactly if another row shares it. */
  lemma SharedIff(rows: seq<Row>, i: nat, upper: CaseMap)
    requires i < |rows| && rows[i].included && Trim(rows[i].sheetNumber) != ""
    ensures CountOf(Included(rows), Key(rows[i].sheetNumber, upper), upper) > 1 <==> SharesKey(rows, i, upper)
  {
    var rs, k := Included(rows), Key(rows[i].sheetNumber, upper);
    if CountOf(rs, k, upper) > 1 {
      var a, b := FindTwice(rs, k, upper);
      var m, n := IncludedInOrder(rows, a, b);
      TrimBlank(rows[m].sheetNumber);
      TrimBlank(rows[n].sheetNumber);
      assert SameSheet(rows[i], rows[if m == i then n else m], upper);
    }
    if SharesKey(rows, i, upper) {
      var j :| 0 <= j < |rows| && j != i && SameSheet(rows[i], rows[j], upper);
      TrimBlank(rows[j].sheetNumber);
      var a, b := IncludedBoth(rows, if i < j then i else j, if i < j then j else i);
      CountedTwice(rs, k, upper, a, b);
    }
  }

  // ----- the ticked rows -----

  lemma {:induction false} IncludedTicked(rows: seq<Row>)
    ensures forall r :: r in Included(rows) ==> r.included
  {
    if rows != [] {
      IncludedTicked(rows[1..]);
    }
  }

  /** The rows to import are the ticked ones: each as often as it stands in the table, the others never. */
  lemma {:induction false} IncludedIff(rows: seq<Row>, r: Row)
    ensures multiset(Included(rows))[r] == if r.included then multiset(rows)[r] else 0
    ensures r in Included(rows) <==> r in rows && r.included
  {
    if rows != [] {
      IncludedIff(rows[1..], r);
      assert rows == [rows[0]] + rows[1..];
    }
  }

  /** Their order is the table's: two of them stand at two places in that order, both ticked. */
  lemma {:induction false} IncludedInOrder(rows: seq<Row>, i: nat, j: nat) returns (k: nat, m: nat)
    requires i < j < |Included(rows)|
    ensures k < m < |rows| && rows[k] == Included(rows)[i] && rows[m] == Included(rows)[j]
    ensures rows[k].included && rows[m].included
  {
    if rows[0].included && i == 0 {
      k := 0;
      m := IncludedAt(rows[1..], j - 1);
      m := m + 1;
    } else {
      var shift := if rows[0].included then 1 else 0;
      k, m := IncludedInOrder(rows[1..], i - shift, j - shift);
      k, m := k + 1, m + 1;
    }
  }

  lemma {:induction false} IncludedAt(rows: seq<Row>, i: nat) returns (k: nat)
    requires i < |Included(rows)|
    ensures k < |rows| && rows[k] == Included(rows)[i] && rows[k].included
  {
    if rows[0].included && i == 0 {
      k := 0;
    } else {
      k := IncludedAt(rows[1..], if rows[0].included then i - 1 else i);
      k := k + 1;
    }
  }

  /** And conversely. */
  lemma {:induction false} IncludedFrom(rows: seq<Row>, k: nat) returns (i: nat)
    requires k < |rows| && rows[k].included
    ensures i < |Included(rows)| && Included(rows)[i] == rows[k]
  {
    if k == 0 {
      i := 0;
    } else {
      i := IncludedFrom(rows[1..], k - 1);
      i := if rows[0].included then i + 1 else i;
    }
  }

  lemma {:induction false} IncludedBoth(rows: seq<Row>, k: nat, m: nat) returns (i: nat, j: nat)
    requires k < m < |rows| && rows[k].included && rows[m].included
    ensures i < j < |Included(rows)| && Included(rows)[i] == rows[k] && Included(rows)[j] == rows[m]
  {
    if k == 0 {
      i := 0;
      j := IncludedFrom(rows[1..], m - 1);
      j := j + 1;
    } else {
      i, j := IncludedBoth(rows[1..], k - 1, m - 1);
      var shift := if rows[0].included then 1 else 0;
      i, j := i + shift, j + shift;
    }
  }

  /** What the guard is for: something ticked, every ticked row numbered, no two of them alike. */
  ghost predicate TickedImportable(rows: seq<Row>, upper: CaseMap) {
    && (exists r :: r in rows && r.included)
    && (forall r :: r in rows && r.included ==> !AllSpaces(r.sheetNumber))
    && (forall k, m :: 0 <= k < m < |rows| && rows[k].included && rows[m].included ==>
          Key(rows[k].sheetNumber, upper) != Key(rows[m].sheetNumber, upper))
  }

  lemma TickedIff(rows: seq<Row>, upper: CaseMap)
    ensures Importable(Included(rows), upper) <==> TickedImportable(rows, upper)
  {
    var rs := Included(rows);
    forall r ensures r in rs <==> r in rows && r.included {
      IncludedIff(rows, r);
    }
    forall r: Row ensures Trim(r.sheetNumber) == "" <==> AllSpaces(r.sheetNumber) {
      TrimBlank(r.sheetNumber);
    }
    if rs != [] {
      assert rs[0] in rs;
    }
    if KeysDistinct(rs, upper) {
      forall k, m | 0 <= k < m < |rows| && rows[k].included && rows[m].included
        ensures Key(rows[k].sheetNumber, upper) != Key(rows[m].sheetNumber, upper)
      {
        var i, j := IncludedBoth(rows, k, m);
      }
    }
    if TickedImportable(rows, upper) {
      forall i, j | 0 <= i < j < |rs| ensures Key(rs[i].sheetNumber, upper) != Key(rs[j].sheetNumber, upper) {
        var k, m := IncludedInOrder(rows, i, j);
      }
    }
  }

  // ----- what is posted, and the server's check of it -----

  datatype PostedPage = PostedPage(page: int, sheetNumber: string, title: Option<string>, discipline: Option<string>, revision: Option<string>)

  function Filled(s: string): Option<string> {
    if Trim(s) == "" then None else Some(Trim(s))
  }

  function Posted(rs: seq<Row>): (pages: seq<PostedPage>)
    ensures |pages| == |rs|
    ensures forall i :: 0 <= i < |rs| ==> pages[i].page == rs[i].page && pages[i].sheetNumber == Trim(rs[i].sheetNumber)
  {
    if rs == [] then [] else
      [PostedPage(rs[0].page, Trim(rs[0].sheetNumber), Filled(rs[0].title), Filled(rs[0].discipline), Filled(rs[0].revision))]
      + Posted(rs[1..])
  }

  datatype ImportCheck = Accepted | NoSuchPage(page: int) | PageTwice(page: int) | NumberTwice(first: int, second: int)

  /** The pages the server accepts: within the set, none twice, no two sheet numbers with one key. */
  ghost predicate Acceptable(pages: seq<PostedPage>, pageCount: nat, upper: CaseMap) {
    && (forall p :: p in pages ==> p.page <= pageCount)
    && (forall i, j :: 0 <= i < j < |pages| ==>
          pages[i].page != pages[j].page && Key(pages[i].sheetNumber, upper) != Key(pages[j].sheetNumber, upper))
  }

  ghost function PagesIn(pages: seq<PostedPage>): set<int> {
    set p | p in pages :: p.page
  }

  ghost function KeysIn(pages: seq<PostedPage>, upper: CaseMap): set<string> {
    set p | p in pages :: Key(p.sheetNumber, upper)
  }

  /** An earlier page has this key. */
  ghost predicate Seen(pages: seq<PostedPage>, n: nat, key: string, page: int, upper: CaseMap)
    requires n <= |pages|
  {
    exists i :: 0 <= i < n && pages[i].page == page && Key(pages[i].sheetNumber, upper) == key
  }

  lemma AcceptableNext(pages: seq<PostedPage>, n: nat, pageCount: nat, upper: CaseMap)
    requires n < |pages| && Acceptable(pages[..n], pageCount, upper)
    ensures var p := pages[n];
            Acceptable(pages[..n + 1], pageCount, upper)
            <==> p.page <= pageCount && p.page !in PagesIn(pages[..n]) && Key(p.sheetNumber, upper) !in KeysIn(pages[..n], upper)
    ensures PagesIn(pages[..n + 1]) == PagesIn(pages[..n]) + {pages[n].page}
    ensures KeysIn(pages[..n + 1], upper) == KeysIn(pages[..n], upper) + {Key(pages[n].sheetNumber, upper)}
  {
    var done, p, next := pages[..n], pages[n], pages[..n + 1];
    assert next == done + [p];
    if Acceptable(next, pageCount, upper) {
      forall q | q in done ensures q.page != p.page && Key(q.sheetNumber, upper) != Key(p.sheetNumber, upper) {
        var i :| 0 <= i < n && done[i] == q;
        assert next[i] == q && next[n] == p;
      }
      assert p in next;
    } else if p.page <= pageCount && p.page !in PagesIn(done) && Key(p.sheetNumber, upper) !in KeysIn(done, upper) {
      forall i, j | 0 <= i < j < n + 1
        ensures next[i].page != next[j].page && Key(next[i].sheetNumber, upper) != Key(next[j].sheetNumber, upper)
      {
        assert next[i] == done[i] && done[i] in done;
        if j < n {
          assert next[j] == done[j];
        }
      }
      assert false;
    }
  }

  lemma AcceptablePrefix(pages: seq<PostedPage>, n: nat, pageCount: nat, upper: CaseMap)
    requires n <= |pages| && Acceptable(pages, pageCount, upper)
    ensures Acceptable(pages[..n], pageCount, upper)
  {
  }

  /** The import endpoint's check, first fault first. */
  method CheckImport(pages: seq<PostedPage>, pageCount: nat, upper: CaseMap) returns (outcome: ImportCheck)
    ensures outcome == Accepted <==> Acceptable(pages, pageCount, upper)
    ensures outcome.NoSuchPage? ==> outcome.page > pageCount && outcome.page in PagesIn(pages)
    ensures outcome.PageTwice? ==> exists j :: 0 <= j < |pages| && pages[j].page == outcome.page && outcome.page in PagesIn(pages[..j])
    ensures outcome.NumberTwice? ==> exists j :: 0 <= j < |pages| && pages[j].page == outcome.second
                                       && Seen(pages, j, Key(pages[j].sheetNumber, upper), outcome.first, upper)
  {
    var seenPages: set<int> := {};
    var seenKeys: map<string, int> := map[];
    for n := 0 to |pages|
      invariant Acceptable(pages[..n], pageCount, upper)
      invariant seenPages == PagesIn(pages[..n]) && seenKeys.Keys == KeysIn(pages[..n], upper)
      invariant forall k :: k in seenKeys ==> Seen(pages, n, k, seenKeys[k], upper)
    {
      var p := pages[n];
      AcceptableNext(pages, n, pageCount, upper);
      if Acceptable(pages, pageCount, upper) {
        AcceptablePrefix(pages, n + 1, pageCount, upper);
      }
      if p.page > pageCount {
        return NoSuchPage(p.page);
      }
      if p.page in seenPages {
        return PageTwice(p.page);
      }
      var key := Key(p.sheetNumber, upper);
      if key in seenKeys {
        return NumberTwice(seenKeys[key], p.page);
      }
      assert pages[n].page == p.page && Key(pages[n].sheetNumber, upper) == key;
      seenPages := seenPages + {p.page};
      seenKeys := seenKeys[key := p.page];
    }
    assert pages[..|pages|] == pages;
    outcome := Accepted;
  }

  /** A filled field is posted trimmed, a blank one not at all. */
  ghost predicate PostsField(posted: Option<string>, field: string) {
    match posted
    case None => AllSpaces(field)
    case Some(s) => s == Trim(field) && !AllSpaces(field)
  }

  ghost predicate PostsRow(p: PostedPage, r: Row) {
    && p.page == r.page && p.sheetNumber == Trim(r.sheetNumber)
    && PostsField(p.title, r.title) && PostsField(p.discipline, r.discipline) && PostsField(p.revision, r.revision)
  }

  lemma FilledPosts(s: string)
    ensures PostsField(Filled(s), s)
    ensures forall o :: PostsField(o, s) ==> o == Filled(s)
  {
    TrimBlank(s);
  }

  lemma {:induction false} PostedAt(rs: seq<Row>, i: nat)
    requires i < |rs|
    ensures PostsRow(Posted(rs)[i], rs[i]) && forall p :: PostsRow(p, rs[i]) ==> p == Posted(rs)[i]
  {
    if i == 0 {
      FilledPosts(rs[0].title);
      FilledPosts(rs[0].discipline);
      FilledPosts(rs[0].revision);
    } else {
      PostedAt(rs[1..], i - 1);
    }
  }

  /** The posted pages are those of the ticked rows, with their fields, and no others. */
  lemma PostedIff(rows: seq<Row>, p: PostedPage)
    ensures p in Posted(Included(rows)) <==> exists r :: r in rows && r.included && PostsRow(p, r)
  {
    var rs := Included(rows);
    if p in Posted(rs) {
      var i :| 0 <= i < |rs| && Posted(rs)[i] == p;
      PostedAt(rs, i);
      IncludedIff(rows, rs[i]);
      assert rs[i] in rs;
    }
    if r :| r in rows && r.included && PostsRow(p, r) {
      IncludedIff(rows, r);
      var i :| 0 <= i < |rs| && rs[i] == r;
      PostedAt(rs, i);
      assert Posted(rs)[i] in Posted(rs);
    }
  }

  /** The trimmed numbers that an unblocked import posts are still pairwise distinct under the key. */
  lemma PostedKeysDistinct(rs: seq<Row>, upper: CaseMap)
    requires Importable(rs, upper)
    ensures forall i, j :: 0 <= i < j < |rs| ==>
              Key(Posted(rs)[i].sheetNumber, upper) != Key(Posted(rs)[j].sheetNumber, upper)
    ensures forall i :: 0 <= i < |rs| ==> Posted(rs)[i].sheetNumber != ""
  {
    forall i, j | 0 <= i < j < |rs|
      ensures Key(Posted(rs)[i].sheetNumber, upper) != Key(Posted(rs)[j].sheetNumber, upper)
    {
      KeyTrim(rs[i].sheetNumber, upper);
      KeyTrim(rs[j].sheetNumber, upper);
    }
  }

  /** After any run, whatever was edited, an unblocked import of the set on screen passes the server's checks: the
      set's own pages, numbered without repetition and within its page count, are all that can be posted. */
  lemma UnblockedImportAccepted(events: seq<Event>, pagesOf: string -> seq<int>, upper: CaseMap)
    requires PagesFixed(events, pagesOf)
    requires var v := Run(EMPTY_VIEW, events); v.shown.Some? && v.shown.value.status == Ready
    requires var s := Run(EMPTY_VIEW, events).shown.value;
             Distinct(PageNumbers(s.pages)) && forall n :: n in PageNumbers(s.pages) ==> n <= s.pageCount
    requires TickedImportable(Run(EMPTY_VIEW, events).rows, upper)
    ensures var v := Run(EMPTY_VIEW, events);
            Acceptable(Posted(Included(v.rows)), v.shown.value.pageCount, upper)
  {
    var v := Run(EMPTY_VIEW, events);
    var rs := Included(v.rows);
    RunConsistent(events, pagesOf);
    TickedIff(v.rows, upper);
    PostedKeysDistinct(rs, upper);
    forall i, j | 0 <= i < j < |rs| ensures rs[i].page != rs[j].page {
      var k, m := IncludedInOrder(v.rows, i, j);
      assert RowPages(v.rows)[k] == rs[i].page && RowPages(v.rows)[m] == rs[j].page;
    }
    forall i | 0 <= i < |rs| ensures rs[i].page <= v.shown.value.pageCount {
      var k := IncludedAt(v.rows, i);
      assert RowPages(v.rows)[k] == rs[i].page;
      assert PageNumbers(v.shown.value.pages)[k] in PageNumbers(v.shown.value.pages);
    }
  }
}
