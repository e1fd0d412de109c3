/** The capture-scroll controller: `captureFull` (entrypoints/background.ts,
    lines 170-229) as a step function over per-step browser results, and the
    `captureTab` handler that starts a session (lines 234-259). The two
    module-level variables `screenshots` and `lastScreenshotData` (lines 4
    and 6) are carried explicitly as `Globals`. */
module Controller {
  import opened Options
  import opened Raster
  import opened OverlapScan
  import opened Pages
  import opened FileNames

  /** Messages and commands the background script issues, in order. */
  datatype Event =
    | Progress(current: nat, total: Total)          // "captureProgress" message
    | Calculating                                   // "calculating" message
    | ScrollToTop                                   // window.scrollTo(0, 0)
    /** `window.scrollBy`, recorded with the viewport height and the two
        captures its distance is measured from; `Tenths` gives the distance. */
    | Scroll(viewport: nat, previousCapture: Option<Image>, capture: Image)
    | Download(pages: seq<Image>, fileName: string) // savePDF reaching chrome.downloads

  /** The distance of a scroll command in tenths of a pixel, from the
      viewport height and the two captures it was measured on. */
  function Tenths(e: Event): int
    requires e.Scroll?
  {
    ScrollTenths(e.viewport, e.previousCapture, e.capture)
  }

  /** Module-level state that outlives a session. */
  datatype Globals = Globals(screenshots: seq<Image>, lastScreenshot: Option<Image>)

  /** What the browser answers during one call of `captureFull`:
      the capture (`None` when `captureVisibleTab` gives no data and the
      promise rejects), `window.innerHeight` (0 when absent or zero), and
      whether `executeScroll` resolved. */
  datatype StepOracle = StepOracle(capture: Option<Image>, viewportHeight: nat, scrollOk: bool)

  /** How `savePDF` ends: it downloads; it returns early for want of an
      active tab id; or it throws. */
  datatype SaveOutcome = Downloaded | NoActiveTab | SaveThrew

  /** `Running`: the next `captureFull` call is pending. `Finished`: the final
      page was captured and `savePDF` returned. `Stopped`: the session ended
      on an early return or a rejected promise. */
  datatype Status = Running | Finished | Stopped

  /** Where a session stands between two calls of `captureFull`. */
  datatype Session = Session(globals: Globals, page: nat, status: Status)

  /** A session together with the events emitted on the way to it. */
  datatype Outcome = Outcome(session: Session, events: seq<Event>)

  /** `currentPage >= totalPages`; never true against Infinity or NaN. */
  predicate IsLastPage(page: nat, total: Total)
  {
    total.Finite? && page >= total.n
  }

  /** `getImageData` accepts the strip of this capture: it has at least one
      column and `floor(0.3 * height) > 0` rows, i.e. the capture is at least
      4 rows tall. Otherwise reading the strip's pixels throws and
      `detectOverlap` rejects. */
  predicate Measurable(img: Image)
  {
    img.width > 0 && img.height >= 4
  }

  /** `Measurable` is exactly "the bottom strip is not empty". */
  lemma MeasurableIffStripNonEmpty(img: Image)
    ensures Measurable(img) <==> BottomStrip(img).width > 0 && BottomStrip(img).height > 0
  {
  }

  /** A previous capture, if any, that an overlap can be measured against. */
  predicate Comparable(previous: Option<Image>)
  {
    previous.None? || Measurable(previous.value)
  }

  /** A call on which every browser request succeeds and the capture can be
      measured against the next one. */
  predicate Succeeds(o: StepOracle)
  {
    o.capture.Some? && Measurable(o.capture.value) && o.viewportHeight > 0 && o.scrollOk
  }

  /** Scroll distance in tenths of a pixel: `viewportHeight * 0.9`, minus the
      measured overlap when a previous capture exists. It is not clamped. */
  function ScrollTenths(viewport: nat, previous: Option<Image>, current: Image): (d: int)
    ensures previous.None? ==> d == 9 * viewport
    ensures previous.Some? ==> 9 * viewport - 3 * previous.value.height <= d <= 9 * viewport
    ensures previous.Some? && previous.value.height == viewport ==> d >= 6 * viewport
  {
    match previous
    case None => 9 * viewport
    case Some(p) =>
      var v := Overlap(p, current);
      assert 10 * v <= 10 * StripHeight(p.height) <= 3 * p.height;
      9 * viewport - 10 * v
  }

  /** One call of `captureFull(tabId, page, total, fileName)`. */
  function Step(s: Session, total: Total, fileName: string, o: StepOracle, save: SaveOutcome): (r: Outcome)
    requires s.status == Running
    ensures |r.events| >= 1 && r.events[0] == Progress(s.page, total)
    ensures r.session.status == Running ==>
              && o.capture.Some? && o.viewportHeight > 0 && o.scrollOk && !IsLastPage(s.page, total)
              && (s.globals.lastScreenshot.Some? ==>
                    Measurable(s.globals.lastScreenshot.value) && Measurable(o.capture.value))
              && r.session.page == s.page + 1
              && r.session.globals == Globals(s.globals.screenshots + [o.capture.value], o.capture)
              && |r.events| == 2 && r.events[1] == Scroll(o.viewportHeight, s.globals.lastScreenshot, o.capture.value)
    ensures r.session.status == Finished ==>
              && o.capture.Some? && IsLastPage(s.page, total)
              && r.session.globals == Globals([], s.globals.lastScreenshot)
    ensures r.session.status == Stopped ==>
              r.session.globals.screenshots == s.globals.screenshots ||
              (o.capture.Some? && r.session.globals.screenshots == s.globals.screenshots + [o.capture.value])
    ensures o.capture.None? ==> r.session.status == Stopped && r.session.globals == s.globals && |r.events| == 1
    ensures r.session.globals.lastScreenshot != s.globals.lastScreenshot ==>
              r.session.globals.lastScreenshot == o.capture && !IsLastPage(s.page, total)
  {
    var progress := Progress(s.page, total);
    var last := s.globals.lastScreenshot;
    match o.capture
    case None => Outcome(s.(status := Stopped), [progress])
    case Some(img) =>
      var shots := s.globals.screenshots + [img];
      if IsLastPage(s.page, total) then
        match save
        case Downloaded =>
          Outcome(Session(Globals([], last), s.page, Finished), [progress, Download(shots, fileName)])
        case NoActiveTab => Outcome(Session(Globals([], last), s.page, Finished), [progress])
        case SaveThrew => Outcome(Session(Globals(shots, last), s.page, Stopped), [progress])
      else if o.viewportHeight == 0 then
        Outcome(Session(Globals(shots, last), s.page, Stopped), [progress])
      else if last.Some? && !(Measurable(last.value) && Measurable(img)) then
        // detectOverlap rejects on an empty strip, before lastScreenshotData is updated
        Outcome(Session(Globals(shots, last), s.page, Stopped), [progress])
      else
        var g := Globals(shots, Some(img));
        if o.scrollOk then Outcome(Session(g, s.page + 1, Running), [progress, Scroll(o.viewportHeight, last, img)])
        else Outcome(Session(g, s.page, Stopped), [progress])
  }

  /** The recursion of line 228, driven by one oracle per call until the
      session ends or the oracles run out. */
  function Run(s: Session, total: Total, fileName: string, steps: seq<StepOracle>, save: SaveOutcome): (r: Outcome)
    ensures s.status != Running ==> r.session == s && r.events == []
    ensures r.session.status == Running ==> r.session.page == s.page + |steps|
    ensures r.session.page >= s.page
    decreases |steps|
  {
    if s.status != Running || |steps| == 0 then Outcome(s, [])
    else
      var first := Step(s, total, fileName, steps[0], save);
      var rest := Run(first.session, total, fileName, steps[1..], save);
      Outcome(rest.session, first.events + rest.events)
  }

  /** The `captureTab` message handler: `url` and `hostname` are the active
      tab's URL and its parsed host name, `hasId` whether it has a tab id,
      `measured` the result of the page-height script. */
  function CaptureTab(g: Globals, url: string, hostname: string, hasId: bool,
                      measured: Option<Geometry>, steps: seq<StepOracle>, save: SaveOutcome): (r: Outcome)
    ensures |r.events| >= 1 && r.events[0] == Progress(0, Finite(0))
    ensures !hasId ==> r.session.globals == g && r.session.status == Stopped && |r.events| == 1
    ensures hasId ==> |r.events| >= 3 && r.events[..3] == [Progress(0, Finite(0)), ScrollToTop, Calculating]
  {
    var opening := [Progress(0, Finite(0))];
    if !hasId then Outcome(Session(g, 0, Stopped), opening)
    else
      var run := Run(Session(g, 1, Running), TotalPages(measured), FileName(url, hostname), steps, save);
      var prefix := opening + [ScrollToTop, Calculating];
      assert (prefix + run.events)[..3] == prefix;
      Outcome(run.session, prefix + run.events)
  }

  // ---------------------------------------------------------------------
  // Projections of the event trace

  function ProgressOf(e: Event): seq<nat> { if e.Progress? then [e.current] else [] }
  function ScrollOf(e: Event): seq<Event> { if e.Scroll? then [e] else [] }
  function DownloadOf(e: Event): seq<seq<Image>> { if e.Download? then [e.pages] else [] }

  /** The `current` fields of the progress messages, in order. */
  function Currents(evs: seq<Event>): seq<nat>
  {
    if |evs| == 0 then [] else ProgressOf(evs[0]) + Currents(evs[1..])
  }

  /** The scroll commands, in order. */
  function Scrolls(evs: seq<Event>): seq<Event>
  {
    if |evs| == 0 then [] else ScrollOf(evs[0]) + Scrolls(evs[1..])
  }

  /** The page sequences handed to the downloads API, in order. */
  function Downloads(evs: seq<Event>): seq<seq<Image>>
  {
    if |evs| == 0 then [] else DownloadOf(evs[0]) + Downloads(evs[1..])
  }

  lemma {:induction false} ProjectionsAppend(a: seq<Event>, b: seq<Event>)
    ensures Currents(a + b) == Currents(a) + Currents(b)
    ensures Scrolls(a + b) == Scrolls(a) + Scrolls(b)
    ensures Downloads(a + b) == Downloads(a) + Downloads(b)
  {
    if |a| > 0 {
      assert (a + b)[0] == a[0];
      assert (a + b)[1..] == a[1..] + b;
      ProjectionsAppend(a[1..], b);
    } else {
      assert a + b == b;
    }
  }

  lemma AppendAssoc<T>(a: seq<T>, b: seq<T>, c: seq<T>)
    ensures (a + b) + c == a + (b + c)
  {
  }

  /** `p, p+1, ..., p+n-1`. */
  function PageRange(p: nat, n: nat): (r: seq<nat>)
    ensures |r| == n
    ensures forall i :: 0 <= i < n ==> r[i] == p + i
    decreases n
  {
    if n == 0 then [] else [p] + PageRange(p + 1, n - 1)
  }

  /** The images of the successful captures, in capture order. */
  function Captured(steps: seq<StepOracle>): seq<Image>
  {
    if |steps| == 0 then []
    else (if steps[0].capture.Some? then [steps[0].capture.value] else []) + Captured(steps[1..])
  }

  /** The scroll commands of calls that each capture and scroll: every one
      measures its capture against the capture before it, the first against
      `previous`. The chain ends at the first call without a capture. */
  function ScrollChain(previous: Option<Image>, steps: seq<StepOracle>): (r: seq<Event>)
    ensures |r| <= |steps|
    decreases |steps|
  {
    if |steps| == 0 then []
    else
      match steps[0].capture
      case None => []
      case Some(img) => [Scroll(steps[0].viewportHeight, previous, img)] + ScrollChain(Some(img), steps[1..])
  }

  /** The chain over the first `m` calls starts with the first call's scroll. */
  lemma ScrollChainOfPrefix(previous: Option<Image>, steps: seq<StepOracle>, m: nat)
    requires 1 <= m <= |steps| && steps[0].capture.Some?
    ensures var img := steps[0].capture.value;
            ScrollChain(previous, steps[..m]) ==
              [Scroll(steps[0].viewportHeight, previous, img)] + ScrollChain(Some(img), steps[1..][..m - 1])
  {
    assert steps[..m][1..] == steps[1..][..m - 1];
  }

  /** Number of `captureFull` calls a session makes from `page` on when
      nothing fails: `max(total - page + 1, 1)`. */
  function CallsLeft(page: nat, n: nat): nat
  {
    if n >= page then n - page + 1 else 1
  }

  // ---------------------------------------------------------------------
  // Properties

  /** A call on which every browser request succeeds before the final page:
      the capture joins the buffer, becomes `lastScreenshot`, and one scroll
      is commanded before the next page. */
  lemma StepContinues(s: Session, total: Total, fileName: string, o: StepOracle, save: SaveOutcome)
    requires s.status == Running && Succeeds(o) && !IsLastPage(s.page, total)
    requires Comparable(s.globals.lastScreenshot)
    ensures Step(s, total, fileName, o, save) ==
              Outcome(Session(Globals(s.globals.screenshots + [o.capture.value], o.capture), s.page + 1, Running),
                      [Progress(s.page, total),
                       Scroll(o.viewportHeight, s.globals.lastScreenshot, o.capture.value)])
  {
  }

  /** A capture on the final page followed by a download: the whole buffer
      goes to the downloads API, then the buffer is emptied while
      `lastScreenshot` is left as it was. */
  lemma StepFinishes(s: Session, total: Total, fileName: string, o: StepOracle)
    requires s.status == Running && o.capture.Some? && IsLastPage(s.page, total)
    ensures Step(s, total, fileName, o, Downloaded) ==
              Outcome(Session(Globals([], s.globals.lastScreenshot), s.page, Finished),
                      [Progress(s.page, total), Download(s.globals.screenshots + [o.capture.value], fileName)])
  {
  }

  /** A failed capture ends the session at once, touching neither module-level variable. */
  lemma StepCaptureFails(s: Session, total: Total, fileName: string, o: StepOracle, save: SaveOutcome)
    requires s.status == Running && o.capture.None?
    ensures Step(s, total, fileName, o, save) ==
              Outcome(Session(s.globals, s.page, Stopped), [Progress(s.page, total)])
  {
  }

  /** With a previous capture, a call that is not the last and whose
      strips cannot both be read ends the session: the capture is already in
      the buffer, `lastScreenshot` is left as it was and nothing scrolls. */
  lemma EmptyStripStops(s: Session, total: Total, fileName: string, o: StepOracle, save: SaveOutcome)
    requires s.status == Running && s.globals.lastScreenshot.Some?
    requires o.capture.Some? && o.viewportHeight > 0 && !IsLastPage(s.page, total)
    requires !Measurable(s.globals.lastScreenshot.value) || !Measurable(o.capture.value)
    ensures var r := Step(s, total, fileName, o, save);
            && r.session.status == Stopped
            && r.session.globals == Globals(s.globals.screenshots + [o.capture.value], s.globals.lastScreenshot)
            && r.events == [Progress(s.page, total)]
  {
  }

  /** A run that has not ended yet: the first call's events come first. */
  lemma RunUnfolds(s: Session, total: Total, fileName: string, steps: seq<StepOracle>, save: SaveOutcome)
    requires s.status == Running && |steps| > 0
    ensures var first := Step(s, total, fileName, steps[0], save);
            var rest := Run(first.session, total, fileName, steps[1..], save);
            Run(s, total, fileName, steps, save) == Outcome(rest.session, first.events + rest.events)
  {
  }

  /** The events the handler emits before the first capture carry the
      progress value 0 and no scroll or download. */
  lemma OpeningProjections()
    ensures var head := [Progress(0, Finite(0)), ScrollToTop, Calculating];
            Currents(head) == [0] && Scrolls(head) == [] && Downloads(head) == []
  {
    var tail := [ScrollToTop, Calculating];
    ProjectionsAppend([ScrollToTop], [Calculating]);
    assert tail == [ScrollToTop] + [Calculating];
    ProjectionsAppend([Progress(0, Finite(0))], tail);
    assert [Progress(0, Finite(0)), ScrollToTop, Calculating] == [Progress(0, Finite(0))] + tail;
  }

  /** The final call of a session, when its capture succeeds and the
      download happens: one progress message, no scroll, and one download of
      the whole buffer; the session is finished with an empty buffer. */
  lemma FinalCall(s: Session, n: nat, fileName: string, o: StepOracle)
    requires s.status == Running && o.capture.Some? && s.page >= n
    ensures var r := Run(s, Finite(n), fileName, [o], Downloaded);
            && r.session == Session(Globals([], s.globals.lastScreenshot), s.page, Finished)
            && Currents(r.events) == [s.page]
            && Scrolls(r.events) == []
            && Downloads(r.events) == [s.globals.screenshots + [o.capture.value]]
  {
    var pages := s.globals.screenshots + [o.capture.value];
    RunUnfolds(s, Finite(n), fileName, [o], Downloaded);
    StepFinishes(s, Finite(n), fileName, o);
    assert Run(s, Finite(n), fileName, [o], Downloaded).events ==
           [Progress(s.page, Finite(n))] + [Download(pages, fileName)];
    ProjectionsAppend([Progress(s.page, Finite(n))], [Download(pages, fileName)]);
  }

  /** `ScrollThenRest` for a rest of the run that completes: the pages
      reported continue the range and the single download is kept. */
  lemma ContinuedTrace(p: nat, total: Total, c: Event, rest: seq<Event>, m: nat, pages: seq<Image>)
    requires c.Scroll?
    requires Currents(rest) == PageRange(p + 1, m)
    requires Downloads(rest) == [pages]
    ensures var evs := [Progress(p, total), c] + rest;
            && Currents(evs) == PageRange(p, m + 1)
            && Scrolls(evs) == [c] + Scrolls(rest)
            && Downloads(evs) == [pages]
  {
    ScrollThenRest(p, total, c, rest);
  }

  /** A run from page `p` towards a finite total `n` in which nothing fails:
      progress is reported for every page from `p` on, in order; one scroll
      is commanded between consecutive captures; a single download receives
      the buffer followed by every capture in capture order; the buffer is
      then empty; and `lastScreenshot` holds the second-to-last capture (or
      what it held before, for a one-call run). The final call only needs its
      capture: it neither reads the viewport height nor scrolls. */
  lemma {:induction false} CompleteRun(s: Session, n: nat, fileName: string, steps: seq<StepOracle>)
    requires s.status == Running && s.page >= 1
    requires |steps| == CallsLeft(s.page, n) && Comparable(s.globals.lastScreenshot)
    requires forall i :: 0 <= i < |steps| - 1 ==> Succeeds(steps[i])
    requires steps[|steps| - 1].capture.Some?
    ensures var r := Run(s, Finite(n), fileName, steps, Downloaded);
            && r.session.status == Finished
            && r.session.globals.screenshots == []
            && Currents(r.events) == PageRange(s.page, |steps|)
            && Scrolls(r.events) == ScrollChain(s.globals.lastScreenshot, steps[..|steps| - 1])
            && Downloads(r.events) == [s.globals.screenshots + Captured(steps)]
            && r.session.globals.lastScreenshot ==
                 (if |steps| >= 2 then steps[|steps| - 2].capture else s.globals.lastScreenshot)
    decreases |steps|, 1
  {
    if |steps| == 1 {
      var o := steps[0];
      var img := o.capture.value;
      assert steps == [o];
      FinalCall(s, n, fileName, o);
      assert Captured(steps[1..]) == [];
      assert Captured(steps) == [img];
      assert PageRange(s.page, 1) == [s.page];
    } else {
      CompleteRunContinues(s, n, fileName, steps);
    }
  }

  /** The recursive case of `CompleteRun`: at least two calls remain. */
  lemma {:induction false} CompleteRunContinues(s: Session, n: nat, fileName: string, steps: seq<StepOracle>)
    requires s.status == Running && s.page >= 1
    requires |steps| == CallsLeft(s.page, n) && |steps| >= 2 && Comparable(s.globals.lastScreenshot)
    requires forall i :: 0 <= i < |steps| - 1 ==> Succeeds(steps[i])
    requires steps[|steps| - 1].capture.Some?
    ensures var r := Run(s, Finite(n), fileName, steps, Downloaded);
            && r.session.status == Finished
            && r.session.globals.screenshots == []
            && Currents(r.events) == PageRange(s.page, |steps|)
            && Scrolls(r.events) == ScrollChain(s.globals.lastScreenshot, steps[..|steps| - 1])
            && Downloads(r.events) == [s.globals.screenshots + Captured(steps)]
            && r.session.globals.lastScreenshot == steps[|steps| - 2].capture
    decreases |steps|, 0
  {
    var o := steps[0];
    assert Succeeds(o);
    var img := o.capture.value;
    assert Captured(steps) == [img] + Captured(steps[1..]);
    RunUnfolds(s, Finite(n), fileName, steps, Downloaded);
    StepContinues(s, Finite(n), fileName, o, Downloaded);
    var s1 := Session(Globals(s.globals.screenshots + [img], Some(img)), s.page + 1, Running);
    assert Step(s, Finite(n), fileName, o, Downloaded).session == s1;
    assert forall i :: 0 <= i < |steps[1..]| - 1 ==> Succeeds(steps[1..][i]) by {
      forall i | 0 <= i < |steps[1..]| - 1
        ensures Succeeds(steps[1..][i])
      {
        assert steps[1..][i] == steps[i + 1];
      }
    }
    assert steps[1..][|steps[1..]| - 1] == steps[|steps| - 1];
    CompleteRun(s1, n, fileName, steps[1..]);
    var rest := Run(s1, Finite(n), fileName, steps[1..], Downloaded).events;
    var pages := s.globals.screenshots + Captured(steps);
    assert s1.globals.screenshots + Captured(steps[1..]) == pages by {
      AppendAssoc(s.globals.screenshots, [img], Captured(steps[1..]));
    }
    var c := Scroll(o.viewportHeight, s.globals.lastScreenshot, img);
    ContinuedTrace(s.page, Finite(n), c, rest, |steps| - 1, pages);
    ScrollChainOfPrefix(s.globals.lastScreenshot, steps, |steps| - 1);
    if |steps| > 2 {
      assert steps[1..][|steps[1..]| - 2] == steps[|steps| - 2];
    }
  }

  /** The events of a call that captures and scrolls, followed by those of
      the rest of the run, seen through the three projections. */
  lemma ScrollThenRest(p: nat, total: Total, c: Event, rest: seq<Event>)
    requires c.Scroll?
    ensures var evs := [Progress(p, total), c] + rest;
            && Currents(evs) == [p] + Currents(rest)
            && Scrolls(evs) == [c] + Scrolls(rest)
            && Downloads(evs) == Downloads(rest)
  {
    ProjectionsAppend([Progress(p, total)], [c]);
    ProjectionsAppend([Progress(p, total), c], rest);
  }

  /** A capture that fails before the final page ends the session with no
      download; the buffer keeps every earlier image of the session on top of
      what it held already, and is NOT cleared for the next session. */
  lemma {:induction false} FailedCaptureKeepsBuffer(s: Session, n: nat, fileName: string,
                                                    steps: seq<StepOracle>, k: nat, save: SaveOutcome)
    requires s.status == Running && Comparable(s.globals.lastScreenshot)
    requires k < |steps| && s.page + k < n
    requires forall i :: 0 <= i < k ==> Succeeds(steps[i])
    requires steps[k].capture.None?
    ensures var r := Run(s, Finite(n), fileName, steps, save);
            && r.session.status == Stopped
            && r.session.globals.screenshots == s.globals.screenshots + Captured(steps[..k])
            && Downloads(r.events) == []
            && Scrolls(r.events) == ScrollChain(s.globals.lastScreenshot, steps[..k])
    decreases k, 1
  {
    if k == 0 {
      RunUnfolds(s, Finite(n), fileName, steps, save);
      StepCaptureFails(s, Finite(n), fileName, steps[0], save);
      var e := Progress(s.page, Finite(n));
      assert [e][1..] == [];
      assert steps[..0] == [];
    } else {
      FailedCaptureLater(s, n, fileName, steps, k, save);
    }
  }

  /** The recursive case of `FailedCaptureKeepsBuffer`: the failing capture is
      not the first one. */
  lemma {:induction false} FailedCaptureLater(s: Session, n: nat, fileName: string,
                                              steps: seq<StepOracle>, k: nat, save: SaveOutcome)
    requires s.status == Running && Comparable(s.globals.lastScreenshot)
    requires 0 < k < |steps| && s.page + k < n
    requires forall i :: 0 <= i < k ==> Succeeds(steps[i])
    requires steps[k].capture.None?
    ensures var r := Run(s, Finite(n), fileName, steps, save);
            && r.session.status == Stopped
            && r.session.globals.screenshots == s.globals.screenshots + Captured(steps[..k])
            && Downloads(r.events) == []
            && Scrolls(r.events) == ScrollChain(s.globals.lastScreenshot, steps[..k])
    decreases k, 0
  {
    var o := steps[0];
    assert Succeeds(o);
    var img := o.capture.value;
    RunUnfolds(s, Finite(n), fileName, steps, save);
    StepContinues(s, Finite(n), fileName, o, save);
    var s1 := Session(Globals(s.globals.screenshots + [img], Some(img)), s.page + 1, Running);
    assert Step(s, Finite(n), fileName, o, save).session == s1;
    assert forall i :: 0 <= i < k - 1 ==> Succeeds(steps[1..][i]) by {
      forall i | 0 <= i < k - 1
        ensures Succeeds(steps[1..][i])
      {
        assert steps[1..][i] == steps[i + 1];
      }
    }
    FailedCaptureKeepsBuffer(s1, n, fileName, steps[1..], k - 1, save);
    var rest := Run(s1, Finite(n), fileName, steps[1..], save).events;
    ScrollThenRest(s.page, Finite(n), Scroll(o.viewportHeight, s.globals.lastScreenshot, img), rest);
    assert steps[..k] == [o] + steps[1..][..k - 1];
    assert Captured(steps[..k]) == [img] + Captured(steps[1..][..k - 1]);
    AppendAssoc(s.globals.screenshots, [img], Captured(steps[1..][..k - 1]));
  }

  /** A full session from the `captureTab` handler with a measured page:
      progress 0, then 1 .. max(N, 1); max(N, 1) - 1 scrolls; one download
      of the leftover buffer followed by the session's captures in order.
      A previous capture must be one `detectOverlap` can compare against. */
  lemma SessionCompletes(g: Globals, url: string, hostname: string, geometry: Geometry,
                         steps: seq<StepOracle>)
    requires geometry.innerHeight > 0
    requires |steps| == CallsLeft(1, PagesFor(DocumentHeight(geometry), geometry.innerHeight))
    requires Comparable(g.lastScreenshot)
    requires forall i :: 0 <= i < |steps| - 1 ==> Succeeds(steps[i])
    requires steps[|steps| - 1].capture.Some?
    ensures var r := CaptureTab(g, url, hostname, true, Some(geometry), steps, Downloaded);
            && r.session.status == Finished
            && r.session.globals.screenshots == []
            && Currents(r.events) == [0] + PageRange(1, |steps|)
            && Scrolls(r.events) == ScrollChain(g.lastScreenshot, steps[..|steps| - 1])
            && Downloads(r.events) == [g.screenshots + Captured(steps)]
  {
    var n := PagesFor(DocumentHeight(geometry), geometry.innerHeight);
    assert TotalPages(Some(geometry)) == Finite(n);
    MeasuredSessionCompletes(g, url, hostname, Some(geometry), n, steps);
  }

  /** `SessionCompletes` for any measured total `n`. */
  lemma MeasuredSessionCompletes(g: Globals, url: string, hostname: string, measured: Option<Geometry>,
                                 n: nat, steps: seq<StepOracle>)
    requires TotalPages(measured) == Finite(n)
    requires |steps| == CallsLeft(1, n)
    requires Comparable(g.lastScreenshot)
    requires forall i :: 0 <= i < |steps| - 1 ==> Succeeds(steps[i])
    requires steps[|steps| - 1].capture.Some?
    ensures var r := CaptureTab(g, url, hostname, true, measured, steps, Downloaded);
            && r.session.status == Finished
            && r.session.globals.screenshots == []
            && Currents(r.events) == [0] + PageRange(1, |steps|)
            && Scrolls(r.events) == ScrollChain(g.lastScreenshot, steps[..|steps| - 1])
            && Downloads(r.events) == [g.screenshots + Captured(steps)]
  {
    var name := FileName(url, hostname);
    var head := [Progress(0, Finite(0)), ScrollToTop, Calculating];
    var start := Session(g, 1, Running);
    CompleteRun(start, n, name, steps);
    var run := Run(start, Finite(n), name, steps, Downloaded);
    OpeningProjections();
    ProjectionsAppend(head, run.events);
  }

  /** When the page-height script yields no number, the session captures
      exactly one image and goes straight to saving it. */
  lemma MeasurementFailureCapturesOnce(g: Globals, url: string, hostname: string, o: StepOracle)
    requires o.capture.Some?
    ensures var r := CaptureTab(g, url, hostname, true, None, [o], Downloaded);
            && r.session.status == Finished
            && Currents(r.events) == [0, 1]
            && Scrolls(r.events) == []
            && Downloads(r.events) == [g.screenshots + [o.capture.value]]
  {
    var head := [Progress(0, Finite(0)), ScrollToTop, Calculating];
    var start := Session(g, 1, Running);
    var name := FileName(url, hostname);
    FinalCall(start, 1, name, o);
    var run := Run(start, Finite(1), name, [o], Downloaded);
    OpeningProjections();
    ProjectionsAppend(head, run.events);
  }

  /** `lastScreenshot` survives a session: the first scroll of the next
      session subtracts the overlap measured against a capture of the
      previous one instead of using the nominal step. */
  lemma LastScreenshotCarriesOver(s: Session, n: nat, fileName: string, o: StepOracle, previous: Image)
    requires s.status == Running && s.globals.lastScreenshot == Some(previous) && Measurable(previous)
    requires Succeeds(o) && s.page < n
    ensures var evs := Step(s, Finite(n), fileName, o, Downloaded).events;
            && Scrolls(evs) == [Scroll(o.viewportHeight, Some(previous), o.capture.value)]
            && Tenths(Scrolls(evs)[0]) == 9 * o.viewportHeight - 10 * Overlap(previous, o.capture.value)
  {
    var c := Scroll(o.viewportHeight, Some(previous), o.capture.value);
    StepContinues(s, Finite(n), fileName, o, Downloaded);
    ProjectionsAppend([Progress(s.page, Finite(n))], [c]);
  }

  /** A measured overlap of 150 rows in a 1000px viewport leaves a scroll of
      750px (7500 tenths). */
  lemma OverlapOf150In1000Viewport(previous: Image, current: Image)
    requires Overlap(previous, current) == 150
    ensures ScrollTenths(1000, Some(previous), current) == 7500
  {
  }

  /** Two 1000-row captures whose bottom strips (300 rows) agree on rows
      0-149 and differ from row 150 on: the overlap is 150. */
  lemma MatchingBandOf150Rows(previous: Image, current: Image)
    requires previous.height == 1000
    requires forall y :: 0 <= y < 150 ==> RowMatches(BottomStrip(previous), BottomStrip(current), y)
    requires !RowMatches(BottomStrip(previous), BottomStrip(current), 150)
    ensures Overlap(previous, current) == 150
    ensures ScrollTenths(1000, Some(previous), current) == 7500
  {
    MatchingPrefix(BottomStrip(previous), BottomStrip(current), 150);
    OverlapIsStripOverlap(previous, current);
  }
}
