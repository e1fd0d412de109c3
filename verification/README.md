# pdf-r capture pipeline, modelled in Dafny

pdf-r is a browser extension. It saves a whole web page as a PDF. The
page is captured one viewport at a time: capture, scroll, capture again, and
so on, and the captures are then saved as one PDF. Its background script,
`entrypoints/background.ts`, holds the logic modelled here. It has four parts:

- **Overlap detector** (`detectOverlap`), in `raster.dfy` and `overlap.dfy`.
  - Captures are decoded RGBA grids.
  - Two pixels match when red, green and blue each differ by less than 20.
  - A row matches when more than 90% of its pixels match.
  - The scan counts matching rows between the bottom 30% strips of two
    captures. Past row 70 it may stop at the first non-matching row that
    follows a match.
  - The row scan has two definitions: a declarative reference
    (`MatchingRows`, `FirstStop`, `StripOverlap`) and the loop as written
    (`ScanFrom`, and the method `DetectOverlap`). They are proved equal.
- **Page-count estimator** (`calculateTotalPages`), in `pages.dfy`: how many
  captures cover the document, `ceil(D / 0.9V)`, computed in tenths of a
  pixel so that it stays exact.
- **Capture controller** (`captureFull` and the `captureTab` handler), in
  `controller.dfy`.
  - One call of `captureFull` is the function `Step`. The recursion at line
    228 is `Run`, driven by one browser answer (`StepOracle`) per call.
  - Both module-level variables, the screenshot buffer and the last
    screenshot, are carried explicitly as `Globals`.
  - Messages and browser commands form an event list. A scroll command is
    recorded with the viewport height and the two captures it is measured
    from. `Controller.Tenths` gives its distance in tenths of a pixel.
- **File name** (the expression at lines 245-246), in `filename.dfy`.

## Model

| member | source | states |
|---|---|---|
| Raster.PixelMatchIgnoresAlpha | entrypoints/background.ts:42-47 | Two pixels match exactly when each of the red, green and blue differences lies strictly between -20 and 20. The alpha channels never change the verdict. |
| Raster.StripHeight | entrypoints/background.ts:22 | The strip height is `floor(0.3 h)`: the largest `p` with `10p <= 3h`, and never more than `h`. |
| Raster.BottomStrip | entrypoints/background.ts:22-23 | The strip keeps the full width and is `floor(0.3 h)` rows tall. Its pixels are exactly the final pixels of the capture, i.e. its bottom rows. |
| Raster.StripRowIsImageRow | entrypoints/background.ts:22-23 | Pixel `(x, y)` of the strip is pixel `(x, height - floor(0.3 h) + y)` of the capture: the strip is the capture's bottom rows, in order. |
| Raster.RowMatchNeedsPixels | entrypoints/background.ts:52-54 | A matching row has a non-zero width and more than 90% matching pixels. The scan only runs on non-empty strips: an empty one makes line 23 throw first. |
| Raster.SelfRowMatches | entrypoints/background.ts:38-53 | Any row of a non-empty image matches the same row of the same image. |
| OverlapScan.FirstStop | entrypoints/background.ts:34-61 | Returns the first row at or after `y` where the scan stops, or the strip height. No earlier row is a stopping row. |
| OverlapScan.StripOverlap | entrypoints/background.ts:31-61 | The overlap never exceeds the number of rows scanned, which never exceeds the strip height. |
| OverlapScan.ScanFrom | entrypoints/background.ts:34-61 | The loop resumed at row `y` with `acc` matches adds at most one per remaining row. |
| OverlapScan.Overlap | entrypoints/background.ts:9-65 | The overlap of two captures is at most `floor(0.3 h)` of the previous capture. |
| OverlapScan.ScanFromAgrees | entrypoints/background.ts:31-61 | Resumed at any row it can reach, the loop ends with the matching rows before the first stopping row of the reference scan. |
| OverlapScan.OverlapIsStripOverlap | entrypoints/background.ts:26-61 | The loop form of `detectOverlap` equals the declarative reference on every pair of captures. |
| OverlapScan.CountMatchingPixels | entrypoints/background.ts:35-50 | The inner loop counts exactly the matching columns of a row. Both buffers are indexed with their own width, and out-of-range reads do not match. |
| OverlapScan.DetectOverlap | entrypoints/background.ts:26-64 | The row loop with its early `break` returns the overlap of the two bottom strips. |
| OverlapScan.EarlyStopRule | entrypoints/background.ts:55-59 | An early stop happens only at row 70 or later, on a non-matching row, once the overlap is positive. Before the stop, every row past 70 that follows a match is itself a match. |
| OverlapScan.StopsAtFirstQualifyingRow | entrypoints/background.ts:55-58 | The scan never passes a non-matching row at or past 70 that comes after a match. |
| OverlapScan.AllRowsMatch | entrypoints/background.ts:34-54 | When every row matches, the whole strip is scanned and the overlap equals the strip height. The upper bound is reached. |
| OverlapScan.NoRowMatches | entrypoints/background.ts:34-61 | When no row matches, the whole strip is scanned and the overlap is 0. |
| OverlapScan.MatchingPrefix | entrypoints/background.ts:52-59 | If rows `0..k-1` match and row `k >= 70` does not, the scan stops at `k` with overlap `k`. |
| OverlapScan.IdenticalStripsOverlapFully | entrypoints/background.ts:22-61 | Captures with identical bottom strips and non-zero width overlap by the full strip height. |
| OverlapScan.OverlapReadsOnlyBottomStrips | entrypoints/background.ts:22-27 | Captures that agree on their bottom `floor(0.3 h)` rows have the same overlap, whatever lies above those rows. |
| Pages.DocumentHeight | entrypoints/background.ts:85-91 | The document height is the largest of the five measurements: at least each of them, and equal to one of them. |
| Pages.PagesFor | entrypoints/background.ts:92-96 | Returns the least `n` with `n * 0.9V >= D`, i.e. `ceil(D / 0.9V)`. |
| Pages.TotalPages | entrypoints/background.ts:77-105 | A missing or non-numeric result gives 1. A zero viewport gives a total no page number reaches. Otherwise the total is the ceiling above. |
| Pages.PagesPositive | entrypoints/background.ts:96 | At least one page exactly when the document has height. An empty document gives 0. |
| Pages.PagesMonotone | entrypoints/background.ts:96 | For a fixed viewport, the page count never decreases as the document grows. |
| Pages.DocumentOf2500In1000Viewport | entrypoints/background.ts:85-96 | A 2500px document in a 1000px viewport needs 3 pages. |
| Pages.MeasuredTotalAtLeastOne | entrypoints/background.ts:85-104 | With a positive document and viewport height, the total is finite and at least 1. |
| FileNames.FirstOccurrence | entrypoints/background.ts:246 | Returns the first index at or after `from` where the pattern occurs, or the length when it occurs nowhere there (`indexOf` giving -1). |
| FileNames.RemoveFirst | entrypoints/background.ts:246 | `replace('www.', '')` removes only the first occurrence, wherever it is. Without an occurrence the host is unchanged. |
| FileNames.FirstLabel | entrypoints/background.ts:246 | `split('.')[0]` is a dot-free prefix of its input, followed there by a dot or by the end. |
| FileNames.FileName | entrypoints/background.ts:245-246 | The name always ends in `-pdf-r.pdf` and has no dot before it. An empty URL gives exactly `-pdf-r.pdf`. Otherwise the prefix is the host's first label after removing `www.`. |
| FileNames.FirstLabelOfDotted | entrypoints/background.ts:246 | The first label of `p.t` is `p` when `p` has no dot. |
| FileNameExamples.WwwHostName | entrypoints/background.ts:245-246 | A host `www.<name>.<rest>` gives `<name>-pdf-r.pdf`. |
| FileNameExamples.WwwExampleCom | entrypoints/background.ts:245-246 | `www.example.com` gives `example-pdf-r.pdf`. |
| FileNameExamples.InnerWwwRemoved | entrypoints/background.ts:246 | A `www.` in the middle of the host is removed too: `mail.www.host` becomes `mail.host`. |
| Controller.ScrollTenths | entrypoints/background.ts:210-216 | The scroll is `0.9V` with no previous capture, otherwise `0.9V - overlap`. It is not clamped, lies within `[0.9V - 0.3h, 0.9V]`, and is at least `0.6V` when the previous capture is `V` rows tall. |
| Controller.MeasurableIffStripNonEmpty | entrypoints/background.ts:22-23 | A capture can be compared exactly when its bottom strip has at least one column and one row. |
| Controller.Step | entrypoints/background.ts:170-229 | One call of `captureFull`, described in the paragraph after this table. |
| Controller.Run | entrypoints/background.ts:228 | A session that has ended does nothing more. A session still running after `k` calls is on page `page + k`, and pages never go backwards. |
| Controller.CaptureTab | entrypoints/background.ts:234-258 | The handler first reports progress `0/0`. Without a tab id it stops there and leaves the globals untouched. Otherwise it scrolls to the top and reports "calculating" before the first capture. |
| Controller.EmptyStripStops | entrypoints/background.ts:209-219 | With a previous capture, a call before the last page whose capture or previous capture has an empty strip stops the session. The capture stays in the buffer, the last screenshot is unchanged and nothing scrolls. |
| Controller.CompleteRun | entrypoints/background.ts:170-229 | The `CompleteRun` paragraph after this table lists what it proves. |
| Controller.FailedCaptureKeepsBuffer | entrypoints/background.ts:184-199 | A capture that fails before the last page stops the session without a download. Every earlier capture stays in the buffer for the next session. The scrolls before the failure are each measured against the preceding capture. |
| Controller.SessionCompletes | entrypoints/background.ts:234-258 | A measured session with no failure reports progress `0`, then `1..max(N, 1)`, and commands `max(N, 1) - 1` chained scrolls. The first scroll uses the last screenshot of the previous session. There is one download of the old buffer plus all captures, and the buffer ends empty. |
| Controller.MeasuredSessionCompletes | entrypoints/background.ts:234-258 | The same for any total the page-height script yields, including the fallback total 1. |
| Controller.MeasurementFailureCapturesOnce | entrypoints/background.ts:100-102 | When the page-height script gives no number, the total is 1 and the session captures exactly one page before saving. |
| Controller.LastScreenshotCarriesOver | entrypoints/background.ts:209-216 | A scroll subtracts the overlap measured against the last screenshot held in module state, which may come from an earlier session. |
| Controller.OverlapOf150In1000Viewport | entrypoints/background.ts:210-214 | An overlap of 150 rows in a 1000px viewport leaves a scroll of 750px. |
| Controller.MatchingBandOf150Rows | entrypoints/background.ts:52-59 | 1000-row captures whose strips match on rows 0-149 and not on row 150 overlap by 150, so the scroll is 750px. |

`Controller.Step` covers these cases of one `captureFull` call:

- It always begins with the progress message.
- It continues only when the capture, the viewport height and the scroll
  all succeed before the last page, and, when there is a previous capture,
  both strips are non-empty. It then moves to the next page.
- Continuing appends the capture to the buffer and makes it the last
  screenshot.
- It finishes only on the last page, with an empty buffer.
- A failed capture leaves both globals alone.
- The last screenshot changes only on a call that is not the last page.

`Controller.CompleteRun` states what a run from page `p` with no failure
does, towards a finite total `n` (`max(n - p + 1, 1)` calls):

- It reports progress for `p, p+1, ...` in order.
- Its scrolls form the chain `ScrollChain`: each capture is measured
  against the capture before it.
- It downloads once: the old buffer followed by every capture, in capture
  order.
- It finishes with an empty buffer, and the last screenshot is the
  second-to-last capture.
- It asks every call but the last for a capture with a non-empty strip, a
  viewport height and a scroll. The last call needs only its capture.

### Behaviour of the code worth knowing

- **Overlap bound.** `detectOverlap` can return the full strip height, when
  every row of the strip matches.
- **Scroll clamp.** `captureFull` never clamps the scroll distance. It is
  negative when the overlap exceeds `0.9V`, which can happen for captures
  taller than three viewports (high pixel ratios).
- **Current strip.** The strip read from the current capture is its bottom
  strip, like the previous capture's. The variable is named
  `currentImageTop`, but line 23 reads the bottom rows of every image.
- **Empty strip.** A capture less than 4 rows tall or with no columns has an
  empty strip. Reading it throws, `detectOverlap` rejects, and `captureFull`
  stops at line 212 before updating the last screenshot. The capture is
  already in the buffer.
- **State across sessions.** `captureTab` does not clear the buffer. It is
  cleared only after `savePDF` returns, so the captures of a failed session
  end up in the next PDF. The last screenshot is never cleared, so the first
  scroll of a session is measured against a capture from the previous one.
- **Empty document.** An empty document (`D = 0`) gives a total of 0. The
  session then captures once and saves.

## Left out

- Image decoding (`fetch`, `createImageBitmap`, `OffscreenCanvas`,
  `getImageData`, lines 11-24): captures are already-decoded grids. A decode
  failure rejecting inside `detectOverlap` is not modelled. The rejection
  from an empty strip is modelled (`Controller.Measurable`).
- `ImageData` stores four bytes per pixel. The model stores one `Pixel` per
  index, so index `k` here is bytes `4k .. 4k+3` there.
- The Chrome APIs (`captureVisibleTab`, `executeScript`, `tabs.query`,
  `downloads`, `runtime.sendMessage`) are oracles: `StepOracle`,
  `SaveOutcome`, and the `hasId`, `measured` and `hostname` parameters.
  Messages are the returned event list.
  - A viewport height script that rejects is folded into "no viewport
    height". Both end the call before the last screenshot is updated.
  - The initial `scrollTo(0, 0)` is assumed to succeed.
  - A rejected page-height script is not modelled: it would end the handler
    before `captureFull` is called.
- `setTimeout` delays (lines 183 and 225) carry no logic.
- `savePDF` (lines 127-169) is reduced to its outcome: the download of the
  buffer, an early return without a tab id, or a throw. The jsPDF page
  layout is not modelled.
- URL parsing: `new URL(tab.url).hostname` is the `hostname` input. A
  malformed URL making `new URL` throw is not modelled.
- Pages.PagesFor: computes `ceil(D / 0.9V)` exactly. Binary64 rounding of
  `0.1 * V` and of the quotient can move an exact integer quotient up by
  one, and that is not modelled.
- Raster.RowMatches: `matching / width > 0.9` is compared exactly as
  `10 * matching > 9 * width`. That agrees with binary64 for any width below
  about 10^14.
- Controller.ScrollTenths: distances are kept in tenths of a pixel, so
  `0.9V` is exact. `window.scrollBy` rounding is not modelled.
- `captureFull` is started without `await` by the message listener.
  Interleaving of two sessions started concurrently is not modelled;
  sessions run one after another.
- Pages.TotalPages: a zero viewport is modelled as a total that no page
  reaches (`NotFinite`). This assumes the script's `Infinity` or `NaN`
  arrives as a number. If the browser serialises it to `null` instead,
  line 101 returns 1 and the session captures one page.
- Controller.Run: it is driven by a finite list of per-call oracles. Under
  the `NotFinite` assumption above, a session with a zero viewport is seen
  only as far as the list goes.
- The popup UI (`entrypoints/popup/App.tsx`) and the manifest configuration
  (`wxt.config.ts`) are not part of this model.
