# cedulas-api: a verified model of the multi-frame lookup engine

The service answers `POST /consulta-cedula` by driving the public professional-licence
("cédula profesional") portal in a headless browser: it waits for the search form to
render in any of the page's frames, fills either the CURP field or the name fields,
presses "Buscar", races the appearance of result rows against a "sin resultados / no se
encontraron" message, and turns every `table tbody tr` row, of every table, in the first
frame that has any such row into records with a summary (distinct universities and
states, numeric years and the latest one).

This project models that decision logic in Dafny over abstract inputs:

- a frame snapshot is a sequence of `FrameView`s (main document first), each giving the
  set of locators whose visibility probe answers true and the trimmed cell texts of the
  rows matched by `table tbody tr` (`frames.dfy`);
- control resolution (`fillAny`, `clickBuscar`) sweeps every frame with the primary
  locator before every frame with the fallback, and returns the fill or click it would
  perform as an `Action` value (`resolver.dfy`);
- the polling waits run over `obs: nat -> seq<FrameView>`, the snapshot seen on each
  poll round, with a deadline counted in rounds; the outcome race compares the rounds on
  which the two waits settle (`polling.dfy`);
- row extraction and the summary are functions with lemmas (`extract.dfy`,
  `summary.dfy`);
- the request handler is a method that returns the response and the page actions
  (`consulta.dfy`);
- `ensureBrowser` is a class holding the memoised launch result, beside the route
  filter's URL predicate (`browser.dfy`).

Three behaviours of the code are easy to misread; the model keeps them as written:

- a timeout of the row wait is not a separate error: the row wait's rejection is caught
  and becomes `got = false`, the same `{ ok: true, coincidencias: 0, resultados: [] }`
  answer as a real no-results message (`Consulta.ConsultaCedula`, `Polling.RaceDecision`);
- years are made by deleting every non-digit, so `"2010-05"` becomes `201005`, and a
  table whose annos are `"2010-05"` and `"2012"` has latest year 201005, not 2012
  (`Summary.YearNumberJoinsDigitGroups`, `Summary.ExampleSummary`);
- an `anno` without digits becomes `Number("") = 0`, which is finite and kept
  (`Summary.YearNumberNoDigits`).

## Model

| member | source | states |
|---|---|---|
| `Frames.FirstFrame` | PruebaLeerCedulas.js:77-91 | the frame a sweep returns is the first in frame order that passes the probe; None exactly when no frame passes |
| `Frames.FindFrame` | PruebaLeerCedulas.js:78-82 | the early-exit loop over `page.frames()` returns exactly `FirstFrame` |
| `Resolver.Resolve` | PruebaLeerCedulas.js:93-111 | the resolved control is the primary or the fallback locator, and it is visible in the frame it names |
| `Resolver.ResolveFoundIff` | PruebaLeerCedulas.js:93-111 | two-tier resolution finds a control iff some frame shows the primary or the fallback locator |
| `Resolver.PrimaryTierWins` | PruebaLeerCedulas.js:95-98 | a label (or role) match in any frame beats a CSS (or text) match in every frame; within the tier the earliest frame wins |
| `Resolver.FallbackOnlyWithoutPrimary` | PruebaLeerCedulas.js:97-98 | the fallback is used only when no frame shows the primary locator, and then its first frame is chosen |
| `Resolver.FallbackWhenNoPrimary` | PruebaLeerCedulas.js:97-98 | when no frame shows the primary locator and some frame shows the fallback, the fallback is chosen at the first frame that shows it |
| `Resolver.FillAny` | PruebaLeerCedulas.js:93-100 | an empty or absent value searches and fills nothing; otherwise the fill lands on the resolved control; true iff some frame shows the label or the CSS control and the value is non-empty |
| `Resolver.ClickBuscar` | PruebaLeerCedulas.js:102-112 | role sweep over all frames before text sweep; the click lands on the resolved button; false only when both sweeps miss in every frame |
| `Polling.TicksFor` | PruebaLeerCedulas.js:65 | a timeout admits exactly the poll rounds k with k * 250 ms < timeout |
| `Polling.Settlement` | PruebaLeerCedulas.js:114-134 | a wait settles fulfilled with true on the first round its probe hits, otherwise on its deadline with its timeout outcome (a rejection for the row wait, false for the text wait) |
| `Polling.FirstHit` | PruebaLeerCedulas.js:63-75 | the first round before the deadline whose re-read frames satisfy the probe; no earlier round does; None when no round does |
| `Polling.SettlementBounded` | PruebaLeerCedulas.js:114-134 | a wait never settles after its deadline, and settles before it only on a round whose probe hits |
| `Polling.WaitAnySelectorInAnyFrame` | PruebaLeerCedulas.js:63-75 | true on the first round where some frame shows some selector, false once the deadline passes |
| `Polling.WaitRowsInAnyFrame` | PruebaLeerCedulas.js:114-123 | true on the first round where some frame has a table row; rejects with "Timeout esperando filas de resultados." at the deadline |
| `Polling.WaitTextInAnyFrame` | PruebaLeerCedulas.js:125-134 | true on the first round where some frame shows the text; false (not an error) at the deadline |
| `Polling.RowsWinRace` | PruebaLeerCedulas.js:259-262 | the race's answer stated on its own: a row appears on some round before the deadline and no earlier round shows the no-results text |
| `Polling.RaceDecision` | PruebaLeerCedulas.js:259-262 | rows win the race iff a row appears on some round before the deadline with no no-results text on any earlier round; row timeout, text detection and text timeout all give false |
| `Polling.RaceRowsAgainstText` | PruebaLeerCedulas.js:259-262 | `got` is exactly the rows-win condition, and when true the settling round shows rows |
| `Extract.ToCandidate` | PruebaLeerCedulas.js:143-154 | every mapped column (0-3, 5-8) feeds its field, a missing cell reading as ""; status is 0 and tipo "C1" |
| `Extract.ColumnMapping` | PruebaLeerCedulas.js:141-154 | column i feeds its field for i in 0-3 and 5-8 (a missing cell reads as ""); status is 0 and tipo "C1" |
| `Extract.OnlyMappedCellsMatter` | PruebaLeerCedulas.js:142-154 | cell 4 and every cell from 9 on are ignored: rows that agree on the mapped columns give the same record |
| `Extract.CandidateRoundTrip` | PruebaLeerCedulas.js:143-154 | mapping a record's nine-cell row gives the record back |
| `Extract.RowRoundTrip` | PruebaLeerCedulas.js:143-154 | a nine-cell row with an empty cell 4 is recovered from its record |
| `Extract.MapRows` | PruebaLeerCedulas.js:141-155 | one record per row, in row order |
| `Extract.Extracted` | PruebaLeerCedulas.js:136-160 | the records of the first frame with a row, read from every `table tbody tr` row of that frame; [] exactly when no frame has a row |
| `Extract.CollectRows` | PruebaLeerCedulas.js:136-160 | the records of the first frame with at least one row, never merged across frames; [] exactly when no frame has rows |
| `Summary.Distinct` | PruebaLeerCedulas.js:271-272 | the Set-of-non-empty-values list has no "" and no duplicates, and only values of its input |
| `Summary.DistinctIsDistinctOf` | PruebaLeerCedulas.js:271-272 | `Array.from(new Set(xs.filter(Boolean)))` holds exactly the non-empty values of xs, without duplicates, in first-seen order |
| `Summary.DistinctOfUnique` | PruebaLeerCedulas.js:271-272 | those three properties determine the list |
| `Summary.Digits` | PruebaLeerCedulas.js:273 | `replace(/[^\d]/g, '')` leaves only digits and never lengthens the string |
| `Summary.DecimalValue` | PruebaLeerCedulas.js:273 | `Number` of a digit string is 0 exactly when every digit is '0' (`Number("")` included) |
| `Summary.YearNumber` | PruebaLeerCedulas.js:273 | an anno that is already a digit string reads as its decimal value |
| `Summary.DigitsAppend` | PruebaLeerCedulas.js:273 | deleting non-digits distributes over concatenation |
| `Summary.DigitsOfDigits` | PruebaLeerCedulas.js:273 | a digit string is unchanged by the deletion |
| `Summary.DecimalRoundTrip` | PruebaLeerCedulas.js:273 | reading back the decimal numeral of n gives n |
| `Summary.YearNumberOfNumeral` | PruebaLeerCedulas.js:273 | a year numeral surrounded by non-digit text reads back as that year |
| `Summary.YearNumberNoDigits` | PruebaLeerCedulas.js:273 | an anno without digits gives 0 |
| `Summary.YearNumberJoinsDigitGroups` | PruebaLeerCedulas.js:273 | "2010-05" gives 201005 and "2012" gives 2012 |
| `Summary.MaxOf` | PruebaLeerCedulas.js:274 | None exactly for an empty list; otherwise an element that no element exceeds |
| `Summary.Summarize` | PruebaLeerCedulas.js:267-274 | total is the record count; primerRegistro is the first record or null; cedulas lists every cedula in order; universidades and entidades are the distinct non-empty values in first-seen order; aniosNum has one digit-stripped year per record; ultimoAnno is its maximum, null exactly when there are no records |
| `Summary.SummaryOfTwo` | PruebaLeerCedulas.js:268-273 | two records with distinct non-empty universities and states keep both, in order |
| `Summary.ExampleSummary` | PruebaLeerCedulas.js:267-274 | rows 001 (UNAM, CDMX, anno "2010-05") and 002 (IPN, JAL, anno "2012") give cedulas ["001","002"], universities ["UNAM","IPN"], states ["CDMX","JAL"], years [201005, 2012] and latest year 201005 |
| `Consulta.FormReady` | PruebaLeerCedulas.js:163-172 | the form counts as rendered when one of its eight inputs is visible in some frame on a round before the SEL_TIMEOUT_MS deadline |
| `Consulta.DefaultReadinessDeadline` | PruebaLeerCedulas.js:13 | with the default SEL_TIMEOUT_MS of 90000 the readiness wait has 360 rounds, and the form is ready iff an input shows on one of them |
| `Consulta.FillField` | PruebaLeerCedulas.js:93-100 | one field's fillAny: at most one fill, made iff the value is non-empty and some frame shows the field's label or CSS control, with that value into one of them |
| `Consulta.Fills` | PruebaLeerCedulas.js:248-254 | the form fills: at most three, each a fill with a non-empty value |
| `Consulta.CurpTakesPrecedence` | PruebaLeerCedulas.js:248-249 | with a CURP, at most one fill happens, into the CURP control, with the CURP; it happens iff some frame shows that control |
| `Consulta.NamesWithoutCurp` | PruebaLeerCedulas.js:250-254 | without a CURP, only the nombre, paterno and materno fills are made, in that order, each with its own value into its own control; a field with an empty or absent value gets nothing; a field with a value whose control some frame shows is filled with it |
| `Consulta.ConsultaCedula` | PruebaLeerCedulas.js:240-286 | 400 exactly when both nombre and curp are falsy, before any page work; form not ready gives 500 with no action; no button gives 500 after the fills; otherwise fills then click, NoMatches iff the rows lose the race, and Matches carries the rows of the first frame with rows, a positive count and their summary |
| `Browser.BrowserPool.EnsureBrowser` | PruebaLeerCedulas.js:30-36 | the first call stores and returns the launch result, later calls return the stored one; launch happens at most once |
| `Browser.SharedAcrossRequests` | PruebaLeerCedulas.js:30-36 | two calls return the first launch's result, a failed launch included |
| `Browser.ShouldAbort` | PruebaLeerCedulas.js:55 | the route filter as written: the lowered URL ends with '.' followed by one of the nine extensions |
| `Browser.AbortIffExtension` | PruebaLeerCedulas.js:55 | a URL is aborted iff it has a '.' and what follows its last '.' is mp4, avi, m3u8, webm, mov, woff, woff2, ttf or otf, ignoring case |
| `Browser.AbortsUpperCaseFont` | PruebaLeerCedulas.js:55 | "f.WOFF2" is aborted |
| `Browser.QueryStringPasses` | PruebaLeerCedulas.js:55 | "v.mp4?t=1" is not aborted: the pattern is anchored at the end |
| `Browser.BareNamePasses` | PruebaLeerCedulas.js:55 | "/mp4" is not aborted: the extension must follow a dot |

## Left out

- The HTTP layer (Express setup, JSON body parsing, routing, response marshalling, server listen and its timeouts) is I/O; the handler returns a `Response` value instead.
- The diagnostic endpoints (`/`, `/diag/ping`, `/diag/httpbin`, `/inspect-campos`, `/diag/snap`, `/diag/self`) fetch, screenshot or dump the DOM and decide nothing.
- Browser launch flags, context options, page timeouts and the installation of the route handler (`newPage`) are Playwright calls; only the memoised launch and the URL predicate are modelled.
- Reading NAV_TIMEOUT_MS, SEL_TIMEOUT_MS and PORT from the environment is I/O; the handler takes the selector timeout as a parameter and `DefaultSelTimeoutMs` records the default.
- Playwright's locator semantics (`getByLabel`, `getByRole`, `:has-text`, `getByText`, `isVisible` and its thrown errors, `count`, `textContent().trim()`) are opaque: a frame reports which locators are visible and the trimmed row cells.
- Navigation (`goto`, `waitForLoadState`) swallows its errors, so only the readiness wait is modelled.
- Polling.TicksFor: real elapsed time is not modelled; a poll round is idealised as exactly one 250 ms sleep, so the bound is on rounds, not milliseconds.
- Polling.RaceRowsAgainstText: `Promise.race` is modelled deterministically; when rows and the no-results text are first seen on the same round, the row wait (listed first) wins.
- Consulta.ConsultaCedula: all fills and the click see one frame snapshot, while the source re-reads the frames on every call.
- Consulta.ConsultaCedula: collectRows reads the snapshot of the round on which the row wait settled; the source reads the frames again a moment later, when the rows could be gone and the answer would carry coincidencias 0.
- Consulta.ConsultaCedula: `fill` is assumed not to throw, and an error thrown while collecting rows is not modelled; in the source either becomes a 500.
- Resolver.ClickBuscar: a `click` that throws is not modelled; in the source the error is swallowed inside the sweep, which goes on to the next frame and then to the text sweep, so the handler answers 500 only when every attempt fails.
- Polling.WaitRowsInAnyFrame: `count()` is assumed not to throw; in the source it sits outside any try/catch, so an error (a frame detached between `frames()` and `count()`, say) rejects the row wait before its deadline, and the race then settles at once with `got = false`, the 0-matches answer, even when rows would have appeared later.
- Consulta.ConsultaCedula: a failure of `newPage` (which runs outside the handler's try block) is not modelled.
- Query fields are modelled as optional strings; other JSON value types in the request body are not.
- Summary.Summarize: `Number` is modelled as exact natural-number parsing; above 2^53 the source loses precision, and a value above Number.MAX_VALUE (about 1.8e308) gives Infinity, which `filter(Number.isFinite)` drops, so aniosNum could then be shorter than total.
- Summary.MaxOf: the engine's limit on the number of arguments of `Math.max(...aniosNum)` is not modelled.
