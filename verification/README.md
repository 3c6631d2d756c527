# Verification of the voodu controller and CLI cores

A Dafny model of the parts of voodu that keep state or compute something
intricate, with proofs of what they promise. Each method is proved against a
specification function or predicate, and the laws of that specification are
proved beside it.

| area | modules | what is modelled |
|---|---|---|
| Cron schedules | `Calendar`, `Masks`, `CronCompile`, `CronParse`, `CronMeaning`, `CronSearch` | text to bit masks, the day rule, the minute-by-minute search and its fixed window |
| Live rendering | `Terminal`, `Transcript`, `TranscriptLaws`, `EventRenderer`, `RenderSession`, `StreamFilters`, `Framing`, `Negotiation` | a terminal with CR, LF, erase-line and cursor-up (ECMA-48 sections 8.3.15, 8.3.74, 8.3.41 and 8.3.22), the renderers that repaint it, line framing and protocol negotiation |
| Activity trail | `ActivityStore`, `ActivityRuns`, `ActivityCleanup`, `ActivityLate`, `ActivityReader`, `ActivityNames` | files with names and inodes, writer, cleanup and crashes as interleaved steps, the sequential pass, the readers |
| Autoscaler | `Autoscaler`, `ScalerDynamics` | one evaluation as a method over its stores, and the closed loop over time |
| Spec diff | `Json`, `JsonTree`, `Order`, `Diff`, `DiffLaws`, `DiffApply`, `Redaction`, `PlanCounts` | the tree diff, its round trip, and the three counters built on it |
| References | `AssetRefs`, `AssetStamp` | the `${asset.…}` scanner, interpolation, digest stamping |
| Command line | `Dispatch`, `EnvFrom` | colon rewriting, layered variables through a cache |

`Text` and `Outcomes` hold the string operations and result types they share.

## Where code and documentation differ

The model follows the code.

- `Schedule.Next` is documented as "at or after"; it returns a minute strictly
  after its argument (`internal/controller/cron.go:133-156`).
- A step close to 2^63 wraps the loop counter of `parseRange` and sets bits the
  element does not denote (`CronCompile.StrayDays`); `ExactIffNoWrap` says
  exactly when.
- The four-year window is described as covering leap years; it misses the
  eight-year gaps around 2100, 2200 and 2300 (`CronSearch.WindowSuffices`).
- `splitCommandColon` is documented as requiring exactly one colon; it accepts
  several, which is why rewriting is not idempotent on them.
- In `rewriteColonSyntax` a `--` is recognised before flag values are skipped,
  so it ends rewriting even as the value of a flag; `nextPositional` looks past
  it, so a ref typed after `--` comes out twice.
- The counters of a plan are documented as following one rule; redaction can
  add a line to an asset's diff and can take one away. `PlanCounts.CountersBalance`
  gives the exact difference, `Redaction.RedactionAddsIff` the entries that add,
  `PlanCounts.RedactionCanAddALine` a plan on which the counters disagree.
- A spec diff prints nothing for `{}` against a scalar, and an empty top-level
  key vanishes from a printed path (`DiffLaws.EmptyObjectHidesScalar`,
  `DiffApply.DottedPathReadsBackIff`).
- A late record can be lost although its write succeeded, in three ways:
  `ActivityRuns.LateRecordOrphaned`, `ActivityRuns.LateRecordSuperseded` and
  `ActivityLate.LateRecordMissesCopy`. `ActivityLate.LateWriteSurvivesIff` is
  the exact condition, for every run and every stage of a cleanup.
- The application id is documented as keeping scopes apart; every scoped pair
  shares its id with the bare name of the two joined, and prior digests are
  looked up by it (`AssetStamp.SoleOwnerIff`, `AssetStamp.StatusEntryShared`).
- The live block is documented as painted in place. It is if and only if no
  title holds a line break (`Terminal.PaintCleanIff`; the renderer's
  `HandleStepStart` and `ProcessLine` say the same of one line), and a
  mismatching hello over a live step leaves the end of a longer spinner row
  (`Terminal.PrintOverBlock`).

## Parameters of the model

Clocks, terminal widths and ticker beats are inputs. JSON text decoding is a
function parameter of the renderers and a tree type elsewhere; gzip is the
constructor `Zipped`; digests are functions. Writes to the autoscaler's
store and to the targets of the negotiation may fail at any time, bucket
answers may vary with time; the system calls of the activity trail succeed,
and a crash may stop them between any two. Map iteration and directory order
are nondeterministic choices.

## Model

| member | source | states |
|---|---|---|
| Calendar.CivilOfDayNumber | internal/controller/cron.go:162-192 | the date of a day number is the date it was computed from: the calendar arithmetic behind `match` loses no date |
| Calendar.DayNumberOfCivil | internal/controller/cron.go:162-192 | every day number is the number of an existing date |
| Calendar.CivilStep | internal/controller/cron.go:142-156 | adding one day is turning one leaf of the Gregorian wall calendar (28/29/30/31 days, 4/100/400 rule) |
| Calendar.Anchors | internal/controller/cron.go:176 | the numbering and the week are the world's: 1970-01-01 is day 719468 and a Thursday |
| CronSearch.Next | internal/controller/cron.go:142-156 | the search returns the least minute strictly later than `after` that matches within the window, and none exactly when the window holds no match |
| CronSearch.DayRule | internal/controller/cron.go:162-192 | on a compiled schedule the star flags amount to the Vixie rule: two restricted day columns are alternatives, otherwise both must hold |
| CronSearch.MatchSplits | internal/controller/cron.go:162-192 | a minute matches exactly when its day is selected and its time of day is selected |
| CronSearch.WindowSuffices | internal/controller/cron.go:142-156 | exactly when the 4 x 366-day window is long enough: always, unless the day of week is * and the selected month/day pairs are no real date, or only 29 February and the start lies in the blind stretch before a skipped century |
| CronSearch.WeekdayFires | internal/controller/cron.go:142-156 | with a restricted day of week every search succeeds |
| CronSearch.EveryYearFires | internal/controller/cron.go:142-156 | with one selected month/day pair that every year has, every search succeeds |
| CronSearch.SightedFires | internal/controller/cron.go:142-156 | a leap-day schedule is found from every start outside the blind stretch |
| CronSearch.BlindMisses | internal/controller/cron.go:142-156 | and missed from every start inside it |
| CronSearch.NeverFires | internal/controller/cron.go:142-156 | a schedule whose dates are all unreal (30 February) matches no minute at all |
| CronSearch.LeapDayAround2100 | internal/controller/cron.go:133-156 | the stretch in dates: found from 1900-03-01 to 2096-02-29, missed from then to 2100-02-25, found again after |
| CronParse.ParseRange | internal/controller/cron.go:228-282 | a list element compiles exactly when it reads as value, range, * or step within bounds; bit v is set iff the element marks v |
| CronCompile.MarkIsExact | internal/controller/cron.go:275-279 | the marking loop with 64-bit wrap-around sets the denoted values and the strays of a wrapped counter, and no other |
| CronCompile.ExactIffNoWrap | internal/controller/cron.go:275-279 | an element compiles to exactly the values it denotes if and only if lo + 2*step stays below 2^64 |
| CronCompile.StrayDays | internal/controller/cron.go:275-279 | concrete input where it does not: 10/9223372036854775807 in the day column also sets day 8 |
| CronCompile.ReadIff | internal/controller/cron.go:228-273 | the grammar of an element: a text reads as lo, hi and step exactly if it is *, a number or a-b, then nothing or / and a number, in bounds |
| Text.AtoiIff | internal/controller/cron.go:236-264 | the numbers it accepts are exactly an optional sign, zeros and the decimal digits, within 64 bits |
| CronCompile.ReadRender | internal/controller/cron.go:228-282 | every element of a field has a text, a-b/n, that reads back as it |
| CronParse.ParseField | internal/controller/cron.go:201-224 | a comma list fails iff some part fails, and its mask is exactly the union of its parts |
| CronParse.NormalizeDOW | internal/controller/cron.go:287-300 | whatever order the alias map is visited in, the normalized day-of-week column reads as the same list, or fails as the same error |
| CronParse.ReplaceKeepsReading | internal/controller/cron.go:287-300 | replacing one weekday name never changes how a text reads |
| CronParse.ReplaceIsPartly | internal/controller/cron.go:287-300 | on a readable text one replacement does that name everywhere and disturbs no other |
| CronParse.LetterFails | internal/controller/cron.go:201-282 | a letter left over after the aliases always makes the column an error |
| CronParse.FoldSunday | internal/controller/cron.go:121-123 | day 7 is folded into day 0 and nothing else changes |
| CronParse.NarrowColumns | internal/controller/cron.go:84-126 | the casts to 32, 16 and 8 bits lose nothing; every mask is non-empty and inside its field |
| CronParse.ParseSchedule | internal/controller/cron.go:47-131 | parsing fails with the first bad column, and otherwise yields five exact, non-empty, in-range masks and the two star flags: the schedule means the expression |
| CronMeaning.FiresIff | internal/controller/cron.go:162-192 | a parsed schedule matches a minute exactly if the written lists hold its minute, hour and month and its day of month and day of week; of two restricted day columns one is enough |
| CronMeaning.MacrosMean | internal/controller/cron.go:65-76 | when each macro fires: @hourly on minute 0, @daily and @midnight at midnight, @weekly at midnight on Sunday, @monthly on day 1, @yearly and @annually on 1 January |
| CronMeaning.MacrosParse | internal/controller/cron.go:65-76 | every macro is an expression that parses |
| CronMeaning.NameMeans | internal/controller/cron.go:287-300 | sun to sat, in any case, stand for the days 0 to 6 |
| Terminal.PaintEffect | cmd/cli/event_renderer.go:425-463 | a block repaint changes exactly the block rows and returns the cursor to the top row, column 0 |
| Terminal.PaintReplaces | cmd/cli/event_renderer.go:425-482 | a repaint replaces the old block with no stale row left if and only if the new block is at least as tall |
| Terminal.PrintLine | cmd/cli/event_renderer.go:514-530 | printing within a row, carriage returns and all, lays each piece over what the pieces before it left |
| Terminal.Commit | cmd/cli/event_renderer.go:514-530 | printing any text at a clean cursor appends the rows its lines settle into, and nothing else |
| Terminal.PrintOverBlock | cmd/cli/event_renderer.go:194-199 | a line printed straight over a live block (mismatching hello) is clean iff it is at least as long as the row it covers |
| Terminal.PaintCleanIff | cmd/cli/event_renderer.go:425-463 | a repaint of any rows at least as tall as the block leaves the transcript with some block beneath and the cursor between them if and only if no row holds a line break |
| Terminal.RepaintsFall | cmd/cli/event_renderer.go:425-463 | n repaints leave the cursor n times as many rows too low as the rows hold line breaks |
| Terminal.TwoRowTitleRepeats | cmd/cli/event_renderer.go:425-463 | what that looks like for a title of two rows: each repaint adds its first row to the transcript |
| EventRenderer.EventRenderer.PrintWarning | cmd/cli/event_renderer.go:194-200 | the greeting's warning leaves a clean screen if and only if no block is up or it is at least as long as the row it covers; it then has the effect of the fold and the tail below stays live |
| EventRenderer.EventRenderer.RenderBlock | cmd/cli/event_renderer.go:425-463 | the live block on screen becomes spinner plus tail; the screen stays clean if and only if the title has no line break |
| EventRenderer.EventRenderer.ClearBlock | cmd/cli/event_renderer.go:468-482 | the whole block is wiped and the cursor is back on its top row |
| EventRenderer.EventRenderer.PushTail | cmd/cli/event_renderer.go:488-501 | one sanitized line enters the tail, which keeps the last ten |
| EventRenderer.EventRenderer.Tick | cmd/cli/event_renderer.go:560-565 | a ticker beat repaints the block and leaves the transcript and all state alone |
| EventRenderer.EventRenderer.CloseCurrentStep | cmd/cli/event_renderer.go:514-530 | an open step is committed as one check-marked line and its block is gone |
| EventRenderer.EventRenderer.StopSpinner | cmd/cli/event_renderer.go:567-581 | any number of ticks while the lock is released changes nothing that shows |
| EventRenderer.EventRenderer.HandleStepStart | cmd/cli/event_renderer.go:222-246 | the previous step is committed, the new one is live and painted, for every title; the screen is clean if and only if the title has no line break |
| EventRenderer.EventRenderer.HandleStepEnd | cmd/cli/event_renderer.go:248-295 | ok, failed (tail kept above the error) and cancelled steps leave exactly the lines of the fold, which `TranscriptLaws.FateOfStep` gives in literal marks; a foreign id is ignored |
| EventRenderer.EventRenderer.HandleLog | cmd/cli/event_renderer.go:297-330 | warnings and errors are committed above the block, info lines go sanitized to the tail while active; for every text |
| EventRenderer.EventRenderer.HandleResult | cmd/cli/event_renderer.go:332-348 | one committed line and one more counted resource |
| EventRenderer.EventRenderer.HandleSummary | cmd/cli/event_renderer.go:365-414 | build and deploy summaries close the step and end the spinner; a deploy summary after a build summary adds nothing |
| EventRenderer.EventRenderer.ProcessLine | cmd/cli/event_renderer.go:141-220 | every line has exactly the effect of the tick-free fold, and the screen still lists transcript plus block if and only if the line is no title with a line break and no warning shorter than the row it covers |
| EventRenderer.EventRenderer.Write | cmd/cli/event_renderer.go:114-139 | a write has the effect of the fold over the lines it completes, each reading the clock for itself; the unfinished tail is carried; passthrough copies bytes |
| EventRenderer.EventRenderer.Close | cmd/cli/event_renderer.go:586-609 | the live block is wiped without a check mark and a partial last line settles on its row |
| RenderSession.Run | cmd/cli/event_renderer.go:103-609 | any stream of any bytes, cut into any writes, with ticks anywhere in between, ends with the screen listing exactly the rows its frames commit one by one (`HistoryRows`), with their literal marks; the premise is titles without line breaks and no mismatching hello over a live step |
| RenderSession.SessionIsOneStream | cmd/cli/event_renderer.go:114-220 | any session, ticks and all, ends in the state of its whole stream in one write |
| RenderSession.FinalRowsAreHistory | cmd/cli/event_renderer.go:141-414 | the rows a session ends with are those of its frames in order, each read off the stream alone, and the row of a partial last line |
| TranscriptLaws.TranscriptIsRows | cmd/cli/event_renderer.go:141-414 | over every stream: what the renderer has committed after n frames is the concatenation of what each frame commits, said of the history before it and with literal marks, and its live view agrees with that history |
| TranscriptLaws.FateOfStep | cmd/cli/event_renderer.go:248-295 | a failed step leaves a cross and its title, its last ten lines of output and the error; a cancelled one nothing; a step ended in any other way, or by the next step or a summary, one row with a check mark |
| TranscriptLaws.EndsOnce | cmd/cli/event_renderer.go:248-257 | a step ends at most once, so it leaves at most one such row |
| TranscriptLaws.ResourcesAreResults | cmd/cli/event_renderer.go:332-356 | the resource count is the number of result frames |
| TranscriptLaws.SanitizeKeeps | cmd/cli/terminal.go:46-69 | printable text shows as it is in the tail, and sanitizing twice is sanitizing once |
| TranscriptLaws.ColourDropped | cmd/cli/terminal.go:46-69 | a colour sequence in front of a text does not show |
| TranscriptLaws.ElapsedReads | cmd/cli/event_renderer.go:253 | a running time reads as hours, minutes and seconds with leading zero units left out |
| TranscriptLaws.ElapsedRounds | cmd/cli/event_renderer.go:253 | it is rounded to the nearest second, halves up |
| RenderSession.TicksDoNotShow | cmd/cli/event_renderer.go:503-565 | two runs of a session, with its ticks and without them, end on screens equal row by row |
| RenderSession.ChunksDoNotShow | cmd/cli/event_renderer.go:114-139 | however the stream is cut into writes the session ends in the same state |
| Framing.Conserves | cmd/cli/stream_filter.go:207-233 | framing loses and invents no byte: the lines with their newlines and the tail are the stream |
| Framing.FrameTwice | cmd/cli/event_renderer.go:122-139 | framing in two writes is framing the concatenation |
| Framing.ChunksDoNotMatter | cmd/cli/event_renderer.go:122-139 | however a stream is cut into writes the lines and the tail are those of a single write |
| Negotiation.LineOneDecides | cmd/cli/negotiating_writer.go:66-128 | nothing after the first newline changes the choice of renderer |
| Negotiation.SpeaksNdjsonIff | cmd/cli/negotiating_writer.go:66-128 | NDJSON is chosen exactly if the first line is complete and decodes to a hello with protocol ndjson/1 |
| Negotiation.NegotiatingWriter.Write | cmd/cli/negotiating_writer.go:66-128 | every byte goes in order to the one chosen target; before the first newline all are held |
| Negotiation.NegotiatingWriter.Close | cmd/cli/negotiating_writer.go:136-162 | an undecided stream goes to the legacy target; both targets are closed |
| Negotiation.Relay | cmd/cli/negotiating_writer.go:66-162 | for every chunking one target, chosen by line one alone, gets the whole stream and the other nothing |
| StreamFilters.SpinnerShows | cmd/cli/stream_filter.go:388-410 | drawing the spinner with its reserved blank row leaves exactly that row live, as it settles, cursor on it |
| StreamFilters.ProgressFilter.ProcessLine | cmd/cli/stream_filter.go:235-348 | every banner, end marker and other line, whatever it holds, has exactly the effect of the tick-free fold |
| StreamFilters.LineLeaves | cmd/cli/stream_filter.go:235-348 | what each kind of line does, with literal banners and marks: build and deploy ends commit the open step, a step banner commits it and opens the next, a pruned banner commits its own row, any other line shows only while no step is open |
| StreamFilters.ProgressFilter.Write | cmd/cli/stream_filter.go:207-233 | for every stream, a write has the effect of the fold over the lines it completes, each reading the clock for itself |
| StreamFilters.ProgressFilter.CommitStep | cmd/cli/stream_filter.go:603-617 | the open step is committed with its check mark and the spinner is off |
| StreamFilters.ProgressFilter.Close | cmd/cli/stream_filter.go:623-649 | an open step is wiped without a check mark; a partial line settles on its row |
| StreamFilters.RunProgress | cmd/cli/stream_filter.go:183-649 | every session, of any bytes and with ticks anywhere: the screen lists exactly the rows of the fold |
| StreamFilters.ApplyResultFilter.Write | cmd/cli/stream_filter.go:701-734 | however the stream is cut the output is its complete lines dressed and the count is the number of result lines |
| StreamFilters.ApplyResultFilter.Close | cmd/cli/stream_filter.go:736-750 | at the end the output is the dressed lines followed by the unfinished tail |
| StreamFilters.DressedLineForLine | cmd/cli/stream_filter.go:701-750 | line for line the output is the stream, some lines with a mark in front |
| StreamFilters.MarkedIff | cmd/cli/stream_filter.go:767-780 | a line gets the check mark exactly if it has a / and one of the five result words |
| ActivityStore.OverwriteEffect | internal/activity/cleanup.go:112-135 | creating or truncating a file changes that name and inode only |
| ActivityStore.UnlinkEffect | internal/activity/cleanup.go:75-80 | removing a name changes no other name and no content |
| ActivityStore.RenameEffect | internal/activity/cleanup.go:139-144 | rename moves one name, replaces the target atomically and changes no content |
| ActivityRuns.StepKeeps | internal/activity/cleanup.go:43-151 | one writer call, cleanup sub-step or crash keeps the trail faithful: each kept day has its records, in order, in a file a reader finds |
| ActivityRuns.RunsFaithful | internal/activity/activity.go:314-427 | so does every interleaving of any length |
| ActivityRuns.NothingLost | internal/activity/cleanup.go:43-151 | over every timely interleaving of writes, cleanup sub-steps and crashes, a record whose day no cleanup found over by its retention (30 days if none is set), counted in nanoseconds, can be read, and no partial .gz is ever visible |
| ActivityRuns.YoungIsRetained | internal/activity/cleanup.go:51-60 | a record no older than the retention at any cleanup is such a record |
| ActivityRuns.HorizonInNanos | internal/activity/cleanup.go:43-95 | which days count as past and as kept after a run: those some begun cleanup found over, and those none found over by its retention |
| ActivityStore.CutoffInNanos | internal/activity/cleanup.go:51-62 | comparing a day with the cutoff and with today says exactly that its end lies at or before now minus the retention, or before now |
| ActivityRuns.TimelyDaysPure | internal/activity/activity.go:387-409 | every file of day D holds only records of UTC day D |
| ActivityRuns.LateRecordOrphaned | internal/activity/activity.go:356-409 | without the premise: a late record written through the still open handle goes to an unlinked inode and is gone |
| ActivityRuns.LateRecordSuperseded | internal/activity/cleanup.go:105-112 | without the premise: a late record in a fresh raw file is removed by the next pass because the .gz exists |
| ActivityCleanup.TrailDir.Write | internal/activity/activity.go:314-409 | a write rotates to the file of the record's own day and appends one line to it |
| ActivityCleanup.TrailDir.GzipFile | internal/activity/cleanup.go:105-151 | the raw file becomes the complete .gz, or is dropped when the .gz is there; no partial .gz appears |
| ActivityCleanup.TrailDir.Cleanup | internal/activity/cleanup.go:43-95 | in whatever order entries come, a day has no file afterwards iff it had none or its end is at or before now minus the retention (30 days if none is set); past days are gzipped, foreign files stay, and a settled directory is not touched |
| ActivityCleanup.SweptIsSettled | internal/activity/cleanup.go:43-95 | after one pass a second one at the same time has nothing to do |
| ActivityCleanup.OneFilePerPastDay | internal/activity/cleanup.go:43-151 | whatever steps and crashes came before, one full pass leaves each retained past day exactly one file, the complete .gz of its records |
| ActivityLate.RunsSound | internal/activity/cleanup.go:43-151 | what holds in every run, late writes included: raw files hold lines, a visible .gz is whole, a cleanup works on files that exist |
| ActivityLate.PassSweeps | internal/activity/cleanup.go:43-95 | after any run the step machine's own uninterrupted pass removes exactly the expired days and ends in the swept directory of the sequential pass |
| ActivityLate.LateWriteSurvivesIff | internal/activity/cleanup.go:43-151 | in every run, at every stage of a cleanup: once that pass has run out and another full one followed, a late record is readable if and only if its write landed (no .gz of its day, a linked file, not copied yet) |
| ActivityLate.LandedForEver | internal/activity/cleanup.go:43-151 | a late record that landed stays readable under every later interleaving of writes, passes and crashes that retains its day |
| ActivityLate.LateRecordMissesCopy | internal/activity/cleanup.go:112-135 | without the premise: a late record appended after its file was read into the .gz is gone with the raw file |
| ActivityCleanup.StepsAreGzip | internal/activity/cleanup.go:105-151 | the step machine run without interruption is the gzip of the sequential pass |
| ActivityReader.DayFiles | internal/activity/reader.go:118-146 | the listing has every day file once, plain and gzipped, in date order |
| ActivityReader.ListingUnique | internal/activity/reader.go:118-146 | with one file per date the listing does not depend on directory order |
| ActivityReader.QueryFile | internal/activity/reader.go:245-277 | the matching records of one file in order |
| ActivityReader.SelectedIff | internal/activity/reader.go:279-316 | a record is selected iff it was read and every filter that is set admits it, the start inclusive and the end exclusive |
| ActivityReader.AnswerLimit | internal/activity/reader.go:72-80 | an answer holds as many selected records as the limit allows, 200 if none is set, newest first |
| ActivityReader.Query | internal/activity/reader.go:77-108 | the early exit answers the first Limit elements of the reversed, filtered concatenation of all files in date order |
| ActivityReader.StopsEarly | internal/activity/reader.go:95-104 | the newest results of the newest files are the newest results overall |
| ActivityReader.AnswerNeverGoesForward | internal/activity/reader.go:77-108 | on the directory of any timely run results never step forward to a later day |
| ActivityReader.Dump | internal/activity/reader.go:35-48 | every record strictly newer than the bound, file after file in date order |
| ActivityReader.AllRecordsAreHistory | internal/activity/reader.go:77-108 | on timely runs what query and dump select from is the written history: the records of each listed day, in writing order |
| ActivityReader.ReadAsOftenAsWritten | internal/activity/reader.go:77-146 | on timely runs each record is read as often as it was written, twice that exactly while both files of its day exist, and a retained one at least as often |
| ActivityNames.ParsesIffWritten | internal/activity/reader.go:160-167 | a text parses as a date exactly when it is how that date is written |
| ActivityNames.RecognisedIff | internal/activity/reader.go:151-170 | the names that count as history are exactly the plain and the gzipped file name of a date |
| ActivityNames.FilesParseBack | internal/activity/activity.go:438 | a day file is read as its own day and an unfinished .tmp is not read at all |
| ActivityNames.HistoryIsDayFiles | internal/activity/reader.go:151-170 | whatever is read as history is the file of one day |
| ActivityNames.TextOrderIsDayOrder | internal/activity/reader.go:143 | sorting date texts sorts days, and distinct days have distinct texts |
| ActivityNames.EpochFile | internal/activity/activity.go:430-438 | the file names of day 0 in full: activity-1970-01-01.ndjson, and the same with .gz |
| Autoscaler.MeanCPUPercent | internal/controller/autoscaler.go:342-373 | the mean over all rows, or over the non-zero ones when some row is above zero |
| Autoscaler.MeanInNumbers | internal/controller/autoscaler.go:342-373 | that mean times the number of rows counted is the sum of all rows |
| Autoscaler.DecideInNumbers | internal/controller/autoscaler.go:250-305 | the decision is up exactly if the mean exceeds 1.1 times the target below Max with no move up in the last cooldown (30 s by default), down exactly if it is under 0.7 times above Min with none down in its own (5 min) |
| Autoscaler.KeyInjective | internal/controller/autoscaler.go:328-330 | two deployments never share a cooldown entry |
| Autoscaler.Autoscaler.SetReplicas | internal/controller/autoscaler.go:417-448 | only the replicas field of that spec changes; a missing deployment is a silent success |
| Autoscaler.Autoscaler.EvaluateOne | internal/controller/autoscaler.go:210-308 | one tick, in numbers: the stored count goes up by one iff the mean exceeds 1.1 times the target below Max and that cooldown is over, down iff it is under 0.7 times above Min and the other is, applied and noted together, or nothing changed |
| ScalerDynamics.MoveWaits | internal/controller/autoscaler.go:250-305 | a move waits out its own cooldown and is noted; anything else leaves its timestamp alone |
| ScalerDynamics.GapIsCooldown | internal/controller/autoscaler.go:250-305 | in every run two moves in one direction are at least a cooldown apart |
| ScalerDynamics.RateBound | internal/controller/autoscaler.go:250-305 | in any window of length T there are at most T / cooldown + 1 moves each way |
| ScalerDynamics.MovesStayInBounds | internal/controller/autoscaler.go:245-305 | a move changes the count by exactly one and never takes it further from [Min, Max] |
| ScalerDynamics.MeanOfShares | internal/controller/autoscaler.go:342-373 | an evenly shared load has the obvious mean |
| ScalerDynamics.NoTurn | internal/controller/autoscaler.go:46-54 | two neighbouring counts want opposite moves if and only if they are 1 and 2, Min is 1 and the load is strictly between 1.1 and 1.4 times target |
| ScalerDynamics.NoReversal | internal/controller/autoscaler.go:245-305 | outside that band the scaler never reverses direction under constant load |
| ScalerDynamics.MovesAreBounded | internal/controller/autoscaler.go:245-305 | outside that band, whatever the tick times and the cooldowns pending at the start, the moves number at most Max - Min and the count is the start plus or minus exactly that number |
| ScalerDynamics.Converges | internal/controller/autoscaler.go:245-305 | and once Max - Min ticks found no cooldown in their way the load is at most 1.1 times the target per replica or the count is Max, and at least 0.7 times or the count is Min |
| ScalerDynamics.AtRestIff | internal/controller/autoscaler.go:250-305 | those bounds on the load hold exactly where the scaler wants no move |
| ScalerDynamics.SettlesOnSchedule | internal/controller/autoscaler.go:41-43 | so on a periodic schedule the load is within those bounds after (Max - Min) * wait + 1 ticks, wait periods covering both cooldowns (20 for 15 s against 5 min) |
| ScalerDynamics.ThrashesForEver | internal/controller/autoscaler.go:46-54 | inside the band no run of any ticks from any count ever ends with the load within those bounds, every tick free of cooldown moves, and the count after k of them is known |
| ScalerDynamics.ThrashFlips | internal/controller/autoscaler.go:46-54 | and once at one or two every free tick turns one into two and two into one |
| JsonTree.NormIsTheLeaves | cmd/cli/diff_render.go:86-95 | two trees have one normal form (nulls and empty objects dropped) exactly when they hold the same scalars and arrays at the same paths |
| Diff.UnionKeys | cmd/cli/diff_render.go:186-206 | exactly the keys of both maps, strictly sorted |
| Diff.WalkFields | cmd/cli/diff_render.go:127-180 | appends the printed form of exactly the reported changes, each once, in path order; a path is reported iff neither side has an object there and the values differ |
| Diff.DiffSpec | cmd/cli/diff_render.go:96-121 | the reported changes, printed, sorted by path |
| DiffLaws.WalkIsDetermined | cmd/cli/diff_render.go:182-206 | the walk is determined by the two trees, whatever order maps are iterated in |
| DiffLaws.SwapMirrors | cmd/cli/diff_render.go:127-180 | for all trees, swapping the arguments mirrors every change, in the same order |
| DiffLaws.MissedOnlyAtClash | cmd/cli/diff_render.go:142-161 | a difference goes unreported exactly where an object faces a scalar or an array |
| DiffLaws.SeesEverythingIffCompatible | cmd/cli/diff_render.go:142-161 | the diff reports every difference of a pair if and only if no object faces a scalar or an array |
| DiffLaws.DiffEmptyIffVisibleEqual | cmd/cli/diff_render.go:96-121 | for all trees, the diff is empty iff what it can see of both sides has one normal form |
| DiffLaws.DiffEmptyIffEqual | cmd/cli/diff_render.go:96-121 | for compatible trees the diff is empty iff the trees are equal after dropping nulls and empty objects |
| DiffLaws.EmptyObjectHidesScalar | cmd/cli/diff_render.go:142-161 | the premise is needed: {"a": {}} against {"a": n} prints nothing |
| DiffApply.ApplyRebuildsIff | cmd/cli/diff_render.go:127-180 | for all trees: applying the changes to the remote tree, in any order, rebuilds the local one up to normal form if and only if no local leaf faces a remote object and no local object that holds nothing faces a remote leaf |
| DiffApply.RebuildableIff | cmd/cli/diff_render.go:142-161 | that condition, computed on the two trees, is the one stated path by path |
| DiffApply.CompatibleIsRebuildable | cmd/cli/diff_render.go:142-161 | compatible trees meet it |
| DiffApply.DottedPathReadsBackIff | cmd/cli/diff_render.go:151-157 | splitting a printed path at its dots gives the keys back iff no key has a dot and the first is not empty |
| DiffApply.PrintedAlike | cmd/cli/diff_render.go:151-157 | otherwise two paths can print alike |
| DiffApply.DiffRebuildsIff | cmd/cli/diff_render.go:96-121 | the round trip through text: the printed diff of plain trees, read back and applied to remote, rebuilds local if and only if that condition holds |
| DiffApply.PrintedDiffUnique | cmd/cli/diff_render.go:118 | plain trees have exactly one printed diff, although the sort is not stable |
| DiffApply.SwapMirrorsPrinted | cmd/cli/diff_render.go:96-121 | on plain trees swapping the arguments mirrors the printed diff line by line |
| Redaction.RedactAssetContent | cmd/cli/asset_redact.go:37-62 | every entry of the files object is redacted and nothing else changes |
| Redaction.RedactionShowsIff | cmd/cli/asset_redact.go:37-104 | for all specs: the redacted diff has a line exactly if there is a plain one outside the file entries or the two entries of some key show (file name, digests, fields a redacted entry has not) |
| Redaction.RedactionAddsIff | cmd/cli/asset_redact.go:37-104 | for all specs without a plain line: redaction adds one if and only if some key has two file entries of different digests, or a file entry against one whose content or further fields it exposes |
| Redaction.RedactionAddsNothing | cmd/cli/asset_redact.go:37-104 | in particular on compatible specs a redacted line never appears without a plain one |
| Redaction.RedactionHidesIff | cmd/cli/asset_redact.go:37-104 | for compatible tidy specs that differ: redaction hides every line if and only if they all lie in file entries of which only the contents differ, with one digest |
| Redaction.CollisionFreeHidesNothing | cmd/cli/asset_redact.go:37-114 | so where no two contents compared under one key collide, no change is hidden |
| Redaction.RedactionIsFaithfulIff | cmd/cli/asset_redact.go:37-114 | redaction keeps the verdict of every compatible, tidy pair if and only if no two contents share a digest |
| Redaction.ClashAddsLine | cmd/cli/asset_redact.go:66-104 | concrete: _source "file" against {} has no plain line and a redacted one |
| Redaction.ContentClashAddsLine | cmd/cli/asset_redact.go:66-104 | concrete family: two file entries, content x against {}, whenever x and the empty text have different digests |
| PlanCounts.PlanChangeCount | cmd/cli/apply_forwarded.go:421-441 | pruned resources plus those that are new or differ |
| PlanCounts.DetailedExitcodeFromPlan | cmd/cli/apply.go:685-713 | signals iff enabled and something is pruned, new or different |
| PlanCounts.RenderApplyPlan | cmd/cli/apply.go:740-826 | added counts the new resources, modified those that differ as shown |
| PlanCounts.SignalIffCounted | cmd/cli/apply.go:685-713 | the signal is given if and only if the count is positive |
| PlanCounts.CountersAgree | cmd/cli/apply_forwarded.go:417-441 | without assets the count equals pruned + added + modified |
| PlanCounts.CountersBalance | cmd/cli/apply_forwarded.go:417-441 | for every plan: the count plus the assets that gain a line equals new + modified plus the assets that lose theirs |
| PlanCounts.CounterNeverSmaller | cmd/cli/apply_forwarded.go:417-441 | the count is never smaller than what is shown if and only if no more assets gain a line by redaction than lose theirs |
| PlanCounts.CompatibleAssetsAddNothing | cmd/cli/apply_forwarded.go:417-441 | so it never is on plans whose paired assets put no object against a scalar or an array |
| PlanCounts.CountersAgreeIff | cmd/cli/apply_forwarded.go:417-441 | and equal if and only if as many assets gain a line as lose theirs |
| PlanCounts.CountersAgreeCollisionFree | cmd/cli/apply_forwarded.go:417-441 | so equal on every plan of compatible tidy assets in which no two contents compared collide |
| PlanCounts.RedactionCanAddALine | cmd/cli/apply.go:790-808 | concrete plan on which nothing is counted and one modification shown |
| AssetRefs.ReadsIffToken | internal/controller/asset_refs.go:30-32 | the scanner accepts exactly the strings that start with a written reference of valid identifiers |
| AssetRefs.ParseIffFormat | internal/controller/asset_stamp.go:432-453 | parsing a depends_on reference inverts formatting, in both directions, for all strings |
| AssetRefs.FormatInjective | internal/controller/asset_refs.go:110-116 | references with dot-free parts format differently |
| AssetRefs.WrittenForm | internal/controller/asset_refs.go:110-116 | scope first, key last, and no dot for a missing scope |
| AssetRefs.CollectAssetRefs | internal/controller/asset_refs.go:187-197 | exactly the references that occur in some value |
| AssetRefs.InterpolateAssetRefs | internal/controller/asset_refs.go:83-104 | succeeds iff every collected reference resolves; an error lists the others in order |
| AssetRefs.OnlyReferencesChange | internal/controller/asset_refs.go:83-104 | the result is the source with exactly its references replaced, every other character kept in place |
| AssetRefs.ResultHasNoReference | internal/controller/asset_refs.go:83-104 | when values start with / and have no $, a successful result contains no reference |
| AssetRefs.InterpolationIsIdempotent | internal/controller/asset_refs.go:83-104 | and interpolating it again, with any lookup, changes nothing |
| AssetRefs.ConventionGivesPaths | internal/paths/paths.go:101-114 | the controller's own lookup meets that premise |
| AssetRefs.DollarReintroduces | internal/controller/asset_refs.go:83-104 | a value with a $ can carry a reference into the result |
| AssetRefs.EmptyValueJoins | internal/controller/asset_refs.go:83-104 | a value without the leading / can join the texts around it into a reference |
| AssetStamp.WalkSpecForRefs | internal/controller/asset_stamp.go:406-427 | exactly the references mentioned in authored strings at any depth, in whatever order keys come |
| AssetStamp.CollectDeps | internal/controller/asset_stamp.go:310-328 | exactly the references of depends_on.assets, or an error iff some entry is no reference |
| AssetStamp.ResolveAll | internal/controller/asset_stamp.go:345-374 | every reference gets the digest of this apply's batch if it is in it, otherwise the non-empty one in the status of its application; fails with a reference that has neither |
| AssetStamp.ResolvesIff | internal/controller/asset_stamp.go:345-374 | that is the digest a reference resolves to: the batch goes first whatever the status store holds |
| AssetStamp.StampConsumerSpec | internal/controller/asset_stamp.go:288-381 | succeeds iff every used reference has such a digest, and then the spec carries the digest of each; otherwise it is untouched |
| AssetStamp.StampAssetDigests | internal/controller/asset_stamp.go:121-135 | every consumer of the batch is stamped, others untouched, even when a manifest is listed twice |
| AssetStamp.StampIsExact | internal/controller/asset_stamp.go:338-374 | the stamp has exactly the used references as keys, each with its own digest, the batch's before the status store's |
| AssetStamp.StampUnique | internal/controller/asset_stamp.go:288-381 | the stamped spec does not depend on any iteration order |
| AssetStamp.StampIsIdempotent | internal/controller/asset_stamp.go:284-286 | stamping a stamped spec changes nothing |
| AssetStamp.RestampChangesIff | internal/controller/asset_stamp.go:288-381 | re-stamping changes the spec if and only if some used reference now has a digest it did not have |
| AssetStamp.UploadRolls | internal/controller/asset_stamp.go:345-374 | uploading a used asset with a new digest changes every consumer's spec, whatever the status store still holds |
| AssetStamp.AppIDsMeetIff | internal/controller/manifest.go:42-48 | two pairs of scope and name get one application id if and only if they are equal, or one is the bare name of the other joined, or one scope continues into the other name |
| AssetStamp.StatusEntryShared | internal/controller/asset_stamp.go:354-370 | two references outside the batch resolve alike from every status store if and only if their keys are equal and their application ids meet |
| AssetStamp.HyphenFreeApart | internal/controller/manifest.go:42-48 | without hyphens in scopes and bare names application ids are distinct |
| AssetStamp.SoleOwnerIff | internal/controller/manifest.go:42-48 | an id belongs to one pair alone if and only if it is a bare name with no hyphen after its first character |
| AssetStamp.FlattenAssetDigests | internal/controller/asset_refs.go:290-309 | one line per key in sorted key order |
| AssetStamp.LinesDetermineDigests | internal/controller/asset_refs.go:285-309 | with keys free of =, equal lines mean equal digests: the hash input loses nothing |
| Dispatch.SplitParts | cmd/cli/dispatch.go:173-206 | splitting cuts at the first colon and loses nothing else |
| Dispatch.SplitsAgainIff | cmd/cli/dispatch.go:173-206 | the right part can be split again exactly when it has a colon |
| Dispatch.SplittableIff | cmd/cli/dispatch.go:173-206 | a token is cut exactly if it is two or more identifiers joined by colons |
| Dispatch.NextPositional | cmd/cli/dispatch.go:130-153 | the first token from start on that is neither a flag nor a flag value |
| Dispatch.RewriteColonSyntax | cmd/cli/dispatch.go:17-103 | the loop computes the positionwise rewriting: which tokens split, move or are passed over |
| Dispatch.RewritesInOrder | cmd/cli/dispatch.go:17-103 | the rewritten line token by token and in order, each token cut at its first colon: command before subcommand, a taken ref between the halves of its shorthand and nowhere else |
| Dispatch.NoMovesInPlace | cmd/cli/dispatch.go:17-103 | without a shorthand that takes a ref the line is its pieces in place |
| Dispatch.SubcommandFollowsCommand | cmd/cli/dispatch.go:82-94 | the family prog cmd:sub rest starts prog cmd sub |
| Dispatch.FlagValueKept | cmd/cli/dispatch.go:130-153 | the value of each flag that takes one stays as it is, even if it looks like cmd:sub |
| Dispatch.ShorthandIsRefFirst | cmd/cli/dispatch.go:54-80 | config:set ref comes out as config ref set |
| Dispatch.SuffixVerbatim | cmd/cli/dispatch.go:35-44 | everything from the first -- on comes out verbatim, at the end |
| Dispatch.TokensConserved | cmd/cli/dispatch.go:17-103 | every token comes out, cut or whole; besides, the moves that are not clean double theirs |
| Dispatch.ConservesIffClean | cmd/cli/dispatch.go:17-103 | tokens are conserved up to splitting if and only if every moved ref precedes any -- and does not split |
| Dispatch.RefPastDashDoubles | cmd/cli/dispatch.go:130-153 | concrete family: config:set -- x doubles x |
| Dispatch.RefThatSplitsDoubles | cmd/cli/dispatch.go:54-94 | concrete family: config:set a:b comes out whole and cut, and changes again when rewritten again |
| Dispatch.UnchangedIff | cmd/cli/dispatch.go:17-103 | rewriting changes a line iff it has a rewritable token |
| Dispatch.IdempotentIff | cmd/cli/dispatch.go:17-103 | rewriting is idempotent if and only if no right part has a colon and no moved ref splits |
| EnvFrom.OneMoreCall | cmd/cli/apply_envfrom.go:194-207 | every further call keeps the cache in step with the calls made: each cached bucket fetched once, with that content, and never asked for again |
| EnvFrom.BucketCache.Fetch | cmd/cli/apply_envfrom.go:194-207 | cached content is returned without a call; a failure is not cached |
| EnvFrom.MergeBucketEnv | cmd/cli/apply_envfrom.go:221-238 | for every key the shell's value if set, otherwise that of the last reference that defines it |
| EnvFrom.LayeredUnique | cmd/cli/apply_envfrom.go:221-238 | that definition determines the merged environment |
| EnvFrom.LastDefiningIff | cmd/cli/apply_envfrom.go:221-238 | the layered value is that of the last reference whose bucket has the key, and there is none exactly if no bucket has it |
| EnvFrom.OwnBucketsWin | cmd/cli/apply_envfrom.go:280-342 | who defines a variable of a file: the shell, then its own buckets if it interpolates, then its env_from buckets |
| EnvFrom.EnrichEnv | cmd/cli/apply_envfrom.go:280-342 | one file: the layered definition over what the cache then holds; only a failing env_from bucket is an error |
| EnvFrom.CachedIsPlain | cmd/cli/apply_envfrom.go:280-342 | with a stable backend the cached result is the one fetching every time would give |
| EnvFrom.EnrichAll | cmd/cli/apply_envfrom.go:280-342 | over many files: each result is the plain one, and a bucket asked for again had failed before |

## Left out

- Time zones and DST in cron: the schedule runs in UTC minutes.
- Lower-casing of letters outside ASCII to letters outside ASCII: no list element reads with either.
- Colours, palettes, cursor hiding, wide characters, scrolling and line wrapping: rows and columns are unbounded; an escape sequence inside a printed text counts as characters.
- Quoting of unprintable characters outside ASCII in the protocol name of the mismatch line: they are kept as they are.
- RenderSession.Run: does not cover a mismatching hello over a live step, because the length of the spinner row it must cover depends on when the last beat fell; EventRenderer.EventRenderer.PrintWarning states the case for one line.
- Concurrent `Write` calls while a closing spinner has released its lock; ticks in that window are modelled.
- Malformed NDJSON lines and over-long lines in the trail: files hold whole records.
- Power loss: a crash stops the process and keeps what was written. Two cleanup passes at once are not modelled; one pass interleaves with the writer and with crashes at every step.
- Stray .tmp files: the code never removes them, and neither does the model.
- Dates outside years 0 to 9999, whose file names do not parse.
- Float rounding in the autoscaler: loads are reals. Stats collection and snapshot staleness are not modelled.
- JSON number formatting: numbers are compared as decoded values.
- HCL parsing: the references of a file are given. Asset materialisation and URL fetching: the batch digests are given.
- The activity tracker of `internal/controller/activity.go`: its one flag makes a second finish a no-op; the records it passes on are inputs of the modelled writer.
- The path functions of `internal/controller/deploy_build.go`, `rewriteApplyToDiffJSON` and `stripOutputFlag`: functions of their argument alone, which no modelled state depends on.
- ActivityReader.Dump: does not model the verbatim bytes of a line, because files hold records.
