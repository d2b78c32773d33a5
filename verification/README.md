# Verification of the search-to-investigation pipeline

A Dafny model of the part of this server that turns a search into investigation cases. A search
job issues keyword searches and watches them until they finish; crawls save listings, snapshots
and documents; a local image gate, a score correction and a rule engine decide about each
listing; cases are opened, refreshed and worked on by people; and numeric routines compare
images and titles. Each handler is a method over the tables or fields it updates, proved to compute
a function of the old state; the theorems are about those functions and about whole runs of them.

| files | what they cover |
|---|---|
| `SearchJobStatus`, `SearchJobProtocol`, `SearchJobSteps`, `SearchJobTheorems`, `SearchJobCallback`, `SearchJobService` | the job protocol as a state machine of six interleaving actors, its steps field by field, its theorems, those of its callback, and the handlers that refine it |
| `ListingStore`, `ListingTheorems`, `CrawlTrace`, `CrawlerService` | listings, snapshots, documents and cascades; what a listing holds after any run; progress messages; the crawl and deletion handlers |
| `CaseWorkflow`, `CaseLog`, `CaseNumber`, `CaseTable`, `CaseRounds`, `CaseService` | the case lifecycle as an event log, case numbers, automatic and manual creation, automatic runs round by round and counted, the service |
| `LocalGate`, `Matching`, `RuleEngine`, `ScorePipeline` | from image similarities and a model reply to excluded, opened or watchlisted |
| `Ssim`, `PHash`, `ColorHistogram`, `ImageHash`, `TitleSimilarity`, `KarrotCrawl` | image and title similarity, and the adaptive crawl loop |
| `PromptStore`, `PromptTheorems`, `PromptManager` | versioned prompts, what starts and updates store, and the cache |
| `Common`, `Text`, `Sorting`, `RealSums` | nullable values, rounding, trimming, the stable sort, sums |

Assumptions that the theorems rest on. Database calls succeed (lookups through `getSearch`,
callbacks, AI calls, adapters and network requests may fail in any way); numbers are exact reals and
integers, with `Math.round(x)` as the floor of `x + 0.5`; clocks, random choices, remote answers and
generated identifiers are inputs; a repository's `save` writes the whole row and inserts it when it is
missing. The stretch of a handler from one wait for anything but the
database to the next is one atomic step, and whatever other actors do while it waits comes in between:
that holds for the search job (its searches, sleeps, published messages, the investigation before the
report, and each callback call), for a crawl between its listings, and for a manual creation between
reading its case number and inserting the case, where it waits for the AI analysis. Longer stretches
are one step in four places: the lookups of one poll; one crawled listing with its image download; one
deleted search; and an automatic run over the results of a search.

## What the proofs brought to light

Where a natural claim is false of the code, the model keeps the code, gives an input, and proves
exactly when the claim holds.

- The automatic report and a manual resend can both be accepted (`ReportedTwice`): two calls can both
  succeed exactly when one begins while another is under way (`TwoSucceedIffOverlap`); one at a time,
  at most one succeeds (`CallbackAtMostOnce`). A rejected call that ends after a successful one leaves
  an error beside the success and opens the job for resending again (`SuccessKeepsNoErrorIff`).
- A late progress event rewrites a `timeout` row of a finished job (`LateEventRewritesFinishedRow`).
  Finished rows stay finished exactly when no message of an unfinished status comes for one of them
  (`RowsStayFinishedStepIff`, `RowsStayFinishedIff`), and each row follows the last message of its
  crawl (`RowsFollowLastCrawl`). A message between the last poll and the final save even decides the
  job: one whose only search had completed ends failed after a late `running` (`LastMessageDecides`).
- Job progress can fall with the percentages of the crawl's messages (`ProgressCanFall`).
- Deleting a search clears the reference of a finished job, the one field besides the callback's that
  can still change (`FinishedJobIsAbsorbing`); while the runner is at work its next save brings the
  reference to the deleted search back, exactly when its copy holds it (`DeletedHistoryReturnsIff`).
- A listing crawled for a history that was deleted meanwhile stays behind without snapshot and
  document, unless its URL was stored before (`UpsertKeepsWFIff`, `RunKeepsWFIff`): the snapshot table
  has a foreign key on the history, and the listing table's own one is on a column
  (`search_history_id`) that the upsert does not write.
- A search deleted while it is crawled comes back when the crawl ends, empty and with a count of 0,
  because the last save inserts the missing row (`ExecuteCrawl`).
- Deleting a search does not restore what it overwrote: listings and documents whose URL it crawled
  keep its data and still name the deleted history (`DeleteKeepsWhatSearchWrote`).
- A cached search counts documents, not results; the two agree exactly when no document repeats and
  all have a listing (`CachedCountIsExactIff`).
- Completed sites followed by pending ones give the site list only if no site is requested twice
  (`MessagesSplitSitesIffDistinct`).
- Doubtful images (40 to 59 percent) are not auto-created at a threshold of 80 or more, but they do
  open watchlisted cases from the watchlist minimum on (`DoubtfulImagesAreNotAutoCreated`,
  `DoubtfulImagesCanBeWatchlisted`).
- A listing that the late gate refuses is scored with the best of all engines and can end up as
  a near match (`LateBlockCanLandHigh`, `LateBlockLandsLowIff`).
- The rule engine tells fractions from percentages by size, so a similarity of 1 percent counts as 100
  (`PercentageIsReadIff`).
- An exclusion recommendation can change a case's order link without the `order_mapped` entry that
  a creation or a refresh leaves (`ExcludeKeepsOrderLogIff`). Priority, due date, job link,
  listing fields and edited or deleted notes leave no entry at all.
- Case numbers are compared as text: after 999,999 cases in a day comes 1,000,000, and then 1,000,000
  again for ever (`DayIsFullIff`). With any holes, the next number is taken exactly when some 99...9 of
  six or more digits and the power of ten after it are in use and nothing goes on after those nines
  (`NextIsTakenIff`, `InsertFailsIff`). The number of a deleted case is handed out again exactly when it
  was the greatest of its day and its predecessor is still in use, or it was the only one and 1
  (`DeletedNumberReturnsIff`, `NumberReturnsIff` for any numbers).
- Two creations at the same time read the same number, so the second fails (`ReadersCollide`); an insert
  fails exactly when a case created since took its number or its listing (`LateInsertFailsIff`).
- Two different titles can have similarity 1 (`OneWithoutEquality`), and two different hash texts can
  be the same hash (`SameNumberDifferentText`).
- A one-pixel plane has structural similarity 0 with itself (`MeanIsOneIff`).
- Two median hashes agree in at least two bits, so the hash similarity never falls below 3.1
  (`SimilarityInRange` in `PHash`).
- A newly shipped prompt file never takes effect for a key that is stored already
  (`SeedingKeepsPromptsInForce`).

## Model

| member | source | states |
|---|---|---|
| SearchJobStatus.ResolveIsExact | src/modules/search-job/search-job-status.util.ts:53-65 | for every status list: completed iff nonempty and all succeeded, failed iff none succeeded, partial iff some did and some did not |
| SearchJobStatus.StatusesPartition | src/modules/search-job/search-job-status.util.ts:12-47 | every row status is unfinished, a success or a failure, and only one of them |
| SearchJobStatus.AggregateIsPercentage | src/modules/search-job/search-job-status.util.ts:71-84 | job progress lies in 0..100 and is exactly 100 once every row is finished |
| SearchJobProtocol.StepKeepsInv | src/modules/search-job/search-job.service.ts:324-685 | every step of every actor keeps the protocol invariant: phase, finish time, progress range, due report, calls under way and callback bookkeeping agree |
| SearchJobTheorems.FinishedJobIsAbsorbing | src/modules/search-job/search-job-progress.sync.ts:162-239 | after a job is finished no sequence of events changes anything of it but its two callback fields and its history reference, which is cleared iff that history is deleted |
| SearchJobTheorems.DeletedHistoryReturnsIff | src/modules/search-job/search-job.service.ts:354-379 | after a deletion in the middle of the searches the runner's next save refers to the deleted history again iff its own copy does |
| SearchJobTheorems.FinishTimeMarksFinalStatus | src/modules/search-job/search-job.service.ts:606-685 | in every reachable state the status is final iff a finish time is stored iff runner and watcher have stopped |
| SearchJobTheorems.LateEventRewritesFinishedRow | src/modules/search-job/search-job-progress.sync.ts:133-160 | an input: a late crawl event rewrites a timed-out row of a finished job |
| SearchJobTheorems.RowsStayFinishedStepIff | src/modules/search-job/search-job-progress.sync.ts:133-160 | once runner and watcher write no more rows, a step leaves finished rows finished iff it is no message of an unfinished status for one of them, and leaves them equal iff the message says nothing new |
| SearchJobTheorems.RowsStayFinishedIff | src/modules/search-job/search-job-progress.sync.ts:133-160 | over a run finished rows are finished at every moment iff no event is such a message |
| SearchJobTheorems.RowsFollowLastCrawl | src/modules/search-job/search-job-progress.sync.ts:133-160 | over such a run the rows stay the same searches and each has the status its crawl reported last |
| SearchJobTheorems.LastMessageDecides | src/modules/search-job/search-job.service.ts:556-573 | between the last poll and the final save the last message wins: a job of one search ends completed iff that message was a success |
| SearchJobTheorems.FinishingStepIsExact | src/modules/search-job/search-job.service.ts:606-685 | the step that finishes a job gives the exact verdict over its rows, which are finished except after a late message, and counts their distinct listings; without rows it completes iff a history is referenced, with that history's count; the only other ways are no keywords and a failed search |
| SearchJobTheorems.RunFinishesOnce | src/modules/search-job/search-job.service.ts:471-587 | every run that ends finished has one finishing step, whose job is the job at the end |
| SearchJobTheorems.WatcherStops | src/modules/search-job/search-job.service.ts:471-587 | in every interleaving the watcher makes at most ceil(total timeout / 2 s) polls, and a run that offers that many ends with the job finished or due for its final save, which finishes it |
| SearchJobTheorems.PollEndsWatchIff | src/modules/search-job/search-job.service.ts:488-580 | one poll ends the watch iff the total time is up or every row is finished, too old or reported finished |
| SearchJobSteps.PollIsExact | src/modules/search-job/search-job.service.ts:488-587 | a poll before the total time is up, row by row: finished rows stay, rows past their age time out, looked-up rows take the reported status and the larger count, others stay; progress is the rounded mean of 100, 40 and 20 points, the count that of distinct listings |
| SearchJobSteps.TotalTimeoutIsExact | src/modules/search-job/search-job.service.ts:498-503 | when the total time is up every unfinished row times out, finished ones stay, and the watch is over |
| SearchJobSteps.SuccessWasReported | src/modules/search-job/search-job.service.ts:324-587 | over every run of a new job a row shows a success only if some search, lookup or crawl message of the run reported one for its history |
| SearchJobSteps.NoSuccessMeansFailed | src/modules/search-job/search-job.service.ts:471-685 | over every run in which nobody reports a success a job with recorded searches ends failed |
| SearchJobSteps.CrawlRowsAreExact | src/modules/search-job/search-job-progress.sync.ts:133-160 | a crawl message gives its status, and its count if it has one, to the rows of its crawl and to no other |
| SearchJobSteps.CrawlMessageIsExact | src/modules/search-job/search-job-progress.sync.ts:162-239 | on an unfinished job with rows: queued afterwards iff it was queued or running, the message says queued and no row has started, else running; the site is the message's, progress the rounded mean of 100 for finished rows, the message's percentage for its own, 50 for running and 10 for other rows |
| SearchJobSteps.LegacyMessageIsExact | src/modules/search-job/search-job-progress.sync.ts:162-239 | the same for a job without rows that refers to the crawl's history |
| SearchJobSteps.OtherMessagesLeaveJob | src/modules/search-job/search-job-progress.sync.ts:162-239 | a message for no row of the job and not for its only history, or after its end, leaves the job equal |
| SearchJobSteps.ProgressCanFall | src/modules/search-job/search-job-progress.sync.ts:191-222 | an input: progress falls from 80 to 20 with two messages |
| SearchJobSteps.RunnerBeginsExactly | src/modules/search-job/search-job.service.ts:324-352 | the runner's first two saves: queued at 5 percent, running at 10, nothing else changed |
| SearchJobSteps.KeywordSaveIsExact | src/modules/search-job/search-job.service.ts:354-379 | before keyword i of n the runner saves its own copy with progress 10 + 50 i / n rounded down, from 10 to 59 |
| SearchJobSteps.SearchIsRecordedExactly | src/modules/search-job/search-job.service.ts:430-469 | a search that returned a history adds one row with its status, or queued while a crawl is due; the first history becomes the job's |
| SearchJobSteps.WatchBeginsExactly | src/modules/search-job/search-job.service.ts:386-417 | with crawls still due the watch begins with a running job, the number of distinct listings, and the larger of its progress and the rounded mean of 100 and 10 points |
| SearchJobSteps.RunnerFailsExactly | src/modules/search-job/search-job.service.ts:324-428 | a failure of the runner, or no keywords, stores message and time and stops; rows and callbacks stay |
| SearchJobSteps.FinalSaveIsExact | src/modules/search-job/search-job.service.ts:606-685 | the final save changes status, progress, site, finish time, count and error text only; the text says whether all or some searches failed |
| SearchJobSteps.JobCountsDistinct | src/modules/search-job/search-job.service.ts:606-685 | the job's count is the number of distinct listings of its rows, at most the sum over the keywords, and less as soon as two of them share a listing |
| SearchJobSteps.HistoryDeletedExactly | src/modules/search/search.service.ts:262-265 | the deletion of a history clears the job's reference to it and changes nothing else |
| SearchJobCallback.CallbackAtMostOnce | src/modules/search-job/search-job.service.ts:891-995 | over every run calls are made for a completed or partial job only and a success is recorded iff one was delivered; while no call begins during another, at most one succeeds and a recorded success excludes a recorded error |
| SearchJobCallback.ReportBeginsIff | src/modules/search-job/search-job.service.ts:891-911 | the automatic report calls iff it is due and no success is stored, and is tried once |
| SearchJobCallback.ResendBeginsIff | src/modules/search-job/search-job.service.ts:223-256 | a resend calls iff the job is completed or partial and no success is stored, or one beside a nonempty error |
| SearchJobCallback.CallEndsExactly | src/modules/search-job/search-job.service.ts:913-995 | the end of a call stores its time and no error, or the first 1000 characters of the rejection, or nothing, in the two callback fields only |
| SearchJobCallback.TwoSucceedIffOverlap | src/modules/search-job/search-job.service.ts:913-995 | after a sequential past, two calls can both succeed without further overlap iff another call was under way when this one began |
| SearchJobCallback.ReportedTwice | src/modules/search-job/search-job.service.ts:223-256 | a run of a new job in which the automatic report and a manual resend are both delivered |
| SearchJobCallback.SuccessIsFinal | src/modules/search-job/search-job.service.ts:229-233 | once a success stands without an error and no call is under way, no run ever sends again |
| SearchJobCallback.SuccessKeepsNoErrorIff | src/modules/search-job/search-job.service.ts:957-983 | a step puts an error beside a recorded success iff it ends a call with a rejection |
| SearchJobCallback.ResendRepairsFailure | src/modules/search-job/search-job.service.ts:223-256 | a resend that succeeds clears the error, whatever happens meanwhile short of another call, and nothing is sent after it |
| SearchJobService.ResendAnswerIsHonest | src/modules/search-job/search-job.service.ts:223-256 | whatever others do during the call, the HTTP answer tells whether this very call was accepted, failed, an earlier one had succeeded, or nothing was attempted |
| SearchJobService.Service.FinalizeJob | src/modules/search-job/search-job.service.ts:606-685 | the handler makes exactly the finalize step of the protocol and then the steps of the report it makes due |
| SearchJobService.Service.TriggerAutoInvestigation | src/modules/search-job/search-job.service.ts:710-748 | the report begins only after the investigation, with what others did meanwhile; one that was sent by hand by then is not sent again |
| SearchJobService.Service.ForgetHistory | src/modules/search/search.service.ts:262-265 | the deletion of a search clears the job's reference to it and nothing else of the job |
| SearchJobService.Service.MarkIncompleteRowsTimeout | src/modules/search-job/search-job.service.ts:589-604 | turns unfinished rows into timeouts, leaves the others, and all rows end finished |
| SearchJobService.Service.UpdateJobHistoryFromCrawl | src/modules/search-job/search-job-progress.sync.ts:133-160 | writes status and count into the rows of that crawl and no other |
| SearchJobService.Service.RefreshJobProgressFromHistories | src/modules/search-job/search-job-progress.sync.ts:162-239 | the job after a crawl event is the protocol's refreshed job, which `CrawlMessageIsExact`, `LegacyMessageIsExact` and `OtherMessagesLeaveJob` state field by field |
| SearchJobService.Service.WatchJobHistories | src/modules/search-job/search-job.service.ts:471-587 | the poll loop ends within the bound with a finished, reported job and the exact verdict of its final save, whatever other actors do during sleeps, before the final save and during the report; `PollIsExact` and `TotalTimeoutIsExact` state each poll row by row |
| SearchJobService.Service.RunSearch | src/modules/search-job/search-job.service.ts:324-428 | the runner's saves, interleaved with any other actors' events at every published message and search, are a run of the protocol that ends failed, finished and reported, or watched |
| SearchJobService.Service.RecordJobHistory | src/modules/search-job/search-job.service.ts:430-469 | appends one row, queued if the search still needs a crawl |
| SearchJobService.Service.ResendBackOfficeCallback | src/modules/search-job/search-job.service.ts:223-256 | new state and answer of a manual resend with what others do during its call; a refusal changes nothing |
| SearchJobService.Service.SendBackOfficeCallback | src/modules/search-job/search-job.service.ts:891-911 | an automatic send happens only without a recorded success and for completed or partial jobs; its outcome is stored after whatever others did during the call |
| ListingStore.UpsertKeepsWFIff | src/crawler/crawler.service.ts:393-566 | a crawled listing keeps the store well-formed iff its history still exists or its URL was stored; other histories' snapshots stay |
| ListingStore.UpsertRecords | src/crawler/crawler.service.ts:393-566 | field by field: the listing of the URL has the first 500 characters of the title, the crawled price, seller and region where there are any and the stored ones otherwise, and a nonempty crawled image; the one snapshot shows the crawled values or else the saved ones; the document has the crawled price and the saved rest; every other row stays |
| ListingStore.UpsertWritesListing | src/crawler/crawler.service.ts:403-460 | also for a history that is gone: the listing of the URL is refreshed, or created with exactly the crawled values, and no other changes |
| ListingTheorems.ListingHoldsLastBrought | src/crawler/crawler.service.ts:403-428 | over any run of crawls, cache hits and deletions each field of a listing that stays is the last one any crawl of its URL brought, or as it was |
| ListingTheorems.PriceIsLastCrawled | src/crawler/crawler.service.ts:413-415 | so its price is that of the last crawl of its URL with a price, at whatever position |
| ListingTheorems.NewListingWasCrawled | src/crawler/crawler.service.ts:429-460 | a listing that is new after a run was created by a crawl in it with exactly the crawled values and follows the rest of the run |
| ListingTheorems.LinkCachedShows | src/modules/search/search.service.ts:454-492 | the snapshot a cache hit adds for a listing shows the first document that names it, and the listing where that lacks a value |
| ListingStore.LinkCachedLinks | src/modules/search/search.service.ts:454-492 | a cache hit links exactly the documents that have a listing |
| ListingStore.DeleteHistoryIsExact | src/modules/search/search.service.ts:246-312 | deleting a search removes exactly the listings no other search links, with their documents, and leaves the rest unchanged |
| ListingStore.DeleteHistoryCascades | src/modules/search/search.service.ts:257-268 | its cases go, its jobs stay and only lose the reference |
| ListingStore.RunKeepsWFIff | src/crawler/crawler.service.ts:393-566 | over any run of crawls, cache hits and deletions the store is well-formed at every moment (one listing per URL, one snapshot per pair, no orphans, document ids equal listing ids) iff no crawl stores a new URL for a deleted history |
| ListingStore.SnapshotsAreStable | src/modules/search/search.service.ts:246-312 | no operation on other searches ever changes a search's results, crawls that come too late for a deleted one included |
| ListingStore.HistoryStaysIff | src/modules/search/search.service.ts:246-312 | a history is there after a run iff it was there before and was not deleted, unless its crawl ends in it |
| ListingStore.DeleteUndoesSearch | src/modules/search/search.service.ts:246-312 | deleting a search gives back the identifiers of listings and documents and all snapshots there were before it began |
| ListingStore.DeleteKeepsWhatSearchWrote | src/modules/search/search.service.ts:246-312 | a listing and its document whose URL the search did not crawl come back as they were; the others keep what its crawls wrote and name the deleted history |
| CrawlTrace.PercentsClimbTo100 | src/crawler/crawler.service.ts:362-391 | the percentages of a crawl never fall, stay in 0..100 and end at 100, whatever the sites do |
| CrawlTrace.PercentIsExact | src/crawler/crawler.service.ts:362-384 | a running crawl shows the rounded percentage of its sites done, counting half for the one under way; a finished one 100 |
| CrawlTrace.FinalStatusIsExact | src/crawler/crawler.service.ts:206-216 | completed iff no site failed; with a failure, partial iff some listing was saved |
| CrawlTrace.SiteMessagesAreExact | src/crawler/crawler.service.ts:95-200 | every site sends one message before it, one after each saved listing and one when it is completed, with the sites done and to come and the count so far |
| CrawlTrace.TraceEndsAreExact | src/crawler/crawler.service.ts:64-253 | the first message has nothing completed, the last one everything, with the stored count |
| CrawlTrace.MessagesSplitSitesIffDistinct | src/crawler/crawler.service.ts:95-200 | completed then pending sites are the site list in every message iff no site repeats |
| CrawlerService.Tables.ExecuteCrawl | src/crawler/crawler.service.ts:64-253 | whatever others do between its listings: the messages are the trace of what the sites left behind and the stored number is that of this history's snapshots; undisturbed, every kept listing is upserted in order; a search deleted on the way ends its sites early and is back in the end, empty |
| CrawlerService.Tables.DeleteSearch | src/modules/search/search.service.ts:246-312 | the handler with its orphan collection is the deletion of the store and keeps it well-formed |
| CrawlerService.Tables.SearchFromCache | src/modules/search/search.service.ts:51-190 | a cache hit opens a history and links the documents |
| CrawlerService.ResultCountIsDistinctUrls | src/crawler/crawler.service.ts:202-204 | unless it is deleted, the stored result count of a new history is the number of distinct URLs the sites kept, whatever happens to other histories meanwhile |
| CrawlerService.CachedCountIsExactIff | src/modules/search/search.service.ts:51-190 | the count of a cache hit is its number of results iff documents are distinct and all have listings |
| CaseWorkflow.TransitionIsOneStep | src/modules/investigation/investigation.workflow.ts:28-47 | a status may stay or move exactly one step forward, which is what the selectable list offers |
| CaseLog.StepKeepsLog | src/modules/investigation/investigation.service.ts:403-597 | every operation, accepted or refused, keeps the timeline a complete log: replaying it gives status, assignee, decision with note and time, score and watchlist flag; a decision exists iff its time does and implies Completed or Archived |
| CaseLog.RefreshKeepsLog | src/modules/investigation/investigation.service.ts:1037-1139 | so does an AI refresh with any warnings and order |
| CaseLog.NewCaseKeepsLog | src/modules/investigation/investigation.service.ts:754-1035 | a new case's opening entries account for all its logged fields |
| CaseLog.RunKeepsLog | src/modules/investigation/investigation.service.ts:403-597 | over any run the timeline only grows at its end, the workflow never goes back, Archived is final and the log stays faithful |
| CaseLog.StatusIsReplayed | src/modules/investigation/investigation.service.ts:412-432 | replaying the status changes from Open reproduces the current status |
| CaseLog.StatusMovesOnlyBy | src/modules/investigation/investigation.service.ts:403-597 | only a status update (by one step) or a final decision moves the status |
| CaseLog.DecisionIsIdempotent | src/modules/investigation/investigation.service.ts:553-562 | repeating a decision, with the note trimmed the same, changes nothing |
| CaseLog.DecisionCompletes | src/modules/investigation/investigation.service.ts:545-597 | a decision is refused iff the case is archived, otherwise it completes it; the timeline stays iff it is a repetition |
| CaseLog.DecisionIsExact | src/modules/investigation/investigation.service.ts:545-597 | a new decision stores decision, note and time and logs the decision, and behind it the completion of a case not yet completed |
| CaseLog.RefreshAgreesWithCreate | src/modules/investigation/investigation.service.ts:1037-1139 | an AI refresh gives the case exactly the fields a new case from the same result would have, keeps what the result lacks, and touches nothing else |
| CaseLog.AssignmentIsExact | src/modules/investigation/investigation.service.ts:434-482 | stores what was asked, keeps the rest, logged iff the assignee changes |
| CaseLog.AddedNoteIsFound | src/modules/investigation/investigation.service.ts:484-509 | the added note is last, found by its identifier, trimmed, with a nonempty author of at most 100 characters |
| CaseLog.AddedNoteIsExact | src/modules/investigation/investigation.service.ts:484-509 | the note is appended with the first 100 characters of the trimmed author or the default one, and the timeline gains a preview of at most 120 characters; nothing else changes |
| CaseLog.UpdatedNoteIsExact | src/modules/investigation/investigation.service.ts:511-532 | refused iff no note has the identifier; otherwise text and time of that note change and nothing else |
| CaseLog.DeleteUndoesAdd | src/modules/investigation/investigation.service.ts:484-543 | an added note that is deleted again leaves only its log entry |
| CaseLog.NotesStayUnique | src/modules/investigation/investigation.service.ts:484-543 | note identifiers stay distinct as long as each new note gets a fresh one |
| CaseLog.WithoutNoteIsExact | src/modules/investigation/investigation.service.ts:534-543 | deleting removes the notes with that identifier and no others |
| CaseLog.ExcludeKeepsOrderLogIff | src/modules/investigation/investigation.service.ts:1141-1188 | an exclusion recommendation keeps the order link in step with the log iff the job brings no other order |
| CaseNumber.PrintParses | src/modules/investigation/investigation.service.ts:1289-1293 | reading back a printed case number gives the number |
| CaseNumber.TextOrder | src/modules/investigation/investigation.service.ts:1281-1285 | text order is numeric order below 1,000,000, which itself sorts right after 100,000 |
| CaseNumber.NextIsNew | src/modules/investigation/investigation.service.ts:1275-1294 | while a day's numbers stay below 1,000,000 the next one is greater than and distinct from all, as number and as text |
| CaseNumber.DayIsFullIff | src/modules/investigation/investigation.service.ts:1275-1294 | after 1..n comes n + 1, and the next number is taken already iff n is 1,000,000 |
| CaseNumber.SuccessorText | src/modules/investigation/investigation.service.ts:1281-1293 | for every number the next one comes later in text order, unless it is a power of ten with more than six digits, which comes earlier |
| CaseNumber.NextIsTakenIff | src/modules/investigation/investigation.service.ts:1275-1294 | for any numbers in use, with whatever holes, the next number is in use iff some 99...9 of six or more digits and the power of ten after it are and no number goes on after those nines |
| CaseNumber.NextIsTakenBelow | src/modules/investigation/investigation.service.ts:1275-1294 | below 9,999,990 that means: iff 999,999 and 1,000,000 are both in use |
| CaseNumber.NumberReturnsIff | src/modules/investigation/investigation.service.ts:1281-1293 | for any numbers left in use, number n is handed out next iff its predecessor is in use and textually last, or none is in use and it is 1 |
| CaseNumber.DeletedNumberReturnsIff | src/modules/investigation/investigation.service.ts:1281-1293 | on a day below 1,000,000 a deleted number comes back iff it was the greatest and its predecessor is in use, or it was the only one and 1 |
| CaseTable.InsertFailsIff | src/modules/investigation/investigation.service.ts:1275-1294 | creation fails on a repeated number iff the live cases of the day block it with such nines and power of ten, whatever was deleted before |
| CaseTable.LateInsertFailsIff | src/modules/investigation/investigation.service.ts:803-1022 | after any operations between reading the number and inserting, the insert fails iff a case new since then has the number or the listing |
| CaseTable.ReadersCollide | src/modules/investigation/investigation.service.ts:803-1022 | two creations that read the same table for the same day get the same number, and the second fails |
| CaseTable.CountsAddUp | src/modules/investigation/investigation.service.ts:205-349 | created + updated + skipped is the number of results, excluded at most skipped, watchlisted the number of watchlisted entries listed |
| CaseRounds.RoundIsExact | src/modules/investigation/investigation.service.ts:213-336 | one round by its decision and the live case of the listing: it makes a case iff the rules open a listing without one, updates one iff the rules open an engine result whose case is open, and skips it otherwise; which counters move, and field by field what the row holds (score, priority, listing, links, watchlist flag, timeline); an excluded engine result with a case gains exactly one recommendation; all other rows stay |
| CaseRounds.TallyIsExact | src/modules/investigation/investigation.service.ts:205-349 | the counters of a run from the table before it and the results alone: which results create, update, are excluded, warned about and watchlisted |
| CaseRounds.LastServedIsShown | src/modules/investigation/investigation.service.ts:285-336 | after a run the live case of a listing shows the last result that made or updated it: score, priority, listing, search and watchlist flag |
| CaseRounds.RefreshIsExact | src/modules/investigation/investigation.service.ts:1037-1139 | a refreshed case field by field, with its timeline entries in order |
| CaseRounds.CreationIsExact | src/modules/investigation/investigation.service.ts:754-1022 | a new case field by field, with its opening entries in order |
| CaseRounds.ExclusionIsExact | src/modules/investigation/investigation.service.ts:1141-1188 | an exclusion changes the links, appends one recommendation with the rules that matched and the score without similarities, and nothing else |
| CaseTable.RunTouches | src/modules/investigation/investigation.service.ts:205-349 | automatic runs never change a status; a case past Open keeps all but its job and order links, and its timeline gains only exclusion recommendations |
| CaseTable.CreatesNothingIff | src/modules/investigation/investigation.service.ts:285-336 | a run creates nothing iff every result the rules open has a case; rows added are exactly those reported created |
| CaseTable.RerunCreatesNothing | src/modules/investigation/investigation.service.ts:205-349 | a rerun over the same results, prices and rules creates nothing, whatever other operations happened to the cases in between |
| CaseTable.ManualIsIdempotent | src/modules/investigation/investigation.service.ts:603-680 | asking twice for the same listing gives the same case and no second row |
| CaseRounds.ManualAnswerIsExact | src/modules/investigation/investigation.service.ts:603-680 | which answer a manual request gets, in the order of the checks, and that only a made case adds a row |
| CaseRounds.ManualCaseIsExact | src/modules/investigation/investigation.service.ts:603-680 | a manual case field by field: open, unassigned, scored by the better similarity alone, the job's order or else the one asked for |
| CaseTable.TableRunKeepsInv | src/modules/investigation/investigation.service.ts:123-680 | over any mix of creation, inserts with numbers read earlier, case operations and deleted searches: at most one case per result, distinct numbers, faithful timelines, no step back |
| CaseTable.RunKeepsLives | src/modules/search/search.service.ts:257-260 | only the deletion of a search removes cases |
| CaseService.InvestigationService.UpdateStatus | src/modules/investigation/investigation.service.ts:403-432 | keeps the table in order; accepted iff the status stays or moves one step forward, a move changes status and timeline only and is logged, a refusal changes nothing |
| CaseService.InvestigationService.UpdateAssignment | src/modules/investigation/investigation.service.ts:434-482 | keeps the table in order; stores what was asked, keeps the rest, and logs iff the assignee changes |
| CaseService.InvestigationService.AddNote | src/modules/investigation/investigation.service.ts:484-509 | keeps the table in order; the note comes last, trimmed, with a nonempty author of at most 100 characters, all else stays but one timeline entry; under a fresh identifier it is the one found and identifiers stay distinct |
| CaseService.InvestigationService.UpdateNote | src/modules/investigation/investigation.service.ts:511-532 | keeps the table in order; refused iff no note has the identifier, otherwise text and time of that note change and nothing else |
| CaseService.InvestigationService.DeleteNote | src/modules/investigation/investigation.service.ts:534-543 | keeps the table in order; refused iff no note has the identifier, otherwise the notes with it go and no others: one note as long as identifiers are distinct |
| CaseService.InvestigationService.ApplyFinalDecision | src/modules/investigation/investigation.service.ts:545-597 | keeps the table in order; refused iff archived, otherwise completed with the decision; nothing changes iff the same decision stood |
| CaseService.InvestigationService.CreateManual | src/modules/investigation/investigation.service.ts:603-680 | keeps the table in order whatever others do while the analysis is awaited; answers an existing case iff there was one, a refusal changes nothing, a returned case is the listing's only one, and the insert throws exactly when a newer case took its number or listing, or on a day that was blocked from the start |
| CaseService.InvestigationService.NextCaseNumber | src/modules/investigation/investigation.service.ts:1275-1294 | the search for the textually last number of the day gives the next number of the model |
| CaseService.InvestigationService.CreateCaseFromResult | src/modules/investigation/investigation.service.ts:754-1022 | number first, then others, then the insert: it adds the built row under a number no live case has, or changes nothing when a unique index rejects it |
| CaseService.InvestigationService.HandleResult | src/modules/investigation/investigation.service.ts:213-336 | one result of the automatic loop: keeps the table in order, is exactly the round of `RoundIsExact`, and a result the rules open has its case afterwards |
| CaseService.InvestigationService.AutoCreateFromSearch | src/modules/investigation/investigation.service.ts:123-349 | keeps the table in order; a run is a chain of exact rounds, its counters are those of `TallyIsExact`, and each listing's case shows the last result that made or updated it; every result is counted once, as many rows are added as reported created, cases past Open are relinked at most, every result the rules open has its case, and nothing is created iff all of them had one |
| CaseService.InvestigationService.RemoveCasesOf | src/modules/search/search.service.ts:257-260 | deleting a search takes exactly the live cases linked to it and leaves every other row as it was |
| LocalGate.EarlyBlocksLandLowIff | src/ai/local-image/decide-local-vision-gate.ts:58-144 | an early block always lands below 40 iff neither reject threshold exceeds 39.5; the defaults satisfy it |
| LocalGate.LateBlockLandsLowIff | src/ai/local-image/decide-local-vision-gate.ts:151-240 | for all thresholds a late result lands below 40 iff every engine stayed below 39.5, or, when the structural similarity alone passes it, iff that one did |
| LocalGate.LateBlockCanLandHigh | src/ai/local-image/decide-local-vision-gate.ts:202-209 | a refused listing can carry a local similarity of 95 |
| LocalGate.VisionIsAskedIff | src/ai/local-image/decide-local-vision-gate.ts:58-240 | the vision model is asked iff neither colour nor hash rejects, neither hash nor structure is sure of a match, and a heavy engine reaches its threshold or none ran |
| LocalGate.GateStageIsExact | src/ai/local-image/decide-local-vision-gate.ts:58-240 | which engine decides, and whose rounded similarity stands for the images |
| LocalGate.BestEngineStands | src/ai/local-image/decide-local-vision-gate.ts:202-240 | undecided by single engines, the best of those that ran stands for the images, 0 if none did |
| Matching.CorrectionCaps | src/ai/matching-vision.util.ts:46-53 | the caps of the two lower bands for all scores |
| Matching.TopBandIsConsensus | src/ai/matching-vision.util.ts:54-58 | in the top band both scores stay within any bounds that hold the matching score and all item scores |
| Matching.AverageWithin | src/ai/matching-vision.util.ts:85-96 | the weighted average lies between any bounds of the item scores |
| Matching.FirstScoresAreExact | src/ai/ai.service.ts:313-320 | every item score is the rounded and clamped number of the reply; a missing matching score is the mean with shares 0.2, 0.15, 0.1, 0.08, 0.07 and 0.05, a missing AI score 0.55 of the one and 0.45 of the other |
| Matching.CorrectionIsExact | src/ai/matching-vision.util.ts:22-66 | the correction in closed form, band by band: caps with floors below 40, caps from 40 to 59, the blended mean from 60 on |
| Matching.ApplyVisionToMatching | src/ai/matching-vision.util.ts:22-66 | the correction by bands computes the corrected scores, out-of-range and non-finite similarities included |
| Matching.WeightedAverage | src/ai/matching-vision.util.ts:85-96 | the accumulator loop computes the weighted average |
| RuleEngine.EvaluateRules | src/ai/rules/ai-rule-engine.service.ts:149-206 | the evaluation loop excludes iff some exclusion matches, creates iff some creation and no exclusion matches, and lists matches by priority |
| RuleEngine.VerdictIgnoresOrder | src/ai/rules/ai-rule-engine.service.ts:149-206 | the verdict is the same for every ordering of the rules |
| RuleEngine.MatchedIsExact | src/ai/rules/ai-rule-engine.service.ts:149-206 | a rule is reported iff it is one of the rules and its comparison holds |
| RuleEngine.RuleHoldsIff | src/ai/rules/ai-rule-engine.service.ts:149-308 | a rule holds iff its field can be read and stands to its value as its operator says, equality within 1e-9 |
| RuleEngine.FieldIsExact | src/ai/rules/ai-rule-engine.service.ts:235-340 | what each field reads from scores and prices: percentages, fractions as percentages, the price difference in percent of the rental price, or nothing |
| RuleEngine.WarningsAreExact | src/ai/rules/ai-rule-engine.service.ts:149-206 | warnings are the warning rules that hold; warnings and matches come by descending priority |
| RuleEngine.ThresholdIsOfLeader | src/ai/rules/ai-rule-engine.service.ts:149-206 | the reported threshold is that of a create rule of highest priority, matched or not |
| RuleEngine.CreateThresholdIsExact | src/ai/rules/ai-rule-engine.service.ts:207-217 | the threshold is that of the first create rule as a percentage; without one the configured one, or 90 |
| RuleEngine.DefaultRulesDecide | src/ai/rules/default-rules.ts:14-56 | the default rules exclude iff the score is below 50 and create iff it is at least 50 and the clamped threshold |
| RuleEngine.DefaultRulesWarnIff | src/ai/rules/default-rules.ts:14-56 | the default rules warn about the price iff both prices are known, the rental price is positive and the listing asks at most 30 or at least 170 percent of it |
| RuleEngine.PercentageIsReadIff | src/ai/rules/ai-rule-engine.service.ts:331-335 | a similarity given as a percentage is read as one iff it is above 1 or rounds to nothing |
| ScorePipeline.ScoreRoundTrip | src/modules/investigation/investigation.service.ts:1204-1226 | an integer score survives the trip through 0..1 and back |
| ScorePipeline.ScorePercentIsExact | src/modules/investigation/investigation.service.ts:1204-1226 | the score in percent is the rounded and clamped AI score, else the matching score, else the better similarity |
| ScorePipeline.ScoresAreRead | src/modules/investigation/investigation.service.ts:217-232 | the rules read a matched listing's AI, matching, name and image scores as they are, through fractions and back |
| ScorePipeline.DecisionIsExact | src/modules/investigation/investigation.service.ts:217-283 | by any rules: excluded iff an exclude rule holds, opened iff otherwise a create rule holds, watchlisted iff neither does and the score is from the minimum up to below the threshold; without rules the threshold alone opens |
| ScorePipeline.DefaultDecision | src/modules/investigation/investigation.service.ts:217-283 | exactly which scores are excluded, opened and watchlisted under the default rules |
| ScorePipeline.VerdictCaps | src/ai/ai.service.ts:313-410 | what an image verdict does to the scores of any model reply |
| ScorePipeline.NoVerdictIff | src/ai/ai.service.ts:322-397 | a listing keeps its first scores for want of a comparison iff comparison is off, a URL is missing, all four text scores are under their bounds, the gate threw, or it let the listing go on and the vision model was off or threw |
| ScorePipeline.DifferentImagesAreExcluded | src/ai/ai.service.ts:313-410 | every listing whose text is alike enough (50 overall, or 60 in brand, name or model) and whose images the gate or the vision model rates below 40 scores at most 49 and is excluded, for all replies, prices and rule orderings |
| ScorePipeline.EarlyBlockIsExcluded | src/ai/local-image/decide-local-vision-gate.ts:58-122 | every such listing that colour or hash rejects is excluded |
| ScorePipeline.DoubtfulImagesAreNotAutoCreated | src/modules/investigation/investigation.service.ts:217-283 | every such listing whose images are rated 40 to 59 scores at most 79, so it never auto-creates at 80 or more; exactly when it is watchlisted or excluded |
| ScorePipeline.DoubtfulImagesCanBeWatchlisted | src/modules/investigation/investigation.service.ts:251-258 | with the configured defaults such a listing can open a watchlisted case |
| Ssim.WindowSsim | src/ai/local-image/ssim.compare.ts:83-126 | the window loops stay inside the plane, compute the index of its 64 pixels, and lie in [-1, 1] |
| Ssim.GlobalSsim | src/ai/local-image/ssim.compare.ts:128-157 | whole-plane comparison, 0 for fewer than two pixels |
| Ssim.MeanSsim | src/ai/local-image/ssim.compare.ts:58-81 | the strided grid of windows is averaged, planes of a window's width or height are compared whole; in [-1, 1] |
| Ssim.IndexInRange | src/ai/local-image/ssim.compare.ts:95-125 | the index lies in [-1, 1] and is 1 iff the pixels are identical |
| Ssim.FlatIndex | src/ai/local-image/ssim.compare.ts:95-125 | for flat windows of levels x and y the index is (2 x y + 6.5025) / (x x + y y + 6.5025) |
| Ssim.ContrastIndex | src/ai/local-image/ssim.compare.ts:95-125 | for two pixels each around one mean, d and e away, it is (4 d e + 58.5225) / (2 d d + 2 e e + 58.5225) |
| Ssim.MeanSymmetric | src/ai/local-image/ssim.compare.ts:58-81 | the mean does not depend on the order of the planes |
| Ssim.RowIsExact | src/ai/local-image/ssim.compare.ts:58-81 | the windows start at every fourth column of every fourth row as long as all eight fit |
| Ssim.MeanIsOverGrid | src/ai/local-image/ssim.compare.ts:58-81 | the mean is the sum over these windows divided by their number |
| Ssim.SmallPlanesAreWhole | src/ai/local-image/ssim.compare.ts:58-157 | planes of at most one window's width or height are compared whole and count 0 with less than two pixels |
| Ssim.MeanIsOneIff | src/ai/local-image/ssim.compare.ts:58-157 | the mean is 1 iff all visited windows agree, or for whole planes iff identical with at least two pixels |
| Ssim.OneMeansIdentical | src/ai/local-image/ssim.compare.ts:58-81 | on aligned planes such as 128 by 128 the mean is 1 iff the planes are identical |
| Ssim.ReportedInRange | src/ai/local-image/ssim.compare.ts:30-32 | the reported similarity lies in 0..100 and is 100 for identical planes |
| Ssim.ReportedIsExact | src/ai/local-image/ssim.compare.ts:30-32 | the reported value is the mean held within 0..1, in percent rounded to one decimal |
| PHash.MedianSplits | src/ai/local-image/phash.compare.ts:87-95 | at most half of any values lie above the median and at most half below |
| PHash.MedianIsMiddle | src/ai/local-image/phash.compare.ts:87-95 | the middle of the values in order, the mean of the two middle ones for an even number |
| PHash.HashBitIsExact | src/ai/local-image/phash.compare.ts:52-76 | bit 8 y + x tells whether coefficient 32 y + x exceeds the median of the 63 others of the corner; bit 0 is 0 |
| PHash.AtMost31Bits | src/ai/local-image/phash.compare.ts:52-76 | at most 31 of 64 bits are set, exactly 31 iff the two middle coefficients differ |
| PHash.ComputePHashBits | src/ai/local-image/phash.compare.ts:52-76 | the nested loops compute the hash bits |
| PHash.HammingDistance | src/ai/local-image/phash.compare.ts:78-85 | the loop counts differing positions of the common length |
| PHash.DistanceIsMetric | src/ai/local-image/phash.compare.ts:78-85 | symmetric, zero iff equal, triangle inequality |
| PHash.DistanceCountsPositions | src/ai/local-image/phash.compare.ts:78-85 | the distance is the number of positions that differ |
| PHash.HashesDifferInAtMost62 | src/ai/local-image/phash.compare.ts:52-85 | two hashes differ in at most 62 bits |
| PHash.SimilarityInRange | src/ai/local-image/phash.compare.ts:22-25 | the similarity lies in 3.1..100 and is 100 iff the hashes are equal |
| PHash.SimilarityIsExact | src/ai/local-image/phash.compare.ts:22-25 | the similarity is the share of equal bits in percent, rounded to one decimal |
| ColorHistogram.AccumulateSoft | src/ai/local-image/color-histogram.compare.ts:90-97 | the in-place update of one channel, the others untouched |
| ColorHistogram.SoftConserves | src/ai/local-image/color-histogram.compare.ts:90-97 | each value adds exactly 1 to its channel and exactly its position to the channel's moment |
| ColorHistogram.ChannelMass | src/ai/local-image/color-histogram.compare.ts:63-75 | after n values a channel holds mass n centred where the values are |
| ColorHistogram.ExtractHistogram | src/ai/local-image/color-histogram.compare.ts:52-82 | the pixel loop and the normalisation compute the features, or refuse images without three channels |
| ColorHistogram.FeaturesAreDistributions | src/ai/local-image/color-histogram.compare.ts:77-82 | each channel of a nonempty image sums to 1 without negative bins |
| ColorHistogram.FeaturesAreExact | src/ai/local-image/color-histogram.compare.ts:52-82 | each feature is the average over all pixels of a triangular kernel around its bin, for the right channel; grey images have none |
| ColorHistogram.IntersectionIsSimilarity | src/ai/local-image/color-histogram.compare.ts:110-116 | in [0, 1] before clamping, symmetric, 1 iff the histograms are equal |
| ColorHistogram.IntersectionIsDistance | src/ai/local-image/color-histogram.compare.ts:110-116 | the similarity is 1 minus a sixth of the summed differences of the bins |
| ColorHistogram.HistogramIntersection | src/ai/local-image/color-histogram.compare.ts:110-116 | the loop computes the clamped sum of minima |
| ImageHash.HammingDistance | src/common/utils/image-hash.util.ts:30-40 | the xor-and-shift loop returns the Hamming distance, or the syntax error of an unparsable hash |
| ImageHash.XorCountsDifferences | src/common/utils/image-hash.util.ts:33-39 | the population count of the exclusive or is the number of differing bits |
| ImageHash.HammingIsMetric | src/common/utils/image-hash.util.ts:30-40 | a metric on hash values |
| ImageHash.DistanceBound | src/common/utils/image-hash.util.ts:42-46 | at most four times the longer length |
| ImageHash.SimilarityInRange | src/common/utils/image-hash.util.ts:42-46 | the lower clamp is never active, symmetric, 1 iff the same number |
| ImageHash.SimilarityIsExact | src/common/utils/image-hash.util.ts:42-46 | the similarity is 1 minus the differing bits over four times the longer length |
| ImageHash.HexDigitIsExact | src/common/utils/image-hash.util.ts:30-32 | digits and letters of either case have their values, nothing else has one |
| ImageHash.SameNumberDifferentText | src/common/utils/image-hash.util.ts:42-46 | two different hash texts with similarity 1 |
| ImageHash.HashDistanceCountsPixels | src/common/utils/image-hash.util.ts:21-40 | through print and parse the distance is the number of pixels whose comparison with the average differs |
| ImageHash.ComputeAverageHash | src/common/utils/image-hash.util.ts:18-26 | the loops print the bits of the pixels at least as bright as the average |
| ImageHash.HashIsExact | src/common/utils/image-hash.util.ts:21-27 | the hash of up to 64 pixels has 16 hex digits and its number has the pixels' bits as binary digits, the first one highest |
| ImageHash.AverageBitIff | src/common/utils/image-hash.util.ts:18-24 | a bit is set iff the pixel times the number of pixels reaches the sum of all pixels |
| ImageHash.HashIsNotZero | src/common/utils/image-hash.util.ts:18-24 | some pixel is at least average, so no hash is zero |
| TitleSimilarity.NormalizeIsIdempotent | src/common/utils/string.util.ts:7-9 | normalised text is trimmed, single-spaced and a fixed point |
| TitleSimilarity.NormalizeIsWords | src/common/utils/string.util.ts:7-9 | normalised text is the words of the text with single spaces between them, in lower case |
| TitleSimilarity.BagCountsPlaces | src/common/utils/string.util.ts:18-25 | a bigram counts as often as it stands in the text |
| TitleSimilarity.Bigrams | src/common/utils/string.util.ts:18-25 | the map holds each bigram with its multiplicity |
| TitleSimilarity.IntersectionSize | src/common/utils/string.util.ts:31-34 | the loop over one map computes the size of the multiset intersection |
| TitleSimilarity.ComputeTitleSimilarity | src/common/utils/string.util.ts:12-37 | the whole computation is the Dice score of the normalised texts |
| TitleSimilarity.DiceIsSimilarity | src/common/utils/string.util.ts:12-37 | symmetric, in [0, 1]; 1 iff nonempty and equal or with the same bigrams; 0 iff empty or without a common bigram |
| TitleSimilarity.DiceIsQuotient | src/common/utils/string.util.ts:27-37 | between the extremes the score is twice the shared bigrams over all bigrams of both texts |
| TitleSimilarity.OneWithoutEquality | src/common/utils/string.util.ts:12-37 | two different titles with score 1 |
| TitleSimilarity.SelectsTheTop | src/common/utils/string.util.ts:43-57 | min(limit, n) input items with multiplicity, in rank order, none dropped outranks one kept |
| TitleSimilarity.OutranksIff | src/common/utils/string.util.ts:49-55 | rank is by similarity to the keyword, then by listing time, none counting as 0 |
| TitleSimilarity.EnoughCandidatesIff | src/common/utils/string.util.ts:60-63 | enough candidates to fill the final list iff it is no longer than 300 |
| TitleSimilarity.CandidateLimitIsExact | src/common/utils/string.util.ts:60-63 | five times the final number, from 5 up to 300 |
| KarrotCrawl.Crawl | src/crawler/adapter/karrot.adapter.ts:181-298 | for every behaviour of the outside: it ends; aborts at exactly the tenth block in a row; otherwise covers all targets; throws iff nothing succeeded and something was blocked; returns the top of the merged list |
| KarrotCrawl.CompleteCoversTargets | src/crawler/adapter/karrot.adapter.ts:200-275 | a crawl that was not aborted requests every target, with one request more iff a batch of two ended in four blocks in a row |
| KarrotCrawl.MergedIsExact | src/crawler/adapter/karrot.adapter.ts:231-241 | merged URLs are distinct and are exactly those of successful requests |
| KarrotCrawl.DedupeIsExact | src/crawler/adapter/karrot.adapter.ts:235-239 | merging keeps exactly the first item of each URL |
| KarrotCrawl.MergedAreEarliest | src/crawler/adapter/karrot.adapter.ts:231-241 | of several items with one URL the merged list holds the one fetched first |
| KarrotCrawl.CalmAtEveryRequest | src/crawler/adapter/karrot.adapter.ts:264-270 | ten blocks in a row are seen at the last request only |
| KarrotCrawl.BlockedRunIsExact | src/crawler/adapter/karrot.adapter.ts:242-252 | a run of n blocks at the end means that the last n requests were all answered 403 or 429 |
| KarrotCrawl.DelayCapped | src/crawler/adapter/karrot.adapter.ts:254-261 | the delay doubles up to eight seconds |
| KarrotCrawl.DelayIsExact | src/crawler/adapter/karrot.adapter.ts:254-261 | after n back-offs the delay is the configured one times 2 to the n, at most eight seconds |
| KarrotCrawl.Shuffle | src/crawler/adapter/karrot.adapter.ts:365-372 | the in-place shuffle is a permutation for all random choices |
| PromptStore.RunKeepsInv | src/ai/prompt/prompt-manager.service.ts:45-222 | over any run of starts and updates: one row per version, exactly one active row per stored key, every text kept and equal to its history entry |
| PromptStore.NextVersionIsNew | src/ai/prompt/prompt-manager.service.ts:182-188 | an update's version exceeds every earlier one of its key |
| PromptStore.UpdateTakesEffect | src/ai/prompt/prompt-manager.service.ts:174-222 | an update puts its text in force for its key and changes nothing for others |
| PromptTheorems.UpdateIsExact | src/ai/prompt/prompt-manager.service.ts:174-222 | an update appends one active row with the given texts, the next version, and name and description given or else the latest ones, and one history entry; it deactivates the key's active row and changes nothing else |
| PromptStore.SeedingKeepsPromptsInForce | src/ai/prompt/prompt-manager.service.ts:45-90 | seeding never changes what is in force for a stored key |
| PromptStore.SeedingActivatesFirst | src/ai/prompt/prompt-manager.service.ts:54-69 | on a key without rows seeding activates the first file of that key |
| PromptTheorems.StartStoresFiles | src/ai/prompt/prompt-manager.service.ts:45-90 | a start stores exactly the versions in the files that were not stored, with the files' texts and a history entry each, and leaves the rows that were there as they are |
| PromptTheorems.StartActivatesLowest | src/ai/prompt/prompt-manager.service.ts:45-90 | on a key without rows a start activates the lowest version that has both texts |
| PromptTheorems.LatestFileIsExact | src/ai/prompt/prompt-manager.service.ts:319-335 | the latest file is that of the greatest version, and none if that one lacks a text |
| PromptTheorems.InForceIsExact | src/ai/prompt/prompt-manager.service.ts:92-122 | in force is the active row, marked by where it was written, or the latest file of one of the seven catalog keys |
| PromptManager.PromptManagerService.OnModuleInit | src/ai/prompt/prompt-manager.service.ts:39-42 | starting seeds the files and leaves the cache in step with the store |
| PromptManager.PromptManagerService.SyncFromFiles | src/ai/prompt/prompt-manager.service.ts:45-90 | the seeding loop |
| PromptManager.PromptManagerService.ReloadCache | src/ai/prompt/prompt-manager.service.ts:92-122 | the cache holds exactly the active row per key, or the latest file of a catalog key without one |
| PromptManager.PromptManagerService.UpdatePrompt | src/ai/prompt/prompt-manager.service.ts:174-222 | the new row, the kept invariant and the cache in step |
| PromptManager.PromptManagerService.GetActive | src/ai/prompt/prompt-manager.service.ts:141-143 | what is in force, or the latest file for other keys |

## Left out

- HTTP controllers, DTO validation, migrations, configuration, logging, dashboards, statistics and retention: no decision logic beyond what is modelled.
- Queues and pub/sub (`crawl-queue.service.ts`, Redis), Elasticsearch and image libraries: replaced by inputs that may fail.
- Races inside one step (see the assumptions above), crashes, and database exceptions other than the unique indexes on cases and the deleted history.
- Several jobs at once: the machine follows one job; other jobs touch it only through crawl events of shared histories, which are arbitrary events here.
- `matchSearchResults` (two-pass selection), the retry loop of `complete`, prompt rendering and the parsing of model replies: string plumbing around the modelled scores.
- Which results the investigation of a finished job looks at and the persisting of matching scores: the wait it puts before the report and the creation loop are modelled.
- Keyword rows, image hashes and site-attempt records of a search: bookkeeping tables without effect on the modelled ones.
- Similarity numbers stored in snapshots and the AI analysis block of a case: copied or scaled values nothing modelled reads.
- Display texts of timeline entries and messages: entries carry the values their text is made of.
- TitleSimilarity.NormalizeIsIdempotent: `toLowerCase` is modelled for A to Z only, because the mapping of other scripts is a table of the runtime.
- Case folding and string length beyond the Latin letters and the basic plane: `toLowerCase` is modelled for A to Z, and text is a sequence of characters.
- The cosine transform, the mean-colour distance with its square root, and floating-point rounding: coefficients and pixels are arbitrary exact reals.
- The embedded-article scan of the Karrot page (`findFleamarketObject`) and the region tables: the crawl takes what a request yields as given.
- `sleep` calls: only the length of the back-off delay is modelled.
- Job progress never falling: the code does not provide it (`ProgressCanFall`).
- SearchJobService.Service.WatchJobHistories: the lookups of one poll and its saves of rows are one step, so events of others between two rows of the same poll are not modelled.
- CrawlerService.Tables.ExecuteCrawl: a listing with its image download is one step; others come in between listings.
- CaseService.InvestigationService.AutoCreateFromSearch: a run over the results is one step, so cases created by others between two of its results are not modelled; `TableRunKeepsInv` covers such inserts one by one.
- CaseTable.RerunCreatesNothing: stated for runs without a deleted search in between, because a deleted case is created again by a rerun; `CreatesNothingIff` says exactly when.
- Simultaneity of the two requests of one Karrot batch: results are handled in batch order, which is all the counters depend on.
