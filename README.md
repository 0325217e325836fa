# Resume scoring and plugin marketplace, modelled in Dafny

This project models the two pages of the recruiting portal that hold real logic.

The resume-scoring page (`pages/ResumeScore.tsx`) is modelled in five parts:

- **The upload list.** Every chosen file becomes an `UploadFile` entry. Its status is READY, READING, PARSING, COMPLETED or ERROR. It has a progress value and an optional result.
- **The batch run `startAnalysis`.**
  - It first works out the job text it scores against.
  - When no job is selected and there is manual text, it materialises a job record.
  - It then walks the list in index order. It skips COMPLETED entries. Every other entry goes READING/10, PARSING/30, then COMPLETED/100 with the reply, or ERROR/0.
  - For each entry that succeeds, it stores one candidate record. The record's fields fall back to fixed defaults.
- **The data-URL step of `fileToBase64`.** It takes the piece after the first comma.
- **The read-only job-description preview.** The text is split on `##`. Blank pieces are dropped. The first piece is shown as plain text. Every later piece gets a header line and rows, and a row starting with `-` is a bullet.
- **The "Scoring Results" table.** It lists every entry that has left READY, in list order, ranked from 1, with display fallbacks.

The plugin page (`pages/Plugins.tsx`) is modelled in two parts:

- the category and search filter over the catalogue;
- the two-step install: INSTALLING, then INSTALLED after a delay. It touches only the plugins with the chosen id.

Modules:

- `Prelude`: `Option`, and JavaScript's `Array.prototype.filter` with its order and multiplicity lemmas.
- `Text`: the JavaScript string operations the pages use. These are `indexOf`, `includes`, `split`, `join`, `trim` with ECMAScript's whitespace set, `startsWith`, `substring(0, n)` and ASCII `toLowerCase`.
- `Scoring`: the records, and a pure specification of a run.
  - `Settled` gives the list after a run.
  - `Inserted` gives the candidates a run stores.
  - `Updates` gives the list writes in order.
  - `Requests` gives the scoring calls.
- `ScorePage`: the page as a class whose methods change its fields, plus a `Store` class for the database. `StartAnalysis` and its loop `ScoreAll` are proved to produce exactly the `Scoring` specification.
- `JdPreview`: the `##` and bullet parser.
- `Results`: the table projection.
- `Plugins`: the filter, and a `Marketplace` class for the install steps.

The world outside the page is an input, not a computation. This covers the file reader, the scoring service and its JSON parse, whether each store insert succeeds, and generated ids and dates.

- An `ItemEnv` says, for one position of the list, what these produce.
- A `JobEnv` does the same for the job insert.

The model follows the code as written, including these choices of it:

- Without manual text, a run scores against the selected job's title, not its description (`ContextJd`).
- ERROR is not terminal: a second run processes ERROR entries again and skips only COMPLETED ones (`RerunKeepsCompleted`).
- ERROR entries are listed in the results table (`RowsFollowList`).
- A failed job insert is swallowed: the run goes on, and candidates then refer to `'manual'`.
- The scoring call sends only the file's name and the job text (`ScoreRequest`). The resume content read from the file is stored in the candidate's `resumeBase64` and is never scored.
- The reply is not validated. Missing or empty fields fall back to the file's stem, `'Applicant'`, 0 and `'Processing...'`. `matchScore` is never clamped.

## Model

| member | source | states |
|---|---|---|
| Prelude.Filter | pages/ResumeScore.tsx:50 | `filter` keeps only accepted elements and never grows the list |
| Prelude.FilterIsSubsequence | pages/ResumeScore.tsx:412 | the filtered list is the input with elements left out, order kept |
| Prelude.FilterCount | pages/Plugins.tsx:91 | every accepted value occurs as often as in the input, every rejected one not at all |
| Prelude.FilterEmpty | pages/ResumeScore.tsx:391 | the filter is empty exactly when no element is accepted |
| Prelude.FilterKeepsAll | pages/Plugins.tsx:91-96 | when every element is accepted the filter returns the input unchanged |
| Prelude.FilterAppend | pages/ResumeScore.tsx:46 | filtering a concatenation filters each part |
| Text.IndexOf | pages/Plugins.tsx:93-94 | `indexOf` returns the first index where the pattern occurs, or -1 when it occurs nowhere |
| Text.ContainsIff | pages/Plugins.tsx:93-94 | `includes` holds exactly when the needle occurs at some index |
| Text.Contains | pages/Plugins.tsx:93-94 | defines `includes`; ContainsIff and ContainsEmpty state it |
| Text.StartsWith | pages/ResumeScore.tsx:285 | defines `startsWith`; ParseLineSpec uses it |
| Text.ContainsEmpty | pages/Plugins.tsx:93-94 | the empty query is contained in every string |
| Text.Truncate | pages/ResumeScore.tsx:120 | `substring(0, n)` is a prefix of at most n characters, the whole string when it is short enough |
| Text.Split | pages/ResumeScore.tsx:268 | `split` on a non-empty separator always yields at least one piece |
| Text.JoinSplit | pages/ResumeScore.tsx:270-272 | joining the pieces of a split with the separator gives the text back |
| Text.SplitPiecesAreSeparatorFree | pages/ResumeScore.tsx:268 | no piece of a split contains the separator |
| Text.SplitHead | pages/ResumeScore.tsx:183 | the first piece ends at the first occurrence of the separator: no occurrence starts inside it, and it is all of the text or is followed by the separator |
| Text.TrimStart | pages/ResumeScore.tsx:269 | the leading part removed is whitespace, and what is left does not start with whitespace |
| Text.IsSpace | pages/ResumeScore.tsx:269 | defines the whitespace `trim` removes, ECMAScript's WhiteSpace and LineTerminator characters; TrimStart and TrimEnd state the trimming |
| Text.TrimEnd | pages/ResumeScore.tsx:269 | the trailing part removed is whitespace, and what is left does not end with whitespace |
| Text.TrimSlice | pages/ResumeScore.tsx:270-272 | `trim` returns a slice of its input with only whitespace cut away at each end |
| Text.TrimEnds | pages/ResumeScore.tsx:270-271 | a trimmed string neither starts nor ends with whitespace |
| Text.TrimKeepsAbsent | pages/ResumeScore.tsx:271 | trimming never brings in a character the input lacks (a trimmed single line stays a single line) |
| Text.TrimEmptyIffBlank | pages/ResumeScore.tsx:269 | a string trims to "" exactly when every character is whitespace |
| Text.TrimIdempotent | pages/ResumeScore.tsx:270-271 | trimming twice is trimming once |
| Text.ToLowerIdempotent | pages/Plugins.tsx:93-94 | lower-casing keeps the length and lower-casing twice is lower-casing once |
| Text.Trim | pages/ResumeScore.tsx:269-272 | defines `trim`; TrimSlice, TrimEnds, TrimEmptyIffBlank and TrimIdempotent state its properties |
| Text.Join | pages/ResumeScore.tsx:272 | defines `join`; JoinSplit states that it undoes `split` |
| Text.ToLower | pages/Plugins.tsx:93-94 | defines ASCII `toLowerCase`; ToLowerIdempotent and SearchIgnoresCase state its properties |
| Scoring.FindJob | pages/ResumeScore.tsx:110 | `find` returns nothing exactly when no job has the id, and otherwise the first job of the list with that id |
| Scoring.ContextFallsBackToTitle | pages/ResumeScore.tsx:110 | the run scores against the manual text, else the selected job's title, else "" |
| Scoring.EnabledButtonProceeds | pages/ResumeScore.tsx:367-369 | a click on the enabled "Score Resumes" button always passes the guard of line 111 and scores against the manual text |
| Scoring.Proceeds | pages/ResumeScore.tsx:111 | defines the guard of a run: some job text and at least one file; EnabledButtonProceeds and StartAnalysis use it |
| Scoring.ScoreButtonEnabled | pages/ResumeScore.tsx:369 | defines when the "Score Resumes" button is enabled; EnabledButtonProceeds states what a click then does |
| Scoring.FirstLineSpec | pages/ResumeScore.tsx:120 | the first line is the text up to its first line break |
| Scoring.FirstLine | pages/ResumeScore.tsx:120 | defines `manualJd.split('\n')[0]`; FirstLineSpec states it |
| Scoring.JobTitleSpec | pages/ResumeScore.tsx:120 | the title has 1 to 50 characters and no line break; it is a prefix of the text, or 'New Position' when the text is empty or starts with a line break; a non-empty first line gives its first 50 characters, or all of it when shorter |
| Scoring.ShortFirstLineIsTitle | pages/ResumeScore.tsx:120 | a first line of 1 to 50 characters becomes the job title as it is, whatever text follows it |
| Scoring.StemSpec | pages/ResumeScore.tsx:183 | the stem is the file name up to, and not including, its first dot |
| Scoring.DataUrlPayloadSpec | pages/ResumeScore.tsx:59 | `header,payload` yields the payload; a URL with no comma yields nothing (`undefined`) |
| Scoring.CandidateFallbacks | pages/ResumeScore.tsx:179-196 | the candidate's name falls back to the stem, its role to 'Applicant' (a non-empty reply role passes through), its score to 0 (otherwise unclamped), its job id to 'manual' exactly when there is no active job, and its content is the data-URL payload of a successful read, "" when the read failed |
| Scoring.EmptyNameUsesStem | pages/ResumeScore.tsx:183-189 | for a file `stem.ext` whose stem has no dot, an empty reply name gives the stem, an empty role 'Applicant', and the score passes through |
| Scoring.IntakeAppends | pages/ResumeScore.tsx:36-47 | selecting files appends one READY, progress-0, result-less entry per file after the existing ones, in order, and keeps the result invariant |
| Scoring.RemovedKeepsOthers | pages/ResumeScore.tsx:49-51 | removing an id drops exactly the entries with that id; every other entry stays, as often as before and in order |
| Scoring.PartlySettledStep | pages/ResumeScore.tsx:142-201 | while the loop is at position n the entries before n are settled and the rest untouched, and one step settles exactly entry n |
| Scoring.PartlySettledAtEnd | pages/ResumeScore.tsx:142-202 | when the loop has passed the last position the list is `Settled` |
| Scoring.RunSettlesEveryItem | pages/ResumeScore.tsx:142-201 | after a run every entry is COMPLETED or ERROR with id, file and name kept; COMPLETED entries are untouched; an entry ends COMPLETED exactly when it was COMPLETED or both its scoring and its insert succeeded |
| Scoring.RunKeepsResultInvariant | pages/ResumeScore.tsx:198-200 | a run keeps "an entry has a result exactly when it is COMPLETED" |
| Scoring.OutcomeIsLocal | pages/ResumeScore.tsx:148-201 | a failure at one position changes nothing at another: each entry's outcome depends only on its own inputs |
| Scoring.RerunKeepsCompleted | pages/ResumeScore.tsx:144 | a second run leaves COMPLETED entries as they are and processes the ERROR entries again |
| Scoring.UpdatesInOrder | pages/ResumeScore.tsx:142-156 | the list writes of a run touch positions in non-decreasing order (three writes per processed entry) and never a COMPLETED entry |
| Scoring.LastUpdateIsOutcome | pages/ResumeScore.tsx:146-200 | a processed entry gets READING/10, then PARSING/30, then its final status and progress |
| Scoring.OneCandidatePerCompletion | pages/ResumeScore.tsx:181-198 | the number of candidates a run stores equals the number of entries it turns COMPLETED |
| Scoring.InsertedSound | pages/ResumeScore.tsx:181-198 | every stored candidate is the record built from the reply of an entry the run processed and completed; a failed or skipped entry gets none |
| Scoring.InsertedComplete | pages/ResumeScore.tsx:181-198 | every entry the run processes whose scoring and insert succeed has its record, built from its own reply, in the store |
| Scoring.CandidatesShareJob | pages/ResumeScore.tsx:190 | every candidate of a run refers to the active job id, or 'manual' when there is none |
| Scoring.RequestsSkipCompleted | pages/ResumeScore.tsx:142-164 | the service calls of a run are for exactly the positions whose entry is not COMPLETED, once each and in increasing order, each with that entry's name and the run's job text |
| Scoring.ContextJd | pages/ResumeScore.tsx:110 | defines the job text of a run; ContextFallsBackToTitle states its cases |
| Scoring.JobTitle | pages/ResumeScore.tsx:120 | defines the heuristic job title; JobTitleSpec and ShortFirstLineIsTitle state its properties |
| Scoring.NewJob | pages/ResumeScore.tsx:121-133 | defines the job record a run materialises, with the fixed department, location, type, status and counters; SaveJob stores it |
| Scoring.CreatesJob | pages/ResumeScore.tsx:116-117 | defines when the job step materialises a job: no selection and non-empty manual text; ActiveJobId and CreatedJobs use it, and SaveJob is proved against them |
| Scoring.ActiveJobId | pages/ResumeScore.tsx:116-138 | defines `activeJobId` after the job step: the new id when the insert succeeds, else the selection; SaveJob is proved to return it |
| Scoring.CreatedJobs | pages/ResumeScore.tsx:116-138 | defines the job records the job step stores; SaveJob is proved to store them |
| Scoring.Stem | pages/ResumeScore.tsx:183 | defines `name.split('.')[0]`; StemSpec states it |
| Scoring.DataUrlPayload | pages/ResumeScore.tsx:59 | defines `split(',')[1]`; DataUrlPayloadSpec states it |
| Scoring.ReadContent | pages/ResumeScore.tsx:149-154 | defines `base64Data`: "" after a failed read, the payload otherwise; ReadItem is proved to compute it and CandidateFallbacks states the stored content |
| Scoring.BuildCandidate | pages/ResumeScore.tsx:181-194 | defines the candidate record; CandidateFallbacks states its fallbacks |
| Scoring.Intake | pages/ResumeScore.tsx:36-47 | defines the entries made from selected files; IntakeAppends states its properties |
| Scoring.Removed | pages/ResumeScore.tsx:49-51 | defines the list after a removal; RemovedKeepsOthers states its properties |
| Scoring.Settle | pages/ResumeScore.tsx:145-201 | defines how one processed entry ends; RunSettlesEveryItem states it |
| Scoring.Outcome | pages/ResumeScore.tsx:144-201 | defines one entry after a run, COMPLETED ones skipped; OutcomeIsLocal and RerunKeepsCompleted state its properties |
| Scoring.Settled | pages/ResumeScore.tsx:142-202 | defines the list after a run; RunSettlesEveryItem and RunKeepsResultInvariant state its properties, ScoreAll is proved to produce it |
| Scoring.Inserted | pages/ResumeScore.tsx:181-196 | defines the candidates a run stores; OneCandidatePerCompletion, InsertedSound, InsertedComplete and CandidatesShareJob state its properties |
| Scoring.Updates | pages/ResumeScore.tsx:146-200 | defines the list writes of a run; UpdatesInOrder and LastUpdateIsOutcome state its properties |
| Scoring.Requests | pages/ResumeScore.tsx:158-164 | defines the service calls of a run; RequestsSkipCompleted states its properties |
| JdPreview.ShownFrom | pages/ResumeScore.tsx:268-269 | the rendered positions are in range, hold non-blank pieces and increase strictly |
| JdPreview.ShownIffTrimmed | pages/ResumeScore.tsx:269 | a piece is rendered exactly when it does not trim to "" |
| JdPreview.ShownFromComplete | pages/ResumeScore.tsx:268-269 | no non-blank piece is skipped |
| JdPreview.PreviewKeys | pages/ResumeScore.tsx:268-283 | block i renders the i-th non-blank piece, carries its position, and is the plain lead text exactly at position 0, shown trimmed |
| JdPreview.PreviewShowsNonBlank | pages/ResumeScore.tsx:268-283 | every block belongs to a non-blank `##` piece; only piece 0 is shown without a header |
| JdPreview.PreviewInTextOrder | pages/ResumeScore.tsx:268-298 | the blocks follow the order of the pieces in the text |
| JdPreview.PreviewMissesNothing | pages/ResumeScore.tsx:268-269 | every non-blank piece gets a block |
| JdPreview.PreviewEmptyIffBlank | pages/ResumeScore.tsx:268-269 | the preview is empty exactly when every piece is blank |
| JdPreview.RenderKeys | pages/ResumeScore.tsx:275-283 | each block carries its piece's position, and only position 0 is the plain lead text |
| JdPreview.SectionBody | pages/ResumeScore.tsx:270-283 | a later section's header is the first line of the trimmed piece, trimmed, and hidden only when that is empty; its rows are the lines of the text after the first line break, trimmed as a whole, each parsed as a bullet or a verbatim row, and a single-line piece has no text after it |
| JdPreview.FirstLineEndOf | pages/ResumeScore.tsx:270-271 | every text has exactly one end of its first line: its first line break, or its end when it has none |
| JdPreview.HeaderAlwaysShown | pages/ResumeScore.tsx:270-281 | a later non-blank piece always shows a header: non-empty, one line, trimmed |
| JdPreview.ParseLineSpec | pages/ResumeScore.tsx:285-291 | a row is a bullet exactly when its trimmed text starts with '-'; a bullet's text is the part of the line after the dash with the whitespace around it cut away, so the dash itself is not shown; other rows keep the line verbatim |
| JdPreview.HeaderOnlySection | pages/ResumeScore.tsx:272-283 | a later piece with a single line renders one empty row under its header |
| JdPreview.Preview | pages/ResumeScore.tsx:268-298 | defines the preview blocks; PreviewKeys, PreviewShowsNonBlank, PreviewInTextOrder, PreviewMissesNothing and PreviewEmptyIffBlank state its properties |
| JdPreview.RenderPiece | pages/ResumeScore.tsx:270-283 | defines the block of one piece; RenderKeys states the lead, SectionBody gives a later section's header and rows, and HeaderAlwaysShown and HeaderOnlySection follow from it |
| JdPreview.ParseLine | pages/ResumeScore.tsx:285-291 | defines one row of a section; ParseLineSpec states it |
| Results.TableShownIffRows | pages/ResumeScore.tsx:391 | the table replaces the placeholder exactly when it has at least one row |
| Results.RowsFollowList | pages/ResumeScore.tsx:412-414 | rows are the non-READY entries, ERROR ones included, in list order and with their multiplicity, ranked from 1, keyed by id |
| Results.RowFallbacks | pages/ResumeScore.tsx:418-437 | name falls back to the file name, score to 0, summary to 'Processing...', avatar letter to '?' |
| Results.UnfinishedRowsShowPlaceholders | pages/ResumeScore.tsx:412-437 | under the result invariant every row that is not COMPLETED shows the file name, 0, 'Processing...' and '?' |
| Results.EveryEntryListedAfterRun | pages/ResumeScore.tsx:391-412 | after a run every entry has a row, and the table shows whenever the list is not empty |
| Results.IntakeLeavesTable | pages/ResumeScore.tsx:36-47 | selecting files does not change the table |
| Results.ShowsTable | pages/ResumeScore.tsx:391 | defines when the table replaces the placeholder; TableShownIffRows states it |
| Results.Listed | pages/ResumeScore.tsx:412 | defines the listed entries; RowsFollowList states them |
| Results.RowOf | pages/ResumeScore.tsx:413-437 | defines one row; RowFallbacks states its fallbacks |
| Results.Initial | pages/ResumeScore.tsx:418 | defines the avatar letter; RowFallbacks and UnfinishedRowsShowPlaceholders state its fallback |
| Results.Rows | pages/ResumeScore.tsx:412-437 | defines the table rows; RowsFollowList states them |
| ScorePage.Store.FindJobs | pages/ResumeScore.tsx:30 | the job query returns the stored jobs |
| ScorePage.Store.InsertJob | pages/ResumeScore.tsx:121-133 | the job is appended when the insert succeeds, otherwise nothing is stored |
| ScorePage.Store.InsertCandidate | pages/ResumeScore.tsx:196 | the candidate is appended when the insert succeeds, otherwise nothing is stored |
| ScorePage.ResumeScorePage.constructor | pages/ResumeScore.tsx:18-24 | the page starts with no jobs, no selection, no text, no files and no run |
| ScorePage.ResumeScorePage.LoadJobs | pages/ResumeScore.tsx:28-34 | the job list becomes the stored jobs; nothing else changes |
| ScorePage.ResumeScorePage.EditJd | pages/ResumeScore.tsx:261 | typing replaces the job text; nothing else changes |
| ScorePage.ResumeScorePage.SelectFiles | pages/ResumeScore.tsx:36-47 | the list becomes the old list followed by the new READY entries, and keeps the result invariant |
| ScorePage.ResumeScorePage.RemoveFile | pages/ResumeScore.tsx:49-51 | the list becomes the old list without the entries with that id, and keeps the result invariant |
| ScorePage.ResumeScorePage.Mark | pages/ResumeScore.tsx:146 | one list write changes the status and progress of entry i only, and is recorded |
| ScorePage.ResumeScorePage.Complete | pages/ResumeScore.tsx:198 | entry i becomes COMPLETED/100 with the reply as result; no other entry changes |
| ScorePage.ResumeScorePage.SaveJob | pages/ResumeScore.tsx:116-138 | the job is materialised only with no selection and non-empty text; a failed insert is swallowed; the returned id is the new job's id or the selection |
| ScorePage.ResumeScorePage.ProcessItem | pages/ResumeScore.tsx:145-201 | one processed entry ends as `Settle` says, makes its three list writes and one scoring call, and stores its candidate only on success |
| ScorePage.ResumeScorePage.ReadItem | pages/ResumeScore.tsx:146-177 | the entry goes READING/10, then PARSING/30, the content is the data-URL payload or "" after a failed read, and one scoring call is made |
| ScorePage.ResumeScorePage.SaveItem | pages/ResumeScore.tsx:179-201 | the candidate is stored only when a reply came back and the insert succeeded; the entry then ends COMPLETED/100 with the reply, otherwise ERROR/0 |
| ScorePage.ResumeScorePage.Step | pages/ResumeScore.tsx:142-144 | a COMPLETED entry is skipped with nothing changed; any other entry is processed |
| ScorePage.ResumeScorePage.ScoreAll | pages/ResumeScore.tsx:142-202 | the loop turns the list into `Settled`, stores `Inserted`, writes `Updates` and calls `Requests`, in index order |
| ScorePage.ResumeScorePage.StartAnalysis | pages/ResumeScore.tsx:109-205 | with no job text or no files nothing changes; otherwise at most one job is created before the loop, the list ends as `Settled`, the store gains `Inserted`, and the logs are `Updates` and `Requests`, the result invariant holds and the run flag is cleared |
| Plugins.VisibleIffMatches | pages/Plugins.tsx:91-96 | a plugin is listed exactly when its category and the search both match, as often as in the catalogue and in catalogue order |
| Plugins.AllWithEmptySearchListsEverything | pages/Plugins.tsx:92-94 | the "All" tab with an empty search lists every plugin |
| Plugins.TabListsItsCategory | pages/Plugins.tsx:92 | a tab other than "All" lists only plugins of that category |
| Plugins.SearchIgnoresCase | pages/Plugins.tsx:93-94 | a query and its lower-cased form list the same plugins |
| Plugins.NothingFoundIffNoMatch | pages/Plugins.tsx:217 | "No plugins found" shows exactly when no plugin matches |
| Plugins.WithStatusFrame | pages/Plugins.tsx:99-101 | setting a status changes only the plugins with that id, and only their status; length and order are kept |
| Plugins.WithStatusLastWins | pages/Plugins.tsx:99-107 | INSTALLING followed by INSTALLED is the same as INSTALLED at once |
| Plugins.InstallKeepsListing | pages/Plugins.tsx:91-108 | installing never changes which plugins are listed, only the listed status |
| Plugins.InstallStartsFromReady | pages/Plugins.tsx:185-193 | the install button is enabled exactly for READY plugins |
| Plugins.Visible | pages/Plugins.tsx:91-96 | defines the listed plugins; VisibleIffMatches states them |
| Plugins.MatchesSearch | pages/Plugins.tsx:93-94 | defines the search match on lower-cased name or description; SearchIgnoresCase states its property |
| Plugins.MatchesCategory | pages/Plugins.tsx:92 | defines the tab match; TabListsItsCategory and AllWithEmptySearchListsEverything state it |
| Plugins.InstallOffered | pages/Plugins.tsx:185-190 | defines when a card shows the install button instead of "Installed"; InstallStartsFromReady states it |
| Plugins.InstallEnabled | pages/Plugins.tsx:185-193 | defines when the install button is enabled; InstallStartsFromReady states it |
| Plugins.CatalogueIdsDistinct | pages/Plugins.tsx:17-84 | the plugins of the fixed catalogue have pairwise distinct ids, so an install changes one card |
| Plugins.WithStatus | pages/Plugins.tsx:99-107 | defines one install step's status write; WithStatusFrame and WithStatusLastWins state its properties |
| Plugins.Marketplace.constructor | pages/Plugins.tsx:87-89 | the page starts on "All" with an empty search and the fixed catalogue |
| Plugins.Marketplace.SelectCategory | pages/Plugins.tsx:147 | a tab click changes only the active category |
| Plugins.Marketplace.Search | pages/Plugins.tsx:131 | typing changes only the query |
| Plugins.Marketplace.BeginInstall | pages/Plugins.tsx:99-101 | the first step sets the plugins with that id to INSTALLING |
| Plugins.Marketplace.FinishInstall | pages/Plugins.tsx:103-107 | the delayed step sets the plugins with that id to INSTALLED |
| Plugins.Marketplace.Install | pages/Plugins.tsx:98-108 | after both steps the plugins with that id are INSTALLED, every other plugin is unchanged, and the same cards are on show with the new status |

## Left out

- The scoring service and its JSON parse are not computed (pages/ResumeScore.tsx:158-179). They are an input per position: the parsed reply, or nothing when the call throws or the text is not JSON. Reply fields are typed as the schema declares them.
- The file reader is an input. It gives the data URL, or nothing when the read fails.
- The database is a `Store` whose inserts append or fail, as the caller decides.
- Random ids, `Date.now`, `toISOString` and `toLocaleDateString` are inputs (`ItemEnv`, `JobEnv`).
- The `size` string (`toFixed` of megabytes, line 42) is not modelled, because it is floating-point formatting used for display only (line 351).
- The job store is assumed to return the record it was given, so the job id a run uses is the generated id of `NewJob`, where the code takes `newJob.id` from the insert's reply (pages/ResumeScore.tsx:134).
- `matchScore` and `rating` are integers. JavaScript numbers are floating point, so `NaN` is not modelled. A rating is held in tenths.
- React's asynchronous state is modelled as direct, sequential writes. A run indexes the list as it was when the run started. Edits to the list during a run, and a second run started while one is going on, are not modelled. The `isAnalyzing` flag is set and cleared, but concurrency is not.
- `handleJdFileUpload` (lines 65-106) is not modelled, because it is one service call plus setting the text on success. The `isExtractingJd` flag, `alert` and `console` output are also left out.
- The edit/preview toggle and the empty-text hint (lines 229-317) are not modelled, because they are only display. The preview itself is modelled as `JdPreview.Preview`.
- No control on the page ever sets `selectedJobId`, so it stays "". The job-selection branch is still modelled as the code writes it.
- `toLowerCase` covers the ASCII letters only. `charAt(0)` is modelled as the first character, not the first UTF-16 code unit.
- Text.Truncate: `substring(0, n)` counts UTF-16 code units, the model counts characters. A title whose first 50 code units end inside a surrogate pair is not modelled.
- Scoring.JobTitle: the 50-character limit is counted in characters, not UTF-16 code units, as for Text.Truncate.
- Scoring.JobTitleSpec: its length bound and prefix clause are in characters, not UTF-16 code units.
- Scoring.ShortFirstLineIsTitle: "1 to 50 characters" is counted in characters, not UTF-16 code units.
- `setTimeout` in the plugin page is modelled as two explicit steps, `BeginInstall` and `FinishInstall`.
- Scoring.RunSettlesEveryItem: it does not state that a COMPLETED entry has progress 100 when that entry was already COMPLETED before the run. Such an entry is left as it was, whatever its progress.
- The other pages and components (`Login`, `Settings`, `Profile`, `Chat`, `Discover`, `Plans`, `Sidebar`, `Header`, `App`) are not part of this model. They are authentication, network calls, static catalogues, layout and routing.
