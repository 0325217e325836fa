/** The records of the resume-scoring page and the pure specification of what
    one run of `startAnalysis` does to the upload list and to the store.

    Everything the page gets from outside (the file reader, the scoring service,
    the outcome of each store insert, generated ids and dates) is an input: an
    `ItemEnv` per list position and a `JobEnv` for the job insert. */
module Scoring {
  import opened Prelude
  import opened Text

  /** `UploadFile.status`. */
  datatype Status = Ready | Reading | Parsing | Completed | Error

  /** A browser `File`: its name, byte size and media type. */
  datatype FileHandle = FileHandle(name: string, size: nat, mimeType: string)

  /** The object the scoring reply parses to; each field may be missing. */
  datatype Analysis = Analysis(
    candidateName: Option<string>,
    currentRole: Option<string>,
    matchScore: Option<int>,
    analysis: Option<string>)

  /** One entry of the upload list. */
  datatype UploadFile = UploadFile(
    id: string,
    file: FileHandle,
    name: string,
    status: Status,
    progress: nat,
    result: Option<Analysis>)

  /** A job record as the page inserts it (`type` is spelled `kind`). */
  datatype Job = Job(
    id: string, title: string, department: string, location: string, kind: string,
    status: string, description: string, skills: seq<string>,
    applicantsCount: nat, matchesCount: nat, createdAt: string)

  /** A candidate record as the page inserts it. */
  datatype Candidate = Candidate(
    id: string, name: string, role: string, company: string, location: string,
    appliedDate: string, status: string, matchScore: int, associatedJdId: string,
    analysis: Option<string>, resumeBase64: Option<string>, resumeMimeType: string)

  /** What the outside world does while the item at one position is processed:
      the data URL the reader produces (None: the read failed), the parsed reply
      (None: the service call threw or its text was not JSON), whether the
      candidate insert succeeds, and the generated id and date. */
  datatype ItemEnv = ItemEnv(
    read: Option<string>,
    reply: Option<Analysis>,
    saved: bool,
    candidateId: string,
    appliedDate: string)

  /** The generated id and timestamp of a job, and whether its insert succeeds. */
  datatype JobEnv = JobEnv(id: string, createdAt: string, saved: bool)

  /** One scoring call: the list position it is made for, and what it sends,
      the resume's name and the job text. */
  datatype ScoreRequest = ScoreRequest(index: nat, fileName: string, jd: string)

  /** One `setFiles` call of the run: which position it rewrote and how. */
  datatype Update = Update(index: nat, status: Status, progress: nat)

  // JavaScript's `a || b` on the values the page meets.

  function OrText(o: Option<string>, fallback: string): string {
    if o.Some? && o.value != "" then o.value else fallback
  }

  function Or(s: string, fallback: string): string {
    if s != "" then s else fallback
  }

  function ScoreOrZero(o: Option<int>): int {
    if o.Some? && o.value != 0 then o.value else 0
  }

  // The job description the run scores against, and the job it materialises.

  /** `jobs.find(j => j.id === id)`: the first job with that id. */
  function FindJob(jobs: seq<Job>, id: string): (r: Option<Job>)
    ensures r.None? <==> forall i :: 0 <= i < |jobs| ==> jobs[i].id != id
    ensures r.Some? ==> exists i :: FirstWithId(jobs, id, i) && jobs[i] == r.value
  {
    if jobs == [] then None
    else if jobs[0].id == id then
      assert FirstWithId(jobs, id, 0);
      Some(jobs[0])
    else
      var r := FindJob(jobs[1..], id);
      if r.None? then r
      else
        var i :| FirstWithId(jobs[1..], id, i) && jobs[1..][i] == r.value;
        assert FirstWithId(jobs, id, i + 1);
        r
  }

  /** Position `i` holds the first job with that id. */
  predicate FirstWithId(jobs: seq<Job>, id: string, i: int) {
    0 <= i < |jobs| && jobs[i].id == id && forall j :: 0 <= j < i ==> jobs[j].id != id
  }

  /** `manualJd || jobs.find(...)?.title || ''`. */
  function ContextJd(manualJd: string, jobs: seq<Job>, selectedJobId: string): string {
    if manualJd != "" then manualJd
    else match FindJob(jobs, selectedJobId)
      case Some(j) => j.title
      case None => ""
  }

  /** The guard at the top of `startAnalysis`: a run does anything only when
      there is some job text and at least one file. */
  predicate Proceeds(manualJd: string, jobs: seq<Job>, selectedJobId: string, files: seq<UploadFile>) {
    ContextJd(manualJd, jobs, selectedJobId) != "" && |files| > 0
  }

  /** Without manual text the run scores against the selected job's title,
      never its description; with manual text, against that text. */
  lemma ContextFallsBackToTitle(manualJd: string, jobs: seq<Job>, selectedJobId: string)
    ensures manualJd != "" ==> ContextJd(manualJd, jobs, selectedJobId) == manualJd
    ensures manualJd == "" && FindJob(jobs, selectedJobId).Some? ==>
              ContextJd(manualJd, jobs, selectedJobId) == FindJob(jobs, selectedJobId).value.title
    ensures manualJd == "" && (forall i :: 0 <= i < |jobs| ==> jobs[i].id != selectedJobId) ==>
              ContextJd(manualJd, jobs, selectedJobId) == ""
  {
  }

  /** The "Score Resumes" button is enabled when no run is going on, there is
      at least one file and the manual text is not empty. */
  predicate ScoreButtonEnabled(isAnalyzing: bool, files: seq<UploadFile>, manualJd: string) {
    !isAnalyzing && |files| > 0 && manualJd != ""
  }

  /** A click on the enabled button always gets past the guard, and then
      scores against the manual text. */
  lemma EnabledButtonProceeds(isAnalyzing: bool, files: seq<UploadFile>, manualJd: string,
                              jobs: seq<Job>, selectedJobId: string)
    requires ScoreButtonEnabled(isAnalyzing, files, manualJd)
    ensures Proceeds(manualJd, jobs, selectedJobId, files)
    ensures ContextJd(manualJd, jobs, selectedJobId) == manualJd
  {
  }

  /** `text.split('\n')[0]`. */
  function FirstLine(text: string): string {
    Split(text, "\n")[0]
  }

  /** The heuristic job title: the first line cut to 50 characters, or
      'New Position' when that is empty. */
  function JobTitle(manualJd: string): string {
    Or(Truncate(FirstLine(manualJd), 50), "New Position")
  }

  /** The job record inserted for manual text. */
  function NewJob(manualJd: string, env: JobEnv): Job {
    Job(env.id, JobTitle(manualJd), "General", "Remote", "Full-time", "Active",
        manualJd, [], 0, 0, env.createdAt)
  }

  /** A job is materialised only when none is selected and there is manual text. */
  predicate CreatesJob(selectedJobId: string, manualJd: string) {
    selectedJobId == "" && manualJd != ""
  }

  /** `activeJobId` once the job step is over: the new job's id when its insert
      succeeded, otherwise the selected id. */
  function ActiveJobId(selectedJobId: string, manualJd: string, env: JobEnv): string {
    if CreatesJob(selectedJobId, manualJd) && env.saved then env.id else selectedJobId
  }

  /** The job records the job step adds to the store. */
  function CreatedJobs(selectedJobId: string, manualJd: string, env: JobEnv): seq<Job> {
    if CreatesJob(selectedJobId, manualJd) && env.saved then [NewJob(manualJd, env)] else []
  }

  /** The first line is the text up to (not including) its first line break. */
  lemma FirstLineSpec(text: string)
    ensures StartsWith(text, FirstLine(text))
    ensures forall i :: 0 <= i < |FirstLine(text)| ==> FirstLine(text)[i] != '\n'
    ensures |FirstLine(text)| < |text| ==> text[|FirstLine(text)|] == '\n'
  {
    SplitHead(text, "\n");
    NoCharInside(FirstLine(text), '\n');
    OccursAtChar(text, '\n', |FirstLine(text)|);
  }

  /** The title is never empty, never longer than 50 characters and never spans
      a line; it is a prefix of the text unless the text is empty or starts with
      a line break, in which case it is 'New Position'. */
  lemma JobTitleSpec(manualJd: string)
    ensures 0 < |JobTitle(manualJd)| <= 50
    ensures forall i :: 0 <= i < |JobTitle(manualJd)| ==> JobTitle(manualJd)[i] != '\n'
    ensures manualJd != "" && manualJd[0] != '\n' ==> StartsWith(manualJd, JobTitle(manualJd))
    ensures manualJd == "" || manualJd[0] == '\n' ==> JobTitle(manualJd) == "New Position"
    ensures FirstLine(manualJd) != "" ==>
      JobTitle(manualJd) == FirstLine(manualJd)[..if |FirstLine(manualJd)| <= 50 then |FirstLine(manualJd)| else 50]
  {
    var line := FirstLine(manualJd);
    FirstLineSpec(manualJd);
    var cut := Truncate(line, 50);
    assert cut == line[..|cut|];
    if manualJd != "" && manualJd[0] != '\n' {
      assert line != "";
      assert cut != "";
      assert manualJd[..|cut|] == line[..|cut|];
    }
    if manualJd == "" || manualJd[0] == '\n' {
      assert line == "";
    }
  }

  /** A first line of 1 to 50 characters becomes the title as it is, whatever
      follows it. */
  lemma ShortFirstLineIsTitle(line: string, rest: string)
    requires 0 < |line| <= 50
    requires forall i :: 0 <= i < |line| ==> line[i] != '\n'
    ensures JobTitle(line + "\n" + rest) == line
  {
    var text := line + "\n" + rest;
    assert text[..|line|] == line;
    assert text[|line|] == '\n';
    assert forall i :: 0 <= i < |line| ==> text[i] == line[i];
    FirstPieceBefore(text, '\n', |line|);
    assert FirstLine(text) == line;
    assert Truncate(line, 50) == line;
  }

  // One item of the batch.

  /** `name.split('.')[0]`: the file name up to its first dot. */
  function Stem(name: string): string {
    Split(name, ".")[0]
  }

  /** The stem is the longest dot-free prefix of the name. */
  lemma StemSpec(name: string)
    ensures StartsWith(name, Stem(name))
    ensures forall i :: 0 <= i < |Stem(name)| ==> Stem(name)[i] != '.'
    ensures |Stem(name)| < |name| ==> name[|Stem(name)|] == '.'
  {
    SplitHead(name, ".");
    NoCharInside(Stem(name), '.');
    OccursAtChar(name, '.', |Stem(name)|);
  }

  /** `dataUrl.split(',')[1]`: the piece after the first comma, missing
      (`undefined`) when the URL has no comma. */
  function DataUrlPayload(url: string): Option<string> {
    var parts := Split(url, ",");
    if |parts| > 1 then Some(parts[1]) else None
  }

  /** A data URL `header,payload` whose header and payload carry no comma yields
      exactly the payload; a URL without a comma yields nothing. */
  lemma DataUrlPayloadSpec(header: string, payload: string)
    requires forall i :: 0 <= i < |header| ==> header[i] != ','
    requires forall i :: 0 <= i < |payload| ==> payload[i] != ','
    ensures DataUrlPayload(header + "," + payload) == Some(payload)
    ensures DataUrlPayload(header) == None
  {
    var url := header + "," + payload;
    FirstPieceBefore(url, ',', |header|);
    assert url[|header| + 1..] == payload;
    SplitWithout(payload, ',');
    assert Split(url, ",") == [url[..|header|], payload];
    SplitWithout(header, ',');
  }

  /** What `base64Data` holds when the candidate is built: "" when the read
      failed, the data URL's payload otherwise. */
  function ReadContent(read: Option<string>): Option<string> {
    match read
    case None => Some("")
    case Some(url) => DataUrlPayload(url)
  }

  /** The candidate record built from a parsed reply. */
  function BuildCandidate(f: UploadFile, data: Analysis, e: ItemEnv, activeJobId: string): Candidate {
    Candidate(
      e.candidateId,
      OrText(data.candidateName, Stem(f.name)),
      OrText(data.currentRole, "Applicant"),
      "Analyzed Profile",
      "Remote",
      e.appliedDate,
      "New",
      ScoreOrZero(data.matchScore),
      Or(activeJobId, "manual"),
      data.analysis,
      ReadContent(e.read),
      f.file.mimeType)
  }

  /** The fallbacks of the candidate record: the stem when the reply has no
      name, 'Applicant' when it has no role, the score unclamped (0 when
      missing), 'manual' when no job id is known, and "" as content when the
      read failed. */
  lemma CandidateFallbacks(f: UploadFile, data: Analysis, e: ItemEnv, activeJobId: string)
    ensures var c := BuildCandidate(f, data, e, activeJobId);
      && (data.candidateName.None? || data.candidateName == Some("") ==> c.name == Stem(f.name))
      && (data.candidateName.Some? && data.candidateName.value != "" ==> c.name == data.candidateName.value)
      && (data.currentRole.None? || data.currentRole == Some("") ==> c.role == "Applicant")
      && (data.currentRole.Some? && data.currentRole.value != "" ==> c.role == data.currentRole.value)
      && (data.matchScore.None? ==> c.matchScore == 0)
      && (data.matchScore.Some? ==> c.matchScore == data.matchScore.value)
      && c.associatedJdId != ""
      && (activeJobId != "" ==> c.associatedJdId == activeJobId)
      && (activeJobId == "" ==> c.associatedJdId == "manual")
      && (e.read.None? ==> c.resumeBase64 == Some(""))
      && (e.read.Some? ==> c.resumeBase64 == DataUrlPayload(e.read.value))
  {
  }

  /** A file `stem.ext` whose stem has no dot, scored with an empty name and
      role: the candidate is named after the stem, is an 'Applicant', and the
      score passes through. */
  lemma EmptyNameUsesStem(f: UploadFile, stem: string, ext: string, score: int, e: ItemEnv, jobId: string)
    requires forall i :: 0 <= i < |stem| ==> stem[i] != '.'
    requires f.name == stem + "." + ext
    ensures var c := BuildCandidate(f, Analysis(Some(""), Some(""), Some(score), None), e, jobId);
      c.name == Stem(f.name) == stem && c.role == "Applicant" && c.matchScore == score
  {
    FirstPieceBefore(f.name, '.', |stem|);
    assert f.name[..|stem|] == stem;
    assert Stem(f.name) == stem;
  }

  // The upload list outside a run.

  /** The entries `handleFileSelect` appends, one per chosen file, given the
      generated ids. */
  function Intake(selected: seq<FileHandle>, ids: seq<string>): seq<UploadFile>
    requires |ids| == |selected|
  {
    seq(|selected|, i requires 0 <= i < |selected| =>
      UploadFile(ids[i], selected[i], selected[i].name, Ready, 0, None))
  }

  /** Selecting files appends one READY entry with progress 0 and no result per
      file, after the existing entries and in the order chosen; the result
      invariant is kept. */
  lemma IntakeAppends(files: seq<UploadFile>, selected: seq<FileHandle>, ids: seq<string>)
    requires |ids| == |selected|
    ensures var after := files + Intake(selected, ids);
      && |after| == |files| + |selected|
      && after[..|files|] == files
      && (forall i :: 0 <= i < |selected| ==>
            var f := after[|files| + i];
            f.id == ids[i] && f.file == selected[i] && f.name == selected[i].name
            && f.status == Ready && f.progress == 0 && f.result.None?)
    ensures ResultIffCompleted(files) ==> ResultIffCompleted(files + Intake(selected, ids))
  {
    var after := files + Intake(selected, ids);
    assert after[..|files|] == files;
  }

  /** The test `removeFile` keeps an entry by. */
  function OtherThan(id: string): UploadFile -> bool {
    (f: UploadFile) => f.id != id
  }

  /** `removeFile(id)`: the list without the entries carrying that id. */
  function Removed(files: seq<UploadFile>, id: string): seq<UploadFile> {
    Filter(files, OtherThan(id))
  }

  /** Removing drops exactly the entries with that id: every other entry stays,
      as often as before and in the same order, and nothing else changes. */
  lemma RemovedKeepsOthers(files: seq<UploadFile>, id: string)
    ensures forall k :: 0 <= k < |Removed(files, id)| ==> Removed(files, id)[k].id != id
    ensures IsSubsequence(Removed(files, id), files)
    ensures forall f: UploadFile :: multiset(Removed(files, id))[f] == if f.id != id then multiset(files)[f] else 0
    ensures (forall k :: 0 <= k < |files| ==> files[k].id != id) ==> Removed(files, id) == files
    ensures ResultIffCompleted(files) ==> ResultIffCompleted(Removed(files, id))
  {
    var r := Removed(files, id);
    FilterIsSubsequence(files, OtherThan(id));
    forall f: UploadFile ensures multiset(r)[f] == if f.id != id then multiset(files)[f] else 0 {
      FilterCount(files, OtherThan(id), f);
    }
    if forall k :: 0 <= k < |files| ==> files[k].id != id {
      FilterKeepsAll(files, OtherThan(id));
    }
    if ResultIffCompleted(files) {
      RemovedKeepsResultInvariant(files, id);
    }
  }

  lemma RemovedKeepsResultInvariant(files: seq<UploadFile>, id: string)
    requires ResultIffCompleted(files)
    ensures ResultIffCompleted(Removed(files, id))
  {
    var r := Removed(files, id);
    forall k | 0 <= k < |r| ensures r[k].result.Some? <==> r[k].status == Completed {
      FilterMembers(files, OtherThan(id), r[k]);
      var j :| 0 <= j < |files| && files[j] == r[k];
    }
  }

  /** The scoring call and the candidate insert both succeed. */
  predicate Succeeds(e: ItemEnv) {
    e.reply.Some? && e.saved
  }

  /** The entry after it has been processed: COMPLETED/100 with the reply when
      scoring and saving succeed, ERROR/0 otherwise (the spread keeps `result`). */
  function Settle(f: UploadFile, e: ItemEnv): UploadFile {
    if Succeeds(e) then f.(status := Completed, progress := 100, result := e.reply)
    else f.(status := Error, progress := 0)
  }

  /** A COMPLETED entry is skipped; any other is processed. */
  function Outcome(f: UploadFile, e: ItemEnv): UploadFile {
    if f.status == Completed then f else Settle(f, e)
  }

  /** The upload list after a run that got past its guard. */
  function Settled(files: seq<UploadFile>, env: seq<ItemEnv>): seq<UploadFile>
    requires |env| == |files|
  {
    seq(|files|, k requires 0 <= k < |files| => Outcome(files[k], env[k]))
  }

  /** The upload list while a run is at position `n`: the entries before `n`
      are settled, the others are as they were. */
  function PartlySettled(files: seq<UploadFile>, env: seq<ItemEnv>, n: nat): seq<UploadFile>
    requires |env| == |files| && n <= |files|
  {
    seq(|files|, k requires 0 <= k < |files| => if k < n then Outcome(files[k], env[k]) else files[k])
  }

  /** One step of a run settles exactly the entry at the current position. */
  lemma PartlySettledStep(files: seq<UploadFile>, env: seq<ItemEnv>, n: nat)
    requires |env| == |files| && n < |files|
    ensures PartlySettled(files, env, n)[n := Outcome(files[n], env[n])] == PartlySettled(files, env, n + 1)
  {
  }

  /** At the end of the list the whole list is settled. */
  lemma PartlySettledAtEnd(files: seq<UploadFile>, env: seq<ItemEnv>)
    requires |env| == |files|
    ensures PartlySettled(files, env, |files|) == Settled(files, env)
  {
  }

  /** The candidate one position adds to the store: one when the entry is not
      COMPLETED and both its scoring and its insert succeed, none otherwise. */
  function NewCandidates(f: UploadFile, e: ItemEnv, activeJobId: string): seq<Candidate> {
    if f.status != Completed && Succeeds(e) then [BuildCandidate(f, e.reply.value, e, activeJobId)] else []
  }

  /** The candidates a run adds to the store from the first `n` positions. */
  function Inserted(files: seq<UploadFile>, env: seq<ItemEnv>, activeJobId: string, n: nat): seq<Candidate>
    requires |env| == |files| && n <= |files|
  {
    if n == 0 then []
    else Inserted(files, env, activeJobId, n - 1) + NewCandidates(files[n - 1], env[n - 1], activeJobId)
  }

  /** The scoring call one position makes: one unless the entry is COMPLETED. */
  function NewRequests(k: nat, f: UploadFile, jd: string): seq<ScoreRequest> {
    if f.status != Completed then [ScoreRequest(k, f.name, jd)] else []
  }

  /** The scoring calls a run makes for the first `n` positions. */
  function Requests(files: seq<UploadFile>, jd: string, n: nat): seq<ScoreRequest>
    requires n <= |files|
  {
    if n == 0 then [] else Requests(files, jd, n - 1) + NewRequests(n - 1, files[n - 1], jd)
  }

  /** The three list updates of one processed entry. */
  function ItemUpdates(k: nat, f: UploadFile, e: ItemEnv): seq<Update> {
    var done := Settle(f, e);
    [Update(k, Reading, 10), Update(k, Parsing, 30), Update(k, done.status, done.progress)]
  }

  /** The list updates one position gets: none when it is COMPLETED. */
  function NewUpdates(k: nat, f: UploadFile, e: ItemEnv): seq<Update> {
    if f.status != Completed then ItemUpdates(k, f, e) else []
  }

  /** The list updates a run makes for the first `n` positions, in order. */
  function Updates(files: seq<UploadFile>, env: seq<ItemEnv>, n: nat): seq<Update>
    requires |env| == |files| && n <= |files|
  {
    if n == 0 then [] else Updates(files, env, n - 1) + NewUpdates(n - 1, files[n - 1], env[n - 1])
  }

  /** The invariant of the upload list: an entry carries a result exactly when
      it is COMPLETED. */
  predicate ResultIffCompleted(files: seq<UploadFile>) {
    forall k :: 0 <= k < |files| ==> (files[k].result.Some? <==> files[k].status == Completed)
  }

  /** After a run no entry is READY, READING or PARSING; every entry keeps its
      id, file and name; COMPLETED entries are untouched; and an entry ends
      COMPLETED exactly when it already was or its scoring and saving succeeded. */
  lemma RunSettlesEveryItem(files: seq<UploadFile>, env: seq<ItemEnv>)
    requires |env| == |files|
    ensures |Settled(files, env)| == |files|
    ensures forall k :: 0 <= k < |files| ==>
      var g := Settled(files, env)[k];
      && (g.status == Completed || g.status == Error)
      && g.id == files[k].id && g.file == files[k].file && g.name == files[k].name
      && (files[k].status == Completed ==> g == files[k])
      && (g.status == Completed <==> files[k].status == Completed || Succeeds(env[k]))
      && (g.status == Completed ==> g.progress == 100 || files[k].status == Completed)
      && (g.status == Error ==> g.progress == 0)
  {
  }

  /** A run keeps the result invariant, so ERROR entries carry no result. */
  lemma RunKeepsResultInvariant(files: seq<UploadFile>, env: seq<ItemEnv>)
    requires |env| == |files|
    requires ResultIffCompleted(files)
    ensures ResultIffCompleted(Settled(files, env))
  {
  }

  /** What happens to one entry depends only on that entry and on what the
      outside world does for it: a failure elsewhere changes nothing here. */
  lemma OutcomeIsLocal(files: seq<UploadFile>, env: seq<ItemEnv>, env': seq<ItemEnv>, k: nat)
    requires |env| == |files| && |env'| == |files| && k < |files|
    requires env[k] == env'[k]
    ensures Settled(files, env)[k] == Settled(files, env')[k]
  {
  }

  /** A second run leaves every entry the first run completed as it was, and
      retries exactly the entries the first run left in ERROR. */
  lemma RerunKeepsCompleted(files: seq<UploadFile>, env: seq<ItemEnv>, env': seq<ItemEnv>)
    requires |env| == |files| && |env'| == |files|
    ensures var once := Settled(files, env);
      forall k :: 0 <= k < |files| ==>
        (once[k].status == Completed ==> Settled(once, env')[k] == once[k])
        && (once[k].status == Error ==> Settled(once, env')[k] == Settle(once[k], env'[k]))
  {
  }

  /** The updates of a run touch positions in increasing order, only
      positions below `n`, and never a COMPLETED entry. */
  lemma {:induction false} UpdatesInOrder(files: seq<UploadFile>, env: seq<ItemEnv>, n: nat)
    requires |env| == |files| && n <= |files|
    ensures forall a :: 0 <= a < |Updates(files, env, n)| ==>
      var u := Updates(files, env, n)[a]; u.index < n && files[u.index].status != Completed
    ensures forall a, b :: 0 <= a < b < |Updates(files, env, n)| ==>
      Updates(files, env, n)[a].index <= Updates(files, env, n)[b].index
  {
    if n > 0 {
      UpdatesInOrder(files, env, n - 1);
    }
  }

  /** The last update a processed entry receives is its final state. */
  lemma {:induction false} LastUpdateIsOutcome(files: seq<UploadFile>, env: seq<ItemEnv>, n: nat)
    requires |env| == |files| && 0 < n <= |files|
    requires files[n - 1].status != Completed
    ensures var log := Updates(files, env, n);
      |log| >= 3
      && log[|log| - 3] == Update(n - 1, Reading, 10)
      && log[|log| - 2] == Update(n - 1, Parsing, 30)
      && log[|log| - 1] == Update(n - 1, Settled(files, env)[n - 1].status, Settled(files, env)[n - 1].progress)
  {
  }

  /** The number of positions below `n` that a run turned into COMPLETED. */
  function NewlyCompleted(before: seq<UploadFile>, after: seq<UploadFile>, n: nat): nat
    requires n <= |before| && n <= |after|
  {
    if n == 0 then 0
    else NewlyCompleted(before, after, n - 1)
         + (if before[n - 1].status != Completed && after[n - 1].status == Completed then 1 else 0)
  }

  /** A candidate record is stored exactly once per entry the run completes:
      none for a failed entry, none for an entry that was already COMPLETED. */
  lemma {:induction false} OneCandidatePerCompletion(files: seq<UploadFile>, env: seq<ItemEnv>, activeJobId: string, n: nat)
    requires |env| == |files| && n <= |files|
    ensures |Inserted(files, env, activeJobId, n)| == NewlyCompleted(files, Settled(files, env), n)
  {
    if n > 0 {
      OneCandidatePerCompletion(files, env, activeJobId, n - 1);
      var f, e := files[n - 1], env[n - 1];
      assert Settled(files, env)[n - 1] == Outcome(f, e);
      assert Inserted(files, env, activeJobId, n)
          == Inserted(files, env, activeJobId, n - 1) + NewCandidates(f, e, activeJobId);
      assert |NewCandidates(f, e, activeJobId)|
          == if f.status != Completed && Outcome(f, e).status == Completed then 1 else 0;
    }
  }

  /** `c` is the record stored for position `k`: an entry the run processes
      whose scoring and insert both succeed, built from its own reply. */
  predicate StoredFor(files: seq<UploadFile>, env: seq<ItemEnv>, activeJobId: string, k: int, c: Candidate)
    requires |env| == |files|
  {
    0 <= k < |files| && files[k].status != Completed && Succeeds(env[k])
    && c == BuildCandidate(files[k], env[k].reply.value, env[k], activeJobId)
  }

  /** Every stored candidate belongs to an entry the run completed: a failed
      or skipped entry never gets a record. */
  lemma {:induction false} InsertedSound(files: seq<UploadFile>, env: seq<ItemEnv>, activeJobId: string, n: nat)
    requires |env| == |files| && n <= |files|
    ensures forall c :: c in Inserted(files, env, activeJobId, n) ==>
      exists k :: k < n && StoredFor(files, env, activeJobId, k, c)
  {
    if n > 0 {
      InsertedSound(files, env, activeJobId, n - 1);
      forall c | c in Inserted(files, env, activeJobId, n)
        ensures exists k :: k < n && StoredFor(files, env, activeJobId, k, c)
      {
        if c !in Inserted(files, env, activeJobId, n - 1) {
          assert StoredFor(files, env, activeJobId, n - 1, c);
        }
      }
    }
  }

  /** Every entry the run completes has its record stored. */
  lemma {:induction false} InsertedComplete(files: seq<UploadFile>, env: seq<ItemEnv>, activeJobId: string, n: nat)
    requires |env| == |files| && n <= |files|
    ensures forall k :: 0 <= k < n && files[k].status != Completed && Succeeds(env[k]) ==>
      BuildCandidate(files[k], env[k].reply.value, env[k], activeJobId) in Inserted(files, env, activeJobId, n)
  {
    if n > 0 {
      InsertedComplete(files, env, activeJobId, n - 1);
    }
  }

  /** Every candidate of a run refers to the same job: the active job id, or
      'manual' when there is none. */
  lemma {:induction false} CandidatesShareJob(files: seq<UploadFile>, env: seq<ItemEnv>, activeJobId: string, n: nat)
    requires |env| == |files| && n <= |files|
    ensures forall c :: c in Inserted(files, env, activeJobId, n) ==>
      c.associatedJdId == Or(activeJobId, "manual")
  {
    if n > 0 {
      CandidatesShareJob(files, env, activeJobId, n - 1);
    }
  }

  /** The scoring service is asked exactly once for each position below `n`
      whose entry is not COMPLETED, and for no other position, in increasing
      order of position, each time with that entry's name and the run's job
      text. A COMPLETED entry in a mixed list is never sent again. */
  lemma RequestsSkipCompleted(files: seq<UploadFile>, jd: string, n: nat)
    requires n <= |files|
    ensures forall a :: 0 <= a < |Requests(files, jd, n)| ==> SentFor(files, jd, n, Requests(files, jd, n)[a])
    ensures forall a, b :: 0 <= a < b < |Requests(files, jd, n)| ==>
      Requests(files, jd, n)[a].index < Requests(files, jd, n)[b].index
    ensures forall k :: 0 <= k < n && files[k].status != Completed ==>
      exists a :: 0 <= a < |Requests(files, jd, n)| && Requests(files, jd, n)[a].index == k
    ensures |Requests(files, jd, n)| <= n
  {
    RequestsSound(files, jd, n);
    RequestsComplete(files, jd, n);
    RequestsAtMostOnePerEntry(files, jd, n);
  }

  /** `r` is the call a run makes for a position below `n` whose entry is not
      COMPLETED: that entry's name and the run's job text. */
  predicate SentFor(files: seq<UploadFile>, jd: string, n: nat, r: ScoreRequest)
    requires n <= |files|
  {
    r.index < n && files[r.index].status != Completed && r == ScoreRequest(r.index, files[r.index].name, jd)
  }

  lemma {:induction false} RequestsSound(files: seq<UploadFile>, jd: string, n: nat)
    requires n <= |files|
    ensures forall a :: 0 <= a < |Requests(files, jd, n)| ==> SentFor(files, jd, n, Requests(files, jd, n)[a])
    ensures forall a, b :: 0 <= a < b < |Requests(files, jd, n)| ==>
      Requests(files, jd, n)[a].index < Requests(files, jd, n)[b].index
  {
    if n > 0 {
      RequestsSound(files, jd, n - 1);
      var before, added := Requests(files, jd, n - 1), NewRequests(n - 1, files[n - 1], jd);
      var log := before + added;
      assert Requests(files, jd, n) == log;
      forall a | 0 <= a < |log| ensures SentFor(files, jd, n, log[a]) {
        if a < |before| {
          assert log[a] == before[a];
          assert SentFor(files, jd, n - 1, before[a]);
        } else {
          assert files[n - 1].status != Completed && a == |before|;
          assert log[a] == added[0] == ScoreRequest(n - 1, files[n - 1].name, jd);
        }
      }
      forall a, b | 0 <= a < b < |log| ensures log[a].index < log[b].index {
        assert SentFor(files, jd, n - 1, before[a]);
        if b < |before| {
          assert log[a] == before[a] && log[b] == before[b];
        } else {
          assert files[n - 1].status != Completed && b == |before|;
          assert log[b] == added[0] == ScoreRequest(n - 1, files[n - 1].name, jd);
          assert log[a] == before[a];
        }
      }
    }
  }

  lemma {:induction false} RequestsComplete(files: seq<UploadFile>, jd: string, n: nat)
    requires n <= |files|
    ensures forall k :: 0 <= k < n && files[k].status != Completed ==>
      exists a :: 0 <= a < |Requests(files, jd, n)| && Requests(files, jd, n)[a].index == k
  {
    if n > 0 {
      RequestsComplete(files, jd, n - 1);
      var before, added := Requests(files, jd, n - 1), NewRequests(n - 1, files[n - 1], jd);
      var log := before + added;
      assert Requests(files, jd, n) == log;
      forall k | 0 <= k < n && files[k].status != Completed
        ensures exists a :: 0 <= a < |log| && log[a].index == k
      {
        if k < n - 1 {
          var a :| 0 <= a < |before| && before[a].index == k;
          assert log[a] == before[a];
        } else {
          assert log[|before|] == added[0];
        }
      }
    }
  }

  lemma {:induction false} RequestsAtMostOnePerEntry(files: seq<UploadFile>, jd: string, n: nat)
    requires n <= |files|
    ensures |Requests(files, jd, n)| <= n
  {
    if n > 0 {
      RequestsAtMostOnePerEntry(files, jd, n - 1);
      assert |NewRequests(n - 1, files[n - 1], jd)| <= 1;
    }
  }
}
