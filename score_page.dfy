/** The state of the resume-scoring page and the handlers that change it: file
    selection and removal, and the batch run `startAnalysis`, which walks the
    upload list in index order and writes one entry at a time. */
module ScorePage {
  import opened Prelude
  import opened Scoring

  /** The part of the database the page uses: the job and candidate
      collections. Whether an insert succeeds is decided by the caller. */
  class Store {
    var jobs: seq<Job>
    var candidates: seq<Candidate>

    constructor (initialJobs: seq<Job>)
      ensures jobs == initialJobs && candidates == []
    {
      jobs := initialJobs;
      candidates := [];
    }

    /** `db.jobs.find()`. */
    method FindJobs() returns (r: seq<Job>)
      ensures r == jobs
    {
      r := jobs;
    }

    /** `db.jobs.insertOne(job)`: appends the job, or fails and stores nothing. */
    method InsertJob(job: Job, ok: bool) returns (stored: bool)
      modifies this
      ensures stored == ok
      ensures jobs == if ok then old(jobs) + [job] else old(jobs)
      ensures candidates == old(candidates)
    {
      stored := ok;
      if ok {
        jobs := jobs + [job];
      }
    }

    /** `db.candidates.insertOne(c)`: appends the candidate, or fails and
        stores nothing. */
    method InsertCandidate(c: Candidate, ok: bool) returns (stored: bool)
      modifies this
      ensures stored == ok
      ensures candidates == if ok then old(candidates) + [c] else old(candidates)
      ensures jobs == old(jobs)
    {
      stored := ok;
      if ok {
        candidates := candidates + [c];
      }
    }
  }

  /** The page's state. `updates` and `requests` record, for the proofs, every
      list write of a run and every scoring call it makes. No control of the
      page sets `selectedJobId`, so it keeps its initial "". */
  class ResumeScorePage {
    const db: Store
    var jobs: seq<Job>
    var selectedJobId: string
    var manualJd: string
    var files: seq<UploadFile>
    var isAnalyzing: bool
    ghost var updates: seq<Update>
    ghost var requests: seq<ScoreRequest>

    /** An entry carries a result exactly when it is COMPLETED. */
    ghost predicate Valid()
      reads this
    {
      ResultIffCompleted(files)
    }

    constructor (store: Store)
      ensures db == store
      ensures jobs == [] && selectedJobId == "" && manualJd == "" && files == []
      ensures !isAnalyzing && updates == [] && requests == []
      ensures Valid()
    {
      db := store;
      jobs := [];
      selectedJobId := "";
      manualJd := "";
      files := [];
      isAnalyzing := false;
      updates := [];
      requests := [];
    }

    /** The effect that loads the job list once the page is shown. */
    method LoadJobs()
      modifies this
      ensures jobs == db.jobs
      ensures selectedJobId == old(selectedJobId) && manualJd == old(manualJd) && files == old(files)
      ensures isAnalyzing == old(isAnalyzing) && updates == old(updates) && requests == old(requests)
    {
      jobs := db.FindJobs();
    }

    /** Typing in the job-description box. */
    method EditJd(text: string)
      modifies this
      ensures manualJd == text
      ensures jobs == old(jobs) && selectedJobId == old(selectedJobId) && files == old(files)
      ensures isAnalyzing == old(isAnalyzing) && updates == old(updates) && requests == old(requests)
    {
      manualJd := text;
    }

    /** `handleFileSelect`: one READY entry per chosen file, after the others. */
    method SelectFiles(selected: seq<FileHandle>, ids: seq<string>)
      requires |ids| == |selected|
      requires Valid()
      modifies this
      ensures Valid()
      ensures files == old(files) + Intake(selected, ids)
      ensures jobs == old(jobs) && selectedJobId == old(selectedJobId) && manualJd == old(manualJd)
      ensures isAnalyzing == old(isAnalyzing) && updates == old(updates) && requests == old(requests)
    {
      IntakeAppends(files, selected, ids);
      files := files + Intake(selected, ids);
    }

    /** `removeFile(id)`. */
    method RemoveFile(id: string)
      requires Valid()
      modifies this
      ensures Valid()
      ensures files == Removed(old(files), id)
      ensures jobs == old(jobs) && selectedJobId == old(selectedJobId) && manualJd == old(manualJd)
      ensures isAnalyzing == old(isAnalyzing) && updates == old(updates) && requests == old(requests)
    {
      RemovedKeepsOthers(files, id);
      files := Removed(files, id);
    }

    /** One `setFiles` of a run: the entry at `i` gets a new status and
        progress, every other entry stays as it is. */
    method Mark(i: nat, status: Status, progress: nat)
      requires i < |files|
      modifies this
      ensures files == old(files)[i := old(files)[i].(status := status, progress := progress)]
      ensures updates == old(updates) + [Update(i, status, progress)]
      ensures jobs == old(jobs) && selectedJobId == old(selectedJobId) && manualJd == old(manualJd)
      ensures isAnalyzing == old(isAnalyzing) && requests == old(requests)
    {
      files := files[i := files[i].(status := status, progress := progress)];
      updates := updates + [Update(i, status, progress)];
    }

    /** The last `setFiles` of a successful entry: COMPLETED, 100, and the
        parsed reply as its result. */
    method Complete(i: nat, data: Analysis)
      requires i < |files|
      modifies this
      ensures files == old(files)[i := old(files)[i].(status := Completed, progress := 100, result := Some(data))]
      ensures updates == old(updates) + [Update(i, Completed, 100)]
      ensures jobs == old(jobs) && selectedJobId == old(selectedJobId) && manualJd == old(manualJd)
      ensures isAnalyzing == old(isAnalyzing) && requests == old(requests)
    {
      files := files[i := files[i].(status := Completed, progress := 100, result := Some(data))];
      updates := updates + [Update(i, Completed, 100)];
    }

    /** The job step of a run: with no job selected and manual text present,
        a job record is built from the text and inserted; a failed insert is
        swallowed. Returns the job id the run's candidates refer to. */
    method SaveJob(jobEnv: JobEnv) returns (activeJobId: string)
      modifies db
      ensures activeJobId == ActiveJobId(selectedJobId, manualJd, jobEnv)
      ensures db.jobs == old(db.jobs) + CreatedJobs(selectedJobId, manualJd, jobEnv)
      ensures db.candidates == old(db.candidates)
    {
      activeJobId := selectedJobId;
      if activeJobId == "" && manualJd != "" {
        var job := NewJob(manualJd, jobEnv);
        var stored := db.InsertJob(job, jobEnv.saved);
        if stored {
          activeJobId := job.id;
        }
      }
    }

    /** One pass of the loop body for an entry that is not COMPLETED: READING,
        the read (whose failure is not fatal), PARSING, the scoring call, and
        then either the candidate insert and COMPLETED, or ERROR when the call
        or the insert fails. */
    method ProcessItem(i: nat, current: UploadFile, e: ItemEnv, contextJd: string, activeJobId: string)
      requires i < |files| && files[i] == current && current.status != Completed
      modifies this, db
      ensures files == old(files)[i := Settle(current, e)]
      ensures db.jobs == old(db.jobs)
      ensures db.candidates == old(db.candidates)
        + (if Succeeds(e) then [BuildCandidate(current, e.reply.value, e, activeJobId)] else [])
      ensures updates == old(updates) + ItemUpdates(i, current, e)
      ensures requests == old(requests) + [ScoreRequest(i, current.name, contextJd)]
      ensures jobs == old(jobs) && selectedJobId == old(selectedJobId) && manualJd == old(manualJd)
      ensures isAnalyzing == old(isAnalyzing)
    {
      ghost var updates0 := updates;
      var content := ReadItem(i, current, e, contextJd);
      SaveItem(i, current, e, activeJobId, content);
      AppendAssoc(updates0, [Update(i, Reading, 10), Update(i, Parsing, 30)],
                  [Update(i, Settle(current, e).status, Settle(current, e).progress)]);
    }

    /** The first half of an entry's pass: READING, the read, PARSING and the
        scoring call. A failed read gives "" as the content. */
    method ReadItem(i: nat, current: UploadFile, e: ItemEnv, contextJd: string) returns (content: Option<string>)
      requires i < |files| && files[i] == current
      modifies this
      ensures content == ReadContent(e.read)
      ensures files == old(files)[i := current.(status := Parsing, progress := 30)]
      ensures updates == old(updates) + [Update(i, Reading, 10), Update(i, Parsing, 30)]
      ensures requests == old(requests) + [ScoreRequest(i, current.name, contextJd)]
      ensures jobs == old(jobs) && selectedJobId == old(selectedJobId) && manualJd == old(manualJd)
      ensures isAnalyzing == old(isAnalyzing)
    {
      Mark(i, Reading, 10);
      content := Some("");
      if e.read.Some? {
        content := DataUrlPayload(e.read.value);
      }
      Mark(i, Parsing, 30);
      requests := requests + [ScoreRequest(i, current.name, contextJd)];
    }

    /** The second half of an entry's pass: with a reply, the candidate insert;
        then COMPLETED with the reply when both succeeded, ERROR otherwise. */
    method SaveItem(i: nat, current: UploadFile, e: ItemEnv, activeJobId: string, content: Option<string>)
      requires i < |files| && files[i] == current.(status := Parsing, progress := 30)
      requires content == ReadContent(e.read)
      modifies this, db
      ensures files == old(files)[i := Settle(current, e)]
      ensures db.jobs == old(db.jobs)
      ensures db.candidates == old(db.candidates)
        + (if Succeeds(e) then [BuildCandidate(current, e.reply.value, e, activeJobId)] else [])
      ensures updates == old(updates) + [Update(i, Settle(current, e).status, Settle(current, e).progress)]
      ensures requests == old(requests)
      ensures jobs == old(jobs) && selectedJobId == old(selectedJobId) && manualJd == old(manualJd)
      ensures isAnalyzing == old(isAnalyzing)
    {
      var saved := false;
      if e.reply.Some? {
        var candidate := BuildCandidate(current, e.reply.value, e, activeJobId);
        assert candidate.resumeBase64 == content;
        saved := db.InsertCandidate(candidate, e.saved);
      }
      if saved {
        Complete(i, e.reply.value);
      } else {
        Mark(i, Error, 0);
      }
    }

    /** One iteration of the loop: a COMPLETED entry is skipped, any other is
        processed. */
    method Step(i: nat, current: UploadFile, e: ItemEnv, contextJd: string, activeJobId: string)
      requires i < |files| && files[i] == current
      modifies this, db
      ensures files == old(files)[i := Outcome(current, e)]
      ensures db.jobs == old(db.jobs)
      ensures db.candidates == old(db.candidates) + NewCandidates(current, e, activeJobId)
      ensures updates == old(updates) + NewUpdates(i, current, e)
      ensures requests == old(requests) + NewRequests(i, current, contextJd)
      ensures jobs == old(jobs) && selectedJobId == old(selectedJobId) && manualJd == old(manualJd)
      ensures isAnalyzing == old(isAnalyzing)
    {
      if current.status != Completed {
        ProcessItem(i, current, e, contextJd, activeJobId);
      } else {
        assert files == files[i := current];
      }
    }

    /** The loop of `startAnalysis` over `snapshot`, the list as it was when
        the run started: COMPLETED entries are skipped, every other entry is
        processed, in index order, and a failure never stops the loop. */
    method ScoreAll(snapshot: seq<UploadFile>, env: seq<ItemEnv>, contextJd: string, activeJobId: string)
      requires files == snapshot && |env| == |snapshot|
      modifies this, db
      ensures files == Settled(snapshot, env)
      ensures db.jobs == old(db.jobs)
      ensures db.candidates == old(db.candidates) + Inserted(snapshot, env, activeJobId, |snapshot|)
      ensures updates == old(updates) + Updates(snapshot, env, |snapshot|)
      ensures requests == old(requests) + Requests(snapshot, contextJd, |snapshot|)
      ensures jobs == old(jobs) && selectedJobId == old(selectedJobId) && manualJd == old(manualJd)
      ensures isAnalyzing == old(isAnalyzing)
    {
      var i := 0;
      while i < |snapshot|
        invariant i <= |snapshot| == |env|
        invariant files == PartlySettled(snapshot, env, i)
        invariant db.jobs == old(db.jobs)
        invariant db.candidates == old(db.candidates) + Inserted(snapshot, env, activeJobId, i)
        invariant updates == old(updates) + Updates(snapshot, env, i)
        invariant requests == old(requests) + Requests(snapshot, contextJd, i)
        invariant jobs == old(jobs) && selectedJobId == old(selectedJobId) && manualJd == old(manualJd)
        invariant isAnalyzing == old(isAnalyzing)
      {
        Advance(snapshot, env, contextJd, activeJobId, i, old(db.candidates), old(updates), old(requests));
        i := i + 1;
      }
      assert i == |snapshot|;
      PartlySettledAtEnd(snapshot, env);
    }

    /** The loop body of `ScoreAll` at position `i`: it takes the run's state
        from the first `i` positions to the first `i + 1`. `candidates0`,
        `updates0` and `requests0` are the store and logs before the run. */
    method Advance(snapshot: seq<UploadFile>, env: seq<ItemEnv>, contextJd: string, activeJobId: string, i: nat,
                   ghost candidates0: seq<Candidate>, ghost updates0: seq<Update>, ghost requests0: seq<ScoreRequest>)
      requires i < |snapshot| == |env|
      requires files == PartlySettled(snapshot, env, i)
      requires db.candidates == candidates0 + Inserted(snapshot, env, activeJobId, i)
      requires updates == updates0 + Updates(snapshot, env, i)
      requires requests == requests0 + Requests(snapshot, contextJd, i)
      modifies this, db
      ensures files == PartlySettled(snapshot, env, i + 1)
      ensures db.jobs == old(db.jobs)
      ensures db.candidates == candidates0 + Inserted(snapshot, env, activeJobId, i + 1)
      ensures updates == updates0 + Updates(snapshot, env, i + 1)
      ensures requests == requests0 + Requests(snapshot, contextJd, i + 1)
      ensures jobs == old(jobs) && selectedJobId == old(selectedJobId) && manualJd == old(manualJd)
      ensures isAnalyzing == old(isAnalyzing)
    {
      PartlySettledStep(snapshot, env, i);
      AppendAssoc(candidates0, Inserted(snapshot, env, activeJobId, i), NewCandidates(snapshot[i], env[i], activeJobId));
      AppendAssoc(updates0, Updates(snapshot, env, i), NewUpdates(i, snapshot[i], env[i]));
      AppendAssoc(requests0, Requests(snapshot, contextJd, i), NewRequests(i, snapshot[i], contextJd));
      Step(i, snapshot[i], env[i], contextJd, activeJobId);
    }

    /** `startAnalysis`. `jobEnv` and `env` stand for what the store, the file
        reader, the scoring service, the clock and the id generator do during
        the run, one `ItemEnv` per entry of the list as it was when the run
        started. */
    method StartAnalysis(jobEnv: JobEnv, env: seq<ItemEnv>)
      requires |env| == |files|
      requires Valid()
      modifies this, db
      ensures Valid()
      ensures jobs == old(jobs) && selectedJobId == old(selectedJobId) && manualJd == old(manualJd)
      ensures !Proceeds(old(manualJd), old(jobs), old(selectedJobId), old(files)) ==>
        && files == old(files) && isAnalyzing == old(isAnalyzing)
        && db.jobs == old(db.jobs) && db.candidates == old(db.candidates)
        && updates == old(updates) && requests == old(requests)
      ensures Proceeds(old(manualJd), old(jobs), old(selectedJobId), old(files)) ==>
        var jd := ContextJd(old(manualJd), old(jobs), old(selectedJobId));
        var active := ActiveJobId(old(selectedJobId), old(manualJd), jobEnv);
        && files == Settled(old(files), env)
        && !isAnalyzing
        && db.jobs == old(db.jobs) + CreatedJobs(old(selectedJobId), old(manualJd), jobEnv)
        && db.candidates == old(db.candidates) + Inserted(old(files), env, active, |old(files)|)
        && updates == old(updates) + Updates(old(files), env, |old(files)|)
        && requests == old(requests) + Requests(old(files), jd, |old(files)|)
    {
      var contextJd := ContextJd(manualJd, jobs, selectedJobId);
      if contextJd == "" || |files| == 0 {
        return;
      }
      isAnalyzing := true;
      var activeJobId := SaveJob(jobEnv);
      var snapshot := files;
      ScoreAll(snapshot, env, contextJd, activeJobId);
      RunKeepsResultInvariant(snapshot, env);
      isAnalyzing := false;
    }
  }
}
