/** The "Scoring Results" table of the resume-scoring page: one row per entry
    that has left READY, in list order, with the reply's fields or their
    placeholders. */
module Results {
  import opened Prelude
  import opened Scoring

  /** One table row: `#rank`, the row key (the entry's id), the avatar letter,
      the name, the score (bar width and label), whether the bar is drawn in
      the COMPLETED colour, and the summary line. */
  datatype Row = Row(
    rank: nat, key: string, initial: string, name: string,
    score: int, completed: bool, summary: string)

  /** The table replaces the placeholder unless the list is empty or every
      entry is still READY. */
  predicate ShowsTable(files: seq<UploadFile>) {
    !(|files| == 0 || forall k :: 0 <= k < |files| ==> files[k].status == Ready)
  }

  predicate Started(f: UploadFile) {
    f.status != Ready
  }

  /** The entries the table lists. */
  function Listed(files: seq<UploadFile>): seq<UploadFile> {
    Filter(files, Started)
  }

  /** `file.result?.candidateName`. */
  function ReplyName(f: UploadFile): Option<string> {
    if f.result.Some? then f.result.value.candidateName else None
  }

  /** `file.result?.candidateName?.charAt(0) || '?'`. */
  function Initial(f: UploadFile): string {
    var n := ReplyName(f);
    if n.Some? && n.value != "" then [n.value[0]] else "?"
  }

  /** The row of one listed entry at position `rank - 1`. */
  function RowOf(rank: nat, f: UploadFile): Row {
    var r := f.result;
    Row(rank, f.id, Initial(f),
        OrText(ReplyName(f), f.name),
        if r.Some? then ScoreOrZero(r.value.matchScore) else 0,
        f.status == Completed,
        OrText(if r.Some? then r.value.analysis else None, "Processing..."))
  }

  /** The rows of the table, in list order. */
  function Rows(files: seq<UploadFile>): seq<Row> {
    var listed := Listed(files);
    seq(|listed|, i requires 0 <= i < |listed| => RowOf(i + 1, listed[i]))
  }

  /** The table is shown exactly when it has at least one row. */
  lemma TableShownIffRows(files: seq<UploadFile>)
    ensures ShowsTable(files) <==> Rows(files) != []
  {
    FilterEmpty(files, Started);
  }

  /** The rows are the non-READY entries (ERROR ones included), in the order
      of the list, each as often as it occurs there, ranked 1, 2, 3, ... */
  lemma RowsFollowList(files: seq<UploadFile>)
    ensures IsSubsequence(Listed(files), files)
    ensures forall f :: multiset(Listed(files))[f] == if f.status != Ready then multiset(files)[f] else 0
    ensures |Rows(files)| == |Listed(files)|
    ensures forall i :: 0 <= i < |Rows(files)| ==>
      Rows(files)[i].rank == i + 1 && Rows(files)[i].key == Listed(files)[i].id
      && Rows(files)[i].completed == (Listed(files)[i].status == Completed)
  {
    ListedKeepsStarted(files);
    RowsRankListed(files);
  }

  lemma ListedKeepsStarted(files: seq<UploadFile>)
    ensures IsSubsequence(Listed(files), files)
    ensures forall f :: multiset(Listed(files))[f] == if f.status != Ready then multiset(files)[f] else 0
  {
    FilterIsSubsequence(files, Started);
    forall f ensures multiset(Listed(files))[f] == if f.status != Ready then multiset(files)[f] else 0 {
      FilterCount(files, Started, f);
    }
  }

  lemma RowsRankListed(files: seq<UploadFile>)
    ensures |Rows(files)| == |Listed(files)|
    ensures forall i :: 0 <= i < |Rows(files)| ==> Rows(files)[i] == RowOf(i + 1, Listed(files)[i])
  {
  }

  /** The fallbacks of a row: without a reply it shows the file name, 0,
      'Processing...' and '?'; with a reply, each field that is missing or
      empty (or a zero score) falls back the same way. */
  lemma RowFallbacks(rank: nat, f: UploadFile)
    ensures var row := RowOf(rank, f);
      && (f.result.None? ==>
            row.name == f.name && row.score == 0 && row.summary == "Processing..." && row.initial == "?")
      && (f.result.Some? ==>
            var a := f.result.value;
            && row.name == OrText(a.candidateName, f.name)
            && (a.matchScore.Some? ==> row.score == a.matchScore.value)
            && (a.matchScore.None? ==> row.score == 0)
            && row.summary == OrText(a.analysis, "Processing...")
            && (a.candidateName.Some? && a.candidateName.value != "" ==>
                  |row.initial| == 1 && row.initial[0] == a.candidateName.value[0])
            && (a.candidateName.None? || a.candidateName == Some("") ==> row.initial == "?"))
  {
  }

  /** While the list keeps its result invariant, every row that is not
      COMPLETED (an ERROR entry, or one still in flight) shows the
      placeholders. */
  lemma UnfinishedRowsShowPlaceholders(files: seq<UploadFile>)
    requires ResultIffCompleted(files)
    ensures forall i :: 0 <= i < |Rows(files)| && !Rows(files)[i].completed ==>
      var row := Rows(files)[i];
      row.name == Listed(files)[i].name && row.score == 0
      && row.summary == "Processing..." && row.initial == "?"
  {
    var listed := Listed(files);
    forall i | 0 <= i < |listed| ensures listed[i].result.Some? <==> listed[i].status == Completed {
      FilterMembers(files, Started, listed[i]);
    }
  }

  /** After a run every entry is listed, so the table has one row per entry. */
  lemma EveryEntryListedAfterRun(files: seq<UploadFile>, env: seq<ItemEnv>)
    requires |env| == |files|
    ensures Listed(Settled(files, env)) == Settled(files, env)
    ensures |Rows(Settled(files, env))| == |files|
    ensures |files| > 0 ==> ShowsTable(Settled(files, env))
  {
    RunSettlesEveryItem(files, env);
    FilterKeepsAll(Settled(files, env), Started);
  }

  /** Newly selected files are READY, so selecting files leaves the table as
      it was. */
  lemma IntakeLeavesTable(files: seq<UploadFile>, selected: seq<FileHandle>, ids: seq<string>)
    requires |ids| == |selected|
    ensures Rows(files + Intake(selected, ids)) == Rows(files)
  {
    var added := Intake(selected, ids);
    FilterAppend(files, added, Started);
    FilterEmpty(added, Started);
    assert Listed(files + added) == Listed(files);
  }
}
