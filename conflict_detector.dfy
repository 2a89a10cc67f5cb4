/**
 * File conflicts between parallel workers: every pair of workers (in the
 * order given) whose changed-file sets intersect gives one conflict record,
 * and each record gets a suggested resolution.
 */
module ConflictDetector {
  import opened Strings
  import opened Order
  import opened Numerals
  import opened PySlice

  type WorkerId = int

  datatype Severity = Medium | High

  /** `{"workers": [w1, w2], "files": [...], "severity": ...}`. */
  datatype ConflictRecord = ConflictRecord(w1: WorkerId, w2: WorkerId, files: seq<string>, severity: Severity)

  datatype Summary = Summary(totalWorkers: nat, totalFilesChanged: nat, workersWithChanges: map<WorkerId, nat>)

  datatype Report = Report(hasConflicts: bool, conflictCount: nat, conflicts: seq<ConflictRecord>, summary: Summary)

  /** The changed-file set read from `git diff --name-only` (its stripped
      output): empty when git failed or printed nothing, else the set of its
      lines. */
  function ChangedFiles(success: bool, output: string): (r: set<string>)
    ensures r == {} <==> !success || output == []
    ensures forall f :: f in r ==> '\n' !in f
  {
    if !success || output == [] then {}
    else
      var lines := SplitOn(output, '\n');
      SplitOnPieces(output, '\n');
      var r := set l | l in lines;
      assert lines[0] in r;
      r
  }

  /** Reading back a listing of newline-free names gives exactly those names. */
  lemma ChangedFilesOfListing(names: seq<string>)
    requires |names| >= 1 && Join(names, '\n') != []
    requires forall k :: 0 <= k < |names| ==> '\n' !in names[k]
    ensures ChangedFiles(true, Join(names, '\n')) == set n | n in names
  {
    SplitOnJoin(names, '\n');
  }

  function Overlap(changed: WorkerId -> set<string>, w1: WorkerId, w2: WorkerId): set<string> {
    changed(w1) * changed(w2)
  }

  /** The record for two workers whose sets intersect. */
  function MakeRecord(changed: WorkerId -> set<string>, w1: WorkerId, w2: WorkerId): ConflictRecord {
    var overlap := Overlap(changed, w1, w2);
    ConflictRecord(w1, w2, SortedSet(overlap), if |overlap| > 3 then High else Medium)
  }

  /** A record lists the shared files once each in ascending order, and is
      `high` exactly when more than three files are shared. */
  lemma RecordContents(changed: WorkerId -> set<string>, w1: WorkerId, w2: WorkerId)
    ensures var r := MakeRecord(changed, w1, w2);
      && r.w1 == w1 && r.w2 == w2
      && Sorted(r.files) && |r.files| == |changed(w1) * changed(w2)|
      && (forall k, l :: 0 <= k < l < |r.files| ==> r.files[k] != r.files[l])
      && (forall f :: f in r.files <==> f in changed(w1) && f in changed(w2))
      && (r.severity == High <==> |changed(w1) * changed(w2)| > 3)
  {
    SortedSetSpec(Overlap(changed, w1, w2));
  }

  predicate Overlaps(ws: seq<WorkerId>, changed: WorkerId -> set<string>, i: nat, j: nat)
    requires i < |ws| && j < |ws|
  {
    Overlap(changed, ws[i], ws[j]) != {}
  }

  /** Position pairs in loop order: (a, b) comes before (c, d). */
  predicate PairBefore(p: (nat, nat), q: (nat, nat)) {
    p.0 < q.0 || (p.0 == q.0 && p.1 < q.1)
  }

  /** The pairs (i, k), i < k < j, whose workers' sets intersect, in order. */
  function RowPairs(ws: seq<WorkerId>, changed: WorkerId -> set<string>, i: nat, j: nat): (r: seq<(nat, nat)>)
    requires i < |ws| && j <= |ws|
    ensures forall p :: p in r ==> p.0 == i && i < p.1 < j
    decreases j
  {
    if j <= i + 1 then []
    else
      var prior := RowPairs(ws, changed, i, j - 1);
      if Overlaps(ws, changed, i, j - 1) then prior + [(i, j - 1)] else prior
  }

  /** All intersecting pairs (a, b), a < b, with a below `i`, in loop order. */
  function PairsBefore(ws: seq<WorkerId>, changed: WorkerId -> set<string>, i: nat): (r: seq<(nat, nat)>)
    requires i <= |ws|
    ensures forall p :: p in r ==> p.0 < i && p.0 < p.1 < |ws|
    decreases i
  {
    if i == 0 then [] else PairsBefore(ws, changed, i - 1) + RowPairs(ws, changed, i - 1, |ws|)
  }

  /** A row holds exactly the intersecting pairs of that row, in increasing order. */
  lemma RowPairsExact(ws: seq<WorkerId>, changed: WorkerId -> set<string>, i: nat, j: nat)
    requires i < |ws| && j <= |ws|
    ensures var r := RowPairs(ws, changed, i, j);
      && (forall p :: p in r ==> Overlaps(ws, changed, p.0, p.1))
      && (forall k :: i < k < j && Overlaps(ws, changed, i, k) ==> (i, k) in r)
      && (forall a, b :: 0 <= a < b < |r| ==> r[a].1 < r[b].1)
  {
    RowPairsSound(ws, changed, i, j);
    RowPairsComplete(ws, changed, i, j);
    RowPairsIncreasing(ws, changed, i, j);
  }

  lemma {:induction false} RowPairsSound(ws: seq<WorkerId>, changed: WorkerId -> set<string>, i: nat, j: nat)
    requires i < |ws| && j <= |ws|
    ensures forall p :: p in RowPairs(ws, changed, i, j) ==> Overlaps(ws, changed, p.0, p.1)
    decreases j
  {
    if j > i + 1 {
      RowPairsSound(ws, changed, i, j - 1);
    }
  }

  lemma {:induction false} RowPairsComplete(ws: seq<WorkerId>, changed: WorkerId -> set<string>, i: nat, j: nat)
    requires i < |ws| && j <= |ws|
    ensures forall k :: i < k < j && Overlaps(ws, changed, i, k) ==> (i, k) in RowPairs(ws, changed, i, j)
    decreases j
  {
    if j > i + 1 {
      RowPairsComplete(ws, changed, i, j - 1);
    }
  }

  /** Strictly increasing second positions. */
  predicate SecondsIncrease(r: seq<(nat, nat)>) {
    forall a, b :: 0 <= a < b < |r| ==> r[a].1 < r[b].1
  }

  lemma {:induction false} RowPairsIncreasing(ws: seq<WorkerId>, changed: WorkerId -> set<string>, i: nat, j: nat)
    requires i < |ws| && j <= |ws|
    ensures SecondsIncrease(RowPairs(ws, changed, i, j))
    decreases j
  {
    if j > i + 1 {
      RowPairsIncreasing(ws, changed, i, j - 1);
      var prior := RowPairs(ws, changed, i, j - 1);
      var r := RowPairs(ws, changed, i, j);
      assert r == if Overlaps(ws, changed, i, j - 1) then prior + [(i, j - 1)] else prior;
      forall a, b | 0 <= a < b < |r| ensures r[a].1 < r[b].1 {
        if b < |prior| {
          assert r[a] == prior[a] && r[b] == prior[b];
        } else {
          assert r[a] == prior[a] && prior[a] in prior && r[b] == (i, j - 1);
        }
      }
    }
  }

  /** The pairs before row `i` are exactly the intersecting ones, in loop order. */
  lemma {:induction false} PairsBeforeExact(ws: seq<WorkerId>, changed: WorkerId -> set<string>, i: nat)
    requires i <= |ws|
    ensures var r := PairsBefore(ws, changed, i);
      && (forall p :: p in r ==> Overlaps(ws, changed, p.0, p.1))
      && (forall a: nat, b: nat :: a < i && a < b < |ws| && Overlaps(ws, changed, a, b) ==> (a, b) in r)
      && (forall a, b :: 0 <= a < b < |r| ==> PairBefore(r[a], r[b]))
    decreases i
  {
    if i > 0 {
      var prior := PairsBefore(ws, changed, i - 1);
      var row := RowPairs(ws, changed, i - 1, |ws|);
      PairsBeforeExact(ws, changed, i - 1);
      RowPairsExact(ws, changed, i - 1, |ws|);
      var r := prior + row;
      forall a, b | 0 <= a < b < |r| ensures PairBefore(r[a], r[b]) {
        if b >= |prior| && a < |prior| {
          assert r[a] in prior && r[b] in row;
        } else if a >= |prior| {
          assert r[a] == row[a - |prior|] && r[b] == row[b - |prior|];
        }
      }
    }
  }

  function OverlapPairs(ws: seq<WorkerId>, changed: WorkerId -> set<string>): seq<(nat, nat)> {
    PairsBefore(ws, changed, |ws|)
  }

  /** The record for the workers at the two positions of a pair. */
  function PairRecord(ws: seq<WorkerId>, changed: WorkerId -> set<string>, p: (nat, nat)): ConflictRecord
    requires p.0 < |ws| && p.1 < |ws|
  {
    MakeRecord(changed, ws[p.0], ws[p.1])
  }

  /** The records of row i for positions i < k < j, in loop order. */
  function RowRecords(ws: seq<WorkerId>, changed: WorkerId -> set<string>, i: nat, j: nat): seq<ConflictRecord>
    requires i < |ws| && j <= |ws|
    decreases j
  {
    if j <= i + 1 then []
    else
      var prior := RowRecords(ws, changed, i, j - 1);
      if Overlaps(ws, changed, i, j - 1) then prior + [MakeRecord(changed, ws[i], ws[j - 1])] else prior
  }

  /** The records of all rows below i. */
  function RecordsBefore(ws: seq<WorkerId>, changed: WorkerId -> set<string>, i: nat): seq<ConflictRecord>
    requires i <= |ws|
    decreases i
  {
    if i == 0 then [] else RecordsBefore(ws, changed, i - 1) + RowRecords(ws, changed, i - 1, |ws|)
  }

  /** Row i's records are the records of row i's intersecting pairs. */
  lemma {:induction false} RowRecordsFollowPairs(ws: seq<WorkerId>, changed: WorkerId -> set<string>, i: nat, j: nat)
    requires i < |ws| && j <= |ws|
    ensures var rs := RowRecords(ws, changed, i, j); var ps := RowPairs(ws, changed, i, j);
      && |rs| == |ps|
      && forall k :: 0 <= k < |ps| ==> ps[k] in ps && rs[k] == PairRecord(ws, changed, ps[k])
    decreases j
  {
    if j > i + 1 {
      RowRecordsFollowPairs(ws, changed, i, j - 1);
      var rs0 := RowRecords(ws, changed, i, j - 1);
      var ps0 := RowPairs(ws, changed, i, j - 1);
      if Overlaps(ws, changed, i, j - 1) {
        var rs := rs0 + [MakeRecord(changed, ws[i], ws[j - 1])];
        var ps := ps0 + [(i, j - 1)];
        forall k | 0 <= k < |ps| ensures ps[k] in ps && rs[k] == PairRecord(ws, changed, ps[k]) {
          if k < |ps0| {
            assert rs[k] == rs0[k] && ps[k] == ps0[k];
          }
        }
      }
    }
  }

  /** The records of the rows below i are the records of their intersecting
      pairs. */
  lemma {:induction false} RecordsBeforeFollowPairs(ws: seq<WorkerId>, changed: WorkerId -> set<string>, i: nat)
    requires i <= |ws|
    ensures var rs := RecordsBefore(ws, changed, i); var ps := PairsBefore(ws, changed, i);
      && |rs| == |ps|
      && forall k :: 0 <= k < |ps| ==> ps[k] in ps && rs[k] == PairRecord(ws, changed, ps[k])
    decreases i
  {
    if i > 0 {
      var rs0 := RecordsBefore(ws, changed, i - 1);
      var ps0 := PairsBefore(ws, changed, i - 1);
      var rs1 := RowRecords(ws, changed, i - 1, |ws|);
      var ps1 := RowPairs(ws, changed, i - 1, |ws|);
      RecordsBeforeFollowPairs(ws, changed, i - 1);
      RowRecordsFollowPairs(ws, changed, i - 1, |ws|);
      var rs := rs0 + rs1;
      var ps := ps0 + ps1;
      forall k | 0 <= k < |ps| ensures ps[k] in ps && rs[k] == PairRecord(ws, changed, ps[k]) {
        if k < |ps0| {
          assert rs[k] == rs0[k] && ps[k] == ps0[k];
        } else {
          assert rs[k] == rs1[k - |ps0|] && ps[k] == ps1[k - |ps0|];
        }
      }
    }
  }

  /** Every file any worker changed. */
  function AllFiles(ws: seq<WorkerId>, changed: WorkerId -> set<string>): (r: set<string>)
    ensures forall f :: f in r <==> exists k :: 0 <= k < |ws| && f in changed(ws[k])
    decreases |ws|
  {
    if ws == [] then {}
    else
      var prior := AllFiles(ws[..|ws| - 1], changed);
      assert forall k :: 0 <= k < |ws| - 1 ==> ws[..|ws| - 1][k] == ws[k];
      prior + changed(ws[|ws| - 1])
  }

  /** The report `detect_conflicts` returns, for git answers `changed`. */
  function ConflictReport(ws: seq<WorkerId>, changed: WorkerId -> set<string>): Report {
    var conflicts := RecordsBefore(ws, changed, |ws|);
    Report(|conflicts| > 0, |conflicts|, conflicts,
      Summary(|ws|, |AllFiles(ws, changed)|, map w | w in ws :: |changed(w)|))
  }

  /** The detector: per-worker sets, then the nested pair loop, then the summary. */
  method DetectConflicts(workers: seq<WorkerId>, changed: WorkerId -> set<string>) returns (report: Report)
    ensures report == ConflictReport(workers, changed)
  {
    var workerFiles := CollectWorkerFiles(workers, changed);
    var conflicts := FindConflicts(workers, changed, workerFiles);
    var summary := Summarize(workers, changed, workerFiles);
    report := Report(|conflicts| > 0, |conflicts|, conflicts, summary);
  }

  /** The summary: the union of all the sets and each worker's count. */
  method Summarize(workers: seq<WorkerId>, changed: WorkerId -> set<string>, workerFiles: map<WorkerId, set<string>>)
    returns (summary: Summary)
    requires workerFiles == map w | w in workers :: changed(w)
    ensures summary == ConflictReport(workers, changed).summary
  {
    var allFiles: set<string> := {};
    for k := 0 to |workers|
      invariant allFiles == AllFiles(workers[..k], changed)
    {
      assert workers[..k + 1][..k] == workers[..k];
      allFiles := allFiles + workerFiles[workers[k]];
    }
    assert workers[..|workers|] == workers;
    var counts := map w | w in workerFiles :: |workerFiles[w]|;
    assert counts == map w | w in workers :: |changed(w)|;
    summary := Summary(|workers|, |allFiles|, counts);
  }

  /** `worker_files[w] = get_changed_files(...)` for each listed worker. */
  method CollectWorkerFiles(workers: seq<WorkerId>, changed: WorkerId -> set<string>)
    returns (workerFiles: map<WorkerId, set<string>>)
    ensures workerFiles == map w | w in workers :: changed(w)
  {
    workerFiles := map[];
    for k := 0 to |workers|
      invariant workerFiles == map w | w in workers[..k] :: changed(w)
    {
      assert workers[..k + 1] == workers[..k] + [workers[k]];
      workerFiles := workerFiles[workers[k] := changed(workers[k])];
    }
    assert workers[..|workers|] == workers;
  }

  /** The outer loop over positions i: each row appends its records. */
  method FindConflicts(workers: seq<WorkerId>, changed: WorkerId -> set<string>, workerFiles: map<WorkerId, set<string>>)
    returns (conflicts: seq<ConflictRecord>)
    requires workerFiles == map w | w in workers :: changed(w)
    ensures conflicts == RecordsBefore(workers, changed, |workers|)
  {
    conflicts := [];
    for i := 0 to |workers|
      invariant conflicts == RecordsBefore(workers, changed, i)
    {
      conflicts := ScanRow(workers, changed, workerFiles, i, conflicts);
    }
  }

  /** The inner loop `for w2 in worker_ids[i+1:]` of row i. */
  method ScanRow(workers: seq<WorkerId>, changed: WorkerId -> set<string>, workerFiles: map<WorkerId, set<string>>,
                 i: nat, prior: seq<ConflictRecord>)
    returns (conflicts: seq<ConflictRecord>)
    requires workerFiles == map w | w in workers :: changed(w)
    requires i < |workers|
    ensures conflicts == prior + RowRecords(workers, changed, i, |workers|)
  {
    conflicts := prior;
    for j := i + 1 to |workers|
      invariant conflicts == prior + RowRecords(workers, changed, i, j)
    {
      var overlap := workerFiles[workers[i]] * workerFiles[workers[j]];
      assert overlap == Overlap(changed, workers[i], workers[j]);
      if overlap != {} {
        conflicts := conflicts + [ConflictRecord(workers[i], workers[j], SortedSet(overlap), if |overlap| > 3 then High else Medium)];
      }
    }
  }

  /** One record per intersecting pair i < j of positions, in loop order, and
      nothing else. */
  lemma RecordsMatchPairs(ws: seq<WorkerId>, changed: WorkerId -> set<string>)
    ensures var pairs := OverlapPairs(ws, changed);
      var records := ConflictReport(ws, changed).conflicts;
      && |records| == |pairs|
      && (forall k :: 0 <= k < |pairs| ==> pairs[k] in pairs && records[k] == PairRecord(ws, changed, pairs[k]))
      && (forall i, j :: 0 <= i < j < |ws| ==> ((i, j) in pairs <==> changed(ws[i]) * changed(ws[j]) != {}))
      && (forall k, l :: 0 <= k < l < |pairs| ==> PairBefore(pairs[k], pairs[l]))
  {
    PairsBeforeExact(ws, changed, |ws|);
    RecordsBeforeFollowPairs(ws, changed, |ws|);
  }

  /** `has_conflicts` holds exactly when some two workers share a file, and
      `conflict_count` is the number of records. */
  lemma {:induction false} HasConflictsIff(ws: seq<WorkerId>, changed: WorkerId -> set<string>)
    ensures var report := ConflictReport(ws, changed);
      && report.conflictCount == |report.conflicts|
      && (report.hasConflicts <==> exists i, j :: 0 <= i < j < |ws| && changed(ws[i]) * changed(ws[j]) != {})
  {
    var pairs := OverlapPairs(ws, changed);
    PairsBeforeExact(ws, changed, |ws|);
    RecordsBeforeFollowPairs(ws, changed, |ws|);
    if exists i, j :: 0 <= i < j < |ws| && changed(ws[i]) * changed(ws[j]) != {} {
      var i, j :| 0 <= i < j < |ws| && changed(ws[i]) * changed(ws[j]) != {};
      assert Overlaps(ws, changed, i, j);
      assert (i, j) in pairs;
    }
    if pairs != [] {
      assert pairs[0] in pairs;
      assert Overlaps(ws, changed, pairs[0].0, pairs[0].1);
    }
  }

  /** The summary: the number of workers listed, the size of the union of
      their sets, and each listed worker's own count. */
  lemma SummaryCounts(ws: seq<WorkerId>, changed: WorkerId -> set<string>)
    ensures var s := ConflictReport(ws, changed).summary;
      && s.totalWorkers == |ws|
      && s.totalFilesChanged == |set k, f | 0 <= k < |ws| && f in changed(ws[k]) :: f|
      && s.workersWithChanges.Keys == set w | w in ws
      && forall w :: w in ws ==> s.workersWithChanges[w] == |changed(w)|
  {
    var u := AllFiles(ws, changed);
    assert u == set k, f | 0 <= k < |ws| && f in changed(ws[k]) :: f;
  }

  // ---- Suggested resolutions ----

  datatype Strategy = ManualMerge | AutoMerge | PauseWorkers

  /** A name the auto-merge rule treats as configuration or documentation. */
  predicate IsDocFile(f: string) {
    EndsWith(f, ".md") || EndsWith(f, ".txt") || EndsWith(f, ".json")
  }

  /** The first rule that matches: one file; else only doc files (also when
      there are no files at all); else code. */
  function StrategyFor(files: seq<string>): (s: Strategy)
    ensures s == ManualMerge <==> |files| == 1
    ensures s == AutoMerge <==> |files| != 1 && forall k :: 0 <= k < |files| ==> IsDocFile(files[k])
    ensures s == PauseWorkers <==> |files| != 1 && exists k :: 0 <= k < |files| && !IsDocFile(files[k])
  {
    if |files| == 1 then ManualMerge
    else if forall k :: 0 <= k < |files| ==> IsDocFile(files[k]) then AutoMerge
    else PauseWorkers
  }

  /** `str([w1, w2])`. */
  function WorkerList(w1: WorkerId, w2: WorkerId): string {
    "[" + IntToString(w1) + ", " + IntToString(w2) + "]"
  }

  /** The text for one record: the worker pair, then the strategy's advice. */
  function Suggestion(c: ConflictRecord): (r: string)
    ensures StartsWith(r, "Workers " + WorkerList(c.w1, c.w2) + ": ")
  {
    var head := "Workers " + WorkerList(c.w1, c.w2) + ": ";
    var tail := match StrategyFor(c.files)
      case ManualMerge => "Single file conflict (" + c.files[0] + ") - consider manual merge or reassign to one worker"
      case AutoMerge => "Config/doc conflicts only - likely safe to auto-merge"
      case PauseWorkers => "Code conflicts (" + IntToString(|c.files|) + " files) - pause workers, resolve manually, then continue";
    assert (head + tail)[..|head|] == head;
    head + tail
  }

  /** The advice after the worker pair, one text per strategy: the single
      file is quoted for a manual merge, and the file count for code. */
  lemma SuggestionTexts(c: ConflictRecord)
    ensures StrategyFor(c.files) == ManualMerge ==> Suggestion(c) == "Workers " + WorkerList(c.w1, c.w2) + ": " + "Single file conflict (" + c.files[0] + ") - consider manual merge or reassign to one worker"
    ensures StrategyFor(c.files) == AutoMerge ==> Suggestion(c) == "Workers " + WorkerList(c.w1, c.w2) + ": " + "Config/doc conflicts only - likely safe to auto-merge"
    ensures StrategyFor(c.files) == PauseWorkers ==> Suggestion(c) == "Workers " + WorkerList(c.w1, c.w2) + ": " + "Code conflicts (" + IntToString(|c.files|) + " files) - pause workers, resolve manually, then continue"
  {
  }

  /** `suggest_resolution`: one suggestion per record, in record order. */
  method SuggestResolution(conflicts: seq<ConflictRecord>) returns (suggestions: seq<string>)
    ensures suggestions == MapSeq(Suggestion, conflicts)
    ensures |suggestions| == |conflicts|
    ensures forall k :: 0 <= k < |conflicts| ==> suggestions[k] == Suggestion(conflicts[k])
  {
    suggestions := [];
    for k := 0 to |conflicts|
      invariant suggestions == MapSeq(Suggestion, conflicts[..k])
    {
      MapSeqSnoc(Suggestion, conflicts, k);
      suggestions := suggestions + [Suggestion(conflicts[k])];
    }
    assert conflicts[..|conflicts|] == conflicts;
    MapSeqSpec(Suggestion, conflicts);
  }

  /** The one-file rule comes first: a single documentation file is still
      sent to a manual merge, and its name is quoted. */
  lemma SingleFileWins(w1: WorkerId, w2: WorkerId, f: string, sev: Severity)
    ensures var msg := Suggestion(ConflictRecord(w1, w2, [f], sev));
      msg == ("Workers " + WorkerList(w1, w2) + ": ") + ("Single file conflict (" + f + ") - consider manual merge or reassign to one worker")
  {
  }
}
