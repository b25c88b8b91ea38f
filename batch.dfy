/**
 * The batch runner `processar_lista_musicas` of main.py: read the input
 * lines, queue those that hold the " - " separator and record the others as
 * failures, run one download job per queued line on a thread pool, record
 * every job that returned False or raised, and finally write the failure
 * list to the output file, or remove a stale output file when nothing
 * failed.
 *
 * The job itself (`baixar_musica`, which hands the search, download and
 * conversion to yt-dlp) is an oracle `Job`; the pool's completion order is
 * chosen nondeterministically; the input and output files are values.
 */
module Batch {
  import opened Wrappers
  import opened Sanitize
  import opened Entries
  import opened Pool

  /** What the job does with an artist and a track. */
  type Job = (string, string) -> Outcome

  /**
   * The outcome the pool reports for a queued line: the job run on the
   * artist and track that `split(' - ', 1)` gives. Only lines holding the
   * separator are queued, so the `Raised` branch is never reached; it only
   * makes the function total.
   */
  function RunJob(job: Job, line: string): Outcome {
    var parts := SplitOnce(line);
    if |parts| == 2 then job(parts[0], parts[1]) else Raised
  }

  /** A job's line belongs in the failure list. */
  predicate Failed(job: Job, line: string) {
    RunJob(job, line) != Ok
  }

  // ------------------------------------------------------------ reading

  /** Every input line, stripped. */
  function Stripped(lines: seq<string>): (r: seq<string>)
    ensures |r| == |lines|
  {
    if lines == [] then []
    else Stripped(lines[..|lines| - 1]) + [Strip(lines[|lines| - 1])]
  }

  /** `musicas_a_processar`: the stripped lines that hold the separator, in file order. */
  function Queued(lines: seq<string>): seq<string> {
    if lines == [] then []
    else
      Queued(lines[..|lines| - 1]) + Entry(Strip(lines[|lines| - 1]))
  }

  /** The stripped lines without the separator, in file order: the first part of `musicas_nao_baixadas`. */
  function Malformed(lines: seq<string>): seq<string> {
    if lines == [] then []
    else
      Malformed(lines[..|lines| - 1]) + NonEntry(Strip(lines[|lines| - 1]))
  }

  /** A stripped line as the queue takes it: itself when it holds the separator. */
  function Entry(line: string): seq<string> {
    if ContainsSep(line) then [line] else []
  }

  /** A stripped line as the malformed lines take it: itself when it lacks the separator. */
  function NonEntry(line: string): seq<string> {
    if ContainsSep(line) then [] else [line]
  }

  /** The reading loop: strip each line, then queue it or record it as malformed. */
  method ReadEntries(lines: seq<string>) returns (queue: seq<string>, malformed: seq<string>)
    ensures queue == Queued(lines) && malformed == Malformed(lines)
  {
    queue, malformed := [], [];
    for i := 0 to |lines|
      invariant queue == Queued(lines[..i]) && malformed == Malformed(lines[..i])
    {
      var line := Strip(lines[i]);
      assert lines[..i + 1][..i] == lines[..i];
      if !ContainsSep(line) {
        malformed := malformed + [line];
        continue;
      }
      queue := queue + [line];
    }
    assert lines[..|lines|] == lines;
  }

  // ------------------------------------------------------------ the pool

  /** What each submitted job's future holds, by submission index. */
  function Results(queue: seq<string>, job: Job): (r: seq<Outcome>)
    ensures |r| == |queue|
  {
    seq(|queue|, k requires 0 <= k < |queue| => RunJob(job, queue[k]))
  }

  /**
   * `executor.submit(baixar_musica, *linha.split(' - ', 1))` and the later
   * `future.result()`: the line is cut at the first separator into an
   * artist and a track, and the job runs on those two.
   */
  method Submit(job: Job, line: string) returns (artist: string, track: string, outcome: Outcome)
    requires ContainsSep(line)
    ensures line == artist + Sep + track && !ContainsSep(artist + " -")
    ensures outcome == job(artist, track)
    ensures outcome == RunJob(job, line)
  {
    var parts := SplitOnce(line);
    artist, track := parts[0], parts[1];
    outcome := job(artist, track);
  }

  /**
   * The submission comprehension of `future_to_music`: one job per queued
   * line, in queue order; each future ends with that job's outcome.
   */
  method SubmitAll(queue: seq<string>, job: Job) returns (futures: seq<Outcome>)
    requires forall k :: 0 <= k < |queue| ==> ContainsSep(queue[k])
    ensures futures == Results(queue, job)
  {
    futures := [];
    for i := 0 to |queue|
      invariant |futures| == i
      invariant forall k :: 0 <= k < i ==> futures[k] == RunJob(job, queue[k])
    {
      var _, _, outcome := Submit(job, queue[i]);
      futures := futures + [outcome];
    }
  }

  // ------------------------------------------------------------ the whole run

  /** `musicas_nao_baixadas` at the end of a run: the malformed lines, then the failed jobs' lines. */
  function RunFailures(lines: seq<string>, job: Job, order: seq<nat>): seq<string>
    requires forall j :: 0 <= j < |order| ==> order[j] < |Queued(lines)|
  {
    Malformed(lines) + Unresolved(Queued(lines), Results(Queued(lines), job), order)
  }

  /**
   * The output file after a run: the newline-joined failure list when there
   * is one, and no file at all when the list is empty (a stale file is
   * removed, a missing one stays missing).
   */
  function Finalize(failures: seq<string>): (r: Option<string>)
    ensures r.None? <==> failures == []
  {
    if failures != [] then Some(JoinLines(failures)) else None
  }

  /**
   * `processar_lista_musicas`: `input` is the input file's lines, `None`
   * when it does not exist; `output` is the output file's content, `None`
   * when it does not exist. Returns the new output file, the failure list,
   * and the completion order the pool used.
   */
  method ProcessList(input: Option<seq<string>>, output: Option<string>, job: Job)
    returns (newOutput: Option<string>, failures: seq<string>, order: seq<nat>)
    ensures input.None? ==> newOutput == output && failures == [] && order == []
    ensures input.Some? ==> IsCompletionOrder(order, |Queued(input.value)|)
    ensures input.Some? ==> failures == RunFailures(input.value, job, order)
    ensures input.Some? ==> newOutput == Finalize(failures)
  {
    if input.None? {
      return output, [], [];
    }
    var queue, malformed := ReadEntries(input.value);
    QueuedLinesAreEntries(input.value);
    var futures := SubmitAll(queue, job);
    var unresolved;
    unresolved, order := Drain(queue, futures);
    failures := malformed + unresolved;
    if failures != [] {
      newOutput := Some(JoinLines(failures));
    } else {
      newOutput := None;
    }
  }

  // ------------------------------------------------------------ lemmas

  /** Every queued line is stripped and holds the separator; every malformed line lacks it. */
  lemma {:induction false} QueuedLinesAreEntries(lines: seq<string>)
    ensures forall i :: 0 <= i < |Queued(lines)| ==> ContainsSep(Queued(lines)[i]) && IsStripped(Queued(lines)[i])
    ensures forall i :: 0 <= i < |Malformed(lines)| ==> !ContainsSep(Malformed(lines)[i]) && IsStripped(Malformed(lines)[i])
  {
    if lines != [] {
      QueuedLinesAreEntries(lines[..|lines| - 1]);
    }
  }

  /**
   * Reading splits the stripped input into the queue and the malformed
   * lines: together they hold every stripped line exactly once.
   */
  lemma {:induction false} ReadingPartitionsLines(lines: seq<string>)
    ensures |Queued(lines)| + |Malformed(lines)| == |lines|
    ensures multiset(Queued(lines)) + multiset(Malformed(lines)) == multiset(Stripped(lines))
  {
    if lines != [] {
      var init, line := lines[..|lines| - 1], Strip(lines[|lines| - 1]);
      ReadingPartitionsLines(init);
      PartitionStep(Queued(init), Malformed(init), Stripped(init), Entry(line), NonEntry(line), line);
    }
  }

  /** Whatever reading queues or records as malformed is a stripped input line. */
  lemma {:induction false} ReadLinesAreStripped(lines: seq<string>)
    ensures forall x :: x in Queued(lines) ==> x in Stripped(lines)
    ensures forall x :: x in Malformed(lines) ==> x in Stripped(lines)
  {
    if lines != [] {
      ReadLinesAreStripped(lines[..|lines| - 1]);
    }
  }

  /** Each stripped line goes to the queue when it holds the separator, and to the malformed lines otherwise. */
  lemma {:induction false} ReadingRoutesEachLine(lines: seq<string>, i: nat)
    requires i < |lines|
    ensures ContainsSep(Strip(lines[i])) ==> Strip(lines[i]) in Queued(lines)
    ensures !ContainsSep(Strip(lines[i])) ==> Strip(lines[i]) in Malformed(lines)
  {
    if i < |lines| - 1 {
      ReadingRoutesEachLine(lines[..|lines| - 1], i);
      assert lines[..|lines| - 1][i] == lines[i];
    }
  }

  /** A blank line (only whitespace, or nothing) is recorded as the failure "". */
  lemma BlankLineIsFailure(lines: seq<string>, i: nat)
    requires i < |lines| && forall k :: 0 <= k < |lines[i]| ==> IsWs(lines[i][k])
    ensures [] in Malformed(lines)
  {
    assert StripStart(lines[i]) == |lines[i]|;
    assert Strip(lines[i]) == [];
    ReadingRoutesEachLine(lines, i);
  }

  /**
   * Every stripped input line reaches exactly one terminal state: it is in
   * the failure list (malformed, or its job returned False or raised), or
   * its job succeeded; none is lost and none is counted twice.
   */
  lemma EveryLineEndsOnce(lines: seq<string>, job: Job, order: seq<nat>)
    requires IsCompletionOrder(order, |Queued(lines)|)
    ensures multiset(RunFailures(lines, job, order))
      + multiset(SucceededJobs(Queued(lines), Results(Queued(lines), job), |Queued(lines)|))
      == multiset(Stripped(lines))
  {
    var queue := Queued(lines);
    var results := Results(queue, job);
    ReadingPartitionsLines(lines);
    UnresolvedIgnoresOrder(queue, results, order);
    JobsPartitionQueue(queue, results);
    Regroup(Malformed(lines), Unresolved(queue, results, order), FailedJobs(queue, results, |queue|),
      SucceededJobs(queue, results, |queue|), queue, Stripped(lines));
  }

  lemma Regroup(m: seq<string>, u: seq<string>, f: seq<string>, s: seq<string>, q: seq<string>, all: seq<string>)
    requires multiset(u) == multiset(f)
    requires multiset(f) + multiset(s) == multiset(q)
    requires multiset(q) + multiset(m) == multiset(all)
    ensures multiset(m + u) + multiset(s) == multiset(all)
  {
  }

  /** No line whose job returned True is in the failure list; every failure is a stripped input line. */
  lemma SucceededLinesNeverFail(lines: seq<string>, job: Job, order: seq<nat>)
    requires forall j :: 0 <= j < |order| ==> order[j] < |Queued(lines)|
    ensures forall x :: x in RunFailures(lines, job, order) ==> !ContainsSep(x) || Failed(job, x)
    ensures forall x :: x in RunFailures(lines, job, order) ==> x in Stripped(lines)
  {
    var queue := Queued(lines);
    var results := Results(queue, job);
    QueuedLinesAreEntries(lines);
    ReadLinesAreStripped(lines);
    UnresolvedAreFailures(queue, results, order);
    forall x | x in RunFailures(lines, job, order)
      ensures (!ContainsSep(x) || Failed(job, x)) && x in Stripped(lines)
    {
      if x !in Malformed(lines) {
        var k :| 0 <= k < |queue| && queue[k] == x && results[k] != Ok;
      }
    }
  }

  lemma {:induction false} NoMalformedWhenAllEntries(lines: seq<string>)
    requires forall i :: 0 <= i < |lines| ==> ContainsSep(Strip(lines[i]))
    ensures Malformed(lines) == []
  {
    if lines != [] {
      NoMalformedWhenAllEntries(lines[..|lines| - 1]);
    }
  }

  /**
   * A clean run leaves no output file: when every line is well formed and
   * every job succeeds (in particular for an empty input), the failure list
   * is empty and a stale output file is removed.
   */
  lemma CleanRunRemovesOutput(lines: seq<string>, job: Job, order: seq<nat>)
    requires forall i :: 0 <= i < |lines| ==> ContainsSep(Strip(lines[i]))
    requires forall k :: 0 <= k < |Queued(lines)| ==> !Failed(job, Queued(lines)[k])
    requires forall j :: 0 <= j < |order| ==> order[j] < |Queued(lines)|
    ensures RunFailures(lines, job, order) == [] && Finalize(RunFailures(lines, job, order)) == None
  {
    NoMalformedWhenAllEntries(lines);
    NoFailuresWhenAllSucceed(Queued(lines), Results(Queued(lines), job), order);
  }

  /** When every job fails, the failure list holds every stripped input line, in some order. */
  lemma AllJobsFailing(lines: seq<string>, job: Job, order: seq<nat>)
    requires IsCompletionOrder(order, |Queued(lines)|)
    requires forall k :: 0 <= k < |Queued(lines)| ==> Failed(job, Queued(lines)[k])
    ensures multiset(RunFailures(lines, job, order)) == multiset(Stripped(lines))
  {
    EveryLineEndsOnce(lines, job, order);
    NoSuccessesWhenAllFail(Queued(lines), Results(Queued(lines), job), |Queued(lines)|);
  }

  /**
   * The output file can be read back: for lines as a file yields them (a
   * newline at most at the end), splitting the written file on newlines
   * gives the failure list.
   */
  lemma FailureFileReadsBack(lines: seq<string>, job: Job, order: seq<nat>)
    requires forall i, k :: 0 <= i < |lines| && 0 <= k < |lines[i]| - 1 ==> lines[i][k] != '\n'
    requires forall j :: 0 <= j < |order| ==> order[j] < |Queued(lines)|
    requires RunFailures(lines, job, order) != []
    ensures Finalize(RunFailures(lines, job, order)) == Some(JoinLines(RunFailures(lines, job, order)))
    ensures SplitLines(JoinLines(RunFailures(lines, job, order))) == RunFailures(lines, job, order)
  {
    var failures := RunFailures(lines, job, order);
    SucceededLinesNeverFail(lines, job, order);
    forall x | x in Stripped(lines) ensures NoNewline(x) {
      var i := StrippedIndex(lines, x);
      StripRemovesNewline(lines[i]);
    }
    SplitLinesInvertsJoin(failures);
  }

  /** The input line a stripped line comes from. */
  lemma {:induction false} StrippedIndex(lines: seq<string>, x: string) returns (i: nat)
    requires x in Stripped(lines)
    ensures i < |lines| && x == Strip(lines[i])
  {
    var init := lines[..|lines| - 1];
    if x in Stripped(init) {
      i := StrippedIndex(init, x);
      assert lines[i] == init[i];
    } else {
      i := |lines| - 1;
    }
  }
}
