# Music_Downloader batch runner and file-name sanitiser, in Dafny

This project models the core of `main.py` of Music_Downloader. The program
reads an input file with one `"Artist - Track"` entry per line and downloads
each track as an MP3 through yt-dlp, several at a time. It then writes every
line that could not be downloaded to an output file.

The model covers:

- **`sanitizar_nome_arquivo`** (module `Sanitize`, `sanitize.dfy`). It turns an
  artist or a track into a folder or file name in four steps:
  1. the characters `\ / : * ? " < > |` become spaces;
  2. each run of whitespace becomes one space;
  3. both ends are stripped;
  4. the result is cut to 100 characters.

  It also covers the file name yt-dlp is given (`outtmpl`). These are pure
  functions, with lemmas about them.
- **The line handling** (module `Entries`, `entries.dfy`). This is the
  `' - ' in linha` test and `linha.split(' - ', 1)`. It also has the
  `'\n'.join` that writes the failure file, and its inverse.
- **The thread-pool bookkeeping** (module `Pool`, `pool.dfy`). One future is
  kept per queued line. The `as_completed` loop drains the futures in any
  order the pool chooses and records every job that returned False or
  raised. It is an imperative method with a loop. Lemmas show that the order
  changes only the order of the failure list.
- **`processar_lista_musicas`** (module `Batch`, `batch.dfy`). It has:
  - the reading loop, which strips each line and then queues it or records it
    as malformed;
  - the submission of one job per queued line;
  - the pool;
  - the final step, which writes the failure list or removes a stale output
    file.

  These are methods with loops, each proved against a specification function.
  Lemmas relate those functions.

The download job (`baixar_musica`) is an oracle `Job`. It maps an artist and a
track to an `Outcome`:

- `Ok` is a return of True;
- `Fail` is a return of False;
- `Raised` is an exception.

The input file is given as its sequence of lines, or `None` when it does not
exist. The output file is an `Option<string>`, with `None` meaning no file.
The pool's completion order is a nondeterministic choice, and `ProcessList`
returns the order it used.

Three facts about the code shape the model:

- the failure list holds the *stripped* lines (`main.py:89`), not the lines
  as read;
- malformed lines come first, in file order, before any job's line
  (`main.py:92`, before the pool appends at `main.py:108-112`);
- folder creation is check-then-create, both for the `musicas` folder
  (`main.py:32-33`) and for the artist folder (`main.py:40-41`), so it is not
  race-free. Any two concurrent jobs can race on the first of these, and so
  can jobs for the same artist or for artists whose sanitised names coincide
  (`"AC/DC"` and `"AC DC"`). The losing `makedirs` raises, and the pool
  records that line as failed. The `Raised` outcome covers this case.

## Model

| member | source | states |
|---|---|---|
| Sanitize.ReplaceForbidden | main.py:13 | Same length as the input. Each forbidden character becomes a space and every other character is kept. No forbidden character remains. |
| Sanitize.CollapseWs | main.py:15 | Never longer than the input, and empty only for the empty input. The first character is a space exactly when the input starts with whitespace. It brings in no forbidden character. |
| Sanitize.Strip | main.py:15 | The result is a contiguous slice of the input, and neither of its ends is whitespace. Everything cut from either end is whitespace. |
| Sanitize.Truncate | main.py:17 | The result is a prefix of at most `n` characters. It is the whole string when that is short enough, and exactly `n` characters otherwise. |
| Sanitize.SanitizeName | main.py:7-17 | The name has at most 100 characters and no forbidden character. Every whitespace in it is a plain space, no two spaces are adjacent, and it does not begin with whitespace. |
| Sanitize.OutputTemplate | main.py:56 | The download's file name `artist - track.%(ext)s` has no forbidden character (so no path separator) and is at most 211 characters long. |
| Sanitize.CollapseWellSpaced | main.py:15 | After collapsing, every whitespace is a plain space and no two spaces are adjacent. |
| Sanitize.CollapseOfWhitespace | main.py:15 | A non-empty run made only of whitespace becomes exactly one space. |
| Sanitize.CollapseAppend | main.py:15 | Collapsing distributes over a concatenation whose junction is not inside a whitespace run, so each run collapses on its own and the text between runs is kept. |
| Sanitize.CollapseFixedIffWellSpaced | main.py:15 | Collapsing leaves a string unchanged if and only if the string is already well spaced. |
| Sanitize.ReplaceKeepsText | main.py:13 | After the replacement, the non-whitespace text is exactly the characters that are neither whitespace nor forbidden, in order. |
| Sanitize.CollapseKeepsText | main.py:15 | Collapsing whitespace keeps all other characters, in order. |
| Sanitize.StripKeepsText | main.py:15 | Stripping removes only whitespace. |
| Sanitize.SanitizeKeepsText | main.py:7-17 | The non-whitespace text of the sanitised name is a prefix of the input's kept characters (neither whitespace nor forbidden). It is all of them whenever the stripped, collapsed name fits in 100 characters. |
| Sanitize.SanitizeSpacedName | main.py:13-17 | On a forbidden-free, well-spaced name, sanitising only strips and truncates. |
| Sanitize.SanitizeFixesCleanNames | main.py:7-17 | A name that sanitising could produce and that does not end with whitespace is left unchanged. |
| Sanitize.SanitizeStableWithoutTrailingSpace | main.py:7-17 | Sanitising twice equals sanitising once whenever the first result does not end with whitespace. |
| Sanitize.TruncationCanLeaveTrailingSpace | main.py:15-17 | The sanitiser is not idempotent. Take a 99-character word followed by `" b"`: sanitising it gives the word plus a trailing space, and a second pass drops that space. |
| Entries.FindSep | main.py:90 | Finds an occurrence of `" - "` exactly when the line holds one, and it is the first occurrence. |
| Entries.SplitOnce | main.py:100 | Gives two parts exactly when the line holds the separator, and the line whole otherwise. The parts joined with `" - "` give the line back, and the cut is at the first separator: the first part followed by `" -"` holds none. |
| Entries.SplitOnceInvertsJoin | main.py:100 | Splitting `artist + " - " + track` gives back `[artist, track]` if and only if `artist + " -"` holds no separator. |
| Entries.StrippedEntryHasBothParts | main.py:89-90 | A stripped line that holds the separator splits, as `main.py:100` does, into a non-empty artist and a non-empty track. |
| Entries.StripRemovesNewline | main.py:88-89 | A line read from the file keeps its newline only as the last character, and stripping removes it. |
| Entries.SplitLinesInvertsJoin | main.py:116 | Splitting the written failure file on newlines gives back the failure list, when no entry holds a newline. |
| Pool.Drain | main.py:102-112 | Completes every future exactly once, in some order. Records the line of each future whose job did not succeed, in that order. |
| Pool.UnresolvedIgnoresOrder | main.py:102-112 | In any completion order, the pool records the lines of the failed jobs, each as often as it was queued. |
| Pool.UnresolvedAreFailures | main.py:106-112 | Every recorded line belongs to a job that did not succeed, and every completed job that did not succeed is recorded. |
| Pool.JobsPartitionQueue | main.py:106-112 | The failed jobs' lines and the succeeded jobs' lines together are exactly the queue, as a multiset. |
| Pool.NoFailuresWhenAllSucceed | main.py:106-109 | When every job returns True, the pool records nothing. |
| Pool.NoSuccessesWhenAllFail | main.py:106-112 | When no job returns True, no line counts as succeeded. |
| Batch.ReadEntries | main.py:87-94 | The reading loop yields the queue and the malformed lines of the specification functions `Queued` and `Malformed`. |
| Batch.QueuedLinesAreEntries | main.py:89-94 | Every queued line is stripped and holds the separator. Every malformed line is stripped and lacks it. |
| Batch.ReadingPartitionsLines | main.py:87-94 | The queue and the malformed lines together are the stripped input, each line exactly once. This includes the count `len(queue) + #malformed == #lines`. |
| Batch.ReadLinesAreStripped | main.py:87-94 | Everything read into the queue or the malformed lines is a stripped input line. |
| Batch.ReadingRoutesEachLine | main.py:89-94 | A stripped line is queued when it holds the separator, and is recorded as malformed otherwise. |
| Batch.BlankLineIsFailure | main.py:89-92 | A blank or whitespace-only line is recorded as the failure `""`. |
| Batch.Submit | main.py:100 | The line is cut at its first separator into an artist and a track that join back to the line, and the job runs on those two. Its outcome is the line's entry in the futures. |
| Batch.SubmitAll | main.py:100 | One future per queued line, holding that line's job outcome. |
| Batch.Finalize | main.py:114-121 | The output file is absent exactly when the failure list is empty. |
| Batch.ProcessList | main.py:71-121 | A missing input file leaves the output file untouched. Otherwise the run uses some completion order. The failures are the malformed lines in file order, then the failed jobs' lines in completion order. The output file is the newline join of the failures, or absent when there are none. |
| Batch.EveryLineEndsOnce | main.py:84-112 | Every stripped input line ends exactly once, either in the failure list or as a succeeded job. |
| Batch.SucceededLinesNeverFail | main.py:106-112 | Every line in the failure list is malformed or belongs to a job that did not succeed, and it is a stripped input line. |
| Batch.CleanRunRemovesOutput | main.py:114-121 | When every line is well formed and every job succeeds, including an empty input, the failure list is empty and no output file remains. |
| Batch.AllJobsFailing | main.py:99-112 | When every job fails, the failure list holds every stripped input line, in some order. |
| Batch.FailureFileReadsBack | main.py:114-116 | The written output file splits on newlines back into the failure list. |

## Left out

- `baixar_musica` (`main.py:19-69`) is not modelled step by step. That covers the folder creation, the yt-dlp search query and options, and the download and MP3 conversion. They need the network, yt-dlp and the filesystem, so the model takes the job as an oracle from artist and track to outcome. `OutputTemplate` models only the file name inside the artist's folder, not the `os.path.join` path.
- Batch.RunJob: the outcome depends only on the artist and the track. Two identical queued lines therefore get the same outcome, while real downloads of them could differ.
- The thread pool is reduced to an arbitrary completion order. That leaves out concurrency, `max_workers` and the waiting at the end of the `with` block.
- Filesystem access is not modelled: `os.path.exists`, opening the files, UTF-8 decoding and splitting the input into lines. The input is the sequence of lines Python's line iteration yields, and the output file is a value.
- Printing is not modelled. That covers the `[i/total]` progress counter, the messages and the `__main__` block.
- Exceptions raised outside a job, such as an unreadable input file or a failed write of the output file, are not modelled.
