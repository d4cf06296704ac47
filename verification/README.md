# Brute-force search for SHA-256 digests with trailing zeros — Dafny model

The program searches the integers 1, 2, 3, … for values whose SHA-256 digest
(of the integer's decimal text) ends in `N` zero characters. It prints the
first `F` such values with their digests, one line `"<input>, <digest>"` each.
The work is split into chunks of `chunk-size` consecutive integers. `threads`
chunks are in flight at once.

This project models the core of `src/main.rs`:

- **The match predicate** (`has_exatly_n_trailing_zeros`, module `TrailingZeros`).
  The program compiles the end-anchored regex `0{N}$`. It is modelled as "the
  maximal run of trailing `'0'`s is at least `N` long". That is proved equal to
  "the last `N` characters are `'0'`" and to the regex reading "some position
  starts `N` zeros that reach the end". The function is named "exactly", but it
  behaves as "at least", and `N = 0` matches everything.
- **The chunk evaluator** (the worker thread's closure, module `Worker`). It is a
  filter over the half-open range `[lo, hi)`, in ascending order, keeping
  `HashCase(input, digest)` for each match. The digest is a parameter
  `digest: nat -> string`, and every result holds for any such function.
- **The scheduler** (`main`, modules `Scheduler`, `SchedulerProofs`, `Search`).
  It fills a FIFO queue with `threads` chunks starting at 1. It then pops and
  joins the front chunk and prints its matches. It returns right after the line
  that brings `found` to `hashes_needed`. Otherwise it pushes the next chunk.
  Joins happen in push order, so a join is modelled as evaluating the front
  chunk at that point. One loop iteration is `Scheduler.Step`. `Scheduler.Run`
  applies it a given number of times (fuel), because the loop need not
  terminate. `Search.SearchHashes` writes the same loops imperatively and is
  proved to compute `Run`.

The main results:
- the printed lines are always the first matching integers from 1, ascending,
  each once (`RunPrintsFirstMatches`, `SatisfiedOutput`);
- they are a prefix of the joined chunks' matches concatenated in dispatch
  order (`RunPrintsChunkOutputs`);
- the output of a run that returns does not depend on `threads` or
  `chunk-size` (`OutputIndependentOfScheduling`);
- the run does return once the chunks joined so far cover enough matches
  (`RunReachesSatisfied`).

Behaviour of `main.rs` worth stating plainly:
- output order comes only from the FIFO queue of join handles; nothing is
  sorted;
- there is no overflow check on the chunk cursor, so the model has no
  "search space exhausted" stop;
- with `hashes_needed = 0` the loop returns after one line, not zero,
  because the test follows the print;
- `threads = 0` is accepted and prints nothing;
- the predicate means "at least `N` trailing zeros".

## Model

| member | source | states |
|---|---|---|
| TrailingZeros.MatchesIffEndsWithZeros | src/main.rs:12-14 | the matcher holds exactly when the string has at least `n` characters and its last `n` are all `'0'` |
| TrailingZeros.MatchesIffRegex | src/main.rs:12-14 | the matcher agrees with the regex semantics of `0{n}$`: some position starts a run of `n` zeros reaching the end of the text |
| TrailingZeros.ZeroCountMatchesEverything | src/main.rs:13 | with `n = 0` every string matches, under both readings |
| TrailingZeros.MatchesMonotone | src/main.rs:13 | a match for `n` trailing zeros is a match for every smaller count |
| TrailingZeros.AtLeastNotExactly | src/main.rs:12-13 | "exactly" is really "at least": appending another `'0'` to a matching digest keeps it matching while its zero run grows past `n` |
| TrailingZeros.TrailingZeroRunIsZeros | src/main.rs:13 | the counted trailing run consists of `'0'` characters and is maximal (the character before it is not `'0'`) |
| TrailingZeros.ZerosBoundRun | src/main.rs:13 | if the last `n` characters are `'0'`, the trailing run is at least `n` long |
| Worker.ScanChunk | src/main.rs:23-36 | the worker loop over `[lo, hi)` returns exactly the reference scan `Evaluate` of that range |
| Worker.EvaluateSound | src/main.rs:26-33 | every returned record has an input in `[lo, hi)`, the digest of that input, and a digest satisfying the predicate |
| Worker.EvaluateComplete | src/main.rs:26-33 | every integer of `[lo, hi)` whose digest satisfies the predicate appears among the returned inputs |
| Worker.EvaluateAscending | src/main.rs:26-33 | the returned inputs strictly increase, so none appears twice |
| Worker.EvaluateSpec | src/main.rs:26-35 | the evaluator is sound, complete and strictly ascending at once |
| Worker.EvaluateSplit | src/main.rs:26-34 | scanning `[lo, hi)` gives the matches of `[lo, mid)` followed by those of `[mid, hi)` |
| Worker.EvaluatePrefix | src/main.rs:26-34 | scanning to a later bound only appends: the shorter scan is a prefix of the longer |
| Worker.SplitAtBound | src/main.rs:26-34 | in an ascending concatenation whose first part lies below `m` and second part at or above `m`, the record with input `m - 1` ends the first part |
| Worker.EvaluateCut | src/main.rs:26-34 | the first `k` matches of a range are the whole scan up to just past the `k`-th match's input |
| Worker.EvaluateSameLength | src/main.rs:26-34 | two scans from the same start with equally many matches are equal |
| Scheduler.ChunkAt | src/main.rs:50-54 | chunk `j` of the sequence is `chunk_size` long and chunk 0 starts at 1 |
| Scheduler.Fill | src/main.rs:49-55 | the fill loop pushes the requested number of chunks, which are the consecutive chunks of the sequence from 1, and leaves the cursor at the end of the last |
| Scheduler.Init | src/main.rs:43-55 | the loop starts with `threads` queued chunks `[1, 1+cs), [1+cs, 1+2cs), …`, cursor `1 + threads*cs`, nothing found or printed |
| Scheduler.Emit | src/main.rs:58-64 | printing a joined chunk prints a prefix of its results and adds their number to `found`; it returns iff the chunk is non-empty and `found` plus the number of results reaches `needed`; it returns on the first line that reaches `needed`, and prints all results otherwise |
| SchedulerProofs.InitInv | src/main.rs:43-55 | the state after the fill satisfies the loop invariant: the queue has `threads` contiguous ranges of length `cs`, the first starting at 1 or later and the last ending at the cursor, and the empty output is all matches below the first range |
| SchedulerProofs.EmitStopCount | src/main.rs:58-63 | when the inner loop returns, `found` is exactly `max(1, hashes_needed)` |
| SchedulerProofs.PrintCut | src/main.rs:58-63 | output so far plus a non-empty prefix of the front chunk's matches is the full scan from 1 up to the last printed input |
| SchedulerProofs.StepStopInv | src/main.rs:57-63 | the iteration that returns leaves exactly `max(1, hashes_needed)` lines, which are all matches from 1 up to the last one printed |
| SchedulerProofs.StepContinueInv | src/main.rs:57-69 | an iteration that does not return keeps `threads` contiguous ranges ending at the cursor, with the output equal to all matches below the new front chunk |
| SchedulerProofs.StepPreservesInv | src/main.rs:57-70 | every loop iteration preserves the invariant: `found` counts the lines, and the output is the matches before the queue front or, after the return, the first `max(1, hashes_needed)` matches |
| SchedulerProofs.RunInv | src/main.rs:40-71 | the invariant holds after any number of iterations |
| SchedulerProofs.RunStable | src/main.rs:57-62 | once the loop has ended (empty queue or return), further iterations change nothing |
| SchedulerProofs.RunShape | src/main.rs:49-69 | while running, after `k` iterations the queue holds chunks `k … k+threads-1` of the sequence from 1, and the cursor is the start of chunk `k+threads`: each iteration drops the front chunk and issues the next one, so no range is skipped and, when `chunk_size >= 1`, none is issued twice |
| SchedulerProofs.ChunksDisjoint | src/main.rs:50-54 | with `chunk_size >= 1`, earlier chunks end no later than later ones start, and consecutive chunks meet exactly |
| SchedulerProofs.ChunkOutputsIsScan | src/main.rs:57-69 | the matches of the first `k` chunks concatenated in dispatch order are the scan of `[1, 1 + k*cs)` |
| SchedulerProofs.StepPrintsFrontChunk | src/main.rs:57-64 | an iteration appends a prefix of the front chunk's matches to the output, and all of them when the loop continues |
| SchedulerProofs.StepExtendsPrefix | src/main.rs:57-69 | if the output is a prefix of the earlier chunks' matches, after one more iteration it is a prefix of those followed by the front chunk's matches |
| SchedulerProofs.RunPrintsChunkOutputs | src/main.rs:57-69 | after `fuel` iterations the printed lines are a prefix of the concatenated matches of the first `fuel` chunks (the ones joined so far), in dispatch order, and all of them while the loop runs |
| SchedulerProofs.InvPrintsFirstMatches | src/main.rs:57-69 | any state satisfying the invariant has printed the scan from 1 up to its last printed input |
| SchedulerProofs.RunPrintsFirstMatches | src/main.rs:57-69 | at every point the output is ascending, genuine and leaves out no matching integer below the last printed one |
| SchedulerProofs.PrintedBounded | src/main.rs:58-63 | `found` equals the number of printed lines, and at most `max(1, hashes_needed)` lines are printed |
| SchedulerProofs.SatisfiedOutput | src/main.rs:57-63 | after the return, the output is exactly the `hashes_needed` smallest matching integers from 1 (one line when `hashes_needed = 0`): strictly ascending, each with its matching digest, none skipped |
| SchedulerProofs.OutputIndependentOfScheduling | src/main.rs:43-70 | two runs that return with the same trailing-zero count and `hashes_needed` print the same lines, whatever their thread counts and chunk sizes |
| SchedulerProofs.RunReachesSatisfied | src/main.rs:57-70 | with `threads >= 1` and `chunk_size >= 1`, once the first `fuel` chunks, the ones joined after `fuel` iterations, cover a range `[1, m)` holding `max(1, hashes_needed)` matches, the loop has returned |
| SchedulerProofs.NoThreadsPrintsNothing | src/main.rs:47-57 | with `threads = 0` nothing is printed, and the loop ends on its first test |
| Search.FillQueue | src/main.rs:49-55 | the imperative fill loop produces the queue and cursor of `Fill` |
| Search.PrintChunk | src/main.rs:58-64 | the imperative print loop with early return produces the lines, counter and return decision of `Emit` |
| Search.EmitMatchesLoop | src/main.rs:58-64 | a print loop halted after `j` lines agrees with `Emit`, whether it returned on line `j` or ran out of lines |
| Search.Iterate | src/main.rs:57-69 | one imperative iteration of the `while let` loop takes the state to `Step` of it |
| Search.SearchHashes | src/main.rs:40-71 | `main` as nested loops, cut off after `fuel` iterations, prints what `Run` prints and stands in the same phase |

## Left out

- Thread spawning and joining are not modelled. A join is the synchronous evaluation of the front chunk. This is faithful because handles are joined in the order they were pushed. Worker panics and the `unwrap` of `join` are out of scope.
- SHA-256 and the decimal rendering of the integer are not modelled. The digest is an arbitrary function parameter.
- TrailingZeros.Matches: the model treats every `N` as a valid pattern. The program panics at start-up (the `unwrap` of `Regex::new`) for an `N` the regex crate refuses, because the repetition count or the compiled pattern size exceeds the crate's limits; those limits belong to the crate and are not modelled.
- The `regex` crate is replaced by the trailing-run predicate, which is proved equivalent to the regex semantics of `0{N}$`.
- `println!` and the `"<input>, <digest>"` line format are not modelled. Output is the sequence of printed `HashCase` records.
- Command-line parsing (`src/args.rs`, clap, defaults `N=1`, `F=1`, `threads=4`, `chunk-size=4096`) is not modelled. Its four fields are the `Config` parameters.
- `usize` overflow of `new_chunk_start + chunk_size` and of the queue capacity `threads + 1` is not modelled. Integers are unbounded, and the code has no checked addition or exhaustion path.
- Termination of the main loop is not modelled. `Run` and `SearchHashes` take an iteration bound, and `RunReachesSatisfied` states when the loop has returned.
- `VecDeque::with_capacity` is not modelled. The queue is a sequence. Apart from the overflow of `threads + 1` named above, its capacity does not affect behaviour.
