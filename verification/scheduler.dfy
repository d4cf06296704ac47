/**
  The driver of the search (`main`): it fills a FIFO queue with `threads`
  consecutive chunks starting at 1. It then repeatedly pops the front chunk,
  joins it and prints that chunk's matches in order. It stops right after the
  line that brings the count of printed lines to `hashes_needed`. Otherwise
  it pushes the next chunk at the back.

  Joins happen in the order the chunks were pushed, so a join is modelled as
  evaluating the front chunk there and then. One loop iteration is one `Step`.
  The loop need not terminate (matches may never come, and a chunk size of 0
  never advances), so `Run` takes the number of iterations as fuel.
 */
module Scheduler {
  import opened Worker

  /** The four command-line parameters of the search. */
  datatype Config = Config(trailingZeros: nat, hashesNeeded: nat, threads: nat, chunkSize: nat)

  /** A half-open range `[lo, hi)` of integers handed to one worker. */
  datatype Range = Range(lo: nat, hi: nat)

  /** `Running` while the main loop goes on; `Exhausted` when the queue was found
      empty (the `while let` ends); `Satisfied` after the early return. */
  datatype Phase = Running | Exhausted | Satisfied

  /** The locals of `main`: the handle queue (as the ranges the handles work on),
      the next chunk start, the found counter, and what has been printed. */
  datatype State = State(queue: seq<Range>, cursor: nat, found: nat, printed: seq<HashCase>, phase: Phase)

  /** Chunk number `j` of the sequence `[1, 1+cs), [1+cs, 1+2cs), ...`. */
  function ChunkAt(cs: nat, j: nat): (c: Range)
    ensures c.hi == c.lo + cs
    ensures j == 0 ==> c.lo == 1
  {
    Range(1 + j * cs, 1 + j * cs + cs)
  }

  /** `queue` holds chunks number `first`, `first + 1`, ... of the sequence, in order. */
  ghost predicate IsChunkWindow(cs: nat, first: nat, queue: seq<Range>) {
    forall j :: 0 <= j < |queue| ==> queue[j] == ChunkAt(cs, first + j)
  }

  /** The initial fill loop: push `k` more chunks, each starting at the cursor,
      advancing the cursor by the chunk size after each push. */
  function Fill(cs: nat, k: nat, queue: seq<Range>, cursor: nat): (r: (seq<Range>, nat))
    requires IsChunkWindow(cs, 0, queue) && cursor == 1 + |queue| * cs
    ensures |r.0| == |queue| + k
    ensures IsChunkWindow(cs, 0, r.0)
    ensures r.1 == 1 + |r.0| * cs
    decreases k
  {
    if k == 0 then (queue, cursor)
    else
      assert cursor + cs == 1 + (|queue| + 1) * cs;
      Fill(cs, k - 1, queue + [Range(cursor, cursor + cs)], cursor + cs)
  }

  /** The state when the main loop is first reached. */
  function Init(cfg: Config): (s: State)
    ensures s.phase == Running && s.found == 0 && s.printed == []
    ensures |s.queue| == cfg.threads
    ensures IsChunkWindow(cfg.chunkSize, 0, s.queue)
    ensures s.cursor == 1 + cfg.threads * cfg.chunkSize
  {
    var (queue, cursor) := Fill(cfg.chunkSize, cfg.threads, [], 1);
    State(queue, cursor, 0, [], Running)
  }

  /** Outcome of printing one joined chunk: the lines printed, the counter
      afterwards, and whether the early return was taken. */
  datatype Emitted = Emitted(lines: seq<HashCase>, found: nat, stop: bool)

  /** The inner print loop: print each result, count it, and return as soon as
      the counter reaches `needed`. The test follows the print, so at least one
      line is printed before any return. */
  function Emit(results: seq<HashCase>, found: nat, needed: nat): (e: Emitted)
    ensures |e.lines| <= |results| && e.lines == results[..|e.lines|]
    ensures e.found == found + |e.lines|
    ensures e.stop <==> |results| > 0 && found + |results| >= needed
    ensures e.stop ==> |e.lines| > 0 && e.found >= needed && (|e.lines| == 1 || e.found - 1 < needed)
    ensures !e.stop ==> e.lines == results
  {
    if |results| == 0 then Emitted([], found, false)
    else if found + 1 >= needed then Emitted([results[0]], found + 1, true)
    else
      var rest := Emit(results[1..], found + 1, needed);
      Emitted([results[0]] + rest.lines, rest.found, rest.stop)
  }

  /** One iteration of the main loop. */
  function Step(cfg: Config, digest: nat -> string, s: State): State {
    if s.phase != Running then s
    else if |s.queue| == 0 then s.(phase := Exhausted)
    else
      var c := s.queue[0];
      var results := Evaluate(digest, cfg.trailingZeros, c.lo, c.hi);
      var e := Emit(results, s.found, cfg.hashesNeeded);
      if e.stop then
        State(s.queue[1..], s.cursor, e.found, s.printed + e.lines, Satisfied)
      else
        State(s.queue[1..] + [Range(s.cursor, s.cursor + cfg.chunkSize)],
              s.cursor + cfg.chunkSize, e.found, s.printed + e.lines, Running)
  }

  /** The state after `fuel` iterations of the main loop. */
  function Run(cfg: Config, digest: nat -> string, fuel: nat): State {
    if fuel == 0 then Init(cfg) else Step(cfg, digest, Run(cfg, digest, fuel - 1))
  }
}
