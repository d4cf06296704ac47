/**
  `main` written as loops, the way the program runs it. First the fill loop
  pushes `threads` chunks. Then the `while let` loop pops the front handle,
  joins it and prints its matches one by one, returning as soon as the counter
  reaches `hashes_needed`. Otherwise it pushes the next chunk. The outer loop
  is cut off after `fuel` iterations, because the program's loop need not end.
 */
module Search {
  import opened Worker
  import opened Scheduler
  import opened SchedulerProofs

  /** The fill loop: push `threads` consecutive chunks starting at 1. */
  method FillQueue(cs: nat, threads: nat) returns (queue: seq<Range>, cursor: nat)
    ensures (queue, cursor) == Fill(cs, threads, [], 1)
    ensures |queue| == threads && IsChunkWindow(cs, 0, queue)
  {
    queue := [];
    cursor := 1;
    var t := 0;
    while t < threads
      invariant t <= threads
      invariant IsChunkWindow(cs, 0, queue) && cursor == 1 + |queue| * cs
      invariant Fill(cs, threads - t, queue, cursor) == Fill(cs, threads, [], 1)
    {
      assert cursor + cs == 1 + (|queue| + 1) * cs;
      queue := queue + [Range(cursor, cursor + cs)];
      cursor := cursor + cs;
      t := t + 1;
    }
  }

  /** The inner print loop: print each joined result and count it; return on
      the first line that brings the counter to `needed`. */
  method PrintChunk(results: seq<HashCase>, found: nat, needed: nat)
    returns (lines: seq<HashCase>, count: nat, stop: bool)
    ensures Emit(results, found, needed) == Emitted(lines, count, stop)
  {
    lines := [];
    count := found;
    stop := false;
    var j := 0;
    while j < |results|
      invariant j <= |results|
      invariant count == found + j
      invariant lines == results[..j]
      invariant j == 0 || count < needed
    {
      lines := lines + [results[j]];
      count := count + 1;
      j := j + 1;
      if count >= needed {
        stop := true;
        break;
      }
    }
    EmitMatchesLoop(results, found, needed, j, stop);
  }

  /** One iteration of the `while let` loop on the locals of `main`: pop and
      join the front chunk, print its matches, then either return or push the
      next chunk and advance the cursor. */
  method Iterate(cfg: Config, digest: nat -> string, queue: seq<Range>, cursor: nat, found: nat, printed: seq<HashCase>)
    returns (queue': seq<Range>, cursor': nat, found': nat, printed': seq<HashCase>, phase': Phase)
    ensures State(queue', cursor', found', printed', phase') == Step(cfg, digest, State(queue, cursor, found, printed, Running))
  {
    if |queue| == 0 {
      return queue, cursor, found, printed, Exhausted;
    }
    var c := queue[0];
    queue' := queue[1..];
    var results := ScanChunk(digest, cfg.trailingZeros, c.lo, c.hi);
    var lines, stop;
    lines, found', stop := PrintChunk(results, found, cfg.hashesNeeded);
    printed' := printed + lines;
    if stop {
      return queue', cursor, found', printed', Satisfied;
    }
    queue' := queue' + [Range(cursor, cursor + cfg.chunkSize)];
    cursor' := cursor + cfg.chunkSize;
    phase' := Running;
  }

  /** Runs the search for at most `fuel` iterations of the main loop and
      returns the printed lines and how the loop stands. */
  method SearchHashes(cfg: Config, digest: nat -> string, fuel: nat) returns (printed: seq<HashCase>, phase: Phase)
    ensures printed == Run(cfg, digest, fuel).printed
    ensures phase == Run(cfg, digest, fuel).phase
  {
    var queue, cursor := FillQueue(cfg.chunkSize, cfg.threads);
    var found: nat := 0;
    printed := [];
    phase := Running;

    var iterations := 0;
    while iterations < fuel && phase == Running
      invariant iterations <= fuel
      invariant State(queue, cursor, found, printed, phase) == Run(cfg, digest, iterations)
    {
      queue, cursor, found, printed, phase := Iterate(cfg, digest, queue, cursor, found, printed);
      iterations := iterations + 1;
    }
    if phase != Running {
      RunStable(cfg, digest, iterations, fuel);
    }
  }

  /** The inner print loop of `SearchHashes`, stopped after `j` lines, agrees
      with `Emit`: either it returned on line `j`, which was the first to bring
      the counter to `needed`, or it printed every line without reaching it. */
  lemma EmitMatchesLoop(results: seq<HashCase>, found: nat, needed: nat, j: nat, stopped: bool)
    requires j <= |results|
    requires stopped ==> 0 < j && found + j >= needed && (j == 1 || found + j - 1 < needed)
    requires !stopped ==> j == |results| && (j == 0 || found + j < needed)
    ensures Emit(results, found, needed) == Emitted(results[..j], found + j, stopped)
  {
  }
}
