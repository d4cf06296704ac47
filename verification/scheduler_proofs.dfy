/**
  What the main loop guarantees. The printed lines are always the first
  matching integers from 1 upward, in ascending order, each once. The loop
  returns right after the line that makes the count reach the number of
  hashes needed. So the output of a run that returns does not depend on the
  number of threads or on the chunk size.
 */
module SchedulerProofs {
  import opened Worker
  import opened Scheduler

  function Max(a: nat, b: nat): nat {
    if a < b then b else a
  }

  ghost predicate IsPrefix(p: seq<HashCase>, q: seq<HashCase>) {
    |p| <= |q| && p == q[..|p|]
  }

  /** Queued ranges have the chunk size, and each starts where the previous one ends. */
  ghost predicate Contiguous(cs: nat, queue: seq<Range>) {
    && (forall k :: 0 <= k < |queue| ==> queue[k].hi == queue[k].lo + cs)
    && (forall k :: 0 < k < |queue| ==> queue[k - 1].hi == queue[k].lo)
  }

  /** The state invariant of the main loop. */
  ghost predicate Inv(cfg: Config, digest: nat -> string, s: State) {
    var n := cfg.trailingZeros;
    && s.found == |s.printed|
    && match s.phase
       case Running =>
         && |s.queue| == cfg.threads
         && Contiguous(cfg.chunkSize, s.queue)
         && (|s.queue| == 0 ==> s.printed == [])
         && (|s.queue| > 0 ==>
               && 1 <= s.queue[0].lo
               && s.queue[|s.queue| - 1].hi == s.cursor
               && s.printed == Evaluate(digest, n, 1, s.queue[0].lo))
         && (s.found == 0 || s.found < cfg.hashesNeeded)
       case Exhausted =>
         s.printed == [] && cfg.threads == 0
       case Satisfied =>
         && |s.printed| == Max(1, cfg.hashesNeeded)
         && s.printed == Evaluate(digest, n, 1, s.printed[|s.printed| - 1].input + 1)
  }

  /** The state the loop starts in satisfies the invariant. */
  lemma InitInv(cfg: Config, digest: nat -> string)
    ensures Inv(cfg, digest, Init(cfg))
  {
    var s := Init(cfg);
    var cs := cfg.chunkSize;
    if |s.queue| > 0 {
      var t := |s.queue| - 1;
      assert s.queue[t] == ChunkAt(cs, t);
      assert 1 + t * cs + cs == 1 + cfg.threads * cs;
      assert s.queue[0] == ChunkAt(cs, 0);
    }
    forall k | 0 < k < |s.queue|
      ensures s.queue[k - 1].hi == s.queue[k].lo
    {
      assert s.queue[k - 1] == ChunkAt(cs, k - 1) && s.queue[k] == ChunkAt(cs, k);
      assert (k - 1) * cs + cs == k * cs;
    }
  }

  /** The early return happens on the line that brings the counter to
      `max(1, needed)`, provided the counter was below that before the chunk. */
  lemma EmitStopCount(results: seq<HashCase>, found: nat, needed: nat)
    requires found == 0 || found < needed
    requires Emit(results, found, needed).stop
    ensures Emit(results, found, needed).found == Max(1, needed)
  {
  }

  /** Printing a non-empty prefix of the front chunk's matches after the
      matches of all earlier chunks yields the scan up to the last printed input. */
  lemma PrintCut(digest: nat -> string, n: nat, lo: nat, hi: nat, k: nat)
    requires 1 <= lo
    requires 0 < k <= |Evaluate(digest, n, lo, hi)|
    ensures var p := Evaluate(digest, n, 1, lo) + Evaluate(digest, n, lo, hi)[..k];
      p == Evaluate(digest, n, 1, p[|p| - 1].input + 1)
  {
    var results := Evaluate(digest, n, lo, hi);
    EvaluateCut(digest, n, lo, hi, k);
    var last := results[k - 1].input;
    EvaluateSplit(digest, n, 1, lo, last + 1);
    var p := Evaluate(digest, n, 1, lo) + results[..k];
    assert p[|p| - 1] == results[k - 1];
  }

  /** The iteration that takes the early return leaves the first
      `max(1, hashes_needed)` matches printed. */
  lemma StepStopInv(cfg: Config, digest: nat -> string, s: State)
    requires Inv(cfg, digest, s)
    requires s.phase == Running && |s.queue| > 0
    requires Step(cfg, digest, s).phase == Satisfied
    ensures Inv(cfg, digest, Step(cfg, digest, s))
  {
    var n := cfg.trailingZeros;
    var c := s.queue[0];
    var results := Evaluate(digest, n, c.lo, c.hi);
    var e := Emit(results, s.found, cfg.hashesNeeded);
    var t := Step(cfg, digest, s);
    assert e.stop && t.printed == s.printed + e.lines && t.found == e.found;
    EmitStopCount(results, s.found, cfg.hashesNeeded);
    PrintCut(digest, n, c.lo, c.hi, |e.lines|);
  }

  /** An iteration that prints the whole front chunk and queues the next one
      keeps the queue contiguous and the output equal to the scan up to the new
      front chunk. */
  lemma StepContinueInv(cfg: Config, digest: nat -> string, s: State)
    requires Inv(cfg, digest, s)
    requires s.phase == Running && |s.queue| > 0
    requires Step(cfg, digest, s).phase == Running
    ensures Inv(cfg, digest, Step(cfg, digest, s))
  {
    var n := cfg.trailingZeros;
    var cs := cfg.chunkSize;
    var c := s.queue[0];
    var results := Evaluate(digest, n, c.lo, c.hi);
    var e := Emit(results, s.found, cfg.hashesNeeded);
    var t := Step(cfg, digest, s);
    assert !e.stop && t.printed == s.printed + results;
    assert t.queue == s.queue[1..] + [Range(s.cursor, s.cursor + cs)];
    EvaluateSplit(digest, n, 1, c.lo, c.hi);
    assert t.printed == Evaluate(digest, n, 1, c.hi);
    if |s.queue| > 1 {
      assert t.queue[0] == s.queue[1];
    }
    assert t.queue[0].lo == c.hi;
    forall k | 0 < k < |t.queue|
      ensures t.queue[k - 1].hi == t.queue[k].lo
    {
      if k < |t.queue| - 1 {
        assert t.queue[k - 1] == s.queue[k] && t.queue[k] == s.queue[k + 1];
      }
    }
  }

  /** Every iteration of the main loop preserves the invariant. */
  lemma StepPreservesInv(cfg: Config, digest: nat -> string, s: State)
    requires Inv(cfg, digest, s)
    ensures Inv(cfg, digest, Step(cfg, digest, s))
  {
    if s.phase == Running && |s.queue| > 0 {
      if Step(cfg, digest, s).phase == Satisfied {
        StepStopInv(cfg, digest, s);
      } else {
        StepContinueInv(cfg, digest, s);
      }
    }
  }

  /** The invariant holds after any number of iterations. */
  lemma {:induction false} RunInv(cfg: Config, digest: nat -> string, fuel: nat)
    ensures Inv(cfg, digest, Run(cfg, digest, fuel))
  {
    if fuel == 0 {
      InitInv(cfg, digest);
    } else {
      RunInv(cfg, digest, fuel - 1);
      StepPreservesInv(cfg, digest, Run(cfg, digest, fuel - 1));
    }
  }

  /** Once the loop has ended, further iterations change nothing. */
  lemma {:induction false} RunStable(cfg: Config, digest: nat -> string, f: nat, g: nat)
    requires f <= g
    requires Run(cfg, digest, f).phase != Running
    ensures Run(cfg, digest, g) == Run(cfg, digest, f)
    decreases g
  {
    if g > f {
      RunStable(cfg, digest, f, g - 1);
    }
  }

  /** While the loop runs, after `fuel` iterations the queue holds chunks number
      `fuel` to `fuel + threads - 1` of the sequence starting at 1, and the
      cursor is where chunk `fuel + threads` will start: each iteration removes
      the front chunk and issues the next one, so no chunk is skipped and, when
      the chunk size is at least 1 (`ChunksDisjoint`), none is issued twice. */
  lemma {:induction false} RunShape(cfg: Config, digest: nat -> string, fuel: nat)
    ensures var s := Run(cfg, digest, fuel);
      s.phase == Running ==>
        && |s.queue| == cfg.threads
        && IsChunkWindow(cfg.chunkSize, fuel, s.queue)
        && s.cursor == 1 + (fuel + cfg.threads) * cfg.chunkSize
  {
    var cs := cfg.chunkSize;
    if fuel > 0 {
      var p := Run(cfg, digest, fuel - 1);
      var s := Run(cfg, digest, fuel);
      RunShape(cfg, digest, fuel - 1);
      if s.phase == Running {
        assert p.phase == Running && |p.queue| > 0;
        assert s.queue == p.queue[1..] + [Range(p.cursor, p.cursor + cs)];
        assert (fuel - 1 + cfg.threads) * cs + cs == (fuel + cfg.threads) * cs;
        forall j | 0 <= j < |s.queue|
          ensures s.queue[j] == ChunkAt(cs, fuel + j)
        {
          if j < |s.queue| - 1 {
            assert s.queue[j] == p.queue[j + 1];
          } else {
            assert fuel + j == fuel - 1 + cfg.threads;
          }
        }
      }
    }
  }

  /** With a positive chunk size, distinct chunks never overlap and consecutive
      chunks leave no gap. */
  lemma {:induction false} ChunksDisjoint(cs: nat, j: nat, k: nat)
    requires cs >= 1 && j < k
    ensures ChunkAt(cs, j).hi <= ChunkAt(cs, k).lo
    ensures ChunkAt(cs, j).lo < ChunkAt(cs, k).lo
    ensures k == j + 1 ==> ChunkAt(cs, j).hi == ChunkAt(cs, k).lo
    decreases k
  {
    assert (k - 1) * cs + cs == k * cs;
    if k > j + 1 {
      ChunksDisjoint(cs, j, k - 1);
    }
  }

  /** The concatenated matches of chunks number 0 to `k - 1`, in dispatch order. */
  function ChunkOutputs(cfg: Config, digest: nat -> string, k: nat): seq<HashCase> {
    if k == 0 then []
    else
      var c := ChunkAt(cfg.chunkSize, k - 1);
      ChunkOutputs(cfg, digest, k - 1) + Evaluate(digest, cfg.trailingZeros, c.lo, c.hi)
  }

  /** Concatenating the chunks' matches is scanning their union. */
  lemma {:induction false} ChunkOutputsIsScan(cfg: Config, digest: nat -> string, k: nat)
    ensures ChunkOutputs(cfg, digest, k) == Evaluate(digest, cfg.trailingZeros, 1, 1 + k * cfg.chunkSize)
  {
    if k > 0 {
      ChunkOutputsIsScan(cfg, digest, k - 1);
      var c := ChunkAt(cfg.chunkSize, k - 1);
      assert c.hi == 1 + k * cfg.chunkSize;
      EvaluateSplit(digest, cfg.trailingZeros, 1, c.lo, c.hi);
    }
  }

  /** One iteration appends to the output a prefix of the front chunk's
      matches, and all of them if the loop goes on. */
  lemma StepPrintsFrontChunk(cfg: Config, digest: nat -> string, s: State)
    requires s.phase == Running && |s.queue| > 0
    ensures var t := Step(cfg, digest, s);
      var out := Evaluate(digest, cfg.trailingZeros, s.queue[0].lo, s.queue[0].hi);
      && |s.printed| <= |t.printed|
      && t.printed[..|s.printed|] == s.printed
      && IsPrefix(t.printed[|s.printed|..], out)
      && (t.phase == Running ==> t.printed == s.printed + out)
  {
  }

  /** The inductive step of `RunPrintsChunkOutputs`, on states: if the output so
      far is a prefix of `prev` (all of it while running) and `c` is the front
      chunk, the next output is a prefix of `prev` followed by the matches of
      `c` (all of that if the loop goes on). */
  lemma StepExtendsPrefix(cfg: Config, digest: nat -> string, p: State, prev: seq<HashCase>, c: Range)
    requires IsPrefix(p.printed, prev)
    requires p.phase == Running ==> p.printed == prev
    requires p.phase == Running && |p.queue| > 0 ==> p.queue[0] == c
    ensures var t := Step(cfg, digest, p);
      var all := prev + Evaluate(digest, cfg.trailingZeros, c.lo, c.hi);
      && IsPrefix(t.printed, all)
      && (t.phase == Running ==> t.printed == all)
  {
  }

  /** The printed lines after `fuel` iterations are a prefix of the matches of
      the first `fuel` chunks in dispatch order, and all of them while the loop
      still runs. */
  lemma {:induction false} RunPrintsChunkOutputs(cfg: Config, digest: nat -> string, fuel: nat)
    ensures IsPrefix(Run(cfg, digest, fuel).printed, ChunkOutputs(cfg, digest, fuel))
    ensures Run(cfg, digest, fuel).phase == Running ==>
      Run(cfg, digest, fuel).printed == ChunkOutputs(cfg, digest, fuel)
  {
    if fuel > 0 {
      RunPrintsChunkOutputs(cfg, digest, fuel - 1);
      RunShape(cfg, digest, fuel - 1);
      var p := Run(cfg, digest, fuel - 1);
      var c := ChunkAt(cfg.chunkSize, fuel - 1);
      if p.phase == Running && |p.queue| > 0 {
        assert p.queue[0] == c;
      }
      StepExtendsPrefix(cfg, digest, p, ChunkOutputs(cfg, digest, fuel - 1), c);
    }
  }

  /** A state satisfying the invariant has printed an initial run of the
      matching integers from 1. */
  lemma InvPrintsFirstMatches(cfg: Config, digest: nat -> string, s: State)
    requires Inv(cfg, digest, s)
    ensures s.printed == [] || s.printed == Evaluate(digest, cfg.trailingZeros, 1, s.printed[|s.printed| - 1].input + 1)
  {
    if s.phase == Running && |s.printed| > 0 {
      EvaluateCut(digest, cfg.trailingZeros, 1, s.queue[0].lo, |s.printed|);
      assert s.printed[..|s.printed|] == s.printed;
    }
  }

  /** Whatever has been printed so far is an initial run of the matching
      integers from 1: ascending, genuine, and with no matching integer below
      the last printed one left out. */
  lemma RunPrintsFirstMatches(cfg: Config, digest: nat -> string, fuel: nat)
    ensures var p := Run(cfg, digest, fuel).printed;
      p == [] || p == Evaluate(digest, cfg.trailingZeros, 1, p[|p| - 1].input + 1)
  {
    RunInv(cfg, digest, fuel);
    InvPrintsFirstMatches(cfg, digest, Run(cfg, digest, fuel));
  }

  /** `found` counts the printed lines, and at most `hashes_needed` lines are
      printed, except that one line is printed when `hashes_needed` is 0. */
  lemma PrintedBounded(cfg: Config, digest: nat -> string, fuel: nat)
    ensures Run(cfg, digest, fuel).found == |Run(cfg, digest, fuel).printed|
    ensures |Run(cfg, digest, fuel).printed| <= Max(1, cfg.hashesNeeded)
  {
    RunInv(cfg, digest, fuel);
  }

  /** After the early return, the output is exactly the `hashes_needed` smallest
      matching integers from 1 (one when `hashes_needed` is 0), ascending. */
  lemma SatisfiedOutput(cfg: Config, digest: nat -> string, fuel: nat)
    requires Run(cfg, digest, fuel).phase == Satisfied
    ensures var p := Run(cfg, digest, fuel).printed;
      && |p| == Max(1, cfg.hashesNeeded)
      && StrictlyAscending(p)
      && SoundFor(digest, cfg.trailingZeros, 1, p[|p| - 1].input + 1, p)
      && CompleteFor(digest, cfg.trailingZeros, 1, p[|p| - 1].input + 1, p)
  {
    RunInv(cfg, digest, fuel);
    var p := Run(cfg, digest, fuel).printed;
    EvaluateSpec(digest, cfg.trailingZeros, 1, p[|p| - 1].input + 1);
  }

  /** The output of a run that returns depends only on the trailing-zero count
      and the number of hashes needed, not on the thread count or chunk size. */
  lemma OutputIndependentOfScheduling(c1: Config, c2: Config, digest: nat -> string, f1: nat, f2: nat)
    requires c1.trailingZeros == c2.trailingZeros && c1.hashesNeeded == c2.hashesNeeded
    requires Run(c1, digest, f1).phase == Satisfied
    requires Run(c2, digest, f2).phase == Satisfied
    ensures Run(c1, digest, f1).printed == Run(c2, digest, f2).printed
  {
    RunInv(c1, digest, f1);
    RunInv(c2, digest, f2);
    var p1 := Run(c1, digest, f1).printed;
    var p2 := Run(c2, digest, f2).printed;
    EvaluateSameLength(digest, c1.trailingZeros, 1, p1[|p1| - 1].input + 1, p2[|p2| - 1].input + 1);
  }

  /** With at least one thread and a positive chunk size, once the first `fuel`
      chunks, the ones joined so far, cover a range holding enough matches, the
      loop has returned. */
  lemma RunReachesSatisfied(cfg: Config, digest: nat -> string, fuel: nat, m: nat)
    requires cfg.threads >= 1 && cfg.chunkSize >= 1
    requires 1 <= m <= 1 + fuel * cfg.chunkSize
    requires |Evaluate(digest, cfg.trailingZeros, 1, m)| >= Max(1, cfg.hashesNeeded)
    ensures Run(cfg, digest, fuel).phase == Satisfied
  {
    var s := Run(cfg, digest, fuel);
    RunInv(cfg, digest, fuel);
    RunShape(cfg, digest, fuel);
    if s.phase == Running {
      assert s.queue[0] == ChunkAt(cfg.chunkSize, fuel);
      EvaluatePrefix(digest, cfg.trailingZeros, 1, m, s.queue[0].lo);
    }
  }

  /** With no threads the queue starts empty: the loop ends at once and prints nothing. */
  lemma NoThreadsPrintsNothing(cfg: Config, digest: nat -> string, fuel: nat)
    requires cfg.threads == 0
    ensures Run(cfg, digest, fuel).printed == []
    ensures fuel >= 1 ==> Run(cfg, digest, fuel).phase == Exhausted
  {
  }
}
