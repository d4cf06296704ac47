/**
  The chunk evaluator: the body of the worker thread. It scans a half-open
  range `[lo, hi)` of integers in ascending order, hashes each one and keeps a
  `HashCase` for every integer whose digest satisfies the match predicate.

  The hash (SHA-256 of the integer's decimal text) is not modelled: the
  `digest` parameter stands for it, and every statement below holds for any
  such function.
 */
module Worker {
  import opened TrailingZeros

  /** One match: the integer and the digest it produced. */
  datatype HashCase = HashCase(input: nat, digest: string)

  /** Inputs strictly increase along the sequence (so none repeats). */
  ghost predicate StrictlyAscending(cases: seq<HashCase>) {
    forall j, k :: 0 <= j < k < |cases| ==> cases[j].input < cases[k].input
  }

  /** Every record is a genuine match from `[lo, hi)`. */
  ghost predicate SoundFor(digest: nat -> string, n: nat, lo: nat, hi: nat, cases: seq<HashCase>) {
    forall j :: 0 <= j < |cases| ==>
      && lo <= cases[j].input < hi
      && cases[j].digest == digest(cases[j].input)
      && Matches(cases[j].digest, n)
  }

  /** Every matching integer of `[lo, hi)` is recorded. */
  ghost predicate CompleteFor(digest: nat -> string, n: nat, lo: nat, hi: nat, cases: seq<HashCase>) {
    forall i :: lo <= i < hi && Matches(digest(i), n) ==> exists j :: 0 <= j < |cases| && cases[j].input == i
  }

  /** What scanning one integer contributes. */
  function Probe(digest: nat -> string, n: nat, i: nat): seq<HashCase> {
    if Matches(digest(i), n) then [HashCase(i, digest(i))] else []
  }

  /** The matches of `[lo, hi)` in scanning order. An empty or reversed range
      (`hi <= lo`) yields nothing, as an empty Rust range does. */
  function Evaluate(digest: nat -> string, n: nat, lo: nat, hi: nat): seq<HashCase>
    decreases hi
  {
    if hi <= lo then [] else Evaluate(digest, n, lo, hi - 1) + Probe(digest, n, hi - 1)
  }

  /** Soundness: every returned record is a match from the range, with its digest. */
  lemma {:induction false} EvaluateSound(digest: nat -> string, n: nat, lo: nat, hi: nat)
    ensures SoundFor(digest, n, lo, hi, Evaluate(digest, n, lo, hi))
    decreases hi
  {
    if hi > lo {
      EvaluateSound(digest, n, lo, hi - 1);
      var prev := Evaluate(digest, n, lo, hi - 1);
      var last := Probe(digest, n, hi - 1);
      var r := prev + last;
      forall j | 0 <= j < |r|
        ensures lo <= r[j].input < hi && r[j].digest == digest(r[j].input) && Matches(r[j].digest, n)
      {
        if j < |prev| {
          assert r[j] == prev[j];
        } else {
          assert r[j] == last[j - |prev|];
        }
      }
    }
  }

  /** Ordering: the returned inputs strictly increase, so each appears once. */
  lemma {:induction false} EvaluateAscending(digest: nat -> string, n: nat, lo: nat, hi: nat)
    ensures StrictlyAscending(Evaluate(digest, n, lo, hi))
    decreases hi
  {
    if hi > lo {
      EvaluateAscending(digest, n, lo, hi - 1);
      EvaluateSound(digest, n, lo, hi - 1);
      var prev := Evaluate(digest, n, lo, hi - 1);
      var last := Probe(digest, n, hi - 1);
      var r := prev + last;
      forall j, k | 0 <= j < k < |r|
        ensures r[j].input < r[k].input
      {
        if k < |prev| {
          assert r[j] == prev[j] && r[k] == prev[k];
        } else {
          assert r[j] == prev[j] && r[k] == last[0];
        }
      }
    }
  }

  /** Completeness: every matching integer of the range is returned. */
  lemma {:induction false} EvaluateComplete(digest: nat -> string, n: nat, lo: nat, hi: nat)
    ensures CompleteFor(digest, n, lo, hi, Evaluate(digest, n, lo, hi))
    decreases hi
  {
    if hi > lo {
      EvaluateComplete(digest, n, lo, hi - 1);
      var prev := Evaluate(digest, n, lo, hi - 1);
      var last := Probe(digest, n, hi - 1);
      var r := prev + last;
      forall i | lo <= i < hi && Matches(digest(i), n)
        ensures exists j :: 0 <= j < |r| && r[j].input == i
      {
        if i < hi - 1 {
          var j :| 0 <= j < |prev| && prev[j].input == i;
          assert r[j] == prev[j];
        } else {
          assert r[|prev|] == last[0];
        }
      }
    }
  }

  /** The evaluator is sound, complete and ordered: it returns every matching
      integer of the range, each once, in ascending order, with its digest. */
  lemma EvaluateSpec(digest: nat -> string, n: nat, lo: nat, hi: nat)
    ensures SoundFor(digest, n, lo, hi, Evaluate(digest, n, lo, hi))
    ensures CompleteFor(digest, n, lo, hi, Evaluate(digest, n, lo, hi))
    ensures StrictlyAscending(Evaluate(digest, n, lo, hi))
  {
    EvaluateSound(digest, n, lo, hi);
    EvaluateComplete(digest, n, lo, hi);
    EvaluateAscending(digest, n, lo, hi);
  }

  /** The worker loop itself: scan the range upward, pushing each match. It
      computes the reference scan `Evaluate`, so `EvaluateSpec` describes it. */
  method ScanChunk(digest: nat -> string, n: nat, lo: nat, hi: nat) returns (results: seq<HashCase>)
    ensures results == Evaluate(digest, n, lo, hi)
  {
    results := [];
    if hi <= lo {
      return;
    }
    var i := lo;
    while i < hi
      invariant lo <= i <= hi
      invariant results == Evaluate(digest, n, lo, i)
    {
      var d := digest(i);
      if Matches(d, n) {
        results := results + [HashCase(i, d)];
      }
      i := i + 1;
    }
  }

  /** Scanning `[lo, hi)` is scanning `[lo, mid)` then `[mid, hi)`. */
  lemma {:induction false} EvaluateSplit(digest: nat -> string, n: nat, lo: nat, mid: nat, hi: nat)
    requires lo <= mid <= hi
    ensures Evaluate(digest, n, lo, hi) == Evaluate(digest, n, lo, mid) + Evaluate(digest, n, mid, hi)
    decreases hi
  {
    if hi > mid {
      EvaluateSplit(digest, n, lo, mid, hi - 1);
    }
  }

  /** Scanning further never removes an earlier match. */
  lemma EvaluatePrefix(digest: nat -> string, n: nat, lo: nat, m1: nat, m2: nat)
    requires lo <= m1 <= m2
    ensures |Evaluate(digest, n, lo, m1)| <= |Evaluate(digest, n, lo, m2)|
    ensures Evaluate(digest, n, lo, m1) == Evaluate(digest, n, lo, m2)[..|Evaluate(digest, n, lo, m1)|]
  {
  }

  /** In a strictly ascending concatenation `a + b` whose `a` part lies below
      `m` and whose `b` part lies at or above `m`, the element with input
      `m - 1` is the last one of `a`. */
  lemma SplitAtBound(r: seq<HashCase>, a: seq<HashCase>, b: seq<HashCase>, m: nat, k: nat)
    requires r == a + b && StrictlyAscending(r)
    requires forall j :: 0 <= j < |a| ==> a[j].input < m
    requires forall j :: 0 <= j < |b| ==> b[j].input >= m
    requires 0 < k <= |r| && r[k - 1].input + 1 == m
    ensures |a| == k
  {
    assert forall j :: 0 <= j < |a| ==> r[j] == a[j];
    assert forall j :: |a| <= j < |r| ==> r[j] == b[j - |a|];
    assert r[k - 1].input < m;
    if k < |r| {
      assert r[k - 1].input < r[k].input;
    }
  }

  /** A non-empty prefix of a chunk's matches is itself the scan of the range
      ending just after its last input: stopping part-way through a chunk
      leaves no matching integer behind. */
  lemma EvaluateCut(digest: nat -> string, n: nat, lo: nat, hi: nat, k: nat)
    requires 0 < k <= |Evaluate(digest, n, lo, hi)|
    ensures var r := Evaluate(digest, n, lo, hi);
      lo <= r[k - 1].input < hi && r[..k] == Evaluate(digest, n, lo, r[k - 1].input + 1)
  {
    var r := Evaluate(digest, n, lo, hi);
    EvaluateSound(digest, n, lo, hi);
    EvaluateAscending(digest, n, lo, hi);
    var m := r[k - 1].input + 1;
    EvaluateSound(digest, n, lo, m);
    EvaluateSound(digest, n, m, hi);
    EvaluateSplit(digest, n, lo, m, hi);
    var a := Evaluate(digest, n, lo, m);
    var b := Evaluate(digest, n, m, hi);
    SplitAtBound(r, a, b, m, k);
    assert r[..k] == a;
  }

  /** Two scans from the same start that found equally many matches are the same scan. */
  lemma EvaluateSameLength(digest: nat -> string, n: nat, lo: nat, m1: nat, m2: nat)
    requires lo <= m1 && lo <= m2
    requires |Evaluate(digest, n, lo, m1)| == |Evaluate(digest, n, lo, m2)|
    ensures Evaluate(digest, n, lo, m1) == Evaluate(digest, n, lo, m2)
  {
    if m1 <= m2 {
      EvaluatePrefix(digest, n, lo, m1, m2);
    } else {
      EvaluatePrefix(digest, n, lo, m2, m1);
    }
  }
}
