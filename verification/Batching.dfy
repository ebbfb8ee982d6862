/** How generator runs are split into batches and seeded (cva6/verif/sim/cva6.py, SeedGen and
    do_simulate). */
module Batching {
  import opened Arithmetic
  import opened Wrappers

  /** One command: `+start_idx`, `+num_of_tests` and the seed. */
  datatype Batch = Batch(startIdx: int, testCnt: int, seed: int)

  datatype SeedGen = SeedGen(fixedSeed: Option<int>, startSeed: Option<int>, rerunSeed: map<string, int>) {
    /** `None` when the assertion on a fixed seed fails; `random` is what getrandbits would return. */
    function Get(testId: string, testIter: int, random: int): Option<int> {
      if testId in rerunSeed then Some(rerunSeed[testId])
      else if fixedSeed.Some? then (if testIter == 0 then fixedSeed else None)
      else if startSeed.Some? then Some(startSeed.value + testIter)
      else Some(random)
    }
  }

  /** A rerun seed goes first, then a fixed seed, which only the first batch may have, then the start seed
      plus the iteration, and a random one only when nothing is given. */
  lemma {:induction false} GetIs(g: SeedGen, testId: string, testIter: int, random: int)
    ensures testId in g.rerunSeed ==> g.Get(testId, testIter, random) == Some(g.rerunSeed[testId])
    ensures testId !in g.rerunSeed && g.fixedSeed.Some? ==>
              g.Get(testId, testIter, random) == if testIter == 0 then g.fixedSeed else None
    ensures testId !in g.rerunSeed && g.fixedSeed.None? && g.startSeed.Some? ==>
              g.Get(testId, testIter, random) == Some(g.startSeed.value + testIter)
    ensures testId !in g.rerunSeed && g.fixedSeed.None? && g.startSeed.None? ==>
              g.Get(testId, testIter, random) == Some(random)
  {}

  function BatchCnt(iterations: nat, batchSize: nat): nat {
    if batchSize > 0 then (iterations + batchSize - 1) / batchSize else 1
  }

  function StartIdx(batchSize: nat, i: nat): nat {
    i * batchSize
  }

  function TestCnt(iterations: nat, batchSize: nat, i: nat): int {
    if i < BatchCnt(iterations, batchSize) - 1 then batchSize else iterations - i * batchSize
  }

  /** Every batch that is not rerun gets the start seed plus `step` times its index. */
  ghost predicate CountsUpBy(g: SeedGen, testIds: seq<string>, randoms: seq<int>, step: nat)
    requires g.startSeed.Some? && |testIds| == |randoms|
  {
    forall i :: 0 <= i < |testIds| && testIds[i] !in g.rerunSeed ==>
                  g.Get(testIds[i], i * |testIds|, randoms[i]) == Some(g.startSeed.value + i * step)
  }

  predicate LaterBatchesRerun(g: SeedGen, testIds: seq<string>) {
    forall i :: 1 <= i < |testIds| ==> testIds[i] in g.rerunSeed
  }

  /** The seed assertion fails for some batch. */
  ghost predicate SeedFails(g: SeedGen, n: nat, testIds: seq<string>, randoms: seq<int>)
    requires |testIds| == |randoms| == n
  {
    exists i :: 0 <= i < n && g.Get(testIds[i], i * n, randoms[i]).None?
  }

  /** The loop over the batches of one test; `testIds` and `randoms` are what the batches are called
      and what the random source would say. */
  method DoSimulate(seedGen: SeedGen, iterations: nat, batchSize: nat, testIds: seq<string>, randoms: seq<int>)
    returns (batches: Option<seq<Batch>>)
    requires iterations > 0
    requires |testIds| == |randoms| == BatchCnt(iterations, batchSize)
    ensures var n := BatchCnt(iterations, batchSize);
            && (batches.None? <==> SeedFails(seedGen, n, testIds, randoms))
            && (batches.Some? ==> |batches.value| == n && forall i :: 0 <= i < n ==>
                  && batches.value[i].startIdx == StartIdx(batchSize, i)
                  && batches.value[i].testCnt == TestCnt(iterations, batchSize, i)
                  && seedGen.Get(testIds[i], i * n, randoms[i]) == Some(batches.value[i].seed))
  {
    var batchCnt := 1;
    if batchSize > 0 {
      batchCnt := (iterations + batchSize - 1) / batchSize;
    }
    var done: seq<Batch> := [];
    for i := 0 to batchCnt
      invariant |done| == i
      invariant forall k :: 0 <= k < i ==>
                  && done[k].startIdx == StartIdx(batchSize, k)
                  && done[k].testCnt == TestCnt(iterations, batchSize, k)
                  && seedGen.Get(testIds[k], k * batchCnt, randoms[k]) == Some(done[k].seed)
    {
      var seed := seedGen.Get(testIds[i], i * batchCnt, randoms[i]);
      if seed.None? {
        return None;
      }
      var testCnt := if i < batchCnt - 1 then batchSize as int else iterations - i * batchSize;
      done := done + [Batch(i * batchSize, testCnt, seed.value)];
    }
    return Some(done);
  }

  lemma {:induction false} CountBounds(iterations: nat, batchSize: nat)
    requires iterations > 0 && batchSize > 0
    ensures var n := BatchCnt(iterations, batchSize); n >= 1 && (n - 1) * batchSize < iterations <= n * batchSize
  {
    var n := BatchCnt(iterations, batchSize);
    var x := iterations + batchSize - 1;
    assert x / batchSize >= 1;
    assert x == n * batchSize + x % batchSize;
    MulNext(batchSize, n - 1);
  }

  /** The batches follow one another from 0 to the number of iterations. */
  lemma {:induction false} BatchesChain(iterations: nat, batchSize: nat, i: nat)
    requires iterations > 0 && i < BatchCnt(iterations, batchSize)
    ensures StartIdx(batchSize, 0) == 0
    ensures StartIdx(batchSize, i) + TestCnt(iterations, batchSize, i) ==
            if i + 1 < BatchCnt(iterations, batchSize) then StartIdx(batchSize, i + 1) else iterations
    ensures TestCnt(iterations, batchSize, i) >= 1
    ensures batchSize > 0 ==> TestCnt(iterations, batchSize, i) <= batchSize
  {
    if batchSize > 0 {
      CountBounds(iterations, batchSize);
      MulNext(batchSize, i);
    }
  }

  predicate InBatch(iterations: nat, batchSize: nat, i: nat, t: int) {
    StartIdx(batchSize, i) <= t < StartIdx(batchSize, i) + TestCnt(iterations, batchSize, i)
  }

  /** So every test index below the number of iterations is in exactly one batch, and no other is in
      any. */
  lemma {:induction false} BatchesPartition(iterations: nat, batchSize: nat, t: int, i: nat)
    requires iterations > 0 && i < BatchCnt(iterations, batchSize)
    ensures InBatch(iterations, batchSize, i, t) <==>
            0 <= t < iterations && i == if batchSize > 0 then t / batchSize else 0
  {
    BatchesChain(iterations, batchSize, i);
    if batchSize > 0 {
      CountBounds(iterations, batchSize);
      MulNext(batchSize, i);
      MulOrder(batchSize, i, BatchCnt(iterations, batchSize) - 1);
      if t >= 0 {
        Quotient(t, batchSize, i);
      } else {
        assert StartIdx(batchSize, i) >= 0;
      }
    }
  }

  lemma {:induction false} Quotient(t: int, b: nat, i: nat)
    requires b > 0
    ensures t >= 0 ==> (t / b == i <==> i * b <= t < i * b + b)
  {
    if t >= 0 {
      var q: nat := t / b;
      assert t == q * b + t % b;
      MulOrder(b, q, i);
      MulOrder(b, i, q);
    }
  }

  /** With a start seed, batches that are not rerun get different seeds. */
  lemma {:induction false} SeedsDiffer(g: SeedGen, n: nat, i: nat, j: nat, idI: string, idJ: string,
                                       randomI: int, randomJ: int)
    requires g.fixedSeed.None? && g.startSeed.Some? && i < j < n
    requires idI !in g.rerunSeed && idJ !in g.rerunSeed
    ensures g.Get(idI, i * n, randomI).Some? && g.Get(idI, i * n, randomI) != g.Get(idJ, j * n, randomJ)
  {
    assert j * n - i * n == (j - i) * n > 0;
  }

  lemma {:induction false} SameMultiple(i: nat, n: nat, m: nat)
    ensures i * n == i * m <==> i == 0 || n == m
  {
    if n < m {
      MulOrder(i, n, m);
    } else if m < n {
      MulOrder(i, m, n);
    }
  }

  /** With a start seed the seeds go up by a given step exactly when that is the number of batches, or
      when every batch but the first is rerun. */
  lemma {:induction false} StepIff(g: SeedGen, testIds: seq<string>, randoms: seq<int>, step: nat)
    requires g.fixedSeed.None? && g.startSeed.Some? && |testIds| == |randoms|
    ensures CountsUpBy(g, testIds, randoms, step) <==> |testIds| == step || LaterBatchesRerun(g, testIds)
  {
    var n := |testIds|;
    forall i | 0 <= i < n && testIds[i] !in g.rerunSeed
      ensures g.Get(testIds[i], i * n, randoms[i]) == Some(g.startSeed.value + i * step) <==> i == 0 || n == step
    {
      SameMultiple(i, n, step);
    }
  }

  /** The batches count up from the start seed exactly when there is one batch, or when every batch but
      the first is rerun. */
  lemma {:induction false} CountsUpIff(g: SeedGen, iterations: nat, batchSize: nat, testIds: seq<string>,
                                       randoms: seq<int>)
    requires g.fixedSeed.None? && g.startSeed.Some? && iterations > 0
    requires |testIds| == |randoms| == BatchCnt(iterations, batchSize)
    ensures CountsUpBy(g, testIds, randoms, 1) <==>
            (0 < batchSize < iterations ==> LaterBatchesRerun(g, testIds))
    ensures g.rerunSeed == map[] ==> (CountsUpBy(g, testIds, randoms, 1) <==> !(0 < batchSize < iterations))
  {
    StepIff(g, testIds, randoms, 1);
    MoreThanOneBatch(iterations, batchSize);
    AtLeastOneBatch(iterations, batchSize);
    if |testIds| > 1 && g.rerunSeed == map[] {
      assert testIds[1] !in g.rerunSeed;
    }
  }

  /** Three iterations in batches of one from seed s: the second batch gets s + 3 and not s + 1. */
  lemma {:induction false} SkipsSeeds(s: int, testIds: seq<string>, randoms: seq<int>)
    requires |testIds| == |randoms| == BatchCnt(3, 1)
    ensures var g := SeedGen(None, Some(s), map[]);
            && |testIds| == 3 && g.Get(testIds[1], 1 * |testIds|, randoms[1]) == Some(s + 3)
            && !CountsUpBy(g, testIds, randoms, 1)
  {
    CountsUpIff(SeedGen(None, Some(s), map[]), 3, 1, testIds, randoms);
  }

  lemma {:induction false} AtLeastOneBatch(iterations: nat, batchSize: nat)
    requires iterations > 0
    ensures BatchCnt(iterations, batchSize) >= 1
  {
    if batchSize > 0 {
      CountBounds(iterations, batchSize);
    }
  }

  /** With a fixed seed the assertion fails exactly when some batch but the first is not rerun; with
      nothing to rerun, exactly when there is more than one batch, which the command line rules out by
      allowing one iteration. */
  lemma {:induction false} FixedSeedFailsIff(g: SeedGen, iterations: nat, batchSize: nat, testIds: seq<string>,
                                             randoms: seq<int>)
    requires g.fixedSeed.Some? && iterations > 0
    requires |testIds| == |randoms| == BatchCnt(iterations, batchSize)
    ensures SeedFails(g, |testIds|, testIds, randoms) <==>
            exists i :: 1 <= i < |testIds| && testIds[i] !in g.rerunSeed
    ensures g.rerunSeed == map[] ==> (SeedFails(g, |testIds|, testIds, randoms) <==> 0 < batchSize < iterations)
  {
    var n := |testIds|;
    forall i | 0 <= i < n
      ensures g.Get(testIds[i], i * n, randoms[i]).None? <==> i >= 1 && testIds[i] !in g.rerunSeed
    {
      MulOrder(n, 0, i);
    }
    MoreThanOneBatch(iterations, batchSize);
    if g.rerunSeed == map[] && n > 1 {
      assert testIds[1] !in g.rerunSeed;
    }
  }

  lemma {:induction false} MoreThanOneBatch(iterations: nat, batchSize: nat)
    requires iterations > 0
    ensures BatchCnt(iterations, batchSize) > 1 <==> 0 < batchSize < iterations
  {
    if batchSize > 0 {
      CountBounds(iterations, batchSize);
      MulOrder(batchSize, 0, BatchCnt(iterations, batchSize) - 1);
    }
  }
}
