/** The progress total of an indexing run (`ragzoom/progress.py`): level sizes by repeated halving. */
module Progress {
  import opened Powers

  /** The sizes of all levels above one of `n` nodes, added up. */
  function InternalNodes(n: int): int {
    if n <= 1 then 0 else (n + 1) / 2 + InternalNodes((n + 1) / 2)
  }

  /** The number of levels above the leaves. */
  function Levels(n: int): nat {
    if n <= 1 then 0 else 1 + Levels((n + 1) / 2)
  }

  /** `math.ceil(a / b)` for a positive `b`. */
  function CeilDiv(a: int, b: int): (q: int)
    requires b > 0
    ensures (q - 1) * b < a <= q * b
  {
    var q := (a + b - 1) / b;
    assert a + b - 1 == b * q + (a + b - 1) % b;
    assert (q - 1) * b == b * q - b;
    q
  }

  /** `steps` counts the passes of the loop. */
  method CalculateTotalOperations(numLeaves: int, embeddingBatchSize: int) returns (total: int, ghost steps: nat)
    requires embeddingBatchSize > 0
    ensures steps == Levels(numLeaves)
    ensures var others, batches := numLeaves + InternalNodes(numLeaves) - 1, total - InternalNodes(numLeaves);
            (batches - 2) * embeddingBatchSize < others <= (batches - 1) * embeddingBatchSize
  {
    steps := 0;
    var internalNodes := 0;
    var levelSize := numLeaves;
    while levelSize > 1
      invariant internalNodes + InternalNodes(levelSize) == InternalNodes(numLeaves)
      invariant steps + Levels(levelSize) == Levels(numLeaves)
    {
      levelSize := (levelSize + 1) / 2;
      internalNodes := internalNodes + levelSize;
      steps := steps + 1;
    }
    var totalNodes := numLeaves + internalNodes;
    var embeddingBatches;
    if totalNodes == 1 {
      embeddingBatches := 1;
    } else {
      embeddingBatches := CeilDiv(totalNodes - 1, embeddingBatchSize) + 1;
    }
    total := internalNodes + embeddingBatches;
  }

  /** The halving ends after the binary logarithm of the leaf count, rounded up. */
  lemma {:induction false} LevelsAreLogarithm(n: nat)
    requires n >= 1
    ensures n <= Pow2(Levels(n)) && (n > 1 ==> Pow2(Levels(n) - 1) < n)
  {
    if n > 1 {
      var m := (n + 1) / 2;
      LevelsAreLogarithm(m);
      Pow2Unfold(Levels(m));
      if m > 1 { Pow2Unfold(Levels(m) - 1); }
    }
  }

  /** The levels hold at least as many nodes as a binary tree needs, and at most one more per level. */
  lemma {:induction false} InternalNodesBound(n: nat)
    requires n >= 1
    ensures n - 1 <= InternalNodes(n) <= n - 1 + Levels(n)
    ensures InternalNodes(n) == n - 1 <==> n == Pow2(Levels(n))
  {
    if n > 1 {
      var m := (n + 1) / 2;
      InternalNodesBound(m);
      Pow2Unfold(Levels(m));
    }
  }
}
