/** Retry accounting (`ragzoom/telemetry_analysis.py`): what the counters of a run add up to. */
module RetryAnalysis {
  import opened Options

  datatype Attempt = Attempt(startTime: real, endTime: real)

  /** A telemetry node; missing attempt lists are empty. */
  datatype NodeTelemetry = NodeTelemetry(height: int, attempts: seq<Attempt>, accepted: Option<int>)

  datatype Counters = Counters(
    totalAttempts: int,
    successfulAttempts: int,
    retryAttempts: int,
    successfulRetries: int,
    nodesWithRetries: int,
    totalNodes: int,
    buckets: map<int, int>,
    maxRetries: int,
    retryTime: real,
    rejectedTime: real)

  datatype Report = Report(counters: Counters, retryRate: real, retrySuccessRate: real,
                           avgRetriesPerNode: real, avgTimePerRetry: real)

  /** The node records one of its attempts as accepted. */
  predicate RecordIsValid(node: NodeTelemetry) {
    node.accepted.Some? && 0 <= node.accepted.value < |node.attempts|
  }

  /** The index of the accepted attempt: the recorded one if it is valid, else the last. */
  function AcceptedIndex(node: NodeTelemetry): (i: int)
    ensures node.attempts == [] ==> i == -1
    ensures RecordIsValid(node) ==> i == node.accepted.value
    ensures node.attempts != [] && !RecordIsValid(node) ==> i == |node.attempts| - 1
  {
    if node.attempts == [] then -1
    else if node.accepted.Some? && 0 <= node.accepted.value < |node.attempts| then node.accepted.value
    else |node.attempts| - 1
  }

  function Duration(a: Attempt): real {
    if a.endTime > a.startTime then a.endTime - a.startTime else 0.0
  }

  // ----- the quantities, defined one by one -----

  predicate IsSummarized(node: NodeTelemetry) {
    node.height != 0 && node.attempts != []
  }

  ghost function Summarized(nodes: seq<NodeTelemetry>): seq<NodeTelemetry> {
    if nodes == [] then [] else
      var last := nodes[|nodes| - 1];
      Summarized(nodes[..|nodes| - 1]) + (if IsSummarized(last) then [last] else [])
  }

  /** The time of the attempts after the first; with `rejected`, of those that were not accepted. */
  ghost function TimeOfRetries(node: NodeTelemetry, n: nat, rejected: bool): real
    requires n <= |node.attempts|
  {
    if n <= 1 then 0.0 else
      TimeOfRetries(node, n - 1, rejected)
      + (if rejected && n - 1 == AcceptedIndex(node) then 0.0 else Duration(node.attempts[n - 1]))
  }

  ghost function SumInts(s: seq<NodeTelemetry>, f: NodeTelemetry -> int): int {
    if s == [] then 0 else SumInts(s[..|s| - 1], f) + f(s[|s| - 1])
  }

  ghost function SumTimes(s: seq<NodeTelemetry>, rejected: bool): real {
    if s == [] then 0.0 else
      var last := s[|s| - 1];
      SumTimes(s[..|s| - 1], rejected) + TimeOfRetries(last, |last.attempts|, rejected)
  }

  function Bucket(node: NodeTelemetry): int {
    var retries := |node.attempts| - 1;
    if retries < 3 then retries else 3
  }

  function InBucket(b: int): NodeTelemetry -> int {
    (node: NodeTelemetry) => if Bucket(node) == b then 1 else 0
  }

  function Retries(): NodeTelemetry -> int {
    (node: NodeTelemetry) => |node.attempts| - 1
  }

  function AcceptedLate(): NodeTelemetry -> int {
    (node: NodeTelemetry) => if AcceptedIndex(node) > 0 then 1 else 0
  }

  /** The counters are the quantities of the summarized nodes `s`. */
  ghost predicate Counts(c: Counters, s: seq<NodeTelemetry>) {
    && CountsAttempts(c, s)
    && CountsBuckets(c, s)
    && c.retryTime == SumTimes(s, false) && c.rejectedTime == SumTimes(s, true)
    && IsMost(c.maxRetries, s)
  }

  ghost predicate CountsAttempts(c: Counters, s: seq<NodeTelemetry>) {
    && c.totalNodes == |s| == c.successfulAttempts
    && c.retryAttempts == SumInts(s, Retries())
    && c.totalAttempts == |s| + c.retryAttempts
    && c.successfulRetries == SumInts(s, AcceptedLate())
  }

  ghost predicate CountsBuckets(c: Counters, s: seq<NodeTelemetry>) {
    && c.buckets.Keys == {0, 1, 2, 3}
    && (forall b :: 0 <= b <= 3 ==> c.buckets[b] == SumInts(s, InBucket(b)))
    && c.nodesWithRetries == |s| - c.buckets[0]
  }

  /** `most` is the largest number of retries, 0 if there are no nodes. */
  ghost predicate IsMost(most: int, s: seq<NodeTelemetry>) {
    && most >= 0
    && (forall i :: 0 <= i < |s| ==> |s[i].attempts| - 1 <= most)
    && (most > 0 ==> exists i :: 0 <= i < |s| && |s[i].attempts| - 1 == most)
  }

  /** The attempts of one node: how many there are, how many are retries, which count as accepted, and how
      long they took. */
  method CountAttempts(node: NodeTelemetry)
    returns (attempts: int, accepted: int, retries: int, acceptedRetries: int, retryTime: real, rejectedTime: real)
    requires node.attempts != []
    ensures attempts == |node.attempts| && accepted == 1 && retries == |node.attempts| - 1
    ensures acceptedRetries == AcceptedLate()(node)
    ensures retryTime == TimeOfRetries(node, |node.attempts|, false)
    ensures rejectedTime == TimeOfRetries(node, |node.attempts|, true)
  {
    attempts, accepted, retries, acceptedRetries, retryTime, rejectedTime := 0, 0, 0, 0, 0.0, 0.0;
    var acceptedIdx := AcceptedIndex(node);
    for i := 0 to |node.attempts|
      invariant attempts == i && retries == (if i == 0 then 0 else i - 1)
      invariant accepted == if i > acceptedIdx then 1 else 0
      invariant acceptedRetries == if i > acceptedIdx && acceptedIdx > 0 then 1 else 0
      invariant retryTime == TimeOfRetries(node, i, false) && rejectedTime == TimeOfRetries(node, i, true)
    {
      attempts := attempts + 1;
      var isAccepted := i == acceptedIdx;
      var attemptTime := Duration(node.attempts[i]);
      if i > 0 {
        retries := retries + 1;
        retryTime := retryTime + attemptTime;
        if isAccepted {
          acceptedRetries := acceptedRetries + 1;
        } else {
          rejectedTime := rejectedTime + attemptTime;
        }
      }
      if isAccepted { accepted := accepted + 1; }
    }
  }

  /** The counters after one more summarized node. */
  function Tally(c: Counters, node: NodeTelemetry, retryTime: real, rejectedTime: real): Counters
    requires node.attempts != [] && c.buckets.Keys == {0, 1, 2, 3}
  {
    var retries := |node.attempts| - 1;
    Counters(
      c.totalAttempts + |node.attempts|,
      c.successfulAttempts + 1,
      c.retryAttempts + retries,
      c.successfulRetries + AcceptedLate()(node),
      c.nodesWithRetries + (if retries > 0 then 1 else 0),
      c.totalNodes + 1,
      c.buckets[Bucket(node) := c.buckets[Bucket(node)] + 1],
      if c.maxRetries < retries then retries else c.maxRetries,
      c.retryTime + retryTime,
      c.rejectedTime + rejectedTime)
  }

  method CountNode(c: Counters, node: NodeTelemetry) returns (more: Counters)
    requires node.attempts != [] && c.buckets.Keys == {0, 1, 2, 3}
    ensures more
            == Tally(c, node, TimeOfRetries(node, |node.attempts|, false), TimeOfRetries(node, |node.attempts|, true))
  {
    var attempts, accepted, retries, acceptedRetries, retryTime, rejectedTime := CountAttempts(node);
    var bucket := if retries < 3 then retries else 3;
    more := Counters(
      c.totalAttempts + attempts,
      c.successfulAttempts + accepted,
      c.retryAttempts + retries,
      c.successfulRetries + acceptedRetries,
      c.nodesWithRetries + (if retries > 0 then 1 else 0),
      c.totalNodes + 1,
      c.buckets[bucket := c.buckets[bucket] + 1],
      if c.maxRetries < retries then retries else c.maxRetries,
      c.retryTime + retryTime,
      c.rejectedTime + rejectedTime);
  }

  method CountNodes(nodes: seq<NodeTelemetry>) returns (c: Counters)
    ensures Counts(c, Summarized(nodes))
  {
    c := Counters(0, 0, 0, 0, 0, 0, map[0 := 0, 1 := 0, 2 := 0, 3 := 0], 0, 0.0, 0.0);
    assert Counts(c, Summarized([]));
    hide *;
    for i := 0 to |nodes|
      invariant Counts(c, Summarized(nodes[..i]))
    {
      SummarizedMore(nodes, i);
      BucketKeys(c, Summarized(nodes[..i]));
      if nodes[i].height == 0 { continue; }
      if nodes[i].attempts == [] { continue; }
      CountOneMore(c, Summarized(nodes[..i]), nodes[i]);
      c := CountNode(c, nodes[i]);
    }
    assert nodes[..|nodes|] == nodes;
  }

  method AnalyzeRetryPatterns(nodes: seq<NodeTelemetry>) returns (r: Report)
    ensures Counts(r.counters, Summarized(nodes))
    ensures var c := r.counters;
            && r.retryRate
                 == (if c.totalNodes > 0 then c.nodesWithRetries as real / c.totalNodes as real * 100.0 else 0.0)
            && r.avgRetriesPerNode == (if c.totalNodes > 0 then c.retryAttempts as real / c.totalNodes as real else 0.0)
            && r.retrySuccessRate
               == (if c.retryAttempts > 0 then c.successfulRetries as real / c.retryAttempts as real * 100.0 else 0.0)
            && r.avgTimePerRetry == (if c.retryAttempts > 0 then c.retryTime / c.retryAttempts as real else 0.0)
  {
    hide Counts;
    var c := CountNodes(nodes);
    r := Report(c, 0.0, 0.0, 0.0, 0.0);
    if c.totalNodes > 0 {
      r := r.(retryRate := c.nodesWithRetries as real / c.totalNodes as real * 100.0,
              avgRetriesPerNode := c.retryAttempts as real / c.totalNodes as real);
    }
    if c.retryAttempts > 0 {
      r := r.(retrySuccessRate := c.successfulRetries as real / c.retryAttempts as real * 100.0,
              avgTimePerRetry := c.retryTime / c.retryAttempts as real);
    }
  }

  lemma SummarizedMore(nodes: seq<NodeTelemetry>, i: nat)
    requires i < |nodes|
    ensures Summarized(nodes[..i + 1])
         == if nodes[i].height == 0 || nodes[i].attempts == [] then Summarized(nodes[..i])
            else Summarized(nodes[..i]) + [nodes[i]]
  {
    assert nodes[..i + 1][..i] == nodes[..i];
  }

  lemma BucketKeys(c: Counters, s: seq<NodeTelemetry>)
    requires Counts(c, s)
    ensures c.buckets.Keys == {0, 1, 2, 3}
  {
  }

  lemma SumMore(s: seq<NodeTelemetry>, node: NodeTelemetry, f: NodeTelemetry -> int)
    ensures SumInts(s + [node], f) == SumInts(s, f) + f(node)
  {
    assert (s + [node])[..|s|] == s;
  }

  lemma SumTimesMore(s: seq<NodeTelemetry>, node: NodeTelemetry, rejected: bool)
    ensures SumTimes(s + [node], rejected) == SumTimes(s, rejected) + TimeOfRetries(node, |node.attempts|, rejected)
  {
    assert (s + [node])[..|s|] == s;
  }

  lemma MostMore(most: int, s: seq<NodeTelemetry>, node: NodeTelemetry)
    requires IsMost(most, s)
    ensures IsMost(if most < |node.attempts| - 1 then |node.attempts| - 1 else most, s + [node])
  {
    assert (s + [node])[|s|] == node;
    if i :| 0 <= i < |s| && |s[i].attempts| - 1 == most { assert (s + [node])[i] == s[i]; }
  }

  lemma CountOneMore(c: Counters, s: seq<NodeTelemetry>, node: NodeTelemetry)
    requires Counts(c, s) && node.attempts != []
    ensures c.buckets.Keys == {0, 1, 2, 3}
    ensures Counts(Tally(c, node, TimeOfRetries(node, |node.attempts|, false),
                         TimeOfRetries(node, |node.attempts|, true)),
                   s + [node])
  {
    hide SumInts;
    hide SumTimes;
    hide IsMost;
    hide TimeOfRetries;
    SumMore(s, node, Retries());
    SumMore(s, node, AcceptedLate());
    forall b | 0 <= b <= 3 ensures SumInts(s + [node], InBucket(b)) == SumInts(s, InBucket(b)) + InBucket(b)(node) {
      SumMore(s, node, InBucket(b));
    }
    SumTimesMore(s, node, false);
    SumTimesMore(s, node, true);
    MostMore(c.maxRetries, s, node);
  }

  // ----- the times in start and end times -----

  /** A later attempt adds the time from its start to its end, if it ends later; if it is accepted, not to the
      rejected time. */
  lemma TimeOfOneMore(node: NodeTelemetry, n: nat)
    requires 1 <= n < |node.attempts|
    ensures TimeOfRetries(node, 0, false) == TimeOfRetries(node, 1, false) == 0.0
    ensures TimeOfRetries(node, 0, true) == TimeOfRetries(node, 1, true) == 0.0
    ensures var a := node.attempts[n];
            var took := if a.startTime < a.endTime then a.endTime - a.startTime else 0.0;
            && TimeOfRetries(node, n + 1, false) == TimeOfRetries(node, n, false) + took
            && TimeOfRetries(node, n + 1, true)
               == TimeOfRetries(node, n, true) + if n == AcceptedIndex(node) then 0.0 else took
  {
  }

  lemma OneSummarized(node: NodeTelemetry)
    requires node.height != 0 && node.attempts != []
    ensures Summarized([node]) == [node]
  {
    SummarizedMore([node], 0);
    assert [node][..1] == [node] && [node][..0] == [] && [] + [node] == [node];
  }

  lemma SumOfOne(node: NodeTelemetry, f: NodeTelemetry -> int)
    ensures SumInts([node], f) == f(node)
  {
    SumMore([], node, f);
    assert [] + [node] == [node];
  }

  lemma SumTimesOfOne(node: NodeTelemetry, rejected: bool)
    ensures SumTimes([node], rejected) == TimeOfRetries(node, |node.attempts|, rejected)
  {
    SumTimesMore([], node, rejected);
    assert [] + [node] == [node];
  }

  /** A run of one node with one retry: its time is that retry's, rejected unless the retry is the accepted attempt. */
  lemma OneRetry(c: Counters, node: NodeTelemetry)
    requires Counts(c, Summarized([node])) && node.height != 0 && |node.attempts| == 2
    ensures c.totalNodes == 1 && c.retryAttempts == 1 && c.maxRetries == 1 && c.nodesWithRetries == 1
    ensures var retry := node.attempts[1];
            c.retryTime == if retry.startTime < retry.endTime then retry.endTime - retry.startTime else 0.0
    ensures c.rejectedTime == if node.accepted == Some(0) then c.retryTime else 0.0
    ensures c.successfulRetries == if node.accepted == Some(0) then 0 else 1
  {
    OneSummarized(node);
    TimeOfOneMore(node, 1);
    assert [node][0] == node;
    hide SumInts;
    hide SumTimes;
    hide Summarized;
    hide TimeOfRetries;
    SumOfOne(node, Retries());
    SumOfOne(node, AcceptedLate());
    SumOfOne(node, InBucket(0));
    SumTimesOfOne(node, false);
    SumTimesOfOne(node, true);
  }

  // ----- conservation -----

  lemma {:induction false} BucketsAddUp(s: seq<NodeTelemetry>)
    requires forall node :: node in s ==> node.attempts != []
    ensures SumInts(s, InBucket(0)) + SumInts(s, InBucket(1)) + SumInts(s, InBucket(2)) + SumInts(s, InBucket(3)) == |s|
    ensures 0 <= SumInts(s, AcceptedLate()) <= |s| - SumInts(s, InBucket(0)) <= SumInts(s, Retries())
  {
    if s != [] {
      BucketsAddUp(s[..|s| - 1]);
      assert s[|s| - 1] in s;
    }
  }

  lemma {:induction false} RejectedTimeBound(node: NodeTelemetry, n: nat)
    requires n <= |node.attempts|
    ensures 0.0 <= TimeOfRetries(node, n, true) <= TimeOfRetries(node, n, false)
  {
    if n > 1 { RejectedTimeBound(node, n - 1); }
  }

  lemma {:induction false} RejectedTimesBound(s: seq<NodeTelemetry>)
    ensures 0.0 <= SumTimes(s, true) <= SumTimes(s, false)
  {
    if s != [] {
      RejectedTimesBound(s[..|s| - 1]);
      RejectedTimeBound(s[|s| - 1], |s[|s| - 1].attempts|);
    }
  }

  lemma {:induction false} SummarizedHaveAttempts(nodes: seq<NodeTelemetry>)
    ensures forall node :: node in Summarized(nodes) ==> node.attempts != []
  {
    if nodes != [] { SummarizedHaveAttempts(nodes[..|nodes| - 1]); }
  }

  /** The counters of any run satisfy the balance equations. */
  lemma RetryAccountingBalances(c: Counters, nodes: seq<NodeTelemetry>)
    requires Counts(c, Summarized(nodes))
    ensures c.successfulAttempts == c.totalNodes && c.totalAttempts == c.totalNodes + c.retryAttempts
    ensures c.buckets[0] + c.buckets[1] + c.buckets[2] + c.buckets[3] == c.totalNodes
    ensures c.nodesWithRetries == c.totalNodes - c.buckets[0]
    ensures 0 <= c.successfulRetries <= c.nodesWithRetries <= c.retryAttempts
    ensures 0.0 <= c.rejectedTime <= c.retryTime
  {
    SummarizedHaveAttempts(nodes);
    BucketsAddUp(Summarized(nodes));
    RejectedTimesBound(Summarized(nodes));
  }
}
