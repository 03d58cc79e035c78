/** The histograms of `ml-service/app/service_metrics.py`: how they are accumulated and how they are rendered. */
module ServiceMetrics {
  import opened Numbers

  /** A bucket bound; `Infinite` renders as "+Inf". */
  datatype Bound = Finite(value: real) | Infinite

  predicate Fits(x: real, b: Bound) {
    b.Infinite? || x <= b.value
  }

  predicate Below(a: Bound, b: Bound) {
    b.Infinite? || (a.Finite? && a.value <= b.value)
  }

  /** Bounds in increasing order, the last one infinite. */
  predicate Increasing(bounds: seq<Bound>) {
    && bounds != [] && bounds[|bounds| - 1] == Infinite
    && forall i, j :: 0 <= i < j < |bounds| ==> bounds[i] != bounds[j] && Below(bounds[i], bounds[j])
  }

  const LATENCY_BUCKETS: seq<Bound> :=
    [Finite(0.01), Finite(0.025), Finite(0.05), Finite(0.1), Finite(0.25), Finite(0.5), Finite(1.0), Infinite]

  const BATCH_BUCKETS: seq<Bound> :=
    [Finite(1.0), Finite(4.0), Finite(8.0), Finite(16.0), Finite(32.0), Finite(64.0), Finite(128.0), Infinite]

  /** One call of `observe_request`, as far as the histograms and the request counter go. */
  datatype Observation = Observation(endpoint: string, status: string, latency: real, batchSize: int)

  // ----- What the counters should be -----

  /** The observed quantity of one of the two histograms. */
  datatype Quantity = Latency | Batch

  function Value(o: Observation, q: Quantity): real {
    if q.Latency? then o.latency else o.batchSize as real
  }

  /** How many observations of the endpoint are at or below the bound. */
  ghost function CountBelow(log: seq<Observation>, endpoint: string, q: Quantity, b: Bound): nat {
    if log == [] then 0
    else
      var o := log[|log| - 1];
      CountBelow(log[..|log| - 1], endpoint, q, b) + if o.endpoint == endpoint && Fits(Value(o, q), b) then 1 else 0
  }

  ghost function CountStatus(log: seq<Observation>, endpoint: string, status: string): nat {
    if log == [] then 0
    else
      var o := log[|log| - 1];
      CountStatus(log[..|log| - 1], endpoint, status) + if o.endpoint == endpoint && o.status == status then 1 else 0
  }

  lemma {:induction false} CountMore(log: seq<Observation>, o: Observation, endpoint: string, q: Quantity, b: Bound)
    ensures CountBelow(log + [o], endpoint, q, b)
         == CountBelow(log, endpoint, q, b) + if o.endpoint == endpoint && Fits(Value(o, q), b) then 1 else 0
  {
    assert (log + [o])[..|log|] == log;
  }

  lemma {:induction false} StatusMore(log: seq<Observation>, o: Observation, endpoint: string, status: string)
    ensures CountStatus(log + [o], endpoint, status)
         == CountStatus(log, endpoint, status) + if o.endpoint == endpoint && o.status == status then 1 else 0
  {
    assert (log + [o])[..|log|] == log;
  }

  /** A larger bound admits at least as many. */
  lemma {:induction false} CountGrows(log: seq<Observation>, endpoint: string, q: Quantity, a: Bound, b: Bound)
    requires Below(a, b)
    ensures CountBelow(log, endpoint, q, a) <= CountBelow(log, endpoint, q, b)
    decreases |log|
  {
    if log != [] {
      CountGrows(log[..|log| - 1], endpoint, q, a, b);
    }
  }

  // ----- Dictionaries of counters -----

  type Buckets = map<(string, Bound), nat>

  /** `defaultdict(int)`: a missing counter is zero. */
  function Get<K>(m: map<K, nat>, k: K): nat {
    if k in m then m[k] else 0
  }

  /** A counter is there exactly when it is not zero. */
  ghost predicate BucketsCount(m: Buckets, log: seq<Observation>, q: Quantity, bounds: seq<Bound>) {
    && (forall endpoint: string, b :: b in bounds ==> Get(m, (endpoint, b)) == CountBelow(log, endpoint, q, b))
    && (forall key :: key in m ==> m[key] > 0)
  }

  ghost predicate EndpointsCount(m: map<string, nat>, log: seq<Observation>, q: Quantity) {
    && (forall endpoint: string :: Get(m, endpoint) == CountBelow(log, endpoint, q, Infinite))
    && (forall key :: key in m ==> m[key] > 0)
  }

  ghost predicate StatusesCount(m: map<(string, string), nat>, log: seq<Observation>) {
    && (forall endpoint: string, status: string :: Get(m, (endpoint, status)) == CountStatus(log, endpoint, status))
    && (forall key :: key in m ==> m[key] > 0)
  }

  /** The bucket loop of `observe_request`: every bucket the value fits is incremented. */
  method AddToBuckets(m: Buckets, endpoint: string, x: real, bounds: seq<Bound>) returns (m': Buckets)
    requires Increasing(bounds)
    ensures forall e: string, b ::
              Get(m', (e, b)) == Get(m, (e, b)) + if e == endpoint && b in bounds && Fits(x, b) then 1 else 0
    ensures (forall key :: key in m ==> m[key] > 0) ==> forall key :: key in m' ==> m'[key] > 0
  {
    m' := m;
    for i := 0 to |bounds|
      invariant forall e: string, b ::
                  Get(m', (e, b)) == Get(m, (e, b)) + if e == endpoint && b in bounds[..i] && Fits(x, b) then 1 else 0
      invariant (forall key :: key in m ==> m[key] > 0) ==> forall key :: key in m' ==> m'[key] > 0
    {
      var bucket := bounds[i];
      assert bucket !in bounds[..i];
      assert bounds[..i + 1] == bounds[..i] + [bucket];
      if Fits(x, bucket) {
        m' := m'[(endpoint, bucket) := Get(m', (endpoint, bucket)) + 1];
      }
    }
    assert bounds[..|bounds|] == bounds;
  }

  method CountBuckets(m: Buckets, o: Observation, ghost log: seq<Observation>, q: Quantity, bounds: seq<Bound>)
    returns (m': Buckets)
    requires Increasing(bounds) && BucketsCount(m, log, q, bounds)
    ensures BucketsCount(m', log + [o], q, bounds)
  {
    m' := AddToBuckets(m, o.endpoint, Value(o, q), bounds);
    BucketsAfter(m, m', log, o, q, bounds);
  }

  method CountEndpoint(m: map<string, nat>, o: Observation, ghost log: seq<Observation>, q: Quantity)
    returns (m': map<string, nat>)
    requires EndpointsCount(m, log, q)
    ensures EndpointsCount(m', log + [o], q)
  {
    m' := m[o.endpoint := Get(m, o.endpoint) + 1];
    EndpointsAfter(m, m', log, o, q);
  }

  method CountRequest(m: map<(string, string), nat>, o: Observation, ghost log: seq<Observation>)
    returns (m': map<(string, string), nat>)
    requires StatusesCount(m, log)
    ensures StatusesCount(m', log + [o])
  {
    m' := m[(o.endpoint, o.status) := Get(m, (o.endpoint, o.status)) + 1];
    StatusesAfter(m, m', log, o);
  }

  // ----- The service's metrics -----

  class Metrics {
    var requestTotal: map<(string, string), nat>
    var latencyBucketTotal: Buckets
    var latencyCount: map<string, nat>
    var batchBucketTotal: Buckets
    var batchCount: map<string, nat>
    ghost var log: seq<Observation>

    /** Every counter counts the observations made. */
    ghost predicate Valid()
      reads this
    {
      && StatusesCount(requestTotal, log)
      && BucketsCount(latencyBucketTotal, log, Latency, LATENCY_BUCKETS) && EndpointsCount(latencyCount, log, Latency)
      && BucketsCount(batchBucketTotal, log, Batch, BATCH_BUCKETS) && EndpointsCount(batchCount, log, Batch)
    }

    constructor ()
      ensures Valid() && log == []
    {
      requestTotal, latencyBucketTotal, latencyCount, batchBucketTotal, batchCount := map[], map[], map[], map[], map[];
      log := [];
    }

    method ObserveRequest(o: Observation)
      requires Valid()
      modifies this
      ensures Valid() && log == old(log) + [o]
    {
      BoundsIncrease();
      hide StatusesCount, BucketsCount, EndpointsCount, LATENCY_BUCKETS, BATCH_BUCKETS, Increasing;
      requestTotal := CountRequest(requestTotal, o, log);
      latencyCount := CountEndpoint(latencyCount, o, log, Latency);
      latencyBucketTotal := CountBuckets(latencyBucketTotal, o, log, Latency, LATENCY_BUCKETS);
      batchCount := CountEndpoint(batchCount, o, log, Batch);
      batchBucketTotal := CountBuckets(batchBucketTotal, o, log, Batch, BATCH_BUCKETS);
      log := log + [o];
    }

    /** The lines of one endpoint's latency histogram: one a bucket, then the count. */
    method RenderLatency(endpoint: string) returns (lines: seq<nat>, count: nat)
      requires Valid() && endpoint in latencyCount
      ensures RendersHistogram(lines, count, log, endpoint, Latency, LATENCY_BUCKETS)
      ensures RendersLatency(lines, count, log, endpoint)
    {
      BoundsIncrease();
      RenderedLatency(log, endpoint);
      hide LATENCY_BUCKETS;
      lines := RenderBuckets(latencyBucketTotal, endpoint, LATENCY_BUCKETS, log, Latency);
      count := latencyCount[endpoint];
    }

    method RenderBatch(endpoint: string) returns (lines: seq<nat>, count: nat)
      requires Valid() && endpoint in batchCount
      ensures RendersHistogram(lines, count, log, endpoint, Batch, BATCH_BUCKETS)
      ensures RendersBatch(lines, count, log, endpoint)
    {
      BoundsIncrease();
      RenderedBatch(log, endpoint);
      hide BATCH_BUCKETS;
      lines := RenderBuckets(batchBucketTotal, endpoint, BATCH_BUCKETS, log, Batch);
      count := batchCount[endpoint];
    }
  }

  /** Each line counts the observations at or below its bound, and the count is that of all of them. */
  ghost predicate RendersHistogram(lines: seq<nat>, count: nat, log: seq<Observation>, endpoint: string, q: Quantity,
                                   bounds: seq<Bound>) {
    && |lines| == |bounds|
    && (forall k :: 0 <= k < |bounds| ==> lines[k] == CountBelow(log, endpoint, q, bounds[k]))
    && count == CountBelow(log, endpoint, q, Infinite)
  }

  /** The rendering loop: a missing counter repeats the line before it. */
  method RenderBuckets(m: Buckets, endpoint: string, bounds: seq<Bound>, ghost log: seq<Observation>, ghost q: Quantity)
    returns (lines: seq<nat>)
    requires Increasing(bounds) && BucketsCount(m, log, q, bounds)
    ensures |lines| == |bounds| && forall k :: 0 <= k < |bounds| ==> lines[k] == CountBelow(log, endpoint, q, bounds[k])
  {
    lines := [];
    var cumulative := 0;
    for k := 0 to |bounds|
      invariant |lines| == k && forall l :: 0 <= l < k ==> lines[l] == CountBelow(log, endpoint, q, bounds[l])
      invariant cumulative == if k == 0 then 0 else CountBelow(log, endpoint, q, bounds[k - 1])
    {
      var key := (endpoint, bounds[k]);
      if k > 0 {
        CountGrows(log, endpoint, q, bounds[k - 1], bounds[k]);
      }
      cumulative := if key in m then m[key] else cumulative;
      assert bounds[k] in bounds && Get(m, key) == CountBelow(log, endpoint, q, bounds[k]);
      lines := lines + [cumulative];
    }
  }

  lemma {:induction false} BoundsIncrease()
    ensures Increasing(LATENCY_BUCKETS) && Increasing(BATCH_BUCKETS)
  {
    LatencyIncreases();
    BatchIncreases();
    hide Increasing, LATENCY_BUCKETS, BATCH_BUCKETS;
  }

  lemma {:induction false} LatencyIncreases()
    ensures Increasing(LATENCY_BUCKETS)
  {
  }

  lemma {:induction false} BatchIncreases()
    ensures Increasing(BATCH_BUCKETS)
  {
  }

  lemma {:induction false} StatusesAfter(m: map<(string, string), nat>, m': map<(string, string), nat>,
                                         log: seq<Observation>, o: Observation)
    requires StatusesCount(m, log) && m' == m[(o.endpoint, o.status) := Get(m, (o.endpoint, o.status)) + 1]
    ensures StatusesCount(m', log + [o])
  {
    forall endpoint: string, status: string
      ensures Get(m', (endpoint, status)) == CountStatus(log + [o], endpoint, status)
    {
      StatusMore(log, o, endpoint, status);
    }
  }

  lemma {:induction false} EndpointsAfter(m: map<string, nat>, m': map<string, nat>, log: seq<Observation>,
                                          o: Observation, q: Quantity)
    requires EndpointsCount(m, log, q) && m' == m[o.endpoint := Get(m, o.endpoint) + 1]
    ensures EndpointsCount(m', log + [o], q)
  {
    forall endpoint: string
      ensures Get(m', endpoint) == CountBelow(log + [o], endpoint, q, Infinite)
    {
      CountMore(log, o, endpoint, q, Infinite);
    }
  }

  lemma {:induction false} BucketsAfter(m: Buckets, m': Buckets, log: seq<Observation>, o: Observation, q: Quantity,
                                        bounds: seq<Bound>)
    requires BucketsCount(m, log, q, bounds)
    requires forall e: string, b ::
               Get(m', (e, b))
               == Get(m, (e, b)) + if e == o.endpoint && b in bounds && Fits(Value(o, q), b) then 1 else 0
    requires forall key :: key in m' ==> m'[key] > 0
    ensures BucketsCount(m', log + [o], q, bounds)
  {
    forall endpoint: string, b | b in bounds
      ensures Get(m', (endpoint, b)) == CountBelow(log + [o], endpoint, q, b)
    {
      CountMore(log, o, endpoint, q, b);
    }
  }

  // ----- The numbers of observations -----

  ghost function Of(log: seq<Observation>, endpoint: string): set<nat> {
    set i: nat | i < |log| && log[i].endpoint == endpoint
  }

  ghost function LatencyUpTo(log: seq<Observation>, endpoint: string, seconds: real): set<nat> {
    set i: nat | i < |log| && log[i].endpoint == endpoint && log[i].latency <= seconds
  }

  ghost function BatchUpTo(log: seq<Observation>, endpoint: string, size: int): set<nat> {
    set i: nat | i < |log| && log[i].endpoint == endpoint && log[i].batchSize <= size
  }

  ghost function WithStatus(log: seq<Observation>, endpoint: string, status: string): set<nat> {
    set i: nat | i < |log| && log[i].endpoint == endpoint && log[i].status == status
  }

  lemma {:induction false} LatencySize(log: seq<Observation>, endpoint: string, seconds: real)
    ensures CountBelow(log, endpoint, Latency, Finite(seconds)) == |LatencyUpTo(log, endpoint, seconds)|
    decreases |log|
  {
    if log != [] {
      var n := |log| - 1;
      LatencySize(log[..n], endpoint, seconds);
      var before := LatencyUpTo(log[..n], endpoint, seconds);
      if log[n].endpoint == endpoint && log[n].latency <= seconds {
        assert LatencyUpTo(log, endpoint, seconds) == before + {n} && n !in before;
      } else {
        assert LatencyUpTo(log, endpoint, seconds) == before;
      }
    }
  }

  lemma {:induction false} BatchSize(log: seq<Observation>, endpoint: string, size: int)
    ensures CountBelow(log, endpoint, Batch, Finite(size as real)) == |BatchUpTo(log, endpoint, size)|
    decreases |log|
  {
    if log != [] {
      var n := |log| - 1;
      BatchSize(log[..n], endpoint, size);
      var before := BatchUpTo(log[..n], endpoint, size);
      if log[n].endpoint == endpoint && log[n].batchSize <= size {
        assert BatchUpTo(log, endpoint, size) == before + {n} && n !in before;
      } else {
        assert BatchUpTo(log, endpoint, size) == before;
      }
    }
  }

  lemma {:induction false} AllSize(log: seq<Observation>, endpoint: string, q: Quantity)
    ensures CountBelow(log, endpoint, q, Infinite) == |Of(log, endpoint)|
    decreases |log|
  {
    if log != [] {
      var n := |log| - 1;
      AllSize(log[..n], endpoint, q);
      var before := Of(log[..n], endpoint);
      if log[n].endpoint == endpoint {
        assert Of(log, endpoint) == before + {n} && n !in before;
      } else {
        assert Of(log, endpoint) == before;
      }
    }
  }

  /** A request counter is the number of observations with its endpoint and status. */
  lemma {:induction false} StatusSize(log: seq<Observation>, endpoint: string, status: string)
    ensures CountStatus(log, endpoint, status) == |WithStatus(log, endpoint, status)|
    decreases |log|
  {
    if log != [] {
      var n := |log| - 1;
      StatusSize(log[..n], endpoint, status);
      var before := WithStatus(log[..n], endpoint, status);
      if log[n].endpoint == endpoint && log[n].status == status {
        assert WithStatus(log, endpoint, status) == before + {n} && n !in before;
      } else {
        assert WithStatus(log, endpoint, status) == before;
      }
    }
  }

  ghost predicate RendersLatency(lines: seq<nat>, count: nat, log: seq<Observation>, endpoint: string) {
    && lines == [
         |LatencyUpTo(log, endpoint, 0.01)|, |LatencyUpTo(log, endpoint, 0.025)|, |LatencyUpTo(log, endpoint, 0.05)|,
         |LatencyUpTo(log, endpoint, 0.1)|, |LatencyUpTo(log, endpoint, 0.25)|, |LatencyUpTo(log, endpoint, 0.5)|,
         |LatencyUpTo(log, endpoint, 1.0)|, |Of(log, endpoint)|]
    && count == |Of(log, endpoint)|
  }

  ghost predicate RendersBatch(lines: seq<nat>, count: nat, log: seq<Observation>, endpoint: string) {
    && lines == [
         |BatchUpTo(log, endpoint, 1)|, |BatchUpTo(log, endpoint, 4)|, |BatchUpTo(log, endpoint, 8)|,
         |BatchUpTo(log, endpoint, 16)|, |BatchUpTo(log, endpoint, 32)|, |BatchUpTo(log, endpoint, 64)|,
         |BatchUpTo(log, endpoint, 128)|, |Of(log, endpoint)|]
    && count == |Of(log, endpoint)|
  }

  lemma {:induction false} RenderedLatency(log: seq<Observation>, endpoint: string)
    ensures forall lines, count :: RendersHistogram(lines, count, log, endpoint, Latency, LATENCY_BUCKETS) ==>
              RendersLatency(lines, count, log, endpoint)
  {
    LatencySize(log, endpoint, 0.01);
    LatencySize(log, endpoint, 0.025);
    LatencySize(log, endpoint, 0.05);
    LatencySize(log, endpoint, 0.1);
    LatencySize(log, endpoint, 0.25);
    LatencySize(log, endpoint, 0.5);
    LatencySize(log, endpoint, 1.0);
    AllSize(log, endpoint, Latency);
    hide CountBelow, LatencyUpTo, Of;
  }

  lemma {:induction false} RenderedBatch(log: seq<Observation>, endpoint: string)
    ensures forall lines, count :: RendersHistogram(lines, count, log, endpoint, Batch, BATCH_BUCKETS) ==>
              RendersBatch(lines, count, log, endpoint)
  {
    BatchSize(log, endpoint, 1);
    BatchSize(log, endpoint, 4);
    BatchSize(log, endpoint, 8);
    BatchSize(log, endpoint, 16);
    BatchSize(log, endpoint, 32);
    BatchSize(log, endpoint, 64);
    BatchSize(log, endpoint, 128);
    AllSize(log, endpoint, Batch);
    hide CountBelow, BatchUpTo, Of;
  }

  // ----- What a rendered histogram satisfies -----

  /** The buckets never decrease, and the +Inf bucket is the count. */
  lemma {:induction false} HistogramIsCumulative(lines: seq<nat>, count: nat, log: seq<Observation>, endpoint: string,
                                                 q: Quantity, bounds: seq<Bound>)
    requires Increasing(bounds) && RendersHistogram(lines, count, log, endpoint, q, bounds)
    ensures forall k, l :: 0 <= k < l < |lines| ==> lines[k] <= lines[l]
    ensures lines[|lines| - 1] == count
  {
    forall k, l | 0 <= k < l < |lines|
      ensures lines[k] <= lines[l]
    {
      CountGrows(log, endpoint, q, bounds[k], bounds[l]);
    }
  }

  ghost function StatusCounts(log: seq<Observation>, endpoint: string, statuses: seq<string>): (s: seq<nat>)
    ensures |s| == |statuses|
  {
    seq(|statuses|, k requires 0 <= k < |statuses| => CountStatus(log, endpoint, statuses[k]))
  }

  lemma {:induction false} SumBump(s: seq<nat>, t: seq<nat>, k: nat)
    requires k < |s| == |t| && t == s[k := s[k] + 1]
    ensures Sum(t) == Sum(s) + 1
  {
    if k > 0 {
      assert t[1..] == s[1..][k - 1 := s[1..][k - 1] + 1];
      SumBump(s[1..], t[1..], k - 1);
    } else {
      assert t[1..] == s[1..];
    }
  }

  /** The count is the number of the endpoint's requests, added up over their statuses. */
  lemma {:induction false} StatusesAddUp(log: seq<Observation>, endpoint: string, q: Quantity, statuses: seq<string>)
    requires forall i, j :: 0 <= i < j < |statuses| ==> statuses[i] != statuses[j]
    requires forall i :: 0 <= i < |log| && log[i].endpoint == endpoint ==> log[i].status in statuses
    ensures Sum(StatusCounts(log, endpoint, statuses)) == CountBelow(log, endpoint, q, Infinite)
    decreases |log|
  {
    if log == [] {
      SumZero(StatusCounts(log, endpoint, statuses));
    } else {
      var before, o := log[..|log| - 1], log[|log| - 1];
      StatusesAddUp(before, endpoint, q, statuses);
      var s, t := StatusCounts(before, endpoint, statuses), StatusCounts(log, endpoint, statuses);
      if o.endpoint == endpoint {
        var k :| 0 <= k < |statuses| && statuses[k] == o.status;
        assert t == s[k := s[k] + 1];
        SumBump(s, t, k);
      } else {
        assert t == s;
      }
    }
  }

  lemma {:induction false} SumZero(s: seq<nat>)
    requires forall k :: 0 <= k < |s| ==> s[k] == 0
    ensures Sum(s) == 0
  {
    if s != [] {
      SumZero(s[1..]);
    }
  }
}
