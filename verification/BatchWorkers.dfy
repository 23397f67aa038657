/** Worker threads that claim chunks of a batch from a shared counter. */
module BatchWorkers {
  import opened Common
  import Sorting

  // ----- chunk ranges

  const CHUNKS_PER_WORKER: nat := 16
  const MIN_CHUNK_BYTES: nat := 0x10_0000

  /** Non-empty ranges that follow each other from 0 to `n`. */
  ghost predicate Tiles(ranges: seq<(nat, nat)>, n: nat) {
    && ranges != [] && ranges[0].0 == 0 && ranges[|ranges| - 1].1 == n
    && forall k :: 0 <= k < |ranges| ==> ranges[k].0 < ranges[k].1 && (k > 0 ==> ranges[k].0 == ranges[k - 1].1)
  }

  /** The bytes of the documents from `from` up to `to`. */
  function BytesOf(sizes: seq<nat>, from: nat, to: nat): nat
    requires from <= to <= |sizes|
  {
    if from == to then 0 else BytesOf(sizes, from, to - 1) + sizes[to - 1]
  }

  lemma {:induction false} BytesAdd(sizes: seq<nat>, from: nat, middle: nat, to: nat)
    requires from <= middle <= to <= |sizes|
    ensures BytesOf(sizes, from, to) == BytesOf(sizes, from, middle) + BytesOf(sizes, middle, to)
  {
    if middle < to {
      BytesAdd(sizes, from, middle, to - 1);
    }
  }

  /** The least number of bytes, but a mebibyte at least, of which sixteen chunks per thread hold the whole batch. */
  ghost predicate IsTarget(target: nat, total: nat, threads: nat) {
    var chunks := if threads == 0 then 1 else 16 * threads;
    target >= 0x10_0000 && target * chunks >= total && (target > 0x10_0000 ==> (target - 1) * chunks < total)
  }

  /** Every chunk ends with the document that brings it to the target; the last one may fall short or reach it last. */
  ghost predicate Chunked(sizes: seq<nat>, ranges: seq<(nat, nat)>, target: nat) {
    forall k :: 0 <= k < |ranges| ==>
      && ranges[k].0 < ranges[k].1 <= |sizes|
      && BytesOf(sizes, ranges[k].0, ranges[k].1 - 1) < target
      && (k < |ranges| - 1 ==> BytesOf(sizes, ranges[k].0, ranges[k].1) >= target)
  }

  lemma CeilingIsTarget(total: nat, chunks: nat)
    requires chunks > 0
    ensures var target := (total + chunks - 1) / chunks;
            target * chunks >= total && (target > 0 ==> (target - 1) * chunks < total)
  {
    var target := (total + chunks - 1) / chunks;
    assert total + chunks - 1 == target * chunks + (total + chunks - 1) % chunks;
    assert (target - 1) * chunks == target * chunks - chunks;
  }

  lemma LargerTarget(target: nat, larger: nat, chunks: nat)
    requires target <= larger
    ensures target * chunks <= larger * chunks
  {
  }

  /** Ranges that reach a target and lie one after the other are no more than the batch has room for. */
  lemma {:induction false} FewRanges(sizes: seq<nat>, ranges: seq<(nat, nat)>, target: nat, to: nat, n: nat)
    requires n <= |ranges| && to <= |sizes|
    requires forall k :: 0 <= k < n ==> ranges[k].0 < ranges[k].1 <= |sizes| && BytesOf(sizes, ranges[k].0, ranges[k].1) >= target
    requires forall k :: 0 <= k < n ==> ranges[k].0 == if k == 0 then 0 else ranges[k - 1].1
    requires to == if n == 0 then 0 else ranges[n - 1].1
    ensures n * target <= BytesOf(sizes, 0, to)
  {
    if n > 0 {
      FewRanges(sizes, ranges, target, ranges[n - 1].0, n - 1);
      BytesAdd(sizes, 0, ranges[n - 1].0, to);
      assert n * target == (n - 1) * target + target;
    }
  }

  method ChunkTarget(total: nat, threads: nat) returns (target: nat)
    ensures IsTarget(target, total, threads)
  {
    var desired := if threads == 0 then 1 else threads * CHUNKS_PER_WORKER;
    target := (total + desired - 1) / desired;
    CeilingIsTarget(total, desired);
    if target < MIN_CHUNK_BYTES {
      LargerTarget(target, MIN_CHUNK_BYTES, desired);
      target := MIN_CHUNK_BYTES;
    }
  }

  lemma TilesGrow(ranges: seq<(nat, nat)>, start: nat, end: nat)
    requires start < end && if ranges == [] then start == 0 else Tiles(ranges, start)
    ensures Tiles(ranges + [(start, end)], end)
  {
  }

  method BuildBatchRanges(sizes: seq<nat>, threads: nat) returns (ranges: seq<(nat, nat)>)
    requires sizes != []
    ensures Tiles(ranges, |sizes|)
    ensures exists target: nat :: IsTarget(target, BytesOf(sizes, 0, |sizes|), threads) && Chunked(sizes, ranges, target)
  {
    hide IsTarget, Tiles;
    var total := 0;
    for i := 0 to |sizes|
      invariant total == BytesOf(sizes, 0, i)
    {
      total := total + sizes[i];
    }
    var target := ChunkTarget(total, threads);
    assert target > 0 by { TargetPositive(target, total, threads); }
    ranges := [];
    var start: nat, bytes := 0, 0;
    for index := 0 to |sizes|
      invariant 0 <= start <= index && (start == index ==> index == 0 || index < |sizes|)
      invariant if ranges == [] then start == 0 else Tiles(ranges, start)
      invariant bytes == BytesOf(sizes, start, index)
      invariant if index < |sizes| then bytes < target else start < index && BytesOf(sizes, start, index - 1) < target
      invariant forall k :: 0 <= k < |ranges| ==> Filled(sizes, ranges[k], target)
    {
      bytes := bytes + sizes[index];
      var end := index + 1;
      if bytes >= target && end < |sizes| {
        TilesGrow(ranges, start, end);
        ranges := ranges + [(start, end)];
        start, bytes := end, 0;
      }
    }
    TilesGrow(ranges, start, |sizes|);
    ranges := ranges + [(start, |sizes|)];
    assert Chunked(sizes, ranges, target);
  }

  lemma TargetPositive(target: nat, total: nat, threads: nat)
    requires IsTarget(target, total, threads)
    ensures target > 0
  {
  }

  /** A range that the last of its documents brings to the target. */
  ghost predicate Filled(sizes: seq<nat>, range: (nat, nat), target: nat) {
    range.0 < range.1 <= |sizes| && BytesOf(sizes, range.0, range.1 - 1) < target <= BytesOf(sizes, range.0, range.1)
  }

  lemma Few(n: nat, chunks: nat, target: nat)
    requires target > 0 && n * target <= target * chunks
    ensures n <= chunks
  {
    if n > chunks {
      LargerTarget(chunks + 1, n, target);
    }
  }

  /** So there are at most sixteen chunks per thread, and one more. */
  lemma ChunksAreFew(sizes: seq<nat>, threads: nat, ranges: seq<(nat, nat)>, target: nat)
    requires Tiles(ranges, |sizes|) && IsTarget(target, BytesOf(sizes, 0, |sizes|), threads) && Chunked(sizes, ranges, target)
    ensures |ranges| <= 1 + if threads == 0 then 1 else 16 * threads
  {
    var n := |ranges| - 1;
    TargetReached(sizes, ranges, target);
    assert n * target <= target * if threads == 0 then 1 else 16 * threads;
    Few(n, if threads == 0 then 1 else 16 * threads, target);
  }

  lemma TargetReached(sizes: seq<nat>, ranges: seq<(nat, nat)>, target: nat)
    requires Tiles(ranges, |sizes|) && Chunked(sizes, ranges, target)
    ensures (|ranges| - 1) * target <= BytesOf(sizes, 0, |sizes|)
  {
    var n := |ranges| - 1;
    FewRanges(sizes, ranges, target, ranges[n].0, n);
    BytesAdd(sizes, 0, ranges[n].0, |sizes|);
  }

  // ----- what a batch should produce

  predicate AllOk<D>(outcomes: seq<Result<D, string>>) {
    forall i :: 0 <= i < |outcomes| ==> outcomes[i].Ok?
  }

  function Values<D>(outcomes: seq<Result<D, string>>): (r: seq<D>)
    requires AllOk(outcomes)
    ensures |r| == |outcomes| && forall i :: 0 <= i < |r| ==> outcomes[i] == Ok(r[i])
  {
    if outcomes == [] then [] else Values(outcomes[..|outcomes| - 1]) + [outcomes[|outcomes| - 1].value]
  }

  /** The documents of a batch: what each one yields on its own, and how they are cut into chunks. */
  datatype Batch<D> = Batch(outcomes: seq<Result<D, string>>, ranges: seq<(nat, nat)>) {
    ghost predicate Valid() {
      Tiles(ranges, |outcomes|)
    }

    function Slice(chunk: nat): seq<Result<D, string>> {
      if chunk < |ranges| && ranges[chunk].0 <= ranges[chunk].1 <= |outcomes| then outcomes[ranges[chunk].0..ranges[chunk].1] else []
    }
  }

  lemma {:induction false} RangesWithin(ranges: seq<(nat, nat)>, n: nat, k: nat)
    requires Tiles(ranges, n) && k < |ranges|
    ensures ranges[k].1 <= n
    decreases |ranges| - k
  {
    if k < |ranges| - 1 {
      RangesWithin(ranges, n, k + 1);
      assert ranges[k + 1].0 == ranges[k].1;
    }
  }

  // ----- the workers

  datatype Worker<D> =
    | Claiming(chunks: seq<(nat, seq<D>)>)
    | Processing(chunk: nat, rows: seq<D>, chunks: seq<(nat, seq<D>)>)
    | Done(chunks: seq<(nat, seq<D>)>)
    | Failed(error: string)

  /** The shared counter, the workers, and the history of who took each ticket. */
  datatype State<D> = State(next: nat, workers: seq<Worker<D>>, claims: seq<nat>)

  predicate Active<D>(s: State<D>, w: nat) {
    w < |s.workers| && (s.workers[w].Claiming? || s.workers[w].Processing?)
  }

  predicate Finished<D>(s: State<D>) {
    forall w :: 0 <= w < |s.workers| ==> s.workers[w].Done? || s.workers[w].Failed?
  }

  function Start<D>(workers: nat): State<D> {
    State(0, seq(workers, _ => Claiming([])), [])
  }

  /** One step of one worker: take a ticket, process one document, or hand in a finished chunk. */
  function Advance<D>(b: Batch<D>, s: State<D>, w: nat): State<D>
    requires Active(s, w)
  {
    match s.workers[w]
    case Claiming(chunks) =>
      State(s.next + 1, s.workers[w := if s.next < |b.ranges| then Processing(s.next, [], chunks) else Done(chunks)], s.claims + [w])
    case Processing(chunk, rows, chunks) =>
      var slice := b.Slice(chunk);
      s.(workers := s.workers[w :=
        if |rows| >= |slice| then Claiming(chunks + [(chunk, rows)])
        else if slice[|rows|].Ok? then Processing(chunk, rows + [slice[|rows|].value], chunks)
        else Failed(slice[|rows|].error)])
  }

  // ----- the invariant of every run

  /** The chunks a worker took tickets for, in order. */
  function ClaimedBy(claims: seq<nat>, w: nat, limit: nat): seq<nat> {
    if claims == [] then []
    else
      var n := |claims| - 1;
      ClaimedBy(claims[..n], w, limit) + if claims[n] == w && n < limit then [n] else []
  }

  /** A finished chunk carries its number and the values of its documents, all of which succeeded. */
  ghost predicate Completed<D>(b: Batch<D>, chunks: seq<(nat, seq<D>)>, mine: seq<nat>) {
    |chunks| == |mine| && forall i :: 0 <= i < |chunks| ==>
      chunks[i].0 == mine[i] && AllOk(b.Slice(mine[i])) && chunks[i].1 == Values(b.Slice(mine[i]))
  }

  ghost predicate WorkerInvariant<D>(b: Batch<D>, worker: Worker<D>, mine: seq<nat>) {
    match worker
    case Claiming(chunks) => Completed(b, chunks, mine)
    case Processing(chunk, rows, chunks) =>
      && mine != [] && mine[|mine| - 1] == chunk && Completed(b, chunks, mine[..|mine| - 1])
      && |rows| <= |b.Slice(chunk)| && forall i :: 0 <= i < |rows| ==> b.Slice(chunk)[i] == Ok(rows[i])
    case Done(chunks) => Completed(b, chunks, mine)
    case Failed(error) => Err(error) in b.outcomes
  }

  ghost predicate Invariant<D>(b: Batch<D>, s: State<D>) {
    && s.next == |s.claims|
    && (forall k :: 0 <= k < |s.claims| ==> s.claims[k] < |s.workers|)
    && (forall w :: 0 <= w < |s.workers| ==> WorkerInvariant(b, s.workers[w], ClaimedBy(s.claims, w, |b.ranges|)))
    && (forall w :: 0 <= w < |s.workers| && s.workers[w].Done? ==> s.next > |b.ranges|)
  }

  lemma StartInvariant<D>(b: Batch<D>, workers: nat)
    ensures Invariant(b, Start(workers))
  {
  }

  lemma ClaimNext(claims: seq<nat>, taker: nat, w: nat, limit: nat)
    ensures ClaimedBy(claims + [taker], w, limit) ==
            if taker == w && |claims| < limit then ClaimedBy(claims, w, limit) + [|claims|] else ClaimedBy(claims, w, limit)
  {
    assert (claims + [taker])[..|claims|] == claims;
  }

  /** Every step of every worker keeps the invariant. */
  lemma AdvanceInvariant<D>(b: Batch<D>, s: State<D>, w: nat)
    requires Invariant(b, s) && Active(s, w)
    ensures Invariant(b, Advance(b, s, w))
  {
    hide ClaimedBy, WorkerInvariant;
    var t := Advance(b, s, w);
    var limit := |b.ranges|;
    if s.workers[w].Claiming? {
      forall v | 0 <= v < |t.workers|
        ensures WorkerInvariant(b, t.workers[v], ClaimedBy(t.claims, v, limit))
      {
        ClaimNext(s.claims, w, v, limit);
        if v == w {
          ClaimStep(b, s.workers[w], ClaimedBy(s.claims, w, limit), s.next);
        }
      }
    } else {
      ProcessStep(b, s.workers[w], ClaimedBy(s.claims, w, limit), t.workers[w]);
    }
  }

  lemma ClaimStep<D>(b: Batch<D>, worker: Worker<D>, mine: seq<nat>, ticket: nat)
    requires worker.Claiming? && WorkerInvariant(b, worker, mine)
    ensures WorkerInvariant(b, Processing(ticket, [], worker.chunks), mine + [ticket])
    ensures WorkerInvariant(b, Done(worker.chunks), mine)
  {
    assert (mine + [ticket])[..|mine|] == mine;
  }

  lemma ProcessStep<D>(b: Batch<D>, worker: Worker<D>, mine: seq<nat>, after: Worker<D>)
    requires worker.Processing? && WorkerInvariant(b, worker, mine)
    requires var slice, i := b.Slice(worker.chunk), |worker.rows|;
             after == if i >= |slice| then Claiming(worker.chunks + [(worker.chunk, worker.rows)])
                      else if slice[i].Ok? then Processing(worker.chunk, worker.rows + [slice[i].value], worker.chunks)
                      else Failed(slice[i].error)
    ensures WorkerInvariant(b, after, mine) && !after.Done?
  {
    var slice, i := b.Slice(worker.chunk), |worker.rows|;
    if i >= |slice| {
      assert AllOk(slice) && worker.rows == Values(slice);
    } else if slice[i].Err? {
      assert slice[i] in b.outcomes;
    }
  }

  // ----- schedules

  /** Runs a schedule; choosing a worker that has finished changes nothing. */
  function Run<D>(b: Batch<D>, workers: nat, schedule: seq<nat>): State<D> {
    if schedule == [] then Start(workers)
    else
      var n := |schedule| - 1;
      var s := Run(b, workers, schedule[..n]);
      if Active(s, schedule[n]) then Advance(b, s, schedule[n]) else s
  }

  lemma {:induction false} RunInvariant<D>(b: Batch<D>, workers: nat, schedule: seq<nat>)
    ensures Invariant(b, Run(b, workers, schedule)) && |Run(b, workers, schedule).workers| == workers
  {
    hide Invariant;
    if schedule == [] {
      StartInvariant(b, workers);
    } else {
      var n := |schedule| - 1;
      RunInvariant(b, workers, schedule[..n]);
      var s := Run(b, workers, schedule[..n]);
      if Active(s, schedule[n]) {
        AdvanceInvariant(b, s, schedule[n]);
      }
    }
  }

  // ----- no chunk is processed twice

  /** The worker is processing the chunk, or has processed it and will hand it in. */
  predicate Holds<D>(worker: Worker<D>, k: nat) {
    || (worker.Processing? && worker.chunk == k)
    || (!worker.Failed? && exists i :: 0 <= i < |worker.chunks| && worker.chunks[i].0 == k)
  }

  /** The chunks of one worker are pairwise different, and none of them is the one in hand. */
  predicate HoldsOnce<D>(worker: Worker<D>) {
    !worker.Failed? ==>
      && (forall i, j :: 0 <= i < j < |worker.chunks| ==> worker.chunks[i].0 != worker.chunks[j].0)
      && (worker.Processing? ==> forall i :: 0 <= i < |worker.chunks| ==> worker.chunks[i].0 != worker.chunk)
  }

  lemma {:induction false} ClaimedAscend(claims: seq<nat>, w: nat, limit: nat)
    ensures forall j :: 0 <= j < |ClaimedBy(claims, w, limit)| ==> ClaimedBy(claims, w, limit)[j] < |claims|
    ensures forall i, j :: 0 <= i < j < |ClaimedBy(claims, w, limit)| ==>
              ClaimedBy(claims, w, limit)[i] < ClaimedBy(claims, w, limit)[j]
  {
    if claims != [] {
      var n := |claims| - 1;
      ClaimedAscend(claims[..n], w, limit);
    }
  }

  /** What a worker holds is what it drew tickets for. */
  lemma HeldIsClaimed<D>(b: Batch<D>, s: State<D>, w: nat, k: nat)
    requires Invariant(b, s) && w < |s.workers| && Holds(s.workers[w], k)
    ensures k < |s.claims| && s.claims[k] == w
  {
    var worker, mine := s.workers[w], ClaimedBy(s.claims, w, |b.ranges|);
    assert WorkerInvariant(b, worker, mine);
    assert k in mine by {
      if !(worker.Processing? && worker.chunk == k) {
        var i :| 0 <= i < |worker.chunks| && worker.chunks[i].0 == k;
        assert worker.chunks[i].0 == mine[i];
      }
    }
    TicketHasOneOwner(s.claims, w, |b.ranges|, k);
    assert k in multiset(mine);
  }

  lemma HeldOnce<D>(b: Batch<D>, s: State<D>, w: nat)
    requires Invariant(b, s) && w < |s.workers|
    ensures HoldsOnce(s.workers[w])
  {
    hide ClaimedBy;
    assert WorkerInvariant(b, s.workers[w], ClaimedBy(s.claims, w, |b.ranges|));
    ClaimedAscend(s.claims, w, |b.ranges|);
  }

  /** Under every schedule and at every moment, no chunk is held by two workers or twice by one. */
  lemma NoChunkTwice<D>(b: Batch<D>, workers: nat, schedule: seq<nat>, v: nat, w: nat, k: nat)
    requires var s := Run(b, workers, schedule);
             v < |s.workers| && w < |s.workers| && Holds(s.workers[v], k) && Holds(s.workers[w], k)
    ensures v == w && HoldsOnce(Run(b, workers, schedule).workers[v])
  {
    hide Invariant, Run;
    var s := Run(b, workers, schedule);
    RunInvariant(b, workers, schedule);
    HeldIsClaimed(b, s, v, k);
    HeldIsClaimed(b, s, w, k);
    HeldOnce(b, s, v);
  }

  /** The next step of worker `w` processes document `d` of chunk `k`. */
  predicate Processes<D>(b: Batch<D>, s: State<D>, w: nat, k: nat, d: nat) {
    w < |s.workers| && s.workers[w].Processing? && s.workers[w].chunk == k && |s.workers[w].rows| == d < |b.Slice(k)|
  }

  /** The worker has processed document `d` of chunk `k`, or failed. */
  predicate Past<D>(worker: Worker<D>, k: nat, d: nat) {
    || worker.Failed?
    || (worker.Processing? && worker.chunk == k && d < |worker.rows|)
    || exists i :: 0 <= i < |worker.chunks| && worker.chunks[i].0 == k
  }

  lemma PastStays<D>(b: Batch<D>, s: State<D>, v: nat, w: nat, k: nat, d: nat)
    requires Active(s, v) && w < |s.workers| && Past(s.workers[w], k, d)
    ensures Past(Advance(b, s, v).workers[w], k, d)
  {
    var worker, after := s.workers[w], Advance(b, s, v).workers[w];
    if v == w && exists i :: 0 <= i < |worker.chunks| && worker.chunks[i].0 == k {
      var i :| 0 <= i < |worker.chunks| && worker.chunks[i].0 == k;
      assert after.Failed? || after.chunks[i].0 == k;
    } else if v == w && worker.Processing? {
      var n := |worker.chunks|;
      assert after.Claiming? ==> after.chunks[n].0 == k;
    }
  }

  /** Tickets keep their owners. */
  lemma {:induction false} RunExtends<D>(b: Batch<D>, workers: nat, schedule: seq<nat>, i: nat)
    requires i <= |schedule|
    ensures Run(b, workers, schedule[..i]).claims <= Run(b, workers, schedule).claims
    ensures |Run(b, workers, schedule).workers| == workers
    decreases |schedule|
  {
    if i < |schedule| {
      RunExtends(b, workers, schedule[..|schedule| - 1], i);
      assert schedule[..|schedule| - 1][..i] == schedule[..i];
    } else {
      assert schedule[..i] == schedule;
      RunInvariant(b, workers, schedule);
    }
  }

  lemma {:induction false} PastAtTheEnd<D>(b: Batch<D>, workers: nat, schedule: seq<nat>, i: nat, w: nat, k: nat, d: nat)
    requires i <= |schedule| && w < |Run(b, workers, schedule[..i]).workers| && Past(Run(b, workers, schedule[..i]).workers[w], k, d)
    ensures w < |Run(b, workers, schedule).workers| && Past(Run(b, workers, schedule).workers[w], k, d)
    decreases |schedule|
  {
    hide Past;
    if i < |schedule| {
      var n := |schedule| - 1;
      assert schedule[..n][..i] == schedule[..i];
      PastAtTheEnd(b, workers, schedule[..n], i, w, k, d);
      var s := Run(b, workers, schedule[..n]);
      if Active(s, schedule[n]) {
        PastStays(b, s, schedule[n], w, k, d);
      }
    } else {
      assert schedule[..i] == schedule;
    }
  }

  /** Under every schedule, each document is processed at most once, also by workers that fail later. */
  lemma NoDocumentTwice<D>(b: Batch<D>, workers: nat, schedule: seq<nat>, i: nat, j: nat, k: nat, d: nat)
    requires i < j < |schedule|
    requires Processes(b, Run(b, workers, schedule[..i]), schedule[i], k, d)
    ensures !Processes(b, Run(b, workers, schedule[..j]), schedule[j], k, d)
  {
    hide Run, Invariant;
    var w, v := schedule[i], schedule[j];
    var s, next, t := Run(b, workers, schedule[..i]), Run(b, workers, schedule[..i + 1]), Run(b, workers, schedule[..j]);
    if Processes(b, t, v, k, d) {
      RunInvariant(b, workers, schedule[..i]);
      RunInvariant(b, workers, schedule[..j]);
      HeldIsClaimed(b, s, w, k);
      HeldIsClaimed(b, t, v, k);
      assert schedule[..j][..i] == schedule[..i] && schedule[..j][..i + 1] == schedule[..i + 1];
      RunExtends(b, workers, schedule[..j], i);
      OneMoreStep(b, workers, schedule, i, w);
      assert Past(next.workers[w], k, d);
      PastAtTheEnd(b, workers, schedule[..j], i + 1, w, k, d);
      HeldOnce(b, t, w);
    }
  }

  lemma OneMoreStep<D>(b: Batch<D>, workers: nat, schedule: seq<nat>, i: nat, w: nat)
    requires i < |schedule| && schedule[i] == w && Active(Run(b, workers, schedule[..i]), w)
    ensures Run(b, workers, schedule[..i + 1]) == Advance(b, Run(b, workers, schedule[..i]), w)
  {
    assert schedule[..i + 1][..i] == schedule[..i];
  }

  /** Every schedule that finishes reaches the same verdict and, on success, the in-order results. */
  lemma ScheduleIndependence<D>(b: Batch<D>, workers: nat, schedule: seq<nat>)
    requires b.Valid() && workers > 0 && Finished(Run(b, workers, schedule))
    ensures AllDone(Run(b, workers, schedule)) <==> AllOk(b.outcomes)
    ensures AllOk(b.outcomes) ==> Flatten(SortByIndex(AllChunks(Run(b, workers, schedule).workers))) == Values(b.outcomes)
  {
    hide Run, Batch.Valid;
    var s := Run(b, workers, schedule);
    RunInvariant(b, workers, schedule);
    if AllOk(b.outcomes) {
      forall w | 0 <= w < |s.workers|
        ensures s.workers[w].Done?
      {
        assert WorkerInvariant(b, s.workers[w], ClaimedBy(s.claims, w, |b.ranges|));
      }
    }
    if AllDone(s) {
      DoneIsInOrder(b, s);
    }
  }

  // ----- every schedule ends

  function Weight<D>(b: Batch<D>, worker: Worker<D>): nat {
    match worker
    case Claiming(_) => 1
    case Processing(chunk, rows, _) => if |rows| <= |b.Slice(chunk)| then 2 + |b.Slice(chunk)| - |rows| else 2
    case Done(_) => 0
    case Failed(_) => 0
  }

  function TotalWeight<D>(b: Batch<D>, workers: seq<Worker<D>>): nat {
    if workers == [] then 0 else TotalWeight(b, workers[..|workers| - 1]) + Weight(b, workers[|workers| - 1])
  }

  /** Steps still possible: unclaimed chunks, weighted so that claiming one pays for all its documents, and work in hand. */
  function StepsLeft<D>(b: Batch<D>, s: State<D>): nat {
    (if s.next < |b.ranges| then |b.ranges| - s.next else 0) * (|b.outcomes| + 3) + TotalWeight(b, s.workers)
  }

  lemma {:induction false} TotalWeightUpdate<D>(b: Batch<D>, workers: seq<Worker<D>>, w: nat, after: Worker<D>)
    requires w < |workers|
    ensures TotalWeight(b, workers[w := after]) == TotalWeight(b, workers) - Weight(b, workers[w]) + Weight(b, after)
    decreases |workers|
  {
    var n := |workers| - 1;
    var updated := workers[w := after];
    if w < n {
      assert updated[..n] == workers[..n][w := after];
      TotalWeightUpdate(b, workers[..n], w, after);
    } else {
      assert updated[..n] == workers[..n];
    }
  }

  lemma SliceSize<D>(b: Batch<D>, chunk: nat)
    ensures |b.Slice(chunk)| <= |b.outcomes|
  {
  }

  /** However the workers interleave, every step brings the run closer to its end. */
  lemma AdvanceDecreases<D>(b: Batch<D>, s: State<D>, w: nat)
    requires Invariant(b, s) && Active(s, w)
    ensures StepsLeft(b, Advance(b, s, w)) < StepsLeft(b, s)
  {
    var t := Advance(b, s, w);
    TotalWeightUpdate(b, s.workers, w, t.workers[w]);
    if s.workers[w].Claiming? {
      if s.next < |b.ranges| {
        SliceSize(b, s.next);
        OneFewer(|b.ranges| - s.next, |b.outcomes| + 3);
      }
    } else {
      assert WorkerInvariant(b, s.workers[w], ClaimedBy(s.claims, w, |b.ranges|));
    }
  }

  lemma OneFewer(k: int, m: int)
    ensures (k - 1) * m == k * m - m
  {
  }

  // ----- collecting the results

  function AllChunks<D>(workers: seq<Worker<D>>): seq<(nat, seq<D>)> {
    if workers == [] then []
    else
      var last := workers[|workers| - 1];
      AllChunks(workers[..|workers| - 1]) + if last.Done? then last.chunks else []
  }

  function Indices<D>(chunks: seq<(nat, seq<D>)>): (r: seq<nat>)
    ensures |r| == |chunks| && forall i :: 0 <= i < |r| ==> r[i] == chunks[i].0
  {
    seq(|chunks|, i requires 0 <= i < |chunks| => chunks[i].0)
  }

  ghost predicate Genuine<D>(b: Batch<D>, chunk: (nat, seq<D>)) {
    AllOk(b.Slice(chunk.0)) && chunk.1 == Values(b.Slice(chunk.0))
  }

  /** A ticket belongs to exactly the worker that drew it: no chunk is processed twice. */
  lemma {:induction false} TicketHasOneOwner(claims: seq<nat>, w: nat, limit: nat, k: nat)
    ensures multiset(ClaimedBy(claims, w, limit))[k] == if k < |claims| && k < limit && claims[k] == w then 1 else 0
  {
    if claims != [] {
      var n := |claims| - 1;
      TicketHasOneOwner(claims[..n], w, limit, k);
    }
  }

  lemma DoneChunks<D>(b: Batch<D>, worker: Worker<D>, mine: seq<nat>)
    requires worker.Done? && WorkerInvariant(b, worker, mine)
    ensures forall chunk :: chunk in worker.chunks ==> Genuine(b, chunk)
    ensures Indices(worker.chunks) == mine
  {
  }

  ghost predicate AllDone<D>(s: State<D>) {
    forall w :: 0 <= w < |s.workers| ==> s.workers[w].Done?
  }

  /** When all workers are done, the chunks of the first `m` are genuine, and each ticket of theirs occurs once. */
  lemma {:induction false} ChunksOfWorkers<D>(b: Batch<D>, s: State<D>, m: nat, k: nat)
    requires Invariant(b, s) && AllDone(s) && m <= |s.workers|
    ensures forall chunk :: chunk in AllChunks(s.workers[..m]) ==> Genuine(b, chunk)
    ensures multiset(Indices(AllChunks(s.workers[..m])))[k] == if k < |s.claims| && k < |b.ranges| && s.claims[k] < m then 1 else 0
  {
    hide ClaimedBy, Genuine, WorkerInvariant, Indices;
    if m == 0 {
      assert Indices(AllChunks(s.workers[..0])) == [];
    } else {
      ChunksOfWorkers(b, s, m - 1, k);
      var last := s.workers[m - 1];
      var mine := ClaimedBy(s.claims, m - 1, |b.ranges|);
      assert s.workers[..m][..m - 1] == s.workers[..m - 1];
      DoneChunks(b, last, mine);
      var front := AllChunks(s.workers[..m - 1]);
      assert Indices(front + last.chunks) == Indices(front) + mine;
      TicketHasOneOwner(s.claims, m - 1, |b.ranges|, k);
    }
  }

  function IndexOf<D>(chunk: (nat, seq<D>)): nat {
    chunk.0
  }

  /** Sorting by chunk index. */
  function SortByIndex<D>(chunks: seq<(nat, seq<D>)>): seq<(nat, seq<D>)> {
    Sorting.Sort(Sorting.ByKey(IndexOf<D>), chunks)
  }

  predicate Ascending(indices: seq<nat>) {
    forall i, j :: 0 <= i < j < |indices| ==> indices[i] <= indices[j]
  }

  lemma SortByIndexSorts<D>(chunks: seq<(nat, seq<D>)>)
    ensures Ascending(Indices(SortByIndex(chunks)))
    ensures multiset(Indices(SortByIndex(chunks))) == multiset(Indices(chunks))
    ensures forall i :: 0 <= i < |SortByIndex(chunks)| ==> SortByIndex(chunks)[i] in chunks
  {
    var sorted := SortByIndex(chunks);
    Sorting.SortOrders(Sorting.ByKey(IndexOf<D>), chunks);
    forall i, j | 0 <= i < j < |sorted|
      ensures sorted[i].0 <= sorted[j].0
    {
      Sorting.KeysAscend(IndexOf<D>, sorted, i, j);
    }
    Sorting.ImagesPermuted(IndexOf<D>, sorted, chunks);
    assert Indices(sorted) == Sorting.Images(IndexOf<D>, sorted) && Indices(chunks) == Sorting.Images(IndexOf<D>, chunks);
    forall i | 0 <= i < |sorted|
      ensures sorted[i] in chunks
    {
      var k := Sorting.Occurs(chunks, sorted, i);
    }
  }

  /** An ascending list that holds each number below `n` once counts from zero. */
  lemma {:induction false} AscendingCounts(indices: seq<nat>, n: nat)
    requires Ascending(indices) && forall k :: multiset(indices)[k] == if 0 <= k < n then 1 else 0
    ensures |indices| == n && forall i :: 0 <= i < n ==> indices[i] == i
  {
    if n == 0 {
      assert multiset(indices) == multiset{};
      assert |indices| == |multiset(indices)|;
    } else {
      assert n - 1 in multiset(indices);
      var last := |indices| - 1;
      var j :| 0 <= j < |indices| && indices[j] == n - 1;
      assert indices[last] in multiset(indices);
      assert indices == indices[..last] + [indices[last]];
      assert indices[last] == n - 1;
      forall k
        ensures multiset(indices[..last])[k] == if 0 <= k < n - 1 then 1 else 0
      {
        assert multiset(indices)[k] == multiset(indices[..last])[k] + if k == n - 1 then 1 else 0;
      }
      AscendingCounts(indices[..last], n - 1);
    }
  }

  /** Concatenation of the rows of all chunks. */
  function Flatten<D>(chunks: seq<(nat, seq<D>)>): seq<D> {
    if chunks == [] then [] else Flatten(chunks[..|chunks| - 1]) + chunks[|chunks| - 1].1
  }

  /** Chunks in order spell out the in-order results. */
  lemma {:induction false} FlattenInOrder<D>(b: Batch<D>, chunks: seq<(nat, seq<D>)>, m: nat)
    requires b.Valid() && m <= |chunks| == |b.ranges|
    requires forall i :: 0 <= i < |chunks| ==> chunks[i].0 == i && Genuine(b, chunks[i])
    ensures var end := if m == 0 then 0 else b.ranges[m - 1].1;
            end <= |b.outcomes| && AllOk(b.outcomes[..end]) && Flatten(chunks[..m]) == Values(b.outcomes[..end])
  {
    hide Values, Tiles;
    if m > 0 {
      FlattenInOrder(b, chunks, m - 1);
      RangesWithin(b.ranges, |b.outcomes|, m - 1);
      assert chunks[..m][..m - 1] == chunks[..m - 1];
      RangeFollows(b, m - 1);
      assert Genuine(b, chunks[m - 1]);
      ValuesConcat(b.outcomes[..b.ranges[m - 1].0], b.Slice(m - 1));
    }
  }

  lemma RangeFollows<D>(b: Batch<D>, k: nat)
    requires b.Valid() && k < |b.ranges| && b.ranges[k].1 <= |b.outcomes|
    ensures b.ranges[k].0 == (if k == 0 then 0 else b.ranges[k - 1].1) <= b.ranges[k].1
    ensures b.outcomes[..b.ranges[k].1] == b.outcomes[..b.ranges[k].0] + b.Slice(k)
  {
  }

  lemma ValuesConcat<D>(a: seq<Result<D, string>>, c: seq<Result<D, string>>)
    requires AllOk(a) && AllOk(c)
    ensures AllOk(a + c) && Values(a + c) == Values(a) + Values(c)
  {
    forall i | 0 <= i < |a + c|
      ensures (a + c)[i] == Ok((Values(a) + Values(c))[i])
    {
    }
  }

  /** When all workers are done, their chunks, sorted and flattened, are the in-order results: every document succeeded. */
  lemma DoneIsInOrder<D>(b: Batch<D>, s: State<D>)
    requires b.Valid() && Invariant(b, s) && AllDone(s) && s.workers != []
    ensures AllOk(b.outcomes) && Flatten(SortByIndex(AllChunks(s.workers))) == Values(b.outcomes)
  {
    hide SortByIndex, AllChunks, Flatten, ClaimedBy, WorkerInvariant;
    var all, limit := AllChunks(s.workers), |b.ranges|;
    var sorted := SortByIndex(all);
    assert s.workers[..|s.workers|] == s.workers;
    assert s.workers[0].Done?;
    SortByIndexSorts(all);
    forall k: nat
      ensures multiset(Indices(all))[k] == if k < limit then 1 else 0
    {
      ChunksOfWorkers(b, s, |s.workers|, k);
    }
    ChunksOfWorkers(b, s, |s.workers|, 0);
    AscendingCounts(Indices(sorted), limit);
    forall i | 0 <= i < |sorted|
      ensures sorted[i].0 == i && Genuine(b, sorted[i])
    {
      assert sorted[i] in all;
      assert sorted[i].0 == Indices(sorted)[i];
    }
    FlattenInOrder(b, sorted, limit);
    assert sorted[..limit] == sorted && b.outcomes[..|b.outcomes|] == b.outcomes;
  }

  /** Joins the workers in the order they were started; the first failed one decides the error. */
  method Join<D>(workers: seq<Worker<D>>) returns (r: Result<seq<(nat, seq<D>)>, string>)
    requires forall w :: 0 <= w < |workers| ==> workers[w].Done? || workers[w].Failed?
    ensures r.Ok? <==> forall w :: 0 <= w < |workers| ==> workers[w].Done?
    ensures r.Ok? ==> r.value == AllChunks(workers)
    ensures r.Err? ==> exists w :: 0 <= w < |workers| && workers[w] == Failed(r.error) && forall v :: 0 <= v < w ==> workers[v].Done?
  {
    var completed := [];
    for w := 0 to |workers|
      invariant forall v :: 0 <= v < w ==> workers[v].Done?
      invariant completed == AllChunks(workers[..w])
    {
      if workers[w].Failed? {
        return Err(workers[w].error);
      }
      assert workers[..w + 1][..w] == workers[..w];
      completed := completed + workers[w].chunks;
    }
    assert workers[..|workers|] == workers;
    return Ok(completed);
  }

  const NO_THREADS := "threads must be positive"
  const CARDINALITY := "batch output cardinality differs"

  /**
   * Runs a batch. The scheduler picks any active worker at every step. The batch succeeds exactly when
   * every document does, and then the output is the in-order list of results, whatever the schedule;
   * a failure reports the error of some document, so the cardinality check never decides.
   */
  method RunBatch<D>(sizes: seq<nat>, outcomes: seq<Result<D, string>>, threads: nat) returns (r: Result<seq<D>, string>)
    requires |sizes| == |outcomes|
    ensures threads == 0 ==> r == Err(NO_THREADS)
    ensures threads > 0 ==> (r.Ok? <==> AllOk(outcomes))
    ensures r.Ok? ==> r.value == Values(outcomes)
    ensures threads > 0 && r.Err? ==> Err(r.error) in outcomes
  {
    if threads == 0 {
      return Err(NO_THREADS);
    }
    if sizes == [] {
      return Ok([]);
    }
    var ranges := BuildBatchRanges(sizes, threads);
    var workerCount := if threads < |ranges| then threads else |ranges|;
    if workerCount == 1 {
      r := RunSequentially(outcomes);
      return;
    }
    var b := Batch(outcomes, ranges);
    var s := RunWorkers(b, workerCount);
    var completed := Join(s.workers);
    if completed.Err? {
      var w :| 0 <= w < |s.workers| && s.workers[w] == Failed(completed.error);
      assert WorkerInvariant(b, s.workers[w], ClaimedBy(s.claims, w, |b.ranges|));
      return Err(completed.error);
    }
    DoneIsInOrder(b, s);
    var documents := Flatten(SortByIndex(completed.value));
    if |documents| != |sizes| {
      return Err(CARDINALITY);
    }
    return Ok(documents);
  }

  /** One worker: documents in order, stopping at the first error. */
  method RunSequentially<D>(outcomes: seq<Result<D, string>>) returns (r: Result<seq<D>, string>)
    ensures r.Ok? <==> AllOk(outcomes)
    ensures r.Ok? ==> r.value == Values(outcomes)
    ensures r.Err? ==> exists i :: 0 <= i < |outcomes| && outcomes[i] == Err(r.error) && AllOk(outcomes[..i])
  {
    var documents := [];
    for i := 0 to |outcomes|
      invariant AllOk(outcomes[..i]) && documents == Values(outcomes[..i])
    {
      if outcomes[i].Err? {
        return Err(outcomes[i].error);
      }
      assert outcomes[..i + 1][..i] == outcomes[..i];
      documents := documents + [outcomes[i].value];
    }
    assert outcomes[..|outcomes|] == outcomes;
    return Ok(documents);
  }

  lemma SomeActive<D>(s: State<D>)
    requires !Finished(s)
    ensures exists w: nat :: w < |s.workers| && Active(s, w)
  {
    var w :| 0 <= w < |s.workers| && !s.workers[w].Done? && !s.workers[w].Failed?;
    assert Active(s, w);
  }

  /** Runs the workers under an arbitrary scheduler until all have finished. */
  method RunWorkers<D>(b: Batch<D>, workerCount: nat) returns (s: State<D>)
    ensures Invariant(b, s) && Finished(s) && |s.workers| == workerCount
  {
    s := Start(workerCount);
    StartInvariant(b, workerCount);
    while !Finished(s)
      invariant Invariant(b, s) && |s.workers| == workerCount
      decreases StepsLeft(b, s)
    {
      SomeActive(s);
      var w: nat :| w < |s.workers| && Active(s, w);
      AdvanceInvariant(b, s, w);
      AdvanceDecreases(b, s, w);
      s := Advance(b, s, w);
    }
  }
}
