/**
  The three drivers of the eth-tx indexer: the backward and forward traversals
  (server/indexer_cmd.go) and the service loop (server/indexer_service.go).
  Whatever runs happen, each stopped anywhere, no hole is left between the first
  and the last indexed block, except at heights the service stepped past after
  IndexBlock failed.
*/
module IndexDrivers {
  import opened Wrappers
  import opened KvIndexer
  import opened IndexTables

  /** Heights indexed so far, and heights the service stepped past without indexing them. */
  datatype Progress = Progress(heights: set<int>, skipped: set<int>)

  ghost predicate Fits(chain: Chain, p: Progress) {
    p.heights <= chain.Keys
  }

  /** The heights strictly between two. */
  ghost function Between(lo: int, hi: int): (s: set<int>)
    ensures forall h :: h in s <==> lo < h < hi
    decreases hi - lo
  {
    if lo + 1 >= hi then {} else Between(lo, hi - 1) + {hi - 1}
  }

  /** Every height between two that hold eth transactions has been indexed or stepped past. */
  ghost predicate NoHolesExceptSkipped(chain: Chain, p: Progress)
    requires Fits(chain, p)
  {
    forall a, b, h :: a in Marked(chain, p.heights) && b in Marked(chain, p.heights) && a <= h <= b ==>
      h in p.heights || h in p.skipped
  }

  /** Every height between the first and the last indexed block has been indexed. */
  ghost predicate NoHoles(chain: Chain, heights: set<int>)
    requires heights <= chain.Keys
  {
    forall a, b, h :: a in Marked(chain, heights) && b in Marked(chain, heights) && a <= h <= b ==> h in heights
  }

  /** Starting just above the last indexed block, just below the first, or anywhere in an empty index. */
  ghost predicate Adjacent(chain: Chain, heights: set<int>, lo: int, hi: int)
    requires heights <= chain.Keys
  {
    || Marked(chain, heights) == {}
    || IsBound(chain, heights, lo, true)
    || IsBound(chain, heights, hi, false)
  }

  /** What any run of a driver does: it works through a stretch of heights next to what is indexed. */
  ghost predicate DriverRun(chain: Chain, p: Progress, p': Progress)
    requires Fits(chain, p)
  {
    exists lo, hi, indexed: set<int>, skipped: set<int> ::
      Works(chain, p, p', lo, hi, indexed, skipped)
  }

  /** Only runs upwards skip: the traversals stop at a failure. */
  ghost predicate Works(chain: Chain, p: Progress, p': Progress, lo: int, hi: int, indexed: set<int>, skipped: set<int>)
    requires Fits(chain, p)
  {
    && Adjacent(chain, p.heights, lo, hi) && indexed <= chain.Keys
    && (skipped == {} || Marked(chain, p.heights) == {} || IsBound(chain, p.heights, lo, true))
    && indexed + skipped == Between(lo, hi) && indexed !! skipped
    && p'.heights == p.heights + indexed && p'.skipped == p.skipped + skipped
  }

  lemma {:induction false} RunKeepsNoHoles(chain: Chain, p: Progress, p': Progress)
    requires Fits(chain, p) && NoHolesExceptSkipped(chain, p) && DriverRun(chain, p, p')
    ensures Fits(chain, p') && NoHolesExceptSkipped(chain, p')
  {
    var lo, hi, indexed, skipped :| Works(chain, p, p', lo, hi, indexed, skipped);
    forall a, b, h | a in Marked(chain, p'.heights) && b in Marked(chain, p'.heights) && a <= h <= b
      ensures h in p'.heights || h in p'.skipped
    {
      CoveredBetween(chain, p, lo, hi, a, b, h);
    }
  }

  /** A height between two marked ones lies in the new stretch or between two that were marked before. */
  lemma {:induction false} CoveredBetween(chain: Chain, p: Progress, lo: int, hi: int, a: int, b: int, h: int)
    requires Fits(chain, p) && NoHolesExceptSkipped(chain, p) && Adjacent(chain, p.heights, lo, hi)
    requires a in Marked(chain, p.heights) || a in Between(lo, hi)
    requires b in Marked(chain, p.heights) || b in Between(lo, hi)
    requires a <= h <= b
    ensures h in Between(lo, hi) || h in p.heights || h in p.skipped
  {
  }

  /** Over any number of runs of any drivers, from an empty index on. */
  lemma {:induction false} NoHolesOverRuns(chain: Chain, ps: seq<Progress>)
    requires |ps| > 0 && ps[0] == Progress({}, {})
    requires forall i :: 0 <= i < |ps| ==> Fits(chain, ps[i])
    requires forall i :: 0 < i < |ps| ==> DriverRun(chain, ps[i - 1], ps[i])
    ensures NoHolesExceptSkipped(chain, ps[|ps| - 1])
    decreases |ps|
  {
    if |ps| > 1 {
      var before := ps[..|ps| - 1];
      NoHolesOverRuns(chain, before);
      RunKeepsNoHoles(chain, ps[|ps| - 2], ps[|ps| - 1]);
    }
  }

  // ---------------------------------------------------------------------
  // Holes
  // ---------------------------------------------------------------------

  /** h lies between two indexed blocks and is not indexed. */
  ghost predicate IsHole(chain: Chain, heights: set<int>, a: int, h: int, b: int)
    requires heights <= chain.Keys
  {
    a in Marked(chain, heights) && b in Marked(chain, heights) && a < h < b && h !in heights
  }

  /** A hole is there for good: no run of any driver comes back to it. */
  lemma {:induction false} HoleStays(chain: Chain, p: Progress, p': Progress, a: int, h: int, b: int)
    requires Fits(chain, p) && DriverRun(chain, p, p') && IsHole(chain, p.heights, a, h, b)
    ensures p'.heights <= chain.Keys && IsHole(chain, p'.heights, a, h, b)
  {
    var lo, hi, indexed, skipped :| Works(chain, p, p', lo, hi, indexed, skipped);
  }

  /**
    The run steps past a height that was not indexed before, and then indexes eth transactions
    above it; on an index without any it must also have indexed some below.
  */
  ghost predicate SkipsOver(chain: Chain, p: Progress, indexed: set<int>, skipped: set<int>)
    requires Fits(chain, p)
  {
    exists h, b :: SkippedBelow(chain, p, indexed, skipped, h, b)
  }

  ghost predicate SkippedBelow(chain: Chain, p: Progress, indexed: set<int>, skipped: set<int>, h: int, b: int)
    requires Fits(chain, p)
  {
    && indexed <= chain.Keys && h in skipped && h !in p.heights && b in Marked(chain, indexed) && h < b
    && (Marked(chain, p.heights) != {} || exists a :: a in Marked(chain, indexed) && a < h)
  }

  /** A run leaves the index without holes if and only if it had none and the run skips over nothing. */
  lemma {:induction false} RunNoHolesIff(chain: Chain, p: Progress, p': Progress,
                                         lo: int, hi: int, indexed: set<int>, skipped: set<int>)
    requires Fits(chain, p) && Works(chain, p, p', lo, hi, indexed, skipped)
    ensures Fits(chain, p')
    ensures NoHoles(chain, p'.heights) <==> NoHoles(chain, p.heights) && !SkipsOver(chain, p, indexed, skipped)
  {
    if !NoHoles(chain, p.heights) {
      var a, b, h :| a in Marked(chain, p.heights) && b in Marked(chain, p.heights) && a <= h <= b && h !in p.heights;
      HoleStays(chain, p, p', a, h, b);
    } else if SkipsOver(chain, p, indexed, skipped) {
      var h, b :| SkippedBelow(chain, p, indexed, skipped, h, b);
      SkipLeavesHole(chain, p, p', lo, hi, indexed, skipped, h, b);
    } else {
      forall a, b, h | a in Marked(chain, p'.heights) && b in Marked(chain, p'.heights) && a <= h <= b
        ensures h in p'.heights
      {
        if h !in p'.heights {
          NoOtherHole(chain, p, p', lo, hi, indexed, skipped, a, h, b);
        }
      }
    }
  }

  lemma {:induction false} SkipLeavesHole(chain: Chain, p: Progress, p': Progress, lo: int, hi: int,
                                          indexed: set<int>, skipped: set<int>, h: int, b: int)
    requires Fits(chain, p) && Fits(chain, p') && Works(chain, p, p', lo, hi, indexed, skipped)
    requires SkippedBelow(chain, p, indexed, skipped, h, b)
    ensures !NoHoles(chain, p'.heights)
  {
    assert b in Marked(chain, p'.heights) && h !in p'.heights;
    if Marked(chain, p.heights) != {} {
      assert lo in Marked(chain, p'.heights) && lo < h;
    } else {
      var a :| a in Marked(chain, indexed) && a < h;
      assert a in Marked(chain, p'.heights);
    }
  }

  /** A hole after the run is one before it, or the run skipped over it. */
  lemma {:induction false} NoOtherHole(chain: Chain, p: Progress, p': Progress, lo: int, hi: int,
                                       indexed: set<int>, skipped: set<int>, a: int, h: int, b: int)
    requires Fits(chain, p) && Fits(chain, p') && Works(chain, p, p', lo, hi, indexed, skipped)
    requires NoHoles(chain, p.heights) && IsHole(chain, p'.heights, a, h, b)
    ensures SkippedBelow(chain, p, indexed, skipped, h, b)
  {
    assert a in Marked(chain, p.heights) || a in Marked(chain, indexed);
    assert b in Marked(chain, p.heights) || b in Marked(chain, indexed);
    CoveredBetween(chain, Progress(p.heights, {}), lo, hi, a, b, h);
  }

  /** One run: the stretch it worked through, and what became of it. */
  datatype Run = Run(lo: int, hi: int, indexed: set<int>, skipped: set<int>)

  /** Any runs of any drivers, from an empty index on, and the progress after each. */
  ghost predicate IsHistory(chain: Chain, runs: seq<Run>, ps: seq<Progress>) {
    && |ps| == |runs| + 1 && ps[0] == Progress({}, {})
    && (forall i :: 0 <= i < |ps| ==> Fits(chain, ps[i]))
    && (forall i :: 0 <= i < |runs| ==> RunAt(chain, runs, ps, i))
  }

  ghost predicate RunAt(chain: Chain, runs: seq<Run>, ps: seq<Progress>, i: nat)
    requires |ps| == |runs| + 1 && i < |runs| && Fits(chain, ps[i])
  {
    Works(chain, ps[i], ps[i + 1], runs[i].lo, runs[i].hi, runs[i].indexed, runs[i].skipped)
  }

  /** Over any number of runs: there is no hole if and only if no run skipped over a height. */
  lemma {:induction false} NoHolesIff(chain: Chain, runs: seq<Run>, ps: seq<Progress>)
    requires IsHistory(chain, runs, ps)
    ensures NoHoles(chain, ps[|runs|].heights) <==>
            forall i :: 0 <= i < |runs| ==> !SkipsOver(chain, ps[i], runs[i].indexed, runs[i].skipped)
    decreases |runs|
  {
    if runs != [] {
      var n := |runs| - 1;
      HistoryPrefix(chain, runs, ps);
      NoHolesIff(chain, runs[..n], ps[..n + 1]);
      assert RunAt(chain, runs, ps, n);
      RunNoHolesIff(chain, ps[n], ps[n + 1], runs[n].lo, runs[n].hi, runs[n].indexed, runs[n].skipped);
    }
  }

  lemma {:induction false} HistoryPrefix(chain: Chain, runs: seq<Run>, ps: seq<Progress>)
    requires IsHistory(chain, runs, ps) && runs != []
    ensures IsHistory(chain, runs[..|runs| - 1], ps[..|ps| - 1])
  {
    var rs, qs := runs[..|runs| - 1], ps[..|ps| - 1];
    forall i | 0 <= i < |rs| ensures RunAt(chain, rs, qs, i) {
      assert RunAt(chain, runs, ps, i);
    }
  }

  /** A hole after some run is still there after all of them. */
  lemma {:induction false} HoleStaysOverRuns(chain: Chain, runs: seq<Run>, ps: seq<Progress>, i: nat, a: int, h: int, b: int)
    requires IsHistory(chain, runs, ps) && i < |ps| && IsHole(chain, ps[i].heights, a, h, b)
    ensures IsHole(chain, ps[|runs|].heights, a, h, b)
    decreases |runs| - i
  {
    if i < |runs| {
      assert RunAt(chain, runs, ps, i);
      HoleStays(chain, ps[i], ps[i + 1], a, h, b);
      HoleStaysOverRuns(chain, runs, ps, i + 1, a, h, b);
    }
  }

  /** A bound is -1 only for an index without eth transactions, and is unique. */
  lemma {:induction false} BoundIsHeight(chain: Chain, heights: set<int>, bound: int, last: bool)
    requires WellFormed(chain) && heights <= chain.Keys && IsBound(chain, heights, bound, last)
    ensures bound == -1 <==> Marked(chain, heights) == {}
    ensures Marked(chain, heights) != {} ==> bound >= 1 && forall b :: IsBound(chain, heights, b, last) ==> b == bound
  {
    assert BlockFits(chain, bound);
  }

  // ---------------------------------------------------------------------
  // The commands
  // ---------------------------------------------------------------------

  /** How the store fails at each height. */
  type FaultPlan = int -> Faults

  /** IndexBlock on a block of the chain. */
  method IndexHeight(kv: KVIndexer, chain: Chain, h: int, faults: Faults, ghost heights: set<int>) returns (ok: bool)
    requires Indexed(chain, heights, kv.db) && h in chain
    modifies kv
    ensures Indexed(chain, if ok then heights + {h} else heights, kv.db)
    ensures ok <==> !faults.write && !(faults.setAt.Some? && faults.setAt.value < Count(chain[h]))
  {
    assert BlockFits(chain, h);
    ghost var before := kv.db;
    ok := kv.IndexBlock(chain[h], faults);
    if ok {
      IndexBlockKeepsTables(chain, heights, before, h);
    }
  }

  /**
    index-eth-tx backward: from below the first indexed block towards height 1. On an empty
    index it starts below the store's height, so the latest block itself is not indexed.
    loads are the heights whose block and results are available, and faults says how the store
    fails at each; the first failure ends the run, which may also be cut short anywhere.
  */
  method Backward(kv: KVIndexer, chain: Chain, loads: set<int>, faults: FaultPlan,
                  storeHeight: int, budget: nat, ghost p: Progress)
    returns (completed: bool, ghost p': Progress)
    requires Fits(chain, p) && Indexed(chain, p.heights, kv.db) && loads <= chain.Keys
    modifies kv
    ensures Fits(chain, p') && Indexed(chain, p'.heights, kv.db)
    ensures DriverRun(chain, p, p') && p'.skipped == p.skipped
    ensures Marked(chain, p.heights) == {} ==> p'.heights - p.heights <= Between(0, storeHeight)
    ensures completed && Marked(chain, p.heights) == {} ==> Between(0, storeHeight) <= p'.heights
    ensures completed && Marked(chain, p.heights) != {} ==>
      forall b :: IsBound(chain, p.heights, b, false) ==> Between(0, b) <= p'.heights
  {
    var first := LoadBlock(kv.db, false, chain, p.heights);
    BoundIsHeight(chain, p.heights, first, false);
    if first == -1 {
      first := storeHeight;
    }
    ghost var heights := p.heights;
    var i := first - 1;
    var left := budget;
    while i > 0
      invariant i < first && heights == p.heights + Between(i, first)
      invariant heights <= chain.Keys && Indexed(chain, heights, kv.db)
      invariant i < first - 1 ==> i >= 0
      decreases i
    {
      if left == 0 || i !in loads {
        completed, p' := false, Progress(heights, p.skipped);
        assert Works(chain, p, p', i, first, Between(i, first), {});
        return;
      }
      var ok := IndexHeight(kv, chain, i, faults(i), heights);
      if !ok {
        completed, p' := false, Progress(heights, p.skipped);
        assert Works(chain, p, p', i, first, Between(i, first), {});
        return;
      }
      assert Between(i - 1, first) == Between(i, first) + {i};
      heights := heights + {i};
      i, left := i - 1, left - 1;
    }
    completed, p' := true, Progress(heights, p.skipped);
    assert Works(chain, p, p', i, first, Between(i, first), {});
  }

  /** index-eth-tx forward: from above the last indexed block, or from height 1, up to the store's height. */
  method Forward(kv: KVIndexer, chain: Chain, loads: set<int>, faults: FaultPlan,
                 storeHeight: int, budget: nat, ghost p: Progress)
    returns (completed: bool, ghost p': Progress)
    requires Fits(chain, p) && Indexed(chain, p.heights, kv.db) && loads <= chain.Keys
    modifies kv
    ensures Fits(chain, p') && Indexed(chain, p'.heights, kv.db)
    ensures DriverRun(chain, p, p') && p'.skipped == p.skipped
    ensures completed && Marked(chain, p.heights) == {} ==> Between(0, storeHeight + 1) <= p'.heights
    ensures completed && Marked(chain, p.heights) != {} ==>
      forall b :: IsBound(chain, p.heights, b, true) ==> Between(b, storeHeight + 1) <= p'.heights
  {
    var latest := LoadBlock(kv.db, true, chain, p.heights);
    BoundIsHeight(chain, p.heights, latest, true);
    if latest == -1 {
      latest := 0;
    }
    ghost var heights := p.heights;
    var i := latest + 1;
    var left := budget;
    while i <= storeHeight
      invariant latest < i && heights == p.heights + Between(latest, i)
      invariant heights <= chain.Keys && Indexed(chain, heights, kv.db)
      decreases storeHeight - i
    {
      if left == 0 || i !in loads {
        completed, p' := false, Progress(heights, p.skipped);
        assert Works(chain, p, p', latest, i, Between(latest, i), {});
        return;
      }
      var ok := IndexHeight(kv, chain, i, faults(i), heights);
      if !ok {
        completed, p' := false, Progress(heights, p.skipped);
        assert Works(chain, p, p', latest, i, Between(latest, i), {});
        return;
      }
      assert Between(latest, i + 1) == Between(latest, i) + {i};
      heights := heights + {i};
      i, left := i + 1, left - 1;
    }
    completed, p' := true, Progress(heights, p.skipped);
    assert Works(chain, p, p', latest, i, Between(latest, i), {});
  }

  // ---------------------------------------------------------------------
  // The service
  // ---------------------------------------------------------------------

  /** What may happen to the service: a header arrives, it wakes up, or it gets to fetch the next block. */
  datatype ServiceEvent = NewHeader(height: int) | Wake | Fetched(indexOk: bool) | FetchFailed

  /** The service's variables, and the heights it has indexed or stepped past. */
  datatype ServiceState = ServiceState(
    lastBlock: int, latestBlock: int, blockErr: bool, indexed: set<int>, skipped: set<int>)

  /**
    One event. The inner loop always continues at the block after lastBlock, so entering it
    anew and going on in it are the same step. It only fetches while behind and without an
    earlier fetch error, which is never cleared.
  */
  function ServiceStep(chain: Chain, s: ServiceState, e: ServiceEvent): ServiceState {
    match e
    case NewHeader(h) => if h > s.latestBlock then s.(latestBlock := h) else s
    case Wake => s
    case FetchFailed =>
      if s.latestBlock <= s.lastBlock || s.blockErr then s else s.(blockErr := true)
    case Fetched(indexOk) =>
      var next := s.lastBlock + 1;
      if s.latestBlock <= s.lastBlock || s.blockErr then s
      else if next !in chain then s.(blockErr := true)
      else if indexOk then s.(lastBlock := next, indexed := s.indexed + {next})
      else s.(lastBlock := next, skipped := s.skipped + {next})
  }

  function ServiceAfter(chain: Chain, s: ServiceState, es: seq<ServiceEvent>): ServiceState {
    if es == [] then s else ServiceStep(chain, ServiceAfter(chain, s, es[..|es| - 1]), es[|es| - 1])
  }

  /** The service works through consecutive heights. */
  lemma {:induction false} ServiceIsConsecutive(chain: Chain, s: ServiceState, es: seq<ServiceEvent>)
    requires s.indexed == {} && s.skipped == {}
    ensures var t := ServiceAfter(chain, s, es);
            && t.lastBlock >= s.lastBlock && t.indexed <= chain.Keys
            && t.indexed + t.skipped == Between(s.lastBlock, t.lastBlock + 1) && t.indexed !! t.skipped
    decreases |es|
  {
    if es == [] {
      assert Between(s.lastBlock, s.lastBlock + 1) == {};
    } else {
      var front := ServiceAfter(chain, s, es[..|es| - 1]);
      ServiceIsConsecutive(chain, s, es[..|es| - 1]);
      assert Between(s.lastBlock, front.lastBlock + 2) == Between(s.lastBlock, front.lastBlock + 1) + {front.lastBlock + 1};
    }
  }

  /** While IndexBlock succeeds nothing is stepped past. */
  lemma {:induction false} NothingSkipped(chain: Chain, s: ServiceState, es: seq<ServiceEvent>)
    requires forall i :: 0 <= i < |es| && es[i].Fetched? ==> es[i].indexOk
    ensures ServiceAfter(chain, s, es).skipped == s.skipped
    decreases |es|
  {
    if es != [] { NothingSkipped(chain, s, es[..|es| - 1]); }
  }

  /** The fetch of the block after lastBlock, which the service is behind on, fails at position k. */
  ghost predicate FetchFailsAt(chain: Chain, s: ServiceState, es: seq<ServiceEvent>, k: nat)
    requires k < |es|
  {
    var before := ServiceAfter(chain, s, es[..k]);
    && before.lastBlock < before.latestBlock
    && (es[k].FetchFailed? || (es[k].Fetched? && before.lastBlock + 1 !in chain))
  }

  /** After a failed fetch the service never indexes again, although its comment speaks of retrying. */
  lemma {:induction false} NoRetryAfterFetchError(chain: Chain, s: ServiceState, es: seq<ServiceEvent>, k: nat)
    requires k < |es| && FetchFailsAt(chain, s, es, k)
    ensures var before, t := ServiceAfter(chain, s, es[..k]), ServiceAfter(chain, s, es);
            && t.blockErr && t.lastBlock == before.lastBlock
            && t.indexed == before.indexed && t.skipped == before.skipped
    decreases |es|
  {
    var front := es[..|es| - 1];
    if k < |front| {
      assert front[..k] == es[..k];
      NoRetryAfterFetchError(chain, s, front, k);
    }
  }

  /** At position k the service gets through IndexBlock for h, or steps past it. */
  ghost predicate Handles(chain: Chain, s: ServiceState, es: seq<ServiceEvent>, k: nat, h: int, indexOk: bool)
    requires k < |es|
  {
    var before := ServiceAfter(chain, s, es[..k]);
    && es[k] == Fetched(indexOk) && h == before.lastBlock + 1
    && before.lastBlock < before.latestBlock && !before.blockErr && h in chain
  }

  lemma {:induction false} LastEventHandles(chain: Chain, s: ServiceState, es: seq<ServiceEvent>, h: int)
    requires es != []
    ensures var before, t := ServiceAfter(chain, s, es[..|es| - 1]), ServiceAfter(chain, s, es);
            && (h in t.indexed <==> h in before.indexed || Handles(chain, s, es, |es| - 1, h, true))
            && (h in t.skipped <==> h in before.skipped || Handles(chain, s, es, |es| - 1, h, false))
  {
  }

  /** What was indexed and what was stepped past, event by event. */
  lemma {:induction false} HandledByEvents(chain: Chain, s: ServiceState, es: seq<ServiceEvent>, h: int)
    requires s.indexed == {} && s.skipped == {}
    ensures var t := ServiceAfter(chain, s, es);
            && (h in t.indexed <==> exists k :: 0 <= k < |es| && Handles(chain, s, es, k, h, true))
            && (h in t.skipped <==> exists k :: 0 <= k < |es| && Handles(chain, s, es, k, h, false))
    decreases |es|
  {
    if es != [] {
      var n := |es| - 1;
      HandledByEvents(chain, s, es[..n], h);
      LastEventHandles(chain, s, es, h);
      forall k, ok | 0 <= k < n ensures Handles(chain, s, es, k, h, ok) == Handles(chain, s, es[..n], k, h, ok) {
        assert es[..n][..k] == es[..k];
      }
    }
  }

  lemma {:induction false} LastBlockGrows(chain: Chain, s: ServiceState, es: seq<ServiceEvent>, k: nat)
    requires k <= |es|
    ensures ServiceAfter(chain, s, es[..k]).lastBlock <= ServiceAfter(chain, s, es).lastBlock
    decreases |es|
  {
    if k == |es| {
      assert es[..k] == es;
    } else {
      assert es[..|es| - 1][..k] == es[..k];
      LastBlockGrows(chain, s, es[..|es| - 1], k);
    }
  }

  /** Heights are handled in ascending order, each with one outcome. */
  lemma {:induction false} HandlesAscending(chain: Chain, s: ServiceState, es: seq<ServiceEvent>,
                                            j: nat, k: nat, h: int, b: int, x: bool, y: bool)
    requires j <= k < |es| && Handles(chain, s, es, j, h, x) && Handles(chain, s, es, k, b, y)
    ensures if j == k then x == y else h < b
  {
    if j < k {
      assert es[..j + 1][..j] == es[..j];
      assert es[..k][..j + 1] == es[..j + 1];
      LastBlockGrows(chain, s, es[..k], j + 1);
    }
  }

  /** The variables at the start: the last indexed block, or the node's height on an index without any. */
  function ServiceStart(last: int, status: int): ServiceState {
    ServiceState(if last == -1 then status else last, status, false, {}, {})
  }

  /** The highest height heard of: the node's at the start, or a header's. */
  lemma {:induction false} LatestIsGreatest(chain: Chain, s: ServiceState, es: seq<ServiceEvent>)
    ensures var top := ServiceAfter(chain, s, es).latestBlock;
            && s.latestBlock <= top && (forall i :: 0 <= i < |es| && es[i].NewHeader? ==> es[i].height <= top)
            && (top == s.latestBlock || exists i :: 0 <= i < |es| && es[i].NewHeader? && es[i].height == top)
    decreases |es|
  {
    if es != [] {
      var front := es[..|es| - 1];
      LatestIsGreatest(chain, s, front);
      assert forall i :: 0 <= i < |front| ==> front[i] == es[i];
      var top := ServiceAfter(chain, s, front).latestBlock;
      if top != s.latestBlock {
        var i :| 0 <= i < |front| && front[i].NewHeader? && front[i].height == top;
        assert es[i].height == top;
      }
    }
  }

  /** The service gets no further than the highest height heard of, from where it started. */
  lemma {:induction false} LastWithinLatest(chain: Chain, s: ServiceState, es: seq<ServiceEvent>)
    ensures var t := ServiceAfter(chain, s, es); t.lastBlock <= s.lastBlock || t.lastBlock <= t.latestBlock
    decreases |es|
  {
    if es != [] { LastWithinLatest(chain, s, es[..|es| - 1]); }
  }

  /**
    Where the service works: upwards from the last indexed block, or from the node's height on an
    index without eth transactions, whose earlier blocks it never indexes; and up to the highest
    height heard of.
  */
  lemma {:induction false} ServiceRange(chain: Chain, last: int, status: int, es: seq<ServiceEvent>, h: int)
    requires var t := ServiceAfter(chain, ServiceStart(last, status), es); h in t.indexed + t.skipped
    ensures h > if last == -1 then status else last
    ensures h <= status || exists i :: 0 <= i < |es| && es[i].NewHeader? && h <= es[i].height
  {
    var s := ServiceStart(last, status);
    ServiceIsConsecutive(chain, s, es);
    LatestIsGreatest(chain, s, es);
    LastWithinLatest(chain, s, es);
  }

  /**
    IndexBlock fails for a height not indexed before and later succeeds for one with eth
    transactions; on an index without any it also succeeded for such a height earlier.
  */
  ghost predicate FailurePassed(chain: Chain, p: Progress, s: ServiceState, es: seq<ServiceEvent>)
    requires Fits(chain, p)
  {
    exists j, k, h, b :: PassesFailure(chain, p, s, es, j, k, h, b)
  }

  ghost predicate PassesFailure(chain: Chain, p: Progress, s: ServiceState, es: seq<ServiceEvent>,
                                j: int, k: int, h: int, b: int)
    requires Fits(chain, p)
  {
    && 0 <= j < k < |es| && Handles(chain, s, es, j, h, false) && h !in p.heights && HandlesTxs(chain, s, es, k, b)
    && (Marked(chain, p.heights) != {} || exists i, a :: 0 <= i < j && HandlesTxs(chain, s, es, i, a))
  }

  ghost predicate HandlesTxs(chain: Chain, s: ServiceState, es: seq<ServiceEvent>, k: nat, b: int)
    requires k < |es|
  {
    Handles(chain, s, es, k, b, true) && Count(chain[b]) > 0
  }

  lemma {:induction false} MarkedByEvents(chain: Chain, s: ServiceState, es: seq<ServiceEvent>, b: int)
    requires s.indexed == {} && s.skipped == {} && ServiceAfter(chain, s, es).indexed <= chain.Keys
    ensures b in Marked(chain, ServiceAfter(chain, s, es).indexed) <==> exists k :: 0 <= k < |es| && HandlesTxs(chain, s, es, k, b)
  {
    HandledByEvents(chain, s, es, b);
    if b in ServiceAfter(chain, s, es).indexed && Count(chain[b]) > 0 {
      var k :| 0 <= k < |es| && Handles(chain, s, es, k, b, true);
      assert HandlesTxs(chain, s, es, k, b);
    }
  }

  lemma {:induction false} SkipMeansFailurePassed(chain: Chain, p: Progress, s: ServiceState, es: seq<ServiceEvent>, h: int, b: int)
    requires Fits(chain, p) && s.indexed == {} && s.skipped == {} && ServiceAfter(chain, s, es).indexed <= chain.Keys
    requires var t := ServiceAfter(chain, s, es); SkippedBelow(chain, p, t.indexed, t.skipped, h, b)
    ensures FailurePassed(chain, p, s, es)
  {
    hide Handles, ServiceAfter;
    var t := ServiceAfter(chain, s, es);
    HandledByEvents(chain, s, es, h);
    MarkedByEvents(chain, s, es, b);
    var j :| 0 <= j < |es| && Handles(chain, s, es, j, h, false);
    var k :| 0 <= k < |es| && HandlesTxs(chain, s, es, k, b);
    if k <= j { HandlesAscending(chain, s, es, k, j, b, h, true, false); }
    if Marked(chain, p.heights) == {} {
      var a :| a in Marked(chain, t.indexed) && a < h;
      MarkedByEvents(chain, s, es, a);
      var i :| 0 <= i < |es| && HandlesTxs(chain, s, es, i, a);
      if j <= i { HandlesAscending(chain, s, es, j, i, h, a, false, true); }
    }
    assert PassesFailure(chain, p, s, es, j, k, h, b);
  }

  lemma {:induction false} FailurePassedMeansSkip(chain: Chain, p: Progress, s: ServiceState, es: seq<ServiceEvent>,
                                                  j: nat, k: nat, h: int, b: int)
    requires Fits(chain, p) && s.indexed == {} && s.skipped == {} && ServiceAfter(chain, s, es).indexed <= chain.Keys
    requires PassesFailure(chain, p, s, es, j, k, h, b)
    ensures var t := ServiceAfter(chain, s, es); SkippedBelow(chain, p, t.indexed, t.skipped, h, b)
  {
    hide Handles, ServiceAfter;
    HandledByEvents(chain, s, es, h);
    MarkedByEvents(chain, s, es, b);
    HandlesAscending(chain, s, es, j, k, h, b, false, true);
    if Marked(chain, p.heights) == {} {
      var i, a :| 0 <= i < j && HandlesTxs(chain, s, es, i, a);
      MarkedByEvents(chain, s, es, a);
      HandlesAscending(chain, s, es, i, j, a, h, true, false);
    }
  }

  /**
    The service keeps an index free of holes if and only if it does not pass a failed
    IndexBlock, whatever events happen in whatever order.
  */
  lemma {:induction false} ServiceNoHolesIff(chain: Chain, p: Progress, last: int, status: int, es: seq<ServiceEvent>)
    requires WellFormed(chain) && Fits(chain, p) && IsBound(chain, p.heights, last, true) && NoHoles(chain, p.heights)
    ensures var s, t := ServiceStart(last, status), ServiceAfter(chain, ServiceStart(last, status), es);
            && t.indexed <= chain.Keys
            && (NoHoles(chain, p.heights + t.indexed) <==> !FailurePassed(chain, p, s, es))
  {
    var s, t := ServiceStart(last, status), ServiceAfter(chain, ServiceStart(last, status), es);
    ServiceIsConsecutive(chain, s, es);
    BoundIsHeight(chain, p.heights, last, true);
    var p' := Progress(p.heights + t.indexed, p.skipped + t.skipped);
    assert Works(chain, p, p', s.lastBlock, t.lastBlock + 1, t.indexed, t.skipped);
    RunNoHolesIff(chain, p, p', s.lastBlock, t.lastBlock + 1, t.indexed, t.skipped);
    if SkipsOver(chain, p, t.indexed, t.skipped) {
      var h, b :| SkippedBelow(chain, p, t.indexed, t.skipped, h, b);
      SkipMeansFailurePassed(chain, p, s, es, h, b);
    }
    if FailurePassed(chain, p, s, es) {
      var j, k, h, b :| PassesFailure(chain, p, s, es, j, k, h, b);
      FailurePassedMeansSkip(chain, p, s, es, j, k, h, b);
    }
  }

  /** A run of the service on an empty index in which IndexBlock fails for block 2 and leaves a hole there. */
  lemma {:induction false} FailedIndexBlockLeavesHole(chain: Chain)
    requires {1, 2, 3} <= chain.Keys && Count(chain[1]) > 0 && Count(chain[3]) > 0
    ensures var t := ServiceAfter(chain, ServiceStart(-1, 0), [NewHeader(3), Fetched(true), Fetched(false), Fetched(true)]);
            t.indexed == {1, 3} && t.skipped == {2} && IsHole(chain, t.indexed, 1, 2, 3)
  {
    var e1 := [NewHeader(3), Fetched(true)];
    var e2 := e1 + [Fetched(false)];
    assert e1[..1] == [NewHeader(3)] && e2[..2] == e1 && (e2 + [Fetched(true)])[..3] == e2;
    assert ServiceAfter(chain, ServiceStart(-1, 0), [NewHeader(3)]) == ServiceState(0, 3, false, {}, {});
    assert ServiceAfter(chain, ServiceStart(-1, 0), e1) == ServiceState(1, 3, false, {1}, {});
    assert ServiceAfter(chain, ServiceStart(-1, 0), e2) == ServiceState(2, 3, false, {1}, {2});
    assert e2 + [Fetched(true)] == [NewHeader(3), Fetched(true), Fetched(false), Fetched(true)];
    assert {1, 3} == {1} + {3};
  }

  /** OnStart's loop, driven by events and stopped after the last of them. */
  method Service(kv: KVIndexer, chain: Chain, status: int, events: seq<ServiceEvent>, ghost p: Progress)
    returns (ghost p': Progress)
    requires Fits(chain, p) && Indexed(chain, p.heights, kv.db)
    modifies kv
    ensures Fits(chain, p') && Indexed(chain, p'.heights, kv.db)
    ensures DriverRun(chain, p, p')
    ensures forall last :: IsBound(chain, p.heights, last, true) ==>
      var t := ServiceAfter(chain, ServiceStart(last, status), events);
      p' == Progress(p.heights + t.indexed, p.skipped + t.skipped)
    ensures (forall i :: 0 <= i < |events| && events[i].Fetched? ==> events[i].indexOk) ==> p'.skipped == p.skipped
  {
    var latestBlock := status;
    var lastBlock := LoadBlock(kv.db, true, chain, p.heights);
    BoundIsHeight(chain, p.heights, lastBlock, true);
    ghost var s0 := ServiceStart(lastBlock, status);
    if lastBlock == -1 {
      lastBlock := latestBlock;
    }
    var blockErr := false;
    ghost var s := s0;
    assert p.heights + {} == p.heights;
    for k := 0 to |events|
      invariant s == ServiceAfter(chain, s0, events[..k]) && s.indexed <= chain.Keys
      invariant lastBlock == s.lastBlock && latestBlock == s.latestBlock && blockErr == s.blockErr
      invariant Indexed(chain, p.heights + s.indexed, kv.db)
    {
      assert events[..k + 1][..k] == events[..k];
      ghost var before := s;
      s := ServiceStep(chain, s, events[k]);
      match events[k]
      case NewHeader(h) =>
        if h > latestBlock { latestBlock := h; }
      case Wake =>
      case FetchFailed =>
        if !(latestBlock <= lastBlock || blockErr) { blockErr := true; }
      case Fetched(indexOk) =>
        if !(latestBlock <= lastBlock || blockErr) {
          var i := lastBlock + 1;
          if i !in chain {
            blockErr := true;
          } else {
            var ok := IndexHeight(kv, chain, i, Faults(None, !indexOk), p.heights + before.indexed);
            assert p.heights + before.indexed + {i} == p.heights + (before.indexed + {i});
            lastBlock := i;
          }
        }
    }
    assert events[..|events|] == events;
    ServiceIsConsecutive(chain, s0, events);
    if forall i :: 0 <= i < |events| && events[i].Fetched? ==> events[i].indexOk {
      NothingSkipped(chain, s0, events);
    }
    p' := Progress(p.heights + s.indexed, p.skipped + s.skipped);
    assert Works(chain, p, p', s0.lastBlock, s.lastBlock + 1, s.indexed, s.skipped);
  }
}
