/**
  The txpool's reset loop (mempool/txpool/txpool.go) as a step system: an event
  loop, a background reset holding the busy token, heads that arrive meanwhile,
  forced resets requested by Sync, and shutdown.

  An event names everything a step chooses, so a run is the sequence of its events.
*/
module ResetLoop {
  import opened Wrappers

  /** Identity of a header; the loop compares header pointers. */
  type Header = nat

  /** A Sync call, identified by the channel it waits on. */
  type Waiter = nat

  /** The background reset: from which head to which, and whether all subpools are done. */
  datatype Job = Job(from: Header, to: Header, finished: bool)

  datatype Phase = AtTop | Waiting | Terminated

  datatype State = State(
    phase: Phase,
    oldHead: Header,
    newHead: Header,
    job: Option<Job>,
    busy: bool,
    forced: bool,
    waiter: Option<Waiter>,
    quitting: bool,
    stateHead: Header)

  datatype Event =
    | Begin(from: Header, to: Header, stateFound: bool) // the token is taken and a reset starts
    | Pass                                             // nothing to start, or the token is held
    | NewHead(head: Header)
    | Finish                                           // the background reset is through all subpools
    | Done(reached: Header, answered: Option<Waiter>)  // its result is received
    | Sync(waiter: Waiter)
    | Quit
    | Terminate(failed: Option<Waiter>)

  function Init(head: Header): State {
    State(AtTop, head, head, None, false, false, None, false, head)
  }

  function Answered(s: State): Option<Waiter> {
    if s.waiter.Some? && !s.forced then s.waiter else None
  }

  /** The state after an event, or None when the event is not possible. */
  function Step(s: State, e: Event): Option<State> {
    var wantsReset := s.newHead != s.oldHead || s.forced;
    match e
    case Begin(from, to, stateFound) =>
      if s.phase == AtTop && !s.quitting && wantsReset && !s.busy && from == s.oldHead && to == s.newHead
      then Some(s.(phase := Waiting, busy := true, job := Some(Job(from, to, false)), forced := false,
                   stateHead := if stateFound then to else s.stateHead))
      else None
    case Pass =>
      if s.phase == AtTop && !s.quitting && !(wantsReset && !s.busy) then Some(s.(phase := Waiting)) else None
    case NewHead(h) =>
      if s.phase == Waiting then Some(s.(phase := AtTop, newHead := h)) else None
    case Finish =>
      if s.job.Some? && !s.job.value.finished then Some(s.(job := Some(s.job.value.(finished := true)))) else None
    case Done(reached, answered) =>
      if s.phase == Waiting && s.job.Some? && s.job.value.finished && reached == s.job.value.to && answered == Answered(s)
      then Some(s.(phase := AtTop, oldHead := reached, busy := false, job := None,
                   waiter := if answered.Some? then None else s.waiter))
      else None
    case Sync(w) =>
      if s.phase == Waiting then Some(s.(phase := AtTop, forced := true, waiter := Some(w))) else None
    case Quit =>
      if s.phase == Waiting then Some(s.(phase := AtTop, quitting := true)) else None
    case Terminate(failed) =>
      if s.phase == AtTop && s.quitting && failed == s.waiter
      then Some(s.(phase := Terminated, waiter := None)) else None
  }

  /** The state after a sequence of events from the pool's creation at the given head. */
  function After(head: Header, es: seq<Event>): Option<State> {
    if es == [] then Some(Init(head))
    else
      var before := After(head, es[..|es| - 1]);
      if before.None? then None else Step(before.value, es[|es| - 1])
  }

  predicate IsRun(head: Header, es: seq<Event>) {
    After(head, es).Some?
  }

  lemma {:induction false} PrefixIsRun(head: Header, es: seq<Event>, k: nat)
    requires IsRun(head, es) && k <= |es|
    ensures IsRun(head, es[..k])
    decreases |es|
  {
    if k < |es| {
      PrefixIsRun(head, es[..|es| - 1], k);
      assert es[..|es| - 1][..k] == es[..k];
    } else {
      assert es[..k] == es;
    }
  }

  // ---------------------------------------------------------------------
  // What a history says
  // ---------------------------------------------------------------------

  /** What a history is searched for: a reset begun, finished by the subpools or done, or a sync requested. */
  datatype Kind = Beginning | Finishing | Completion | Request

  predicate IsKind(e: Event, kind: Kind) {
    match kind
    case Beginning => e.Begin?
    case Finishing => e.Finish?
    case Completion => e.Done?
    case Request => e.Sync?
  }

  /** The position of the last event of a kind, or -1. */
  function Last(es: seq<Event>, kind: Kind): int {
    if es == [] then -1 else if IsKind(es[|es| - 1], kind) then |es| - 1 else Last(es[..|es| - 1], kind)
  }

  /** The newest head announced so far. */
  function LatestHead(head: Header, es: seq<Event>): Header {
    if es == [] then head
    else if es[|es| - 1].NewHead? then es[|es| - 1].head
    else LatestHead(head, es[..|es| - 1])
  }

  /** The head the last completed reset reached. */
  function HeadReached(head: Header, es: seq<Event>): Header {
    if es == [] then head
    else if es[|es| - 1].Done? then es[|es| - 1].reached
    else HeadReached(head, es[..|es| - 1])
  }

  /** The last head a reset was begun to whose state was available. */
  function StateReached(head: Header, es: seq<Event>): Header {
    if es == [] then head
    else if es[|es| - 1].Begin? && es[|es| - 1].stateFound then es[|es| - 1].to
    else StateReached(head, es[..|es| - 1])
  }

  predicate HasQuit(es: seq<Event>) {
    exists i :: 0 <= i < |es| && es[i].Quit?
  }

  lemma {:induction false} LastSpec(es: seq<Event>, kind: Kind)
    ensures -1 <= Last(es, kind) < |es|
    ensures Last(es, kind) >= 0 ==> IsKind(es[Last(es, kind)], kind)
    ensures forall i :: Last(es, kind) < i < |es| ==> !IsKind(es[i], kind)
  {
    if es != [] && !IsKind(es[|es| - 1], kind) { LastSpec(es[..|es| - 1], kind); }
  }

  lemma {:induction false} LastSnoc(es: seq<Event>, e: Event, kind: Kind)
    ensures Last(es + [e], kind) == if IsKind(e, kind) then |es| else Last(es, kind)
    ensures -1 <= Last(es, kind) < |es|
  {
    LastSpec(es, kind);
    assert (es + [e])[..|es|] == es;
  }

  // ---------------------------------------------------------------------
  // The invariant tying the state to the history
  // ---------------------------------------------------------------------

  /** The token is held exactly while a reset runs, which is the last one begun and not done. */
  ghost predicate JobMatches(head: Header, es: seq<Event>, s: State) {
    && s.busy == s.job.Some?
    && s.oldHead == HeadReached(head, es) && s.newHead == LatestHead(head, es)
    && (s.job.None? ==> Last(es, Beginning) <= Last(es, Completion))
    && (s.job.Some? ==>
          && Last(es, Completion) < Last(es, Beginning) < |es|
          && 0 <= Last(es, Beginning) && es[Last(es, Beginning)].Begin?
          && es[Last(es, Beginning)].from == s.job.value.from == s.oldHead
          && es[Last(es, Beginning)].to == s.job.value.to
          && (s.job.value.finished <==> Last(es, Finishing) > Last(es, Beginning)))
  }

  /** A pending forced reset is one requested after the last reset began. */
  ghost predicate SyncMatches(es: seq<Event>, s: State) {
    && (s.forced ==> s.waiter.Some? || s.phase == Terminated)
    && (s.forced <==> Last(es, Request) > Last(es, Beginning))
    && (s.waiter.Some? ==> 0 <= Last(es, Request) < |es| && es[Last(es, Request)] == Sync(s.waiter.value))
  }

  ghost predicate PhaseMatches(es: seq<Event>, s: State) {
    && (s.phase == Waiting && s.job.None? ==> s.newHead == s.oldHead && !s.forced)
    && (s.phase == Waiting ==> !s.quitting)
    && (s.phase == Terminated ==> s.quitting)
    && (s.quitting <==> HasQuit(es))
  }

  ghost predicate AllStatesFound(es: seq<Event>) {
    forall i :: 0 <= i < |es| && es[i].Begin? ==> es[i].stateFound
  }

  /**
    The pool's state is that of the last head whose state was available, which is the head being
    reset to as long as every head's was.
  */
  ghost predicate StateMatches(head: Header, es: seq<Event>, s: State) {
    && s.stateHead == StateReached(head, es)
    && (AllStatesFound(es) ==> s.stateHead == if s.job.Some? then s.job.value.to else s.oldHead)
  }

  ghost predicate Matches(head: Header, es: seq<Event>, s: State) {
    JobMatches(head, es, s) && SyncMatches(es, s) && PhaseMatches(es, s) && StateMatches(head, es, s)
  }

  lemma {:induction false} StepKeepsJob(head: Header, es: seq<Event>, s: State, e: Event)
    requires Matches(head, es, s) && Step(s, e).Some?
    ensures JobMatches(head, es + [e], Step(s, e).value)
  {
    hide SyncMatches, PhaseMatches, StateMatches, Last;
    assert (es + [e])[..|es|] == es;
    LastSnoc(es, e, Beginning);
    LastSnoc(es, e, Finishing);
    LastSnoc(es, e, Completion);
  }

  lemma {:induction false} StepKeepsSync(head: Header, es: seq<Event>, s: State, e: Event)
    requires Matches(head, es, s) && Step(s, e).Some?
    ensures SyncMatches(es + [e], Step(s, e).value)
  {
    hide JobMatches, PhaseMatches, StateMatches, Last;
    LastSnoc(es, e, Beginning);
    LastSnoc(es, e, Request);
  }

  lemma {:induction false} StepKeepsPhase(head: Header, es: seq<Event>, s: State, e: Event)
    requires Matches(head, es, s) && Step(s, e).Some?
    ensures PhaseMatches(es + [e], Step(s, e).value)
  {
    var longer := es + [e];
    assert longer[|es|] == e;
    if HasQuit(es) {
      var i :| 0 <= i < |es| && es[i].Quit?;
      assert longer[i].Quit?;
    }
  }

  lemma {:induction false} StepKeepsState(head: Header, es: seq<Event>, s: State, e: Event)
    requires Matches(head, es, s) && Step(s, e).Some?
    ensures StateMatches(head, es + [e], Step(s, e).value)
  {
    var longer := es + [e];
    assert longer[|es|] == e && longer[..|es|] == es;
    if AllStatesFound(longer) {
      assert forall i :: 0 <= i < |es| ==> es[i] == longer[i];
    }
  }

  /** The invariant holds after every run. */
  lemma {:induction false} RunMatches(head: Header, es: seq<Event>)
    requires IsRun(head, es)
    ensures Matches(head, es, After(head, es).value)
    decreases |es|
  {
    if es != [] {
      var before, e := es[..|es| - 1], es[|es| - 1];
      RunMatches(head, before);
      var s := After(head, before).value;
      StepKeepsJob(head, before, s, e);
      StepKeepsSync(head, before, s, e);
      StepKeepsPhase(head, before, s, e);
      StepKeepsState(head, before, s, e);
      assert before + [e] == es;
    }
  }

  /** The state just before position k of a run, and that the step there was possible. */
  lemma {:induction false} StateBefore(head: Header, es: seq<Event>, k: nat) returns (s: State)
    requires IsRun(head, es) && k < |es|
    ensures After(head, es[..k]) == Some(s) && Step(s, es[k]).Some? && Matches(head, es[..k], s)
  {
    PrefixIsRun(head, es, k);
    PrefixIsRun(head, es, k + 1);
    assert es[..k + 1][..k] == es[..k] && es[..k + 1][k] == es[k];
    RunMatches(head, es[..k]);
    s := After(head, es[..k]).value;
  }

  // ---------------------------------------------------------------------
  // Safety over whole runs
  // ---------------------------------------------------------------------

  /** A reset starts from the head the previous one reached and goes to the newest head. */
  lemma {:induction false} ResetsChain(head: Header, es: seq<Event>, j: nat)
    requires IsRun(head, es) && j < |es| && es[j].Begin?
    ensures es[j].from == HeadReached(head, es[..j])
    ensures es[j].to == LatestHead(head, es[..j])
  {
    var s := StateBefore(head, es, j);
  }

  /** What is reported done is the last reset begun, after the subpools have finished it. */
  lemma {:induction false} DoneReportsBegun(head: Header, es: seq<Event>, k: nat) returns (b: nat, f: nat)
    requires IsRun(head, es) && k < |es| && es[k].Done?
    ensures b < f < k && es[b].Begin? && es[f].Finish? && es[b].to == es[k].reached
    ensures forall i :: b < i < k ==> !es[i].Begin? && !es[i].Done?
  {
    var s := StateBefore(head, es, k);
    var p := es[..k];
    LastSpec(p, Beginning);
    LastSpec(p, Finishing);
    LastSpec(p, Completion);
    b, f := Last(p, Beginning), Last(p, Finishing);
    assert forall i :: 0 <= i < k ==> p[i] == es[i];
  }

  /** Resets never overlap: between two beginnings the subpools finish one reset, which is then done. */
  lemma {:induction false} ResetsNeverOverlap(head: Header, es: seq<Event>, i: nat, j: nat) returns (f: nat, k: nat)
    requires IsRun(head, es) && i < j < |es| && es[i].Begin? && es[j].Begin?
    ensures i < f < k < j && es[f].Finish? && es[k].Done?
  {
    var s := StateBefore(head, es, j);
    var p := es[..j];
    LastSpec(p, Beginning);
    LastSpec(p, Completion);
    assert p[i].Begin?;
    k := Last(p, Completion);
    assert p[k] == es[k] && i <= Last(p, Beginning) <= k;
    var b;
    b, f := DoneReportsBegun(head, es, k);
    assert i <= b;
  }

  /** No reset starts once shutdown was requested. */
  lemma {:induction false} NoResetAfterQuit(head: Header, es: seq<Event>, i: nat, j: nat)
    requires IsRun(head, es) && i < j < |es| && es[i].Quit?
    ensures !es[j].Begin?
  {
    var s := StateBefore(head, es, j);
    assert es[..j][i].Quit?;
  }

  /**
    The loop waits with no reset running only when the newest head is applied and every
    forced reset requested so far was followed by a reset; the pool then answers from that
    head's state, unless some head's state was not available.
  */
  lemma {:induction false} QuietMeansApplied(head: Header, es: seq<Event>)
    requires IsRun(head, es)
    requires After(head, es).value.phase == Waiting && After(head, es).value.job.None?
    ensures HeadReached(head, es) == LatestHead(head, es)
    ensures After(head, es).value.stateHead == StateReached(head, es)
    ensures AllStatesFound(es) ==> After(head, es).value.stateHead == LatestHead(head, es)
    ensures forall r :: 0 <= r < |es| && es[r].Sync? ==> exists b :: r < b < |es| && es[b].Begin?
  {
    RunMatches(head, es);
    LastSpec(es, Request);
    LastSpec(es, Beginning);
    forall r | 0 <= r < |es| && es[r].Sync? ensures exists b :: r < b < |es| && es[b].Begin? {
      assert r <= Last(es, Request) && es[Last(es, Beginning)].Begin?;
      assert Last(es, Request) != Last(es, Beginning);
    }
  }

  /**
    A Sync that is answered without error saw a whole reset: one that began after the
    request, went to the head that was newest when it began, was finished by the subpools
    and is the one reported done.
  */
  lemma {:induction false} SyncSawReset(head: Header, es: seq<Event>, k: nat, w: Waiter) returns (r: nat, b: nat, f: nat)
    requires IsRun(head, es) && k < |es| && es[k].Done? && es[k].answered == Some(w)
    ensures r < b < f < k && es[r] == Sync(w) && es[b].Begin? && es[f].Finish?
    ensures es[b].to == es[k].reached == LatestHead(head, es[..b])
    ensures forall i :: b < i < k ==> !es[i].Begin?
  {
    var s := StateBefore(head, es, k);
    var p := es[..k];
    b, f := DoneReportsBegun(head, es, k);
    LastSpec(p, Request);
    LastSpec(p, Beginning);
    r := Last(p, Request);
    assert p[b].Begin? && Last(p, Beginning) == b;
    assert r != b;
    ResetsChain(head, es, b);
  }

  // ---------------------------------------------------------------------
  // Which Sync calls are told
  // ---------------------------------------------------------------------

  /** The event answers the waiter, or tells it of the shutdown. */
  predicate Tells(e: Event, w: Waiter) {
    (e.Done? && e.answered == Some(w)) || (e.Terminate? && e.failed == Some(w))
  }

  /** The waiter is told at some position from lo on and before hi. */
  ghost predicate ToldBetween(es: seq<Event>, w: Waiter, lo: int, hi: int) {
    exists k :: 0 <= lo <= k < hi <= |es| && Tells(es[k], w)
  }

  /** Another Sync comes after position i while the waiter is untold. */
  ghost predicate ReplacedUntold(es: seq<Event>, w: Waiter, i: int) {
    exists j :: 0 <= i < j < |es| && es[j].Sync? && !ToldBetween(es, w, i, j)
  }

  /** Once a second Sync replaced it, an unanswered waiter is never answered, nor told of the shutdown. */
  lemma {:induction false} ReplacedWaiterIsForgotten(head: Header, es: seq<Event>, i: nat, j: nat, k: nat, w: Waiter)
    requires IsRun(head, es) && i < j < k < |es| && es[i] == Sync(w) && es[j].Sync?
    requires forall x :: 0 <= x < |es| && es[x] == Sync(w) ==> x == i
    ensures !Tells(es[k], w)
  {
    var s := StateBefore(head, es, k);
    var p := es[..k];
    LastSpec(p, Request);
    assert p[j].Sync? && Last(p, Request) >= j;
    assert p[Last(p, Request)] == es[Last(p, Request)];
  }

  /** The last Sync of a run still waits, or was told. */
  lemma {:induction false} LastSyncWaitsOrTold(head: Header, es: seq<Event>)
    requires IsRun(head, es) && Last(es, Request) >= 0
    ensures Last(es, Request) < |es| && es[Last(es, Request)].Sync?
    ensures var w := es[Last(es, Request)].waiter;
            After(head, es).value.waiter == Some(w) || ToldBetween(es, w, Last(es, Request), |es|)
    decreases |es|
  {
    LastSpec(es, Request);
    var before, e := es[..|es| - 1], es[|es| - 1];
    if !e.Sync? {
      LastSyncWaitsOrTold(head, before);
      var r := Last(before, Request);
      var w := es[r].waiter;
      if ToldBetween(before, w, r, |before|) {
        var k :| r <= k < |before| && Tells(before[k], w);
        assert Tells(es[k], w);
      } else if After(head, es).value.waiter != Some(w) {
        assert Tells(es[|es| - 1], w);
      }
    }
  }

  /**
    Exactly the replaced waiters are forgotten: after any run a Sync has been told or still
    waits if and only if no other Sync came while it was untold. Nothing waits at the end of
    a run that has terminated, so there it has been told.
  */
  lemma {:induction false} ToldIffNotReplaced(head: Header, es: seq<Event>, i: nat, w: Waiter)
    requires IsRun(head, es) && i < |es| && es[i] == Sync(w)
    requires forall x :: 0 <= x < |es| && es[x] == Sync(w) ==> x == i
    ensures var s := After(head, es).value;
            && ((ToldBetween(es, w, i, |es|) || s.waiter == Some(w)) <==> !ReplacedUntold(es, w, i))
            && (s.phase == Terminated ==> (ToldBetween(es, w, i, |es|) <==> !ReplacedUntold(es, w, i)))
  {
    RunMatches(head, es);
    LastSpec(es, Request);
    if ReplacedUntold(es, w, i) {
      var j :| i < j < |es| && es[j].Sync? && !ToldBetween(es, w, i, j);
      ReplacedIsNeverTold(head, es, i, j, w);
    } else {
      LastSyncWaitsOrTold(head, es);
    }
    if After(head, es).value.phase == Terminated { TerminatedWaitsForNothing(head, es); }
  }

  lemma {:induction false} ReplacedIsNeverTold(head: Header, es: seq<Event>, i: nat, j: nat, w: Waiter)
    requires IsRun(head, es) && i < j < |es| && es[i] == Sync(w) && es[j].Sync? && !ToldBetween(es, w, i, j)
    requires forall x :: 0 <= x < |es| && es[x] == Sync(w) ==> x == i
    ensures !ToldBetween(es, w, i, |es|)
  {
    forall k | i <= k < |es| ensures !Tells(es[k], w) {
      if k > j { ReplacedWaiterIsForgotten(head, es, i, j, k, w); }
    }
  }

  lemma {:induction false} TerminatedWaitsForNothing(head: Header, es: seq<Event>)
    requires IsRun(head, es) && After(head, es).value.phase == Terminated
    ensures After(head, es).value.waiter.None?
    decreases |es|
  {
    if !es[|es| - 1].Terminate? { TerminatedWaitsForNothing(head, es[..|es| - 1]); }
  }

  // ---------------------------------------------------------------------
  // Exactly the histories that happen
  // ---------------------------------------------------------------------

  /** Where the loop is, by the last event that was its own. */
  function HistoryPhase(es: seq<Event>): Phase {
    if es == [] then AtTop
    else
      match es[|es| - 1]
      case Finish => HistoryPhase(es[..|es| - 1])
      case Begin(_, _, _) => Waiting
      case Pass => Waiting
      case Terminate(_) => Terminated
      case _ => AtTop
  }

  /** A reset was begun and is not reported done. */
  predicate Running(es: seq<Event>) {
    Last(es, Completion) < Last(es, Beginning)
  }

  /** A new head is not applied, or a sync was requested after the last reset began. */
  predicate ResetDue(head: Header, es: seq<Event>) {
    LatestHead(head, es) != HeadReached(head, es) || Last(es, Beginning) < Last(es, Request)
  }

  /** The last sync that was requested, if it has not been told. */
  ghost function Untold(es: seq<Event>): Option<Waiter> {
    var r := Last(es, Request);
    if 0 <= r < |es| && es[r].Sync? && !ToldBetween(es, es[r].waiter, r, |es|) then Some(es[r].waiter) else None
  }

  /**
    What may come next, in terms of the events so far and nothing else. A reset that is reported
    answers the untold sync if it began after the request, and only then; the shutdown tells
    whoever is untold.
  */
  ghost predicate Allowed(head: Header, es: seq<Event>, e: Event) {
    var b := Last(es, Beginning);
    match e
    case Begin(from, to, _) =>
      && HistoryPhase(es) == AtTop && !HasQuit(es) && !Running(es) && ResetDue(head, es)
      && from == HeadReached(head, es) && to == LatestHead(head, es)
    case Pass => HistoryPhase(es) == AtTop && !HasQuit(es) && (Running(es) || !ResetDue(head, es))
    case NewHead(_) => HistoryPhase(es) == Waiting
    case Sync(_) => HistoryPhase(es) == Waiting
    case Quit => HistoryPhase(es) == Waiting
    case Finish => Running(es) && Last(es, Finishing) < b
    case Done(reached, answered) =>
      && HistoryPhase(es) == Waiting && Running(es) && b < Last(es, Finishing)
      && 0 <= b < |es| && es[b].Begin? && reached == es[b].to
      && answered == if Last(es, Request) < b then Untold(es) else None
    case Terminate(failed) => HistoryPhase(es) == AtTop && HasQuit(es) && failed == Untold(es)
  }

  lemma {:induction false} PhaseIsHistory(head: Header, es: seq<Event>)
    requires IsRun(head, es)
    ensures After(head, es).value.phase == HistoryPhase(es)
    decreases |es|
  {
    if es != [] { PhaseIsHistory(head, es[..|es| - 1]); }
  }

  lemma {:induction false} UntoldSnoc(es: seq<Event>, e: Event)
    ensures Untold(es + [e]) ==
            if e.Sync? then Some(e.waiter)
            else if Untold(es).Some? && Tells(e, Untold(es).value) then None
            else Untold(es)
  {
    var longer, r := es + [e], Last(es, Request);
    LastSnoc(es, e, Request);
    LastSpec(es, Request);
    if !e.Sync? && r >= 0 {
      var w := es[r].waiter;
      if ToldBetween(es, w, r, |es|) {
        var k :| r <= k < |es| && Tells(es[k], w);
        assert Tells(longer[k], w);
      } else if Tells(e, w) {
        assert Tells(longer[|es|], w);
      } else {
        assert forall k :: 0 <= k < |es| ==> longer[k] == es[k];
      }
    }
  }

  /** The channel the loop holds is that of the untold sync. */
  lemma {:induction false} WaiterIsUntold(head: Header, es: seq<Event>)
    requires IsRun(head, es)
    ensures After(head, es).value.waiter == Untold(es)
    decreases |es|
  {
    if es != [] {
      var before, e := es[..|es| - 1], es[|es| - 1];
      WaiterIsUntold(head, before);
      UntoldSnoc(before, e);
      assert before + [e] == es;
    }
  }

  /** The loop takes a step exactly when the history so far allows it. */
  lemma {:induction false} PossibleIff(head: Header, es: seq<Event>, e: Event)
    requires IsRun(head, es)
    ensures IsRun(head, es + [e]) <==> Allowed(head, es, e)
  {
    hide After, Last, Untold, HistoryPhase, LatestHead, HeadReached, HasQuit, StateMatches;
    var s := After(head, es).value;
    RunMatches(head, es);
    PhaseIsHistory(head, es);
    WaiterIsUntold(head, es);
    LastSpec(es, Finishing);
    LastSpec(es, Beginning);
    LastSpec(es, Request);
    Extend(head, es, s, e);
  }

  /** The runs of the loop are exactly the histories in which every event was allowed when it came. */
  lemma {:induction false} RunIff(head: Header, es: seq<Event>)
    ensures IsRun(head, es) <==> forall k :: 0 <= k < |es| ==> Allowed(head, es[..k], es[k])
    decreases |es|
  {
    hide Allowed;
    if es != [] {
      var n := |es| - 1;
      var before := es[..n];
      RunIff(head, before);
      forall k | 0 <= k < n ensures Allowed(head, before[..k], before[k]) == Allowed(head, es[..k], es[k]) {
        assert before[..k] == es[..k];
      }
      assert before + [es[n]] == es;
      if IsRun(head, before) {
        PossibleIff(head, before, es[n]);
      }
    }
  }

  /** The last sync before k, at r, is w's and untold, and the last reset, at b, began after it. */
  ghost predicate AwaitsReport(es: seq<Event>, k: nat, w: Waiter, r: int, b: int)
    requires k <= |es|
  {
    && 0 <= r < b < k && es[r] == Sync(w) && es[b].Begin? && !ToldBetween(es, w, r, k)
    && (forall i :: r < i < k ==> !es[i].Sync?) && (forall i :: b < i < k ==> !es[i].Begin?)
  }

  /**
    When a reset is reported, the last sync requested before it began is answered, unless it
    has been told already; in every other case nobody is.
  */
  lemma {:induction false} AnsweredIff(head: Header, es: seq<Event>, k: nat, w: Waiter)
    requires IsRun(head, es) && k < |es| && es[k].Done?
    ensures es[k].answered == Some(w) <==> exists r, b :: AwaitsReport(es, k, w, r, b)
  {
    hide After, Last, HistoryPhase, LatestHead, HeadReached, HasQuit, Running, ToldBetween;
    var p := es[..k];
    RunIff(head, es);
    assert Allowed(head, p, es[k]);
    LastSpec(p, Request);
    LastSpec(p, Beginning);
    var r, b := Last(p, Request), Last(p, Beginning);
    assert forall i :: 0 <= i < k ==> p[i] == es[i];
    if r >= 0 { ToldInPrefix(es, w, r, k); }
    if es[k].answered == Some(w) {
      assert AwaitsReport(es, k, w, r, b);
    }
    if r', b' :| AwaitsReport(es, k, w, r', b') {
      assert IsKind(p[r'], Request) && IsKind(p[b'], Beginning);
      assert r == r' && b == b';
    }
  }

  lemma {:induction false} ToldInPrefix(es: seq<Event>, w: Waiter, lo: nat, k: nat)
    requires k <= |es|
    ensures ToldBetween(es[..k], w, lo, k) <==> ToldBetween(es, w, lo, k)
  {
    if ToldBetween(es, w, lo, k) {
      var i :| lo <= i < k && Tells(es[i], w);
      assert Tells(es[..k][i], w);
    }
  }

  /**
    The loop never gets stuck: before it waits it decides one thing, to begin a reset, to wait or
    to stop; while it waits it takes any head, sync or shutdown, and the report of a finished reset.
  */
  lemma {:induction false} NeverStuck(head: Header, es: seq<Event>, e: Event)
    requires IsRun(head, es)
    ensures HistoryPhase(es) == AtTop ==>
      IsRun(head, es + [if HasQuit(es) then Terminate(Untold(es))
                        else if !Running(es) && ResetDue(head, es)
                        then Begin(HeadReached(head, es), LatestHead(head, es), true) else Pass])
    ensures HistoryPhase(es) == Waiting && (e.NewHead? || e.Sync? || e.Quit?) ==> IsRun(head, es + [e])
    ensures HistoryPhase(es) == Waiting && Running(es) && Last(es, Beginning) < Last(es, Finishing) ==>
      exists reached, answered :: IsRun(head, es + [Done(reached, answered)])
  {
    hide After;
    LastSpec(es, Beginning);
    PossibleIff(head, es, e);
    PossibleIff(head, es, Terminate(Untold(es)));
    PossibleIff(head, es, Begin(HeadReached(head, es), LatestHead(head, es), true));
    PossibleIff(head, es, Pass);
    var b := Last(es, Beginning);
    if HistoryPhase(es) == Waiting && Running(es) && b < Last(es, Finishing) {
      LastSpec(es, Completion);
      var reached, answered := es[b].to, if Last(es, Request) < b then Untold(es) else None;
      PossibleIff(head, es, Done(reached, answered));
      assert IsRun(head, es + [Done(reached, answered)]);
    }
  }

  /** Two Sync calls, the second while the first is untold. */
  function ReplacingRun(head: Header): seq<Event> {
    [Pass, Sync(1), Begin(head, head, true), Sync(2), Pass, Finish, Done(head, None),
     Begin(head, head, true), Finish, Done(head, Some(2))]
  }

  lemma {:induction false} FirstIsReplaced(head: Header)
    ensures ReplacedUntold(ReplacingRun(head), 1, 1) && !ToldBetween(ReplacingRun(head), 1, 0, |ReplacingRun(head)|)
  {
    assert ReplacingRun(head)[3].Sync? && !ToldBetween(ReplacingRun(head), 1, 1, 3);
  }

  /** A second concurrent Sync can replace the first: a run in which the first is never answered. */
  lemma {:induction false} SecondSyncReplacesFirst(head: Header)
    ensures var es := ReplacingRun(head);
            IsRun(head, es) && After(head, es).value.waiter.None? && ReplacedUntold(es, 1, 1)
  {
    var e1 := [Pass, Sync(1)];
    var e2 := e1 + [Begin(head, head, true), Sync(2)];
    var e3 := e2 + [Pass, Finish, Done(head, None)];
    var e4 := e3 + [Begin(head, head, true), Finish, Done(head, Some(2))];
    var s0 := Init(head);
    var s1 := Step(s0, Pass).value;
    Extend(head, [], s0, Pass);
    assert [] + [Pass] == [Pass] && [Pass] + [Sync(1)] == e1;
    Extend(head, [Pass], s1, Sync(1));
    var s2 := Step(s1, Sync(1)).value;
    Extend(head, e1, s2, Begin(head, head, true));
    var s3 := Step(s2, Begin(head, head, true)).value;
    Extend(head, e1 + [Begin(head, head, true)], s3, Sync(2));
    var s4 := Step(s3, Sync(2)).value;
    assert e1 + [Begin(head, head, true)] + [Sync(2)] == e2;
    Extend(head, e2, s4, Pass);
    var s5 := Step(s4, Pass).value;
    Extend(head, e2 + [Pass], s5, Finish);
    var s6 := Step(s5, Finish).value;
    Extend(head, e2 + [Pass] + [Finish], s6, Done(head, None));
    var s7 := Step(s6, Done(head, None)).value;
    assert e2 + [Pass] + [Finish] + [Done(head, None)] == e3;
    Extend(head, e3, s7, Begin(head, head, true));
    var s8 := Step(s7, Begin(head, head, true)).value;
    Extend(head, e3 + [Begin(head, head, true)], s8, Finish);
    var s9 := Step(s8, Finish).value;
    Extend(head, e3 + [Begin(head, head, true)] + [Finish], s9, Done(head, Some(2)));
    assert e3 + [Begin(head, head, true)] + [Finish] + [Done(head, Some(2))] == e4;
    assert e4 == ReplacingRun(head);
    FirstIsReplaced(head);
  }

  lemma {:induction false} Extend(head: Header, es: seq<Event>, s: State, e: Event)
    requires After(head, es) == Some(s)
    ensures After(head, es + [e]) == Step(s, e)
  {
  }
}
