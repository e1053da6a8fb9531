/**
  The commit queue of a mount session (src/ezfa3fs_mount_session.cpp): foreground operations and
  the deferred worker as a state machine over their lock-protected sections. In every
  interleaving a queued path leaves the queue only into a backend commit that covers it, until a
  commit fails; after that no backend commit is called again.
 */
module Session {
  import opened Bytes
  import opened Paths

  /** What a backend call commits: everything staged, or the named paths. */
  datatype Coverage = All | Only(paths: set<Name>)

  /** History: a path was accepted into the queue; a backend commit returned. */
  datatype Happened = Queued(path: Name) | Returned(coverage: Coverage, ok: bool)

  datatype Holder = Free | Foreground | Worker
  datatype ForegroundPhase = Idle | Calling(coverage: Coverage)
  datatype WorkerPhase = Sleeping | Timing(seen: nat) | Due(seen: nat) | Taken(paths: set<Name>) | Stopped

  datatype State = State(
    queue: set<Name>,
    generation: nat,
    failed: bool,
    stopping: bool,
    holder: Holder,
    foreground: ForegroundPhase,
    worker: WorkerPhase,
    history: seq<Happened>)

  /**
    One lock-protected section. `Acquire` and `Release` are the session mutex taken and dropped by
    a foreground operation, `WorkerAcquires` the worker taking it; the queue has its own mutex, so
    `Activity` may come at any time. `early` is a deadline that activity has moved on.
   */
  datatype Event =
    | Acquire | Release
    | Defer(path: Name) | Flush(path: Name) | CommitAll | CommitOne(path: Name)
    | BackendReturns(ok: bool)
    | Activity | Stop
    | WorkerSees | WorkerInterrupted | WorkerTimesOut | WorkerAcquires | WorkerTakes(early: bool) | WorkerReturns(ok: bool)

  const START := State({}, 0, false, false, Free, Idle, Sleeping, [])

  predicate ForegroundReady(s: State)
  {
    s.holder == Foreground && s.foreground.Idle?
  }

  predicate Enabled(s: State, e: Event)
  {
    match e
    case Acquire => s.holder == Free
    case Release => ForegroundReady(s)
    case Defer(_) => ForegroundReady(s)
    case Flush(_) => ForegroundReady(s)
    case CommitAll => ForegroundReady(s)
    case CommitOne(_) => ForegroundReady(s)
    case BackendReturns(_) => s.foreground.Calling?
    case Activity => true
    case Stop => true
    case WorkerSees => s.worker.Sleeping? && (s.stopping || s.queue != {})
    case WorkerInterrupted => s.worker.Timing? && (s.stopping || s.generation != s.worker.seen)
    case WorkerTimesOut => s.worker.Timing?
    case WorkerAcquires => s.worker.Due? && s.holder == Free
    case WorkerTakes(_) => s.worker.Due? && s.holder == Worker
    case WorkerReturns(_) => s.worker.Taken?
  }

  /** Everything queued, and one more path unless it is empty, leaves for one backend call. */
  function Gathered(s: State, path: Name): set<Name>
  {
    if path == [] then s.queue else s.queue + {path}
  }

  function Next(s: State, e: Event): State
    requires Enabled(s, e)
  {
    match e
    case Acquire => s.(holder := Foreground)
    case Release => s.(holder := Free)
    case Defer(p) =>
      if s.failed then s
      else s.(queue := s.queue + {p}, generation := s.generation + 1, history := s.history + [Queued(p)])
    case Flush(p) =>
      if s.failed then s
      else s.(queue := {}, generation := s.generation + 1, foreground := Calling(Only(Gathered(s, p))))
    case CommitAll =>
      if s.failed then s
      else s.(queue := {}, generation := s.generation + 1, foreground := Calling(All))
    case CommitOne(p) =>
      if s.failed then s
      else s.(queue := s.queue - {p}, generation := s.generation + 1, foreground := Calling(Only({p})))
    case BackendReturns(ok) =>
      s.(foreground := Idle, failed := s.failed || !ok, history := s.history + [Returned(s.foreground.coverage, ok)])
    case Activity => if s.queue == {} then s else s.(generation := s.generation + 1)
    case Stop => s.(stopping := true)
    case WorkerSees => s.(worker := if s.stopping then Stopped else Timing(s.generation))
    case WorkerInterrupted => s.(worker := if s.stopping then Stopped else Sleeping)
    case WorkerTimesOut => s.(worker := Due(s.worker.seen))
    case WorkerAcquires => s.(holder := Worker)
    case WorkerTakes(early) =>
      if s.stopping then s.(worker := Stopped, holder := Free)
      else if s.generation != s.worker.seen || early then s.(worker := Sleeping, holder := Free)
      else s.(queue := {}, generation := s.generation + 1, worker := Taken(s.queue))
    case WorkerReturns(ok) =>
      if s.failed then s.(worker := Sleeping, holder := Free)
      else
        s.(worker := Sleeping, holder := Free, failed := !ok,
           history := s.history + [Returned(Only(s.worker.paths), ok)])
  }

  /** The state after some interleaving of the foreground and the worker, if each section could be entered. */
  function Run(events: seq<Event>): Option<State>
  {
    if events == [] then Some(START)
    else
      var last := |events| - 1;
      match Run(events[..last])
      case None => None
      case Some(s) => if Enabled(s, events[last]) then Some(Next(s, events[last])) else None
  }

  // ----- Invariants -----

  predicate Covers(c: Coverage, p: Name)
  {
    c.All? || p in c.paths
  }

  /** `p` is on its way to the backend. */
  predicate InFlight(s: State, p: Name)
  {
    || (s.foreground.Calling? && Covers(s.foreground.coverage, p))
    || (s.worker.Taken? && p in s.worker.paths)
  }

  predicate CommittedAfter(history: seq<Happened>, i: nat, p: Name)
  {
    exists j :: i < j < |history| && history[j].Returned? && Covers(history[j].coverage, p)
  }

  /** A path that was queued is still queued, on its way, or covered by a later backend commit. */
  predicate Accounted(s: State, i: nat)
    requires i < |s.history|
  {
    s.history[i].Queued? ==>
      var p := s.history[i].path;
      p in s.queue || InFlight(s, p) || CommittedAfter(s.history, i, p) || s.failed
  }

  /** Backend commits before the last one succeeded, and the last one says whether the session has failed. */
  predicate FailureSticks(s: State)
  {
    && (forall j, k :: 0 <= j < k < |s.history| && s.history[j].Returned? && s.history[k].Returned? ==> s.history[j].ok)
    && (s.failed <==> exists j :: 0 <= j < |s.history| && s.history[j].Returned? && !s.history[j].ok)
  }

  /** The session mutex admits one backend call at a time, and none of the foreground's after a failure. */
  predicate OneAtATime(s: State)
  {
    && (s.foreground.Calling? ==> s.holder == Foreground && !s.failed)
    && (s.worker.Taken? ==> s.holder == Worker)
  }

  predicate Invariant(s: State)
  {
    && OneAtATime(s) && FailureSticks(s)
    && forall i :: 0 <= i < |s.history| ==> Accounted(s, i)
  }

  lemma OneAtATimeStep(s: State, e: Event)
    requires OneAtATime(s) && Enabled(s, e)
    ensures OneAtATime(Next(s, e))
  {}

  lemma FailureStep(s: State, e: Event)
    requires OneAtATime(s) && FailureSticks(s) && Enabled(s, e)
    ensures FailureSticks(Next(s, e))
  {
    var t := Next(s, e);
    assert t.history == s.history || (|t.history| == |s.history| + 1 && t.history[..|s.history|] == s.history);
    if |t.history| > |s.history| {
      var n := |s.history|;
      assert forall j :: 0 <= j < n ==> t.history[j] == s.history[j];
      if t.history[n].Returned? && !t.history[n].ok {
        assert t.failed;
      }
    }
  }

  lemma AccountedStep(s: State, e: Event, i: nat)
    requires OneAtATime(s) && Enabled(s, e) && i < |s.history| && Accounted(s, i)
    ensures i < |Next(s, e).history| && Accounted(Next(s, e), i)
  {
    var t := Next(s, e);
    assert t.history[i] == s.history[i];
    if s.history[i].Queued? {
      var p := s.history[i].path;
      if CommittedAfter(s.history, i, p) {
        var j :| i < j < |s.history| && s.history[j].Returned? && Covers(s.history[j].coverage, p);
        assert t.history[j] == s.history[j];
      } else if InFlight(s, p) && !InFlight(t, p) && !t.failed {
        assert t.history[|s.history|].Returned? && Covers(t.history[|s.history|].coverage, p);
      }
    }
  }

  lemma InvariantStep(s: State, e: Event)
    requires Invariant(s) && Enabled(s, e)
    ensures Invariant(Next(s, e))
  {
    var t := Next(s, e);
    OneAtATimeStep(s, e);
    FailureStep(s, e);
    forall i | 0 <= i < |t.history| ensures Accounted(t, i) {
      if i < |s.history| {
        AccountedStep(s, e, i);
      }
    }
  }

  /** The invariant holds after every interleaving. */
  lemma {:induction false} AlwaysInvariant(events: seq<Event>)
    requires Run(events).Some?
    ensures Invariant(Run(events).value)
  {
    hide Next, Enabled, Invariant;
    if events != [] {
      var last := |events| - 1;
      AlwaysInvariant(events[..last]);
      InvariantStep(Run(events[..last]).value, events[last]);
    } else {
      InvariantAtStart();
    }
  }

  lemma InvariantAtStart()
    ensures Invariant(START)
  {}

  // ----- What it means -----

  /** The state after the first `j` events of a run. */
  function At(events: seq<Event>, j: nat): State
    requires Run(events).Some? && j <= |events|
  {
    RunPrefix(events, j);
    Run(events[..j]).value
  }

  lemma {:induction false} RunPrefix(events: seq<Event>, j: nat)
    requires Run(events).Some? && j <= |events|
    ensures Run(events[..j]).Some?
    decreases |events|
  {
    hide Next, Enabled;
    if j < |events| {
      var last := |events| - 1;
      RunPrefix(events[..last], j);
      assert events[..last][..j] == events[..j];
    } else {
      assert events[..j] == events;
    }
  }

  lemma AtStep(events: seq<Event>, j: nat)
    requires Run(events).Some? && j < |events|
    ensures Enabled(At(events, j), events[j]) && At(events, j + 1) == Next(At(events, j), events[j])
  {
    hide Next, Enabled;
    RunPrefix(events, j + 1);
    assert events[..j + 1][..j] == events[..j];
  }

  lemma LeavesStep(s: State, e: Event, p: Name)
    requires Enabled(s, e) && !Next(s, e).failed && p in s.queue && p !in Next(s, e).queue
    ensures InFlight(Next(s, e), p)
  {}

  /** In every run that has not failed, a path that was queued and no longer is left the queue into a backend call that covers it. */
  lemma {:induction false} LeavesForTheBackend(events: seq<Event>, i: nat, j: nat, p: Name) returns (k: nat)
    requires Run(events).Some? && i <= j <= |events| && !At(events, j).failed
    requires p in At(events, i).queue && p !in At(events, j).queue
    ensures i <= k < j && p in At(events, k).queue && p !in At(events, k + 1).queue && InFlight(At(events, k + 1), p)
    decreases j
  {
    hide Run, At, Next, Enabled, InFlight;
    AtStep(events, j - 1);
    if p in At(events, j - 1).queue {
      k := j - 1;
      LeavesStep(At(events, k), events[k], p);
    } else {
      FailedStays(At(events, j - 1), events[j - 1]);
      k := LeavesForTheBackend(events, i, j - 1, p);
    }
  }

  lemma FailedStays(s: State, e: Event)
    requires Enabled(s, e)
    ensures s.failed ==> Next(s, e).failed
  {}

  /** The call that carried `p` has returned. */
  predicate Landed(s: State, next: State, p: Name)
  {
    |next.history| == |s.history| + 1 && next.history[|s.history|].Returned? && Covers(next.history[|s.history|].coverage, p)
  }

  lemma LandsStep(s: State, e: Event, p: Name)
    requires OneAtATime(s) && Enabled(s, e) && InFlight(s, p) && !InFlight(Next(s, e), p) && !s.failed
    ensures Landed(s, Next(s, e), p)
  {}

  /** In every run, a path that was on its way and no longer is was covered by a backend call that returned, unless the session had failed. */
  lemma {:induction false} FlightLands(events: seq<Event>, i: nat, j: nat, p: Name) returns (k: nat)
    requires Run(events).Some? && i <= j <= |events| && InFlight(At(events, i), p) && !InFlight(At(events, j), p)
    ensures i <= k < j && InFlight(At(events, k), p) && (At(events, k).failed || Landed(At(events, k), At(events, k + 1), p))
    decreases j
  {
    hide Run, Next, Enabled, InFlight, Landed, OneAtATime;
    if InFlight(At(events, j - 1), p) {
      k := j - 1;
      AtStep(events, k);
      RunPrefix(events, k);
      AlwaysInvariant(events[..k]);
      InvariantParts(At(events, k));
      if !At(events, k).failed {
        LandsStep(At(events, k), events[k], p);
      }
    } else {
      k := FlightLands(events, i, j - 1, p);
    }
  }

  lemma ClosedStep(s: State, e: Event)
    requires OneAtATime(s) && Enabled(s, e) && s.failed
    ensures Next(s, e).failed && Next(s, e).history == s.history
  {}

  /** Once a commit has failed, no continuation of the run calls the backend or accepts a path again. */
  lemma {:induction false} NoCommitAfterFailure(events: seq<Event>, more: seq<Event>)
    requires Run(events).Some? && Run(events).value.failed && Run(events + more).Some?
    ensures Run(events + more).value.failed && Run(events + more).value.history == Run(events).value.history
    decreases |more|
  {
    hide Next, Enabled, Invariant;
    if more == [] {
      assert events + more == events;
    } else {
      var all, last := events + more, |more| - 1;
      assert all[..|all| - 1] == events + more[..last];
      NoCommitAfterFailure(events, more[..last]);
      AlwaysInvariant(events + more[..last]);
      InvariantParts(Run(events + more[..last]).value);
      ClosedStep(Run(events + more[..last]).value, all[|all| - 1]);
    }
  }

  lemma InvariantParts(s: State)
    requires Invariant(s)
    ensures OneAtATime(s)
  {}

  /** In every run, every path ever queued is queued, on its way, or committed, until the first failure. */
  lemma NothingIsLost(events: seq<Event>, i: nat)
    requires Run(events).Some? && !Run(events).value.failed
    requires i < |Run(events).value.history| && Run(events).value.history[i].Queued?
    ensures
      var s := Run(events).value;
      var p := s.history[i].path;
      p in s.queue || InFlight(s, p) || CommittedAfter(s.history, i, p)
  {
    hide Run;
    AlwaysInvariant(events);
    assert Accounted(Run(events).value, i);
  }

  // ----- What each request asks for, told by the events alone -----

  /** The event is the successful return of a backend call that carried `p`. */
  predicate Brings(s: State, e: Event, p: Name)
  {
    || (e.BackendReturns? && e.ok && s.foreground.Calling? && Covers(s.foreground.coverage, p))
    || (e.WorkerReturns? && e.ok && s.worker.Taken? && p in s.worker.paths && !s.failed)
  }

  /** A backend call that carried `p` has returned successfully at one of the events from `i` on and before `j`. */
  ghost predicate Delivered(events: seq<Event>, i: nat, j: nat, p: Name)
    requires Run(events).Some? && j <= |events|
  {
    exists k :: i <= k < j && Brings(At(events, k), events[k], p)
  }

  /** After `j` events, `p` waits in the queue, is on its way, or has been committed since event `i`. */
  ghost predicate Kept(events: seq<Event>, i: nat, j: nat, p: Name)
    requires Run(events).Some? && j <= |events|
  {
    p in At(events, j).queue || InFlight(At(events, j), p) || Delivered(events, i, j, p)
  }

  lemma KeptStep(s: State, e: Event, p: Name)
    requires OneAtATime(s) && Enabled(s, e) && !Next(s, e).failed && (p in s.queue || InFlight(s, p))
    ensures p in Next(s, e).queue || InFlight(Next(s, e), p) || Brings(s, e, p)
  {}

  lemma {:induction false} KeptOn(events: seq<Event>, i: nat, from: nat, j: nat, p: Name)
    requires Run(events).Some? && i <= from <= j <= |events| && !At(events, j).failed && Kept(events, i, from, p)
    ensures Kept(events, i, j, p)
    decreases j
  {
    hide Run, At, Next, Enabled, InFlight, Brings, Invariant, OneAtATime;
    if from < j {
      AtStep(events, j - 1);
      FailedStays(At(events, j - 1), events[j - 1]);
      KeptOn(events, i, from, j - 1, p);
      if Delivered(events, i, j - 1, p) {
        var k :| i <= k < j - 1 && Brings(At(events, k), events[k], p);
        assert Delivered(events, i, j, p);
      } else {
        OneAt(events, j - 1);
        KeptStep(At(events, j - 1), events[j - 1], p);
        assert Brings(At(events, j - 1), events[j - 1], p) ==> Delivered(events, i, j, p);
      }
    }
  }

  lemma OneAt(events: seq<Event>, j: nat)
    requires Run(events).Some? && j <= |events|
    ensures OneAtATime(At(events, j))
  {
    hide Next, Enabled, Invariant;
    RunPrefix(events, j);
    AlwaysInvariant(events[..j]);
    InvariantParts(At(events, j));
  }

  /**
    In every run, a deferred path is in the queue after its request, beside everything that waited
    there before; and as long as no commit fails it is waiting, on its way or committed since.
   */
  lemma DeferredIsKept(events: seq<Event>, i: nat, j: nat, p: Name)
    requires Run(events).Some? && i < j <= |events| && events[i] == Defer(p)
    ensures !At(events, i).failed ==> At(events, i + 1).queue == At(events, i).queue + {p}
    ensures !At(events, j).failed ==> Kept(events, i + 1, j, p)
  {
    hide Run, At, InFlight, Delivered;
    AtStep(events, i);
    if !At(events, j).failed {
      NotFailedBefore(events, i, j);
      KeptOn(events, i + 1, i + 1, j, p);
    }
  }

  lemma {:induction false} NotFailedBefore(events: seq<Event>, i: nat, j: nat)
    requires Run(events).Some? && i <= j <= |events| && !At(events, j).failed
    ensures !At(events, i).failed
    decreases j
  {
    hide Run, At, Next, Enabled;
    if i < j {
      AtStep(events, j - 1);
      FailedStays(At(events, j - 1), events[j - 1]);
      NotFailedBefore(events, i, j - 1);
    }
  }

  /** The request is for a backend call. */
  predicate Asks(e: Event)
  {
    e.Flush? || e.CommitAll? || e.CommitOne?
  }

  /** The request asks for `p`, given what is queued. */
  predicate AsksFor(s: State, e: Event, p: Name)
  {
    match e
    case Flush(q) => p in s.queue || (p == q && q != [])
    case CommitAll => true
    case CommitOne(q) => p == q
    case _ => false
  }

  /**
    What a request for a commit takes out of the queue, and what the call it begins covers: a flush
    the whole queue and its own path, a commit everything, the commit of one file that path alone.
   */
  lemma RequestCovers(events: seq<Event>, i: nat, p: Name)
    requires Run(events).Some? && i < |events| && Asks(events[i]) && !At(events, i).failed
    ensures At(events, i + 1).foreground.Calling?
    ensures Covers(At(events, i + 1).foreground.coverage, p) <==> AsksFor(At(events, i), events[i], p)
    ensures p in At(events, i + 1).queue <==> p in At(events, i).queue && !AsksFor(At(events, i), events[i], p)
  {
    hide Run, At;
    AtStep(events, i);
  }

  lemma CallStep(s: State, e: Event)
    requires OneAtATime(s) && Enabled(s, e) && s.foreground.Calling?
    ensures !e.BackendReturns? ==> Next(s, e).foreground == s.foreground
    ensures e.BackendReturns? ==> Next(s, e).foreground.Idle? && (Next(s, e).failed <==> !e.ok)
  {}

  /** A request for a commit ends only when the backend has returned for it: it goes on, or an event in between is that return. */
  lemma {:induction false} CallEnds(events: seq<Event>, i: nat, j: nat) returns (k: nat)
    requires Run(events).Some? && i <= j <= |events| && At(events, i).foreground.Calling?
    ensures i <= k <= j && At(events, k).foreground == At(events, i).foreground
    ensures k == j || (events[k].BackendReturns? && (At(events, k + 1).failed <==> !events[k].ok))
    decreases j
  {
    hide Run, At, Next, Enabled, OneAtATime;
    k := i;
    if i < j {
      k := CallEnds(events, i, j - 1);
      if k == j - 1 {
        OneAt(events, k);
        AtStep(events, k);
        CallStep(At(events, k), events[k]);
        if !events[k].BackendReturns? {
          k := j;
        }
      }
    }
  }

  /**
    In every run, once the foreground is idle again after a request for a commit and nothing has
    failed, every path the request asked for has been committed since.
   */
  lemma AskedIsCommitted(events: seq<Event>, i: nat, j: nat, p: Name)
    requires Run(events).Some? && i < j <= |events| && Asks(events[i]) && AsksFor(At(events, i), events[i], p)
    requires !At(events, j).failed && At(events, j).foreground.Idle?
    ensures Delivered(events, i + 1, j, p)
  {
    hide Run, At, Next, Enabled, Covers, AsksFor;
    NotFailedBefore(events, i, j);
    RequestCovers(events, i, p);
    var k := CallEnds(events, i + 1, j);
    NotFailedBefore(events, k + 1, j);
    assert Brings(At(events, k), events[k], p);
  }

  // ----- What the worker takes -----

  /** The event queues something, takes something out of the queue, or is activity while something is queued. */
  predicate Disturbs(s: State, e: Event)
  {
    (!s.failed && (e.Defer? || e.Flush? || e.CommitAll? || e.CommitOne?)) || (e.Activity? && s.queue != {})
  }

  lemma DisturbStep(s: State, e: Event)
    requires Enabled(s, e)
    ensures Next(s, e).generation >= s.generation
    ensures Disturbs(s, e) ==> Next(s, e).generation > s.generation
    ensures Next(s, e).generation == s.generation ==> Next(s, e).queue == s.queue
  {}

  lemma {:induction false} GenerationRises(events: seq<Event>, i: nat, j: nat)
    requires Run(events).Some? && i <= j <= |events|
    ensures At(events, i).generation <= At(events, j).generation
    decreases j
  {
    hide Run, At, Next, Enabled;
    if i < j {
      GenerationRises(events, i, j - 1);
      AtStep(events, j - 1);
      DisturbStep(At(events, j - 1), events[j - 1]);
    }
  }

  /** While the generation stands still, nothing disturbs the queue. */
  lemma Undisturbed(events: seq<Event>, i: nat, j: nat, k: nat)
    requires Run(events).Some? && i <= k < j <= |events| && At(events, i).generation == At(events, j).generation
    ensures !Disturbs(At(events, k), events[k]) && At(events, k + 1).queue == At(events, k).queue
  {
    hide Run, At, Next, Enabled, Disturbs;
    GenerationRises(events, i, k);
    GenerationRises(events, k + 1, j);
    AtStep(events, k);
    DisturbStep(At(events, k), events[k]);
  }

  lemma {:induction false} QueueStands(events: seq<Event>, i: nat, j: nat)
    requires Run(events).Some? && i <= j <= |events| && At(events, i).generation == At(events, j).generation
    ensures At(events, i).queue == At(events, j).queue
    decreases j
  {
    hide Run, At, Next, Enabled, Disturbs;
    if i < j {
      GenerationRises(events, i, j - 1);
      GenerationRises(events, j - 1, j);
      QueueStands(events, i, j - 1);
      Undisturbed(events, i, j, j - 1);
    }
  }

  /** The event at which the worker saw the queue it is waiting over. */
  lemma {:induction false} Watching(events: seq<Event>, j: nat) returns (k: nat)
    requires Run(events).Some? && j <= |events| && (At(events, j).worker.Timing? || At(events, j).worker.Due?)
    ensures k < j && events[k] == WorkerSees && At(events, k).generation == At(events, j).worker.seen
    ensures At(events, k).queue != {} && !At(events, k).stopping
    decreases j
  {
    hide Run, At, Next, Enabled;
    if j == 0 {
      StartAsleep(events);
    } else {
      AtStep(events, j - 1);
      WatchStep(At(events, j - 1), events[j - 1]);
      if events[j - 1] == WorkerSees {
        k := j - 1;
      } else {
        k := Watching(events, j - 1);
      }
    }
  }

  lemma StartAsleep(events: seq<Event>)
    requires Run(events).Some?
    ensures At(events, 0) == START
  {
    assert events[..0] == [];
  }

  lemma WatchStep(s: State, e: Event)
    requires Enabled(s, e) && (Next(s, e).worker.Timing? || Next(s, e).worker.Due?)
    ensures e == WorkerSees ==> s.queue != {} && !s.stopping && Next(s, e).worker.seen == s.generation
    ensures e != WorkerSees ==> (s.worker.Timing? || s.worker.Due?) && s.worker.seen == Next(s, e).worker.seen
  {}

  lemma TakeStep(s: State, early: bool)
    requires Enabled(s, WorkerTakes(early)) && Next(s, WorkerTakes(early)).worker.Taken?
    ensures s.worker.Due? && s.generation == s.worker.seen && !s.stopping && !early && Next(s, WorkerTakes(early)).worker.paths == s.queue
  {}

  /**
    In every run, when the worker takes the queue after its wait, that is the queue it saw when the
    wait began, and nothing in between has queued or taken a path or counted as activity.
   */
  lemma WorkerTakesWhatItSaw(events: seq<Event>, j: nat) returns (k: nat)
    requires Run(events).Some? && j < |events| && events[j].WorkerTakes? && At(events, j + 1).worker.Taken?
    ensures k < j && events[k] == WorkerSees && At(events, j + 1).worker.paths == At(events, k).queue != {}
    ensures forall i :: k <= i < j ==> !Disturbs(At(events, i), events[i]) && At(events, i).queue == At(events, k).queue
    ensures !At(events, j).stopping && !events[j].early && At(events, j + 1).queue == {}
  {
    hide Run, At, Next, Enabled, Disturbs;
    AtStep(events, j);
    TakeStep(At(events, j), events[j].early);
    TakenLeaves(At(events, j), events[j].early);
    k := Watching(events, j);
    QueueStands(events, k, j);
    forall i | k <= i < j ensures !Disturbs(At(events, i), events[i]) && At(events, i).queue == At(events, k).queue {
      GenerationRises(events, k, i);
      GenerationRises(events, i, j);
      Undisturbed(events, k, j, i);
      QueueStands(events, k, i);
    }
  }

  lemma TakenLeaves(s: State, early: bool)
    requires Enabled(s, WorkerTakes(early)) && Next(s, WorkerTakes(early)).worker.Taken?
    ensures Next(s, WorkerTakes(early)).queue == {}
  {}

  // ----- The session object -----

  /** The fields behind the state machine, updated section by section. */
  class MountSession {
    var queue: set<Name>
    var generation: nat
    var failed: bool
    var stopping: bool
    ghost var holder: Holder
    ghost var foreground: ForegroundPhase
    ghost var worker: WorkerPhase
    ghost var history: seq<Happened>

    ghost function Now(): State
      reads this
    {
      State(queue, generation, failed, stopping, holder, foreground, worker, history)
    }

    constructor ()
      ensures Now() == START
    {
      queue, generation, failed, stopping := {}, 0, false, false;
      holder, foreground, worker, history := Free, Idle, Sleeping, [];
    }

    method DeferFileCommit(path: Name) returns (ok: bool)
      requires Enabled(Now(), Defer(path))
      modifies this
      ensures Now() == Next(old(Now()), Defer(path)) && ok == !old(failed) && failed == old(failed)
      ensures queue == if ok then old(queue) + {path} else old(queue)
      ensures generation == if ok then old(generation) + 1 else old(generation)
    {
      if failed {
        return false;
      }
      queue := queue + {path};
      generation := generation + 1;
      history := history + [Queued(path)];
      ok := true;
    }

    /** `takeDeferredCommitPaths`. */
    method TakeDeferredCommitPaths(path: Name) returns (paths: set<Name>)
      modifies this`queue, this`generation
      ensures paths == Gathered(old(Now()), path) == old(queue) + (if path == [] then {} else {path})
      ensures queue == {} && generation == old(generation) + 1
    {
      if path != [] {
        queue := queue + {path};
      }
      paths := queue;
      queue := {};
      generation := generation + 1;
    }

    /** Up to the backend call; the paths to pass on, if any call is allowed. */
    method BeginFlush(path: Name) returns (ok: bool, paths: set<Name>)
      requires Enabled(Now(), Flush(path))
      modifies this
      ensures Now() == Next(old(Now()), Flush(path)) && ok == !old(failed)
      ensures ok ==> foreground == Calling(Only(paths)) && generation == old(generation) + 1
      ensures ok ==> queue == {} && paths == old(queue) + if path == [] then {} else {path}
      ensures !ok ==> Now() == old(Now()) && paths == {}
    {
      paths := {};
      if failed {
        return false, paths;
      }
      paths := TakeDeferredCommitPaths(path);
      foreground := Calling(Only(paths));
      ok := true;
    }

    method BeginCommit() returns (ok: bool)
      requires Enabled(Now(), CommitAll)
      modifies this
      ensures Now() == Next(old(Now()), CommitAll) && ok == !old(failed)
      ensures ok ==> queue == {} && foreground == Calling(All) && generation == old(generation) + 1
      ensures !ok ==> Now() == old(Now())
    {
      if failed {
        return false;
      }
      var paths := TakeDeferredCommitPaths([]);
      foreground := Calling(All);
      ok := true;
    }

    method BeginCommitFile(path: Name) returns (ok: bool)
      requires Enabled(Now(), CommitOne(path))
      modifies this
      ensures Now() == Next(old(Now()), CommitOne(path)) && ok == !old(failed)
      ensures ok ==> queue == old(queue) - {path} && foreground == Calling(Only({path})) && generation == old(generation) + 1
      ensures !ok ==> Now() == old(Now())
    {
      if failed {
        return false;
      }
      queue := queue - {path};
      generation := generation + 1;
      foreground := Calling(Only({path}));
      ok := true;
    }

    /** `finishCommit`, when the backend has returned to a foreground operation. */
    method FinishCommit(committed: bool) returns (ok: bool)
      requires Enabled(Now(), BackendReturns(committed))
      modifies this
      ensures Now() == Next(old(Now()), BackendReturns(committed)) && ok == committed
      ensures failed == (old(failed) || !committed) && foreground == Idle && queue == old(queue)
    {
      history := history + [Returned(foreground.coverage, committed)];
      foreground := Idle;
      if committed {
        return true;
      }
      failed := true;
      ok := false;
    }

    method NoteActivity()
      modifies this
      ensures Now() == Next(old(Now()), Activity) && queue == old(queue)
      ensures generation == old(generation) + if queue == {} then 0 else 1
    {
      if queue != {} {
        generation := generation + 1;
      }
    }

    /** The worker, holding the session mutex: take the paths unless something has happened since. */
    method WorkerTake(seen: nat, early: bool) returns (go: bool, paths: set<Name>)
      requires Enabled(Now(), WorkerTakes(early)) && worker == Due(seen)
      modifies this
      ensures Now() == Next(old(Now()), WorkerTakes(early))
      ensures go <==> !old(stopping) && old(generation) == seen && !early
      ensures go ==> paths == old(queue) && queue == {} && worker == Taken(paths) && holder == old(holder)
      ensures !go ==> queue == old(queue) && holder == Free && worker == if stopping then Stopped else Sleeping
    {
      paths := {};
      if stopping {
        worker, holder := Stopped, Free;
        return false, paths;
      }
      if generation != seen || early {
        worker, holder := Sleeping, Free;
        return false, paths;
      }
      paths := TakeDeferredCommitPaths([]);
      worker := Taken(paths);
      go := true;
    }

    /** The worker after `commitFiles`, which it calls only while the session has not failed. */
    method WorkerFinish(committed: bool) returns (called: bool)
      requires Enabled(Now(), WorkerReturns(committed))
      modifies this
      ensures Now() == Next(old(Now()), WorkerReturns(committed)) && called == !old(failed)
      ensures failed == (old(failed) || !committed) && queue == old(queue) && holder == Free && worker == Sleeping
    {
      called := !failed;
      if called {
        history := history + [Returned(Only(worker.paths), committed)];
        failed := !committed;
      }
      worker, holder := Sleeping, Free;
    }
  }
}
