/** The two-phase hand-off between the producer of frames and the frame worker, as
    a state machine. Every step is one section under the worker's mutex, or the
    work one of the two threads does between two such sections. */
module FrameWorker {
  import opened Wrappers

  /** What belongs to exactly one queued frame. */
  datatype Job = Job(contentTag: nat, sceneAnchor: nat)

  const NO_JOB := Job(0, 0)

  /** At most three interpolated slots and the frame itself. */
  const MAXIMUM_SLOTS: nat := 4

  datatype Worker =
    | Absent
    | Starting
    | AwaitingJob
    | Sealing(job: nat)
    | EncodingBeforePermit(job: nat, slots: nat)
    | AwaitingPermit(job: nat, overlap: bool, slots: nat)
    | Preparing(job: nat, overlap: bool, slots: nat)
    | Prepared(job: nat, overlap: bool, slots: nat, success: bool, newFrameOwed: bool)
    | EncodingAfterSealed(job: nat, slots: nat, newFrameOwed: bool)
    | Encoded(job: nat)
    | Leaving
    | Exited

  datatype Producer =
    | Running
    | BeginLocked
    | BeginAwaitsDone
    | BeginPrepares
    | BeginPublishes
    | EndAwaitsDone
    | EndDrains
    | AwaitsDone
    | AwaitsSealed
    | QuiesceAwaitsDone
    | QuiesceClears
    | StopJoins

  datatype State = State(
    started: bool,
    stop: bool,
    jobPending: bool,
    job: Job,
    isSealed: bool,
    ready: bool,
    framePrepared: bool,
    prepareAllowed: bool,
    worker: Worker,
    producer: Producer,
    // History: the frames ever queued, the frames the worker took, the number of
    // stops, and the frame the standing permit was granted for.
    queued: seq<Job>,
    taken: seq<(nat, Job)>,
    stops: nat,
    permitFor: Option<nat>,
    // A frame is queued and neither begin_frame nor quiesce has been called since.
    owing: bool)

  const INITIAL := State(
    false, false, false, NO_JOB, true, true, false, false, Absent, Running, [], [], 0, None, false)

  datatype Action =
    // The producer's calls and what follows inside them.
    | CallBegin
    | LockBegin(surfaceChanging: bool)
    | PrepareInBegin
    | PublishInBegin(success: bool)
    | CallEnd
    | QueueInEnd(next: Job)
    | CallWait
    | CallWaitSealed
    | CallQuiesce
    | ClearInQuiesce
    | CallStop
    | Join
    // The waiting calls return, or begin or end continue.
    | ReachPhase
    // The worker.
    | Enter
    | TakeJob
    | Seal(overlap: bool, slots: nat)
    | Replay
    | PassPermit
    | Prepare(success: bool, newFrameOwed: bool)
    | PublishSealed
    | NewFrame
    | PublishDone
    | Leave

  predicate IsWorkerAction(a: Action) {
    || a.Enter? || a.TakeJob? || a.Seal? || a.Replay? || a.PassPermit? || a.Prepare?
    || a.PublishSealed? || a.NewFrame? || a.PublishDone? || a.Leave?
  }

  /** ensure_frame_worker_started. */
  function EnsureStarted(s: State): State {
    if s.started then s
    else s.(
      stop := false, jobPending := false, job := NO_JOB, isSealed := true, ready := true,
      prepareAllowed := false, started := true, worker := Starting, permitFor := None)
  }

  function Latest(s: State): Option<nat> {
    if s.queued == [] then None else Some(|s.queued| - 1)
  }

  function ProducerNext(s: State, a: Action): Option<State> {
    match a
    case CallBegin =>
      if s.producer.Running? then Some(EnsureStarted(s).(producer := BeginLocked)) else None
    case LockBegin(surfaceChanging) =>
      if !s.producer.BeginLocked? then None
      else if !s.ready then
        Some(s.(
          prepareAllowed := true, permitFor := Latest(s), owing := false,
          producer := if surfaceChanging then BeginAwaitsDone else Running))
      else
        Some(s.(owing := false, producer := if s.framePrepared then Running else BeginPrepares))
    case PrepareInBegin =>
      if s.producer.BeginPrepares? then Some(s.(producer := BeginPublishes)) else None
    case PublishInBegin(success) =>
      if s.producer.BeginPublishes? then Some(s.(framePrepared := success, producer := Running)) else None
    case CallEnd =>
      if s.producer.Running? then Some(EnsureStarted(s).(producer := EndAwaitsDone)) else None
    case QueueInEnd(next) =>
      if s.producer.EndDrains? then
        Some(s.(
          framePrepared := false, isSealed := false, ready := false, job := next, jobPending := true,
          prepareAllowed := false, permitFor := None, queued := s.queued + [next], owing := true,
          producer := Running))
      else None
    case CallWait =>
      if s.producer.Running? then Some(s.(producer := AwaitsDone)) else None
    case CallWaitSealed =>
      if s.producer.Running? then Some(s.(producer := AwaitsSealed)) else None
    case CallQuiesce =>
      if !s.producer.Running? then None
      else if !s.started || s.ready then Some(s)
      else Some(s.(prepareAllowed := true, permitFor := Latest(s), owing := false, producer := QuiesceAwaitsDone))
    case ClearInQuiesce =>
      if s.producer.QuiesceClears? then
        Some(s.(prepareAllowed := false, permitFor := None, producer := Running))
      else None
    case CallStop =>
      if !s.producer.Running? then None
      else if !s.started then Some(s)
      else Some(s.(stop := true, prepareAllowed := true, permitFor := Latest(s), owing := false,
                   stops := s.stops + 1, producer := StopJoins))
    case Join =>
      if s.producer.StopJoins? && s.worker.Exited? then
        Some(s.(started := false, worker := Absent, framePrepared := false, jobPending := false,
                job := NO_JOB, producer := Running))
      else None
    case ReachPhase => Reached(s)
    case _ => None
  }

  /** A wait ends when its phase is reached, or at once when there is no worker. */
  function Reached(s: State): Option<State> {
    match s.producer
    case BeginAwaitsDone => if s.ready || !s.started then Some(s.(producer := Running)) else None
    case EndAwaitsDone => if s.ready || !s.started then Some(s.(producer := EndDrains)) else None
    case AwaitsDone => if s.ready || !s.started then Some(s.(producer := Running)) else None
    case AwaitsSealed => if s.isSealed || !s.started then Some(s.(producer := Running)) else None
    case QuiesceAwaitsDone => if s.ready || !s.started then Some(s.(producer := QuiesceClears)) else None
    case _ => None
  }

  function WorkerNext(s: State, a: Action): Option<State> {
    match a
    case Enter => if s.worker.Starting? then Some(s.(worker := AwaitingJob)) else None
    case TakeJob =>
      if !s.worker.AwaitingJob? then None
      else if s.stop then Some(s.(worker := Leaving))
      else if s.jobPending && s.queued != [] then
        var id := |s.queued| - 1;
        Some(s.(jobPending := false, job := NO_JOB, taken := s.taken + [(id, s.job)], worker := Sealing(id)))
      else None
    case Seal(overlap, slots) =>
      if s.worker.Sealing? && 1 <= slots <= MAXIMUM_SLOTS && (overlap <==> slots > 1) then
        var id := s.worker.job;
        Some(s.(worker := if overlap then AwaitingPermit(id, true, slots) else EncodingBeforePermit(id, slots)))
      else None
    case Replay => Replayed(s)
    case PassPermit =>
      if !s.worker.AwaitingPermit? then None
      else if s.stop then Some(s.(worker := Leaving))
      else if s.prepareAllowed then
        Some(s.(prepareAllowed := false, permitFor := None,
                worker := Preparing(s.worker.job, s.worker.overlap, s.worker.slots)))
      else None
    case Prepare(success, owed) =>
      if s.worker.Preparing? && (owed ==> s.worker.overlap) then
        Some(s.(worker := Worker.Prepared(s.worker.job, s.worker.overlap, s.worker.slots, success, owed)))
      else None
    case PublishSealed =>
      if !s.worker.Prepared? then None
      else if s.worker.overlap then
        Some(s.(framePrepared := s.worker.success, isSealed := true,
                worker := EncodingAfterSealed(s.worker.job, s.worker.slots, s.worker.newFrameOwed)))
      else
        Some(s.(framePrepared := s.worker.success, isSealed := true, ready := true, worker := AwaitingJob))
    case NewFrame =>
      if s.worker.EncodingAfterSealed? && s.worker.slots == 0 then Some(s.(worker := Encoded(s.worker.job))) else None
    case PublishDone => if s.worker.Encoded? then Some(s.(ready := true, worker := AwaitingJob)) else None
    case Leave => if s.worker.Leaving? then Some(s.(isSealed := true, ready := true, worker := Exited)) else None
    case _ => None
  }

  /** One slot replays the draw lists of the sealed frame. */
  function Replayed(s: State): (r: Option<State>)
    ensures r.Some? ==> SameHistory(s, r.value) && r.value == s.(worker := r.value.worker)
  {
    if s.worker.EncodingBeforePermit? then
      var left := if s.worker.slots > 1 then EncodingBeforePermit(s.worker.job, s.worker.slots - 1)
                  else AwaitingPermit(s.worker.job, false, 0);
      Some(s.(worker := left))
    else if s.worker.EncodingAfterSealed? && s.worker.slots > 0 then
      Some(s.(worker := EncodingAfterSealed(s.worker.job, s.worker.slots - 1, s.worker.newFrameOwed)))
    else None
  }

  function Next(s: State, a: Action): Option<State> {
    if IsWorkerAction(a) then WorkerNext(s, a) else ProducerNext(s, a)
  }

  /** The frame the worker has taken and not finished. */
  predicate InFlight(w: Worker) {
    || w.Sealing? || w.EncodingBeforePermit? || w.AwaitingPermit? || w.Preparing? || w.Prepared?
    || w.EncodingAfterSealed? || w.Encoded?
  }

  predicate BeforePermit(w: Worker) {
    w.Sealing? || w.EncodingBeforePermit? || w.AwaitingPermit?
  }

  /** The slots that still have to replay the draw lists of the sealed frame. */
  function SlotsLeft(w: Worker): nat {
    match w
    case EncodingBeforePermit(_, slots) => slots
    case AwaitingPermit(_, _, slots) => slots
    case Preparing(_, _, slots) => slots
    case Prepared(_, _, slots, _, _) => slots
    case EncodingAfterSealed(_, slots, _) => slots
    case _ => 0
  }

  /** The steps that start an ImGui frame: the producer's own preparation, the
      worker's when it is not deferred, and the deferred one. */
  predicate StartsImGuiFrame(s: State, a: Action) {
    || a.PrepareInBegin?
    || (a.Prepare? && s.worker.Preparing? && !s.worker.overlap)
    || (a.NewFrame? && s.worker.EncodingAfterSealed? && s.worker.newFrameOwed)
  }

  /** The frame is encoded under the renderer mutex, before its permit is awaited. */
  predicate EncodedBeforePermit(w: Worker) {
    || (w.AwaitingPermit? && !w.overlap) || (w.Preparing? && !w.overlap) || (w.Prepared? && !w.overlap)
  }

  predicate WorkerInv(s: State) {
    && (s.started <==> !s.worker.Absent?)
    && (s.worker.Leaving? || s.worker.Exited? ==> s.stop)
    && (s.started && s.stop <==> s.producer.StopJoins?)
    && (s.stop ==> s.stops > 0)
    && (InFlight(s.worker) ==> s.worker.job == |s.queued| - 1 && s.taken != [])
    && (EncodedBeforePermit(s.worker) ==> SlotsLeft(s.worker) == 0)
    && SlotsLeft(s.worker) <= MAXIMUM_SLOTS
    && (s.worker.EncodingBeforePermit? ==> s.worker.slots > 0)
  }

  predicate PhaseInv(s: State) {
    && (s.ready ==> s.isSealed && (!s.jobPending || s.worker.Exited?) && !InFlight(s.worker))
    && (s.worker.Exited? ==> s.ready)
    && (!s.ready ==> s.started && (s.stop || s.jobPending || InFlight(s.worker)))
    && (s.jobPending ==> (!s.isSealed || s.worker.Exited?) && !InFlight(s.worker))
    && (!s.started ==> !s.jobPending)
    && (s.jobPending ==> s.queued != [] && s.job == s.queued[|s.queued| - 1])
    && (s.isSealed && !s.ready ==> s.worker.EncodingAfterSealed? || s.worker.Encoded?)
    && (s.worker.EncodingAfterSealed? || s.worker.Encoded? ==> s.isSealed)
    && (!s.started ==> s.producer.Running? || s.producer.AwaitsDone? || s.producer.AwaitsSealed?)
    && (s.producer.EndDrains? || s.producer.BeginPrepares? || s.producer.BeginPublishes? || s.producer.QuiesceClears? ==>
          s.ready)
    && (s.producer.BeginPrepares? || s.producer.BeginPublishes? ==> !s.framePrepared)
  }

  predicate PermitInv(s: State) {
    && (s.prepareAllowed ==> s.permitFor == Latest(s))
    && (s.owing ==> s.started && !s.stop && !s.prepareAllowed)
    && (s.started && !s.stop && !s.owing && !s.ready && (s.jobPending || BeforePermit(s.worker)) ==> s.prepareAllowed)
  }

  predicate HistoryInv(s: State) {
    && (forall k :: 0 <= k < |s.taken| ==>
          s.taken[k].0 < |s.queued| && s.taken[k].1 == s.queued[s.taken[k].0])
    && (forall j, k :: 0 <= j < k < |s.taken| ==> s.taken[j].0 < s.taken[k].0)
    && (s.jobPending ==> s.taken == [] || s.taken[|s.taken| - 1].0 < |s.queued| - 1)
    && (s.stops == 0 ==>
          && |s.queued| == |s.taken| + (if s.jobPending then 1 else 0)
          && forall k :: 0 <= k < |s.taken| ==> s.taken[k].0 == k)
  }

  predicate Inv(s: State) {
    WorkerInv(s) && PhaseInv(s) && PermitInv(s) && HistoryInv(s)
  }

  lemma InvInitial()
    ensures Inv(INITIAL)
  {
  }

  lemma WorkerInvAfterWorker(s: State, a: Action)
    requires Inv(s) && IsWorkerAction(a) && Next(s, a).Some?
    ensures WorkerInv(Next(s, a).value)
  {
  }

  lemma WorkerInvAfterProducer(s: State, a: Action)
    requires Inv(s) && !IsWorkerAction(a) && Next(s, a).Some?
    ensures WorkerInv(Next(s, a).value)
  {
  }

  lemma PhaseInvAfterWorker(s: State, a: Action)
    requires Inv(s) && IsWorkerAction(a) && Next(s, a).Some?
    ensures PhaseInv(Next(s, a).value)
  {
  }

  lemma PhaseInvAfterProducer(s: State, a: Action)
    requires Inv(s) && !IsWorkerAction(a) && Next(s, a).Some?
    ensures PhaseInv(Next(s, a).value)
  {
  }

  lemma PermitInvAfterWorker(s: State, a: Action)
    requires Inv(s) && IsWorkerAction(a) && Next(s, a).Some?
    ensures PermitInv(Next(s, a).value)
  {
  }

  lemma PermitInvAfterProducer(s: State, a: Action)
    requires Inv(s) && !IsWorkerAction(a) && Next(s, a).Some?
    ensures PermitInv(Next(s, a).value)
  {
  }

  /** What the history is made of. */
  predicate SameHistory(s: State, t: State) {
    t.taken == s.taken && t.queued == s.queued && t.stops == s.stops && t.jobPending == s.jobPending
  }

  /** Only taking a job changes the history. */
  lemma WorkerKeepsHistory(s: State, a: Action)
    requires WorkerNext(s, a).Some? && !a.TakeJob?
    ensures SameHistory(s, WorkerNext(s, a).value)
  {
  }

  lemma HistoryInvAfterWorker(s: State, a: Action)
    requires Inv(s) && IsWorkerAction(a) && Next(s, a).Some?
    ensures HistoryInv(Next(s, a).value)
  {
    var t := Next(s, a).value;
    if !a.TakeJob? {
      WorkerKeepsHistory(s, a);
      UnqueuedHistory(s, t);
    } else if s.stop {
      UnqueuedHistory(s, t);
    } else {
      TakenHistory(s, t);
    }
  }

  /** Taking the pending frame extends the history by that frame. */
  lemma TakenHistory(s: State, t: State)
    requires HistoryInv(s) && s.jobPending && s.queued != [] && s.job == s.queued[|s.queued| - 1]
    requires !t.jobPending && t.queued == s.queued && t.stops == s.stops
    requires t.taken == s.taken + [(|s.queued| - 1, s.job)]
    ensures HistoryInv(t)
  {
  }

  lemma QueuedHistory(s: State, t: State)
    requires HistoryInv(s) && !s.jobPending
    requires t.taken == s.taken && |t.queued| == |s.queued| + 1 && t.queued[..|s.queued|] == s.queued
    requires t.jobPending && t.stops == s.stops
    ensures HistoryInv(t)
  {
    forall k | 0 <= k < |s.taken|
      ensures t.queued[s.taken[k].0] == s.queued[s.taken[k].0]
    {
      assert t.queued[..|s.queued|][s.taken[k].0] == s.queued[s.taken[k].0];
    }
  }

  lemma UnqueuedHistory(s: State, t: State)
    requires HistoryInv(s) && t.taken == s.taken && t.queued == s.queued && t.stops >= s.stops
    requires t.jobPending == s.jobPending || (t.stops > 0 && !t.jobPending)
    ensures HistoryInv(t)
  {
  }

  lemma HistoryInvAfterProducer(s: State, a: Action)
    requires Inv(s) && !IsWorkerAction(a) && Next(s, a).Some?
    ensures HistoryInv(Next(s, a).value)
  {
    if a.QueueInEnd? {
      QueuedHistory(s, Next(s, a).value);
    } else {
      UnqueuedHistory(s, Next(s, a).value);
    }
  }

  lemma InvNext(s: State, a: Action)
    requires Inv(s) && Next(s, a).Some?
    ensures Inv(Next(s, a).value)
  {
    if IsWorkerAction(a) {
      WorkerInvAfterWorker(s, a);
      PhaseInvAfterWorker(s, a);
      PermitInvAfterWorker(s, a);
      HistoryInvAfterWorker(s, a);
    } else {
      WorkerInvAfterProducer(s, a);
      PhaseInvAfterProducer(s, a);
      PermitInvAfterProducer(s, a);
      HistoryInvAfterProducer(s, a);
    }
  }

  /** A run: the states it goes through, starting where the program starts. */
  ghost predicate Run(states: seq<State>, actions: seq<Action>) {
    && |states| == |actions| + 1 && states[0] == INITIAL
    && forall i :: 0 <= i < |actions| ==> Next(states[i], actions[i]) == Some(states[i + 1])
  }

  lemma {:induction false} RunKeepsInv(states: seq<State>, actions: seq<Action>, i: nat)
    requires Run(states, actions) && i < |states|
    ensures Inv(states[i])
  {
    if i > 0 {
      RunKeepsInv(states, actions, i - 1);
      assert Next(states[i - 1], actions[i - 1]) == Some(states[i]);
      InvNext(states[i - 1], actions[i - 1]);
    } else {
      InvInitial();
    }
  }

  /** DONE implies SEALED, and at most one frame is queued or being worked on. */
  lemma PhasesInOrder(states: seq<State>, actions: seq<Action>, i: nat)
    requires Run(states, actions) && i < |states|
    ensures var s := states[i];
      && (s.ready ==> s.isSealed)
      && !(s.jobPending && InFlight(s.worker))
      && (s.ready ==> !InFlight(s.worker) && (!s.jobPending || s.worker.Exited?))
  {
    RunKeepsInv(states, actions, i);
  }

  /** Every frame is taken at most once, in the order it was queued, with what was
      queued with it; without a stop, none is skipped. */
  lemma FramesTakenInOrder(states: seq<State>, actions: seq<Action>, i: nat)
    requires Run(states, actions) && i < |states|
    ensures var s := states[i];
      && (forall j, k :: 0 <= j < k < |s.taken| ==> s.taken[j].0 < s.taken[k].0)
      && (forall k :: 0 <= k < |s.taken| ==> s.taken[k].0 < |s.queued| && s.taken[k].1 == s.queued[s.taken[k].0])
      && (s.stops == 0 ==>
            && |s.taken| <= |s.queued| <= |s.taken| + 1
            && forall k :: 0 <= k < |s.taken| ==> s.taken[k] == (k, s.queued[k]))
  {
    RunKeepsInv(states, actions, i);
  }

  /** No ImGui frame starts while a slot still has to replay the draw lists of a
      sealed frame. */
  lemma ImGuiFramesWait(states: seq<State>, actions: seq<Action>, i: nat)
    requires Run(states, actions) && i < |actions|
    requires StartsImGuiFrame(states[i], actions[i])
    ensures SlotsLeft(states[i].worker) == 0 && !states[i].worker.Sealing?
  {
    RunKeepsInv(states, actions, i);
    assert Next(states[i], actions[i]) == Some(states[i + 1]);
  }

  /** A permit lets through the preparation of the frame it was granted for, and of
      no other, and it is spent with that. */
  lemma PermitIsForItsFrame(states: seq<State>, actions: seq<Action>, i: nat)
    requires Run(states, actions) && i < |actions|
    requires actions[i].PassPermit? && !states[i].stop
    ensures states[i].worker.AwaitingPermit? && states[i].permitFor == Some(states[i].worker.job)
    ensures !states[i + 1].prepareAllowed
  {
    RunKeepsInv(states, actions, i);
    assert Next(states[i], actions[i]) == Some(states[i + 1]);
  }

  /** The producer sits in a call that only the worker can end. */
  predicate Blocked(s: State) {
    && s.started
    && match s.producer
       case BeginAwaitsDone => !s.ready
       case EndAwaitsDone => !s.ready
       case AwaitsDone => !s.ready
       case QuiesceAwaitsDone => !s.ready
       case AwaitsSealed => !s.isSealed
       case StopJoins => !s.worker.Exited?
       case _ => false
  }

  /** No thread can take a step. */
  ghost predicate Stuck(s: State) {
    forall a :: Next(s, a).None?
  }

  /** A step of the worker that is possible, if there is one. */
  function WorkerStep(s: State): Action {
    match s.worker
    case Starting => Enter
    case Sealing(_) => Seal(false, 1)
    case EncodingBeforePermit(_, _) => Replay
    case AwaitingPermit(_, _, _) => PassPermit
    case Preparing(_, _, _) => Prepare(true, false)
    case Prepared(_, _, _, _, _) => PublishSealed
    case EncodingAfterSealed(_, slots, _) => if slots > 0 then Replay else NewFrame
    case Encoded(_) => PublishDone
    case Leaving => Leave
    case _ => TakeJob
  }

  /** A waiting producer is deadlocked exactly when the worker awaits a permit for a
      frame after whose end_frame neither begin_frame nor quiesce was called. */
  lemma DeadlockExactly(states: seq<State>, actions: seq<Action>, i: nat)
    requires Run(states, actions) && i < |states| && Blocked(states[i])
    ensures Stuck(states[i]) <==> states[i].owing && states[i].worker.AwaitingPermit?
  {
    RunKeepsInv(states, actions, i);
    var s := states[i];
    if s.owing && s.worker.AwaitingPermit? {
      forall a ensures Next(s, a).None? {
      }
    } else {
      assert Next(s, WorkerStep(s)).Some?;
    }
  }

  /** How many steps the worker can take at most while the producer waits. */
  function WorkerRank(s: State): nat {
    match s.worker
    case Starting => if s.stop then 4 else if s.jobPending then 19 else 1
    case AwaitingJob => if s.stop then 3 else if s.jobPending then 18 else 0
    case Sealing(_) => 17
    case EncodingBeforePermit(_, slots) => 12 + slots
    case AwaitingPermit(_, _, _) => 12
    case Preparing(_, _, _) => 11
    case Prepared(_, _, _, _, _) => 10
    case EncodingAfterSealed(_, slots, _) => 5 + slots
    case Encoded(_) => 4
    case Leaving => 2
    case _ => 0
  }

  /** The worker steps from s to t while the producer sits in its call. */
  ghost predicate WhileBlocked(s: State, actions: seq<Action>, t: State)
    decreases |actions|
  {
    if actions == [] then s == t
    else
      && Blocked(s) && IsWorkerAction(actions[0]) && Next(s, actions[0]).Some?
      && WhileBlocked(Next(s, actions[0]).value, actions[1..], t)
  }

  lemma WorkerStepCloser(s: State, a: Action)
    requires Inv(s) && IsWorkerAction(a) && Next(s, a).Some?
    ensures WorkerRank(Next(s, a).value) < WorkerRank(s)
    ensures Next(s, a).value.owing == s.owing && Next(s, a).value.producer == s.producer
  {
  }

  /** Quiesce, stop and every disciplined wait end: however the worker proceeds, it
      makes at most WorkerRank steps, and when it can make no more, the call goes on. */
  lemma {:induction false} WaitEnds(s: State, actions: seq<Action>, t: State)
    requires Inv(s) && !s.owing && WhileBlocked(s, actions, t)
    ensures Inv(t) && !t.owing
    ensures |actions| <= WorkerRank(s)
    ensures Blocked(t) ==> Next(t, WorkerStep(t)).Some?
    decreases |actions|
  {
    if actions != [] {
      InvNext(s, actions[0]);
      WorkerStepCloser(s, actions[0]);
      WaitEnds(Next(s, actions[0]).value, actions[1..], t);
    }
  }

  /** What quiesce and stop grant is enough for the wait that follows them. */
  lemma CallsThatGrantDoNotOwe(s: State, a: Action)
    requires Inv(s) && Next(s, a).Some? && (a.LockBegin? || a.CallQuiesce? || a.CallStop?)
    ensures Blocked(Next(s, a).value) ==> !Next(s, a).value.owing
  {
  }

  lemma ExtendRun(states: seq<State>, actions: seq<Action>, a: Action, t: State)
    requires Run(states, actions) && Next(states[|actions|], a) == Some(t)
    ensures Run(states + [t], actions + [a])
  {
  }

  /** A second end_frame with neither begin_frame nor quiesce in between deadlocks
      both threads. */
  lemma TwoEndsDeadlock() returns (states: seq<State>, actions: seq<Action>)
    ensures Run(states, actions) && forall a :: a in actions ==> !a.CallBegin? && !a.CallQuiesce?
    ensures Blocked(states[|actions|]) && Stuck(states[|actions|])
  {
    states, actions := [INITIAL], [];
    states, actions := Continue(states, actions, CallEnd);
    states, actions := Continue(states, actions, ReachPhase);
    states, actions := Continue(states, actions, QueueInEnd(Job(1, 1)));
    states, actions := Continue(states, actions, Enter);
    states, actions := Continue(states, actions, TakeJob);
    states, actions := Continue(states, actions, Seal(true, 2));
    states, actions := Continue(states, actions, CallEnd);
    DeadlockExactly(states, actions, 7);
  }

  lemma Continue(states: seq<State>, actions: seq<Action>, a: Action)
    returns (more: seq<State>, further: seq<Action>)
    requires Run(states, actions) && Next(states[|actions|], a).Some?
    ensures Run(more, further) && further == actions + [a]
    ensures more[|further|] == Next(states[|actions|], a).value
  {
    var t := Next(states[|actions|], a).value;
    ExtendRun(states, actions, a, t);
    more, further := states + [t], actions + [a];
  }
}
