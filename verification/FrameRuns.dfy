/** What a run of the two threads does, read off its actions: which slots are replayed,
    what the frame flag says, and where the producer's calls return. */
module FrameRuns {
  import opened FrameWorker
  import opened Wrappers

  // Slots

  /** How many slots are replayed by the actions in [from, until). */
  function Replays(actions: seq<Action>, from: nat, until: nat): nat
    requires from <= until <= |actions|
    decreases until - from
  {
    if from == until then 0 else Replays(actions, from, until - 1) + (if actions[until - 1].Replay? then 1 else 0)
  }

  /** The worker has sealed a frame and not finished it. */
  predicate AfterSeal(w: Worker) {
    || w.EncodingBeforePermit? || w.AwaitingPermit? || w.Preparing? || w.Prepared? || w.EncodingAfterSealed? || w.Encoded?
  }

  /** How far the worker has come with a frame of so many slots, so many of them replayed:
      without overlap they come before the permit, with it all of them after the next frame
      is prepared. */
  predicate Progress(w: Worker, overlap: bool, slots: nat, replayed: nat) {
    match w
    case EncodingBeforePermit(_, left) => !overlap && left > 0 && replayed + left == slots
    case AwaitingPermit(_, o, left) => o == overlap && BeforeOverlap(overlap, slots, left, replayed)
    case Preparing(_, o, left) => o == overlap && BeforeOverlap(overlap, slots, left, replayed)
    case Prepared(_, o, left, _, _) => o == overlap && BeforeOverlap(overlap, slots, left, replayed)
    case EncodingAfterSealed(_, left, _) => overlap && replayed + left == slots
    case Encoded(_) => overlap && replayed == slots
    case _ => false
  }

  predicate BeforeOverlap(overlap: bool, slots: nat, left: nat, replayed: nat) {
    if overlap then replayed == 0 && left == slots else replayed == slots && left == 0
  }

  lemma SealStarts(s: State, a: Action)
    requires Next(s, a).Some? && a.Seal?
    ensures Progress(Next(s, a).value.worker, a.overlap, a.slots, 0)
    ensures 1 <= a.slots <= 4 && (a.overlap <==> a.slots > 1)
  {
  }

  lemma StartKeepsWorker(s: State)
    ensures var w := EnsureStarted(s).worker; w == s.worker || w.Starting?
  {
  }

  /** The producer starts and joins the worker, and otherwise leaves it where it is. */
  lemma ProducerKeepsWorker(s: State, a: Action)
    requires ProducerNext(s, a).Some?
    ensures var w := ProducerNext(s, a).value.worker; w == s.worker || w.Starting? || w.Absent?
  {
    match a
    case CallBegin => StartKeepsWorker(s);
    case CallEnd => StartKeepsWorker(s);
    case ReachPhase => ReachKeepsWorker(s);
    case _ =>
  }

  lemma ReachKeepsWorker(s: State)
    requires Reached(s).Some?
    ensures Reached(s).value.worker == s.worker
  {
  }

  lemma WorkerKeepsProducer(s: State, a: Action)
    requires WorkerNext(s, a).Some? && !a.Replay?
    ensures WorkerNext(s, a).value.producer == s.producer
  {
  }

  lemma PermitOfFrame(s: State, overlap: bool, slots: nat, replayed: nat)
    requires WorkerNext(s, PassPermit).Some? && AfterSeal(WorkerNext(s, PassPermit).value.worker)
    ensures AfterSeal(s.worker)
    ensures Progress(s.worker, overlap, slots, replayed) ==>
      Progress(WorkerNext(s, PassPermit).value.worker, overlap, slots, replayed)
  {
  }

  lemma PrepareOfFrame(s: State, a: Action, overlap: bool, slots: nat, replayed: nat)
    requires a.Prepare? && WorkerNext(s, a).Some?
    ensures AfterSeal(s.worker)
    ensures Progress(s.worker, overlap, slots, replayed) ==>
      Progress(WorkerNext(s, a).value.worker, overlap, slots, replayed)
  {
  }

  lemma PublishOfFrame(s: State, overlap: bool, slots: nat, replayed: nat)
    requires WorkerNext(s, PublishSealed).Some? && AfterSeal(WorkerNext(s, PublishSealed).value.worker)
    ensures AfterSeal(s.worker)
    ensures Progress(s.worker, overlap, slots, replayed) ==>
      Progress(WorkerNext(s, PublishSealed).value.worker, overlap, slots, replayed)
  {
  }

  lemma NewFrameOfFrame(s: State, overlap: bool, slots: nat, replayed: nat)
    requires WorkerNext(s, NewFrame).Some?
    ensures AfterSeal(s.worker)
    ensures Progress(s.worker, overlap, slots, replayed) ==>
      Progress(WorkerNext(s, NewFrame).value.worker, overlap, slots, replayed)
  {
  }

  /** The other actions of the worker end at no sealed frame. */
  lemma OthersLeaveFrame(s: State, a: Action)
    requires WorkerNext(s, a).Some? && (a.Enter? || a.TakeJob? || a.PublishDone? || a.Leave?)
    ensures !AfterSeal(WorkerNext(s, a).value.worker)
  {
  }

  lemma WorkerOfFrame(s: State, a: Action, overlap: bool, slots: nat, replayed: nat)
    requires WorkerNext(s, a).Some? && !a.Seal? && !a.Replay? && AfterSeal(WorkerNext(s, a).value.worker)
    ensures AfterSeal(s.worker)
    ensures Progress(s.worker, overlap, slots, replayed) ==>
      Progress(WorkerNext(s, a).value.worker, overlap, slots, replayed)
  {
    match a
    case PassPermit => PermitOfFrame(s, overlap, slots, replayed);
    case Prepare(_, _) => PrepareOfFrame(s, a, overlap, slots, replayed);
    case PublishSealed => PublishOfFrame(s, overlap, slots, replayed);
    case NewFrame => NewFrameOfFrame(s, overlap, slots, replayed);
    case _ => OthersLeaveFrame(s, a);
  }

  lemma StepOfFrame(s: State, a: Action, overlap: bool, slots: nat, replayed: nat)
    requires Next(s, a).Some? && !a.Seal? && AfterSeal(Next(s, a).value.worker)
    ensures AfterSeal(s.worker)
    ensures Progress(s.worker, overlap, slots, replayed) ==>
      Progress(Next(s, a).value.worker, overlap, slots, replayed + (if a.Replay? then 1 else 0))
  {
    if a.Replay? {
      ReplayOfFrame(s, overlap, slots, replayed);
    } else if IsWorkerAction(a) {
      WorkerOfFrame(s, a, overlap, slots, replayed);
    } else {
      ProducerKeepsWorker(s, a);
    }
  }

  lemma ReplayBeforePermit(s: State, overlap: bool, slots: nat, replayed: nat)
    requires s.worker.EncodingBeforePermit? && Replayed(s).Some? && Progress(s.worker, overlap, slots, replayed)
    ensures Progress(Replayed(s).value.worker, overlap, slots, replayed + 1)
  {
  }

  lemma ReplayAfterSealed(s: State, overlap: bool, slots: nat, replayed: nat)
    requires s.worker.EncodingAfterSealed? && Replayed(s).Some? && Progress(s.worker, overlap, slots, replayed)
    ensures Progress(Replayed(s).value.worker, overlap, slots, replayed + 1)
  {
  }

  lemma ReplayOfFrame(s: State, overlap: bool, slots: nat, replayed: nat)
    requires Replayed(s).Some?
    ensures s.worker.EncodingBeforePermit? || (s.worker.EncodingAfterSealed? && s.worker.slots > 0)
    ensures Progress(s.worker, overlap, slots, replayed) ==> Progress(Replayed(s).value.worker, overlap, slots, replayed + 1)
  {
    if Progress(s.worker, overlap, slots, replayed) {
      if s.worker.EncodingBeforePermit? {
        ReplayBeforePermit(s, overlap, slots, replayed);
      } else {
        ReplayAfterSealed(s, overlap, slots, replayed);
      }
    }
  }

  /** A step that leaves the worker at a sealed frame seals it, or brings it on. */
  ghost predicate FrameStep(w: Worker, a: Action, v: Worker) {
    AfterSeal(v) ==>
      if a.Seal? then Progress(v, a.overlap, a.slots, 0) && 1 <= a.slots <= 4 && (a.overlap <==> a.slots > 1)
      else
        && AfterSeal(w)
        && forall overlap, slots: nat, replayed: nat :: Progress(w, overlap, slots, replayed) ==>
             Progress(v, overlap, slots, replayed + (if a.Replay? then 1 else 0))
  }

  lemma FrameStepOf(s: State, a: Action)
    requires Next(s, a).Some?
    ensures FrameStep(s.worker, a, Next(s, a).value.worker)
  {
    if AfterSeal(Next(s, a).value.worker) {
      if a.Seal? {
        SealStarts(s, a);
      } else {
        forall overlap, slots: nat, replayed: nat | Progress(s.worker, overlap, slots, replayed)
          ensures Progress(Next(s, a).value.worker, overlap, slots, replayed + (if a.Replay? then 1 else 0))
        {
          StepOfFrame(s, a, overlap, slots, replayed);
        }
        StepOfFrame(s, a, false, 0, 0);
      }
    }
  }

  /** The workers of a run. */
  function Workers(states: seq<State>): (workers: seq<Worker>)
    ensures |workers| == |states| && forall i :: 0 <= i < |workers| ==> workers[i] == states[i].worker
  {
    seq(|states|, i requires 0 <= i < |states| => states[i].worker)
  }

  ghost predicate FrameSteps(workers: seq<Worker>, actions: seq<Action>) {
    && |workers| == |actions| + 1 && !AfterSeal(workers[0])
    && forall i :: 0 <= i < |actions| ==> FrameStep(workers[i], actions[i], workers[i + 1])
  }

  lemma RunSteps(states: seq<State>, actions: seq<Action>)
    requires Run(states, actions)
    ensures FrameSteps(Workers(states), actions)
  {
    forall i | 0 <= i < |actions|
      ensures FrameStep(Workers(states)[i], actions[i], Workers(states)[i + 1])
    {
      assert Next(states[i], actions[i]) == Some(states[i + 1]);
      FrameStepOf(states[i], actions[i]);
    }
  }

  /** Where the frame that the worker is at was sealed. */
  lemma {:induction false} SealOfFrame(workers: seq<Worker>, actions: seq<Action>, b: nat) returns (a: nat)
    requires FrameSteps(workers, actions) && b < |workers| && AfterSeal(workers[b])
    ensures a < b && actions[a].Seal? && forall i :: a < i < b ==> !actions[i].Seal?
    ensures 1 <= actions[a].slots <= 4 && (actions[a].overlap <==> actions[a].slots > 1)
    ensures Progress(workers[b], actions[a].overlap, actions[a].slots, Replays(actions, a + 1, b))
  {
    assert b > 0;
    assert FrameStep(workers[b - 1], actions[b - 1], workers[b - 1 + 1]);
    if actions[b - 1].Seal? {
      a := b - 1;
    } else {
      a := SealOfFrame(workers, actions, b - 1);
    }
  }

  /** The actions that only happen to a sealed frame. */
  predicate OfSealedFrame(a: Action) {
    a.Replay? || a.PassPermit? || a.PublishSealed? || a.NewFrame? || a.PublishDone?
  }

  /** Every slot that was sealed is replayed exactly once: before the permit is awaited
      when the frame does not overlap; and otherwise after the next frame is published as
      prepared, and before an ImGui frame starts or the frame is done. */
  lemma AllSlotsReplayed(states: seq<State>, actions: seq<Action>, b: nat) returns (a: nat)
    requires Run(states, actions) && b < |actions| && OfSealedFrame(actions[b])
    ensures a < b && actions[a].Seal? && forall i :: a < i < b ==> !actions[i].Seal?
    ensures 1 <= actions[a].slots <= 4 && (actions[a].overlap <==> actions[a].slots > 1)
    ensures
      var replayed := Replays(actions, a + 1, b);
      match actions[b]
      case Replay => replayed < actions[a].slots
      case PassPermit => replayed == if actions[a].overlap then 0 else actions[a].slots
      case PublishSealed => replayed == if actions[a].overlap then 0 else actions[a].slots
      case NewFrame => actions[a].overlap && replayed == actions[a].slots
      case PublishDone => actions[a].overlap && replayed == actions[a].slots
      case _ => false
  {
    assert Next(states[b], actions[b]) == Some(states[b + 1]);
    FrameOfAction(states[b], actions[b]);
    RunSteps(states, actions);
    a := SealOfFrame(Workers(states), actions, b);
  }

  /** Where the worker is when such an action happens. */
  lemma FrameOfAction(s: State, a: Action)
    requires Next(s, a).Some? && OfSealedFrame(a)
    ensures AfterSeal(s.worker)
    ensures
      match a
      case Replay => s.worker.EncodingBeforePermit? || (s.worker.EncodingAfterSealed? && s.worker.slots > 0)
      case PassPermit => s.worker.AwaitingPermit?
      case PublishSealed => s.worker.Prepared?
      case NewFrame => s.worker.EncodingAfterSealed? && s.worker.slots == 0
      case _ => s.worker.Encoded?
  {
  }

  // The frame flag

  /** Whether the last preparation of the worker succeeded. */
  function LastSuccess(actions: seq<Action>): bool {
    if actions == [] then false
    else
      var last := actions[|actions| - 1];
      if last.Prepare? then last.success else LastSuccess(actions[..|actions| - 1])
  }

  /** Whether a frame is prepared: as the producer's or the worker's last publication of a
      preparation said, unless a frame was queued or the worker joined since. */
  function Flag(actions: seq<Action>): bool {
    if actions == [] then false
    else
      var before := actions[..|actions| - 1];
      match actions[|actions| - 1]
      case PublishInBegin(success) => success
      case PublishSealed => LastSuccess(before)
      case QueueInEnd(_) => false
      case Join => false
      case _ => Flag(before)
  }

  lemma FlagOfProducer(s: State, a: Action)
    requires ProducerNext(s, a).Some?
    ensures var t := ProducerNext(s, a).value;
      t.framePrepared ==
        if a.PublishInBegin? then a.success else if a.QueueInEnd? || a.Join? then false else s.framePrepared
  {
  }

  lemma FlagOfWorker(s: State, a: Action)
    requires WorkerNext(s, a).Some? && !a.Replay?
    ensures var t := WorkerNext(s, a).value;
      && (if a.PublishSealed? then s.worker.Prepared? && t.framePrepared == s.worker.success
          else t.framePrepared == s.framePrepared)
      && (if a.Prepare? then t.worker.Prepared? && t.worker.success == a.success else !t.worker.Prepared?)
  {
  }

  lemma FlagStep(s: State, a: Action)
    requires Next(s, a).Some?
    ensures var t := Next(s, a).value;
      && (t.framePrepared ==
            if a.PublishInBegin? then a.success
            else if a.QueueInEnd? || a.Join? then false
            else if a.PublishSealed? && s.worker.Prepared? then s.worker.success
            else s.framePrepared)
      && (a.PublishSealed? ==> s.worker.Prepared?)
      && (t.worker.Prepared? ==> if a.Prepare? then t.worker.success == a.success else t.worker == s.worker)
  {
    if a.Replay? {
    } else if IsWorkerAction(a) {
      FlagOfWorker(s, a);
    } else {
      ProducerKeepsWorker(s, a);
      FlagOfProducer(s, a);
    }
  }

  lemma FlagOfLast(actions: seq<Action>, i: nat)
    requires 0 < i <= |actions|
    ensures var a, before := actions[i - 1], actions[..i - 1];
      && LastSuccess(actions[..i]) == (if a.Prepare? then a.success else LastSuccess(before))
      && Flag(actions[..i]) ==
           (if a.PublishInBegin? then a.success
            else if a.QueueInEnd? || a.Join? then false
            else if a.PublishSealed? then LastSuccess(before)
            else Flag(before))
  {
    assert actions[..i][..i - 1] == actions[..i - 1];
  }

  lemma {:induction false} FlagFollows(states: seq<State>, actions: seq<Action>, i: nat)
    requires Run(states, actions) && i < |states|
    ensures states[i].framePrepared == Flag(actions[..i])
    ensures states[i].worker.Prepared? ==> states[i].worker.success == LastSuccess(actions[..i])
  {
    if i > 0 {
      var s, a := states[i - 1], actions[i - 1];
      assert Next(s, a) == Some(states[i]);
      FlagFollows(states, actions, i - 1);
      FlagOfLast(actions, i);
      FlagStep(s, a);
    }
  }

  // The ImGui frame

  /** Whether the last preparation of the worker left an ImGui frame to be started. */
  function LastOwed(actions: seq<Action>): bool {
    if actions == [] then false
    else
      var last := actions[|actions| - 1];
      if last.Prepare? then last.newFrameOwed else LastOwed(actions[..|actions| - 1])
  }

  predicate CarriesDebt(w: Worker) {
    w.Prepared? || w.EncodingAfterSealed?
  }

  /** The debt is noted by the preparation and carried along until the ImGui frame starts. */
  lemma DebtOfWorker(s: State, a: Action)
    requires WorkerNext(s, a).Some? && CarriesDebt(WorkerNext(s, a).value.worker)
    ensures WorkerNext(s, a).value.worker.newFrameOwed ==
            if a.Prepare? then a.newFrameOwed else CarriesDebt(s.worker) && s.worker.newFrameOwed
    ensures !a.Prepare? ==> CarriesDebt(s.worker)
  {
    if a.PublishSealed? {
      DebtPublished(s);
    } else if a.Replay? {
      DebtReplayed(s);
    }
  }

  lemma DebtPublished(s: State)
    requires WorkerNext(s, PublishSealed).Some? && CarriesDebt(WorkerNext(s, PublishSealed).value.worker)
    ensures CarriesDebt(s.worker) && WorkerNext(s, PublishSealed).value.worker.newFrameOwed == s.worker.newFrameOwed
  {
  }

  lemma DebtReplayed(s: State)
    requires Replayed(s).Some? && CarriesDebt(Replayed(s).value.worker)
    ensures CarriesDebt(s.worker) && Replayed(s).value.worker.newFrameOwed == s.worker.newFrameOwed
  {
  }

  lemma DebtOfStep(s: State, a: Action)
    requires Next(s, a).Some? && CarriesDebt(Next(s, a).value.worker)
    ensures Next(s, a).value.worker.newFrameOwed ==
            if a.Prepare? then a.newFrameOwed else CarriesDebt(s.worker) && s.worker.newFrameOwed
    ensures !a.Prepare? ==> CarriesDebt(s.worker)
  {
    if IsWorkerAction(a) {
      DebtOfWorker(s, a);
    } else {
      ProducerKeepsWorker(s, a);
    }
  }

  lemma {:induction false} DebtFollows(states: seq<State>, actions: seq<Action>, i: nat)
    requires Run(states, actions) && i < |states| && CarriesDebt(states[i].worker)
    ensures states[i].worker.newFrameOwed == LastOwed(actions[..i])
  {
    assert i > 0;
    var s, a := states[i - 1], actions[i - 1];
    assert Next(s, a) == Some(states[i]);
    assert actions[..i][..i - 1] == actions[..i - 1];
    DebtOfStep(s, a);
    if !a.Prepare? {
      DebtFollows(states, actions, i - 1);
    }
  }

  /** A frame's deferred ImGui frame starts exactly when its preparation left one to be started. */
  lemma DebtIsPaid(states: seq<State>, actions: seq<Action>, i: nat)
    requires Run(states, actions) && i < |actions| && actions[i].NewFrame?
    ensures StartsImGuiFrame(states[i], actions[i]) <==> LastOwed(actions[..i])
  {
    assert Next(states[i], actions[i]) == Some(states[i + 1]);
    FrameOfAction(states[i], actions[i]);
    DebtFollows(states, actions, i);
  }

  // The producer's calls

  /** A wait returns in the phase it waits for. */
  lemma WaitsEndAtPhase(states: seq<State>, actions: seq<Action>, i: nat)
    requires Run(states, actions) && i < |actions| && actions[i].ReachPhase?
    ensures if states[i].producer.AwaitsSealed? then states[i].isSealed else states[i].ready
  {
    RunKeepsInv(states, actions, i);
    assert Next(states[i], actions[i]) == Some(states[i + 1]);
  }

  /** A frame is only queued when the one before it is done with. */
  lemma QueuedWhenDone(states: seq<State>, actions: seq<Action>, i: nat)
    requires Run(states, actions) && i < |actions| && actions[i].QueueInEnd?
    ensures states[i].ready && states[i].isSealed && !InFlight(states[i].worker)
  {
    RunKeepsInv(states, actions, i);
    assert Next(states[i], actions[i]) == Some(states[i + 1]);
  }

  /** Where begin_frame is between its lock and its return. */
  predicate InBegin(s: State) {
    s.producer.BeginAwaitsDone? || s.producer.BeginPrepares? || s.producer.BeginPublishes?
  }

  /** begin_frame goes on, or returns from where its frame is done. */
  lemma BeginStep(s: State, a: Action)
    requires Inv(s) && Next(s, a).Some? && InBegin(s)
    ensures var t := Next(s, a).value; InBegin(t) || (t.producer.Running? && t.ready)
  {
    if a.Replay? {
    } else if IsWorkerAction(a) {
      WorkerKeepsProducer(s, a);
    }
  }

  lemma BeginLocks(s: State)
    requires Next(s, LockBegin(true)).Some?
    ensures var t := Next(s, LockBegin(true)).value; InBegin(t) || (t.producer.Running? && t.ready)
  {
  }

  lemma {:induction false} StillInBegin(states: seq<State>, actions: seq<Action>, i: nat, j: nat)
    requires Run(states, actions) && i < j < |states| && actions[i] == LockBegin(true)
    requires forall k :: i < k < j ==> !states[k].producer.Running?
    ensures InBegin(states[j]) || (states[j].producer.Running? && states[j].ready)
    decreases j
  {
    RunKeepsInv(states, actions, j - 1);
    assert Next(states[j - 1], actions[j - 1]) == Some(states[j]);
    if i + 1 < j {
      StillInBegin(states, actions, i, j - 1);
      BeginStep(states[j - 1], actions[j - 1]);
    } else {
      BeginLocks(states[i]);
    }
  }

  /** While a surface changes, begin_frame does not return before the frame is done. */
  lemma SurfaceChangesWait(states: seq<State>, actions: seq<Action>, i: nat, j: nat)
    requires Run(states, actions) && i < j < |states| && actions[i] == LockBegin(true)
    requires states[j].producer.Running? && forall k :: i < k < j ==> !states[k].producer.Running?
    ensures states[j].ready
  {
    StillInBegin(states, actions, i, j);
  }

  /** Where a frame is done but none is prepared, begin_frame prepares one before it returns. */
  lemma {:induction false} DoneFramesArePrepared(states: seq<State>, actions: seq<Action>, i: nat, j: nat)
    requires Run(states, actions) && i < j < |states| && actions[i].LockBegin?
    requires states[i].ready && !states[i].framePrepared
    requires forall k :: i < k < j ==> !states[k].producer.Running?
    ensures states[j].producer.Running? ==>
      actions[j - 1].PublishInBegin? && states[j].framePrepared == actions[j - 1].success
    ensures !states[j].producer.Running? ==> Preparing(states[j])
    decreases j
  {
    assert Next(states[j - 1], actions[j - 1]) == Some(states[j]);
    if i + 1 < j {
      DoneFramesArePrepared(states, actions, i, j - 1);
      LeavesPreparation(states[j - 1], actions[j - 1]);
    } else {
      StartsPreparing(states[i], actions[i]);
    }
  }

  lemma StartsPreparing(s: State, a: Action)
    requires a.LockBegin? && Next(s, a).Some? && s.ready && !s.framePrepared
    ensures Next(s, a).value.producer.BeginPrepares?
  {
  }

  predicate Preparing(s: State) {
    s.producer.BeginPrepares? || s.producer.BeginPublishes?
  }

  lemma LeavesPreparation(s: State, a: Action)
    requires Next(s, a).Some? && Preparing(s)
    ensures var t := Next(s, a).value;
      if t.producer.Running? then a.PublishInBegin? && t.framePrepared == a.success else Preparing(t)
  {
    if a.Replay? {
    } else if IsWorkerAction(a) {
      WorkerKeepsProducer(s, a);
    }
  }

  /** A frame that is still being worked on gets its permit from begin_frame, from quiesce and
      from a stop; what quiesce granted is taken back before it returns. */
  lemma PermitsGranted(states: seq<State>, actions: seq<Action>, i: nat)
    requires Run(states, actions) && i < |actions| && states[i].started && !states[i].ready
    ensures actions[i].LockBegin? || actions[i].CallQuiesce? || actions[i].CallStop? ==> states[i + 1].prepareAllowed
  {
    assert Next(states[i], actions[i]) == Some(states[i + 1]);
  }

  lemma PermitTakenBack(states: seq<State>, actions: seq<Action>, i: nat)
    requires Run(states, actions) && i < |actions| && states[i].producer.QuiesceClears? && !IsWorkerAction(actions[i])
    ensures !states[i + 1].prepareAllowed && states[i + 1].producer.Running?
  {
    assert Next(states[i], actions[i]) == Some(states[i + 1]);
  }
}
