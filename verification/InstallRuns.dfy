/** Whole lives of an installation: operations that take the lock, recover what an
    earlier one left, and publish a transaction, each of which can fail or be killed. */
module InstallRuns {
  import opened FileTree
  import opened InstallDisk
  import opened InstallPlan
  import opened Transactions
  import opened Wrappers

  const SCRATCH_PREFIX: string := ".mkwc-scratch-"

  /** At or below a scratch directory in the container. */
  predicate InScratch(container: Path, q: Path) {
    |q| > |container| && Contains(container, q) && SCRATCH_PREFIX <= q[|container|]
  }

  /** The part of the disk that is the installation: what is at or below its root,
      except the scratch directories of operations. */
  ghost predicate Visible(root: Path, q: Path) {
    Contains(root, q) && !InScratch(root, q)
  }

  /** An installation that is not itself named like a scratch directory. */
  predicate IsRoot(root: Path) {
    root != [] && !(SCRATCH_PREFIX <= root[|root| - 1])
  }

  type View = imap<Path, Node>

  ghost function ViewOf(t: Tree, root: Path): View {
    imap q: Path | q in t && Visible(root, q) :: t[q]
  }

  /** One destination and what a committed transaction put there. */
  datatype Change = Change(destination: Path, contents: View)

  ghost function NodeAfter(view: View, changes: seq<Change>, q: Path): Option<Node> {
    if changes == [] then
      if q in view then Some(view[q]) else None
    else
      var c := changes[|changes| - 1];
      if Contains(c.destination, q) then
        if q[|c.destination|..] in c.contents then Some(c.contents[q[|c.destination|..]]) else None
      else NodeAfter(view, changes[..|changes| - 1], q)
  }

  ghost function Applied(view: View, root: Path, changes: seq<Change>): View {
    imap q: Path | Visible(root, q) && NodeAfter(view, changes, q).Some? :: NodeAfter(view, changes, q).value
  }

  /** The tree is the view, plus at most empty-handed directories that were made
      on the way to a destination some operation asked for. */
  ghost predicate Shows(view: View, t: Tree, root: Path, asked: set<Path>) {
    forall q :: Visible(root, q) ==>
      && (q in view ==> q in t && t[q] == view[q])
      && (q in t && q !in view ==> t[q] == Dir && exists d :: d in asked && Above(q, d))
  }

  /** The plan's own working paths lie outside what is visible. */
  ghost predicate Hidden(plan: Plan, root: Path) {
    forall q :: Visible(root, q) ==>
      && !Contains(plan.workRoot, q)
      && forall i :: 0 <= i < |plan.entries| ==> !Contains(plan.entries[i].prepared, q)
  }

  function Destinations(plan: Plan): set<Path> {
    set i | 0 <= i < |plan.entries| :: plan.entries[i].destination
  }

  ghost function ChangesOf(base: Tree, entries: seq<Entry>): seq<Change> {
    seq(|entries|, i requires 0 <= i < |entries| => Change(entries[i].destination, At(base, entries[i].prepared)))
  }

  /** Every destination holds what was prepared and the rest of base is kept. */
  ghost predicate Installs(base: Tree, t: Tree, plan: Plan) {
    && WellFormed(t) && Kept(base, t, plan)
    && forall i :: 0 <= i < |plan.entries| ==>
         At(t, plan.entries[i].destination) == At(base, plan.entries[i].prepared)
  }

  lemma BeyondOrBelow(plan: Plan, root: Path, q: Path)
    requires Hidden(plan, root) && Visible(root, q)
    ensures Beyond(plan, q) || exists i :: 0 <= i < |plan.entries| && Contains(plan.entries[i].destination, q)
  {
  }

  lemma SettledShows(view: View, base: Tree, t: Tree, plan: Plan, root: Path, asked: set<Path>)
    requires Shows(view, base, root, asked) && Settled(base, t, plan) && Hidden(plan, root)
    ensures Shows(view, t, root, asked + Destinations(plan))
  {
    forall q | Visible(root, q)
      ensures q in view ==> q in t && t[q] == view[q]
      ensures q in t && q !in view ==> t[q] == Dir && exists d :: d in asked + Destinations(plan) && Above(q, d)
    {
      BeyondOrBelow(plan, root, q);
      if i :| 0 <= i < |plan.entries| && Contains(plan.entries[i].destination, q) {
        assert Restored(base, t, plan.entries[i]);
        SubtreeNodes(base, t, plan.entries[i].destination, q);
        if q in t && q !in view {
          var d :| d in asked && Above(q, d);
          assert d in asked + Destinations(plan);
        }
      } else if q in t && q !in view {
        KeptShows(base, t, plan, asked, q);
      }
    }
  }

  lemma KeptShows(base: Tree, t: Tree, plan: Plan, asked: set<Path>, q: Path)
    requires Kept(base, t, plan) && Beyond(plan, q) && q in t
    requires q in base ==> base[q] == Dir && exists d :: d in asked && Above(q, d)
    ensures t[q] == Dir && exists d :: d in asked + Destinations(plan) && Above(q, d)
  {
    if q in base {
      var d :| d in asked && Above(q, d);
      assert d in asked + Destinations(plan);
    } else {
      var i :| 0 <= i < |plan.entries| && Above(q, plan.entries[i].destination);
      assert plan.entries[i].destination in Destinations(plan);
    }
  }

  lemma {:induction false} NodeBesideChanges(view: View, changes: seq<Change>, q: Path)
    requires forall i :: 0 <= i < |changes| ==> !Contains(changes[i].destination, q)
    ensures NodeAfter(view, changes, q) == if q in view then Some(view[q]) else None
  {
    if changes != [] {
      NodeBesideChanges(view, changes[..|changes| - 1], q);
    }
  }

  /** A change decides what is at and below its destination. */
  lemma {:induction false} NodeInChange(view: View, changes: seq<Change>, i: nat, q: Path)
    requires i < |changes| && Contains(changes[i].destination, q)
    requires forall j :: i < j < |changes| ==> !Contains(changes[j].destination, q)
    ensures var r := q[|changes[i].destination|..];
      NodeAfter(view, changes, q) == if r in changes[i].contents then Some(changes[i].contents[r]) else None
  {
    if i < |changes| - 1 {
      NodeInChange(view, changes[..|changes| - 1], i, q);
    }
  }

  /** At and below a destination the installed nodes are those of the changes. */
  lemma InstalledAt(view: View, base: Tree, t: Tree, plan: Plan, i: nat, q: Path)
    requires Installs(base, t, plan) && Isolated(plan)
    requires i < |plan.entries| && Contains(plan.entries[i].destination, q)
    ensures NodeAfter(view, ChangesOf(base, plan.entries), q) == if q in t then Some(t[q]) else None
  {
    var e, changes := plan.entries[i], ChangesOf(base, plan.entries);
    assert changes[i].destination == e.destination && changes[i].contents == At(t, e.destination);
    forall j | i < j < |changes| ensures !Contains(changes[j].destination, q) {
      assert EntriesApart(e, plan.entries[j]);
      DisjointBelow(e.destination, plan.entries[j].destination, q);
    }
    NodeInChange(view, changes, i, q);
    Rejoin(e.destination, q);
    var r := q[|e.destination|..];
    assert r in At(t, e.destination) <==> q in t;
  }

  lemma InstalledShows(view: View, base: Tree, t: Tree, plan: Plan, root: Path, asked: set<Path>)
    requires Shows(view, base, root, asked) && Installs(base, t, plan)
    requires Isolated(plan) && Hidden(plan, root)
    ensures Shows(Applied(view, root, ChangesOf(base, plan.entries)), t, root, asked + Destinations(plan))
  {
    var changes := ChangesOf(base, plan.entries);
    var after := Applied(view, root, changes);
    forall q | Visible(root, q)
      ensures q in after ==> q in t && t[q] == after[q]
      ensures q in t && q !in after ==> t[q] == Dir && exists d :: d in asked + Destinations(plan) && Above(q, d)
    {
      BeyondOrBelow(plan, root, q);
      if i :| 0 <= i < |plan.entries| && Contains(plan.entries[i].destination, q) {
        InstalledAt(view, base, t, plan, i, q);
      } else {
        NodeBesideChanges(view, changes, q);
        if q in t && q !in after {
          KeptShows(base, t, plan, asked, q);
        }
      }
    }
  }

  /** One locked update: the entries it publishes and what it writes to the
      runtime configuration before it commits. */
  datatype Operation = Operation(
    transactionId: string,
    requests: seq<Request>,
    recordsConfig: bool,
    configWrites: seq<Bytes>)

  ghost predicate PreparedHidden(op: Operation, root: Path) {
    forall q, i :: Visible(root, q) && 0 <= i < |op.requests| ==> !Contains(op.requests[i].prepared, q)
  }

  function ConfigAfter(op: Operation, config: Option<Bytes>): Option<Bytes> {
    if op.recordsConfig && op.configWrites != [] then Some(op.configWrites[|op.configWrites| - 1]) else config
  }

  /** A plan that names nothing visible. */
  function IdlePlan(root: Path): Plan {
    Plan(root, root + [SCRATCH_PREFIX], [])
  }

  lemma IdlePlanHidden(root: Path)
    ensures Hidden(IdlePlan(root), root)
  {
    assert (root + [SCRATCH_PREFIX])[|root|] == SCRATCH_PREFIX;
  }

  lemma PlanHidden(t: Tree, root: Path, op: Operation)
    requires root != [] && FreshId(t, root, op.transactionId) && PreparedHidden(op, root)
    ensures Hidden(PlanFor(t, root, op.transactionId, op.requests), root)
  {
    var plan := PlanFor(t, root, op.transactionId, op.requests);
    assert |plan.workRoot| == |root|;
  }

  /** A directory of scratch space directly in the container. */
  predicate IsLeftover(t: Tree, container: Path, q: Path) {
    q in t && |q| == |container| + 1 && InScratch(container, q) && t[q].Dir?
  }

  /** u is t without some of the scratch space in the container. */
  ghost predicate Cleaned(t: Tree, u: Tree, container: Path) {
    && (forall q :: q in u ==> q in t && u[q] == t[q])
    && (forall q :: q in t && !InScratch(container, q) ==> q in u)
  }

  ghost predicate NoLeftover(t: Tree, container: Path) {
    forall q :: !IsLeftover(t, container, q)
  }

  lemma CleanedFurther(t: Tree, u: Tree, v: Tree, leftover: Path, container: Path)
    requires Cleaned(t, u, container) && InScratch(container, leftover) && PartlyDeleted(u, leftover, v)
    ensures Cleaned(t, v, container) && WellFormed(v)
  {
    forall q | q in u && !InScratch(container, q)
      ensures !Contains(leftover, q)
    {
    }
  }

  /** Deletes the scratch directories that interrupted operations left in one container. */
  method CleanContainer(disk: Disk, container: Path) returns (o: Outcome)
    requires WellFormed(disk.tree)
    modifies disk`tree, disk`faults
    ensures disk.faults >= old(disk.faults) && (o == Done ==> disk.faults == old(disk.faults))
    ensures WellFormed(disk.tree) && Cleaned(old(disk.tree), disk.tree, container)
    ensures o == Done ==> NoLeftover(disk.tree, container)
    ensures disk.faults == old(disk.faults) ==> o == Done
  {
    while exists q :: q in disk.tree && IsLeftover(disk.tree, container, q)
      invariant disk.faults == old(disk.faults)
      invariant WellFormed(disk.tree) && Cleaned(old(disk.tree), disk.tree, container)
      decreases disk.tree.Keys
    {
      var leftover :| leftover in disk.tree && IsLeftover(disk.tree, container, leftover);
      ghost var t := disk.tree;
      o := disk.Delete(leftover, Directory);
      CleanedFurther(old(disk.tree), t, disk.tree, leftover, container);
      if o != Done {
        return;
      }
      assert leftover in t && leftover !in disk.tree;
    }
    o := Done;
  }

  /** No scratch space holds anything that is visible. */
  lemma CleanedIsHidden(t: Tree, u: Tree, root: Path, container: Path)
    requires IsRoot(root) && Cleaned(t, u, container) && (container == root || container == Parent(root))
    ensures forall q :: Visible(root, q) ==> SameNode(t, u, q)
  {
    forall q | Visible(root, q)
      ensures !InScratch(container, q)
    {
      assert q[|root| - 1] == root[|root| - 1];
    }
  }

  lemma StillClean(t: Tree, u: Tree, container: Path, other: Path)
    requires NoLeftover(t, other) && Cleaned(t, u, container)
    ensures NoLeftover(u, other)
  {
    forall q
      ensures !IsLeftover(u, other, q)
    {
      assert !IsLeftover(t, other, q);
    }
  }

  lemma NoScratchByName(t: Tree, container: Path, name: string)
    requires NoLeftover(t, container) && ".mkwc-scratch-" <= name
    ensures !Exists(t, container + [name], Directory)
  {
    assert !IsLeftover(t, container, container + [name]);
  }

  lemma CleanedBoth(t: Tree, u: Tree, v: Tree, first: Path, second: Path)
    requires Cleaned(t, u, first) && Cleaned(u, v, second)
    ensures forall q :: q in v ==> q in t && v[q] == t[q]
    ensures forall q :: q in t && !InScratch(first, q) && !InScratch(second, q) ==> q in v
  {
  }

  /** Deletes the scratch space beside the installation, then the one inside it. */
  method RecoverScratch(disk: Disk, root: Path) returns (o: Outcome)
    requires WellFormed(disk.tree) && IsRoot(root)
    modifies disk`tree, disk`faults
    ensures disk.faults >= old(disk.faults) && (o == Done ==> disk.faults == old(disk.faults))
    ensures WellFormed(disk.tree)
    ensures forall q :: Visible(root, q) ==> SameNode(old(disk.tree), disk.tree, q)
    // Nothing but scratch goes, and nothing comes.
    ensures forall q :: q in disk.tree ==> q in old(disk.tree) && disk.tree[q] == old(disk.tree)[q]
    ensures forall q :: q in old(disk.tree) && !InScratch(Parent(root), q) && !InScratch(root, q) ==> q in disk.tree
    ensures o == Done ==> NoLeftover(disk.tree, Parent(root)) && NoLeftover(disk.tree, root)
    ensures o == Done ==> forall name: string :: ".mkwc-scratch-" <= name ==>
      !Exists(disk.tree, Parent(root) + [name], Directory) && !Exists(disk.tree, root + [name], Directory)
    ensures disk.faults == old(disk.faults) ==> o == Done
  {
    ghost var t := disk.tree;
    o := CleanContainer(disk, Parent(root));
    CleanedIsHidden(t, disk.tree, root, Parent(root));
    if o == Done {
      ghost var u := disk.tree;
      o := CleanContainer(disk, root);
      CleanedIsHidden(u, disk.tree, root, root);
      StillClean(u, disk.tree, root, Parent(root));
      CleanedBoth(t, u, disk.tree, Parent(root), root);
      if o == Done {
        forall name: string | ".mkwc-scratch-" <= name
          ensures !Exists(disk.tree, Parent(root) + [name], Directory) && !Exists(disk.tree, root + [name], Directory)
        {
          NoScratchByName(disk.tree, Parent(root), name);
          NoScratchByName(disk.tree, root, name);
        }
      }
    }
  }

  /** Opens the lock file and recovers before anything else happens. What is not
      scratch is then as the recovery of the transaction left it. */
  method Acquire(disk: Disk, root: Path, heldElsewhere: bool, ghost target: Image, ghost plan: Plan)
    returns (o: Outcome, ghost recovered: Tree)
    requires LeadsTo(target, plan, disk.journal, disk.tree, disk.config) && IsRoot(root)
    modifies disk`tree, disk`journal, disk`config, disk`configDirectory, disk`faults
    ensures disk.faults >= old(disk.faults)
    ensures LeadsTo(target, plan, disk.journal, recovered, disk.config)
    ensures if disk.journal.Some? then disk.tree == recovered
            else WellFormed(disk.tree) && forall q :: Visible(root, q) ==> SameNode(recovered, disk.tree, q)
    ensures o == Done ==>
      && !heldElsewhere && disk.journal == None
      && NoLeftover(disk.tree, Parent(root)) && NoLeftover(disk.tree, root)
    ensures old(disk.journal).Some? && disk.journal == None ==> At(disk.tree, plan.workRoot) == Nothing
    ensures heldElsewhere ==>
      && o == Failed(LockHeld) && disk.tree == old(disk.tree)
      && disk.journal == old(disk.journal) && disk.config == old(disk.config)
    ensures disk.faults == old(disk.faults) && !heldElsewhere ==>
      (o == Done <==> old(disk.journal).None? || Recoverable(root, old(disk.journal).value, old(disk.configDirectory)))
    ensures old(disk.journal).Some? && !Recoverable(root, old(disk.journal).value, old(disk.configDirectory)) ==>
      && o != Done && disk.journal == old(disk.journal) && disk.config == old(disk.config)
      && disk.configDirectory == old(disk.configDirectory)
  {
    recovered := disk.tree;
    if heldElsewhere {
      return Failed(LockHeld), recovered;
    }
    o := InstallTransaction.Recover(disk, root, target, plan);
    recovered := disk.tree;
    if o == Done {
      o := RecoverScratch(disk, root);
      NothingStays(recovered, disk.tree, plan.workRoot);
    }
  }

  lemma NothingStays(t: Tree, u: Tree, p: Path)
    requires forall q :: q in u ==> q in t
    ensures At(t, p) == Nothing ==> At(u, p) == Nothing
  {
    if At(t, p) == Nothing {
      forall r: Path ensures p + r !in u {
        assert Contains(p, p + r);
        EmptyBelow(t, p, p + r);
      }
    }
  }

  /** What an operation may do before it publishes: anything to what is not visible. */
  method Stage(disk: Disk, root: Path)
    requires WellFormed(disk.tree)
    modifies disk`tree
    ensures WellFormed(disk.tree)
    ensures forall q :: Visible(root, q) ==> SameNode(old(disk.tree), disk.tree, q)
  {
  }

  method WriteConfigs(disk: Disk, writes: seq<Bytes>) returns (o: Outcome)
    modifies disk`config, disk`configDirectory, disk`faults
    ensures disk.faults >= old(disk.faults) && (o == Done ==> disk.faults == old(disk.faults))
    ensures o == Done ==> disk.config == if writes == [] then old(disk.config) else Some(writes[|writes| - 1])
    ensures disk.faults == old(disk.faults) ==> o == Done
    ensures old(disk.configDirectory) ==> disk.configDirectory
    ensures o == Done && writes != [] ==> disk.configDirectory
  {
    o := Done;
    for i := 0 to |writes|
      invariant disk.config == if i == 0 then old(disk.config) else Some(writes[i - 1])
      invariant o == Done && (old(disk.configDirectory) || i > 0 ==> disk.configDirectory)
      invariant disk.faults == old(disk.faults)
    {
      o := disk.SetConfig(Some(writes[i]));
      if o != Done {
        return;
      }
    }
  }

  /** A journal that a recovery would accept. */
  ghost predicate JournalAcceptable(transaction: InstallTransaction)
    reads transaction
  {
    ValidJournal(transaction.journal.installRoot, transaction.journal)
  }

  /** Room for every entry and every backup. */
  ghost predicate NothingInTheWay(transaction: InstallTransaction)
    reads transaction, transaction.disk
  {
    && Unobstructed(transaction.base.tree, PlanOf(transaction.journal))
    && BackupsReady(transaction.disk.tree, PlanOf(transaction.journal))
  }

  /** The operation leaves the configuration alone, or can put it back. */
  predicate ConfigSafe(op: Operation, snapshot: ConfigSnapshot, configDirectory: bool) {
    op.recordsConfig && !snapshot.existed ==> configDirectory
  }

  /** Everything is published and nothing has failed. */
  ghost predicate ReadyToCommit(transaction: InstallTransaction)
    reads transaction, transaction.disk
  {
    && transaction.Valid() && transaction.intact && !transaction.finished && transaction.journal.state.Published?
    && Isolated(PlanOf(transaction.journal))
    && Installs(transaction.base.tree, transaction.disk.tree, PlanOf(transaction.journal))
  }

  lemma PublishedInstalls(base: Tree, t: Tree, plan: Plan)
    requires Isolated(plan) && Opened(base, plan) && PublishedUpTo(base, t, plan, |plan.entries|)
    ensures Installs(base, t, plan)
  {
  }

  /** Once the journal is gone, so are the backups and everything else in the work root. */
  ghost predicate NoWorkRootLeft(transaction: InstallTransaction)
    reads transaction, transaction.disk
  {
    transaction.disk.journal == None ==> At(transaction.disk.tree, transaction.journal.workRoot) == Nothing
  }

  method RecordAndWrite(transaction: InstallTransaction, op: Operation, snapshot: ConfigSnapshot) returns (o: Outcome)
    requires ReadyToCommit(transaction) && op.recordsConfig
    requires transaction.base.config == transaction.disk.config
    requires transaction.disk.config == if snapshot.existed then Some(snapshot.contents) else None
    modifies transaction, transaction.disk`journal, transaction.disk`config, transaction.disk`configDirectory, transaction.disk`faults
    ensures transaction.disk.faults >= old(transaction.disk.faults)
    ensures o == Done ==> transaction.disk.faults == old(transaction.disk.faults)
    ensures PlanOf(transaction.journal) == PlanOf(old(transaction.journal)) && transaction.Valid()
    ensures o == Done ==> ReadyToCommit(transaction) && transaction.disk.config == ConfigAfter(op, old(transaction.disk.config))
    ensures o != Done ==> transaction.Leads(transaction.base) && !transaction.finished
    ensures transaction.disk.journal.Some?
    ensures ConfigSafe(op, snapshot, old(transaction.disk.configDirectory)) ==>
      CanUndoConfig(transaction.journal, transaction.disk.configDirectory)
    ensures JournalAcceptable(transaction) <==> old(JournalAcceptable(transaction))
    ensures transaction.disk.faults == old(transaction.disk.faults) ==> o == Done
  {
    o := transaction.RecordRuntimeConfigurationMutation(snapshot);
    if o == Done {
      o := WriteConfigs(transaction.disk, op.configWrites);
    }
  }

  method PublishAndWrite(transaction: InstallTransaction, op: Operation, snapshot: ConfigSnapshot) returns (o: Outcome)
    requires transaction.Valid() && transaction.intact && !transaction.finished && transaction.journal.state.Prepared?
    requires transaction.base.config == transaction.disk.config
    requires transaction.disk.config == if snapshot.existed then Some(snapshot.contents) else None
    modifies transaction, transaction.disk`tree, transaction.disk`journal, transaction.disk`config, transaction.disk`configDirectory, transaction.disk`faults
    ensures transaction.disk.faults >= old(transaction.disk.faults)
    ensures o == Done ==> transaction.disk.faults == old(transaction.disk.faults)
    ensures PlanOf(transaction.journal) == PlanOf(old(transaction.journal))
    ensures o == Done ==> ReadyToCommit(transaction) && transaction.disk.config == ConfigAfter(op, old(transaction.disk.config))
    ensures o != Crashed ==> transaction.Valid()
    ensures o != Done ==> transaction.Leads(transaction.base)
    ensures NoWorkRootLeft(transaction)
    ensures transaction.disk.faults == old(transaction.disk.faults) && old(NothingInTheWay(transaction)) ==> o == Done
    ensures transaction.disk.faults == old(transaction.disk.faults) && old(JournalAcceptable(transaction)) ==>
      o == Done || (o.Failed? && transaction.finished && transaction.disk.journal == None)
    // What a failure left to be undone can be undone.
    ensures o.Failed? && old(JournalAcceptable(transaction)) && ConfigSafe(op, snapshot, old(transaction.disk.configDirectory)) ==>
      if transaction.finished then transaction.Undone()
      else JournalAcceptable(transaction) && CanUndoConfig(transaction.journal, transaction.disk.configDirectory)
    ensures o == Done && old(JournalAcceptable(transaction)) && ConfigSafe(op, snapshot, old(transaction.disk.configDirectory)) ==>
      JournalAcceptable(transaction) && CanUndoConfig(transaction.journal, transaction.disk.configDirectory)
  {
    o := transaction.Publish();
    if o == Done {
      PublishedInstalls(transaction.base.tree, transaction.disk.tree, PlanOf(transaction.journal));
      if op.recordsConfig {
        o := RecordAndWrite(transaction, op, snapshot);
      }
    }
  }

  /** From the opened transaction to its end: publish, journal and write the
      configuration, commit, dispose. */
  method Conclude(transaction: InstallTransaction, op: Operation, snapshot: ConfigSnapshot)
    returns (o: Outcome, ghost target: Image, ghost committed: bool)
    requires transaction.Valid() && transaction.intact && !transaction.finished && transaction.journal.state.Prepared?
    requires transaction.base.config == transaction.disk.config
    requires transaction.disk.config == if snapshot.existed then Some(snapshot.contents) else None
    modifies transaction, transaction.disk`tree, transaction.disk`journal, transaction.disk`config, transaction.disk`configDirectory, transaction.disk`faults
    ensures transaction.disk.faults >= old(transaction.disk.faults)
    ensures PlanOf(transaction.journal) == PlanOf(old(transaction.journal))
    ensures transaction.Leads(target) && NoWorkRootLeft(transaction)
    ensures !committed ==> target == transaction.base
    ensures committed ==>
      && target.config == ConfigAfter(op, old(transaction.disk.config))
      && Isolated(PlanOf(transaction.journal))
      && Installs(transaction.base.tree, target.tree, PlanOf(transaction.journal))
    ensures (o == Done ==> committed) && (o.Failed? ==> !committed)
    ensures transaction.disk.faults == old(transaction.disk.faults) && old(NothingInTheWay(transaction)) ==>
      o == Done && transaction.disk.journal == None
    ensures transaction.disk.faults == old(transaction.disk.faults) && old(JournalAcceptable(transaction)) ==>
      transaction.disk.journal == None
    // One step that fails is made good at once: if the transaction is not committed, it is undone.
    ensures
      && transaction.disk.faults <= old(transaction.disk.faults) + 1 && o != Crashed && !committed
      && old(JournalAcceptable(transaction)) && ConfigSafe(op, snapshot, old(transaction.disk.configDirectory))
      ==> transaction.Undone()
  {
    target, committed := transaction.base, false;
    o := PublishAndWrite(transaction, op, snapshot);
    if o == Done {
      ghost var published := Image(transaction.disk.tree, transaction.disk.config);
      o := transaction.Commit();
      if transaction.finished {
        target, committed := published, true;
      }
    }
    if o != Crashed {
      var disposed := transaction.Dispose();
      if disposed == Crashed {
        o := Crashed;
      }
    }
  }

  /** One publication by the holder of the lock. */
  method Update(disk: Disk, root: Path, op: Operation)
    returns (o: Outcome, ghost plan: Plan, ghost target: Image, ghost committed: bool)
    requires WellFormed(disk.tree) && disk.journal == None
    requires root != [] && FreshId(disk.tree, root, op.transactionId)
    modifies disk`tree, disk`journal, disk`config, disk`configDirectory, disk`faults
    ensures disk.faults >= old(disk.faults)
    ensures LeadsTo(target, plan, disk.journal, disk.tree, disk.config)
    ensures plan == IdlePlan(root) || plan == PlanFor(old(disk.tree), root, op.transactionId, op.requests)
    ensures !committed ==> target == Image(old(disk.tree), old(disk.config))
    ensures committed ==>
      && plan == PlanFor(old(disk.tree), root, op.transactionId, op.requests)
      && Isolated(plan) && Installs(old(disk.tree), target.tree, plan)
      && target.config == ConfigAfter(op, old(disk.config))
    // A committed update whose journal is gone has left no backup.
    ensures committed && disk.journal == None ==> At(disk.tree, WorkRoot(root, op.transactionId)) == Nothing
    ensures (o == Done ==> committed) && (o.Failed? ==> !committed)
    // Nothing but a failing disk or a file in the way can keep an accepted update from being made.
    ensures
      && disk.faults == old(disk.faults) && op.requests != [] && Acceptable(old(disk.tree), root, op.requests)
      && Unobstructed(old(disk.tree), PlanFor(old(disk.tree), root, op.transactionId, op.requests))
      ==> o == Done && disk.journal == None && At(disk.tree, WorkRoot(root, op.transactionId)) == Nothing
    // One step that fails is made good at once: what is not made is undone.
    ensures
      && disk.faults <= old(disk.faults) + 1 && o != Crashed && !committed && |op.requests| <= 64
      && (op.recordsConfig ==> old(disk.config).Some? || old(disk.configDirectory))
      ==> disk.journal.Some? ==> disk.journal.value.state.RolledBack?
    // Undisturbed, an update with a valid number of entries leaves no journal, made or not.
    ensures disk.faults == old(disk.faults) && |op.requests| <= MAXIMUM_ENTRIES ==> disk.journal == None
  {
    plan, target, committed := IdlePlan(root), Image(disk.tree, disk.config), false;
    var snapshot :=
      if disk.config.Some? then ConfigSnapshot(true, disk.config.value) else ConfigSnapshot(false, []);
    SettledIsItself(disk.tree, plan);
    if op.requests != [] && Acceptable(disk.tree, root, op.requests) {
      plan := PlanFor(disk.tree, root, op.transactionId, op.requests);
    }
    var transaction;
    o, transaction := InstallTransaction.Begin(disk, root, op.transactionId, op.requests);
    if transaction != null {
      o, target, committed := Conclude(transaction, op, snapshot);
    }
  }

  /** A first installation for one user: there is no configuration and no directory
      for it yet. Killed after its preimage is journaled and before the first write,
      it leaves a valid journal that no later attempt to take the lock can undo. */
  method InterruptedFirstInstall(disk: Disk, root: Path, op: Operation, attempts: nat) returns (o: Outcome)
    requires WellFormed(disk.tree) && disk.journal == None && IsRoot(root)
    requires FreshId(disk.tree, root, op.transactionId) && 0 < |op.requests| <= MAXIMUM_ENTRIES
    requires Acceptable(disk.tree, root, op.requests)
    requires Unobstructed(disk.tree, PlanFor(disk.tree, root, op.transactionId, op.requests))
    requires disk.config == None && !disk.configDirectory
    modifies disk`tree, disk`journal, disk`config, disk`configDirectory, disk`faults
    // No step of the file system fails, and yet:
    ensures disk.faults == old(disk.faults) ==>
      && disk.journal.Some? && ValidJournal(root, disk.journal.value) && !disk.configDirectory
      && (attempts > 0 ==> o != Done)
  {
    ghost var base := Image(disk.tree, disk.config);
    var transaction;
    o, transaction := InstallTransaction.Begin(disk, root, op.transactionId, op.requests);
    if transaction == null {
      return;
    }
    ghost var plan := PlanOf(transaction.journal);
    o := transaction.Publish();
    if o != Done {
      return;
    }
    o := transaction.RecordRuntimeConfigurationMutation(ConfigSnapshot(false, []));
    if o != Done {
      return;
    }
    ghost var journal := disk.journal;
    for attempt := 0 to attempts
      invariant disk.faults >= old(disk.faults)
      invariant disk.journal == journal && !disk.configDirectory
      invariant LeadsTo(base, plan, disk.journal, disk.tree, disk.config)
      invariant attempt > 0 ==> o != Done
    {
      ghost var recovered;
      o, recovered := Acquire(disk, root, false, base, plan);
    }
  }

  /** What the holder of the lock finds: how many transactions are committed by
      then, and the disk. */
  datatype Sighting = Sighting(committed: nat, tree: Tree, config: Option<Bytes>)

  /** A committed operation: its index, and the tree it began with. */
  datatype Commitment = Commitment(operation: nat, begun: Tree)

  function AskedFor(operations: seq<Operation>): set<Path> {
    set k, i | 0 <= k < |operations| && 0 <= i < |operations[k].requests|
      :: operations[k].requests[i].destination
  }

  ghost function ChangesBy(operations: seq<Operation>, c: Commitment): seq<Change>
    requires c.operation < |operations|
  {
    var requests := operations[c.operation].requests;
    seq(|requests|, i requires 0 <= i < |requests| => Change(requests[i].destination, At(c.begun, requests[i].prepared)))
  }

  /** Commitments are of operations among the first n, in the order they ran. */
  ghost predicate InOrder(commitments: seq<Commitment>, n: nat) {
    && (forall k :: 0 <= k < |commitments| ==> commitments[k].operation < n)
    && (forall j, k :: 0 <= j < k < |commitments| ==> commitments[j].operation < commitments[k].operation)
  }

  /** The initial installation after the given commitments. */
  ghost function ViewAfter(view: View, root: Path, operations: seq<Operation>, commitments: seq<Commitment>): View
    requires InOrder(commitments, |operations|)
  {
    if commitments == [] then view
    else
      var last := |commitments| - 1;
      Applied(ViewAfter(view, root, operations, commitments[..last]), root, ChangesBy(operations, commitments[last]))
  }

  ghost function ConfigAfterAll(config: Option<Bytes>, operations: seq<Operation>, commitments: seq<Commitment>): Option<Bytes>
    requires InOrder(commitments, |operations|)
  {
    if commitments == [] then config
    else
      var last := |commitments| - 1;
      ConfigAfter(operations[commitments[last].operation], ConfigAfterAll(config, operations, commitments[..last]))
  }

  /** The sighting is the initial installation with exactly the transactions
      committed by then applied whole and in order. */
  ghost predicate Faithful(
    s: Sighting, start: Image, root: Path, operations: seq<Operation>, commitments: seq<Commitment>)
    requires InOrder(commitments, |operations|)
  {
    && s.committed <= |commitments|
    && Shows(ViewAfter(ViewOf(start.tree, root), root, operations, commitments[..s.committed]),
             s.tree, root, AskedFor(operations))
    && s.config == ConfigAfterAll(start.config, operations, commitments[..s.committed])
  }

  lemma MoreCommitments(
    s: Sighting, start: Image, root: Path, operations: seq<Operation>,
    commitments: seq<Commitment>, more: seq<Commitment>)
    requires InOrder(more, |operations|) && commitments <= more && InOrder(commitments, |operations|)
    requires Faithful(s, start, root, operations, commitments)
    ensures Faithful(s, start, root, operations, more)
  {
    assert more[..s.committed] == commitments[..s.committed];
  }

  lemma ShowsMore(view: View, t: Tree, root: Path, asked: set<Path>, more: set<Path>)
    requires Shows(view, t, root, asked) && asked <= more
    ensures Shows(view, t, root, more)
  {
  }

  lemma OneMore(
    start: Image, root: Path, operations: seq<Operation>, commitments: seq<Commitment>, c: Commitment)
    requires InOrder(commitments, c.operation) && c.operation < |operations|
    ensures var more := commitments + [c];
      && InOrder(more, c.operation + 1)
      && ViewAfter(ViewOf(start.tree, root), root, operations, more) ==
           Applied(ViewAfter(ViewOf(start.tree, root), root, operations, commitments), root, ChangesBy(operations, c))
      && ConfigAfterAll(start.config, operations, more) ==
           ConfigAfter(operations[c.operation], ConfigAfterAll(start.config, operations, commitments))
  {
    var more := commitments + [c];
    assert more[..|commitments|] == commitments;
  }

  /** The disk's future after one update. */
  lemma UpdateFaithful(
    start: Image, root: Path, operations: seq<Operation>, commitments: seq<Commitment>, k: nat,
    base: Image, plan: Plan, target: Image)
    requires k < |operations| && InOrder(commitments, k)
    requires Faithful(Sighting(|commitments|, base.tree, base.config), start, root, operations, commitments)
    requires root != [] && FreshId(base.tree, root, operations[k].transactionId) && PreparedHidden(operations[k], root)
    requires plan == PlanFor(base.tree, root, operations[k].transactionId, operations[k].requests)
    requires Isolated(plan) && Installs(base.tree, target.tree, plan)
    requires target.config == ConfigAfter(operations[k], base.config)
    ensures var more := commitments + [Commitment(k, base.tree)];
      && InOrder(more, k + 1)
      && Faithful(Sighting(|more|, target.tree, target.config), start, root, operations, more)
  {
    var c := Commitment(k, base.tree);
    var more := commitments + [c];
    assert commitments[..|commitments|] == commitments && more[..|more|] == more;
    OneMore(start, root, operations, commitments, c);
    PlanHidden(base.tree, root, operations[k]);
    var view := ViewAfter(ViewOf(start.tree, root), root, operations, commitments);
    InstalledShows(view, base.tree, target.tree, plan, root, AskedFor(operations));
    assert ChangesOf(base.tree, plan.entries) == ChangesBy(operations, c);
    PlanAskedFor(base.tree, root, operations, k);
    ShowsMore(ViewAfter(ViewOf(start.tree, root), root, operations, more), target.tree, root,
              AskedFor(operations) + Destinations(plan), AskedFor(operations));
  }

  /** What is known of the disk between two processes, however the last one ended. */
  ghost predicate Tracked(
    start: Image, root: Path, operations: seq<Operation>, commitments: seq<Commitment>,
    target: Image, plan: Plan, journal: Option<Journal>, t: Tree, config: Option<Bytes>)
    requires InOrder(commitments, |operations|)
  {
    && LeadsTo(target, plan, journal, t, config)
    && Hidden(plan, root) && Destinations(plan) <= AskedFor(operations)
    && Faithful(Sighting(|commitments|, target.tree, target.config), start, root, operations, commitments)
  }

  /** The first n commitments are those of the operations before k. */
  ghost predicate CommittedBefore(commitments: seq<Commitment>, k: nat, n: nat) {
    && n <= |commitments|
    && (forall i :: 0 <= i < n ==> commitments[i].operation < k)
    && (forall i :: n <= i < |commitments| ==> commitments[i].operation >= k)
  }

  /** What the operation that got the lock as number k saw. */
  ghost predicate Saw(
    s: Sighting, k: nat, start: Image, root: Path, operations: seq<Operation>, commitments: seq<Commitment>)
    requires InOrder(commitments, |operations|)
  {
    Faithful(s, start, root, operations, commitments) && CommittedBefore(commitments, k, s.committed)
  }

  /** The operations that got the lock saw the commitments before them, and only they committed. */
  ghost predicate SightingsRight(
    sightings: seq<Option<Sighting>>, heldElsewhere: seq<bool>, start: Image, root: Path, operations: seq<Operation>,
    commitments: seq<Commitment>)
    requires InOrder(commitments, |operations|)
  {
    && AllSaw(sightings, start, root, operations, commitments)
    && OnlySightedCommit(sightings, heldElsewhere, commitments)
  }

  ghost predicate AllSaw(
    sightings: seq<Option<Sighting>>, start: Image, root: Path, operations: seq<Operation>, commitments: seq<Commitment>)
    requires InOrder(commitments, |operations|)
  {
    forall k :: 0 <= k < |sightings| && sightings[k].Some? ==>
      Saw(sightings[k].value, k, start, root, operations, commitments)
  }

  ghost predicate OnlySightedCommit(
    sightings: seq<Option<Sighting>>, heldElsewhere: seq<bool>, commitments: seq<Commitment>)
  {
    && |sightings| <= |heldElsewhere| && InOrder(commitments, |sightings|)
    && (forall k :: 0 <= k < |sightings| && sightings[k].Some? ==> !heldElsewhere[k])
    && (forall c :: 0 <= c < |commitments| ==> sightings[commitments[c].operation].Some?)
  }

  /** The lock was refused only where it was held. */
  predicate RefusedOnlyWhenHeld(sightings: seq<Option<Sighting>>, heldElsewhere: seq<bool>) {
    && |sightings| <= |heldElsewhere|
    && forall k :: 0 <= k < |sightings| ==> (sightings[k].Some? <==> !heldElsewhere[k])
  }

  lemma StillSaw(
    s: Sighting, k: nat, start: Image, root: Path, operations: seq<Operation>, commitments: seq<Commitment>,
    more: seq<Commitment>)
    requires InOrder(commitments, |operations|) && InOrder(more, |operations|) && commitments <= more
    requires forall c :: |commitments| <= c < |more| ==> more[c].operation >= k
    requires Saw(s, k, start, root, operations, commitments)
    ensures Saw(s, k, start, root, operations, more)
  {
    MoreCommitments(s, start, root, operations, commitments, more);
  }

  /** More commitments, of later operations, take nothing from what was seen. */
  lemma AllStillSaw(
    sightings: seq<Option<Sighting>>, start: Image, root: Path, operations: seq<Operation>,
    commitments: seq<Commitment>, more: seq<Commitment>)
    requires InOrder(commitments, |operations|) && InOrder(more, |operations|) && commitments <= more
    requires forall c :: |commitments| <= c < |more| ==> more[c].operation >= |sightings|
    requires AllSaw(sightings, start, root, operations, commitments)
    ensures AllSaw(sightings, start, root, operations, more)
  {
    forall n | 0 <= n < |sightings| && sightings[n].Some?
      ensures Saw(sightings[n].value, n, start, root, operations, more)
    {
      StillSaw(sightings[n].value, n, start, root, operations, commitments, more);
    }
  }

  lemma OneMoreSaw(
    sightings: seq<Option<Sighting>>, sighting: Option<Sighting>, start: Image, root: Path, operations: seq<Operation>,
    commitments: seq<Commitment>)
    requires InOrder(commitments, |operations|) && AllSaw(sightings, start, root, operations, commitments)
    requires sighting.Some? ==> Saw(sighting.value, |sightings|, start, root, operations, commitments)
    ensures AllSaw(sightings + [sighting], start, root, operations, commitments)
  {
  }

  lemma OneMoreCommits(
    sightings: seq<Option<Sighting>>, heldElsewhere: seq<bool>, commitments: seq<Commitment>,
    sighting: Option<Sighting>, more: seq<Commitment>)
    requires OnlySightedCommit(sightings, heldElsewhere, commitments)
    requires |sightings| < |heldElsewhere| && InOrder(more, |sightings| + 1)
    requires commitments <= more && |more| <= |commitments| + 1 && (sighting.None? ==> more == commitments)
    requires |more| > |commitments| ==> more[|commitments|].operation == |sightings|
    requires sighting.Some? ==> !heldElsewhere[|sightings|]
    ensures OnlySightedCommit(sightings + [sighting], heldElsewhere, more)
  {
  }

  lemma OneMoreRefusal(sightings: seq<Option<Sighting>>, heldElsewhere: seq<bool>, sighting: Option<Sighting>)
    requires |sightings| < |heldElsewhere| && RefusedOnlyWhenHeld(sightings, heldElsewhere)
    requires sighting.Some? <==> !heldElsewhere[|sightings|]
    ensures RefusedOnlyWhenHeld(sightings + [sighting], heldElsewhere)
  {
  }

  /** No operation asks for more entries than a recovery accepts. */
  predicate AllRecoverable(operations: seq<Operation>) {
    forall k :: 0 <= k < |operations| ==> |operations[k].requests| <= MAXIMUM_ENTRIES
  }

  /** Any number of processes run one after the other on one installation. Each
      finds the lock held or takes it, recovers, and updates; any of them can fail
      or be killed at any step. */
  method RunOperations(disk: Disk, root: Path, operations: seq<Operation>, heldElsewhere: seq<bool>)
    returns (ghost commitments: seq<Commitment>, ghost sightings: seq<Option<Sighting>>, ghost target: Image, ghost plan: Plan)
    requires WellFormed(disk.tree) && disk.journal == None && IsRoot(root) && |heldElsewhere| == |operations|
    requires forall k :: 0 <= k < |operations| ==> PreparedHidden(operations[k], root)
    modifies disk`tree, disk`journal, disk`config, disk`configDirectory, disk`faults
    ensures disk.faults >= old(disk.faults)
    ensures InOrder(commitments, |operations|) && |sightings| == |operations|
    ensures SightingsRight(sightings, heldElsewhere, old(Image(disk.tree, disk.config)), root, operations, commitments)
    // With valid numbers of entries and an undisturbed disk, the lock is never stuck.
    ensures disk.faults == old(disk.faults) && AllRecoverable(operations) ==> RefusedOnlyWhenHeld(sightings, heldElsewhere)
    // And whatever the run left behind, the next recovery ends with exactly these commitments.
    ensures Tracked(old(Image(disk.tree, disk.config)), root, operations, commitments, target, plan,
                    disk.journal, disk.tree, disk.config)
  {
    ghost var start := Image(disk.tree, disk.config);
    commitments, sightings, target, plan := [], [], start, IdlePlan(root);
    SettledIsItself(disk.tree, plan);
    IdlePlanHidden(root);
    for k := 0 to |operations|
      invariant InOrder(commitments, |operations|) && |sightings| == k && disk.faults >= old(disk.faults)
      invariant SightingsRight(sightings, heldElsewhere, start, root, operations, commitments)
      invariant disk.faults == old(disk.faults) && AllRecoverable(operations) ==>
        disk.journal == None && RefusedOnlyWhenHeld(sightings, heldElsewhere)
      invariant Tracked(start, root, operations, commitments, target, plan, disk.journal, disk.tree, disk.config)
    {
      ghost var sighting, more;
      sighting, more, target, plan :=
        RunOperation(disk, root, operations, k, heldElsewhere[k], start, commitments, target, plan);
      AllStillSaw(sightings, start, root, operations, commitments, more);
      OneMoreSaw(sightings, sighting, start, root, operations, more);
      OneMoreCommits(sightings, heldElsewhere, commitments, sighting, more);
      if disk.faults == old(disk.faults) && AllRecoverable(operations) {
        OneMoreRefusal(sightings, heldElsewhere, sighting);
      }
      commitments, sightings := more, sightings + [sighting];
    }
  }

  /** One process: it takes the lock unless it is held, and updates. */
  method RunOperation(
    disk: Disk, root: Path, operations: seq<Operation>, k: nat, heldElsewhere: bool,
    ghost start: Image, ghost commitments: seq<Commitment>, ghost before: Image, ghost planned: Plan)
    returns (ghost sighting: Option<Sighting>, ghost more: seq<Commitment>, ghost target: Image, ghost plan: Plan)
    requires IsRoot(root) && k < |operations| && PreparedHidden(operations[k], root) && InOrder(commitments, k)
    requires Tracked(start, root, operations, commitments, before, planned, disk.journal, disk.tree, disk.config)
    modifies disk`tree, disk`journal, disk`config, disk`configDirectory, disk`faults
    ensures disk.faults >= old(disk.faults)
    ensures InOrder(more, k + 1)
    ensures if sighting.None? then more == commitments else |more| <= |commitments| + 1 && commitments <= more
    ensures |more| > |commitments| ==> more[|commitments|].operation == k
    ensures sighting.Some? ==>
      !heldElsewhere && Saw(sighting.value, k, start, root, operations, more)
    ensures disk.faults == old(disk.faults) && old(disk.journal).None? ==> (sighting.Some? <==> !heldElsewhere)
    ensures disk.faults == old(disk.faults) && old(disk.journal).None? && |operations[k].requests| <= MAXIMUM_ENTRIES ==> disk.journal == None
    ensures Tracked(start, root, operations, more, target, plan, disk.journal, disk.tree, disk.config)
  {
    more, target, plan, sighting := commitments, before, planned, None;
    ghost var recovered;
    var o;
    o, recovered := Acquire(disk, root, heldElsewhere, target, plan);
    if disk.journal.None? {
      SettledFaithful(start, root, operations, commitments, target, plan, recovered);
      SameViewFaithful(start, root, operations, commitments, recovered, disk.tree, disk.config);
      target, plan := Image(disk.tree, disk.config), IdlePlan(root);
      SettledIsItself(disk.tree, plan);
      IdlePlanHidden(root);
    }
    if o == Done {
      sighting := Some(Sighting(|commitments|, disk.tree, disk.config));
      more, target, plan := RunUpdate(disk, root, operations, k, start, commitments);
      MoreCommitments(sighting.value, start, root, operations, commitments, more);
    }
  }

  lemma SameViewFaithful(
    start: Image, root: Path, operations: seq<Operation>, commitments: seq<Commitment>, t: Tree, u: Tree,
    config: Option<Bytes>)
    requires InOrder(commitments, |operations|)
    requires Faithful(Sighting(|commitments|, t, config), start, root, operations, commitments)
    requires forall q :: Visible(root, q) ==> SameNode(t, u, q)
    ensures Faithful(Sighting(|commitments|, u, config), start, root, operations, commitments)
  {
  }

  method RunUpdate(
    disk: Disk, root: Path, operations: seq<Operation>, k: nat, ghost start: Image, ghost commitments: seq<Commitment>)
    returns (ghost more: seq<Commitment>, ghost target: Image, ghost plan: Plan)
    requires WellFormed(disk.tree) && disk.journal == None && IsRoot(root)
    requires k < |operations| && PreparedHidden(operations[k], root) && InOrder(commitments, k)
    requires Faithful(Sighting(|commitments|, disk.tree, disk.config), start, root, operations, commitments)
    modifies disk`tree, disk`journal, disk`config, disk`configDirectory, disk`faults
    ensures disk.faults >= old(disk.faults)
    ensures InOrder(more, k + 1) && commitments <= more && |more| <= |commitments| + 1
    ensures |more| > |commitments| ==> more[|commitments|].operation == k
    ensures disk.faults == old(disk.faults) && |operations[k].requests| <= MAXIMUM_ENTRIES ==> disk.journal == None
    ensures Tracked(start, root, operations, more, target, plan, disk.journal, disk.tree, disk.config)
  {
    Stage(disk, root);
    more, target, plan := commitments, Image(disk.tree, disk.config), IdlePlan(root);
    SettledIsItself(disk.tree, plan);
    IdlePlanHidden(root);
    if FreshId(disk.tree, root, operations[k].transactionId) {
      ghost var base := target;
      ghost var committed;
      var o;
      PlanHidden(disk.tree, root, operations[k]);
      PlanAskedFor(disk.tree, root, operations, k);
      o, plan, target, committed := Update(disk, root, operations[k]);
      if committed {
        UpdateFaithful(start, root, operations, commitments, k, base, plan, target);
        more := commitments + [Commitment(k, base.tree)];
      }
    }
  }

  lemma SettledFaithful(
    start: Image, root: Path, operations: seq<Operation>, commitments: seq<Commitment>,
    target: Image, plan: Plan, t: Tree)
    requires InOrder(commitments, |operations|)
    requires Faithful(Sighting(|commitments|, target.tree, target.config), start, root, operations, commitments)
    requires Settled(target.tree, t, plan) && Hidden(plan, root) && Destinations(plan) <= AskedFor(operations)
    ensures Faithful(Sighting(|commitments|, t, target.config), start, root, operations, commitments)
  {
    var view := ViewAfter(ViewOf(start.tree, root), root, operations, commitments[..|commitments|]);
    SettledShows(view, target.tree, t, plan, root, AskedFor(operations));
    assert AskedFor(operations) + Destinations(plan) == AskedFor(operations);
  }

  lemma PlanAskedFor(t: Tree, root: Path, operations: seq<Operation>, k: nat)
    requires root != [] && k < |operations|
    ensures Destinations(PlanFor(t, root, operations[k].transactionId, operations[k].requests)) <= AskedFor(operations)
  {
    var plan := PlanFor(t, root, operations[k].transactionId, operations[k].requests);
    forall d | d in Destinations(plan) ensures d in AskedFor(operations) {
      var i :| 0 <= i < |plan.entries| && d == plan.entries[i].destination;
      assert d == operations[k].requests[i].destination;
    }
  }
}
