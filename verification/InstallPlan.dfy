/** What a transaction's paths have to satisfy, what its journal means for the
    installation, and why handling one entry leaves the others alone. */
module InstallPlan {
  import opened FileTree
  import opened InstallDisk
  import opened Wrappers

  /** The paths a journal names. */
  datatype Plan = Plan(root: Path, workRoot: Path, entries: seq<Entry>)

  /** What a transaction may change, besides its own working files. */
  datatype Image = Image(tree: Tree, config: Option<Bytes>)

  function PlanOf(j: Journal): Plan {
    Plan(j.installRoot, j.workRoot, j.entries)
  }

  ghost predicate EntryIsolated(plan: Plan, e: Entry) {
    && Contains(plan.root, e.destination)
    && !Overlap(e.prepared, e.destination)
    && !Overlap(plan.workRoot, e.destination)
    && !Overlap(plan.workRoot, e.prepared)
    && Above(plan.workRoot, e.backup)
  }

  ghost predicate EntriesApart(e: Entry, f: Entry) {
    && !Overlap(e.destination, f.destination)
    && !Overlap(e.prepared, f.prepared)
    && !Overlap(e.backup, f.backup)
    && !Overlap(e.prepared, f.destination)
    && !Overlap(e.destination, f.prepared)
  }

  /** No two of the paths a transaction moves or deletes contain one another. */
  ghost predicate Isolated(plan: Plan) {
    && plan.root != [] && plan.workRoot != []
    && Parent(plan.workRoot) == Parent(plan.root)
    && plan.entries != []
    && (forall i :: 0 <= i < |plan.entries| ==> EntryIsolated(plan, plan.entries[i]))
    && (forall i, j :: 0 <= i < |plan.entries| && 0 <= j < |plan.entries| && i != j
          ==> EntriesApart(plan.entries[i], plan.entries[j]))
  }

  /** The entry's paths and the node kinds the tree had for them in base. */
  ghost predicate EntryOpened(base: Tree, e: Entry) {
    && Exists(base, e.prepared, e.kind)
    && !ExistsAsOtherKind(base, e.destination, e.kind)
    && (e.originalExisted <==> Exists(base, e.destination, e.kind))
    && At(base, e.backup) == Nothing
  }

  ghost predicate Opened(base: Tree, plan: Plan) {
    && WellFormed(base)
    && forall i :: 0 <= i < |plan.entries| ==> EntryOpened(base, plan.entries[i])
  }

  /** Outside every path of the plan. */
  ghost predicate Beyond(plan: Plan, q: Path) {
    && !Contains(plan.workRoot, q)
    && forall i :: 0 <= i < |plan.entries|
         ==> !Contains(plan.entries[i].destination, q) && !Contains(plan.entries[i].prepared, q)
  }

  ghost predicate OnTheWay(plan: Plan, q: Path) {
    exists i :: 0 <= i < |plan.entries| && Above(q, plan.entries[i].destination)
  }

  /** Beyond the plan nothing is lost or altered, and nothing is new but
      directories that hold a destination. */
  ghost predicate Kept(base: Tree, t: Tree, plan: Plan) {
    forall q :: Beyond(plan, q) ==>
      && (q in base ==> q in t && t[q] == base[q])
      && (q in t && q !in base ==> t[q] == Dir && OnTheWay(plan, q))
  }

  ghost predicate KindHolds(t: Tree, e: Entry) {
    && !ExistsAsOtherKind(t, e.prepared, e.kind)
    && !ExistsAsOtherKind(t, e.destination, e.kind)
    && !ExistsAsOtherKind(t, e.backup, e.kind)
  }

  /** The original is either still at the destination or complete in the backup;
      without an original, what is published can be told from what is prepared. */
  ghost predicate Undoable(base: Tree, t: Tree, e: Entry) {
    && KindHolds(t, e)
    && if e.originalExisted then
         || At(t, e.backup) == At(base, e.destination)
         || (At(t, e.backup) == Nothing && At(t, e.destination) == At(base, e.destination))
       else
         && At(t, e.backup) == Nothing
         && (At(t, e.destination) == Nothing || At(t, e.prepared) == Nothing)
  }

  /** No file stands where the work root is made. */
  predicate NoFileAtWorkRoot(t: Tree, plan: Plan) {
    plan.workRoot in t ==> t[plan.workRoot].Dir?
  }

  ghost predicate Undoing(base: Tree, t: Tree, plan: Plan) {
    && WellFormed(t) && Kept(base, t, plan) && NoFileAtWorkRoot(t, plan)
    && forall i :: 0 <= i < |plan.entries| ==> Undoable(base, t, plan.entries[i])
  }

  ghost predicate Restored(base: Tree, t: Tree, e: Entry) {
    At(t, e.destination) == At(base, e.destination)
  }

  /** Every destination holds exactly what it holds in base. */
  ghost predicate Settled(base: Tree, t: Tree, plan: Plan) {
    && WellFormed(t) && Kept(base, t, plan)
    && forall i :: 0 <= i < |plan.entries| ==> Restored(base, t, plan.entries[i])
  }

  /** The configuration that undoing the journal produces. */
  function UndoneConfig(j: Journal, config: Option<Bytes>): Option<Bytes> {
    if !j.configPlanned then config
    else if j.configExisted then Some(j.configContents)
    else None
  }

  /** The image a journalled disk is to end in: the target is the image from
      before the transaction as long as the journal is not Committed. */
  ghost predicate JournalLeadsTo(target: Image, plan: Plan, j: Journal, t: Tree, config: Option<Bytes>) {
    && PlanOf(j) == plan && Isolated(plan)
    && if j.state.Prepared? || j.state.Published? then
         && Opened(target.tree, plan) && Undoing(target.tree, t, plan)
         && UndoneConfig(j, config) == target.config
       else
         Settled(target.tree, t, plan) && NoFileAtWorkRoot(t, plan) && config == target.config
  }

  ghost predicate LeadsTo(target: Image, plan: Plan, journal: Option<Journal>, t: Tree, config: Option<Bytes>) {
    match journal
    case None => Settled(target.tree, t, plan) && config == target.config
    case Some(j) => JournalLeadsTo(target, plan, j, t, config)
  }

  /** The entry's three paths. */
  function PathsOf(e: Entry): set<Path> {
    {e.prepared, e.destination, e.backup}
  }

  /** t changed into u only below the paths of one entry, apart from new
      directories on the way to goal. */
  ghost predicate Touched(t: Tree, u: Tree, inside: set<Path>, goal: Path) {
    forall q :: (forall p :: p in inside ==> !Contains(p, q)) ==>
      && (q in t ==> q in u && u[q] == t[q])
      && (q in u && q !in t ==> u[q] == Dir && Contains(q, goal))
  }

  lemma TouchedElsewhere(t: Tree, u: Tree, inside: set<Path>, goal: Path, x: Path)
    requires Touched(t, u, inside, goal)
    requires forall p :: p in inside ==> !Overlap(x, p)
    requires !Overlap(x, goal)
    ensures At(u, x) == At(t, x)
    ensures SameNode(t, u, x)
  {
    forall q | Contains(x, q)
      ensures SameNode(t, u, q)
    {
      forall p | p in inside ensures !Contains(p, q) {
        DisjointBelow(x, p, q);
      }
      assert Contains(q, goal) ==> Contains(x, goal);
    }
    SameSubtree(t, u, x);
    assert Contains(x, x);
  }

  lemma PathsApart(plan: Plan, i: nat, j: nat, x: Path, y: Path)
    requires Isolated(plan) && i < |plan.entries| && j < |plan.entries| && i != j
    requires x in PathsOf(plan.entries[i]) && y in PathsOf(plan.entries[j])
    ensures !Overlap(x, y)
  {
    var e, f := plan.entries[i], plan.entries[j];
    assert EntryIsolated(plan, e) && EntryIsolated(plan, f) && EntriesApart(e, f);
    BackupApart(plan.workRoot, e.backup, f.destination);
    BackupApart(plan.workRoot, e.backup, f.prepared);
    BackupApart(plan.workRoot, f.backup, e.destination);
    BackupApart(plan.workRoot, f.backup, e.prepared);
  }

  lemma BackupApart(workRoot: Path, backup: Path, x: Path)
    requires Contains(workRoot, backup) && !Overlap(workRoot, x)
    ensures !Overlap(backup, x)
  {
  }

  lemma OwnPathsApart(plan: Plan, i: nat)
    requires Isolated(plan) && i < |plan.entries|
    ensures var e := plan.entries[i];
      !Overlap(e.prepared, e.destination) && !Overlap(e.backup, e.destination) && !Overlap(e.backup, e.prepared)
  {
    var e := plan.entries[i];
    assert EntryIsolated(plan, e);
    BackupApart(plan.workRoot, e.backup, e.destination);
    BackupApart(plan.workRoot, e.backup, e.prepared);
  }

  /** Handling entry i leaves every path of entry j as it is. */
  lemma OtherEntryUntouched(plan: Plan, t: Tree, u: Tree, i: nat, goal: Path, j: nat)
    requires Isolated(plan) && i < |plan.entries| && j < |plan.entries| && i != j
    requires goal in PathsOf(plan.entries[i])
    requires Touched(t, u, PathsOf(plan.entries[i]), goal)
    ensures forall x :: x in PathsOf(plan.entries[j]) ==> At(u, x) == At(t, x) && SameNode(t, u, x)
  {
    forall x | x in PathsOf(plan.entries[j])
      ensures At(u, x) == At(t, x) && SameNode(t, u, x)
    {
      forall p | p in PathsOf(plan.entries[i]) ensures !Overlap(x, p) {
        PathsApart(plan, i, j, p, x);
      }
      TouchedElsewhere(t, u, PathsOf(plan.entries[i]), goal, x);
    }
  }

  /** Handling entry i changes nothing outside the plan. */
  lemma BeyondUntouched(plan: Plan, base: Tree, t: Tree, u: Tree, i: nat, goal: Path)
    requires Isolated(plan) && i < |plan.entries|
    requires goal == plan.entries[i].destination || goal == plan.entries[i].backup
    requires Touched(t, u, PathsOf(plan.entries[i]), goal)
    requires Kept(base, t, plan)
    ensures Kept(base, u, plan)
  {
    var e := plan.entries[i];
    assert EntryIsolated(plan, e);
    forall q | Beyond(plan, q)
      ensures q in base ==> q in u && u[q] == base[q]
      ensures q in u && q !in base ==> u[q] == Dir && OnTheWay(plan, q)
    {
      forall p | p in PathsOf(e) ensures !Contains(p, q) {
        if p == e.backup && Contains(p, q) {
          assert Contains(plan.workRoot, q);
        }
      }
      if q in u && q !in t {
        if goal == e.backup {
          AboveWorkRoot(plan, i, q);
        }
        assert Above(q, e.destination);
      }
    }
  }

  /** What holds a backup but is outside the work root also holds the destinations. */
  lemma AboveWorkRoot(plan: Plan, i: nat, q: Path)
    requires Isolated(plan) && i < |plan.entries|
    requires Contains(q, plan.entries[i].backup) && !Contains(plan.workRoot, q)
    ensures Above(q, plan.entries[i].destination)
  {
    var e := plan.entries[i];
    assert EntryIsolated(plan, e);
    assert |q| < |plan.workRoot|;
    assert q == plan.workRoot[..|q|] == Parent(plan.workRoot)[..|q|] == plan.root[..|q|];
  }

  lemma UndoableUntouched(base: Tree, t: Tree, u: Tree, e: Entry)
    requires forall x :: x in PathsOf(e) ==> At(u, x) == At(t, x) && SameNode(t, u, x)
    requires Undoable(base, t, e)
    ensures Undoable(base, u, e)
  {
    assert e.prepared in PathsOf(e) && e.destination in PathsOf(e) && e.backup in PathsOf(e);
  }

  lemma SameRoot(t: Tree, p: Path, u: Tree, q: Path)
    requires At(t, p) == At(u, q)
    ensures p in t <==> q in u
    ensures p in t ==> t[p] == u[q]
  {
    assert p + [] == p && q + [] == q;
    assert [] in At(t, p) <==> [] in At(u, q);
  }

  lemma WorkRootStaysDirectory(plan: Plan, t: Tree, u: Tree, i: nat, goal: Path)
    requires Isolated(plan) && i < |plan.entries| && NoFileAtWorkRoot(t, plan)
    requires Touched(t, u, PathsOf(plan.entries[i]), goal)
    ensures NoFileAtWorkRoot(u, plan)
  {
    assert EntryIsolated(plan, plan.entries[i]);
    assert forall p :: p in PathsOf(plan.entries[i]) ==> !Contains(p, plan.workRoot);
  }

  /** A step that only touches entry i and leaves it undoable keeps the whole
      transaction undoable and every other entry as restored as it was. */
  lemma EntryHandled(base: Tree, plan: Plan, t: Tree, u: Tree, i: nat, goal: Path)
    requires Isolated(plan) && i < |plan.entries| && Undoing(base, t, plan)
    requires goal == plan.entries[i].destination || goal == plan.entries[i].backup
    requires Touched(t, u, PathsOf(plan.entries[i]), goal)
    requires WellFormed(u) && Undoable(base, u, plan.entries[i])
    ensures Undoing(base, u, plan)
    ensures forall j :: (0 <= j < |plan.entries| && j != i) ==>
      (Restored(base, t, plan.entries[j]) ==> Restored(base, u, plan.entries[j]))
  {
    BeyondUntouched(plan, base, t, u, i, goal);
    WorkRootStaysDirectory(plan, t, u, i, goal);
    forall j | 0 <= j < |plan.entries| && j != i
      ensures Undoable(base, u, plan.entries[j])
      ensures Restored(base, t, plan.entries[j]) ==> Restored(base, u, plan.entries[j])
    {
      OtherEntryUntouched(plan, t, u, i, goal, j);
      UndoableUntouched(base, t, u, plan.entries[j]);
      assert plan.entries[j].destination in PathsOf(plan.entries[j]);
    }
  }

  /** Losing any part of what an entry published leaves it undoable, provided the
      original is in the backup, or there was none and the prepared path is gone. */
  lemma DestinationLost(base: Tree, plan: Plan, t: Tree, u: Tree, i: nat)
    requires Isolated(plan) && i < |plan.entries| && Undoing(base, t, plan)
    requires PartlyDeleted(t, plan.entries[i].destination, u)
    requires var e := plan.entries[i];
      if e.originalExisted then At(t, e.backup) == At(base, e.destination) else At(t, e.prepared) == Nothing
    ensures Undoing(base, u, plan)
    ensures forall j :: (0 <= j < |plan.entries| && j != i) ==>
      (Restored(base, t, plan.entries[j]) ==> Restored(base, u, plan.entries[j]))
    ensures At(u, plan.entries[i].backup) == At(t, plan.entries[i].backup)
    ensures SameNode(t, u, plan.entries[i].backup)
  {
    var e := plan.entries[i];
    OwnPathsApart(plan, i);
    assert Undoable(base, t, e);
    assert Touched(t, u, {e.destination}, e.destination);
    TouchedElsewhere(t, u, {e.destination}, e.destination, e.backup);
    TouchedElsewhere(t, u, {e.destination}, e.destination, e.prepared);
    assert Undoable(base, u, e);
    assert Touched(t, u, PathsOf(e), e.destination);
    EntryHandled(base, plan, t, u, i, e.destination);
  }

  lemma Presence(t: Tree, p: Path, kind: Kind)
    requires WellFormed(t) && !ExistsAsOtherKind(t, p, kind)
    ensures Exists(t, p, kind) <==> p in t
    ensures Exists(t, p, kind) <==> At(t, p) != Nothing
  {
    AbsentSubtree(t, p);
  }

  /** What the disk shows of an entry while the transaction can be undone. */
  lemma EntryPresence(base: Tree, plan: Plan, t: Tree, i: nat)
    requires Isolated(plan) && i < |plan.entries| && Opened(base, plan) && Undoing(base, t, plan)
    ensures var e := plan.entries[i];
      && (Exists(t, e.backup, e.kind) <==> At(t, e.backup) != Nothing)
      && (Exists(t, e.prepared, e.kind) <==> At(t, e.prepared) != Nothing)
      && (Exists(t, e.destination, e.kind) <==> At(t, e.destination) != Nothing)
      && (e.originalExisted <==> At(base, e.destination) != Nothing)
  {
    var e := plan.entries[i];
    assert EntryOpened(base, e) && Undoable(base, t, e);
    Presence(t, e.backup, e.kind);
    Presence(t, e.prepared, e.kind);
    Presence(t, e.destination, e.kind);
    Presence(base, e.destination, e.kind);
  }

  /** No file stands where a directory above a destination is needed. */
  ghost predicate Unobstructed(t: Tree, plan: Plan) {
    forall i, q :: 0 <= i < |plan.entries| && q in t && Above(q, plan.entries[i].destination) ==> t[q].Dir?
  }

  /** What stands above a destination is beyond the plan, so it stays. */
  lemma AboveDestination(plan: Plan, i: nat, q: Path)
    requires Isolated(plan) && i < |plan.entries| && Above(q, plan.entries[i].destination)
    ensures Beyond(plan, q)
  {
    var e := plan.entries[i];
    assert EntryIsolated(plan, e);
    forall j | 0 <= j < |plan.entries|
      ensures !Contains(plan.entries[j].destination, q) && !Contains(plan.entries[j].prepared, q)
    {
      assert EntryIsolated(plan, plan.entries[j]);
      if j != i {
        assert EntriesApart(e, plan.entries[j]);
      }
    }
  }

  /** Where base had only directories above a destination, there still are only directories. */
  lemma WayKept(base: Tree, plan: Plan, t: Tree, i: nat)
    requires Isolated(plan) && i < |plan.entries| && Kept(base, t, plan)
    requires forall q :: q in base && Above(q, plan.entries[i].destination) ==> base[q].Dir?
    ensures forall q :: q in t && Above(q, plan.entries[i].destination) ==> t[q].Dir?
  {
    forall q | q in t && Above(q, plan.entries[i].destination)
      ensures t[q].Dir?
    {
      AboveDestination(plan, i, q);
    }
  }

  /** The directories that held an original are still there. */
  lemma HoldersKept(base: Tree, plan: Plan, t: Tree, i: nat)
    requires Isolated(plan) && i < |plan.entries| && Opened(base, plan) && Kept(base, t, plan)
    requires plan.entries[i].originalExisted
    ensures forall q :: q in t && Above(q, plan.entries[i].destination) ==> t[q].Dir?
  {
    var e := plan.entries[i];
    assert EntryOpened(base, e);
    forall q | q in base && Above(q, e.destination)
      ensures base[q].Dir?
    {
      HolderIn(base, e.destination, |e.destination| - |q|, q);
    }
    WayKept(base, plan, t, i);
  }

  /** The directory of every backup is there. */
  ghost predicate BackupsReady(t: Tree, plan: Plan) {
    forall i :: 0 <= i < |plan.entries| ==>
      var backup := plan.entries[i].backup;
      backup != [] && Parent(backup) in t && t[Parent(backup)].Dir?
  }

  lemma RoomKept(plan: Plan, t: Tree, u: Tree, i: nat, goal: Path)
    requires Isolated(plan) && i < |plan.entries| && BackupsReady(t, plan)
    requires goal in PathsOf(plan.entries[i]) && Touched(t, u, PathsOf(plan.entries[i]), goal)
    ensures BackupsReady(u, plan)
  {
    var e := plan.entries[i];
    forall j | 0 <= j < |plan.entries|
      ensures Parent(plan.entries[j].backup) in u && u[Parent(plan.entries[j].backup)].Dir?
    {
      var room := Parent(plan.entries[j].backup);
      assert EntryIsolated(plan, e) && EntryIsolated(plan, plan.entries[j]);
      assert Contains(plan.workRoot, room);
      if j != i {
        assert EntriesApart(plan.entries[j], e);
      }
      assert Contains(room, plan.entries[j].backup);
      assert !Contains(e.backup, room);
      assert forall p :: p in PathsOf(e) ==> !Contains(p, room);
    }
  }

  lemma ReadyBackup(t: Tree, plan: Plan, i: nat)
    requires WellFormed(t) && i < |plan.entries| && BackupsReady(t, plan)
    ensures forall q :: q in t && Above(q, plan.entries[i].backup) ==> t[q].Dir?
  {
    var backup := plan.entries[i].backup;
    forall q | q in t && Above(q, backup)
      ensures t[q].Dir?
    {
      if q != Parent(backup) {
        HolderIn(t, Parent(backup), |Parent(backup)| - |q|, q);
      }
    }
  }

  lemma {:induction false} HolderIn(t: Tree, p: Path, up: nat, q: Path)
    requires WellFormed(t) && p in t && Above(q, p) && |q| + up == |p|
    ensures q in t && t[q].Dir?
    decreases up
  {
    if up == 1 {
      assert q == Parent(p);
    } else {
      var r := p[..|q| + 1];
      HolderIn(t, p, up - 1, r);
      assert q == Parent(r);
    }
  }

  lemma TouchedWider(t: Tree, u: Tree, inside: set<Path>, wider: set<Path>, goal: Path)
    requires Touched(t, u, inside, goal) && inside <= wider
    ensures Touched(t, u, wider, goal)
  {
  }

  /** The rename of a backup onto its destination, whether it happened or not,
      leaves the entry undoable. */
  lemma BackupMoved(base: Tree, t: Tree, u: Tree, e: Entry, moved: bool)
    requires EntryOpened(base, e) && Undoable(base, t, e) && e.originalExisted
    requires At(t, e.backup) == At(base, e.destination) && e.destination != []
    requires !Overlap(e.prepared, e.destination) && !Overlap(e.backup, e.destination) && !Overlap(e.backup, e.prepared)
    requires Touched(t, u, {e.backup, e.destination}, e.destination)
    requires
      if moved then At(u, e.destination) == At(t, e.backup) && At(u, e.backup) == Nothing
      else Touched(t, u, {}, Parent(e.destination))
    ensures Undoable(base, u, e)
  {
    TouchedElsewhere(t, u, {e.backup, e.destination}, e.destination, e.prepared);
    if moved {
      SameRoot(u, e.destination, t, e.backup);
      EmptyBelow(u, e.backup, e.backup);
    } else {
      MadeAbove(t, u, e.destination, e.backup);
      MadeAbove(t, u, e.destination, e.destination);
    }
  }

  lemma BackupRestored(base: Tree, plan: Plan, t: Tree, u: Tree, i: nat, moved: bool)
    requires Isolated(plan) && i < |plan.entries| && Opened(base, plan) && Undoing(base, t, plan)
    requires WellFormed(u)
    requires At(t, plan.entries[i].backup) == At(base, plan.entries[i].destination)
    requires plan.entries[i].originalExisted && plan.entries[i].destination != []
    requires Touched(t, u, {plan.entries[i].backup, plan.entries[i].destination}, plan.entries[i].destination)
    requires var e := plan.entries[i];
      if moved then At(u, e.destination) == At(t, e.backup) && At(u, e.backup) == Nothing
      else Touched(t, u, {}, Parent(e.destination))
    ensures Undoing(base, u, plan)
    ensures moved ==> Restored(base, u, plan.entries[i])
    ensures forall j :: (0 <= j < |plan.entries| && j != i) ==>
      (Restored(base, t, plan.entries[j]) ==> Restored(base, u, plan.entries[j]))
  {
    var e := plan.entries[i];
    OwnPathsApart(plan, i);
    BackupMoved(base, t, u, e, moved);
    TouchedWider(t, u, {e.backup, e.destination}, PathsOf(e), e.destination);
    EntryHandled(base, plan, t, u, i, e.destination);
  }

  /** Creating the directories above destination alters no subtree that is at or
      below destination or apart from it. */
  lemma MadeAbove(t: Tree, made: Tree, destination: Path, x: Path)
    requires destination != [] && Touched(t, made, {}, Parent(destination))
    requires !Overlap(x, destination) || Contains(destination, x)
    ensures At(made, x) == At(t, x) && SameNode(t, made, x)
  {
    forall q | Contains(x, q) ensures SameNode(t, made, q) {
      assert !Contains(q, Parent(destination));
    }
    SameSubtree(t, made, x);
    assert Contains(x, x);
  }

  lemma MadeTouches(t: Tree, made: Tree, source: Path, destination: Path)
    requires destination != [] && Touched(t, made, {}, Parent(destination))
    ensures Touched(t, made, {source, destination}, destination)
  {
    assert Contains(Parent(destination), destination);
  }

  /** A path moved after the directories above its destination were made. */
  lemma MovedAfterMade(t: Tree, made: Tree, source: Path, destination: Path)
    requires WellFormed(made) && destination != [] && !Overlap(source, destination) && destination !in made
    requires Touched(t, made, {}, Parent(destination))
    ensures var u := Moved(made, source, destination);
      && Touched(t, u, {source, destination}, destination)
      && At(u, destination) == At(t, source) && At(u, source) == Nothing
  {
    MadeAbove(t, made, destination, source);
    AbsentSubtree(made, destination);
    MovedSubtree(made, source, destination);
    MadeTouches(t, made, source, destination);
  }

  /** Entry i as Begin finds it. */
  ghost predicate Untouched(base: Tree, t: Tree, e: Entry) {
    && At(t, e.destination) == At(base, e.destination)
    && At(t, e.prepared) == At(base, e.prepared)
    && At(t, e.backup) == Nothing
  }

  /** The original is moved aside and the prepared path still waits. */
  ghost predicate MovedAside(base: Tree, t: Tree, e: Entry) {
    && At(t, e.destination) == Nothing
    && At(t, e.prepared) == At(base, e.prepared)
    && At(t, e.backup) == At(base, e.destination)
  }

  /** The destination holds exactly what was prepared. */
  ghost predicate Replaced(base: Tree, t: Tree, e: Entry) {
    && At(t, e.destination) == At(base, e.prepared)
    && At(t, e.prepared) == Nothing
    && At(t, e.backup) == At(base, e.destination)
  }

  /** The entries before i are replaced, the others are untouched. */
  ghost predicate PublishedUpTo(base: Tree, t: Tree, plan: Plan, i: nat) {
    && Undoing(base, t, plan)
    && (forall j :: 0 <= j < |plan.entries| && j < i ==> Replaced(base, t, plan.entries[j]))
    && (forall j :: i <= j < |plan.entries| ==> Untouched(base, t, plan.entries[j]))
  }

  ghost predicate OthersPublished(base: Tree, t: Tree, plan: Plan, i: nat) {
    && (forall j :: 0 <= j < |plan.entries| && j < i ==> Replaced(base, t, plan.entries[j]))
    && (forall j :: i < j < |plan.entries| ==> Untouched(base, t, plan.entries[j]))
  }

  lemma OthersStayPublished(base: Tree, plan: Plan, t: Tree, u: Tree, i: nat, goal: Path)
    requires Isolated(plan) && i < |plan.entries|
    requires goal in PathsOf(plan.entries[i])
    requires Touched(t, u, PathsOf(plan.entries[i]), goal)
    requires OthersPublished(base, t, plan, i)
    ensures OthersPublished(base, u, plan, i)
  {
    forall j | 0 <= j < |plan.entries| && j != i
      ensures j < i ==> Replaced(base, u, plan.entries[j])
      ensures j > i ==> Untouched(base, u, plan.entries[j])
    {
      OtherEntryUntouched(plan, t, u, i, goal, j);
      var f := plan.entries[j];
      assert f.prepared in PathsOf(f) && f.destination in PathsOf(f) && f.backup in PathsOf(f);
    }
  }

  /** The rename of an original into its backup, whether it happened or not. */
  lemma OriginalMoved(base: Tree, t: Tree, u: Tree, e: Entry, moved: bool)
    requires EntryOpened(base, e) && Undoable(base, t, e) && Untouched(base, t, e) && e.originalExisted
    requires e.backup != []
    requires !Overlap(e.prepared, e.destination) && !Overlap(e.backup, e.destination) && !Overlap(e.backup, e.prepared)
    requires Touched(t, u, {e.destination, e.backup}, e.backup)
    requires
      if moved then At(u, e.backup) == At(t, e.destination) && At(u, e.destination) == Nothing
      else Touched(t, u, {}, Parent(e.backup))
    ensures Undoable(base, u, e)
    ensures moved ==> MovedAside(base, u, e)
  {
    TouchedElsewhere(t, u, {e.destination, e.backup}, e.backup, e.prepared);
    if moved {
      SameRoot(u, e.backup, t, e.destination);
      EmptyBelow(u, e.destination, e.destination);
    } else {
      MadeAbove(t, u, e.backup, e.backup);
      MadeAbove(t, u, e.backup, e.destination);
    }
  }

  /** The rename of a prepared path to its destination, whether it happened or not. */
  lemma PreparedMoved(base: Tree, t: Tree, u: Tree, e: Entry, moved: bool)
    requires WellFormed(base) && EntryOpened(base, e) && Undoable(base, t, e)
    requires if e.originalExisted then MovedAside(base, t, e) else Untouched(base, t, e)
    requires e.destination != []
    requires !Overlap(e.prepared, e.destination) && !Overlap(e.backup, e.destination) && !Overlap(e.backup, e.prepared)
    requires Touched(t, u, {e.prepared, e.destination}, e.destination)
    requires
      if moved then At(u, e.destination) == At(t, e.prepared) && At(u, e.prepared) == Nothing
      else Touched(t, u, {}, Parent(e.destination))
    ensures Undoable(base, u, e)
    ensures moved ==> Replaced(base, u, e)
  {
    TouchedElsewhere(t, u, {e.prepared, e.destination}, e.destination, e.backup);
    Presence(base, e.destination, e.kind);
    if moved {
      SameRoot(u, e.destination, t, e.prepared);
      EmptyBelow(u, e.prepared, e.prepared);
    } else {
      MadeAbove(t, u, e.destination, e.prepared);
      MadeAbove(t, u, e.destination, e.destination);
    }
  }

  /** The rename of an original can be made: it is there, and its backup has room. */
  lemma MoveAside(base: Tree, plan: Plan, t: Tree, i: nat)
    requires Isolated(plan) && i < |plan.entries| && Opened(base, plan) && Undoing(base, t, plan)
    requires Untouched(base, t, plan.entries[i]) && plan.entries[i].originalExisted
    ensures var e := plan.entries[i]; Exists(t, e.destination, e.kind) && e.backup !in t
    ensures BackupsReady(t, plan) ==> forall q :: q in t && Above(q, plan.entries[i].backup) ==> t[q].Dir?
  {
    EntryPresence(base, plan, t, i);
    EmptyBelow(t, plan.entries[i].backup, plan.entries[i].backup);
    if BackupsReady(t, plan) {
      ReadyBackup(t, plan, i);
    }
  }

  /** The rename of a prepared path can be made once its destination is free. */
  lemma MovePrepared(base: Tree, plan: Plan, t: Tree, i: nat)
    requires Isolated(plan) && i < |plan.entries| && Opened(base, plan) && Undoing(base, t, plan)
    requires
      if plan.entries[i].originalExisted then MovedAside(base, t, plan.entries[i])
      else Untouched(base, t, plan.entries[i])
    ensures var e := plan.entries[i]; Exists(t, e.prepared, e.kind) && e.destination !in t
    ensures Unobstructed(base, plan) ==> forall q :: q in t && Above(q, plan.entries[i].destination) ==> t[q].Dir?
  {
    var e := plan.entries[i];
    EntryPresence(base, plan, t, i);
    assert EntryOpened(base, e);
    Presence(base, e.prepared, e.kind);
    EmptyBelow(t, e.destination, e.destination);
    if Unobstructed(base, plan) {
      WayKept(base, plan, t, i);
    }
  }

  /** Cleaning the work root does not touch what the plan published or restored. */
  lemma WorkRootLost(base: Tree, plan: Plan, t: Tree, u: Tree)
    requires Isolated(plan) && Settled(base, t, plan)
    requires PartlyDeleted(t, plan.workRoot, u)
    ensures Settled(base, u, plan)
    ensures forall i :: 0 <= i < |plan.entries| ==>
      At(u, plan.entries[i].destination) == At(t, plan.entries[i].destination)
  {
    assert Touched(t, u, {plan.workRoot}, plan.workRoot);
    forall i | 0 <= i < |plan.entries|
      ensures At(u, plan.entries[i].destination) == At(t, plan.entries[i].destination)
      ensures Restored(base, u, plan.entries[i])
    {
      assert EntryIsolated(plan, plan.entries[i]) && Restored(base, t, plan.entries[i]);
      TouchedElsewhere(t, u, {plan.workRoot}, plan.workRoot, plan.entries[i].destination);
    }
  }

  /** A deleted work root leaves no node of it, and no backup, behind. */
  lemma WorkRootGone(t: Tree, plan: Plan)
    requires WellFormed(t) && NoFileAtWorkRoot(t, plan)
    ensures var u := if Exists(t, plan.workRoot, Directory) then Cut(t, plan.workRoot) else t;
      At(u, plan.workRoot) == Nothing
  {
    if Exists(t, plan.workRoot, Directory) {
      CutWellFormed(t, plan.workRoot);
    } else {
      AbsentSubtree(t, plan.workRoot);
    }
  }

  lemma SettledIsItself(t: Tree, plan: Plan)
    requires WellFormed(t)
    ensures Settled(t, t, plan)
  {
  }

  lemma EntryBeforeBackups(t: Tree, plan: Plan, u: Tree, i: nat)
    requires Isolated(plan) && i < |plan.entries| && WellFormed(t) && EntryOpened(t, plan.entries[i])
    requires plan.entries[i].backup != [] && Touched(t, u, {}, Parent(plan.entries[i].backup))
    ensures Untouched(t, u, plan.entries[i]) && Undoable(t, u, plan.entries[i])
  {
    var e := plan.entries[i];
    OwnPathsApart(plan, i);
    MadeAbove(t, u, e.backup, e.backup);
    MadeAbove(t, u, e.backup, e.destination);
    MadeAbove(t, u, e.backup, e.prepared);
    EmptyBelow(t, e.backup, e.backup);
    Presence(t, e.destination, e.kind);
  }

  lemma KeptBeforeBackups(t: Tree, plan: Plan, u: Tree, room: Path)
    requires Isolated(plan) && DirectoriesMade(t, room, u)
    requires Contains(room, plan.entries[0].backup)
    ensures Kept(t, u, plan)
  {
    forall q | Beyond(plan, q) && q in u && q !in t
      ensures u[q] == Dir && OnTheWay(plan, q)
    {
      AboveWorkRoot(plan, 0, q);
    }
  }

  /** Making room for the backups disturbs no entry. */
  lemma BackupDirectoryMade(t: Tree, plan: Plan, u: Tree, room: Path)
    requires Isolated(plan) && Opened(t, plan) && NoFileAtWorkRoot(t, plan)
    requires forall i :: 0 <= i < |plan.entries| ==>
      plan.entries[i].backup != [] && Parent(plan.entries[i].backup) == room
    requires WellFormed(u) && DirectoriesMade(t, room, u)
    ensures PublishedUpTo(t, u, plan, 0)
    ensures Settled(t, u, plan)
  {
    KeptBeforeBackups(t, plan, u, room);
    forall i | 0 <= i < |plan.entries|
      ensures Untouched(t, u, plan.entries[i]) && Undoable(t, u, plan.entries[i])
    {
      EntryBeforeBackups(t, plan, u, i);
    }
  }
}
