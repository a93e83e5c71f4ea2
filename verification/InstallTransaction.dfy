/** A recoverable publication of prepared files and directories. */
module Transactions {
  import opened FileTree
  import opened InstallDisk
  import opened InstallPlan
  import opened Wrappers

  const SCHEMA_VERSION: nat := 3
  const MAXIMUM_ENTRIES: nat := 64

  datatype Request = Request(prepared: Path, destination: Path, kind: Kind)

  datatype ConfigSnapshot = ConfigSnapshot(existed: bool, contents: Bytes)

  /** Restoring that there was no configuration deletes the file, which needs its directory. */
  predicate CanUndoConfig(j: Journal, configDirectory: bool) {
    j.configPlanned && !j.configExisted ==> configDirectory
  }

  /** Whether an undisturbed recovery can bring what the journal records to its end. */
  predicate Recoverable(root: Path, j: Journal, configDirectory: bool) {
    ValidJournal(root, j) && (j.state.Prepared? || j.state.Published? ==> CanUndoConfig(j, configDirectory))
  }

  /** ValidateJournal. */
  predicate ValidJournal(expectedRoot: Path, j: Journal) {
    && j.schemaVersion == SCHEMA_VERSION && j.transactionId != ""
    && j.installRoot == expectedRoot
    && expectedRoot != [] && j.workRoot == WorkRoot(expectedRoot, j.transactionId)
    && 0 < |j.entries| <= MAXIMUM_ENTRIES
    && forall i :: 0 <= i < |j.entries| ==>
         && Contains(expectedRoot, j.entries[i].destination)
         && j.entries[i].backup == BackupPath(j.workRoot, i)
  }

  function WorkRoot(root: Path, transactionId: string): Path
    requires root != []
  {
    Parent(root) + [".mkwc-transaction-" + transactionId]
  }

  function BackupPath(workRoot: Path, index: nat): Path {
    workRoot + ["backup", Digits(index, 4)]
  }

  /** The decimal digits of n, at least width of them. */
  function Digits(n: nat, width: nat): (s: string)
    ensures s != ""
  {
    if n < 10 && width <= 1 then [DIGITS[n]]
    else Digits(n / 10, if width == 0 then 0 else width - 1) + [DIGITS[n % 10]]
  }

  const DIGITS: string := "0123456789"

  lemma {:induction false} DigitsInjective(m: nat, n: nat, width: nat)
    requires Digits(m, width) == Digits(n, width)
    ensures m == n
  {
    var x, y := Digits(m, width), Digits(n, width);
    assert x[|x| - 1] == DIGITS[m % 10] && y[|y| - 1] == DIGITS[n % 10];
    if !(m < 10 && width <= 1) && !(n < 10 && width <= 1) {
      var w := if width == 0 then 0 else width - 1;
      assert x[..|x| - 1] == Digits(m / 10, w) && y[..|y| - 1] == Digits(n / 10, w);
      DigitsInjective(m / 10, n / 10, w);
    }
  }

  /** What the digits stand for. */
  function ValueOf(s: string): int {
    if s == "" then 0 else ValueOf(s[..|s| - 1]) * 10 + (s[|s| - 1] as int - '0' as int)
  }

  lemma {:induction false} DigitsAreValue(n: nat, width: nat)
    ensures ValueOf(Digits(n, width)) == n && |Digits(n, width)| >= width
    ensures |Digits(n, width)| > width ==> width == 0 || n >= 10
  {
    var s := Digits(n, width);
    assert s[|s| - 1] == DIGITS[n % 10];
    assert forall d: nat :: d < 10 ==> DIGITS[d] as int == '0' as int + d;
    if n < 10 && width <= 1 {
      assert s[..0] == "";
    } else {
      var w := if width == 0 then 0 else width - 1;
      DigitsAreValue(n / 10, w);
      assert s[..|s| - 1] == Digits(n / 10, w);
    }
  }

  /** What NormalizeEntries demands of one request. */
  predicate RequestAcceptable(t: Tree, root: Path, r: Request) {
    && Contains(root, r.destination)
    && !Overlap(r.prepared, r.destination)
    && Exists(t, r.prepared, r.kind)
    && !ExistsAsOtherKind(t, r.prepared, r.kind)
    && !ExistsAsOtherKind(t, r.destination, r.kind)
  }

  predicate RequestsApart(r: Request, s: Request) {
    && !Overlap(r.destination, s.destination)
    && !Overlap(r.prepared, s.prepared)
    && !Overlap(r.prepared, s.destination)
    && !Overlap(r.destination, s.prepared)
  }

  ghost predicate AcceptableUpTo(t: Tree, root: Path, requests: seq<Request>, n: nat)
    requires n <= |requests|
  {
    && (forall i :: 0 <= i < n ==> RequestAcceptable(t, root, requests[i]))
    && (forall i, j :: 0 <= j < i < n ==> RequestsApart(requests[i], requests[j]))
  }

  ghost predicate Acceptable(t: Tree, root: Path, requests: seq<Request>) {
    AcceptableUpTo(t, root, requests, |requests|)
  }

  /** The two paths of a request. */
  function Named(r: Request, prepared: bool): Path {
    if prepared then r.prepared else r.destination
  }

  /** Requests are acceptable exactly when each destination is in the installation, each prepared
      path is there, no path is there as the other kind, and none of all the paths named is at
      or below another. */
  lemma AcceptableExactly(t: Tree, root: Path, requests: seq<Request>)
    ensures Acceptable(t, root, requests) <==>
            && (forall i :: 0 <= i < |requests| ==>
                  && root <= requests[i].destination
                  && requests[i].prepared in t && (t[requests[i].prepared].Dir? <==> requests[i].kind.Directory?)
                  && (requests[i].destination in t ==>
                        (t[requests[i].destination].Dir? <==> requests[i].kind.Directory?)))
            && (forall i, j, a, b :: 0 <= i < |requests| && 0 <= j < |requests| && (i != j || a != b) ==>
                  !(Named(requests[i], a) <= Named(requests[j], b)))
  {
    if Acceptable(t, root, requests) {
      forall i, j, a, b | 0 <= i < |requests| && 0 <= j < |requests| && (i != j || a != b)
        ensures !(Named(requests[i], a) <= Named(requests[j], b))
      {
        assert RequestAcceptable(t, root, requests[i]);
        assert i < j ==> RequestsApart(requests[j], requests[i]);
        assert j < i ==> RequestsApart(requests[i], requests[j]);
      }
    }
    if forall i, j, a, b :: 0 <= i < |requests| && 0 <= j < |requests| && (i != j || a != b) ==>
         !(Named(requests[i], a) <= Named(requests[j], b)) {
      forall i, j | 0 <= i < |requests| && 0 <= j < |requests|
        ensures i != j ==> RequestsApart(requests[i], requests[j])
        ensures !Overlap(requests[i].prepared, requests[i].destination)
      {
        NoneBelow(requests, i, i);
        NoneBelow(requests, i, j);
        NoneBelow(requests, j, i);
      }
    }
  }

  lemma NoneBelow(requests: seq<Request>, i: nat, j: nat)
    requires i < |requests| && j < |requests|
    requires forall i, j, a, b :: 0 <= i < |requests| && 0 <= j < |requests| && (i != j || a != b) ==>
      !(Named(requests[i], a) <= Named(requests[j], b))
    ensures !(requests[i].prepared <= requests[j].destination) && !(requests[i].destination <= requests[j].prepared)
    ensures i != j ==> !(requests[i].prepared <= requests[j].prepared) && !(requests[i].destination <= requests[j].destination)
  {
    assert !(Named(requests[i], true) <= Named(requests[j], false)) && !(Named(requests[i], false) <= Named(requests[j], true));
    if i != j {
      assert !(Named(requests[i], true) <= Named(requests[j], true));
      assert !(Named(requests[i], false) <= Named(requests[j], false));
    }
  }

  function EntryFor(t: Tree, workRoot: Path, r: Request, index: nat): Entry {
    Entry(r.prepared, r.destination, BackupPath(workRoot, index), r.kind, Exists(t, r.destination, r.kind))
  }

  function EntriesFor(t: Tree, workRoot: Path, requests: seq<Request>): seq<Entry> {
    seq(|requests|, i requires 0 <= i < |requests| => EntryFor(t, workRoot, requests[i], i))
  }

  function PlanFor(t: Tree, root: Path, transactionId: string, requests: seq<Request>): Plan
    requires root != []
  {
    var workRoot := WorkRoot(root, transactionId);
    Plan(root, workRoot, EntriesFor(t, workRoot, requests))
  }

  /** A new identifier names a work root that nothing uses yet. */
  predicate FreshId(t: Tree, root: Path, transactionId: string)
    requires root != []
  {
    transactionId != "" && WorkRoot(root, transactionId) !in t && WorkRoot(root, transactionId) != root
  }

  /** The pairwise checks on the requested paths, and backups in a fresh sibling of
      the installation, keep every path of every entry apart from all the others. */
  lemma AcceptedEntriesIsolated(t: Tree, root: Path, id: string, requests: seq<Request>)
    requires WellFormed(t) && root != [] && FreshId(t, root, id)
    requires requests != [] && Acceptable(t, root, requests)
    ensures Isolated(PlanFor(t, root, id, requests)) && Opened(t, PlanFor(t, root, id, requests))
  {
    var plan := PlanFor(t, root, id, requests);
    forall i | 0 <= i < |requests|
      ensures EntryIsolated(plan, plan.entries[i]) && EntryOpened(t, plan.entries[i])
    {
      AcceptedEntryIsolated(t, root, id, requests[i], i, plan.root, plan.entries[i]);
    }
    forall i, j | 0 <= i < |requests| && 0 <= j < |requests| && i != j
      ensures EntriesApart(plan.entries[i], plan.entries[j])
    {
      BackupsApart(plan.workRoot, i, j);
      if i < j {
        assert RequestsApart(requests[j], requests[i]);
      } else {
        assert RequestsApart(requests[i], requests[j]);
      }
    }
  }

  lemma AcceptedEntryIsolated(t: Tree, root: Path, id: string, r: Request, index: nat, planRoot: Path, e: Entry)
    requires WellFormed(t) && root != [] && FreshId(t, root, id) && planRoot == root
    requires RequestAcceptable(t, root, r) && e == EntryFor(t, WorkRoot(root, id), r, index)
    ensures EntryIsolated(Plan(root, WorkRoot(root, id), [e]), e) && EntryOpened(t, e)
  {
    var workRoot := WorkRoot(root, id);
    AbsentSubtree(t, workRoot);
    if Contains(workRoot, r.prepared) {
      EmptyBelow(t, workRoot, r.prepared);
    }
    assert Contains(r.prepared, workRoot) && r.prepared != workRoot ==> Contains(r.prepared, root);
    assert Contains(workRoot, e.backup);
    if e.backup in t {
      EmptyBelow(t, workRoot, e.backup);
    }
    AbsentSubtree(t, e.backup);
  }

  /** Nothing but directories stands where the directory of the backups is made. */
  ghost predicate RoomFree(t: Tree, workRoot: Path) {
    forall q :: q in t && Contains(q, workRoot + ["backup"]) ==> t[q].Dir?
  }

  lemma RoomReachable(t: Tree, root: Path, id: string, requests: seq<Request>)
    requires WellFormed(t) && root != [] && FreshId(t, root, id) && requests != [] && Acceptable(t, root, requests)
    requires Unobstructed(t, PlanFor(t, root, id, requests))
    ensures RoomFree(t, WorkRoot(root, id))
  {
    var plan := PlanFor(t, root, id, requests);
    AbsentSubtree(t, plan.workRoot);
    forall q | q in t && Contains(q, plan.workRoot + ["backup"])
      ensures t[q].Dir?
    {
      if Contains(plan.workRoot, q) {
        EmptyBelow(t, plan.workRoot, q);
      } else {
        assert RequestAcceptable(t, root, requests[0]);
        assert Above(q, plan.entries[0].destination);
      }
    }
  }

  lemma BackupsApart(workRoot: Path, i: nat, j: nat)
    requires i != j
    ensures !Overlap(BackupPath(workRoot, i), BackupPath(workRoot, j))
  {
    if Digits(i, 4) == Digits(j, 4) {
      DigitsInjective(i, j, 4);
    }
    var b, c := BackupPath(workRoot, i), BackupPath(workRoot, j);
    assert b[|workRoot| + 1] == Digits(i, 4) && c[|workRoot| + 1] == Digits(j, 4);
  }

  class InstallTransaction {
    const disk: Disk
    var journal: Journal
    var finished: bool
    // The tree and the configuration the transaction began with.
    ghost const base: Image
    // No call on this object has failed yet. A caller may only dispose of it after that.
    ghost var intact: bool

    /** The disk can be undone, both by this object and from its own journal. */
    ghost predicate Undoable()
      reads this, disk
    {
      && !finished
      && Isolated(PlanOf(journal)) && Opened(base.tree, PlanOf(journal))
      && Undoing(base.tree, disk.tree, PlanOf(journal))
      && UndoneConfig(journal, disk.config) == base.config
      && disk.journal.Some?
      && (disk.journal.value.state.Prepared? || disk.journal.value.state.Published?)
      && JournalLeadsTo(base, PlanOf(journal), disk.journal.value, disk.tree, disk.config)
    }

    ghost predicate Valid()
      reads this, disk
    {
      && (!finished ==> Undoable())
      && (intact && !finished ==> disk.journal == Some(journal))
      && (intact && !finished && journal.state.Prepared? ==>
            PublishedUpTo(base.tree, disk.tree, PlanOf(journal), 0) && !journal.configPlanned)
      && (intact && !finished && journal.state.Published? ==>
            PublishedUpTo(base.tree, disk.tree, PlanOf(journal), |journal.entries|))
    }

    /** The disk, left alone or recovered, ends in target. */
    ghost predicate Leads(target: Image)
      reads this, disk
    {
      LeadsTo(target, PlanOf(journal), disk.journal, disk.tree, disk.config)
    }

    /** The installation is as before; at most the work root and the journal that says so are left. */
    ghost predicate Undone()
      reads this, disk
    {
      disk.journal.Some? ==> disk.journal.value.state.RolledBack?
    }

    constructor (disk: Disk, journal: Journal, ghost base: Image)
      ensures this.disk == disk && this.journal == journal && this.base == base
      ensures !finished && intact
    {
      this.disk, this.journal, this.finished := disk, journal, false;
      this.base, this.intact := base, true;
    }

    static method NormalizeEntries(t: Tree, root: Path, workRoot: Path, requests: seq<Request>)
      returns (r: Option<seq<Entry>>)
      ensures r.Some? <==> Acceptable(t, root, requests)
      ensures r.Some? ==> r.value == EntriesFor(t, workRoot, requests)
    {
      var normalized: seq<Entry> := [];
      for index := 0 to |requests|
        invariant |normalized| == index
        invariant forall k :: 0 <= k < index ==> normalized[k] == EntryFor(t, workRoot, requests[k], k)
        invariant AcceptableUpTo(t, root, requests, index)
      {
        var requested := requests[index];
        if !RequestAcceptable(t, root, requested) {
          return None;
        }
        for previous := 0 to index
          invariant forall j :: 0 <= j < previous ==> RequestsApart(requested, requests[j])
        {
          var p := normalized[previous];
          if !RequestsApart(requested, Request(p.prepared, p.destination, p.kind)) {
            assert !RequestsApart(requests[index], requests[previous]);
            return None;
          }
        }
        normalized := normalized + [EntryFor(t, workRoot, requested, index)];
      }
      return Some(normalized);
    }

    static method Begin(disk: Disk, root: Path, transactionId: string, requests: seq<Request>)
      returns (o: Outcome, transaction: InstallTransaction?)
      requires WellFormed(disk.tree) && root != [] && FreshId(disk.tree, root, transactionId)
      modifies disk`tree, disk`journal, disk`faults
      ensures disk.faults >= old(disk.faults)
      ensures o == Done <==> transaction != null
      ensures transaction != null ==>
        && fresh(transaction) && transaction.disk == disk && transaction.Valid() && transaction.intact
        && !transaction.finished && transaction.journal.state == Prepared
        && transaction.base == Image(old(disk.tree), disk.config)
        && PlanOf(transaction.journal) == PlanFor(old(disk.tree), root, transactionId, requests)
        && (ValidJournal(root, transaction.journal) <==> |requests| <= 64)
        && BackupsReady(disk.tree, PlanOf(transaction.journal))
      ensures
        && disk.faults == old(disk.faults) && old(disk.journal).None? && requests != [] && Acceptable(old(disk.tree), root, requests)
        && Unobstructed(old(disk.tree), PlanFor(old(disk.tree), root, transactionId, requests))
        ==> o == Done
      ensures transaction == null ==> disk.journal == old(disk.journal)
      ensures transaction == null && old(disk.journal).None? && requests != [] && Acceptable(old(disk.tree), root, requests) ==>
        LeadsTo(Image(old(disk.tree), disk.config), PlanFor(old(disk.tree), root, transactionId, requests),
                disk.journal, disk.tree, disk.config)
      ensures requests == [] || old(disk.journal).Some? || !Acceptable(old(disk.tree), root, requests) ==>
        && transaction == null && disk.tree == old(disk.tree)
        && o == Failed(if requests == [] then NoEntries
                       else if old(disk.journal).Some? then UnfinishedTransaction
                       else BadEntries)
    {
      transaction := null;
      if requests == [] {
        return Failed(NoEntries), null;
      }
      if disk.journal.Some? {
        return Failed(UnfinishedTransaction), null;
      }
      var workRoot := WorkRoot(root, transactionId);
      var entries := NormalizeEntries(disk.tree, root, workRoot, requests);
      if entries.None? {
        return Failed(BadEntries), null;
      }
      var journal := Journal(SCHEMA_VERSION, transactionId, root, workRoot, Prepared, entries.value, false, false, []);
      ghost var t := disk.tree;
      AcceptedEntriesIsolated(t, root, transactionId, requests);
      if Unobstructed(t, PlanOf(journal)) {
        RoomReachable(t, root, transactionId, requests);
      }
      o := OpenJournal(disk, journal);
      if o != Done {
        return;
      }
      transaction := new InstallTransaction(disk, journal, Image(t, disk.config));
    }

    static method OpenJournal(disk: Disk, journal: Journal) returns (o: Outcome)
      requires Isolated(PlanOf(journal)) && Opened(disk.tree, PlanOf(journal))
      requires NoFileAtWorkRoot(disk.tree, PlanOf(journal))
      requires forall i :: 0 <= i < |journal.entries| ==> journal.entries[i].backup == BackupPath(journal.workRoot, i)
      modifies disk`tree, disk`journal, disk`faults
      ensures disk.faults >= old(disk.faults) && (o == Done ==> disk.faults == old(disk.faults))
      ensures PublishedUpTo(old(disk.tree), disk.tree, PlanOf(journal), 0)
      ensures Settled(old(disk.tree), disk.tree, PlanOf(journal))
      ensures disk.journal == if o == Done then Some(journal) else old(disk.journal)
      ensures o == Done ==> BackupsReady(disk.tree, PlanOf(journal))
      ensures disk.faults == old(disk.faults) && RoomFree(old(disk.tree), journal.workRoot) ==> o == Done
    {
      ghost var t := disk.tree;
      var room := journal.workRoot + ["backup"];
      o := disk.CreateDirectory(room);
      assert forall i: nat :: Parent(BackupPath(journal.workRoot, i)) == room;
      BackupDirectoryMade(t, PlanOf(journal), disk.tree, room);
      if o == Done {
        o := disk.WriteJournal(journal);
      }
    }

    /** Moves every old destination aside and publishes every prepared entry. */
    method Publish() returns (o: Outcome)
      requires Valid() && intact
      modifies this`journal, this`finished, this`intact, disk`tree, disk`journal, disk`config, disk`configDirectory, disk`faults
      ensures disk.faults >= old(disk.faults) && (o == Done ==> disk.faults == old(disk.faults))
      ensures Valid() || o == Crashed
      ensures PlanOf(journal) == PlanOf(old(journal)) && disk.config == old(disk.config)
      ensures o == Done ==>
        && intact && !finished && journal.state == Published && !journal.configPlanned
        && (ValidJournal(journal.installRoot, journal) <==> ValidJournal(old(journal).installRoot, old(journal)))
        && forall i :: 0 <= i < |journal.entries| ==>
             At(disk.tree, journal.entries[i].destination) == At(base.tree, journal.entries[i].prepared)
      ensures o != Done && !old(finished) ==> Leads(base)
      ensures o != Done && !old(finished) && old(journal).state.Prepared? && finished ==> Undone()
      ensures o != Done && !old(finished) && old(journal).state.Prepared? ==>
        && !journal.configPlanned
        && (ValidJournal(journal.installRoot, journal) <==> ValidJournal(old(journal).installRoot, old(journal)))
      ensures !old(finished) && disk.journal == None ==> At(disk.tree, journal.workRoot) == Nothing
      ensures old(finished) || !old(journal).state.Prepared? ==>
        o == Failed(WrongState) && disk.tree == old(disk.tree) && disk.journal == old(disk.journal)
      ensures disk.configDirectory == old(disk.configDirectory)
      ensures
        && disk.faults == old(disk.faults) && !old(finished) && old(journal).state.Prepared?
        && Unobstructed(base.tree, PlanOf(old(journal))) && BackupsReady(old(disk.tree), PlanOf(old(journal)))
        ==> o == Done
      // Undisturbed, a publication that fails is undone at once.
      ensures
        && disk.faults == old(disk.faults) && !old(finished) && old(journal).state.Prepared?
        && ValidJournal(old(journal).installRoot, old(journal)) && o != Done
        ==> o.Failed? && finished && disk.journal == None
    {
      if finished || journal.state != Prepared {
        return Failed(WrongState);
      }
      o := PublishUnguarded();
      if o.Failed? {
        intact := false;
        var rolledBack := RollBack();
        if rolledBack == Crashed {
          o := Crashed;
        }
      }
    }

    /** The part of Publish whose failure is rolled back. */
    method PublishUnguarded() returns (o: Outcome)
      requires Valid() && intact && !finished && journal.state.Prepared?
      modifies this`journal, disk`tree, disk`journal, disk`faults
      ensures disk.faults >= old(disk.faults) && (o == Done ==> disk.faults == old(disk.faults))
      ensures Undoable()
      ensures PlanOf(journal) == PlanOf(old(journal)) && !journal.configPlanned
      ensures ValidJournal(journal.installRoot, journal) <==> ValidJournal(old(journal).installRoot, old(journal))
      ensures o == Done ==>
        && journal.state == Published && disk.journal == Some(journal)
        && PublishedUpTo(base.tree, disk.tree, PlanOf(journal), |journal.entries|)
      ensures
        && disk.faults == old(disk.faults) && Unobstructed(base.tree, PlanOf(old(journal)))
        && BackupsReady(old(disk.tree), PlanOf(old(journal)))
        ==> o == Done
      ensures disk.faults == old(disk.faults) ==> o != Crashed
    {
      o := PublishEntries(disk, journal.entries, base.tree, PlanOf(journal));
      if o == Done {
        journal := journal.(state := Published);
        o := disk.WriteJournal(journal);
      }
    }

    static method PublishEntries(disk: Disk, entries: seq<Entry>, ghost base: Tree, ghost plan: Plan)
      returns (o: Outcome)
      requires plan.entries == entries && Isolated(plan) && Opened(base, plan)
      requires PublishedUpTo(base, disk.tree, plan, 0)
      modifies disk`tree, disk`faults
      ensures disk.faults >= old(disk.faults) && (o == Done ==> disk.faults == old(disk.faults))
      ensures Undoing(base, disk.tree, plan)
      ensures o == Done ==> PublishedUpTo(base, disk.tree, plan, |entries|)
      ensures o.Failed? ==> o.error == Io
      ensures disk.faults == old(disk.faults) && Unobstructed(base, plan) && BackupsReady(old(disk.tree), plan) ==> o == Done
      ensures disk.faults == old(disk.faults) ==> o != Crashed
    {
      o := Done;
      for i := 0 to |entries|
        invariant PublishedUpTo(base, disk.tree, plan, i) && o == Done && disk.faults == old(disk.faults)
        invariant BackupsReady(old(disk.tree), plan) ==> BackupsReady(disk.tree, plan)
      {
        o := PublishEntry(disk, entries[i], base, plan, i);
        if o != Done {
          return;
        }
      }
    }

    /** The original of one entry is moved aside, and what was prepared takes its place. */
    static method PublishEntry(disk: Disk, e: Entry, ghost base: Tree, ghost plan: Plan, ghost i: nat) returns (o: Outcome)
      requires i < |plan.entries| && e == plan.entries[i] && Isolated(plan) && Opened(base, plan)
      requires PublishedUpTo(base, disk.tree, plan, i)
      modifies disk`tree, disk`faults
      ensures disk.faults >= old(disk.faults) && (o == Done ==> disk.faults == old(disk.faults))
      ensures Undoing(base, disk.tree, plan)
      ensures o == Done ==> PublishedUpTo(base, disk.tree, plan, i + 1)
      ensures o == Done && BackupsReady(old(disk.tree), plan) ==> BackupsReady(disk.tree, plan)
      ensures o.Failed? ==> o.error == Io
      ensures disk.faults == old(disk.faults) && Unobstructed(base, plan) && BackupsReady(old(disk.tree), plan) ==> o == Done
      ensures disk.faults == old(disk.faults) ==> o != Crashed
    {
      ghost var t := disk.tree;
      OwnPathsApart(plan, i);
      EntryPresence(base, plan, t, i);
      assert EntryIsolated(plan, e) && EntryOpened(base, e);
      if e.originalExisted {
        MoveAside(base, plan, t, i);
        o := Move(disk, e.destination, e.backup, e.kind);
        OriginalMoved(base, t, disk.tree, e, o == Done);
        TouchedWider(t, disk.tree, {e.destination, e.backup}, PathsOf(e), e.backup);
        EntryHandled(base, plan, t, disk.tree, i, e.backup);
        if o != Done {
          return;
        }
        OthersStayPublished(base, plan, t, disk.tree, i, e.backup);
        if BackupsReady(t, plan) {
          RoomKept(plan, t, disk.tree, i, e.backup);
        }
      }
      ghost var u := disk.tree;
      MovePrepared(base, plan, u, i);
      o := Move(disk, e.prepared, e.destination, e.kind);
      PreparedMoved(base, u, disk.tree, e, o == Done);
      TouchedWider(u, disk.tree, {e.prepared, e.destination}, PathsOf(e), e.destination);
      EntryHandled(base, plan, u, disk.tree, i, e.destination);
      if o != Done {
        return;
      }
      OthersStayPublished(base, plan, u, disk.tree, i, e.destination);
      if BackupsReady(u, plan) {
        RoomKept(plan, u, disk.tree, i, e.destination);
      }
    }

    /** Journals the configuration the caller is about to change. */
    method RecordRuntimeConfigurationMutation(snapshot: ConfigSnapshot) returns (o: Outcome)
      requires Valid() && intact
      requires !finished && journal.state.Published? ==>
        && disk.config == base.config
        && base.config == if snapshot.existed then Some(snapshot.contents) else None
      modifies this`journal, this`intact, disk`journal, disk`faults
      ensures disk.faults >= old(disk.faults) && (o == Done ==> disk.faults == old(disk.faults))
      ensures Valid() && PlanOf(journal) == PlanOf(old(journal))
      ensures ValidJournal(journal.installRoot, journal) <==> ValidJournal(old(journal).installRoot, old(journal))
      ensures !old(finished) && old(journal).state.Published? ==> journal.configExisted == snapshot.existed
      ensures o == Done ==>
        && intact && !finished && disk.journal == Some(journal)
        && journal == old(journal).(
             configExisted := snapshot.existed, configContents := snapshot.contents, configPlanned := true)
      ensures o != Done && !old(finished) ==> Leads(base)
      ensures old(finished) || !old(journal).state.Published? ==>
        o == Failed(WrongState) && disk.journal == old(disk.journal)
      ensures disk.faults == old(disk.faults) && !old(finished) && old(journal).state.Published? ==> o == Done
    {
      if finished || journal.state != Published {
        return Failed(WrongState);
      }
      journal := journal.(
        configExisted := snapshot.existed,
        configContents := snapshot.contents,
        configPlanned := true);
      o := disk.WriteJournal(journal);
      if o != Done {
        intact := false;
      }
    }

    /** Makes the published paths authoritative. */
    method Commit() returns (o: Outcome)
      requires Valid() && intact
      modifies this`journal, this`finished, this`intact, disk`tree, disk`journal, disk`faults
      ensures disk.faults >= old(disk.faults)
      ensures Valid() && PlanOf(journal) == PlanOf(old(journal)) && disk.config == old(disk.config)
      // Until the journal is written the transaction is undone; from then on it stands.
      ensures !finished ==> o != Done && Leads(base) && disk.tree == old(disk.tree)
      ensures journal == old(journal).(state := journal.state)
      ensures finished && !old(finished) && disk.journal.Some? ==> disk.journal.value.state.Committed?
      ensures finished && !old(finished) ==>
        && !o.Failed?
        && Leads(Image(old(disk.tree), old(disk.config)))
        && (disk.journal == None ==> At(disk.tree, journal.workRoot) == Nothing)
        && forall i :: 0 <= i < |journal.entries| ==>
             At(disk.tree, journal.entries[i].destination) == At(base.tree, journal.entries[i].prepared)
      ensures old(finished) || !old(journal).state.Published? ==>
        o == Failed(WrongState) && disk.tree == old(disk.tree) && disk.journal == old(disk.journal)
      ensures disk.faults == old(disk.faults) && !old(finished) && old(journal).state.Published? ==>
        o == Done && finished && disk.journal == None
    {
      if finished || journal.state != Published {
        return Failed(WrongState);
      }
      journal := journal.(state := Committed);
      o := disk.WriteJournal(journal);
      if o != Done {
        intact := false;
        return;
      }
      finished := true;
      SettledIsItself(disk.tree, PlanOf(journal));
      o := TryCleanCommitted(disk, journal.workRoot, disk.tree, PlanOf(journal));
    }

    static method TryCleanCommitted(disk: Disk, workRoot: Path, ghost target: Tree, ghost plan: Plan)
      returns (o: Outcome)
      requires Isolated(plan) && plan.workRoot == workRoot && Settled(target, disk.tree, plan)
      requires NoFileAtWorkRoot(disk.tree, plan)
      modifies disk`tree, disk`journal, disk`faults
      ensures disk.faults >= old(disk.faults)
      ensures Settled(target, disk.tree, plan) && NoFileAtWorkRoot(disk.tree, plan)
      ensures disk.journal == None || disk.journal == old(disk.journal)
      // The backups go before the journal that names them.
      ensures old(disk.journal).Some? && disk.journal == None ==> At(disk.tree, workRoot) == Nothing
      ensures !o.Failed?
      ensures disk.faults == old(disk.faults) ==> o == Done && disk.journal == None
      ensures forall i :: 0 <= i < |plan.entries| ==>
        At(disk.tree, plan.entries[i].destination) == At(old(disk.tree), plan.entries[i].destination)
    {
      ghost var t := disk.tree;
      o := disk.Delete(workRoot, Directory);
      WorkRootLost(target, plan, t, disk.tree);
      WorkRootGone(t, plan);
      if o == Done {
        o := disk.DeleteJournal();
      }
      if o.Failed? {
        o := Done;
      }
    }

    method Dispose() returns (o: Outcome)
      requires Valid()
      modifies this`journal, this`finished, this`intact, disk`tree, disk`journal, disk`config, disk`configDirectory, disk`faults
      ensures disk.faults >= old(disk.faults)
      ensures PlanOf(journal) == PlanOf(old(journal))
      ensures old(finished) ==>
        && o == Done && disk.tree == old(disk.tree) && disk.journal == old(disk.journal)
        && disk.config == old(disk.config)
      ensures !old(finished) ==> Leads(base)
      ensures !old(finished) && o == Done ==> disk.journal == None
      ensures !old(finished) && finished ==> Undone()
      ensures !old(finished) && disk.journal == None ==> At(disk.tree, journal.workRoot) == Nothing
      ensures old(finished) ==> disk.configDirectory == old(disk.configDirectory)
      ensures !old(finished) && disk.faults == old(disk.faults) ==>
        (o == Done <==>
          && ValidJournal(old(journal).installRoot, old(journal))
          && CanUndoConfig(old(journal), old(disk.configDirectory)))
    {
      if finished {
        return Done;
      }
      intact := false;
      o := RollBack();
    }

    /** Undoes the entries, last one first, then the configuration. */
    method RollBack() returns (o: Outcome)
      requires !finished ==> Undoable()
      requires !intact
      modifies this`journal, this`finished, disk`tree, disk`journal, disk`config, disk`configDirectory, disk`faults
      ensures disk.faults >= old(disk.faults) && (o == Done ==> disk.faults == old(disk.faults))
      ensures PlanOf(journal) == PlanOf(old(journal))
      ensures !finished ==> Undoable()
      ensures !old(finished) ==> Leads(base)
      ensures journal == old(journal).(state := journal.state)
      ensures !old(finished) && finished ==> Undone()
      ensures o == Done && !old(finished) ==> finished && disk.journal == None
      ensures !old(finished) && disk.journal == None ==> At(disk.tree, journal.workRoot) == Nothing
      ensures o != Failed(BackupMissing) && o != Failed(AmbiguousRecovery)
      ensures !old(journal).configPlanned ==> disk.config == old(disk.config)
      ensures !old(finished) && disk.faults == old(disk.faults) ==>
        (o == Done <==>
          && ValidJournal(old(journal).installRoot, old(journal))
          && CanUndoConfig(old(journal), old(disk.configDirectory)))
      ensures old(disk.configDirectory) ==> disk.configDirectory
      ensures !old(journal).configPlanned ==> disk.configDirectory == old(disk.configDirectory)
      // Without the directory of the configuration an absent configuration cannot be restored, ever.
      ensures !old(finished) && !CanUndoConfig(old(journal), old(disk.configDirectory)) ==>
        && o != Done && !finished && disk.journal == old(disk.journal) && disk.config == old(disk.config)
        && disk.configDirectory == old(disk.configDirectory)
      ensures !old(finished) && !ValidJournal(old(journal).installRoot, old(journal)) ==>
        o == Failed(InvalidJournal) && disk.tree == old(disk.tree) && disk.journal == old(disk.journal)
    {
      if finished {
        return Done;
      }
      if !ValidJournal(journal.installRoot, journal) {
        return Failed(InvalidJournal);
      }
      ghost var plan := PlanOf(journal);
      o := RollBackEntries(disk, journal.entries, base.tree, plan);
      if o != Done {
        return;
      }
      if journal.configPlanned {
        o := disk.SetConfig(if journal.configExisted then Some(journal.configContents) else None);
        if o != Done {
          return;
        }
      }
      journal := journal.(state := RolledBack);
      o := disk.WriteJournal(journal);
      if o != Done {
        return;
      }
      finished := true;
      o := CleanRolledBack(disk, journal.workRoot, base.tree, plan);
    }

    /** The last steps of a rollback, once its end is journaled. */
    static method CleanRolledBack(disk: Disk, workRoot: Path, ghost target: Tree, ghost plan: Plan) returns (o: Outcome)
      requires Isolated(plan) && plan.workRoot == workRoot && Settled(target, disk.tree, plan)
      requires NoFileAtWorkRoot(disk.tree, plan)
      modifies disk`tree, disk`journal, disk`faults
      ensures disk.faults >= old(disk.faults) && (o == Done ==> disk.faults == old(disk.faults))
      ensures Settled(target, disk.tree, plan) && NoFileAtWorkRoot(disk.tree, plan)
      ensures disk.journal == None || disk.journal == old(disk.journal)
      // The backups go before the journal that names them.
      ensures old(disk.journal).Some? && disk.journal == None ==> At(disk.tree, workRoot) == Nothing
      ensures o == Done ==> disk.journal == None
      ensures disk.faults == old(disk.faults) ==> o == Done
      ensures o.Failed? ==> o.error == Io
    {
      ghost var t := disk.tree;
      o := disk.Delete(workRoot, Directory);
      WorkRootLost(target, plan, t, disk.tree);
      WorkRootGone(t, plan);
      if o == Done {
        o := disk.DeleteJournal();
      }
    }

    static method RollBackEntries(disk: Disk, entries: seq<Entry>, ghost base: Tree, ghost plan: Plan)
      returns (o: Outcome)
      requires plan.entries == entries && Isolated(plan) && Opened(base, plan)
      requires Undoing(base, disk.tree, plan)
      modifies disk`tree, disk`faults
      ensures disk.faults >= old(disk.faults) && (o == Done ==> disk.faults == old(disk.faults))
      ensures Undoing(base, disk.tree, plan)
      ensures o == Done ==> Settled(base, disk.tree, plan)
      ensures disk.faults == old(disk.faults) ==> o == Done
      ensures o.Failed? ==> o.error == Io
    {
      var i := |entries|;
      while i > 0
        invariant 0 <= i <= |entries| && disk.faults == old(disk.faults)
        invariant Undoing(base, disk.tree, plan)
        invariant forall j :: i <= j < |entries| ==> Restored(base, disk.tree, entries[j])
      {
        i := i - 1;
        o := RollBackEntry(disk, entries[i], base, plan, i);
        if o != Done {
          return;
        }
      }
      o := Done;
    }

    /** Brings an interrupted transaction to its end. */
    static method Recover(disk: Disk, root: Path, ghost target: Image, ghost plan: Plan) returns (o: Outcome)
      requires LeadsTo(target, plan, disk.journal, disk.tree, disk.config)
      modifies disk`tree, disk`journal, disk`config, disk`configDirectory, disk`faults
      ensures disk.faults >= old(disk.faults)
      ensures LeadsTo(target, plan, disk.journal, disk.tree, disk.config)
      ensures o == Done ==> disk.journal == None
      ensures old(disk.journal).Some? && disk.journal == None ==> At(disk.tree, plan.workRoot) == Nothing
      ensures o != Failed(BackupMissing) && o != Failed(AmbiguousRecovery)
      ensures disk.faults == old(disk.faults) ==>
        (o == Done <==> old(disk.journal).None? || Recoverable(root, old(disk.journal).value, old(disk.configDirectory)))
      ensures old(disk.configDirectory) ==> disk.configDirectory
      ensures old(disk.journal).Some? && !Recoverable(root, old(disk.journal).value, old(disk.configDirectory)) ==>
        && o != Done && disk.journal == old(disk.journal) && disk.config == old(disk.config)
        && disk.configDirectory == old(disk.configDirectory)
      ensures old(disk.journal).Some? && !ValidJournal(root, old(disk.journal).value) ==>
        o == Failed(InvalidJournal) && disk.tree == old(disk.tree)
        && disk.journal == old(disk.journal) && disk.config == old(disk.config)
    {
      if disk.journal.None? {
        return Done;
      }
      var journal := disk.journal.value;
      if !ValidJournal(root, journal) {
        return Failed(InvalidJournal);
      }
      if journal.state.Committed? || journal.state.RolledBack? {
        o := TryCleanCommitted(disk, journal.workRoot, target.tree, plan);
        if o == Done && disk.journal.Some? {
          o := Failed(Io);
        }
        return;
      }
      var transaction := new InstallTransaction(disk, journal, target);
      transaction.intact := false;
      o := transaction.RollBack();
    }

    static method Move(disk: Disk, source: Path, destination: Path, kind: Kind) returns (o: Outcome)
      requires WellFormed(disk.tree) && destination != [] && !Overlap(source, destination)
      modifies disk`tree, disk`faults
      ensures disk.faults >= old(disk.faults) && (o == Done ==> disk.faults == old(disk.faults))
      ensures WellFormed(disk.tree)
      ensures Touched(old(disk.tree), disk.tree, {source, destination}, destination)
      ensures o == Done ==>
        && Exists(old(disk.tree), source, kind) && destination !in old(disk.tree)
        && At(disk.tree, destination) == At(old(disk.tree), source)
        && At(disk.tree, source) == Nothing
      ensures o != Done ==> Touched(old(disk.tree), disk.tree, {}, Parent(destination))
      ensures
        && disk.faults == old(disk.faults) && Exists(old(disk.tree), source, kind) && destination !in old(disk.tree)
        && (forall q :: q in old(disk.tree) && Above(q, destination) ==> old(disk.tree)[q].Dir?)
        ==> o == Done
      ensures o.Failed? ==> o.error == Io
      ensures disk.faults == old(disk.faults) ==> o != Crashed
    {
      ghost var t := disk.tree;
      o := disk.CreateDirectory(Parent(destination));
      ghost var made := disk.tree;
      MadeAbove(t, made, destination, source);
      MadeAbove(t, made, destination, destination);
      MadeTouches(t, made, source, destination);
      if o == Done {
        o := disk.Rename(source, destination, kind);
        if o == Done {
          MovedAfterMade(t, made, source, destination);
        }
      }
    }

    /** Puts one entry back, from any state that publishing it, undoing it and
        being killed inside either can leave it in. */
    static method RollBackEntry(disk: Disk, e: Entry, ghost base: Tree, ghost plan: Plan, ghost i: nat)
      returns (o: Outcome)
      requires Isolated(plan) && Opened(base, plan) && Undoing(base, disk.tree, plan)
      requires i < |plan.entries| && e == plan.entries[i]
      modifies disk`tree, disk`faults
      ensures disk.faults >= old(disk.faults) && (o == Done ==> disk.faults == old(disk.faults))
      ensures Undoing(base, disk.tree, plan)
      ensures o == Done ==> Restored(base, disk.tree, e)
      ensures forall j :: (0 <= j < |plan.entries| && j != i) ==>
        (Restored(base, old(disk.tree), plan.entries[j]) ==> Restored(base, disk.tree, plan.entries[j]))
      ensures o != Failed(BackupMissing) && o != Failed(AmbiguousRecovery)
      ensures disk.faults == old(disk.faults) ==> o == Done
      ensures o.Failed? ==> o.error == Io
    {
      ghost var t := disk.tree;
      OwnPathsApart(plan, i);
      EntryPresence(base, plan, t, i);
      assert EntryIsolated(plan, e) && InstallPlan.Undoable(base, t, e);
      var destinationExists := Exists(disk.tree, e.destination, e.kind);
      if Exists(disk.tree, e.backup, e.kind) {
        if destinationExists {
          o := disk.Delete(e.destination, e.kind);
          DestinationLost(base, plan, t, disk.tree, i);
          if o != Done {
            return;
          }
          CutWellFormed(t, e.destination);
        }
        ghost var emptied := disk.tree;
        EmptyBelow(emptied, e.destination, e.destination);
        if e.originalExisted {
          HoldersKept(base, plan, emptied, i);
        }
        o := Move(disk, e.backup, e.destination, e.kind);
        BackupRestored(base, plan, emptied, disk.tree, i, o == Done);
        return;
      }
      if e.originalExisted {
        if !destinationExists {
          return Failed(BackupMissing);
        }
        return Done;
      }
      if destinationExists && Exists(disk.tree, e.prepared, e.kind) {
        return Failed(AmbiguousRecovery);
      }
      o := Done;
      if destinationExists {
        o := disk.Delete(e.destination, e.kind);
        DestinationLost(base, plan, t, disk.tree, i);
        CutWellFormed(t, e.destination);
      }
    }
  }
}
