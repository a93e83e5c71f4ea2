/** The disk an installation lives on. Every method is one step, or a loop of
    steps, of the file system; each step can fail with an exception or be the
    last one before the process is killed. */
module InstallDisk {
  import opened FileTree
  import opened Wrappers

  datatype Error =
    | Io
    | NoEntries
    | UnfinishedTransaction
    | BadEntries
    | WrongState
    | InvalidJournal
    | BackupMissing
    | AmbiguousRecovery
    | LockHeld

  /** How a call ends: normally, with an exception, or not at all because the
      process was killed inside it. */
  datatype Outcome = Done | Failed(error: Error) | Crashed

  datatype TransactionState = Prepared | Published | Committed | RolledBack

  datatype Entry = Entry(
    prepared: Path,
    destination: Path,
    backup: Path,
    kind: Kind,
    originalExisted: bool)

  datatype Journal = Journal(
    schemaVersion: nat,
    transactionId: string,
    installRoot: Path,
    workRoot: Path,
    state: TransactionState,
    entries: seq<Entry>,
    configPlanned: bool,
    configExisted: bool,
    configContents: Bytes)

  /** A tree has a node that is as deep as any other node at or below p. */
  lemma {:induction false} Deepest(t: set<Path>, p: Path, q: Path) returns (d: Path)
    requires q in t && Contains(p, q)
    ensures d in t && Contains(p, d) && forall r :: r in t && Contains(p, r) ==> |r| <= |d|
    decreases |t|
  {
    d := q;
    if r :| r in t && Contains(p, r) && |r| > |q| {
      d := Deepest(t - {q}, p, r);
      assert |r| <= |d|;
    }
  }

  class Disk {
    var tree: Tree
    // The journal and the runtime configuration are files outside every entry.
    var journal: Option<Journal>
    var config: Option<Bytes>
    // Whether the directory that holds the runtime configuration is there.
    var configDirectory: bool
    // How many steps have failed of themselves, or were the last before the process was killed.
    ghost var faults: nat

    constructor (tree: Tree, config: Option<Bytes>, configDirectory: bool)
      requires config.Some? ==> configDirectory
      ensures this.tree == tree && this.config == config && this.configDirectory == configDirectory
      ensures journal == None && faults == 0
    {
      this.tree, this.config, this.configDirectory := tree, config, configDirectory;
      journal, faults := None, 0;
    }

    /** What the environment does to the next step. */
    method Strike() returns (o: Outcome)
      modifies this`faults
      ensures faults == if o == Done then old(faults) else old(faults) + 1
      ensures o.Failed? ==> o.error == Io
    {
      o := Done;
      if * {
        o, faults := Failed(Io), faults + 1;
      } else if * {
        o, faults := Crashed, faults + 1;
      }
    }

    method CreateDirectory(p: Path) returns (o: Outcome)
      requires WellFormed(tree)
      modifies this`tree, this`faults
      ensures faults >= old(faults) && (o == Done ==> faults == old(faults))
      ensures WellFormed(tree) && DirectoriesMade(old(tree), p, tree)
      ensures o == Done ==> p in tree && tree[p].Dir?
      ensures faults == old(faults) && (forall q :: q in old(tree) && Contains(q, p) ==> old(tree)[q].Dir?) ==> o == Done
      ensures faults == old(faults) ==> o != Crashed
      ensures o.Failed? ==> o.error == Io
    {
      for i := 0 to |p| + 1
        invariant WellFormed(tree) && DirectoriesMade(old(tree), p, tree) && faults == old(faults)
        invariant i > 0 ==> p[..i - 1] in tree && tree[p[..i - 1]].Dir?
      {
        var q := p[..i];
        assert Contains(q, p);
        if q in tree {
          if tree[q].File? {
            return Failed(Io);
          }
        } else {
          o := Strike();
          if o != Done {
            return;
          }
          assert i > 0 ==> Parent(q) == p[..i - 1];
          tree := tree[q := Dir];
        }
      }
      assert p[..|p|] == p;
      o := Done;
    }

    /** A same-volume rename: all or nothing. */
    method Rename(source: Path, destination: Path, kind: Kind) returns (o: Outcome)
      requires WellFormed(tree)
      modifies this`tree, this`faults
      ensures faults >= old(faults) && (o == Done ==> faults == old(faults))
      ensures WellFormed(tree)
      ensures o == Done ==>
        && Exists(old(tree), source, kind) && destination !in old(tree) && !Overlap(source, destination)
        && tree == Moved(old(tree), source, destination)
      ensures o != Done ==> tree == old(tree)
      ensures
        && faults == old(faults) && Exists(old(tree), source, kind) && destination !in old(tree)
        && destination != [] && Parent(destination) in old(tree) && old(tree)[Parent(destination)].Dir?
        && !Overlap(source, destination)
        ==> o == Done
      ensures faults == old(faults) ==> o != Crashed
      ensures o.Failed? ==> o.error == Io
    {
      if
        || !Exists(tree, source, kind) || destination in tree || Overlap(source, destination)
        || destination == [] || Parent(destination) !in tree || tree[Parent(destination)].File?
      {
        return Failed(Io);
      }
      o := Strike();
      if o == Done {
        AbsentSubtree(tree, destination);
        MovedWellFormed(tree, source, destination);
        tree := Moved(tree, source, destination);
      }
    }

    /** Deletes p and everything below it, one childless node at a time. */
    method Delete(p: Path, kind: Kind) returns (o: Outcome)
      requires WellFormed(tree)
      modifies this`tree, this`faults
      ensures faults >= old(faults) && (o == Done ==> faults == old(faults))
      ensures PartlyDeleted(old(tree), p, tree)
      ensures o == Done ==> tree == if Exists(old(tree), p, kind) then Cut(old(tree), p) else old(tree)
      ensures faults == old(faults) ==> o == Done
      ensures o.Failed? ==> o.error == Io
    {
      if !Exists(tree, p, kind) {
        return Done;
      }
      while exists q :: q in tree && Contains(p, q)
        invariant PartlyDeleted(old(tree), p, tree) && faults == old(faults)
        decreases tree.Keys
      {
        ghost var below :| below in tree && Contains(p, below);
        ghost var deepest := Deepest(tree.Keys, p, below);
        var q :| q in tree && Contains(p, q) && forall r :: r in tree && Contains(p, r) ==> |r| <= |q|;
        o := Strike();
        if o != Done {
          return;
        }
        ChildlessDeleted(old(tree), p, tree, q);
        tree := tree - {q};
      }
      assert tree == Cut(old(tree), p);
      o := Done;
    }

    /** The journal is written to a temporary file that is renamed over the old one. */
    method WriteJournal(j: Journal) returns (o: Outcome)
      modifies this`journal, this`faults
      ensures faults >= old(faults) && (o == Done ==> faults == old(faults))
      ensures journal == if o == Done then Some(j) else old(journal)
      ensures faults == old(faults) ==> o == Done
      ensures o.Failed? ==> o.error == Io
    {
      o := Strike();
      if o == Done {
        journal := Some(j);
      }
    }

    method DeleteJournal() returns (o: Outcome)
      modifies this`journal, this`faults
      ensures faults >= old(faults) && (o == Done ==> faults == old(faults))
      ensures journal == if o == Done then None else old(journal)
      ensures faults == old(faults) ==> o == Done
      ensures o.Failed? ==> o.error == Io
    {
      o := Strike();
      if o == Done {
        journal := None;
      }
    }

    /** WriteAtomic of the runtime configuration makes its directory first. Its
        deletion succeeds without the file, but not without the directory. */
    method SetConfig(contents: Option<Bytes>) returns (o: Outcome)
      modifies this`config, this`configDirectory, this`faults
      ensures faults >= old(faults) && (o == Done ==> faults == old(faults))
      ensures config == if o == Done then contents else old(config)
      ensures configDirectory == old(configDirectory) || (configDirectory && contents.Some?)
      ensures o == Done ==> configDirectory
      ensures faults == old(faults) ==> (o == Done <==> contents.Some? || old(configDirectory))
      ensures o.Failed? ==> o.error == Io
    {
      if !configDirectory {
        if contents.None? {
          return Failed(Io);
        }
        o := Strike();
        if o != Done {
          return;
        }
        configDirectory := true;
      }
      o := Strike();
      if o == Done {
        config := contents;
      }
    }
  }
}
