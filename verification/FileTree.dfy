/** The file system as one map from paths to nodes, with the few operations an
    installation performs on it: create the directories above a path, rename a
    subtree, delete a subtree completely or only partly. */
module FileTree {

  /** A normalised path, one component per element, outermost first. Names are
      compared for equality, so a name stands for its case-folded spelling. */
  type Path = seq<string>

  type Bytes = seq<bv8>

  datatype Node = Dir | File(bytes: Bytes)

  datatype Kind = Directory | RegularFile

  type Tree = map<Path, Node>

  function Parent(p: Path): Path
    requires p != []
  {
    p[..|p| - 1]
  }

  /** Whether candidate is container or lies below it. */
  predicate Contains(container: Path, candidate: Path) {
    container <= candidate
  }

  predicate Overlap(left: Path, right: Path) {
    Contains(left, right) || Contains(right, left)
  }

  /** Whether p lies strictly above q. */
  predicate Above(p: Path, q: Path) {
    p <= q && p != q
  }

  predicate Exists(t: Tree, p: Path, kind: Kind) {
    p in t && (t[p].Dir? <==> kind.Directory?)
  }

  predicate ExistsAsOtherKind(t: Tree, p: Path, kind: Kind) {
    p in t && (t[p].Dir? <==> kind.RegularFile?)
  }

  /** Every node has its parent directory. */
  ghost predicate WellFormed(t: Tree) {
    forall p :: p in t && p != [] ==> Parent(p) in t && t[Parent(p)].Dir?
  }

  /** Everything at and below p, addressed relative to p. */
  ghost function At(t: Tree, p: Path): imap<Path, Node> {
    imap r: Path | p + r in t :: t[p + r]
  }

  ghost const Nothing: imap<Path, Node> := imap[]

  /** The two trees agree on whether q is there and on what it is. */
  ghost predicate SameNode(t: Tree, u: Tree, q: Path) {
    (q in t <==> q in u) && (q in t ==> t[q] == u[q])
  }

  ghost predicate SameOutside(t: Tree, u: Tree, inside: set<Path>) {
    forall q :: (forall p :: p in inside ==> !Contains(p, q)) ==> SameNode(t, u, q)
  }

  /** u is t with some of the missing directories on the way to p, p included. */
  ghost predicate DirectoriesMade(t: Tree, p: Path, u: Tree) {
    && (forall q :: q in t ==> q in u && u[q] == t[q])
    && (forall q :: q in u && q !in t ==> Contains(q, p) && u[q] == Dir)
  }

  /** t without p and everything below it. */
  function Cut(t: Tree, p: Path): Tree {
    map q | q in t && !Contains(p, q) :: t[q]
  }

  /** The rename of source to destination. */
  function Moved(t: Tree, source: Path, destination: Path): Tree {
    var carried := set q | q in t && Contains(source, q) :: destination + q[|source|..];
    Cut(t, source) +
    map q | q in carried && Contains(destination, q) && source + q[|destination|..] in t
      :: t[source + q[|destination|..]]
  }

  /** What an interrupted recursive delete of p may leave: any part of the
      subtree in which every node still has its parent. */
  ghost predicate PartlyDeleted(t: Tree, p: Path, left: Tree) {
    && (forall q :: q in left ==> q in t && left[q] == t[q])
    && (forall q :: q in t && !Contains(p, q) ==> q in left)
    && WellFormed(left)
  }

  lemma DisjointBelow(a: Path, b: Path, q: Path)
    requires !Overlap(a, b) && Contains(a, q)
    ensures !Contains(b, q)
  {
  }

  lemma Rejoin(p: Path, q: Path)
    requires Contains(p, q)
    ensures p + q[|p|..] == q
  {
  }

  lemma SameSubtree(t: Tree, u: Tree, p: Path)
    requires forall q :: Contains(p, q) ==> SameNode(t, u, q)
    ensures At(t, p) == At(u, p)
  {
    forall r: Path
      ensures p + r in t <==> p + r in u
      ensures p + r in t ==> t[p + r] == u[p + r]
    {
      assert Contains(p, p + r);
      assert SameNode(t, u, p + r);
    }
  }

  /** The same as SameSubtree read backwards. */
  lemma SubtreeNodes(t: Tree, u: Tree, p: Path, q: Path)
    requires At(t, p) == At(u, p) && Contains(p, q)
    ensures SameNode(t, u, q)
  {
    Rejoin(p, q);
    var r := q[|p|..];
    assert r in At(t, p) <==> r in At(u, p);
  }

  lemma EmptyBelow(t: Tree, p: Path, q: Path)
    requires At(t, p) == Nothing && Contains(p, q)
    ensures q !in t
  {
    Rejoin(p, q);
    assert q[|p|..] !in At(t, p);
  }

  lemma AbsentSubtree(t: Tree, p: Path)
    requires WellFormed(t)
    ensures p !in t <==> At(t, p) == Nothing
  {
    if p !in t {
      forall r: Path ensures p + r !in t {
        NothingBelow(t, p, r);
      }
    } else {
      assert p + [] == p;
      assert [] in At(t, p);
    }
  }

  lemma {:induction false} NothingBelow(t: Tree, p: Path, r: Path)
    requires WellFormed(t) && p !in t
    ensures p + r !in t
    decreases |r|
  {
    if r == [] {
      assert p + r == p;
    } else {
      NothingBelow(t, p, Parent(r));
      assert Parent(p + r) == p + Parent(r);
    }
  }

  /** A rename carries the whole subtree, empties the source and changes
      nothing outside the two. */
  lemma MovedSubtree(t: Tree, source: Path, destination: Path)
    requires !Overlap(source, destination) && At(t, destination) == Nothing
    ensures At(Moved(t, source, destination), destination) == At(t, source)
    ensures At(Moved(t, source, destination), source) == Nothing
    ensures SameOutside(t, Moved(t, source, destination), {source, destination})
  {
    var u := Moved(t, source, destination);
    forall r: Path
      ensures destination + r in u <==> source + r in t
      ensures source + r in t ==> u[destination + r] == t[source + r]
    {
      var q := destination + r;
      assert q[|destination|..] == r;
      DisjointBelow(destination, source, q);
      if source + r in t {
        assert Contains(source, source + r) && (source + r)[|source|..] == r;
      }
      assert r !in At(t, destination);
    }
    forall r: Path ensures source + r !in u {
      DisjointBelow(source, destination, source + r);
      assert Contains(source, source + r);
    }
    forall q | !Contains(source, q) && !Contains(destination, q)
      ensures SameNode(t, u, q)
    {
      assert forall p :: p in t && Contains(source, p) ==> Contains(destination, destination + p[|source|..]);
    }
  }

  lemma MovedWellFormed(t: Tree, source: Path, destination: Path)
    requires WellFormed(t) && !Overlap(source, destination) && At(t, destination) == Nothing
    requires source in t
    requires destination != [] && Parent(destination) in t && t[Parent(destination)].Dir?
    ensures WellFormed(Moved(t, source, destination))
  {
    var u := Moved(t, source, destination);
    MovedSubtree(t, source, destination);
    forall q | q in u && q != []
      ensures Parent(q) in u && u[Parent(q)].Dir?
    {
      if Contains(destination, q) {
        Rejoin(destination, q);
        MovedNodeHasParent(t, source, destination, u, q[|destination|..]);
      } else {
        KeptNodeHasParent(t, source, destination, u, q);
      }
    }
  }

  lemma MovedNodeHasParent(t: Tree, source: Path, destination: Path, u: Tree, r: Path)
    requires WellFormed(t) && !Overlap(source, destination)
    requires destination != [] && Parent(destination) in t && t[Parent(destination)].Dir?
    requires At(u, destination) == At(t, source) && SameOutside(t, u, {source, destination})
    requires destination + r in u
    ensures Parent(destination + r) in u && u[Parent(destination + r)].Dir?
  {
    assert r in At(u, destination);
    if r == [] {
      assert destination + r == destination;
      assert !Contains(source, Parent(destination)) && !Contains(destination, Parent(destination));
      assert SameNode(t, u, Parent(destination));
    } else {
      assert Parent(source + r) == source + Parent(r);
      assert Parent(destination + r) == destination + Parent(r);
      assert source + r in t;
      assert Parent(r) in At(t, source);
      assert Parent(r) in At(u, destination);
    }
  }

  lemma KeptNodeHasParent(t: Tree, source: Path, destination: Path, u: Tree, q: Path)
    requires WellFormed(t)
    requires At(u, source) == Nothing && SameOutside(t, u, {source, destination})
    requires q in u && q != [] && !Contains(destination, q)
    ensures Parent(q) in u && u[Parent(q)].Dir?
  {
    assert !Contains(source, q) by {
      if Contains(source, q) {
        EmptyBelow(u, source, q);
      }
    }
    assert SameNode(t, u, q);
    assert SameNode(t, u, Parent(q)) by {
      assert Contains(Parent(q), q);
    }
  }

  lemma CutWellFormed(t: Tree, p: Path)
    requires WellFormed(t)
    ensures WellFormed(Cut(t, p)) && At(Cut(t, p), p) == Nothing
    ensures PartlyDeleted(t, p, Cut(t, p))
  {
    assert forall r: Path :: Contains(p, p + r);
  }

  /** One node at p or below it, with nothing under it, can go next. */
  lemma ChildlessDeleted(t: Tree, p: Path, left: Tree, q: Path)
    requires PartlyDeleted(t, p, left) && q in left && Contains(p, q)
    requires forall r :: r in left && Contains(p, r) ==> |r| <= |q|
    ensures PartlyDeleted(t, p, left - {q})
  {
    forall r | r in left && r != q && r != []
      ensures Parent(r) in left && Parent(r) != q && left[Parent(r)].Dir?
    {
      assert Contains(Parent(r), r);
      assert Contains(p, Parent(r)) ==> Contains(p, r);
    }
  }
}
