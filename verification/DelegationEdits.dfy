/**
 Somebody else edits the destination while a delegation is applied to it: between any two
 operations, and between the check and the write inside one.
 */
module DelegationEdits {
  import opened Basics
  import opened DelegationManifest
  import opened DelegationArtifacts
  import opened DelegationDestination

  /** An operation of ours, cut off anywhere, or anything that someone else makes of the tree. */
  datatype Event = Run(op: Operation) | Edit(change: Tree -> Tree)

  type Reply = Option<Outcome<Answer>>

  /** What one event can make of a tree, and how it is answered. */
  ghost predicate Turn(fs: seq<FileArtifact>, e: Event, reply: Reply, t: Tree, t': Tree) {
    match e
    case Run(op) =>
      && reply.Some? && Answers(op, reply.value, fs, t, t')
      && Kept(fs, t.files, t'.files) && (Means(Divergent, t, fs) ==> t' == t)
    case Edit(change) => t' == change(t)
  }

  /** `trees` are the trees before, between and after the events. */
  ghost predicate Trace(fs: seq<FileArtifact>, events: seq<Event>, replies: seq<Reply>, trees: seq<Tree>) {
    && |trees| == |events| + 1 && |replies| == |events|
    && forall k | 0 <= k < |events| :: Turn(fs, events[k], replies[k], trees[k], trees[k + 1])
  }

  lemma OneMoreTurn(fs: seq<FileArtifact>, events: seq<Event>, replies: seq<Reply>, trees: seq<Tree>,
                    e: Event, reply: Reply, t: Tree)
    requires Trace(fs, events, replies, trees) && Turn(fs, e, reply, trees[|events|], t)
    ensures Trace(fs, events + [e], replies + [reply], trees + [t])
  {
  }

  /** No edit from `i` to `j` touches `p`. */
  ghost predicate NotEdited(events: seq<Event>, trees: seq<Tree>, p: Path, i: nat, j: nat)
    requires |trees| == |events| + 1 && i <= j <= |events|
  {
    forall k | i <= k < j && events[k].Edit? :: SameAt(trees[k].files, trees[k + 1].files, p)
  }

  /**
   No edit is lost: what is at a path stays until it is edited again, unless it is one of the two
   frozen images of a manifest path, and then only the other one can take its place.
   */
  lemma {:induction false} EditsStay(
    fs: seq<FileArtifact>, events: seq<Event>, replies: seq<Reply>, trees: seq<Tree>, p: Path, i: nat, j: nat)
    requires Trace(fs, events, replies, trees) && i <= j <= |events| && NotEdited(events, trees, p, i, j)
    ensures SameAt(trees[i].files, trees[j].files, p)
            || (HoldsImage(fs, trees[i].files, p) && HoldsImage(fs, trees[j].files, p))
    decreases j
  {
    if i < j {
      EditsStay(fs, events, replies, trees, p, i, j - 1);
      assert Turn(fs, events[j - 1], replies[j - 1], trees[j - 1], trees[j]);
      SameImage(fs, trees[i].files, trees[j - 1].files, p);
      SameImage(fs, trees[j - 1].files, trees[j].files, p);
    }
  }

  lemma SameImage(fs: seq<FileArtifact>, a: map<Path, Node>, b: map<Path, Node>, p: Path)
    ensures SameAt(a, b, p) ==> (HoldsImage(fs, a, p) <==> HoldsImage(fs, b, p))
  {
    assert SameAt(a, b, p) ==> forall f | f in fs && f.path == p ::
        (Holds(a, p, f.pre) <==> Holds(b, p, f.pre)) && (Holds(a, p, f.post) <==> Holds(b, p, f.post));
  }

  /** Every edit from `i` to `j` leaves what is read at `p`. */
  ghost predicate SameReading(events: seq<Event>, trees: seq<Tree>, p: Path, i: nat, j: nat)
    requires |trees| == |events| + 1 && i <= j <= |events|
  {
    forall k | i <= k < j && events[k].Edit? :: Current(trees[k], p) == Current(trees[k + 1], p)
  }

  /** As long as one manifest path reads as neither of its images, no operation writes anything. */
  lemma {:induction false} DivergenceStopsAll(
    fs: seq<FileArtifact>, events: seq<Event>, replies: seq<Reply>, trees: seq<Tree>, f: FileArtifact, i: nat, j: nat)
    requires Trace(fs, events, replies, trees) && i <= j <= |events|
    requires f in fs && !Paired(trees[i], f) && SameReading(events, trees, f.path, i, j)
    ensures !Paired(trees[j], f)
    ensures forall k | i <= k < j && events[k].Run? :: trees[k + 1] == trees[k]
    decreases j
  {
    if i < j {
      DivergenceStopsAll(fs, events, replies, trees, f, i, j - 1);
      assert Turn(fs, events[j - 1], replies[j - 1], trees[j - 1], trees[j]);
    }
  }

  // ------------------------------------------------------------- edits beside

  /** An edit of other paths, which puts nothing in the way of a manifest path either. */
  ghost predicate Beside(fs: seq<FileArtifact>, t: Tree, t': Tree) {
    forall f :: f in fs ==>
      && SameAt(t.files, t'.files, f.path)
      && (!Blocked(t.files, f.path) ==> !Blocked(t'.files, f.path))
      && (f.path !in t.dirs ==> f.path !in t'.dirs)
  }

  ghost predicate AllBeside(fs: seq<FileArtifact>, events: seq<Event>) {
    forall e :: e in events && e.Edit? ==> forall t :: Beside(fs, t, e.change(t))
  }

  /** The tree the manifest would have been frozen from, had the edits come first. */
  ghost function Rebased(fs: seq<FileArtifact>, base: Tree, t: Tree): Tree {
    Tree(map p | p in base.files.Keys + t.files.Keys && p in (if InManifest(fs, p) then base else t).files
             :: (if InManifest(fs, p) then base else t).files[p],
         t.dirs)
  }

  /** After an edit beside the manifest the tree is one of ours again, of the rebased frozen tree. */
  lemma EditRebases(fs: seq<FileArtifact>, base: Tree, t: Tree, t': Tree)
    requires Ours(fs, base, t) && Beside(fs, t, t')
    ensures Ours(fs, Rebased(fs, base, t'), t')
    ensures forall f :: f in fs ==> SameAt(base.files, Rebased(fs, base, t').files, f.path)
  {
    var base' := Rebased(fs, base, t');
    BaseIsKnown(fs, base);
    forall f | f in fs
      ensures SameAt(base.files, base'.files, f.path) && Current(base', f.path) == Some(f.pre)
      ensures Holds(t'.files, f.path, f.pre) || Holds(t'.files, f.path, f.post)
    {
      assert InManifest(fs, f.path) && SameAt(t.files, t'.files, f.path);
      KnownReadyForInstall(fs, base, t, f);
      RebasedUnblocked(fs, base, t', f);
      KnownReads(fs, base, base, f);
      HoldsIsRead(base', f.path, f.pre);
    }
    assert SameOutside(fs, base'.files, t'.files);
  }

  lemma RebasedUnblocked(fs: seq<FileArtifact>, base: Tree, t: Tree, f: FileArtifact)
    requires FrozenFrom(fs, base) && f in fs && !Blocked(t.files, f.path)
    ensures !Blocked(Rebased(fs, base, t).files, f.path)
  {
    assert Current(base, f.path) == Some(f.pre);
  }

  /** One event.  `now` is what the manifest counts as frozen from after it. */
  method Happen(worktree: Destination, e: Event, m: Manifest, fold: Path -> Path, ghost base: Tree)
    returns (answer: Reply, ghost now: Tree)
    requires ValidManifest(m, fold)
    modifies worktree
    ensures Turn(m.files, e, answer, old(worktree.State()), worktree.State()) && worktree.clock >= old(worktree.clock)
    ensures Ours(m.files, base, old(worktree.State())) && AllBeside(m.files, [e]) ==>
              && Ours(m.files, now, worktree.State()) && answer != Some(Done(Class(Divergent)))
              && forall f :: f in m.files ==> SameAt(base.files, now.files, f.path)
  {
    answer, now := None, base;
    match e {
      case Run(op) =>
        var a := worktree.Operate(op, m, fold, base);
        answer := Some(a);
      case Edit(change) =>
        var before := worktree.State();
        var t := change(before);
        worktree.files, worktree.dirs := t.files, t.dirs;
        if Ours(m.files, base, before) && AllBeside(m.files, [e]) {
          assert e in [e] && Beside(m.files, before, t);
          EditRebases(m.files, base, before, t);
          now := Rebased(m.files, base, t);
        }
    }
  }

  /** Any operations and edits, in any order. */
  method OperateAmidEdits(worktree: Destination, events: seq<Event>, m: Manifest, fold: Path -> Path, ghost base: Tree)
    returns (answers: seq<Reply>, ghost trees: seq<Tree>, ghost now: Tree)
    requires ValidManifest(m, fold)
    modifies worktree
    ensures Trace(m.files, events, answers, trees)
    ensures trees[0] == old(worktree.State()) && trees[|events|] == worktree.State()
    ensures worktree.clock >= old(worktree.clock)
    ensures Ours(m.files, base, old(worktree.State())) && AllBeside(m.files, events) ==>
              && Ours(m.files, now, worktree.State())
              && (forall f :: f in m.files ==> SameAt(base.files, now.files, f.path))
              && (forall a :: a in answers ==> a != Some(Done(Class(Divergent))))
  {
    answers, trees, now := [], [worktree.State()], base;
    ghost var ours := Ours(m.files, base, worktree.State()) && AllBeside(m.files, events);
    for i := 0 to |events|
      invariant Trace(m.files, events[..i], answers, trees)
      invariant trees[0] == old(worktree.State()) && trees[i] == worktree.State()
      invariant worktree.clock >= old(worktree.clock)
      invariant ours ==> Ours(m.files, now, worktree.State())
      invariant ours ==> forall f :: f in m.files ==> SameAt(base.files, now.files, f.path)
      invariant ours ==> forall a :: a in answers ==> a != Some(Done(Class(Divergent)))
    {
      assert ours ==> AllBeside(m.files, [events[i]]) by { assert events[i] in events; }
      var answer;
      answer, now := Happen(worktree, events[i], m, fold, now);
      OneMoreTurn(m.files, events[..i], answers, trees, events[i], answer, worktree.State());
      assert events[..i] + [events[i]] == events[..i + 1];
      answers := answers + [answer];
      trees := trees + [worktree.State()];
    }
    assert events[..|events|] == events;
  }

  /**
   Work that goes on beside an interrupted delegation survives its rollback: the manifest paths are
   what they were when it was frozen, and every other path is what the edits made of it.
   */
  method RollBackAmidEdits(
    worktree: Destination, events: seq<Event>, dir: TransactionDir, m: Manifest, fold: Path -> Path, calmFrom: nat,
    ghost base: Tree) returns (last: Outcome<Answer>, answers: seq<Reply>, ghost trees: seq<Tree>)
    requires ValidManifest(m, fold) && Ours(m.files, base, worktree.State()) && AllBeside(m.files, events)
    requires forall n: nat | calmFrom <= n :: worktree.fate(n) == Go
    modifies worktree
    ensures Trace(m.files, events, answers, trees) && trees[0] == old(worktree.State())
    ensures SameOutside(m.files, trees[|events|].files, worktree.files)
    ensures last == Done(RolledBack) ==> forall f :: f in m.files ==> SameAt(base.files, worktree.files, f.path)
    ensures Loads(m, dir, fold) && Intact(dir.payloads, m.files) && Changes(m.files)
            ==> last == Done(RolledBack) || Torn(worktree.temps, m.files)
  {
    ghost var now;
    answers, trees, now := OperateAmidEdits(worktree, events, m, fold, base);
    last := worktree.OperateThenRollBack([], dir, m, fold, calmFrom, now);
  }

  // ------------------------------------------------- an edit inside one operation

  /**
   An edit between the check of a path and its install is overwritten exactly when it leaves a
   regular file or nothing there, and then the last check does not notice.
   */
  method InstallAfterEdit(worktree: Destination, f: FileArtifact, payload: Option<Bytes>, edited: Tree)
    returns (before: Classification, o: Outcome<()>, after: Classification)
    requires SafePath(f.path) && Genuine(f.post) && f.path !in worktree.temps && worktree.Calm()
    requires f.post.kind.RegularKind? ==> payload == Some(f.post.digest.of)
    modifies worktree
    ensures Means(before, old(worktree.State()), [f])
    ensures o.Done? <==> Replaceable(edited, f.path)
    ensures worktree.files == if Replaceable(edited, f.path) then Put(edited.files, f.path, f.post) else edited.files
    ensures o.Done? ==> after == AllPost
  {
    before := worktree.Classify([f]);
    worktree.files, worktree.dirs := edited.files, edited.dirs;
    o := worktree.Install(f.path, f.post, payload);
    if o.Done? {
      assert Holds(worktree.files, f.path, f.post);
      HoldsIsRead(worktree.State(), f.path, f.post);
    }
    after := worktree.Classify([f]);
    ClassesPartition(worktree.State(), [f]);
  }
}
