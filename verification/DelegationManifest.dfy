/**
 The frozen delegation manifest: what a snapshot of a path is, how a destination tree is
 read and classified against a manifest, and when a tree is one that an interrupted apply
 or rollback can have left behind.

 SHA-256 is symbolic: a digest carries the bytes it was computed from, so two digests are
 equal exactly when the contents are.  `Text` is a digest somebody wrote down that no hash
 computation of ours produced.
 */
module DelegationManifest {
  import opened Basics

  const MAX_ARTIFACT_FILES: nat := 10_000
  const MAX_ARTIFACT_BYTES: nat := 512 * 1024 * 1024

  /** A relative path, as the list of its components. */
  type Path = seq<string>

  /** Permission bits (`mode & 0o777`). */
  type Mode = m: nat | m < 512

  datatype Digest = Sha256(of: Bytes) | Text(hex: string)

  datatype Kind = MissingKind | RegularKind

  datatype Snapshot = Snapshot(kind: Kind, digest: Digest, bytes: nat, fileMode: nat)

  datatype FileArtifact = FileArtifact(
    path: Path, pre: Snapshot, post: Snapshot,
    prePayload: Option<string>, postPayload: Option<string>)

  datatype Identity = Identity(head: string, branch: Option<string>, indexTree: string)

  datatype Manifest = Manifest(
    version: nat, transactionId: string, source: Identity, destination: Identity,
    files: seq<FileArtifact>)

  datatype Classification = AllPre | AllPost | MixedKnown | Divergent

  // ---------------------------------------------------------------- trees

  datatype Node = File(bytes: Bytes, mode: Mode, links: nat) | Symlink

  datatype Tree = Tree(files: map<Path, Node>, dirs: set<Path>)

  /** A path of the commit a worktree has checked out. */
  datatype Tracked = TrackedFile(bytes: Bytes, executable: bool) | TrackedLink

  predicate SameAsHead(node: Node, tracked: Tracked) {
    match (node, tracked)
    case (File(bytes, mode, _), TrackedFile(b, executable)) =>
      bytes == b && (mode / 64 % 2 == 1) == executable
    case (Symlink, TrackedLink) => true
    case _ => false
  }

  /** `git status` without untracked files prints nothing. */
  predicate CleanTree(files: map<Path, Node>, head: map<Path, Tracked>) {
    forall p | p in head :: p in files && SameAsHead(files[p], head[p])
  }

  /**
   A worktree is clean when every tracked path is there with its content, its type and its owner's
   execute bit; other bits, links and untracked files do not count.
   */
  lemma CleanMeaning(files: map<Path, Node>, head: map<Path, Tracked>)
    ensures CleanTree(files, head) <==>
            forall p :: p in head ==>
              && p in files
              && match head[p]
                 case TrackedLink => files[p] == Symlink
                 case TrackedFile(bytes, executable) =>
                   files[p].File? && files[p].bytes == bytes && (files[p].mode / 64 % 2 == 1 <==> executable)
  {
    if !CleanTree(files, head) {
      var p :| p in head && !(p in files && SameAsHead(files[p], head[p]));
    }
  }

  function MissingSnapshot(): Snapshot {
    Snapshot(MissingKind, Sha256([]), 0, 0)
  }

  function RegularSnapshot(bytes: Bytes, mode: Mode): Snapshot {
    Snapshot(RegularKind, Sha256(bytes), |bytes|, mode)
  }

  predicate SafeComponent(c: string) {
    c != "" && c != "." && c != ".." && '\0' !in c && '/' !in c
  }

  predicate SafePath(p: Path) {
    p != [] && forall c | c in p :: SafeComponent(c)
  }

  /** Some ancestor of `p` is a file or a symlink, so nothing below it can be reached. */
  predicate Blocked(files: map<Path, Node>, p: Path) {
    exists a | a in files :: a < p
  }

  /** `capture_snapshot`: the snapshot of a path and its bytes, or a refusal to read it. */
  function Capture(t: Tree, p: Path): Option<(Snapshot, Option<Bytes>)> {
    if !SafePath(p) || Blocked(t.files, p) || p in t.dirs then None
    else if p !in t.files then Some((MissingSnapshot(), None))
    else match t.files[p]
      case Symlink => None
      case File(bytes, mode, links) =>
        if links != 1 then None else Some((RegularSnapshot(bytes, mode), Some(bytes)))
  }

  function Current(t: Tree, p: Path): Option<Snapshot> {
    match Capture(t, p)
    case None => None
    case Some(c) => Some(c.0)
  }

  // ------------------------------------------------- classification, declaratively

  predicate Paired(t: Tree, f: FileArtifact) {
    Current(t, f.path) == Some(f.pre) || Current(t, f.path) == Some(f.post)
  }

  predicate StrictlyPre(t: Tree, f: FileArtifact) {
    Current(t, f.path) == Some(f.pre) && f.pre != f.post
  }

  predicate StrictlyPost(t: Tree, f: FileArtifact) {
    Current(t, f.path) == Some(f.post) && f.pre != f.post
  }

  /** What each answer of `classify_manifest` claims about the tree. */
  ghost predicate Means(c: Classification, t: Tree, files: seq<FileArtifact>) {
    match c
    case Divergent => exists f :: f in files && !Paired(t, f)
    case AllPre =>
      && (forall f :: f in files ==> Current(t, f.path) == Some(f.pre))
      && (exists f :: f in files && f.pre != f.post)
    case AllPost => forall f :: f in files ==> Current(t, f.path) == Some(f.post)
    case MixedKnown =>
      && (forall f :: f in files ==> Paired(t, f))
      && (exists f :: f in files && StrictlyPre(t, f))
      && (exists f :: f in files && StrictlyPost(t, f))
  }

  /** The four claims partition the states: exactly one holds of any tree and manifest. */
  lemma ClassesPartition(t: Tree, files: seq<FileArtifact>)
    ensures exists c :: Means(c, t, files)
    ensures forall c, d :: Means(c, t, files) && Means(d, t, files) ==> c == d
  {
    if forall f :: f in files ==> Paired(t, f) {
      if exists f :: f in files && StrictlyPre(t, f) {
        if exists f :: f in files && StrictlyPost(t, f) {
          assert Means(MixedKnown, t, files);
        } else {
          assert Means(AllPre, t, files);
        }
      } else {
        assert Means(AllPost, t, files);
      }
    } else {
      assert Means(Divergent, t, files);
    }
  }

  // ------------------------------------------------------------ frozen manifests

  /** A snapshot that some capture produced. */
  predicate Genuine(s: Snapshot) {
    || s == MissingSnapshot()
    || (s.kind.RegularKind? && s.digest.Sha256? && s.bytes == |s.digest.of| && s.fileMode < 512)
  }

  predicate AllMissing(f: FileArtifact) {
    f.pre.kind.MissingKind? && f.post.kind.MissingKind?
  }

  predicate DistinctPaths(files: seq<FileArtifact>) {
    forall i, j | 0 <= i < j < |files| :: files[i].path != files[j].path
  }

  /** No path with content lies below or above another manifest path. */
  predicate Independent(files: seq<FileArtifact>) {
    forall f, g | f in files && g in files && f.path < g.path :: AllMissing(f) && AllMissing(g)
  }

  predicate Frozen(files: seq<FileArtifact>) {
    && DistinctPaths(files)
    && Independent(files)
    && forall f | f in files :: SafePath(f.path) && Genuine(f.pre) && Genuine(f.post)
  }

  /** What installing `s` leaves at its path: `None` for a removed file. */
  function Image(s: Snapshot): Option<Node> {
    if s.kind.MissingKind? then None
    else Some(File(if s.digest.Sha256? then s.digest.of else [], s.fileMode % 512, 1))
  }

  predicate Holds(files: map<Path, Node>, p: Path, s: Snapshot) {
    match Image(s)
    case None => p !in files
    case Some(node) => p in files && files[p] == node
  }

  function Put(files: map<Path, Node>, p: Path, s: Snapshot): map<Path, Node> {
    match Image(s)
    case None => files - {p}
    case Some(node) => files[p := node]
  }

  /** Every manifest path reads as its preimage: the state `prepare` froze. */
  ghost predicate ReadsPre(files: seq<FileArtifact>, base: Tree) {
    forall f :: f in files ==> Current(base, f.path) == Some(f.pre)
  }

  ghost predicate InManifest(files: seq<FileArtifact>, p: Path) {
    exists f :: f in files && f.path == p
  }

  ghost predicate SameOutside(files: seq<FileArtifact>, a: map<Path, Node>, b: map<Path, Node>) {
    forall p :: !InManifest(files, p) ==> (p in a <==> p in b) && (p in a ==> a[p] == b[p])
  }

  /** Directories beyond the base ones lie above a manifest path that has content. */
  ghost predicate OnlyParents(files: seq<FileArtifact>, before: set<Path>, after: set<Path>) {
    && before <= after
    && forall d :: d in after && d !in before ==>
         exists f :: f in files && !AllMissing(f) && d < f.path
  }

  /**
   A tree an interrupted run can leave: every manifest path holds exactly its preimage or its
   postimage, every other path is what it was, and only parent directories were added.
   */
  ghost predicate Known(files: seq<FileArtifact>, base: Tree, t: Tree) {
    && OnlyParents(files, base.dirs, t.dirs)
    && SameOutside(files, base.files, t.files)
    && forall f :: f in files ==> Holds(t.files, f.path, f.pre) || Holds(t.files, f.path, f.post)
  }

  /** The manifest was frozen from `base`. */
  ghost predicate FrozenFrom(files: seq<FileArtifact>, base: Tree) {
    Frozen(files) && ReadsPre(files, base)
  }

  /** Nothing our runs write lies above a manifest path. */
  lemma KnownUnblocked(files: seq<FileArtifact>, base: Tree, t: Tree, f: FileArtifact)
    requires FrozenFrom(files, base) && Known(files, base, t) && f in files
    ensures !Blocked(t.files, f.path)
  {
  }

  /** In a known tree a manifest path can be read, and it reads as what it holds. */
  lemma KnownReads(files: seq<FileArtifact>, base: Tree, t: Tree, f: FileArtifact)
    requires FrozenFrom(files, base) && Known(files, base, t) && f in files
    ensures Holds(t.files, f.path, f.pre) <==> Current(t, f.path) == Some(f.pre)
    ensures Holds(t.files, f.path, f.post) <==> Current(t, f.path) == Some(f.post)
    ensures Paired(t, f)
  {
    KnownUnblocked(files, base, t, f);
    HoldsIsRead(t, f.path, f.pre);
    HoldsIsRead(t, f.path, f.post);
  }

  lemma HoldsIsRead(t: Tree, p: Path, s: Snapshot)
    requires SafePath(p) && !Blocked(t.files, p) && p !in t.dirs && Genuine(s)
    ensures Holds(t.files, p, s) <==> Current(t, p) == Some(s)
  {
  }

  /** Recovery never answers Divergent on a tree that only our own runs touched. */
  lemma KnownNeverDivergent(files: seq<FileArtifact>, base: Tree, t: Tree)
    requires FrozenFrom(files, base) && Known(files, base, t)
    ensures !Means(Divergent, t, files)
  {
    forall f | f in files ensures Paired(t, f) { KnownReads(files, base, t, f); }
  }

  /** A known tree that reads AllPre is the frozen tree again, file for file. */
  lemma AllPreIsBase(files: seq<FileArtifact>, base: Tree, t: Tree)
    requires FrozenFrom(files, base) && Known(files, base, t)
    requires forall f :: f in files ==> Current(t, f.path) == Some(f.pre)
    ensures t.files == base.files
  {
    BaseIsKnown(files, base);
    forall p ensures (p in t.files <==> p in base.files) && (p in t.files ==> t.files[p] == base.files[p]) {
      if InManifest(files, p) {
        var f :| f in files && f.path == p;
        KnownReads(files, base, t, f);
        KnownReads(files, base, base, f);
      }
    }
  }

  lemma BaseIsKnown(files: seq<FileArtifact>, base: Tree)
    requires FrozenFrom(files, base)
    ensures Known(files, base, base)
  {
    forall f | f in files ensures Holds(base.files, f.path, f.pre) {
      assert Current(base, f.path) == Some(f.pre);
    }
  }

  /** Installing either image of a manifest path keeps the tree known. */
  lemma PutKeepsKnown(files: seq<FileArtifact>, base: Tree, t: Tree, f: FileArtifact, s: Snapshot)
    requires Frozen(files) && Known(files, base, t) && f in files && (s == f.pre || s == f.post)
    ensures Known(files, base, t.(files := Put(t.files, f.path, s)))
  {
    var t' := t.(files := Put(t.files, f.path, s));
    forall g | g in files ensures Holds(t'.files, g.path, g.pre) || Holds(t'.files, g.path, g.post) {
      if g.path == f.path {
        assert g == f;
        assert Holds(t'.files, f.path, s);
      } else {
      }
    }
    forall p | !InManifest(files, p)
      ensures (p in t'.files <==> p in base.files) && (p in t'.files ==> t'.files[p] == base.files[p])
    {
      assert p != f.path;
    }
  }

}
