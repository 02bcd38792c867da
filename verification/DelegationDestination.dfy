/**
 The destination worktree under an apply or a rollback.  Every filesystem step asks the
 environment for its fate, so one call of a method stands for every run of it: one that
 finishes, one that meets an I/O error at any step, and one whose process dies between any
 two steps or in the middle of writing a temp file.
 */
module DelegationDestination {
  import opened Basics
  import opened DelegationManifest
  import opened DelegationArtifacts

  /** What happens to the next step.  A failed or killed temp write can leave partial content. */
  datatype Fate =
    | Go
    | Fail(partial: Option<(Bytes, Mode)>)
    | Die(partial: Option<(Bytes, Mode)>)

  datatype Outcome<+T> = Done(value: T) | Refused(reason: Reason) | Died

  /** A leftover temp file that holds one of its path's two frozen images. */
  predicate KnownTemp(node: Node, f: FileArtifact) {
    && node.File? && node.links == 1
    && (RegularSnapshot(node.bytes, node.mode) == f.pre || RegularSnapshot(node.bytes, node.mode) == f.post)
  }

  predicate TornAt(temps: map<Path, Node>, f: FileArtifact) {
    f.path in temps && !KnownTemp(temps[f.path], f)
  }

  /** A temp file is known exactly when it is what an install of one of the two images would write. */
  lemma KnownTempIsImage(node: Node, f: FileArtifact)
    requires Genuine(f.pre) && Genuine(f.post)
    ensures KnownTemp(node, f) <==> Image(f.pre) == Some(node) || Image(f.post) == Some(node)
  {
  }

  ghost predicate Torn(temps: map<Path, Node>, files: seq<FileArtifact>) {
    exists f :: f in files && TornAt(temps, f)
  }

  class Destination {
    var files: map<Path, Node>
    var dirs: set<Path>
    /** The deterministic temp file of this transaction beside each target, keyed by the target. */
    var temps: map<Path, Node>
    var clock: nat
    const fate: nat -> Fate
    const head: map<Path, Tracked>

    constructor (tree: Tree, head: map<Path, Tracked>, fate: nat -> Fate)
      ensures State() == tree && temps == map[] && this.head == head && this.fate == fate
    {
      this.files, this.dirs := tree.files, tree.dirs;
      this.temps := map[];
      this.clock := 0;
      this.head, this.fate := head, fate;
    }

    function State(): Tree
      reads this
    {
      Tree(files, dirs)
    }

    /** From now on every step succeeds. */
    ghost predicate Calm()
      reads this
    {
      forall n: nat :: clock <= n ==> fate(n) == Go
    }

    predicate Clean()
      reads this
    {
      CleanTree(files, head)
    }

    /** No temp write is ever torn: one that does not go through leaves nothing. */
    ghost predicate Untearing() {
      forall n: nat :: fate(n).Go? || fate(n).partial.None?
    }

    /** A step with no effect on the tree: a Git query, a directory sync. */
    method Probe(onFail: Reason) returns (o: Outcome<()>)
      modifies this`clock
      ensures clock > old(clock)
      ensures old(Calm()) ==> o.Done?
    {
      var f := fate(clock);
      clock := clock + 1;
      o := match f case Go => Done(()) case Fail(_) => Refused(onFail) case Die(_) => Died;
    }

    /** `create_destination_parent`: creates the missing directories above `p`, top down. */
    method MakeParents(p: Path) returns (o: Outcome<()>)
      requires SafePath(p)
      modifies this`clock, this`dirs
      ensures clock >= old(clock)
      ensures old(dirs) <= dirs
      ensures forall d :: d in dirs && d !in old(dirs) ==> d < p && d !in files
      ensures o.Done? ==> forall k | 0 < k < |p| :: p[..k] in dirs
      ensures old(Calm()) && !Blocked(files, p) ==> o.Done?
    {
      for k := 1 to |p|
        invariant clock >= old(clock)
        invariant old(dirs) <= dirs
        invariant forall d :: d in dirs && d !in old(dirs) ==> d < p && d !in files
        invariant forall j | 0 < j < k :: p[..j] in dirs
      {
        if p[..k] in files {
          assert p[..k] < p;
          return Refused(NotRegular);
        }
        if p[..k] !in dirs {
          o := Probe(Io);
          if !o.Done? { return; }
          dirs := dirs + {p[..k]};
        }
      }
      o := Done(());
    }

    /**
     `write_destination_temp`: a new file with its final mode, whole only when the step goes through.
     It needs the directory it goes into.
     */
    method WriteTemp(p: Path, bytes: Bytes, mode: nat) returns (o: Outcome<()>)
      modifies this`clock, this`temps
      ensures clock >= old(clock)
      ensures forall q :: q != p ==> SameAt(old(temps), temps, q)
      ensures p in old(temps) ==> temps == old(temps) && o == Refused(TempExists)
      ensures o.Done? ==> p !in old(temps) && temps == old(temps)[p := File(bytes, mode % 512, 1)]
      ensures old(Calm()) && p !in old(temps) && ParentIsThere(dirs, p) ==> o.Done?
      ensures o.Done? ==> ParentIsThere(dirs, p)
      ensures Untearing() && !o.Done? ==> temps == old(temps)
    {
      if p in temps { return Refused(TempExists); }
      if !ParentIsThere(dirs, p) { return Refused(Io); }
      var f := fate(clock);
      clock := clock + 1;
      match f
      case Go =>
        temps := temps[p := File(bytes, mode % 512, 1)];
        o := Done(());
      case Fail(partial) =>
        if partial.Some? { temps := temps[p := File(partial.value.0, partial.value.1, 1)]; }
        o := Refused(Io);
      case Die(partial) =>
        if partial.Some? { temps := temps[p := File(partial.value.0, partial.value.1, 1)]; }
        o := Died;
    }

    /** `atomic_replace`: the temp file becomes the target, or nothing changes. */
    method Rename(p: Path) returns (o: Outcome<()>)
      requires p in temps
      modifies this`clock, this`temps, this`files
      ensures clock >= old(clock)
      ensures o.Done? ==> files == old(files[p := temps[p]]) && temps == old(temps) - {p}
      ensures !o.Done? ==> files == old(files) && temps == old(temps)
      ensures p in dirs ==> !o.Done?
      ensures old(Calm()) && p !in dirs ==> o.Done?
    {
      if p in dirs { return Refused(Io); }
      o := Probe(Io);
      if o.Done? {
        files := files[p := temps[p]];
        temps := temps - {p};
      }
    }

    /** `install_snapshot`. */
    method Install(p: Path, s: Snapshot, payload: Option<Bytes>) returns (o: Outcome<()>)
      modifies this`clock, this`files, this`dirs, this`temps
      ensures clock >= old(clock)
      ensures files == old(files) || files == Put(old(files), p, s)
      ensures o.Done? ==> files == Put(old(files), p, s) && temps == old(temps)
      ensures forall q :: q != p ==> SameAt(old(temps), temps, q)
      ensures p in old(temps) ==> temps == old(temps)
      ensures Untearing() && p !in old(temps) && p in temps ==>
                payload.Some? && Sha256(payload.value) == s.digest && |payload.value| == s.bytes
                && temps[p] == File(payload.value, s.fileMode % 512, 1)
      ensures s.kind.MissingKind? ==> temps == old(temps) && dirs == old(dirs)
      ensures old(dirs) <= dirs && forall d :: d in dirs && d !in old(dirs) ==> d < p
      ensures !Replaceable(old(State()), p) ==> !o.Done? && files == old(files)
      ensures old(Calm()) && SafePath(p) && Replaceable(old(State()), p) && p !in old(temps)
              && (s.kind.RegularKind? ==>
                   payload.Some? && Sha256(payload.value) == s.digest && |payload.value| == s.bytes)
              ==> o.Done?
    {
      if !SafePath(p) || Blocked(files, p) || (p in files && files[p].Symlink?) {
        return Refused(UnsafePath);
      }
      if s.kind.MissingKind? {
        if p in dirs { return Refused(NotRegular); }
        if p !in files {
          assert files == Put(files, p, s);
          return Done(());
        }
        o := Probe(Io);
        if o.Done? { files := files - {p}; }
        return;
      }
      if payload.None? { return Refused(NoPayload); }
      if Sha256(payload.value) != s.digest || |payload.value| != s.bytes { return Refused(CorruptPayload); }
      o := Replace(p, payload.value, s.fileMode);
    }

    /** The writing part of an install: the parents, the temp file, the rename, the sync. */
    method Replace(p: Path, bytes: Bytes, mode: nat) returns (o: Outcome<()>)
      requires SafePath(p)
      modifies this`clock, this`files, this`dirs, this`temps
      ensures clock >= old(clock)
      ensures files == old(files) || files == old(files)[p := File(bytes, mode % 512, 1)]
      ensures o.Done? ==> files == old(files)[p := File(bytes, mode % 512, 1)] && temps == old(temps)
      ensures forall q :: q != p ==> SameAt(old(temps), temps, q)
      ensures p in old(temps) ==> temps == old(temps)
      ensures Untearing() && p !in old(temps) && p in temps ==> temps[p] == File(bytes, mode % 512, 1)
      ensures old(dirs) <= dirs && forall d :: d in dirs && d !in old(dirs) ==> d < p
      ensures TreeOk(old(State())) ==> TreeOk(State())
      ensures p in old(dirs) ==> !o.Done? && files == old(files)
      ensures old(Calm()) && !Blocked(old(files), p) && p !in old(dirs) && p !in old(temps) ==> o.Done?
    {
      o := MakeParents(p);
      if !o.Done? { return; }
      ParentsAreThere(dirs, p);
      o := WriteTemp(p, bytes, mode);
      if !o.Done? { return; }
      o := Rename(p);
      if !o.Done? { return; }
      if TreeOk(old(State())) { InstallKeepsTree(old(State()), State(), p); }
      assert temps == old(temps);
      o := Probe(Io);
    }

    /**
     `reconcile_destination_temporary_files`: removes leftover temp files that are whole, and
     stops at the first one that is not.
     */
    method Reconcile(fs: seq<FileArtifact>) returns (o: Outcome<()>)
      requires DistinctPaths(fs)
      modifies this`clock, this`temps
      ensures clock >= old(clock)
      ensures forall p :: p in temps ==> p in old(temps) && temps[p] == old(temps)[p]
      ensures forall p :: p in old(temps) && !InManifest(fs, p) ==> p in temps
      ensures forall f :: f in fs && TornAt(old(temps), f) ==> f.path in temps
      ensures o.Done? ==> !Torn(old(temps), fs) && forall f :: f in fs ==> f.path !in temps
      ensures old(Calm()) && !Torn(old(temps), fs)
              && (forall f :: f in fs ==>
                    SafePath(f.path) && !Blocked(files, f.path) && !(f.path in files && files[f.path].Symlink?))
              ==> o.Done?
    {
      for i := 0 to |fs|
        invariant clock >= old(clock)
        invariant forall p :: p in temps ==> p in old(temps) && temps[p] == old(temps)[p]
        invariant forall p :: p in old(temps) && (forall j | 0 <= j < i :: fs[j].path != p) ==> p in temps
        invariant forall j | 0 <= j < i :: fs[j].path !in temps && !TornAt(old(temps), fs[j])
      {
        var p := fs[i].path;
        if !SafePath(p) || Blocked(files, p) || (p in files && files[p].Symlink?) {
          return Refused(UnsafePath);
        }
        if p in temps {
          if !KnownTemp(temps[p], fs[i]) {
            assert TornAt(old(temps), fs[i]);
            return Refused(TempDiverged);
          }
          o := RemoveTemp(p);
          if !o.Done? { return; }
        }
      }
      o := Done(());
    }

    method RemoveTemp(p: Path) returns (o: Outcome<()>)
      modifies this`clock, this`temps
      ensures clock >= old(clock)
      ensures temps == old(temps) || temps == old(temps) - {p}
      ensures o.Done? ==> p !in temps
      ensures old(Calm()) ==> o.Done?
    {
      o := Probe(Io);
      if !o.Done? { return; }
      temps := temps - {p};
      o := Probe(Io);
    }

    /** `classify_manifest`. */
    method Classify(fs: seq<FileArtifact>) returns (c: Classification)
      ensures Means(c, State(), fs)
    {
      var anyPre, anyPost := false, false;
      for i := 0 to |fs|
        invariant forall j | 0 <= j < i :: Paired(State(), fs[j])
        invariant anyPre <==> exists j | 0 <= j < i :: StrictlyPre(State(), fs[j])
        invariant anyPost <==> exists j | 0 <= j < i :: StrictlyPost(State(), fs[j])
      {
        var current := Current(State(), fs[i].path);
        if current != Some(fs[i].pre) && current != Some(fs[i].post) {
          assert !Paired(State(), fs[i]);
          return Divergent;
        }
        var isPre, isPost := current == Some(fs[i].pre), current == Some(fs[i].post);
        anyPre := anyPre || (isPre && !isPost);
        anyPost := anyPost || (isPost && !isPre);
      }
      c := if !anyPre then AllPost else if anyPost then MixedKnown else AllPre;
    }

    /** The common start of every operation: Git identity, leftover temp files, identity again. */
    method Enter(fs: seq<FileArtifact>, ghost base: Tree) returns (o: Outcome<()>)
      requires DistinctPaths(fs)
      modifies this`clock, this`temps
      ensures clock > old(clock)
      ensures TempsKept(old(temps), temps, fs)
      ensures Torn(temps, fs) ==> Torn(old(temps), fs)
      ensures o.Done? ==> !Torn(old(temps), fs) && NoTemps(temps, fs)
      ensures old(Calm()) && !Torn(old(temps), fs) && Ours(fs, base, State()) ==> o.Done?
    {
      if Ours(fs, base, State()) {
        forall f | f in fs { KnownReadyForInstall(fs, base, State(), f); }
      }
      o := Probe(IdentityChanged);
      if !o.Done? { return; }
      o := Reconcile(fs);
      if !o.Done? { return; }
      o := Probe(IdentityChanged);
    }

    /** One turn of the apply or rollback loop: load a frozen payload, then install it. */
    method InstallFrozen(fs: seq<FileArtifact>, f: FileArtifact, s: Snapshot, name: Option<string>,
                         store: PayloadStore, ghost base: Tree)
      returns (o: Outcome<()>)
      requires f in fs && ((s == f.pre && name == f.prePayload) || (s == f.post && name == f.postPayload))
      requires f.path !in temps
      modifies this`clock, this`files, this`dirs, this`temps
      ensures clock >= old(clock)
      ensures Ours(fs, base, old(State())) ==> Ours(fs, base, State())
      ensures files == old(files) || files == Put(old(files), f.path, s)
      ensures o.Done? ==> files == Put(old(files), f.path, s) && temps == old(temps)
      ensures forall q :: q != f.path ==> SameAt(old(temps), temps, q)
      ensures Untearing() && Genuine(f.pre) && Genuine(f.post) ==> !TornAt(temps, f)
      ensures old(Calm()) && Ours(fs, base, old(State())) && Intact(store, fs) ==> o.Done?
    {
      var payload := LoadPayload(store, name, s);
      if payload.Failure? { return Refused(payload.error); }
      ghost var t := State();
      if Ours(fs, base, t) { KnownReadyForInstall(fs, base, t, f); }
      o := Install(f.path, s, payload.value);
      if Ours(fs, base, t) { InstallKeepsKnown(fs, base, t, State(), f, s); }
    }

    /** The install loop of `apply_prepared_artifacts`. */
    method InstallPosts(fs: seq<FileArtifact>, store: PayloadStore, ghost base: Tree) returns (o: Outcome<()>)
      requires DistinctPaths(fs) && NoTemps(temps, fs)
      modifies this`clock, this`files, this`dirs, this`temps
      ensures clock >= old(clock)
      ensures Ours(fs, base, old(State())) ==> Ours(fs, base, State())
      ensures o.Done? ==> forall f :: f in fs ==> Holds(files, f.path, f.post)
      ensures OnlyImages(fs, old(files), files)
      ensures forall p :: !InManifest(fs, p) ==> SameAt(old(temps), temps, p)
      ensures Untearing() && AllGenuine(fs) ==> !Torn(temps, fs)
      ensures old(Calm()) && Ours(fs, base, old(State())) && Intact(store, fs) ==> o.Done?
    {
      ghost var ours := Ours(fs, base, State());
      for i := 0 to |fs|
        invariant clock >= old(clock)
        invariant ours ==> Ours(fs, base, State())
        invariant Posted(fs, i, files)
        invariant OnlyImages(fs, old(files), files) && temps == old(temps)
      {
        assert fs[i] in fs;
        ghost var before := files;
        PostedNext(fs, i, files);
        o := InstallFrozen(fs, fs[i], fs[i].post, fs[i].postPayload, store, base);
        InstallIsImage(fs, fs[i], fs[i].post, old(files), before, files);
        OneTemp(fs, fs[i], old(temps), temps);
        if !o.Done? { return; }
      }
      o := Done(());
    }

    /** `apply_prepared_artifacts`, after its manifest was loaded. */
    method Apply(fs: seq<FileArtifact>, store: PayloadStore, ghost base: Tree) returns (o: Outcome<()>)
      requires DistinctPaths(fs)
      modifies this`clock, this`files, this`dirs, this`temps
      ensures clock > old(clock)
      ensures Untearing() && AllGenuine(fs) && Torn(temps, fs) ==> Torn(old(temps), fs)
      ensures Ours(fs, base, old(State())) ==> Known(fs, base, State())
      ensures o.Done? ==> Means(AllPost, State(), fs)
      ensures !Means(AllPre, old(State()), fs) || Torn(old(temps), fs) || !old(Clean()) ==> State() == old(State())
      ensures o.Done? ==> (old(Clean()) && !Torn(old(temps), fs)
                           && (Means(AllPre, old(State()), fs) || Means(AllPost, old(State()), fs)))
      ensures TempsKept(old(temps), temps, fs)
      ensures Kept(fs, old(files), files)
      ensures old(Calm()) && old(Clean()) && !Torn(old(temps), fs) && Intact(store, fs)
              && Ours(fs, base, old(State()))
              && !Means(MixedKnown, old(State()), fs)
              ==> o.Done?
      ensures old(Calm()) && !Torn(old(temps), fs) && Ours(fs, base, old(State())) ==>
                && (!old(Clean()) ==> o == Refused(NotClean))
                && (old(Clean()) && Means(MixedKnown, old(State()), fs) ==> o == Refused(PartiallyApplied))
    {
      o := Enter(fs, base);
      if !o.Done? { return; }
      if !Clean() { return Refused(NotClean); }
      var c := Classify(fs);
      ClassesPartition(State(), fs);
      if Ours(fs, base, State()) { KnownAnswers(fs, base, State()); }
      match c {
        case AllPost => return Done(());
        case MixedKnown => return Refused(PartiallyApplied);
        case Divergent => return Refused(Diverged);
        case AllPre =>
      }
      ghost var before := State();
      o := WritePosts(fs, store, base);
      PairedIsKept(fs, before, files);
    }

    /** The writing part of an apply, and its last check. */
    method WritePosts(fs: seq<FileArtifact>, store: PayloadStore, ghost base: Tree) returns (o: Outcome<()>)
      requires DistinctPaths(fs) && NoTemps(temps, fs)
      modifies this`clock, this`files, this`dirs, this`temps
      ensures clock >= old(clock)
      ensures Untearing() && AllGenuine(fs) ==> !Torn(temps, fs)
      ensures Ours(fs, base, old(State())) ==> Ours(fs, base, State())
      ensures o.Done? ==> Means(AllPost, State(), fs)
      ensures OnlyImages(fs, old(files), files)
      ensures forall p :: !InManifest(fs, p) ==> SameAt(old(temps), temps, p)
      ensures old(Calm()) && Intact(store, fs) && Ours(fs, base, old(State())) ==> o.Done?
    {
      o := InstallPosts(fs, store, base);
      if !o.Done? { return; }
      o := Probe(IdentityChanged);
      if !o.Done? { return; }
      var c := Classify(fs);
      ClassesPartition(State(), fs);
      if Ours(fs, base, State()) { KnownHoldsPost(fs, base, State()); }
      if c != AllPost { return Refused(WrongPostimage); }
      o := Done(());
    }

    /** The restore loop of `rollback_apply_artifacts`: `states` is what each path held before it. */
    method RestorePres(fs: seq<FileArtifact>, states: seq<Snapshot>, store: PayloadStore, ghost base: Tree)
      returns (o: Outcome<()>)
      requires DistinctPaths(fs) && |states| == |fs| && NoTemps(temps, fs)
      requires Ours(fs, base, State()) ==> Restored(fs, states, 0, files)
      modifies this`clock, this`files, this`dirs, this`temps
      ensures clock >= old(clock)
      ensures Ours(fs, base, old(State())) ==> Ours(fs, base, State())
      ensures Ours(fs, base, old(State())) && o.Done? ==> forall f :: f in fs ==> Holds(files, f.path, f.pre)
      ensures (forall i | 0 <= i < |fs| :: states[i] == fs[i].pre) ==> State() == old(State())
      ensures OnlyImages(fs, old(files), files)
      ensures forall p :: !InManifest(fs, p) ==> SameAt(old(temps), temps, p)
      ensures Untearing() && AllGenuine(fs) ==> !Torn(temps, fs)
      ensures old(Calm()) && Ours(fs, base, old(State())) && Intact(store, fs) ==> o.Done?
    {
      ghost var ours := Ours(fs, base, State());
      for i := 0 to |fs|
        invariant clock >= old(clock)
        invariant ours ==> Ours(fs, base, State()) && Restored(fs, states, i, files)
        invariant (forall j | 0 <= j < |fs| :: states[j] == fs[j].pre) ==> State() == old(State())
        invariant OnlyImages(fs, old(files), files) && temps == old(temps)
      {
        if ours { RestoredNext(fs, states, i, files); }
        if states[i] != fs[i].pre {
          ghost var before := files;
          o := InstallFrozen(fs, fs[i], fs[i].pre, fs[i].prePayload, store, base);
          InstallIsImage(fs, fs[i], fs[i].pre, old(files), before, files);
          OneTemp(fs, fs[i], old(temps), temps);
          if !o.Done? { return; }
        }
      }
      o := Done(());
    }

    /** What every path of a tree that is not divergent holds, read before the first write. */
    method ReadStates(fs: seq<FileArtifact>) returns (states: seq<Snapshot>)
      requires !Means(Divergent, State(), fs)
      ensures |states| == |fs|
      ensures forall i | 0 <= i < |fs| :: Current(State(), fs[i].path) == Some(states[i])
    {
      states := [];
      for i := 0 to |fs|
        invariant |states| == i
        invariant forall j | 0 <= j < i :: Current(State(), fs[j].path) == Some(states[j])
      {
        assert Paired(State(), fs[i]);
        states := states + [Current(State(), fs[i].path).value];
      }
    }

    /** `rollback_apply_artifacts`, after its manifest was loaded. */
    method Rollback(fs: seq<FileArtifact>, store: PayloadStore, ghost base: Tree) returns (o: Outcome<()>)
      requires DistinctPaths(fs)
      modifies this`clock, this`files, this`dirs, this`temps
      ensures clock > old(clock)
      ensures Untearing() && AllGenuine(fs) && Torn(temps, fs) ==> Torn(old(temps), fs)
      ensures Ours(fs, base, old(State())) ==> Known(fs, base, State())
      ensures o.Done? ==> Means(AllPre, State(), fs) && !Means(Divergent, old(State()), fs)
      ensures o.Done? && Ours(fs, base, old(State())) ==> files == base.files
      ensures Torn(old(temps), fs) ==> !o.Done?
      ensures Means(Divergent, old(State()), fs) || ReadsPre(fs, old(State())) || Torn(old(temps), fs)
              ==> State() == old(State())
      ensures TempsKept(old(temps), temps, fs)
      ensures Kept(fs, old(files), files)
      ensures old(Calm()) && !Torn(old(temps), fs) && Intact(store, fs) && Ours(fs, base, old(State()))
              ==> o == if Changes(fs) then Done(()) else Refused(WrongPreimage)
    {
      o := Enter(fs, base);
      if !o.Done? { return; }
      ClassesPartition(State(), fs);
      if Ours(fs, base, State()) { KnownAnswers(fs, base, State()); }
      var c := Classify(fs);
      if c == Divergent { return Refused(Diverged); }
      if c == AllPre { return Done(()); }
      ghost var before := State();
      o := RestoreTree(fs, store, base);
      PairedIsKept(fs, before, files);
    }

    /** The writing part of a rollback, and its last check. */
    method RestoreTree(fs: seq<FileArtifact>, store: PayloadStore, ghost base: Tree) returns (o: Outcome<()>)
      requires DistinctPaths(fs) && NoTemps(temps, fs) && !Means(Divergent, State(), fs)
      modifies this`clock, this`files, this`dirs, this`temps
      ensures clock >= old(clock)
      ensures Untearing() && AllGenuine(fs) ==> !Torn(temps, fs)
      ensures Ours(fs, base, old(State())) ==> Ours(fs, base, State())
      ensures o.Done? ==> Means(AllPre, State(), fs)
      ensures o.Done? && Ours(fs, base, old(State())) ==> files == base.files
      ensures ReadsPre(fs, old(State())) ==> State() == old(State())
      ensures OnlyImages(fs, old(files), files)
      ensures forall p :: !InManifest(fs, p) ==> SameAt(old(temps), temps, p)
      ensures old(Calm()) && Intact(store, fs) && Ours(fs, base, old(State()))
              ==> o == if Changes(fs) then Done(()) else Refused(WrongPreimage)
    {
      var states := ReadStates(fs);
      if Ours(fs, base, State()) { KnownStates(fs, base, State(), states); }
      o := RestorePres(fs, states, store, base);
      if !o.Done? { return; }
      o := Probe(IdentityChanged);
      if !o.Done? { return; }
      ClassesPartition(State(), fs);
      if Ours(fs, base, State()) { KnownAnswers(fs, base, State()); }
      var c := Classify(fs);
      if c != AllPre { return Refused(WrongPreimage); }
      o := Done(());
    }

    /** `classify_apply_artifacts`, after its manifest was loaded. */
    method ClassifyApply(fs: seq<FileArtifact>, ghost base: Tree) returns (o: Outcome<Classification>)
      requires DistinctPaths(fs)
      modifies this`clock, this`temps
      ensures clock > old(clock)
      ensures Torn(temps, fs) ==> Torn(old(temps), fs)
      ensures TempsKept(old(temps), temps, fs)
      ensures o.Done? ==> Means(o.value, State(), fs) && !Torn(old(temps), fs)
      ensures Ours(fs, base, State()) ==> o != Done(Divergent)
      ensures old(Calm()) && !Torn(old(temps), fs) && Ours(fs, base, State()) ==> o.Done?
    {
      var e := Enter(fs, base);
      if !e.Done? { return if e.Died? then Died else Refused(e.reason); }
      var c := Classify(fs);
      if Ours(fs, base, State()) { KnownNeverDivergent(fs, base, State()); }
      o := Done(c);
    }

    /**
     One operation of the command layer.  It loads the manifest from a transaction directory that
     may have been damaged, and does nothing when the digest is not the expected one.
     */
    method Operate(op: Operation, m: Manifest, fold: Path -> Path, ghost base: Tree) returns (o: Outcome<Answer>)
      requires ValidManifest(m, fold)
      modifies this`clock, this`files, this`dirs, this`temps
      ensures Ours(m.files, base, old(State())) ==> Ours(m.files, base, State()) && o != Done(Class(Divergent))
      ensures !Loads(m, op.dir, fold) ==> State() == old(State()) && temps == old(temps)
      ensures clock >= old(clock)
      ensures Torn(old(temps), m.files) ==> !o.Done? && State() == old(State())
      ensures Means(Divergent, old(State()), m.files) ==>
              o != Done(Applied) && o != Done(RolledBack) && State() == old(State())
      ensures TempsKept(old(temps), temps, m.files)
      ensures Kept(m.files, old(files), files)
      ensures Loads(m, op.dir, fold) ==> clock > old(clock)
      ensures Answers(op, o, m.files, old(State()), State())
      ensures op.ApplyOp? && (!Means(AllPre, old(State()), m.files) || !old(Clean())) ==> State() == old(State())
      ensures o == Done(Applied) ==> old(Clean())
      ensures (old(Calm()) && op.ApplyOp? && Ours(m.files, base, old(State())) && !Torn(old(temps), m.files)
               && Loads(m, op.dir, fold) && Intact(op.dir.payloads, m.files)) ==>
                o == if !old(Clean()) then Refused(NotClean)
                     else if Means(MixedKnown, old(State()), m.files) then Refused(PartiallyApplied)
                     else Done(Applied)
      ensures Untearing() && AllGenuine(m.files) && Torn(temps, m.files) ==> Torn(old(temps), m.files)
      ensures o == Done(RolledBack) && Ours(m.files, base, old(State())) ==> files == base.files
      ensures op.RollbackOp? && ReadsPre(m.files, old(State())) ==> State() == old(State())
      ensures old(Calm()) && op.RollbackOp? && Ours(m.files, base, old(State())) && !Torn(old(temps), m.files)
              && Loads(m, op.dir, fold) && Intact(op.dir.payloads, m.files)
              ==> o == if Changes(m.files) then Done(RolledBack) else Refused(WrongPreimage)
    {
      ValidIsDistinct(m, fold);
      var loaded := LoadManifest(m.transactionId, op.dir, BlobSha256(Json(m)), fold);
      if loaded.Failure? { return Refused(loaded.error); }
      match op {
        case ApplyOp(dir) =>
          var a := Apply(loaded.value.files, dir.payloads, base);
          o := match a case Done(_) => Done(Applied) case Refused(r) => Refused(r) case Died => Died;
        case RollbackOp(dir) =>
          var a := Rollback(loaded.value.files, dir.payloads, base);
          o := match a case Done(_) => Done(RolledBack) case Refused(r) => Refused(r) case Died => Died;
        case ClassifyOp(_) =>
          var a := ClassifyApply(loaded.value.files, base);
          o := match a case Done(c) => Done(Class(c)) case Refused(r) => Refused(r) case Died => Died;
      }
    }

    /** One operation, as far as crash safety goes. */
    method OperateOnOurs(op: Operation, m: Manifest, fold: Path -> Path, ghost base: Tree)
      returns (a: Outcome<Answer>)
      requires ValidManifest(m, fold) && Ours(m.files, base, State())
      modifies this`clock, this`files, this`dirs, this`temps
      ensures Ours(m.files, base, State()) && clock >= old(clock) && a != Done(Class(Divergent))
      ensures Untearing() && !Torn(old(temps), m.files) ==> !Torn(temps, m.files)
    {
      if Untearing() { OursIsGenuine(m.files, base, State()); }
      a := Operate(op, m, fold, base);
    }

    /**
     Crash safety: whatever sequence of operations runs on the frozen tree, and wherever each of
     them fails or dies, every manifest path reads as its preimage or its postimage, every other
     path is untouched, and no answer is Divergent.
     */
    method OperateAll(ops: seq<Operation>, m: Manifest, fold: Path -> Path, ghost base: Tree)
      returns (answers: seq<Outcome<Answer>>)
      requires ValidManifest(m, fold) && Ours(m.files, base, State())
      modifies this`clock, this`files, this`dirs, this`temps
      ensures Ours(m.files, base, State()) && clock >= old(clock)
      ensures Untearing() && !Torn(old(temps), m.files) ==> !Torn(temps, m.files)
      ensures forall f :: f in m.files ==> Paired(State(), f)
      ensures SameOutside(m.files, base.files, files)
      ensures |answers| == |ops| && forall a :: a in answers ==> a != Done(Class(Divergent))
    {
      answers := [];
      for i := 0 to |ops|
        invariant Ours(m.files, base, State()) && clock >= old(clock)
        invariant Untearing() && !Torn(old(temps), m.files) ==> !Torn(temps, m.files)
        invariant |answers| == i && forall a :: a in answers ==> a != Done(Class(Divergent))
      {
        var a := OperateOnOurs(ops[i], m, fold, base);
        answers := answers + [a];
      }
      forall f | f in m.files ensures Paired(State(), f) { KnownReads(m.files, base, State(), f); }
    }

    /**
     Rollback undoes any of it.  After any such sequence the rollback is run again until it answers;
     once no more step fails, it gives the frozen files back, unless a torn temp file stands in its
     way, and none does when no temp write was ever torn.
     */
    method OperateThenRollBack(
      ops: seq<Operation>, dir: TransactionDir, m: Manifest, fold: Path -> Path, calmFrom: nat, ghost base: Tree)
      returns (last: Outcome<Answer>)
      requires ValidManifest(m, fold) && Ours(m.files, base, State())
      requires forall n: nat | calmFrom <= n :: fate(n) == Go
      modifies this`clock, this`files, this`dirs, this`temps
      ensures Ours(m.files, base, State())
      ensures last == Done(RolledBack) ==> files == base.files
      ensures Loads(m, dir, fold) && Intact(dir.payloads, m.files) && Changes(m.files)
              ==> last == Done(RolledBack) || Torn(temps, m.files)
      ensures Untearing() && !Torn(old(temps), m.files) ==> !Torn(temps, m.files)
    {
      var _ := OperateAll(ops, m, fold, base);
      for tries := 0 to calmFrom
        invariant Ours(m.files, base, State())
        invariant Loads(m, dir, fold) ==> clock >= tries
        invariant Untearing() && !Torn(old(temps), m.files) ==> !Torn(temps, m.files)
      {
        last := Operate(RollbackOp(dir), m, fold, base);
        if last == Done(RolledBack) { return; }
      }
      ghost var before := temps;
      last := Operate(RollbackOp(dir), m, fold, base);
      if Torn(before, m.files) { TornStays(before, temps, m.files); }
    }

    /** A second rollback, however it ends, changes nothing; without faults it answers like the first. */
    method RollBackAgain(dir: TransactionDir, m: Manifest, fold: Path -> Path, ghost base: Tree)
      returns (again: Outcome<Answer>)
      requires ValidManifest(m, fold) && Ours(m.files, base, State()) && files == base.files
      modifies this`clock, this`files, this`dirs, this`temps
      ensures State() == old(State())
      ensures (old(Calm()) && !Torn(old(temps), m.files) && Loads(m, dir, fold) && Intact(dir.payloads, m.files)
               && Changes(m.files)) ==> again == Done(RolledBack)
    {
      BaseReadsPre(m.files, base, State());
      again := Operate(RollbackOp(dir), m, fold, base);
    }
  }

  datatype Operation = ApplyOp(dir: TransactionDir) | RollbackOp(dir: TransactionDir) | ClassifyOp(dir: TransactionDir)

  datatype Answer = Applied | RolledBack | Class(c: Classification)

  /** What an answer says of the operation and of the tree. */
  ghost predicate Answers(op: Operation, o: Outcome<Answer>, fs: seq<FileArtifact>, t: Tree, t': Tree) {
    && (o == Done(Applied) ==>
         op.ApplyOp? && Means(AllPost, t', fs) && (Means(AllPre, t, fs) || Means(AllPost, t, fs)))
    && (o == Done(RolledBack) ==> op.RollbackOp? && Means(AllPre, t', fs))
    && (o.Done? && o.value.Class? ==> op.ClassifyOp? && Means(o.value.c, t, fs))
    && (op.ClassifyOp? ==> t' == t)
  }

  lemma ValidIsDistinct(m: Manifest, fold: Path -> Path)
    requires ValidManifest(m, fold)
    ensures DistinctPaths(m.files)
  {
  }

  /** The manifest was frozen from `base`, and only our own runs have touched the tree since. */
  ghost predicate Ours(fs: seq<FileArtifact>, base: Tree, t: Tree) {
    FrozenFrom(fs, base) && Known(fs, base, t)
  }

  predicate SameAt(before: map<Path, Node>, after: map<Path, Node>, p: Path) {
    (p in before <==> p in after) && (p in before ==> after[p] == before[p])
  }

  predicate ParentIsThere(dirs: set<Path>, p: Path) {
    |p| > 1 ==> p[..|p| - 1] in dirs
  }

  lemma ParentsAreThere(dirs: set<Path>, p: Path)
    requires forall k | 0 < k < |p| :: p[..k] in dirs
    ensures ParentIsThere(dirs, p) && forall a :: [] < a < p ==> a in dirs
  {
    forall a | [] < a < p ensures a in dirs { assert a == p[..|a|]; }
  }

  /** A new file stands in directories, and on none. */
  lemma InstallKeepsTree(t: Tree, t': Tree, p: Path)
    requires TreeOk(t) && t.dirs <= t'.dirs && (forall d :: d in t'.dirs && d !in t.dirs ==> d !in t.files)
    requires p !in t'.dirs && (forall a :: [] < a < p ==> a in t'.dirs)
    requires t'.files.Keys == t.files.Keys + {p}
    ensures TreeOk(t')
  {
  }

  /** Nothing is in the way of an install: the path holds a regular file or nothing. */
  predicate Replaceable(t: Tree, p: Path) {
    !Blocked(t.files, p) && p !in t.dirs && (p in t.files ==> t.files[p].File?)
  }

  /** A manifest path that holds one of its two frozen images. */
  ghost predicate HoldsImage(fs: seq<FileArtifact>, files: map<Path, Node>, p: Path) {
    exists f :: f in fs && f.path == p && (Holds(files, p, f.pre) || Holds(files, p, f.post))
  }

  /** What changed became a frozen image. */
  ghost predicate OnlyImages(fs: seq<FileArtifact>, before: map<Path, Node>, after: map<Path, Node>) {
    forall p :: SameAt(before, after, p) || HoldsImage(fs, after, p)
  }

  /** What changed was a frozen image and became one: anything else is left as it is. */
  ghost predicate Kept(fs: seq<FileArtifact>, before: map<Path, Node>, after: map<Path, Node>) {
    forall p :: SameAt(before, after, p) || (HoldsImage(fs, before, p) && HoldsImage(fs, after, p))
  }

  lemma InstallIsImage(fs: seq<FileArtifact>, f: FileArtifact, s: Snapshot, start: map<Path, Node>,
                       before: map<Path, Node>, after: map<Path, Node>)
    requires OnlyImages(fs, start, before) && f in fs && (s == f.pre || s == f.post)
    requires after == before || after == Put(before, f.path, s)
    ensures OnlyImages(fs, start, after)
  {
    forall p ensures SameAt(start, after, p) || HoldsImage(fs, after, p) {
      if p == f.path {
        assert after == before || Holds(after, p, s);
      } else {
        assert SameAt(before, after, p);
        assert HoldsImage(fs, before, p) ==> HoldsImage(fs, after, p);
      }
    }
  }

  lemma PairedIsKept(fs: seq<FileArtifact>, t: Tree, after: map<Path, Node>)
    requires !Means(Divergent, t, fs) && OnlyImages(fs, t.files, after)
    ensures Kept(fs, t.files, after)
  {
    forall p | HoldsImage(fs, after, p) ensures HoldsImage(fs, t.files, p) {
      var f :| f in fs && f.path == p;
      PairedHolds(t, f);
    }
  }

  /** What reads as a frozen image holds it. */
  lemma PairedHolds(t: Tree, f: FileArtifact)
    requires Paired(t, f)
    ensures Holds(t.files, f.path, f.pre) || Holds(t.files, f.path, f.post)
  {
  }

  ghost predicate NoTemps(temps: map<Path, Node>, fs: seq<FileArtifact>) {
    forall f :: f in fs ==> f.path !in temps
  }

  lemma KnownStates(fs: seq<FileArtifact>, base: Tree, t: Tree, states: seq<Snapshot>)
    requires Ours(fs, base, t) && |states| == |fs|
    requires forall i | 0 <= i < |fs| :: Current(t, fs[i].path) == Some(states[i])
    ensures Restored(fs, states, 0, t.files)
  {
    forall i | 0 <= i < |fs| && states[i] == fs[i].pre ensures Holds(t.files, fs[i].path, fs[i].pre) {
      KnownReads(fs, base, t, fs[i]);
    }
  }

  /** The first `i` paths hold their preimages, and so do those that held them at the start. */
  ghost predicate Restored(fs: seq<FileArtifact>, states: seq<Snapshot>, i: nat, files: map<Path, Node>)
    requires |states| == |fs|
  {
    forall j | 0 <= j < |fs| && (j < i || states[j] == fs[j].pre) :: Holds(files, fs[j].path, fs[j].pre)
  }

  /** The first `i` paths hold their postimages. */
  ghost predicate Posted(fs: seq<FileArtifact>, i: nat, files: map<Path, Node>) {
    forall j | 0 <= j < i && j < |fs| :: Holds(files, fs[j].path, fs[j].post)
  }

  lemma PostedNext(fs: seq<FileArtifact>, i: nat, files: map<Path, Node>)
    requires DistinctPaths(fs) && i < |fs| && Posted(fs, i, files)
    ensures Posted(fs, i + 1, Put(files, fs[i].path, fs[i].post))
  {
  }

  lemma RestoredNext(fs: seq<FileArtifact>, states: seq<Snapshot>, i: nat, files: map<Path, Node>)
    requires DistinctPaths(fs) && |states| == |fs| && i < |fs| && Restored(fs, states, i, files)
    ensures Restored(fs, states, i + 1, Put(files, fs[i].path, fs[i].pre))
    ensures states[i] == fs[i].pre ==> Restored(fs, states, i + 1, files)
  {
  }

  lemma OursIsGenuine(fs: seq<FileArtifact>, base: Tree, t: Tree)
    requires Ours(fs, base, t)
    ensures AllGenuine(fs)
  {
  }

  lemma KnownHoldsPost(fs: seq<FileArtifact>, base: Tree, t: Tree)
    requires FrozenFrom(fs, base) && Known(fs, base, t)
    requires forall f :: f in fs ==> Holds(t.files, f.path, f.post)
    ensures Means(AllPost, t, fs)
  {
    forall f | f in fs { KnownReads(fs, base, t, f); }
  }

  /** Some path differs in its two images. */
  ghost predicate Changes(fs: seq<FileArtifact>) {
    exists f :: f in fs && f.pre != f.post
  }

  ghost predicate AllGenuine(fs: seq<FileArtifact>) {
    forall f :: f in fs ==> Genuine(f.pre) && Genuine(f.post)
  }

  predicate Loads(m: Manifest, dir: TransactionDir, fold: Path -> Path) {
    LoadManifest(m.transactionId, dir, BlobSha256(Json(m)), fold).Success?
  }

  /** What a known tree answers, and that the answer AllPre is the frozen tree. */
  lemma KnownAnswers(fs: seq<FileArtifact>, base: Tree, t: Tree)
    requires Ours(fs, base, t)
    ensures !Means(Divergent, t, fs)
    ensures Means(AllPre, t, fs) ==> t.files == base.files && Changes(fs)
    ensures (forall f :: f in fs ==> Holds(t.files, f.path, f.pre)) && Changes(fs) ==> Means(AllPre, t, fs)
  {
    KnownNeverDivergent(fs, base, t);
    forall f | f in fs { KnownReads(fs, base, t, f); }
    if Means(AllPre, t, fs) { AllPreIsBase(fs, base, t); }
  }

  lemma BaseReadsPre(fs: seq<FileArtifact>, base: Tree, t: Tree)
    requires Ours(fs, base, t) && t.files == base.files
    ensures ReadsPre(fs, t)
  {
    forall f | f in fs ensures Current(t, f.path) == Some(f.pre) {
      KnownUnblocked(fs, base, base, f) by { BaseIsKnown(fs, base); }
      KnownReads(fs, base, t, f);
      BaseIsKnown(fs, base);
      KnownReads(fs, base, base, f);
    }
  }

  /** Only one path's temp file changed, and it is not torn. */
  lemma OneTemp(fs: seq<FileArtifact>, f: FileArtifact, before: map<Path, Node>, after: map<Path, Node>)
    requires DistinctPaths(fs) && f in fs && NoTemps(before, fs)
    requires forall q :: q != f.path ==> SameAt(before, after, q)
    ensures Torn(after, fs) <==> TornAt(after, f)
  {
    forall g | g in fs && TornAt(after, g) ensures g == f {
      assert SameAt(before, after, g.path) || g.path == f.path;
    }
  }

  lemma TornStays(before: map<Path, Node>, after: map<Path, Node>, fs: seq<FileArtifact>)
    requires Torn(before, fs) && TempsKept(before, after, fs)
    ensures Torn(after, fs)
  {
    var f :| f in fs && TornAt(before, f);
    assert TornAt(after, f);
  }

  /** A run keeps every torn temp file and every temp file that is not one of the manifest's. */
  ghost predicate TempsKept(before: map<Path, Node>, after: map<Path, Node>, fs: seq<FileArtifact>) {
    && (forall f :: f in fs && TornAt(before, f) ==> f.path in after && after[f.path] == before[f.path])
    && (forall p :: !InManifest(fs, p) ==> SameAt(before, after, p))
  }

  lemma KnownReadyForInstall(fs: seq<FileArtifact>, base: Tree, t: Tree, f: FileArtifact)
    requires FrozenFrom(fs, base) && Known(fs, base, t) && f in fs
    ensures SafePath(f.path) && Replaceable(t, f.path)
  {
  }

  /** However an install of a frozen image ends, the tree is still known. */
  lemma InstallKeepsKnown(fs: seq<FileArtifact>, base: Tree, t: Tree, t': Tree, f: FileArtifact, s: Snapshot)
    requires Frozen(fs) && Known(fs, base, t) && f in fs && (s == f.pre || s == f.post)
    requires t'.files == t.files || t'.files == Put(t.files, f.path, s)
    requires s.kind.MissingKind? ==> t'.dirs == t.dirs
    requires t.dirs <= t'.dirs && forall d :: d in t'.dirs && d !in t.dirs ==> d < f.path
    ensures Known(fs, base, t')
    ensures t'.files == Put(t.files, f.path, s) ==>
              forall g :: g in fs && g.path != f.path ==>
                (g.path in t'.files <==> g.path in t.files)
                  && (g.path in t.files ==> t'.files[g.path] == t.files[g.path])
  {
    PutKeepsKnown(fs, base, t, f, s);
    assert t' == t.(files := t'.files).(dirs := t'.dirs);
  }
}
