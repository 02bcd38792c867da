/**
 `prepare_apply_artifacts` on the artifact root: the transaction directory it creates, fills and
 removes again.  As in the destination, every step asks the environment for its fate.
 */
module DelegationPreparation {
  import opened Basics
  import opened DelegationManifest
  import opened DelegationArtifacts
  import opened DelegationDestination

  const EMPTY: TransactionDir := TransactionDir(map[], None, None)

  /** The manifest that freezes a request. */
  function ManifestOf(req: Request): Manifest
    requires Capturable(req)
  {
    Manifest(1, req.transactionId, req.sourceIdentity, req.destinationIdentity, FrozenFiles(req))
  }

  /** The directory holds all of a prepared request. */
  ghost predicate Complete(dir: TransactionDir, req: Request) {
    && Capturable(req) && Stored(dir.payloads, req, |req.paths|)
    && dir.manifest == Some(Json(ManifestOf(req))) && dir.sidecar == Some(BlobSha256(Json(ManifestOf(req))))
  }

  /** The directory holds the payloads of the first `n` paths and nothing else yet. */
  ghost predicate Holding(dirs: map<string, TransactionDir>, req: Request, n: nat) {
    && req.transactionId in dirs && n <= |req.paths|
    && dirs[req.transactionId] == EMPTY.(payloads := dirs[req.transactionId].payloads)
    && Stored(dirs[req.transactionId].payloads, req, n)
  }

  /** The steps between making the directory and filling it. */
  const SET_UP: nat := 5

  /** How a step without an effect of its own ends. */
  function Ends(f: Fate, onFail: Reason): Outcome<()> {
    match f case Go => Done(()) case Fail(_) => Refused(onFail) case Die(_) => Died
  }

  class ArtifactRoot {
    var dirs: map<string, TransactionDir>
    var clock: nat
    const fate: nat -> Fate
    /** What a removal that fails half way leaves. */
    const remains: nat -> TransactionDir

    constructor (dirs: map<string, TransactionDir>, fate: nat -> Fate, remains: nat -> TransactionDir)
      ensures this.dirs == dirs && clock == 0 && this.fate == fate && this.remains == remains
    {
      this.dirs, this.clock, this.fate, this.remains := dirs, 0, fate, remains;
    }

    /** Every step in between went through. */
    ghost predicate Smooth(from: nat, to: nat) {
      forall n | from <= n < to :: fate(n) == Go
    }

    method Step(onFail: Reason) returns (o: Outcome<()>)
      modifies this`clock
      ensures clock == old(clock) + 1 && o == Ends(fate(old(clock)), onFail)
    {
      o := Ends(fate(clock), onFail);
      clock := clock + 1;
    }

    /** `write_atomic_private`: renamed into place whole, then synced. */
    method Write(id: string, next: TransactionDir) returns (o: Outcome<()>)
      requires id in dirs
      modifies this`clock, this`dirs
      ensures clock >= old(clock)
      ensures o.Done? <==> Smooth(old(clock), clock)
      ensures dirs == old(dirs) || dirs == old(dirs)[id := next]
      ensures o.Done? ==> dirs == old(dirs)[id := next]
    {
      o := Step(Io);
      if !o.Done? { return; }
      dirs := dirs[id := next];
      o := Step(Io);
    }

    /** The payload files of one path. */
    method WritePayloads(id: string, i: nat, pre: Option<Bytes>, post: Option<Bytes>) returns (o: Outcome<()>)
      requires id in dirs
      modifies this`clock, this`dirs
      ensures clock >= old(clock)
      ensures o.Done? <==> Smooth(old(clock), clock)
      ensures Elsewhere(old(dirs), dirs, id) && id in dirs && dirs[id].sidecar == old(dirs)[id].sidecar
      ensures o.Done? ==>
                dirs[id] == old(dirs)[id].(
                  payloads := AddPayload(
                    AddPayload(old(dirs)[id].payloads, PayloadName("pre", i), pre), PayloadName("post", i), post))
    {
      o := Done(());
      if pre.Some? {
        o := Write(id, dirs[id].(payloads := dirs[id].payloads[PayloadName("pre", i) := pre.value]));
        if !o.Done? { return; }
      }
      if post.Some? {
        o := Write(id, dirs[id].(payloads := dirs[id].payloads[PayloadName("post", i) := post.value]));
      }
    }

    /** The capture loop: one entry and its payload files for each path. */
    method FreezePaths(req: Request) returns (o: Outcome<(seq<FileArtifact>, nat)>)
      requires |req.paths| <= MAX_ARTIFACT_FILES && req.transactionId in dirs && dirs[req.transactionId] == EMPTY
      modifies this`clock, this`dirs
      ensures clock >= old(clock)
      ensures Elsewhere(old(dirs), dirs, req.transactionId)
      ensures req.transactionId in dirs && dirs[req.transactionId].sidecar == None
      ensures o.Done? ==>
                && Capturable(req) && o.value == (FrozenFiles(req), TotalBytes(FrozenFiles(req)))
                && TotalBytes(FrozenFiles(req)) <= MAX_ARTIFACT_BYTES && Holding(dirs, req, |req.paths|)
      ensures Smooth(old(clock), clock) ==>
                && !o.Died?
                && (o.Done? <==> Capturable(req) && TotalBytes(FrozenFiles(req)) <= MAX_ARTIFACT_BYTES)
    {
      var files: seq<FileArtifact> := [];
      var artifactBytes := 0;
      for i := 0 to |req.paths|
        invariant clock >= old(clock) && Smooth(old(clock), clock)
        invariant Elsewhere(old(dirs), dirs, req.transactionId) && Holding(dirs, req, i)
        invariant |files| == i && Freezes(files, req)
        invariant artifactBytes == TotalBytes(files) <= MAX_ARTIFACT_BYTES
      {
        var one := FreezeOne(req, files, artifactBytes);
        if !one.Done? { return if one.Died? then Died else Refused(one.reason); }
        files := files + [one.value.0];
        artifactBytes := one.value.1;
      }
      FreezesAll(files, req);
      assert Holding(dirs, req, |req.paths|);
      o := Done((files, artifactBytes));
    }

    /** One turn of the loop: the next path is captured, counted and stored. */
    method FreezeOne(req: Request, files: seq<FileArtifact>, bytes: nat) returns (o: Outcome<(FileArtifact, nat)>)
      requires |files| < |req.paths| <= MAX_ARTIFACT_FILES && Freezes(files, req) && bytes == TotalBytes(files)
      requires Holding(dirs, req, |files|)
      modifies this`clock, this`dirs
      ensures clock >= old(clock)
      ensures Elsewhere(old(dirs), dirs, req.transactionId)
      ensures req.transactionId in dirs && dirs[req.transactionId].sidecar == None
      ensures o.Done? ==>
                && Smooth(old(clock), clock) && Freezes(files + [o.value.0], req) && Holding(dirs, req, |files| + 1)
                && o.value.1 == TotalBytes(files + [o.value.0]) <= MAX_ARTIFACT_BYTES
      ensures Smooth(old(clock), clock) && !o.Done? ==>
                !o.Died? && !(Capturable(req) && TotalBytes(FrozenFiles(req)) <= MAX_ARTIFACT_BYTES)
    {
      var i, p := |files|, req.paths[|files|];
      if p in req.submodules { return Refused(Submodule); }
      var pre, post := Capture(req.destination, p), Capture(req.source, p);
      if pre.None? || post.None? { return Refused(Unreadable); }
      var entry := Entry(i, p, pre.value, post.value);
      FreezesNext(files, req, entry);
      var total := bytes + Length(pre.value.1) + Length(post.value.1);
      FreezesWithin(files + [entry], req);
      if total > MAX_ARTIFACT_BYTES { return Refused(TooLarge); }
      StoredNext(dirs[req.transactionId].payloads, req, i, pre.value.1, post.value.1);
      var w := WritePayloads(req.transactionId, i, pre.value.1, post.value.1);
      if !w.Done? { return if w.Died? then Died else Refused(w.reason); }
      o := Done((entry, total));
    }

    /** The manifest and then, last, its digest: a directory cut off before is never complete. */
    method Seal(req: Request, files: seq<FileArtifact>) returns (o: Outcome<()>)
      requires Capturable(req) && files == FrozenFiles(req)
      requires req.transactionId in dirs && dirs[req.transactionId].sidecar == None
      requires Stored(dirs[req.transactionId].payloads, req, |req.paths|)
      modifies this`clock, this`dirs
      ensures clock >= old(clock)
      ensures Elsewhere(old(dirs), dirs, req.transactionId) && req.transactionId in dirs
      ensures o.Done? <==> Smooth(old(clock), clock)
      ensures o.Done? ==> Complete(dirs[req.transactionId], req)
      ensures dirs[req.transactionId].sidecar.Some? ==> Complete(dirs[req.transactionId], req)
    {
      var id := req.transactionId;
      var m := Manifest(1, id, req.sourceIdentity, req.destinationIdentity, files);
      o := Write(id, dirs[id].(manifest := Some(Json(m))));
      if !o.Done? { return; }
      o := Write(id, dirs[id].(sidecar := Some(BlobSha256(Json(m)))));
      if !o.Done? { return; }
      o := Step(Io);
    }

    /** What runs inside the new directory. */
    method Fill(req: Request) returns (o: Outcome<Prepared>)
      requires |req.paths| <= MAX_ARTIFACT_FILES && req.transactionId in dirs && dirs[req.transactionId] == EMPTY
      modifies this`clock, this`dirs
      ensures clock >= old(clock)
      ensures Elsewhere(old(dirs), dirs, req.transactionId) && req.transactionId in dirs
      ensures dirs[req.transactionId].sidecar.Some? ==> Complete(dirs[req.transactionId], req)
      ensures o.Done? ==>
                && Complete(dirs[req.transactionId], req) && TotalBytes(FrozenFiles(req)) <= MAX_ARTIFACT_BYTES
                && o.value == PreparedOf(req)
      ensures Smooth(old(clock), clock) ==>
                && !o.Died?
                && (o.Done? <==> Capturable(req) && TotalBytes(FrozenFiles(req)) <= MAX_ARTIFACT_BYTES)
    {
      var frozen := FreezePaths(req);
      if !frozen.Done? { return if frozen.Died? then Died else Refused(frozen.reason); }
      var files := frozen.value.0;
      var w := Seal(req, files);
      if !w.Done? { return if w.Died? then Died else Refused(w.reason); }
      assert Paths(files) == req.paths;
      o := Done(Prepared(dirs[req.transactionId].sidecar.value, |files|, frozen.value.1, Paths(files)));
    }

    /** `create_private_dir` of a subdirectory: made, and then its mode is set. */
    method MakeSubdirectory() returns (o: Outcome<()>)
      modifies this`clock
      ensures old(clock) < clock <= old(clock) + 2 && Smooth(old(clock), clock - 1)
      ensures o == Ends(fate(clock - 1), Io)
      ensures clock < old(clock) + 2 ==> !o.Done?
    {
      o := Step(Io);
      if !o.Done? { return; }
      o := Step(Io);
    }

    /** The new directory, its mode, and its two subdirectories; once made, it stays when a later step fails. */
    method MakeDirectory(id: string) returns (o: Outcome<()>)
      requires id !in dirs
      modifies this`clock, this`dirs
      ensures old(clock) < clock <= old(clock) + 1 + SET_UP && Smooth(old(clock), clock - 1)
      ensures o == Ends(fate(clock - 1), Io)
      ensures clock < old(clock) + 1 + SET_UP ==> !o.Done?
      ensures dirs == if fate(old(clock)) == Go then old(dirs)[id := EMPTY] else old(dirs)
    {
      o := Step(Io);
      if !o.Done? { return; }
      dirs := dirs[id := EMPTY];
      o := Step(Io);
      if !o.Done? { return; }
      o := MakeSubdirectory();
      if !o.Done? { return; }
      o := MakeSubdirectory();
    }

    /** The cleanup after a failure, whose own error is dropped. */
    method Remove(id: string) returns (dead: bool)
      requires id in dirs
      modifies this`clock, this`dirs
      ensures clock == old(clock) + 1 && dead == fate(old(clock)).Die?
      ensures dirs == if fate(old(clock)) == Go then old(dirs) - {id} else old(dirs)[id := remains(old(clock))]
    {
      var left := remains(clock);
      var o := Step(Io);
      dirs := if o.Done? then dirs - {id} else dirs[id := left];
      dead := o.Died?;
    }

    /** What runs inside the new directory, and its removal when that fails. */
    method FillOrRemove(req: Request) returns (o: Outcome<Prepared>)
      requires |req.paths| <= MAX_ARTIFACT_FILES && req.transactionId in dirs && dirs[req.transactionId] == EMPTY
      modifies this`clock, this`dirs
      ensures clock >= old(clock)
      ensures Elsewhere(old(dirs), dirs, req.transactionId)
      ensures o.Done? ==>
                && req.transactionId in dirs && Complete(dirs[req.transactionId], req)
                && TotalBytes(FrozenFiles(req)) <= MAX_ARTIFACT_BYTES && o.value == PreparedOf(req)
      ensures Smooth(old(clock), clock) ==>
                && !o.Died?
                && (o.Done? <==> Capturable(req) && TotalBytes(FrozenFiles(req)) <= MAX_ARTIFACT_BYTES)
      ensures o.Refused? ==>
                && clock > old(clock)
                && dirs == if fate(clock - 1) == Go then old(dirs) - {req.transactionId}
                           else old(dirs)[req.transactionId := remains(clock - 1)]
    {
      o := Fill(req);
      if o.Refused? {
        ghost var filled := dirs;
        var dead := Remove(req.transactionId);
        Removed(old(dirs), filled, req.transactionId, remains(clock - 1));
        if dead { o := Died; }
      }
    }

    /** The writing part of a preparation. */
    method Create(req: Request) returns (o: Outcome<Prepared>)
      requires |req.paths| <= MAX_ARTIFACT_FILES && req.transactionId !in dirs
      modifies this`clock, this`dirs
      ensures clock > old(clock)
      ensures Elsewhere(old(dirs), dirs, req.transactionId)
      ensures o.Done? ==>
                && req.transactionId in dirs && Complete(dirs[req.transactionId], req)
                && TotalBytes(FrozenFiles(req)) <= MAX_ARTIFACT_BYTES && o.value == PreparedOf(req)
      ensures Smooth(old(clock), clock) ==>
                && !o.Died?
                && (o.Done? <==> Capturable(req) && TotalBytes(FrozenFiles(req)) <= MAX_ARTIFACT_BYTES)
      ensures fate(old(clock)) == Go && !Smooth(old(clock) + 1, old(clock) + 1 + SET_UP) ==>
                && dirs == old(dirs)[req.transactionId := EMPTY]
                && old(clock) + 2 <= clock <= old(clock) + 1 + SET_UP && Smooth(old(clock) + 1, clock - 1)
                && fate(clock - 1) != Go && o == if fate(clock - 1).Fail? then Refused(Io) else Died
      ensures o.Refused? ==>
                (dirs != old(dirs) <==>
                   && fate(old(clock)) == Go
                   && (!Smooth(old(clock) + 1, old(clock) + 1 + SET_UP) || fate(clock - 1) != Go))
      ensures o.Refused? && dirs != old(dirs) && Smooth(old(clock) + 1, old(clock) + 1 + SET_UP)
              ==> dirs == old(dirs)[req.transactionId := remains(clock - 1)]
    {
      var id := req.transactionId;
      ghost var before, made := dirs, clock;
      var w := MakeDirectory(id);
      assert before[id := EMPTY] - {id} == before - {id} == before;
      if !w.Done? { return if w.Died? then Died else Refused(w.reason); }
      assert fate(made) == Go && Smooth(made, made + 1 + SET_UP);
      o := FillOrRemove(req);
      assert before[id := EMPTY][id := remains(clock - 1)] == before[id := remains(clock - 1)];
    }

    /** The checks of Git and of the paths, before anything is written. */
    method Check(req: Request, fold: Path -> Path) returns (o: Outcome<()>)
      modifies this`clock
      ensures old(clock) < clock <= old(clock) + 4
      ensures o.Done? ==> Acceptable(req, fold) && clock == old(clock) + 4 && Smooth(old(clock), clock)
      ensures Acceptable(req, fold) && Smooth(old(clock), old(clock) + 4) ==> o.Done?
      ensures Smooth(old(clock), clock) ==> !o.Died? && (o.Done? <==> Acceptable(req, fold))
      ensures Smooth(old(clock), clock) && o.Refused? ==> FirstFault(req, fold) == Some(o.reason)
    {
      o := Step(IdentityChanged);
      if !o.Done? { return; }
      if !CleanTree(req.destination.files, req.head) { return Refused(NotClean); }
      o := Step(IdentityChanged);
      if !o.Done? { return; }
      if req.destinationIdentity.head != req.sourceIdentity.head { return Refused(HeadsDiffer); }
      o := Step(Io);
      if !o.Done? { return; }
      var distinct := CheckCaseDistinct(req.paths, fold);
      if !distinct { return Refused(CaseCollision); }
      if req.paths == [] { return Refused(NoChanges); }
      if |req.paths| > MAX_ARTIFACT_FILES { return Refused(TooManyFiles); }
      o := Step(Io);
      if !o.Done? { return; }
      if exists p | p in req.paths :: p in req.untracked { return Refused(UntrackedCollision); }
    }

    /** A prepare that starts here gets as far as making the directory. */
    ghost predicate Begins(req: Request, fold: Path -> Path, before: map<string, TransactionDir>, from: nat) {
      Acceptable(req, fold) && req.transactionId !in before && Smooth(from, from + 5)
    }

    /**
     `prepare_apply_artifacts`.  Other transactions and one that is already there are untouched.  A
     refusal leaves something of its own behind exactly when one of the steps that set up the
     directory fails, which nothing cleans up, or the removal, its last step, does.
     */
    method Prepare(req: Request, fold: Path -> Path) returns (o: Outcome<Prepared>)
      modifies this`clock, this`dirs
      ensures clock > old(clock)
      ensures Elsewhere(old(dirs), dirs, req.transactionId)
      ensures req.transactionId in old(dirs) ==> !o.Done? && dirs == old(dirs)
      ensures Acceptable(req, fold) && req.transactionId in old(dirs) && Smooth(old(clock), old(clock) + 4)
              ==> o == Refused(AlreadyExists)
      ensures o.Done? ==>
                && Preparable(req, fold) && o.value == PreparedOf(req)
                && req.transactionId in dirs && Complete(dirs[req.transactionId], req)
      ensures Smooth(old(clock), clock) ==>
                && !o.Died?
                && (o.Done? <==> Preparable(req, fold) && req.transactionId !in old(dirs))
                && (!o.Done? ==> dirs == old(dirs))
      ensures Smooth(old(clock), clock) && FirstFault(req, fold).Some? ==>
                o == Refused(FirstFault(req, fold).value)
      ensures Begins(req, fold, old(dirs), old(clock)) && !Smooth(old(clock) + 5, old(clock) + 5 + SET_UP) ==>
                && dirs == old(dirs)[req.transactionId := EMPTY]
                && old(clock) + 6 <= clock <= old(clock) + 5 + SET_UP && Smooth(old(clock) + 5, clock - 1)
                && fate(clock - 1) != Go && o == if fate(clock - 1).Fail? then Refused(Io) else Died
      ensures o.Refused? ==>
                (dirs != old(dirs) <==>
                   && Begins(req, fold, old(dirs), old(clock))
                   && (!Smooth(old(clock) + 5, old(clock) + 5 + SET_UP) || fate(clock - 1) != Go))
      ensures o.Refused? && dirs != old(dirs) && Smooth(old(clock) + 5, old(clock) + 5 + SET_UP)
              ==> dirs == old(dirs)[req.transactionId := remains(clock - 1)]
    {
      var id := req.transactionId;
      var w := Check(req, fold);
      if !w.Done? { return if w.Died? then Died else Refused(w.reason); }
      if id in dirs { return Refused(AlreadyExists); }
      o := Create(req);
    }
  }

  /** Whatever was in the directory is gone with it. */
  lemma Removed(before: map<string, TransactionDir>, filled: map<string, TransactionDir>, id: string,
                left: TransactionDir)
    requires Elsewhere(before, filled, id)
    ensures filled - {id} == before - {id} && filled[id := left] == before[id := left]
    ensures Elsewhere(before, filled - {id}, id) && Elsewhere(before, filled[id := left], id)
  {
    assert filled[id := left] == (filled - {id})[id := left] == (before - {id})[id := left];
    assert filled[id := left] - {id} == filled - {id};
    assert filled - {id} - {id} == filled - {id};
  }

  /** Any one step of the set-up fails, and the retry, with no fault left, is refused for what it left. */
  method FailedSetUpBlocksRetry(req: Request, fold: Path -> Path, step: nat)
    returns (root: ArtifactRoot, first: Outcome<Prepared>, second: Outcome<Prepared>)
    requires Acceptable(req, fold) && 5 <= step < 5 + SET_UP
    ensures first == Refused(Io) && second == Refused(AlreadyExists)
    ensures root.dirs == map[req.transactionId := EMPTY]
  {
    root := new ArtifactRoot(map[], n => if n == step then Fail(None) else Go, n => EMPTY);
    assert root.Begins(req, fold, root.dirs, 0);
    assert root.fate(step) != Go && !root.Smooth(5, 5 + SET_UP);
    first := root.Prepare(req, fold);
    assert root.clock - 1 == step && req.transactionId in root.dirs;
    assert root.Smooth(root.clock, root.clock + 4);
    second := root.Prepare(req, fold);
  }

  /** Only this transaction's directory may differ. */
  predicate Elsewhere(before: map<string, TransactionDir>, after: map<string, TransactionDir>, id: string) {
    before - {id} == after - {id}
  }

  /** What a prepare demands before it writes anything. */
  predicate Acceptable(req: Request, fold: Path -> Path) {
    && CleanTree(req.destination.files, req.head)
    && req.destinationIdentity.head == req.sourceIdentity.head
    && CaseDistinct(req.paths, fold)
    && 0 < |req.paths| <= MAX_ARTIFACT_FILES
    && forall p | p in req.paths :: p !in req.untracked
  }

  /** The first check that fails, in the order in which they are made. */
  function FirstFault(req: Request, fold: Path -> Path): (r: Option<Reason>)
    ensures r == None <==> Acceptable(req, fold)
  {
    if !CleanTree(req.destination.files, req.head) then Some(NotClean)
    else if req.destinationIdentity.head != req.sourceIdentity.head then Some(HeadsDiffer)
    else if !CaseDistinct(req.paths, fold) then Some(CaseCollision)
    else if req.paths == [] then Some(NoChanges)
    else if |req.paths| > MAX_ARTIFACT_FILES then Some(TooManyFiles)
    else if exists p | p in req.paths :: p in req.untracked then Some(UntrackedCollision)
    else None
  }

  function PreparedOf(req: Request): Prepared
    requires Capturable(req)
  {
    Prepared(BlobSha256(Json(ManifestOf(req))), |req.paths|, TotalBytes(FrozenFiles(req)), req.paths)
  }

  /** Where a prepare ends, the crash-safety results begin: its manifest is valid, loads, and is ours. */
  lemma PreparedIsOurs(req: Request, fold: Path -> Path, dir: TransactionDir)
    requires Preparable(req, fold) && TreeOk(req.destination) && TreeOk(req.source) && Complete(dir, req)
    ensures ValidManifest(ManifestOf(req), fold) && Loads(ManifestOf(req), dir, fold)
    ensures Intact(dir.payloads, FrozenFiles(req)) && AllGenuine(FrozenFiles(req))
    ensures Ours(FrozenFiles(req), req.destination, req.destination)
    ensures forall f :: f in FrozenFiles(req) ==> f.path in req.paths && Current(req.source, f.path) == Some(f.post)
    ensures forall p :: p in req.paths ==> InManifest(FrozenFiles(req), p)
  {
    PreparedLoads(req, fold, dir);
    PreparedIsFrozen(req, fold, dir.payloads);
    BaseIsKnown(FrozenFiles(req), req.destination);
  }

  /**
   From the request to the end: prepare, run anything on the destination, with a crash anywhere, and
   roll back until it answers.
   */
  method PrepareAndUndo(
    root: ArtifactRoot, worktree: Destination, req: Request, ops: seq<Operation>, fold: Path -> Path, calmFrom: nat)
    returns (prepared: Outcome<Prepared>, last: Outcome<Answer>)
    requires TreeOk(req.destination) && TreeOk(req.source)
    requires worktree.State() == req.destination && worktree.temps == map[]
    requires forall n: nat | calmFrom <= n :: worktree.fate(n) == Go
    modifies root, worktree
    ensures !prepared.Done? ==> worktree.State() == req.destination
    ensures prepared.Done? ==>
              && Preparable(req, fold) && Ours(FrozenFiles(req), req.destination, worktree.State())
              && (Changes(FrozenFiles(req)) ==>
                    || (last == Done(RolledBack) && worktree.files == req.destination.files)
                    || Torn(worktree.temps, FrozenFiles(req)))
              && (worktree.Untearing() ==> !Torn(worktree.temps, FrozenFiles(req)))
  {
    last := Died;
    prepared := root.Prepare(req, fold);
    if !prepared.Done? { return; }
    var dir := root.dirs[req.transactionId];
    PreparedIsOurs(req, fold, dir);
    var m := dir.manifest.value.manifest;
    last := worktree.OperateThenRollBack(ops, dir, m, fold, calmFrom, req.destination);
  }

  /** Equal readings are equal files. */
  lemma SameReadingSameFile(t: Tree, u: Tree, p: Path)
    requires Current(t, p).Some? && Current(t, p) == Current(u, p)
    ensures SameAt(t.files, u.files, p)
  {
  }

  /** What the manifest read AllPost for is the source, path by path. */
  lemma AllPostIsSource(req: Request, fold: Path -> Path, dir: TransactionDir, t: Tree)
    requires Preparable(req, fold) && TreeOk(req.destination) && TreeOk(req.source) && Complete(dir, req)
    requires Means(AllPost, t, FrozenFiles(req))
    ensures forall p :: p in req.paths ==> SameAt(req.source.files, t.files, p)
  {
    PreparedIsOurs(req, fold, dir);
    forall p | p in req.paths ensures SameAt(req.source.files, t.files, p) {
      assert InManifest(FrozenFiles(req), p);
      var f :| f in FrozenFiles(req) && f.path == p;
      SameReadingSameFile(req.source, t, p);
    }
  }

  /**
   What the whole engine is for: prepare and apply without faults.  The destination has the source's
   files at the changed paths, and its own everywhere else.
   */
  method PrepareAndApply(root: ArtifactRoot, worktree: Destination, req: Request, fold: Path -> Path)
    returns (prepared: Outcome<Prepared>, applied: Outcome<Answer>)
    requires TreeOk(req.destination) && TreeOk(req.source)
    requires worktree.State() == req.destination && worktree.temps == map[] && worktree.head == req.head
    requires worktree.Calm()
    modifies root, worktree
    ensures prepared.Done? ==> applied == Done(Applied)
    ensures prepared.Done? ==> req.transactionId in root.dirs && Reports(prepared.value, req, root.dirs, fold)
    ensures prepared.Done? ==> forall p :: p in req.paths ==> SameAt(req.source.files, worktree.files, p)
    ensures forall p :: p !in req.paths ==> SameAt(req.destination.files, worktree.files, p)
  {
    applied := Died;
    prepared := root.Prepare(req, fold);
    if !prepared.Done? { return; }
    var dir := root.dirs[req.transactionId];
    PreparedIsOurs(req, fold, dir);
    PreparedLoads(req, fold, dir);
    var m := dir.manifest.value.manifest;
    BaseIsNotMixed(m.files, req.destination);
    applied := worktree.Operate(ApplyOp(dir), m, fold, req.destination);
    AllPostIsSource(req, fold, dir, worktree.State());
  }

  /** What a preparation returned is true of what it wrote: under that digest the directory loads. */
  ghost predicate Reports(p: Prepared, req: Request, dirs: map<string, TransactionDir>, fold: Path -> Path)
    requires req.transactionId in dirs
  {
    var loaded := LoadManifest(req.transactionId, dirs[req.transactionId], p.digest, fold);
    && loaded.Success? && p.fileCount == |loaded.value.files| == |req.paths|
    && p.changed == req.paths == Paths(loaded.value.files)
    && p.artifactBytes == ManifestArtifactBytes(loaded.value.files)
  }

  lemma BaseIsNotMixed(fs: seq<FileArtifact>, base: Tree)
    requires Ours(fs, base, base)
    ensures !Means(MixedKnown, base, fs) && !Torn(map[], fs)
  {
    BaseReadsPre(fs, base, base);
  }

  // ------------------------------------------------- a manifest that changes nothing

  const SAME_TREE: Tree := Tree(map[["a"] := File([1], 420, 1)], {})

  /** An untracked file of the source that the destination has too, but ignores. */
  const UNCHANGED: Request := Request(
    "t", [["a"]], SAME_TREE, SAME_TREE,
    Identity("h", None, "i"), Identity("h", None, "i"), map[], {}, {})

  /** It can be prepared, and what is frozen reads AllPost from the start. */
  lemma UnchangedIsAllPost(fold: Path -> Path)
    ensures Preparable(UNCHANGED, fold) && TreeOk(SAME_TREE)
    ensures Means(AllPost, SAME_TREE, FrozenFiles(UNCHANGED)) && !Changes(FrozenFiles(UNCHANGED))
  {
    assert SafePath(["a"]) && Capture(SAME_TREE, ["a"]) == Some((RegularSnapshot([1], 420), Some([1])));
    assert forall p | p in UNCHANGED.paths :: p == ["a"];
    var fs := FrozenFiles(UNCHANGED);
    assert fs == [Entry(0, ["a"], Capture(SAME_TREE, ["a"]).value, Capture(SAME_TREE, ["a"]).value)];
    assert fs[..0] == [] && TotalBytes(fs) == TotalBytes(fs[..0]) + 2;
  }

  /** Its rollback fails at the last check, although nothing ever went wrong. */
  method RollBackUnchanged(worktree: Destination, dir: TransactionDir, fold: Path -> Path) returns (o: Outcome<Answer>)
    requires Complete(dir, UNCHANGED)
    requires worktree.State() == SAME_TREE && worktree.temps == map[] && worktree.Calm()
    modifies worktree
    ensures o == Refused(WrongPreimage) && worktree.State() == SAME_TREE
  {
    UnchangedIsAllPost(fold);
    PreparedIsOurs(UNCHANGED, fold, dir);
    var m := ManifestOf(UNCHANGED);
    assert !Torn(worktree.temps, m.files);
    BaseReadsPre(m.files, SAME_TREE, SAME_TREE);
    o := worktree.Operate(RollbackOp(dir), m, fold, SAME_TREE);
  }
}
