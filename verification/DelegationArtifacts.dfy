/**
 The transaction directory: payload files, the manifest and its digest; how `prepare` writes
 them and what `load_manifest` accepts.  The serialised manifest is symbolic: `Json(m)` is the
 text of `m`, and the digest of a text is equal to another only for the same text.
 */
module DelegationArtifacts {
  import opened Basics
  import opened DelegationManifest

  datatype Reason =
    | BadManifest | IdentityChanged | Io
    | TempDiverged | NotClean | PartiallyApplied | Diverged
    | UnsafePath | NotRegular | NoPayload | CorruptPayload | TempExists
    | HeadsDiffer | NoChanges | TooManyFiles | TooLarge | CaseCollision | UntrackedCollision
    | AlreadyExists | Submodule | Unreadable
    | WrongPostimage | WrongPreimage

  type PayloadStore = map<string, Bytes>

  /** `load_payload`: the stored bytes, once their length and digest match the snapshot. */
  function LoadPayload(store: PayloadStore, name: Option<string>, s: Snapshot): (r: Result<Option<Bytes>, Reason>)
    ensures r.Success? && s.kind.RegularKind? ==> r.value.Some? && s.digest == Sha256(r.value.value)
  {
    if s.kind.MissingKind? then Success(None)
    else if name.None? then Failure(NoPayload)
    else if name.value !in store then Failure(Io)
    else
      var bytes := store[name.value];
      if |bytes| != s.bytes || Sha256(bytes) != s.digest then Failure(CorruptPayload)
      else Success(Some(bytes))
  }

  /** Both payloads of every entry can be loaded. */
  ghost predicate Intact(store: PayloadStore, files: seq<FileArtifact>) {
    forall f :: f in files ==>
      && LoadPayload(store, f.prePayload, f.pre).Success?
      && LoadPayload(store, f.postPayload, f.post).Success?
  }

  datatype Blob = Json(manifest: Manifest) | Garbage(text: string)

  datatype BlobDigest = BlobSha256(of: Blob) | BlobText(text: string)

  datatype TransactionDir = TransactionDir(
    payloads: PayloadStore, manifest: Option<Blob>, sidecar: Option<BlobDigest>)

  // -------------------------------------------------------- payload file names

  predicate IsDigit(c: char) {
    '0' <= c <= '9'
  }

  function Pow10(k: nat): nat {
    if k == 0 then 1 else 10 * Pow10(k - 1)
  }

  /** The last `k` decimal digits of `n`, zero padded. */
  function Digits(n: nat, k: nat): (s: string)
    ensures |s| == k && forall c | c in s :: IsDigit(c)
  {
    if k == 0 then [] else Digits(n / 10, k - 1) + [('0' as int + n % 10) as char]
  }

  lemma {:induction false} DigitsInjective(n: nat, m: nat, k: nat)
    requires n < Pow10(k) && m < Pow10(k) && Digits(n, k) == Digits(m, k)
    ensures n == m
  {
    if k > 0 {
      var a, b := Digits(n / 10, k - 1), Digits(m / 10, k - 1);
      assert Digits(n, k)[..k - 1] == a && Digits(m, k)[..k - 1] == b;
      assert Digits(n, k)[k - 1] == Digits(m, k)[k - 1];
      DigitsInjective(n / 10, m / 10, k - 1);
    }
  }

  /** `{side}/{ordinal:08}.bin`. */
  function PayloadName(side: string, ordinal: nat): string {
    side + "/" + Digits(ordinal, 8) + ".bin"
  }

  /** `validate_payload_name`. */
  predicate ValidPayloadName(payload: Option<string>, prefix: string, s: Snapshot) {
    match (payload, s.kind)
    case (None, MissingKind) => true
    case (Some(value), RegularKind) =>
      var name := if prefix + "/" <= value then value[|prefix| + 1..] else "";
      |name| == 12 && name[8..] == ".bin" && forall i | 0 <= i < 8 :: IsDigit(name[i])
    case _ => false
  }

  lemma PayloadNamesDiffer(i: nat, j: nat)
    requires i < MAX_ARTIFACT_FILES && j < MAX_ARTIFACT_FILES
    ensures PayloadName("pre", i) != PayloadName("post", j)
    ensures i != j ==> PayloadName("pre", i) != PayloadName("pre", j)
    ensures i != j ==> PayloadName("post", i) != PayloadName("post", j)
  {
    assert PayloadName("pre", i)[1] != PayloadName("post", j)[1];
    assert Pow10(8) == 100_000_000;
    if PayloadName("pre", i) == PayloadName("pre", j) {
      assert PayloadName("pre", i)[4..12] == Digits(i, 8);
      assert PayloadName("pre", j)[4..12] == Digits(j, 8);
      DigitsInjective(i, j, 8);
    }
    if PayloadName("post", i) == PayloadName("post", j) {
      assert PayloadName("post", i)[5..13] == Digits(i, 8);
      assert PayloadName("post", j)[5..13] == Digits(j, 8);
      DigitsInjective(i, j, 8);
    }
  }

  lemma {:induction false} DigitsOf(s: string) returns (n: nat)
    requires forall i | 0 <= i < |s| :: IsDigit(s[i])
    ensures n < Pow10(|s|) && Digits(n, |s|) == s
  {
    n := 0;
    if s != [] {
      var k := |s| - 1;
      var front := DigitsOf(s[..k]);
      var d := s[k] as int - '0' as int;
      n := front * 10 + d;
      assert n / 10 == front && n % 10 == d;
      assert Digits(n, |s|) == s[..k] + [s[k]];
      assert s == s[..k] + [s[k]];
    }
  }

  /** The names that validation accepts are exactly those that a prepare can give. */
  lemma ValidNamesAreGiven(value: string, side: string, s: Snapshot)
    requires s.kind.RegularKind?
    ensures ValidPayloadName(Some(value), side, s)
            <==> exists n :: 0 <= n < 100_000_000 && value == PayloadName(side, n)
  {
    if ValidPayloadName(Some(value), side, s) {
      var n := NameIsGiven(value, side, s);
    }
    if n :| 0 <= n < 100_000_000 && value == PayloadName(side, n) {
      assert value[|side| + 1..] == Digits(n, 8) + ".bin";
      assert side + "/" == value[..|side| + 1];
    }
  }

  lemma NameIsGiven(value: string, side: string, s: Snapshot) returns (n: nat)
    requires s.kind.RegularKind? && ValidPayloadName(Some(value), side, s)
    ensures n < 100_000_000 && value == PayloadName(side, n)
  {
    assert Pow10(8) == 100_000_000;
    var name := value[|side| + 1..];
    n := DigitsOf(name[..8]);
    assert side + "/" + name == value;
    ThreeParts(side + "/", name);
  }

  lemma ThreeParts(front: string, name: string)
    requires |name| == 12
    ensures front + name == front + name[..8] + name[8..]
  {
  }

  // ------------------------------------------------------------------ sizes

  function TotalBytes(files: seq<FileArtifact>): nat {
    if files == [] then 0
    else TotalBytes(files[..|files| - 1]) + files[|files| - 1].pre.bytes + files[|files| - 1].post.bytes
  }

  /** `manifest_artifact_bytes`. */
  function ManifestArtifactBytes(files: seq<FileArtifact>): nat {
    if files == [] then 0
    else
      var last := files[|files| - 1];
      SaturatingAdd(ManifestArtifactBytes(files[..|files| - 1]), SaturatingAdd(last.pre.bytes, last.post.bytes))
  }

  lemma {:induction false} ArtifactBytesSaturate(files: seq<FileArtifact>)
    ensures ManifestArtifactBytes(files) == if TotalBytes(files) > U64_MAX then U64_MAX else TotalBytes(files)
  {
    if files != [] { ArtifactBytesSaturate(files[..|files| - 1]); }
  }

  lemma {:induction false} PrefixBytes(files: seq<FileArtifact>, i: nat)
    requires i <= |files|
    ensures TotalBytes(files[..i]) <= TotalBytes(files)
  {
    if i < |files| {
      PrefixBytes(files[..|files| - 1], i);
      assert files[..|files| - 1][..i] == files[..i];
    } else {
      assert files[..i] == files;
    }
  }

  lemma TotalBytesNext(files: seq<FileArtifact>, i: nat)
    requires i < |files|
    ensures TotalBytes(files[..i + 1]) == TotalBytes(files[..i]) + files[i].pre.bytes + files[i].post.bytes
    ensures TotalBytes(files[..i + 1]) <= TotalBytes(files)
  {
    assert files[..i + 1][..i] == files[..i];
    PrefixBytes(files, i + 1);
  }

  // ------------------------------------------------------ what a manifest must be

  predicate IsHex(s: string) {
    forall c | c in s :: IsDigit(c) || 'a' <= c <= 'f' || 'A' <= c <= 'F'
  }

  predicate ValidSnapshot(s: Snapshot) {
    && (s.digest.Text? ==> |s.digest.hex| == 64 && IsHex(s.digest.hex))
    && (s.kind.MissingKind? ==> s.bytes == 0 && s.fileMode == 0)
  }

  predicate ValidEntry(f: FileArtifact) {
    && SafePath(f.path) && ValidSnapshot(f.pre) && ValidSnapshot(f.post)
    && ValidPayloadName(f.prePayload, "pre", f.pre)
    && ValidPayloadName(f.postPayload, "post", f.post)
  }

  /** No two paths are equal once folded to lower case by `fold`. */
  predicate CaseDistinct(paths: seq<Path>, fold: Path -> Path) {
    forall i, j | 0 <= i < j < |paths| :: fold(paths[i]) != fold(paths[j])
  }

  function Paths(files: seq<FileArtifact>): (ps: seq<Path>)
    ensures |ps| == |files| && forall i | 0 <= i < |files| :: ps[i] == files[i].path
  {
    seq(|files|, i requires 0 <= i < |files| => files[i].path)
  }

  /** What `validate_manifest` accepts. */
  predicate ValidManifest(m: Manifest, fold: Path -> Path) {
    && 0 < |m.files| <= MAX_ARTIFACT_FILES
    && CaseDistinct(Paths(m.files), fold)
    && (forall f | f in m.files :: ValidEntry(f))
    && TotalBytes(m.files) <= MAX_ARTIFACT_BYTES
  }

  /** `validate_case_distinct_paths`. */
  method CheckCaseDistinct(paths: seq<Path>, fold: Path -> Path) returns (ok: bool)
    ensures ok <==> CaseDistinct(paths, fold)
  {
    var folded: set<Path> := {};
    for i := 0 to |paths|
      invariant CaseDistinct(paths[..i], fold)
      invariant forall q :: q in folded <==> exists j | 0 <= j < i :: fold(paths[j]) == q
    {
      if fold(paths[i]) in folded { return false; }
      folded := folded + {fold(paths[i])};
    }
    assert paths[..|paths|] == paths;
    ok := true;
  }

  lemma CaseDistinctPaths(files: seq<FileArtifact>, fold: Path -> Path, i: nat, j: nat)
    requires CaseDistinct(Paths(files), fold) && i < j < |files|
    ensures files[i].path != files[j].path
  {
    assert fold(Paths(files)[i]) != fold(Paths(files)[j]);
  }

  /** `validate_manifest`: one pass with a running size, so a size overflow is met on the way. */
  method ValidateManifest(m: Manifest, fold: Path -> Path) returns (ok: bool)
    ensures ok <==> ValidManifest(m, fold)
  {
    if m.files == [] || |m.files| > MAX_ARTIFACT_FILES { return false; }
    var distinct := CheckCaseDistinct(Paths(m.files), fold);
    if !distinct { return false; }
    var seen: set<Path> := {};
    var bytes := 0;
    for i := 0 to |m.files|
      invariant seen == set j | 0 <= j < i :: m.files[j].path
      invariant bytes == TotalBytes(m.files[..i])
      invariant forall j | 0 <= j < i :: ValidEntry(m.files[j])
      invariant bytes <= MAX_ARTIFACT_BYTES
    {
      var f := m.files[i];
      assert f in m.files;
      TotalBytesNext(m.files, i);
      forall j | 0 <= j < i ensures m.files[j].path != f.path { CaseDistinctPaths(m.files, fold, j, i); }
      bytes := bytes + f.pre.bytes + f.post.bytes;
      if f.path in seen || bytes > MAX_ARTIFACT_BYTES || !ValidEntry(f) { return false; }
      seen := seen + {f.path};
    }
    assert m.files[..|m.files|] == m.files;
    ok := true;
  }

  /** `load_manifest`: the manifest of a transaction directory, if its digest is the expected one. */
  function LoadManifest(transactionId: string, dir: TransactionDir, expected: BlobDigest, fold: Path -> Path)
    : Result<Manifest, Reason>
  {
    if dir.manifest.None? || dir.sidecar.None? then Failure(Io)
    else
      var calculated := BlobSha256(dir.manifest.value);
      if dir.sidecar.value != calculated || expected != calculated then Failure(BadManifest)
      else match dir.manifest.value
        case Garbage(_) => Failure(BadManifest)
        case Json(m) =>
          if m.version != 1 || m.transactionId != transactionId || !ValidManifest(m, fold) then Failure(BadManifest)
          else Success(m)
  }

  /** A directory loads exactly when it holds this manifest under its own digest, and the manifest is valid. */
  lemma LoadsExactlyWhen(m: Manifest, dir: TransactionDir, fold: Path -> Path)
    ensures LoadManifest(m.transactionId, dir, BlobSha256(Json(m)), fold).Success?
            <==> dir.manifest == Some(Json(m)) && dir.sidecar == Some(BlobSha256(Json(m)))
                 && m.version == 1 && ValidManifest(m, fold)
    ensures forall r :: LoadManifest(m.transactionId, dir, BlobSha256(Json(m)), fold) == Success(r) ==> r == m
  {
  }

  /** A missing file has no size and no mode, and a digest somebody wrote is 64 hexadecimal digits. */
  predicate IsPlain(s: Snapshot) {
    && (s.kind == MissingKind ==> s.bytes == 0 && s.fileMode == 0)
    && (s.digest.Text? ==>
         && |s.digest.hex| == 64
         && forall i | 0 <= i < 64 ::
              var c := s.digest.hex[i];
              '0' <= c <= '9' || 'a' <= c <= 'f' || 'A' <= c <= 'F')
  }

  lemma ValidIsPlain(s: Snapshot)
    requires ValidSnapshot(s)
    ensures IsPlain(s)
  {
    if s.digest.Text? {
      forall i | 0 <= i < 64
        ensures var c := s.digest.hex[i]; '0' <= c <= '9' || 'a' <= c <= 'f' || 'A' <= c <= 'F'
      {
        assert s.digest.hex[i] in s.digest.hex;
      }
    }
  }

  /** What a loaded manifest can name: nothing outside the worktree, and no more than the limits. */
  lemma LoadedStaysInside(id: string, dir: TransactionDir, expected: BlobDigest, fold: Path -> Path)
    requires LoadManifest(id, dir, expected, fold).Success?
    ensures
      var m := LoadManifest(id, dir, expected, fold).value;
      && m.transactionId == id && m.version == 1 && expected == BlobSha256(Json(m))
      && 1 <= |m.files| <= 10_000 && TotalBytes(m.files) <= 512 * 1024 * 1024
      && (forall i, j | 0 <= i < j < |m.files| ::
            m.files[i].path != m.files[j].path && fold(m.files[i].path) != fold(m.files[j].path))
      && (forall f, c | f in m.files && c in f.path :: c !in {"", ".", ".."} && '/' !in c && '\0' !in c)
      && (forall f | f in m.files :: f.path != []
            && f.pre.kind.RegularKind? == f.prePayload.Some? && f.post.kind.RegularKind? == f.postPayload.Some?
            && IsPlain(f.pre) && IsPlain(f.post))
  {
    var m := LoadManifest(id, dir, expected, fold).value;
    forall f | f in m.files ensures IsPlain(f.pre) && IsPlain(f.post) {
      assert ValidEntry(f);
      ValidIsPlain(f.pre);
      ValidIsPlain(f.post);
    }
    forall i, j | 0 <= i < j < |m.files|
      ensures m.files[i].path != m.files[j].path && fold(m.files[i].path) != fold(m.files[j].path)
    {
      CaseDistinctPaths(m.files, fold, i, j);
      assert fold(Paths(m.files)[i]) != fold(Paths(m.files)[j]);
    }
  }

  // ---------------------------------------------------------------- prepare

  /** What Git and the two worktrees say when a prepare starts; `head` is the destination's commit. */
  datatype Request = Request(
    transactionId: string, paths: seq<Path>, source: Tree, destination: Tree,
    sourceIdentity: Identity, destinationIdentity: Identity, head: map<Path, Tracked>,
    untracked: set<Path>, submodules: set<Path>)

  datatype Prepared = Prepared(digest: BlobDigest, fileCount: nat, artifactBytes: nat, changed: seq<Path>)

  /** The entry frozen for the path at `ordinal`. */
  function Entry(ordinal: nat, p: Path, pre: (Snapshot, Option<Bytes>), post: (Snapshot, Option<Bytes>)): FileArtifact {
    FileArtifact(p, pre.0, post.0,
      if pre.1.Some? then Some(PayloadName("pre", ordinal)) else None,
      if post.1.Some? then Some(PayloadName("post", ordinal)) else None)
  }

  predicate Capturable(req: Request) {
    forall p | p in req.paths ::
      Capture(req.destination, p).Some? && Capture(req.source, p).Some? && p !in req.submodules
  }

  /** The entries a prepare writes, one for each path. */
  function FrozenFiles(req: Request): (fs: seq<FileArtifact>)
    requires Capturable(req)
    ensures |fs| == |req.paths|
    ensures forall i | 0 <= i < |fs| ::
      fs[i] == Entry(i, req.paths[i], Capture(req.destination, req.paths[i]).value,
        Capture(req.source, req.paths[i]).value)
  {
    seq(|req.paths|, i requires 0 <= i < |req.paths| =>
      Entry(i, req.paths[i], Capture(req.destination, req.paths[i]).value, Capture(req.source, req.paths[i]).value))
  }

  /** What `prepare_apply_artifacts` demands before and while it captures. */
  ghost predicate Preparable(req: Request, fold: Path -> Path) {
    && CleanTree(req.destination.files, req.head)
    && req.destinationIdentity.head == req.sourceIdentity.head
    && CaseDistinct(req.paths, fold)
    && 0 < |req.paths| <= MAX_ARTIFACT_FILES
    && (forall p :: p in req.paths ==> p !in req.untracked)
    && Capturable(req)
    && TotalBytes(FrozenFiles(req)) <= MAX_ARTIFACT_BYTES
  }

  /** The payload file of every captured content of the first `n` paths is in the store. */
  ghost predicate Stored(store: PayloadStore, req: Request, n: nat)
    requires n <= |req.paths|
  {
    forall i | 0 <= i < n ::
      && StoredAs(store, PayloadName("pre", i), Capture(req.destination, req.paths[i]))
      && StoredAs(store, PayloadName("post", i), Capture(req.source, req.paths[i]))
  }

  predicate StoredAs(store: PayloadStore, name: string, c: Option<(Snapshot, Option<Bytes>)>) {
    c.Some? && c.value.1.Some? ==> name in store && store[name] == c.value.1.value
  }

  function AddPayload(store: PayloadStore, name: string, bytes: Option<Bytes>): PayloadStore {
    if bytes.Some? then store[name := bytes.value] else store
  }

  lemma StoredNext(store: PayloadStore, req: Request, i: nat, pre: Option<Bytes>, post: Option<Bytes>)
    requires i < |req.paths| <= MAX_ARTIFACT_FILES && Stored(store, req, i)
    requires Capture(req.destination, req.paths[i]).Some? && Capture(req.destination, req.paths[i]).value.1 == pre
    requires Capture(req.source, req.paths[i]).Some? && Capture(req.source, req.paths[i]).value.1 == post
    ensures Stored(AddPayload(AddPayload(store, PayloadName("pre", i), pre), PayloadName("post", i), post), req, i + 1)
  {
    var store' := AddPayload(AddPayload(store, PayloadName("pre", i), pre), PayloadName("post", i), post);
    forall j | 0 <= j < i + 1
      ensures StoredAs(store', PayloadName("pre", j), Capture(req.destination, req.paths[j]))
      ensures StoredAs(store', PayloadName("post", j), Capture(req.source, req.paths[j]))
    {
      PayloadNamesDiffer(i, j);
      PayloadNamesDiffer(j, i);
    }
  }

  predicate FrozenAt(f: FileArtifact, req: Request, j: nat)
    requires j < |req.paths|
  {
    && Capture(req.destination, req.paths[j]).Some? && Capture(req.source, req.paths[j]).Some?
    && req.paths[j] !in req.submodules
    && f == Entry(j, req.paths[j], Capture(req.destination, req.paths[j]).value,
         Capture(req.source, req.paths[j]).value)
  }

  /** The entries of the first `|files|` paths. */
  ghost predicate Freezes(files: seq<FileArtifact>, req: Request) {
    |files| <= |req.paths| && forall j | 0 <= j < |files| :: FrozenAt(files[j], req, j)
  }

  function Length(bytes: Option<Bytes>): nat {
    if bytes.Some? then |bytes.value| else 0
  }

  lemma FreezesNext(files: seq<FileArtifact>, req: Request, entry: FileArtifact)
    requires Freezes(files, req) && |files| < |req.paths| && FrozenAt(entry, req, |files|)
    ensures Freezes(files + [entry], req)
    ensures TotalBytes(files + [entry]) == TotalBytes(files)
              + Length(Capture(req.destination, req.paths[|files|]).value.1)
                + Length(Capture(req.source, req.paths[|files|]).value.1)
  {
    TotalBytesMore(files, entry);
    EntryBytes(entry, req, |files|);
    forall j | 0 <= j <= |files| ensures FrozenAt((files + [entry])[j], req, j) {
      if j < |files| { assert FrozenAt(files[j], req, j); }
    }
  }

  lemma EntryBytes(f: FileArtifact, req: Request, j: nat)
    requires j < |req.paths| && FrozenAt(f, req, j)
    ensures f.pre.bytes == Length(Capture(req.destination, req.paths[j]).value.1)
    ensures f.post.bytes == Length(Capture(req.source, req.paths[j]).value.1)
  {
  }

  lemma TotalBytesMore(files: seq<FileArtifact>, entry: FileArtifact)
    ensures TotalBytes(files + [entry]) == TotalBytes(files) + entry.pre.bytes + entry.post.bytes
  {
    assert (files + [entry])[..|files|] == files;
  }

  lemma FreezesWithin(files: seq<FileArtifact>, req: Request)
    requires Freezes(files, req)
    ensures Capturable(req) ==> TotalBytes(files) <= TotalBytes(FrozenFiles(req))
  {
    if Capturable(req) {
      assert FrozenFiles(req)[..|files|] == files;
      PrefixBytes(FrozenFiles(req), |files|);
    }
  }

  lemma FreezesAll(files: seq<FileArtifact>, req: Request)
    requires Freezes(files, req) && |files| == |req.paths|
    ensures Capturable(req) && files == FrozenFiles(req)
  {
    forall p | p in req.paths
      ensures Capture(req.destination, p).Some? && Capture(req.source, p).Some? && p !in req.submodules
    {
      var j :| 0 <= j < |req.paths| && req.paths[j] == p;
      assert FrozenAt(files[j], req, j);
    }
    assert forall j | 0 <= j < |files| :: FrozenAt(files[j], req, j);
  }

  // ------------------------------------------------------- prepare and load agree

  /**
   Whatever `prepare` wrote, `load_manifest` gives back under the digest `prepare` returned, and
   the size `prepare` reported is the one `apply` computes again.
   */
  lemma PreparedLoads(req: Request, fold: Path -> Path, dir: TransactionDir)
    requires Preparable(req, fold)
    requires dir.manifest == Some(Json(
      Manifest(1, req.transactionId, req.sourceIdentity, req.destinationIdentity, FrozenFiles(req))))
    requires dir.sidecar == Some(BlobSha256(dir.manifest.value))
    ensures LoadManifest(req.transactionId, dir, dir.sidecar.value, fold) == Success(dir.manifest.value.manifest)
    ensures ManifestArtifactBytes(FrozenFiles(req)) == TotalBytes(FrozenFiles(req))
    ensures Paths(FrozenFiles(req)) == req.paths
  {
    var fs := FrozenFiles(req);
    assert Paths(fs) == req.paths;
    forall i | 0 <= i < |fs| ensures ValidEntry(fs[i]) {
      assert req.paths[i] in req.paths;
      EntryIsValid(i, req.paths[i], req.destination, req.source);
    }
    ArtifactBytesSaturate(fs);
  }

  lemma EntryIsValid(i: nat, p: Path, destination: Tree, source: Tree)
    requires Capture(destination, p).Some? && Capture(source, p).Some?
    ensures ValidEntry(Entry(i, p, Capture(destination, p).value, Capture(source, p).value))
  {
  }

  /** What every real directory tree satisfies. */
  ghost predicate TreeOk(t: Tree) {
    forall p :: p in t.files ==> p !in t.dirs && forall a :: [] < a < p ==> a in t.dirs
  }

  /**
   What `prepare` froze is a manifest frozen from the destination, with both images of every
   path in the payload files: the starting point of the crash-safety results.
   */
  lemma PreparedIsFrozen(req: Request, fold: Path -> Path, store: PayloadStore)
    requires Preparable(req, fold) && TreeOk(req.destination) && TreeOk(req.source)
    requires Stored(store, req, |req.paths|)
    ensures FrozenFrom(FrozenFiles(req), req.destination)
    ensures Intact(store, FrozenFiles(req))
    ensures forall f :: f in FrozenFiles(req) ==> f.path in req.paths && Current(req.source, f.path) == Some(f.post)
    ensures forall p :: p in req.paths ==> InManifest(FrozenFiles(req), p)
  {
    forall p | p in req.paths ensures InManifest(FrozenFiles(req), p) {
      var i :| 0 <= i < |req.paths| && req.paths[i] == p;
      assert FrozenFiles(req)[i].path == p;
    }
    PreparedDistinct(req, fold);
    PreparedIndependent(req);
    PreparedGenuine(req, store);
  }

  lemma PreparedDistinct(req: Request, fold: Path -> Path)
    requires Capturable(req) && CaseDistinct(req.paths, fold)
    ensures DistinctPaths(FrozenFiles(req))
  {
  }

  lemma PreparedIndependent(req: Request)
    requires Capturable(req) && TreeOk(req.destination) && TreeOk(req.source)
    ensures Independent(FrozenFiles(req))
  {
  }

  lemma PreparedGenuine(req: Request, store: PayloadStore)
    requires Capturable(req) && Stored(store, req, |req.paths|)
    ensures forall f | f in FrozenFiles(req) :: SafePath(f.path) && Genuine(f.pre) && Genuine(f.post)
    ensures ReadsPre(FrozenFiles(req), req.destination)
    ensures Intact(store, FrozenFiles(req))
  {
  }

  /** Two paths of one tree, one below the other, can both be captured only when neither is there. */
  lemma NestedCapturesAreMissing(t: Tree, p: Path, q: Path)
    requires TreeOk(t) && p < q && Capture(t, p).Some? && Capture(t, q).Some?
    ensures Capture(t, p).value.0 == MissingSnapshot() && Capture(t, q).value.0 == MissingSnapshot()
  {
  }
}
